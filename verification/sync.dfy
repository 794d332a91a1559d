/**
 * The synchronisation the scraper runs, as functions over a `Table` value:
 * one day (`update_comic_by_pubdate`) and a whole catch-up run (`update`).
 * The outside world is an `Env`: the page fetcher, the image downloader and
 * the store's clock.  These functions specify the methods of `Scraper.Dilbert`
 * and carry the properties of repeated runs.
 */
module Sync {
  import opened Wrappers
  import opened Calendar
  import opened DateRange
  import opened Comics
  import opened Store

  /**
   * `fetch(url)` is the parsed page at `url`, or None when the request
   * fails; `download(filename, url)` stores the image and says whether that
   * worked; `clock(d)` is the store's timestamp for the row written for `d`.
   */
  datatype Env = Env(
    fetch: string -> Option<seq<Element>>,
    download: (string, string) -> bool,
    clock: Day -> int)

  /** `find_comic_by_pubdate` followed by `download_comic`. */
  function Fetched(env: Env, pubdate: Day): (r: Result<Comic, Error>)
    ensures r.Ok? <==> (var f := FindComicByPubdate(env.fetch, pubdate);
                        f.Ok? && f.value.url.Some? && env.download(f.value.filename, f.value.url.value))
    ensures r.Ok? ==> r == FindComicByPubdate(env.fetch, pubdate)
    ensures FindComicByPubdate(env.fetch, pubdate).Err? ==> r == FindComicByPubdate(env.fetch, pubdate)
    ensures r.Err? && FindComicByPubdate(env.fetch, pubdate).Ok? ==>
              r.error == DownloadFailed(FindComicByPubdate(env.fetch, pubdate).value.url)
  {
    var comic :- FindComicByPubdate(env.fetch, pubdate);
    if comic.url.Some? && env.download(comic.filename, comic.url.value) then Ok(comic)
    else Err(DownloadFailed(comic.url))
  }

  /**
   * `u` is `t` with one row per day of `days` appended, in order, each with
   * the file name derived from its day and a fresh id from the counter.
   */
  ghost predicate Appended(t: Table, u: Table, days: seq<Day>) {
    && |u.rows| == |t.rows| + |days|
    && u.rows[..|t.rows|] == t.rows
    && u.lastId == t.lastId + |days|
    && forall i :: 0 <= i < |days| ==>
         u.rows[|t.rows| + i].pubdate == days[i] && u.rows[|t.rows| + i].filename == FileNameFor(days[i])
  }

  lemma AppendedChain(t: Table, u: Table, v: Table, d: Day, days: seq<Day>)
    requires Appended(t, u, [d]) && Appended(u, v, days)
    ensures Appended(t, v, [d] + days)
  {
    assert v.rows[..|u.rows|][..|t.rows|] == v.rows[..|t.rows|];
  }

  /** `update_comic_by_pubdate`: fetch, download, then insert the row. */
  function Step(t: Table, env: Env, pubdate: Day): (r: Result<Table, Error>)
    ensures r.Ok? ==> Appended(t, r.value, [pubdate])
    ensures r.Err? && r.error.DuplicateFilename? ==> FilenameTaken(t.rows, FileNameFor(pubdate))
    ensures Fetched(env, pubdate).Err? ==> r.Err? && r.error == Fetched(env, pubdate).error
    ensures Fetched(env, pubdate).Ok? && !FilenameTaken(t.rows, FileNameFor(pubdate)) ==> r.Ok?
    ensures Fetched(env, pubdate).Ok? ==> r == Insert(t, Fetched(env, pubdate).value, env.clock(pubdate))
  {
    match Fetched(env, pubdate)
    case Err(e) => Err(e)
    case Ok(comic) => Insert(t, comic, env.clock(pubdate))
  }

  /** The state a run leaves: the table, how many days it stored, and why it stopped early. */
  datatype Run = Run(table: Table, done: nat, failure: Option<Error>)

  /**
   * The loop of `update`: the days are processed in order; the first error
   * ends the run and leaves the table as the failing day found it.
   */
  function SyncDates(t: Table, env: Env, days: seq<Day>): (r: Run)
    ensures r.done <= |days|
    ensures r.failure.None? <==> r.done == |days|
    ensures Appended(t, r.table, days[..r.done])
    ensures r.failure.Some? ==> FailsWith(r.table, env, days[r.done], r.failure.value)
    decreases |days|
  {
    if days == [] then Run(t, 0, None)
    else match Step(t, env, days[0])
      case Err(e) => Run(t, 0, Some(e))
      case Ok(t1) =>
        var rest := SyncDates(t1, env, days[1..]);
        PrependDay(t, t1, env, days, rest);
        Run(rest.table, rest.done + 1, rest.failure)
  }

  /** A run over the days after the first, seen as a run over all of them. */
  lemma PrependDay(t: Table, t1: Table, env: Env, days: seq<Day>, rest: Run)
    requires days != [] && rest.done < |days|
    requires Appended(t, t1, [days[0]]) && Appended(t1, rest.table, days[1..][..rest.done])
    requires rest.failure.Some? ==>
               rest.done < |days| - 1 && FailsWith(rest.table, env, days[1..][rest.done], rest.failure.value)
    ensures Appended(t, rest.table, days[..rest.done + 1])
    ensures rest.failure.Some? ==> FailsWith(rest.table, env, days[rest.done + 1], rest.failure.value)
  {
    AppendedChain(t, t1, rest.table, days[0], days[1..][..rest.done]);
    assert [days[0]] + days[1..][..rest.done] == days[..rest.done + 1];
  }

  /** One day of a run: the first day's step, then the run over the remaining days. */
  lemma SyncFrom(u: Table, env: Env, days: seq<Day>, i: nat)
    requires i < |days|
    ensures SyncDates(u, env, days[i..]) == match Step(u, env, days[i])
              case Err(e) => Run(u, 0, Some(e))
              case Ok(u1) =>
                var rest := SyncDates(u1, env, days[i + 1..]);
                Run(rest.table, rest.done + 1, rest.failure)
  {
    assert days[i..][0] == days[i] && days[i..][1..] == days[i + 1..];
  }

  /**
   * The first day `update` fetches: the day after the latest stored one, or,
   * for an empty store, the day after "ten days before today".
   */
  function StartDate(latest: Option<Day>, today: Day): (r: Result<Day, Error>)
    ensures r.Err? ==> r.error == DateOverflow
    ensures r.Err? <==> (latest.Some? && latest.value == MaxOrdinal) || (latest.None? && today <= 10)
    ensures r.Ok? && latest.Some? ==> r.value == latest.value + 1
    ensures r.Ok? && latest.None? ==> r.value == today - 9
  {
    var base :- match latest
                case Some(d) => Ok(d)
                case None => (match AddDays(today, -10)
                              case None => Err(DateOverflow)
                              case Some(d) => Ok(d));
    match AddDays(base, 1)
    case None => Err(DateOverflow)
    case Some(d) => Ok(d)
  }

  /** `update` run on the day `today`. */
  function UpdateRun(t: Table, env: Env, today: Day): Run {
    match StartDate(Latest(t.rows), today)
    case Err(e) => Run(t, 0, Some(e))
    case Ok(start) => SyncDates(t, env, Range(start, today))
  }

  /** `update` on the day `today`, over the rows `rows`, fetches `start` first. */
  predicate StartsAt(rows: seq<Row>, today: Day, start: Day) {
    StartDate(Latest(rows), today).Ok? && StartDate(Latest(rows), today).value == start
  }

  /** The step for day `d` on table `u` fails with the error `e`. */
  predicate FailsWith(u: Table, env: Env, d: Day, e: Error) {
    Step(u, env, d).Err? && Step(u, env, d).error == e
  }

  // ---------------------------------------------------------------------
  // Properties of runs

  /**
   * A run keeps the rows it found and appends consecutive days from its
   * start day on, none after `today`, each newer than every row it found;
   * when it fails, the failing day is the next one and is not after `today`.
   */
  lemma RunAddsConsecutiveDays(t: Table, env: Env, today: Day, start: Day, r: Run)
    requires StartsAt(t.rows, today, start)
    requires r == UpdateRun(t, env, today)
    ensures |r.table.rows| == |t.rows| + r.done
    ensures forall j :: 0 <= j < |t.rows| ==> r.table.rows[j] == t.rows[j] && t.rows[j].pubdate < start
    ensures forall j :: |t.rows| <= j < |r.table.rows| ==>
              && r.table.rows[j].pubdate == start + (j - |t.rows|) <= today
              && r.table.rows[j].filename == FileNameFor(r.table.rows[j].pubdate)
  {
    var days := Range(start, today);
    var run := SyncDates(t, env, days);
    assert r == run;
    AppendedRange(t, run.table, start, today, run.done);
    OlderThanStart(t.rows, today, start);
  }

  /** Where a run stops: after today, or at a day no later than today. */
  lemma RunStops(t: Table, env: Env, today: Day, start: Day, r: Run)
    requires StartsAt(t.rows, today, start)
    requires r == UpdateRun(t, env, today)
    ensures r.failure.Some? ==> start + r.done <= today
    ensures r.failure.None? ==> start + r.done == today + 1 || (start > today && r.done == 0)
  {
    assert r == SyncDates(t, env, Range(start, today));
  }

  /**
   * The day a run stops at is the next day of its range, `start + done`,
   * and its step fails with the error the run reports.
   */
  lemma FailingDay(t: Table, env: Env, today: Day, start: Day, r: Run)
    requires StartsAt(t.rows, today, start)
    requires r == UpdateRun(t, env, today)
    requires r.failure.Some?
    ensures r.done < |Range(start, today)| && Range(start, today)[r.done] == start + r.done
    ensures FailsWith(r.table, env, Range(start, today)[r.done], r.failure.value)
  {
    assert r == SyncDates(t, env, Range(start, today));
  }

  lemma OlderThanStart(rows: seq<Row>, today: Day, start: Day)
    requires StartsAt(rows, today, start)
    ensures forall j :: 0 <= j < |rows| ==> rows[j].pubdate < start
  {
    if rows != [] {
      LatestBounds(rows);
    }
  }

  lemma AppendedRange(t: Table, u: Table, start: Day, today: Day, n: nat)
    requires n <= |Range(start, today)|
    requires Appended(t, u, Range(start, today)[..n])
    ensures |u.rows| == |t.rows| + n
    ensures forall j :: 0 <= j < |t.rows| ==> u.rows[j] == t.rows[j]
    ensures forall j :: |t.rows| <= j < |u.rows| ==>
              && u.rows[j].pubdate == start + (j - |t.rows|) <= today
              && u.rows[j].filename == FileNameFor(u.rows[j].pubdate)
  {
    var days := Range(start, today);
    forall j | 0 <= j < |t.rows|
      ensures u.rows[j] == t.rows[j]
    {
      assert u.rows[j] == u.rows[..|t.rows|][j];
    }
    forall j | |t.rows| <= j < |u.rows|
      ensures u.rows[j].pubdate == start + (j - |t.rows|) <= today
      ensures u.rows[j].filename == FileNameFor(u.rows[j].pubdate)
    {
      var i := j - |t.rows|;
      assert days[..n][i] == days[i] == start + i;
    }
  }

  /** A store that already holds today (or later) is left as it is. */
  lemma CaughtUpIsNoOp(t: Table, env: Env, today: Day)
    requires Latest(t.rows).Some? && today <= Latest(t.rows).value < MaxOrdinal
    ensures UpdateRun(t, env, today) == Run(t, 0, None)
  {
    assert Range(Latest(t.rows).value + 1, today) == [];
  }

  /** An empty store is filled with the ten days ending today. */
  lemma BootstrapCoversTenDays(t: Table, env: Env, today: Day)
    requires t.rows == [] && today > 10
    ensures StartsAt(t.rows, today, today - 9)
    ensures Range(today - 9, today) == seq(10, i => today - 9 + i)
  {
  }

  /**
   * After a run the latest stored day is the last day it stored, or the
   * day before its start when it stored none.
   */
  lemma LatestAfterRun(t: Table, env: Env, today: Day, start: Day, r: Run)
    requires StartsAt(t.rows, today, start)
    requires r == UpdateRun(t, env, today)
    requires r.done > 0 || t.rows != []
    ensures start + r.done - 1 >= 1
    ensures Latest(r.table.rows).Some? && Latest(r.table.rows).value == start + r.done - 1
  {
    RunAddsConsecutiveDays(t, env, today, start, r);
    LatestOfRun(t, today, start, r);
  }

  lemma LatestOfRun(t: Table, today: Day, start: Day, r: Run)
    requires StartsAt(t.rows, today, start)
    requires r.done > 0 || t.rows != []
    requires |r.table.rows| == |t.rows| + r.done
    requires forall j :: 0 <= j < |t.rows| ==> r.table.rows[j] == t.rows[j] && t.rows[j].pubdate < start
    requires forall j :: |t.rows| <= j < |r.table.rows| ==> r.table.rows[j].pubdate == start + (j - |t.rows|)
    ensures start + r.done - 1 >= 1
    ensures Latest(r.table.rows).Some? && Latest(r.table.rows).value == start + r.done - 1
  {
    if r.done > 0 {
      LatestIs(r.table.rows, |r.table.rows| - 1);
    } else {
      assert r.table.rows == t.rows;
    }
  }

  /** After a successful run the latest stored day is `today` or later. */
  lemma SuccessReachesToday(t: Table, env: Env, today: Day)
    requires UpdateRun(t, env, today).failure.None?
    ensures Latest(UpdateRun(t, env, today).table.rows).Some?
    ensures today <= Latest(UpdateRun(t, env, today).table.rows).value
  {
    var r := UpdateRun(t, env, today);
    var start := StartDate(Latest(t.rows), today).value;
    RunStops(t, env, today, start, r);
    if r.done > 0 {
      LatestAfterRun(t, env, today, start, r);
    } else {
      NothingStored(t, env, today, r);
    }
  }

  /** A run that fails on some day has stored nothing for that day or later. */
  lemma FailedDayNotStored(t: Table, env: Env, today: Day, start: Day, r: Run)
    requires StartsAt(t.rows, today, start)
    requires r == UpdateRun(t, env, today)
    requires r.failure.Some?
    ensures forall i :: 0 <= i < |r.table.rows| ==> r.table.rows[i].pubdate < start + r.done
  {
    RunAddsConsecutiveDays(t, env, today, start, r);
    OlderThanResumePoint(t, start, r);
  }

  /**
   * Resumability: after a run that fails on some day, the next run (on any
   * day) starts again from that day, unless nothing at all was ever stored.
   */
  lemma FailedDayIsRetried(t: Table, env: Env, today: Day, start: Day, r: Run, later: Day)
    requires StartsAt(t.rows, today, start)
    requires r == UpdateRun(t, env, today)
    requires r.failure.Some? && (r.done > 0 || t.rows != [])
    ensures StartsAt(r.table.rows, later, start + r.done)
  {
    RunAddsConsecutiveDays(t, env, today, start, r);
    RunStops(t, env, today, start, r);
    LatestOfRun(t, today, start, r);
    StartAfter(r.table.rows, later, start + r.done - 1, start + r.done);
  }

  lemma OlderThanResumePoint(t: Table, start: Day, r: Run)
    requires |r.table.rows| == |t.rows| + r.done
    requires forall j :: 0 <= j < |t.rows| ==> r.table.rows[j] == t.rows[j] && t.rows[j].pubdate < start
    requires forall j :: |t.rows| <= j < |r.table.rows| ==> r.table.rows[j].pubdate == start + (j - |t.rows|)
    ensures forall i :: 0 <= i < |r.table.rows| ==> r.table.rows[i].pubdate < start + r.done
  {
    forall i | 0 <= i < |r.table.rows|
      ensures r.table.rows[i].pubdate < start + r.done
    {
      if i < |t.rows| {
        assert r.table.rows[i].pubdate == t.rows[i].pubdate < start;
      }
    }
  }

  lemma StartAfter(rows: seq<Row>, later: Day, last: Day, next: Day)
    requires Latest(rows).Some? && Latest(rows).value == last && next == last + 1
    ensures StartsAt(rows, later, next)
  {
  }

  /**
   * Idempotence: running `update` again on the same day changes nothing,
   * whether the first run completed or stopped at a failing day (as long as
   * the environment answers the same way).
   */
  lemma UpdateIdempotent(t: Table, env: Env, today: Day)
    ensures UpdateRun(UpdateRun(t, env, today).table, env, today).table == UpdateRun(t, env, today).table
  {
    var r := UpdateRun(t, env, today);
    if r.failure.None? {
      SuccessReachesToday(t, env, today);
      RepeatAfterSuccess(r.table, env, today);
    } else if r.done == 0 {
      RepeatIfUnchanged(t, env, today, r);
    } else {
      RepeatAfterProgress(t, env, today, r);
    }
  }

  /** A store already holding `today` or later is left alone. */
  lemma RepeatAfterSuccess(u: Table, env: Env, today: Day)
    requires Latest(u.rows).Some? && today <= Latest(u.rows).value
    ensures UpdateRun(u, env, today).table == u
  {
    if Latest(u.rows).value < MaxOrdinal {
      CaughtUpIsNoOp(u, env, today);
    }
  }

  lemma RepeatIfUnchanged(t: Table, env: Env, today: Day, r: Run)
    requires r == UpdateRun(t, env, today) && r.done == 0
    ensures UpdateRun(r.table, env, today).table == r.table
  {
    NothingStored(t, env, today, r);
  }

  /** A run that stored no day leaves the table exactly as it was. */
  lemma NothingStored(t: Table, env: Env, today: Day, r: Run)
    requires r == UpdateRun(t, env, today) && r.done == 0
    ensures r.table == t
  {
    if StartDate(Latest(t.rows), today).Ok? {
      var start := StartDate(Latest(t.rows), today).value;
      assert r == SyncDates(t, env, Range(start, today));
      assert r.table.rows == r.table.rows[..|t.rows|] == t.rows;
    }
  }

  /** A run that stored some days and then failed fails again, on the same day, when repeated. */
  lemma RepeatAfterProgress(t: Table, env: Env, today: Day, r: Run)
    requires r == UpdateRun(t, env, today) && r.done > 0 && r.failure.Some?
    ensures var again := UpdateRun(r.table, env, today);
            again.table == r.table && again.done == 0 && again.failure.Some? && again.failure.value == r.failure.value
  {
    var start := StartDate(Latest(t.rows), today).value;
    RunStops(t, env, today, start, r);
    LatestAfterRun(t, env, today, start, r);
    FailingDay(t, env, today, start, r);
    RepeatAfterFailure(r.table, env, today, start + r.done - 1, Range(start, today)[r.done], r.failure.value);
  }

  lemma RepeatAfterFailure(u: Table, env: Env, today: Day, last: Day, failed: Day, e: Error)
    requires Latest(u.rows).Some? && Latest(u.rows).value == last && failed == last + 1 <= today
    requires FailsWith(u, env, failed, e)
    ensures var r := UpdateRun(u, env, today);
            r.table == u && r.done == 0 && r.failure.Some? && r.failure.value == e
  {
    assert StartsAt(u.rows, today, failed);
    var next := Range(failed, today);
    assert next[0] == failed;
    FailsAgain(u, env, next, e);
  }

  /** A run whose first day fails stores nothing. */
  lemma FailsAgain(u: Table, env: Env, days: seq<Day>, e: Error)
    requires days != [] && FailsWith(u, env, days[0], e)
    ensures var r := SyncDates(u, env, days);
            r.table == u && r.done == 0 && r.failure.Some? && r.failure.value == e
  {
  }

  // ---------------------------------------------------------------------
  // What a run stores

  /**
   * `row` is what `update_comic_by_pubdate` writes for day `d` under id `id`:
   * the day's page and image were fetched, and the row is that day's draft
   * stamped by the store's clock.
   */
  ghost predicate StoredDraft(env: Env, d: Day, id: int, row: Row) {
    Fetched(env, d).Ok? && row == ToRow(Fetched(env, d).value, id, env.clock(d))
  }

  /** A successful day appends, under the next id, the draft it fetched and downloaded. */
  lemma FirstDayDraft(t: Table, env: Env, d: Day)
    requires Step(t, env, d).Ok?
    ensures |Step(t, env, d).value.rows| == |t.rows| + 1
    ensures Step(t, env, d).value.rows[..|t.rows|] == t.rows
    ensures Step(t, env, d).value.lastId == t.lastId + 1
    ensures StoredDraft(env, d, t.lastId + 1, Step(t, env, d).value.rows[|t.rows|])
  {
  }

  /**
   * Every day a run stores passed its fetch and download, and its row is that
   * day's draft, with the ids handed out in order and the clock's timestamp.
   */
  lemma {:induction false} SyncStoresDrafts(t: Table, env: Env, days: seq<Day>)
    ensures var r := SyncDates(t, env, days);
            forall i :: 0 <= i < r.done ==> StoredDraft(env, days[i], t.lastId + 1 + i, r.table.rows[|t.rows| + i])
    decreases |days|
  {
    if days != [] && Step(t, env, days[0]).Ok? {
      var t1 := Step(t, env, days[0]).value;
      var rest := SyncDates(t1, env, days[1..]);
      FirstDayDraft(t, env, days[0]);
      SyncStoresDrafts(t1, env, days[1..]);
      PrependDraft(t, t1, rest.table, env, days, rest.done);
    }
  }

  /** The drafts of a run over the days after the first, preceded by the first day's draft. */
  lemma PrependDraft(t: Table, t1: Table, u: Table, env: Env, days: seq<Day>, n: nat)
    requires days != [] && n < |days|
    requires |t1.rows| == |t.rows| + 1 && t1.lastId == t.lastId + 1
    requires |u.rows| >= |t1.rows| + n && u.rows[..|t1.rows|] == t1.rows
    requires StoredDraft(env, days[0], t.lastId + 1, t1.rows[|t.rows|])
    requires forall i :: 0 <= i < n ==> StoredDraft(env, days[1..][i], t1.lastId + 1 + i, u.rows[|t1.rows| + i])
    ensures forall i :: 0 <= i < n + 1 ==> StoredDraft(env, days[i], t.lastId + 1 + i, u.rows[|t.rows| + i])
  {
    forall i | 0 <= i < n + 1
      ensures StoredDraft(env, days[i], t.lastId + 1 + i, u.rows[|t.rows| + i])
    {
      if i == 0 {
        assert u.rows[|t.rows|] == u.rows[..|t1.rows|][|t.rows|];
      } else {
        assert days[i] == days[1..][i - 1];
        assert u.rows[|t.rows| + i] == u.rows[|t1.rows| + (i - 1)];
      }
    }
  }

  /** Every row `update` appends is the draft fetched and downloaded for its own date. */
  lemma UpdateStoresDrafts(t: Table, env: Env, today: Day)
    ensures var r := UpdateRun(t, env, today);
            forall j :: |t.rows| <= j < |r.table.rows| ==>
              StoredDraft(env, r.table.rows[j].pubdate, t.lastId + 1 + (j - |t.rows|), r.table.rows[j])
  {
    var r := UpdateRun(t, env, today);
    if StartDate(Latest(t.rows), today).Ok? {
      var start := StartDate(Latest(t.rows), today).value;
      var days := Range(start, today);
      SyncStoresDrafts(t, env, days);
      DraftsByDate(t, env, days, r.table, r.done);
    } else {
      assert r.table == t;
    }
  }

  lemma DraftsByDate(t: Table, env: Env, days: seq<Day>, u: Table, n: nat)
    requires n <= |days| && Appended(t, u, days[..n])
    requires forall i :: 0 <= i < n ==> StoredDraft(env, days[i], t.lastId + 1 + i, u.rows[|t.rows| + i])
    ensures forall j :: |t.rows| <= j < |u.rows| ==>
              StoredDraft(env, u.rows[j].pubdate, t.lastId + 1 + (j - |t.rows|), u.rows[j])
  {
    forall j | |t.rows| <= j < |u.rows|
      ensures StoredDraft(env, u.rows[j].pubdate, t.lastId + 1 + (j - |t.rows|), u.rows[j])
    {
      var i := j - |t.rows|;
      assert u.rows[j].pubdate == days[..n][i] == days[i];
    }
  }

  // ---------------------------------------------------------------------
  // Tables written only by runs

  /** Every row's filename is the one derived from its date. */
  ghost predicate Derived(rows: seq<Row>) {
    forall i :: 0 <= i < |rows| ==> rows[i].filename == FileNameFor(rows[i].pubdate)
  }

  /** In a valid table whose filenames are derived, no date is stored twice. */
  lemma OneRowPerDate(t: Table)
    requires ValidTable(t) && Derived(t.rows)
    ensures forall i, j :: 0 <= i < j < |t.rows| ==> t.rows[i].pubdate != t.rows[j].pubdate
  {
  }

  lemma {:induction false} SyncKeepsValid(t: Table, env: Env, days: seq<Day>)
    requires ValidTable(t) && Derived(t.rows)
    ensures ValidTable(SyncDates(t, env, days).table)
    ensures Derived(SyncDates(t, env, days).table.rows)
    decreases |days|
  {
    if days != [] {
      match Step(t, env, days[0])
      case Err(_) =>
      case Ok(t1) =>
        var comic := Fetched(env, days[0]).value;
        InsertKeepsValid(t, comic, env.clock(days[0]));
        assert t1 == Insert(t, comic, env.clock(days[0])).value;
        assert Derived(t1.rows) by {
          forall i | 0 <= i < |t1.rows|
            ensures t1.rows[i].filename == FileNameFor(t1.rows[i].pubdate)
          {
            if i < |t.rows| {
              assert t1.rows[i] == t.rows[i];
            }
          }
        }
        SyncKeepsValid(t1, env, days[1..]);
    }
  }

  /** `update` keeps the table valid and every filename derived from its date. */
  lemma UpdateKeepsValid(t: Table, env: Env, today: Day)
    requires ValidTable(t) && Derived(t.rows)
    ensures ValidTable(UpdateRun(t, env, today).table)
    ensures Derived(UpdateRun(t, env, today).table.rows)
  {
    match StartDate(Latest(t.rows), today)
    case Err(_) =>
    case Ok(start) => SyncKeepsValid(t, env, Range(start, today));
  }

  /**
   * On a table written only by runs, `update` never stops on the UNIQUE
   * constraint: every day it fetches is newer than all stored days, so its
   * file name is new.
   */
  lemma UpdateNeverDuplicates(t: Table, env: Env, today: Day)
    requires Derived(t.rows)
    ensures var r := UpdateRun(t, env, today);
            !(r.failure.Some? && r.failure.value.DuplicateFilename?)
  {
    var r := UpdateRun(t, env, today);
    if r.failure.Some? && r.failure.value.DuplicateFilename? {
      var start := StartDate(Latest(t.rows), today).value;
      RunAddsConsecutiveDays(t, env, today, start, r);
      var failed := start + r.done;
      assert r == SyncDates(t, env, Range(start, today));
      assert Range(start, today)[r.done] == failed;
      assert FilenameTaken(r.table.rows, FileNameFor(failed));
      var k :| 0 <= k < |r.table.rows| && r.table.rows[k].filename == FileNameFor(failed);
      assert r.table.rows[k].filename == FileNameFor(r.table.rows[k].pubdate);
      FileNameInjective(r.table.rows[k].pubdate, failed);
      assert false;
    }
  }
}
