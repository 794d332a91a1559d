/**
 * The `Dilbert` scraper object: it owns the `dilbert` table and updates it
 * in place.  Each method is proved against the functions of `Store` and
 * `Sync`, whose properties carry over to the object's state.
 */
module Scraper {
  import opened Wrappers
  import opened Calendar
  import opened DateRange
  import opened Comics
  import opened Store
  import opened Sync

  class Dilbert {
    /** The rows of the `dilbert` table, in insertion order. */
    var rows: seq<Row>
    /** The table's AUTOINCREMENT counter: the largest id ever handed out. */
    var lastId: nat

    function Contents(): Table
      reads this
    {
      Table(rows, lastId)
    }

    ghost predicate Valid()
      reads this
    {
      ValidTable(Contents())
    }

    /** Opening the database: the table holds whatever an earlier run stored. */
    constructor (stored: Table)
      requires ValidTable(stored)
      ensures Valid() && Contents() == stored
    {
      rows := stored.rows;
      lastId := stored.lastId;
    }

    /** `latest_date_in_db`: the date of the first row of the newest-first query, if any. */
    method LatestDateInDb() returns (latest: Option<Day>)
      ensures latest == Latest(rows)
    {
      latest := None;
      var result := Query(rows, 1);
      for i := 0 to |result|
        invariant latest == if i == 0 then None else Some(result[i - 1].pubdate)
      {
        latest := Some(result[i].pubdate);
      }
      if rows != [] {
        QueryHeadIsLatest(rows);
      }
    }

    /**
     * `comics(num)`: one record per row of the newest-first query limited
     * to `num` rows (all rows when `num` is negative).
     */
    method RecentComics(num: int) returns (comics: seq<Comic>)
      ensures |comics| == |Query(rows, num)|
      ensures forall i :: 0 <= i < |comics| ==> comics[i] == FromRow(Query(rows, num)[i])
      ensures |comics| == if num < 0 || num > |rows| then |rows| else num
      ensures forall i, j :: 0 <= i < j < |comics| ==> comics[i].pubdate >= comics[j].pubdate
    {
      comics := [];
      var result := Query(rows, num);
      for i := 0 to |result|
        invariant |comics| == i
        invariant forall k :: 0 <= k < i ==> comics[k] == FromRow(result[k])
      {
        comics := comics + [FromRow(result[i])];
      }
      QueryNewest(rows, num);
    }

    /**
     * `write_comic_to_db`: insert one row, or fail on the UNIQUE filename
     * column and leave the table as it was.
     */
    method WriteComicToDb(comic: Comic, now: int) returns (outcome: Result<(), Error>)
      requires Valid()
      modifies this
      ensures Valid()
      ensures outcome.Err? <==> FilenameTaken(old(rows), comic.filename)
      ensures outcome.Err? ==> outcome.error == DuplicateFilename(comic.filename) && Contents() == old(Contents())
      ensures outcome.Ok? ==> Contents() == Insert(old(Contents()), comic, now).value
    {
      var inserted := Insert(Contents(), comic, now);
      if inserted.Err? {
        return Err(inserted.error);
      }
      InsertKeepsValid(Contents(), comic, now);
      rows := inserted.value.rows;
      lastId := inserted.value.lastId;
      outcome := Ok(());
    }

    /** `update_comic_by_pubdate`: find the comic, download it, then write its row. */
    method UpdateComicByPubdate(env: Env, pubdate: Day) returns (outcome: Result<(), Error>)
      requires Valid()
      modifies this
      ensures Valid()
      ensures Step(old(Contents()), env, pubdate).Ok? ==>
                outcome.Ok? && Contents() == Step(old(Contents()), env, pubdate).value
      ensures Step(old(Contents()), env, pubdate).Err? ==>
                outcome == Err(Step(old(Contents()), env, pubdate).error) && Contents() == old(Contents())
    {
      var draft := FindComicByPubdate(env.fetch, pubdate);
      if draft.Err? {
        return Err(draft.error);
      }
      var comic := draft.value;
      if comic.url.None? || !env.download(comic.filename, comic.url.value) {
        return Err(DownloadFailed(comic.url));
      }
      outcome := WriteComicToDb(comic, env.clock(pubdate));
    }

    /**
     * `update` on the day `today`: from the day after the latest stored date
     * (or nine days before today on an empty table) through today, one day
     * at a time, stopping at the first failure.
     */
    method Update(env: Env, today: Day) returns (outcome: Result<(), Error>)
      requires Valid()
      modifies this
      ensures Valid()
      ensures Contents() == UpdateRun(old(Contents()), env, today).table
      ensures outcome.Err? <==> UpdateRun(old(Contents()), env, today).failure.Some?
      ensures outcome.Err? ==> outcome.error == UpdateRun(old(Contents()), env, today).failure.value
    {
      var latest := LatestDateInDb();
      var start := StartDate(latest, today);
      if start.Err? {
        return Err(start.error);
      }
      outcome := FetchDays(env, Range(start.value, today));
    }

    /** The loop of `update`: each day in turn, stopping at the first failure. */
    method FetchDays(env: Env, days: seq<Day>) returns (outcome: Result<(), Error>)
      requires Valid()
      modifies this
      ensures Valid()
      ensures Contents() == SyncDates(old(Contents()), env, days).table
      ensures outcome.Err? <==> SyncDates(old(Contents()), env, days).failure.Some?
      ensures outcome.Err? ==> outcome.error == SyncDates(old(Contents()), env, days).failure.value
    {
      ghost var total := SyncDates(Contents(), env, days);
      for i := 0 to |days|
        invariant Valid()
        invariant total == (var rest := SyncDates(Contents(), env, days[i..]);
                            Run(rest.table, rest.done + i, rest.failure))
      {
        ghost var before := Contents();
        SyncFrom(before, env, days, i);
        outcome := UpdateComicByPubdate(env, days[i]);
        if outcome.Err? {
          return;
        }
      }
      assert days[|days|..] == [];
      outcome := Ok(());
    }
  }
}
