/**
 * The `dilbert` table as a value: its rows in insertion order and the
 * AUTOINCREMENT counter.  The SQL the scraper runs becomes functions here:
 * the UNIQUE check on insert, `order by pubdate desc limit n`, and the
 * largest `pubdate`.
 */
module Store {
  import opened Wrappers
  import opened Calendar
  import opened Comics

  datatype Table = Table(rows: seq<Row>, lastId: nat)

  predicate FilenameTaken(rows: seq<Row>, filename: string) {
    exists i :: 0 <= i < |rows| && rows[i].filename == filename
  }

  /** What the schema guarantees: unique filenames and ids, ids handed out by the counter. */
  ghost predicate ValidTable(t: Table) {
    && (forall i, j :: 0 <= i < j < |t.rows| ==> t.rows[i].filename != t.rows[j].filename)
    && (forall i, j :: 0 <= i < j < |t.rows| ==> t.rows[i].id != t.rows[j].id)
    && (forall i :: 0 <= i < |t.rows| ==> 1 <= t.rows[i].id <= t.lastId)
  }

  /**
   * `insert into dilbert (...) values (...)`: rejected when the filename is
   * already stored, otherwise one row appended with the next id and the
   * store's clock reading `now`.
   */
  function Insert(t: Table, c: Comic, now: int): (r: Result<Table, Error>)
    ensures r.Err? <==> FilenameTaken(t.rows, c.filename)
    ensures r.Err? ==> r.error == DuplicateFilename(c.filename)
    ensures r.Ok? ==> |r.value.rows| == |t.rows| + 1 && r.value.rows[..|t.rows|] == t.rows
    ensures r.Ok? ==> r.value.lastId == t.lastId + 1
    ensures r.Ok? && c.title != Some("") ==>
              FromRow(r.value.rows[|t.rows|]) == c.(id := Some(t.lastId + 1), updated := Some(now))
  {
    if FilenameTaken(t.rows, c.filename) then Err(DuplicateFilename(c.filename))
    else Ok(Table(t.rows + [ToRow(c, t.lastId + 1, now)], t.lastId + 1))
  }

  /** An insert keeps filenames and ids unique: the table never holds two rows for one file. */
  lemma InsertKeepsValid(t: Table, c: Comic, now: int)
    requires ValidTable(t)
    requires Insert(t, c, now).Ok?
    ensures ValidTable(Insert(t, c, now).value)
  {
    var u := Insert(t, c, now).value;
    forall i, j | 0 <= i < j < |u.rows|
      ensures u.rows[i].filename != u.rows[j].filename
    {
      if j == |t.rows| {
        assert u.rows[i] == t.rows[i];
      }
    }
  }

  // ---------------------------------------------------------------------
  // select pubdate from dilbert order by pubdate desc limit 1

  /** The largest `pubdate` stored, or None for an empty table. */
  function Latest(rows: seq<Row>): (r: Option<Day>)
    ensures r.None? <==> rows == []
  {
    if rows == [] then None
    else
      var last := rows[|rows| - 1].pubdate;
      match Latest(rows[..|rows| - 1])
      case None => Some(last)
      case Some(m) => Some(if m < last then last else m)
  }

  /** The latest date is the date of some stored row, and no stored row is newer. */
  lemma {:induction false} LatestBounds(rows: seq<Row>)
    requires rows != []
    ensures exists i :: 0 <= i < |rows| && rows[i].pubdate == Latest(rows).value
    ensures forall i :: 0 <= i < |rows| ==> rows[i].pubdate <= Latest(rows).value
  {
    var init := rows[..|rows| - 1];
    if init != [] {
      LatestBounds(init);
      var k :| 0 <= k < |init| && init[k].pubdate == Latest(init).value;
      assert rows[k] == init[k];
      assert forall i :: 0 <= i < |init| ==> rows[i] == init[i];
    }
  }

  /** A stored date no other stored date exceeds is the latest date. */
  lemma LatestIs(rows: seq<Row>, k: nat)
    requires k < |rows|
    requires forall i :: 0 <= i < |rows| ==> rows[i].pubdate <= rows[k].pubdate
    ensures Latest(rows) == Some(rows[k].pubdate)
  {
    LatestBounds(rows);
  }

  // ---------------------------------------------------------------------
  // select * from dilbert order by pubdate desc limit n

  predicate NewestFirst(rows: seq<Row>) {
    forall i, j :: 0 <= i < j < |rows| ==> rows[i].pubdate >= rows[j].pubdate
  }

  function InsertByDate(r: Row, s: seq<Row>): (o: seq<Row>)
    requires NewestFirst(s)
    ensures NewestFirst(o)
    ensures |o| == |s| + 1
    ensures multiset(o) == multiset(s) + multiset{r}
    ensures o[0].pubdate == if s == [] || r.pubdate >= s[0].pubdate then r.pubdate else s[0].pubdate
  {
    if s == [] || r.pubdate >= s[0].pubdate then
      ConsNewestFirst(r, s);
      [r] + s
    else
      var tail := InsertByDate(r, s[1..]);
      assert s == [s[0]] + s[1..];
      ConsNewestFirst(s[0], tail);
      [s[0]] + tail
  }

  lemma ConsNewestFirst(x: Row, s: seq<Row>)
    requires NewestFirst(s)
    requires s != [] ==> x.pubdate >= s[0].pubdate
    ensures NewestFirst([x] + s)
  {
    var o := [x] + s;
    forall i, j | 0 <= i < j < |o|
      ensures o[i].pubdate >= o[j].pubdate
    {
      if i == 0 && j > 1 {
        assert o[j] == s[j - 1];
        assert s[0].pubdate >= s[j - 1].pubdate;
      }
    }
  }

  /** The rows in the order the query returns them: newest first, ties in some order. */
  function SortNewestFirst(rows: seq<Row>): (s: seq<Row>)
    ensures NewestFirst(s)
    ensures |s| == |rows|
    ensures multiset(s) == multiset(rows)
  {
    if rows == [] then []
    else
      assert rows == [rows[0]] + rows[1..];
      InsertByDate(rows[0], SortNewestFirst(rows[1..]))
  }

  /** SQLite's `limit n`: a negative limit means no limit. */
  function Limit(num: int, n: nat): (r: nat)
    ensures r <= n
    ensures num >= 0 ==> r <= num
    ensures r < n ==> r == num
  {
    if num < 0 || num > n then n else num
  }

  /** The rows `select * ... order by pubdate desc limit num` yields. */
  function Query(rows: seq<Row>, num: int): seq<Row> {
    SortNewestFirst(rows)[..Limit(num, |rows|)]
  }

  /**
   * The query returns min(num, |rows|) rows (all of them for a negative num),
   * taken from the table, newest first, and every row it leaves out is no
   * newer than any row it returns.
   */
  lemma QueryNewest(rows: seq<Row>, num: int)
    ensures |Query(rows, num)| == if num < 0 || num > |rows| then |rows| else num
    ensures NewestFirst(Query(rows, num))
    ensures multiset(Query(rows, num)) <= multiset(rows)
    ensures forall r :: r in multiset(rows) - multiset(Query(rows, num)) ==>
              forall i :: 0 <= i < |Query(rows, num)| ==> r.pubdate <= Query(rows, num)[i].pubdate
  {
    var s := SortNewestFirst(rows);
    var k := Limit(num, |rows|);
    SplitSorted(s, k);
  }

  lemma SplitSorted(s: seq<Row>, k: nat)
    requires NewestFirst(s) && k <= |s|
    ensures NewestFirst(s[..k])
    ensures multiset(s) == multiset(s[..k]) + multiset(s[k..])
    ensures forall r :: r in multiset(s[k..]) ==> forall i :: 0 <= i < k ==> r.pubdate <= s[i].pubdate
  {
    assert s == s[..k] + s[k..];
    forall r | r in multiset(s[k..])
      ensures forall i :: 0 <= i < k ==> r.pubdate <= s[i].pubdate
    {
      var j :| 0 <= j < |s[k..]| && s[k..][j] == r;
      assert s[k + j] == r;
    }
  }

  /** The first row of a non-empty query carries the latest date. */
  lemma QueryHeadIsLatest(rows: seq<Row>)
    requires rows != []
    ensures Query(rows, 1) == [SortNewestFirst(rows)[0]]
    ensures Latest(rows) == Some(SortNewestFirst(rows)[0].pubdate)
  {
    var s := SortNewestFirst(rows);
    assert s[0] in multiset(rows);
    var k :| 0 <= k < |rows| && rows[k] == s[0];
    forall i | 0 <= i < |rows|
      ensures rows[i].pubdate <= rows[k].pubdate
    {
      assert rows[i] in multiset(s);
    }
    LatestIs(rows, k);
  }
}
