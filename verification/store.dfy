/** The `art` table (src/db.js) and the statements the program runs against
    it, as a state machine over a rowid-ordered sequence of rows. `art_id` is
    an INTEGER PRIMARY KEY (the rowid: assigned as one more than the largest
    id), `url` is NOT NULL UNIQUE, `file_name` has no default, and `created` /
    `modified` default to the current time. Timestamps are clock readings; the
    table's `YYYY-MM-DD HH:MM:SS` text orders the same way. */
module ArtStore {
  import opened Base

  datatype Row = Row(
    artId: nat, url: string, catalog: string, license: string,
    fileName: Option<string>, artist: string, title: string, date: string,
    technique: string, location: string, form: string, kind: string,
    school: string, timeframe: string, created: nat, modified: nat)

  /** The rows in rowid order. */
  type Table = seq<Row>

  /** The columns an INSERT supplies (webGalleryOfArt.js). */
  datatype Record = Record(
    url: string, catalog: string, license: string, artist: string,
    title: string, date: string, technique: string, location: string,
    form: string, kind: string, school: string, timeframe: string)

  predicate IdsIncreasing(t: Table)
  {
    forall i, j | 0 <= i < j < |t| :: t[i].artId < t[j].artId
  }

  predicate UrlsUnique(t: Table)
  {
    forall i, j | 0 <= i < j < |t| :: t[i].url != t[j].url
  }

  /** The table constraints: ids are positive and in rowid order (so each id
      names at most one row) and no two rows share a url. */
  predicate Valid(t: Table)
  {
    && (forall i | 0 <= i < |t| :: t[i].artId >= 1)
    && IdsIncreasing(t)
    && UrlsUnique(t)
  }

  function Urls(t: Table): set<string>
  {
    set i | 0 <= i < |t| :: t[i].url
  }

  function Ids(t: Table): set<nat>
  {
    set i | 0 <= i < |t| :: t[i].artId
  }

  // ---------------------------------------------------------------------------
  // Opening the database (src/db.js)

  /** `CREATE TABLE IF NOT EXISTS art`: an existing table is kept as it is. */
  function Initialize(existing: Option<Table>): (t: Table)
    ensures existing.Some? ==> t == existing.value
    ensures existing.None? ==> Valid(t) && |t| == 0
  {
    if existing.Some? then existing.value else []
  }

  /** `get()`: the cached handle when there is one, otherwise a freshly
      initialised one, which becomes the cached handle. */
  function Get(cached: Option<Table>, existing: Option<Table>): (r: (Table, Option<Table>))
    ensures r.1 == Some(r.0)
    ensures cached.Some? ==> r.0 == cached.value
  {
    if cached.Some? then (cached.value, cached) else (Initialize(existing), Some(Initialize(existing)))
  }

  /** Once initialised, every `get()` returns the same handle, whatever the
      database file would now hold. */
  lemma {:induction false} GetIsMemoised(cached: Option<Table>, existing: Option<Table>, later: Option<Table>)
    ensures Get(Get(cached, existing).1, later) == Get(cached, existing)
    ensures cached.None? ==> Get(cached, existing).0 == Initialize(existing)
  {
  }

  // ---------------------------------------------------------------------------
  // INSERT (webGalleryOfArt.js)

  /** The id SQLite gives the next row: one more than the largest, 1 for an
      empty table. */
  function NextId(t: Table): (id: nat)
    requires IdsIncreasing(t)
    ensures id >= 1
    ensures forall i | 0 <= i < |t| :: t[i].artId < id
  {
    if |t| == 0 then 1 else t[|t| - 1].artId + 1
  }

  predicate HasUrl(t: Table, url: string)
  {
    exists i | 0 <= i < |t| :: t[i].url == url
  }

  function NewRow(id: nat, rec: Record, now: nat): Row
  {
    Row(id, rec.url, rec.catalog, rec.license, None, rec.artist, rec.title,
        rec.date, rec.technique, rec.location, rec.form, rec.kind, rec.school,
        rec.timeframe, now, now)
  }

  datatype InsertOutcome = Inserted(artId: nat) | Duplicate

  /** The INSERT statement: it fails on a url the table already holds (the
      error is only logged) and otherwise appends a row with a fresh id, no
      file name, and both timestamps set to now. */
  function Insert(t: Table, rec: Record, now: nat): (r: (Table, InsertOutcome))
    requires Valid(t)
    ensures Valid(r.0)
    ensures r.1 == Duplicate <==> rec.url in Urls(t)
    ensures r.1 == Duplicate ==> r.0 == t
    ensures r.1.Inserted? ==> r.1.artId !in Ids(t) && r.0 == t + [NewRow(r.1.artId, rec, now)]
    ensures Urls(r.0) == Urls(t) + {rec.url}
  {
    if HasUrl(t, rec.url) then
      assert rec.url in Urls(t);
      (t, Duplicate)
    else
      var id := NextId(t);
      var t' := t + [NewRow(id, rec, now)];
      assert rec.url !in Urls(t);
      assert Urls(t') == Urls(t) + {rec.url} by {
        assert forall i | 0 <= i < |t| :: t'[i] == t[i];
        assert t'[|t|].url == rec.url;
      }
      (t', Inserted(id))
  }

  /** A freshly inserted row has no file name yet and was created and
      modified at the time of the insert. */
  lemma {:induction false} InsertedRowIsPending(t: Table, rec: Record, now: nat)
    requires Valid(t) && rec.url !in Urls(t)
    ensures Insert(t, rec, now).1.Inserted?
    ensures var r := Insert(t, rec, now).0;
      |r| == |t| + 1 && r[|t|].fileName.None? && r[|t|].created == now && r[|t|].modified == now
      && r[|t|].url == rec.url
  {
  }

  // ---------------------------------------------------------------------------
  // UPDATE (src/images.js)

  /** `a` and `b` agree on every column except `file_name` and `modified`. */
  predicate SameExceptDownload(a: Row, b: Row)
  {
    a == b.(fileName := a.fileName, modified := a.modified)
  }

  lemma {:induction false} SameExceptDownloadTrans(a: Row, b: Row, c: Row)
    requires SameExceptDownload(a, b) && SameExceptDownload(b, c)
    ensures SameExceptDownload(a, c) && a.artId == c.artId && b.artId == c.artId
  {
  }

  /** `UPDATE art SET file_name=?, modified=now WHERE art_id=?`: only the row
      with that id changes, and only in those two columns; with no such row
      nothing changes. */
  function MarkDownloaded(t: Table, artId: nat, fileName: string, now: nat): (r: Table)
    ensures |r| == |t|
    ensures forall i | 0 <= i < |t| :: SameExceptDownload(r[i], t[i])
    ensures forall i | 0 <= i < |t| :: t[i].artId != artId ==> r[i] == t[i]
    ensures forall i | 0 <= i < |t| :: t[i].artId == artId ==> r[i].fileName == Some(fileName) && r[i].modified == now
    ensures Urls(r) == Urls(t) && Ids(r) == Ids(t)
    ensures Valid(t) ==> Valid(r)
  {
    var r := seq(|t|, i requires 0 <= i < |t| =>
      if t[i].artId == artId then t[i].(fileName := Some(fileName), modified := now) else t[i]);
    assert forall i | 0 <= i < |t| :: r[i].url == t[i].url && r[i].artId == t[i].artId;
    assert Urls(r) == Urls(t) by {
      forall u | u in Urls(t)
        ensures u in Urls(r)
      {
        var i :| 0 <= i < |t| && t[i].url == u;
        assert r[i].url == u;
      }
    }
    assert Ids(r) == Ids(t) by {
      forall a | a in Ids(t)
        ensures a in Ids(r)
      {
        var i :| 0 <= i < |t| && t[i].artId == a;
        assert r[i].artId == a;
      }
    }
    r
  }

  // ---------------------------------------------------------------------------
  // SELECT ... LIMIT

  /** SQLite's `LIMIT max` on `n` result rows: a negative limit means no limit. */
  function Limit(max: int, n: nat): (k: nat)
    ensures k <= n
    ensures max >= 0 ==> k <= max
    ensures k == n || k == max
  {
    if max < 0 || max >= n then n else max
  }

  /** The columns the downloader selects. */
  datatype Pending = Pending(artId: nat, url: string, title: string, artist: string, catalog: string)

  function Project(row: Row): Pending
  {
    Pending(row.artId, row.url, row.title, row.artist, row.catalog)
  }

  /** The rows that have a file name (`filed`) or have none (`!filed`), in
      rowid order. */
  function Filed(t: Table, filed: bool): (r: seq<Row>)
    ensures forall i | 0 <= i < |t| && t[i].fileName.Some? == filed :: t[i] in r
    ensures forall k | 0 <= k < |r| :: r[k].fileName.Some? == filed && r[k] in t
    ensures IdsIncreasing(t) ==> IdsIncreasing(r)
  {
    if |t| == 0 then []
    else
      var rest := Filed(t[1..], filed);
      FiledStep(t, filed, rest);
      if t[0].fileName.Some? == filed then [t[0]] + rest else rest
  }

  lemma {:induction false} FiledStep(t: Table, filed: bool, rest: seq<Row>)
    requires |t| > 0
    requires forall i | 0 <= i < |t[1..]| && t[1..][i].fileName.Some? == filed :: t[1..][i] in rest
    requires forall k | 0 <= k < |rest| :: rest[k].fileName.Some? == filed && rest[k] in t[1..]
    requires IdsIncreasing(t[1..]) ==> IdsIncreasing(rest)
    ensures var r := if t[0].fileName.Some? == filed then [t[0]] + rest else rest;
      && (forall i | 0 <= i < |t| && t[i].fileName.Some? == filed :: t[i] in r)
      && (forall k | 0 <= k < |r| :: r[k].fileName.Some? == filed && r[k] in t)
      && (IdsIncreasing(t) ==> IdsIncreasing(r))
  {
    var r := if t[0].fileName.Some? == filed then [t[0]] + rest else rest;
    FiledStepComplete(t, filed, rest, r);
    FiledStepSound(t, filed, rest, r);
    FiledStepIncreasing(t, filed, rest, r);
  }

  lemma {:induction false} FiledStepComplete(t: Table, filed: bool, rest: seq<Row>, r: seq<Row>)
    requires |t| > 0
    requires forall i | 0 <= i < |t[1..]| && t[1..][i].fileName.Some? == filed :: t[1..][i] in rest
    requires r == if t[0].fileName.Some? == filed then [t[0]] + rest else rest
    ensures forall i | 0 <= i < |t| && t[i].fileName.Some? == filed :: t[i] in r
  {
    forall i | 0 <= i < |t| && t[i].fileName.Some? == filed
      ensures t[i] in r
    {
      if i > 0 {
        assert t[i] == t[1..][i - 1];
      }
    }
  }

  lemma {:induction false} FiledStepSound(t: Table, filed: bool, rest: seq<Row>, r: seq<Row>)
    requires |t| > 0
    requires forall k | 0 <= k < |rest| :: rest[k].fileName.Some? == filed && rest[k] in t[1..]
    requires r == if t[0].fileName.Some? == filed then [t[0]] + rest else rest
    ensures forall k | 0 <= k < |r| :: r[k].fileName.Some? == filed && r[k] in t
  {
    forall k | 0 <= k < |rest|
      ensures rest[k] in t
    {
      var j :| 0 <= j < |t[1..]| && t[1..][j] == rest[k];
      assert t[j + 1] == rest[k];
    }
  }

  lemma {:induction false} FiledStepIncreasing(t: Table, filed: bool, rest: seq<Row>, r: seq<Row>)
    requires |t| > 0
    requires forall k | 0 <= k < |rest| :: rest[k] in t[1..]
    requires IdsIncreasing(t[1..]) ==> IdsIncreasing(rest)
    requires r == if t[0].fileName.Some? == filed then [t[0]] + rest else rest
    ensures IdsIncreasing(t) ==> IdsIncreasing(r)
  {
    if IdsIncreasing(t) {
      assert IdsIncreasing(t[1..]);
      forall k | 0 <= k < |rest|
        ensures t[0].artId < rest[k].artId
      {
        var j :| 0 <= j < |t[1..]| && t[1..][j] == rest[k];
        assert t[j + 1] == rest[k];
      }
      forall i, j | 0 <= i < j < |r|
        ensures r[i].artId < r[j].artId
      {
        if r != rest {
          assert r[j] == rest[j - 1];
          if i > 0 {
            assert r[i] == rest[i - 1];
          }
        }
      }
    }
  }

  /** Rows with no file name, in rowid order. */
  function NoFile(t: Table): seq<Row>
  {
    Filed(t, false)
  }

  /** The downloader's columns of the rows with no file name, in rowid order. */
  function Missing(t: Table): (r: seq<Pending>)
    ensures |r| == |NoFile(t)|
    ensures forall k | 0 <= k < |r| :: r[k] == Project(NoFile(t)[k])
  {
    var rows := NoFile(t);
    seq(|rows|, k requires 0 <= k < |rows| => Project(rows[k]))
  }

  /** Rows with a file name, in rowid order. */
  function WithFile(t: Table): seq<Row>
  {
    Filed(t, true)
  }

  predicate DistinctPending(s: seq<Pending>)
  {
    forall i, j | 0 <= i < j < |s| :: s[i].artId != s[j].artId
  }

  /** `SELECT art_id, url, title, artist, catalog FROM art WHERE file_name IS
      NULL ORDER BY random() LIMIT max`: as many rows without a file name as
      the limit allows, each at most once, in any order. */
  predicate IsMissingSelection(t: Table, max: int, picked: seq<Pending>)
  {
    var c := Missing(t);
    && |picked| == Limit(max, |c|)
    && (forall k | 0 <= k < |picked| :: picked[k] in c)
    && DistinctPending(picked)
  }

  /** One of the answers the random order allows: the first rows in rowid
      order. */
  function FirstMissing(t: Table, max: int): (picked: seq<Pending>)
    requires Valid(t)
    ensures IsMissingSelection(t, max, picked)
  {
    var c := Missing(t);
    c[..Limit(max, |c|)]
  }

  /** Every selected row is a row of the table without a file name. */
  lemma {:induction false} MissingSelectionRows(t: Table, max: int, picked: seq<Pending>, k: nat)
    requires IsMissingSelection(t, max, picked) && k < |picked|
    ensures exists i | 0 <= i < |t| :: t[i].fileName.None? && picked[k] == Project(t[i])
  {
    var c := Missing(t);
    var m :| 0 <= m < |c| && c[m] == picked[k];
    var row := NoFile(t)[m];
    assert row in t;
  }

  predicate DistinctRows(s: seq<Row>)
  {
    forall i, j | 0 <= i < j < |s| :: s[i].artId != s[j].artId
  }

  predicate ByModifiedDesc(s: seq<Row>)
  {
    forall i, j | 0 <= i < j < |s| :: s[i].modified >= s[j].modified
  }

  /** `SELECT * FROM art WHERE file_name IS NOT NULL ORDER BY modified DESC
      LIMIT max` (src/wallpapers.js): as many rows with a file as the limit
      allows, each at most once, most recently modified first, and no row
      left out was modified later than one returned (ties in any order). */
  predicate IsRecentSelection(t: Table, max: int, picked: seq<Row>)
  {
    var c := WithFile(t);
    && |picked| == Limit(max, |c|)
    && (forall k | 0 <= k < |picked| :: picked[k] in c)
    && DistinctRows(picked)
    && ByModifiedDesc(picked)
    && (forall r | r in c && r !in picked :: forall k | 0 <= k < |picked| :: r.modified <= picked[k].modified)
  }

  /** Insert `x` into a list sorted by `modified`, descending, after the rows
      modified no earlier. */
  function InsertByModified(x: Row, s: seq<Row>): (r: seq<Row>)
    requires ByModifiedDesc(s)
    ensures ByModifiedDesc(r) && multiset(r) == multiset(s) + multiset{x}
    ensures DistinctRows(s) && (forall k | 0 <= k < |s| :: s[k].artId != x.artId) ==> DistinctRows(r)
  {
    if |s| == 0 then [x]
    else if x.modified >= s[0].modified then
      ConsKeepsOrder(x, s);
      ConsKeepsDistinct(x, s);
      [x] + s
    else
      var rest := InsertByModified(x, s[1..]);
      InsertBehindHead(x, s, rest);
      [s[0]] + rest
  }

  /** Inserting behind the head: the head leads the tail with `x` inserted. */
  lemma {:induction false} InsertBehindHead(x: Row, s: seq<Row>, rest: seq<Row>)
    requires |s| > 0 && ByModifiedDesc(s) && x.modified < s[0].modified
    requires ByModifiedDesc(rest) && multiset(rest) == multiset(s[1..]) + multiset{x}
    requires DistinctRows(s[1..]) && (forall k | 0 <= k < |s[1..]| :: s[1..][k].artId != x.artId) ==> DistinctRows(rest)
    ensures ByModifiedDesc([s[0]] + rest) && multiset([s[0]] + rest) == multiset(s) + multiset{x}
    ensures DistinctRows(s) && (forall k | 0 <= k < |s| :: s[k].artId != x.artId) ==> DistinctRows([s[0]] + rest)
  {
    assert s == [s[0]] + s[1..];
    InsertedBelowHead(x, s, rest);
    ConsKeepsOrder(s[0], rest);
    ConsKeepsDistinct(s[0], rest);
  }

  /** A row modified no earlier than any row of a descending list can lead it. */
  lemma {:induction false} ConsKeepsOrder(h: Row, s: seq<Row>)
    requires ByModifiedDesc(s)
    requires forall k | 0 <= k < |s| :: s[k].modified <= h.modified
    ensures ByModifiedDesc([h] + s)
  {
    var r := [h] + s;
    forall i, j | 0 <= i < j < |r|
      ensures r[i].modified >= r[j].modified
    {
      assert r[j] == s[j - 1];
      if i > 0 {
        assert r[i] == s[i - 1];
      }
    }
  }

  /** A row whose id no row of a list has can lead it. */
  lemma {:induction false} ConsKeepsDistinct(h: Row, s: seq<Row>)
    ensures DistinctRows(s) && (forall k | 0 <= k < |s| :: s[k].artId != h.artId) ==> DistinctRows([h] + s)
  {
    var r := [h] + s;
    if DistinctRows(s) && (forall k | 0 <= k < |s| :: s[k].artId != h.artId) {
      forall i, j | 0 <= i < j < |r|
        ensures r[i].artId != r[j].artId
      {
        assert r[j] == s[j - 1];
        if i > 0 {
          assert r[i] == s[i - 1];
        }
      }
    }
  }

  /** Every row of `rest` (the tail with `x` inserted) ranks below the head:
      it is modified no later, and has another id when the ids are distinct. */
  lemma {:induction false} InsertedBelowHead(x: Row, s: seq<Row>, rest: seq<Row>)
    requires |s| > 0 && ByModifiedDesc(s) && x.modified < s[0].modified
    requires multiset(rest) == multiset(s[1..]) + multiset{x}
    ensures forall k | 0 <= k < |rest| :: rest[k].modified <= s[0].modified
    ensures DistinctRows(s) && (forall k | 0 <= k < |s| :: s[k].artId != x.artId) ==>
      && DistinctRows(s[1..])
      && (forall k | 0 <= k < |s[1..]| :: s[1..][k].artId != x.artId)
      && (forall k | 0 <= k < |rest| :: rest[k].artId != s[0].artId)
  {
    forall k | 0 <= k < |rest|
      ensures rest[k] == x || rest[k] in s[1..]
    {
      assert rest[k] in multiset(rest);
    }
  }

  /** A stable descending sort by `modified` (insertion sort). */
  function SortByModified(s: seq<Row>): (r: seq<Row>)
    ensures ByModifiedDesc(r) && multiset(r) == multiset(s)
    ensures DistinctRows(s) ==> DistinctRows(r)
  {
    if |s| == 0 then []
    else
      assert s == [s[0]] + s[1..];
      var rest := SortByModified(s[1..]);
      TailIdsDiffer(s, rest);
      InsertByModified(s[0], rest)
  }

  lemma {:induction false} TailIdsDiffer(s: seq<Row>, rest: seq<Row>)
    requires |s| > 0 && multiset(rest) == multiset(s[1..])
    ensures DistinctRows(s) ==> forall k | 0 <= k < |rest| :: rest[k].artId != s[0].artId
    ensures DistinctRows(s) ==> DistinctRows(s[1..])
  {
    forall k | 0 <= k < |rest|
      ensures rest[k] in s[1..]
    {
      assert rest[k] in multiset(rest);
    }
  }

  /** One of the answers the query allows: the rows with a file sorted by
      `modified`, descending, cut at the limit. */
  function MostRecent(t: Table, max: int): (picked: seq<Row>)
    requires Valid(t)
    ensures IsRecentSelection(t, max, picked)
  {
    var c := WithFile(t);
    assert DistinctRows(c);
    var sorted := SortByModified(c);
    SortedPrefixIsRecent(t, max, sorted);
    sorted[..Limit(max, |c|)]
  }

  /** Cutting a descending sort of the rows with a file at the limit answers
      the query. */
  lemma {:induction false} SortedPrefixIsRecent(t: Table, max: int, sorted: seq<Row>)
    requires ByModifiedDesc(sorted) && DistinctRows(sorted)
    requires multiset(sorted) == multiset(WithFile(t))
    ensures |sorted| == |WithFile(t)|
    ensures IsRecentSelection(t, max, sorted[..Limit(max, |WithFile(t)|)])
  {
    var c := WithFile(t);
    assert |sorted| == |multiset(sorted)| == |c|;
    var k := Limit(max, |c|);
    PrefixDrawnFrom(c, sorted, k);
    PrefixIsTop(c, sorted, k);
  }

  /** A prefix of a permutation of `c` takes its rows from `c`. */
  lemma {:induction false} PrefixDrawnFrom(c: seq<Row>, sorted: seq<Row>, k: nat)
    requires multiset(sorted) == multiset(c) && k <= |sorted|
    ensures forall m | 0 <= m < |sorted[..k]| :: sorted[..k][m] in c
  {
    forall m | 0 <= m < |sorted[..k]|
      ensures sorted[..k][m] in c
    {
      assert sorted[..k][m] == sorted[m];
      assert sorted[m] in multiset(sorted);
    }
  }

  /** No row of `c` left out of a prefix of a descending permutation was
      modified later than a row kept. */
  lemma {:induction false} PrefixIsTop(c: seq<Row>, sorted: seq<Row>, k: nat)
    requires ByModifiedDesc(sorted)
    requires multiset(sorted) == multiset(c) && k <= |sorted|
    ensures forall r | r in c && r !in sorted[..k] :: forall m | 0 <= m < |sorted[..k]| :: r.modified <= sorted[..k][m].modified
  {
    var picked := sorted[..k];
    forall r | r in c && r !in picked
      ensures forall m | 0 <= m < |picked| :: r.modified <= picked[m].modified
    {
      assert r in multiset(c);
      var j :| 0 <= j < |sorted| && sorted[j] == r;
      assert j >= k;
      forall m | 0 <= m < |picked|
        ensures r.modified <= picked[m].modified
      {
        assert picked[m] == sorted[m];
      }
    }
  }

  /** Every row of a recent selection has a downloaded file, so `create`
      always has an artwork path to hand on. */
  lemma {:induction false} RecentSelectionHasFiles(t: Table, max: int, picked: seq<Row>)
    requires IsRecentSelection(t, max, picked)
    ensures forall k | 0 <= k < |picked| :: picked[k].fileName.Some?
  {
    var c := WithFile(t);
    forall k | 0 <= k < |picked|
      ensures picked[k].fileName.Some?
    {
      var j :| 0 <= j < |c| && c[j] == picked[k];
    }
  }
}
