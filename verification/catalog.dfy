/** The Web Gallery of Art catalog import (src/catalog/wgoa/webGalleryOfArt.js):
    each CSV row becomes a record with fixed provenance, `Unknown …` defaults
    for absent columns and the metadata normalisers applied, its page URL is
    rewritten to the image URL, and every record is offered to the table with
    an INSERT whose failure is only logged. */
module WebGalleryOfArt {
  import opened Base
  import opened Casing
  import opened Normalize
  import opened ArtStore

  /** A parsed CSV row: column name to cell text. */
  type CsvRow = map<string, string>

  /** `_get(row, key, default)`: the cell when the column is present. */
  function Field(row: CsvRow, key: string, default: string): string
  {
    if key in row then row[key] else default
  }

  // ---------------------------------------------------------------------------
  // The URL rewrite

  predicate OccursAt(s: string, pat: string, i: nat)
  {
    i + |pat| <= |s| && s[i..i + |pat|] == pat
  }

  /** Leftmost occurrence of `pat` at or after `from`. */
  function FindFrom(s: string, pat: string, from: nat): (r: Option<nat>)
    requires from <= |s|
    ensures r.Some? ==> from <= r.value && OccursAt(s, pat, r.value)
    ensures r.Some? ==> forall k | from <= k < r.value :: !OccursAt(s, pat, k)
    ensures r.None? ==> forall k | from <= k <= |s| :: !OccursAt(s, pat, k)
    decreases |s| - from
  {
    if OccursAt(s, pat, from) then Some(from)
    else if from == |s| then None
    else FindFrom(s, pat, from + 1)
  }

  /** `s.replace(pat, rep)` with a pattern without the global flag: only the
      leftmost occurrence is replaced. */
  function ReplaceFirst(s: string, pat: string, rep: string): (r: string)
  {
    match FindFrom(s, pat, 0)
    case None => s
    case Some(i) => s[..i] + rep + s[i + |pat|..]
  }

  /** `s.replace(/\.html$/, '.jpg')`: only a final `.html` is rewritten. */
  function ReplaceHtmlSuffix(s: string): (r: string)
    ensures !EndsWith(s, ".html") ==> r == s
    ensures EndsWith(s, ".html") ==> |r| == |s| - 1 && r[..|s| - 5] == s[..|s| - 5] && EndsWith(r, ".jpg")
  {
    if |s| >= 5 && s[|s| - 5..] == ".html" then s[..|s| - 5] + ".jpg" else s
  }

  /** The rewritten name never ends in `.html`, so a second rewrite changes
      nothing; and any `p.html` becomes `p.jpg`. */
  lemma {:induction false} ReplaceHtmlSuffixIdempotent(s: string, p: string)
    ensures ReplaceHtmlSuffix(ReplaceHtmlSuffix(s)) == ReplaceHtmlSuffix(s)
    ensures ReplaceHtmlSuffix(p + ".html") == p + ".jpg"
  {
    var r := ReplaceHtmlSuffix(s);
    if EndsWith(s, ".html") {
      JpgIsNotHtml(r);
    }
    assert (p + ".html")[|p|..] == ".html";
    assert (p + ".html")[..|p|] == p;
  }

  lemma {:induction false} JpgIsNotHtml(r: string)
    requires EndsWith(r, ".jpg")
    ensures !EndsWith(r, ".html")
  {
    assert r[|r| - 4] == r[|r| - 4..][0] == '.';
  }

  /** A `.html` that is not the final one survives the suffix rewrite in
      place: two occurrences of `.html` cannot overlap. */
  lemma {:induction false} InnerHtmlKept(s: string, i: nat)
    requires OccursAt(s, ".html", i) && i + 5 < |s|
    ensures OccursAt(ReplaceHtmlSuffix(s), ".html", i)
  {
    var r := ReplaceHtmlSuffix(s);
    if EndsWith(s, ".html") {
      var e := |s| - 5;
      assert OccursAt(s, ".html", e);
      HtmlApart(s, i, e);
      assert r[..e] == s[..e];
      assert r[i..i + 5] == s[..e][i..i + 5] == s[i..i + 5];
    }
  }

  /** `convertToImageUrl`: the first `/html/` becomes `/art/`, then a final
      `.html` becomes `.jpg`. */
  function ConvertToImageUrl(htmlUrl: string): string
  {
    ReplaceHtmlSuffix(ReplaceFirst(htmlUrl, "/html/", "/art/"))
  }

  /** A URL holding neither pattern is returned as it is; in particular a
      missing URL column (the default '') gives ''. */
  lemma {:induction false} ConvertWithoutPatterns(u: string)
    requires forall k | 0 <= k <= |u| :: !OccursAt(u, "/html/", k)
    requires !(|u| >= 5 && u[|u| - 5..] == ".html")
    ensures ConvertToImageUrl(u) == u
    ensures ConvertToImageUrl("") == ""
  {
    assert FindFrom(u, "/html/", 0).None?;
    assert FindFrom("", "/html/", 0).None?;
  }

  /** The rewrite of a page URL `prefix/html/path.html` whose first `/html/`
      is the one after `prefix`: the image URL is `prefix/art/path.jpg`, and
      any later `/html/` or inner `.html` in `path` is left alone. */
  lemma {:induction false} ConvertPageUrl(prefix: string, path: string)
    requires FindFrom(prefix + "/html/" + path + ".html", "/html/", 0) == Some(|prefix|)
    ensures ConvertToImageUrl(prefix + "/html/" + path + ".html") == prefix + "/art/" + path + ".jpg"
  {
    var u := prefix + "/html/" + path + ".html";
    assert u[..|prefix|] == prefix;
    assert u[|prefix| + 6..] == path + ".html";
    var v := prefix + "/art/" + (path + ".html");
    assert ReplaceFirst(u, "/html/", "/art/") == v;
    assert v[|v| - 5..] == ".html";
    assert v[..|v| - 5] == prefix + "/art/" + path;
  }

  /** Two occurrences of `.html` never overlap: a later one starting inside
      an earlier one would start with one of "html" instead of '.'. */
  lemma {:induction false} HtmlApart(s: string, i: nat, e: nat)
    requires OccursAt(s, ".html", i) && OccursAt(s, ".html", e) && i < e
    ensures i + 5 <= e
  {
    assert s[e] == s[e..e + 5][0] == '.';
    forall k | i < k < i + 5 && k < |s|
      ensures s[k] != '.'
    {
      assert s[k] == s[i..i + 5][k - i];
    }
  }

  /** Only the first `/html/` is replaced (the pattern has no global flag):
      every later occurrence is still there, one place to the left. */
  lemma {:induction false} OnlyFirstOccurrence(s: string, i: nat, j: nat)
    requires FindFrom(s, "/html/", 0) == Some(i)
    requires i + 6 <= j && OccursAt(s, "/html/", j)
    ensures OccursAt(ReplaceFirst(s, "/html/", "/art/"), "/html/", j - 1)
  {
    var r := ReplaceFirst(s, "/html/", "/art/");
    assert r == s[..i] + "/art/" + s[i + 6..];
    assert r[j - 1..j + 5] == s[i + 6..][j - i - 6..j - i] == s[j..j + 6];
  }

  // ---------------------------------------------------------------------------
  // Row to record

  /** The record built in the CSV 'data' handler. */
  function ToRecord(row: CsvRow): (rec: Record)
    ensures rec.catalog == "Web Gallery of Art" && rec.license == "unknown"
    ensures "URL" !in row ==> rec.url == ""
    ensures "DATE" !in row ==> rec.date == "Unknown date"
    ensures "TECHNIQUE" !in row ==> rec.technique == "Unknown technique"
    ensures "LOCATION" !in row ==> rec.location == "Unknown location"
    ensures "FORM" !in row ==> rec.form == "Unknown form"
    ensures "TYPE" !in row ==> rec.kind == "Unknown type"
    ensures "SCHOOL" !in row ==> rec.school == "Unknown school"
    ensures "TIMEFRAME" !in row ==> rec.timeframe == "Unknown timeframe"
    ensures "DATE" in row ==> rec.date == row["DATE"]
    ensures "TECHNIQUE" in row ==> rec.technique == row["TECHNIQUE"]
    ensures "LOCATION" in row ==> rec.location == row["LOCATION"]
    ensures "FORM" in row ==> rec.form == row["FORM"]
    ensures "TYPE" in row ==> rec.kind == row["TYPE"]
    ensures "SCHOOL" in row ==> rec.school == row["SCHOOL"]
    ensures "TIMEFRAME" in row ==> rec.timeframe == row["TIMEFRAME"]
    ensures "URL" in row ==> rec.url == ConvertToImageUrl(row["URL"])
    ensures "AUTHOR" in row ==> rec.artist == Artist(row["AUTHOR"])
    ensures "TITLE" in row ==> rec.title == Title(row["TITLE"])
  {
    ConvertWithoutPatterns("");
    Record(
      ConvertToImageUrl(Field(row, "URL", "")),
      "Web Gallery of Art",
      "unknown",
      Artist(Field(row, "AUTHOR", "Unknown artist")),
      Title(Field(row, "TITLE", "Unknown title")),
      Date(Field(row, "DATE", "Unknown date")),
      Technique(Field(row, "TECHNIQUE", "Unknown technique")),
      Field(row, "LOCATION", "Unknown location"),
      Field(row, "FORM", "Unknown form"),
      Field(row, "TYPE", "Unknown type"),
      Field(row, "SCHOOL", "Unknown school"),
      Field(row, "TIMEFRAME", "Unknown timeframe"))
  }

  lemma {:induction false} CapitalizeUnknownWord(u: string)
    requires u == "Unknown"
    ensures IsWord(u) && Capitalize(u) == "Unknown"
  {
    assert IsCapitalized(u);
    CapitalizeKeepsCapitalized(u);
  }

  lemma {:induction false} CapitalizeArtistWord(a: string)
    requires a == "artist"
    ensures IsWord(a) && Capitalize(a) == "Artist"
  {
    CapitalizeLowerWord(a);
    assert a[1..] == "rtist";
  }

  lemma {:induction false} CapitalizeTitleWord(t: string)
    requires t == "title"
    ensures IsWord(t) && Capitalize(t) == "Title"
  {
    CapitalizeLowerWord(t);
    assert t[1..] == "itle";
  }

  lemma {:induction false} CapitalizeUnknownTitle(u: string, t: string)
    requires u == "Unknown" && t == "title"
    ensures Join(CapitalizeAll([u, t]), " ") == "Unknown Title"
  {
    CapitalizeUnknownWord(u);
    CapitalizeTitleWord(t);
  }

  lemma {:induction false} CapitalizeUnknownArtist(u: string, a: string)
    requires u == "Unknown" && a == "artist"
    ensures Join(CapitalizeAll([u, a]), " ") == "Unknown Artist"
  {
    CapitalizeUnknownWord(u);
    CapitalizeArtistWord(a);
  }

  /** The lower-case 'Unknown title' default passes through the title
      normaliser and is stored as "Unknown Title". */
  lemma {:induction false} NormalisedTitleDefault(u: string, t: string)
    requires u == "Unknown" && t == "title"
    ensures Title(u + " " + t) == "Unknown Title"
  {
    TitleOfWords([u, t], u + " " + t);
    CapitalizeUnknownTitle(u, t);
  }

  /** The lower-case 'Unknown artist' default passes through the artist
      normaliser (no comma, so it is the title casing) and is stored as
      "Unknown Artist". */
  lemma {:induction false} NormalisedArtistDefault(u: string, a: string)
    requires u == "Unknown" && a == "artist"
    ensures Artist(u + " " + a) == "Unknown Artist"
  {
    assert Artist(u + " " + a) == Title(u + " " + a) by {
      assert ',' !in u && ',' !in a;
      NoCommaInSpaced(u, a);
      ArtistWithoutWordComma(u + " " + a);
    }
    TitleUnknownArtist(u, a);
  }

  lemma {:induction false} TitleUnknownArtist(u: string, a: string)
    requires u == "Unknown" && a == "artist"
    ensures Title(u + " " + a) == "Unknown Artist"
  {
    TitleOfWords([u, a], u + " " + a);
    CapitalizeUnknownArtist(u, a);
  }

  /** A record's artist, title and image url are normal forms: running the
      normalisers or the suffix rewrite over them again changes nothing. */
  lemma {:induction false} RecordIsNormalised(row: CsvRow)
    ensures Artist(ToRecord(row).artist) == ToRecord(row).artist
    ensures Title(ToRecord(row).title) == ToRecord(row).title
    ensures ReplaceHtmlSuffix(ToRecord(row).url) == ToRecord(row).url
  {
    var rec := ToRecord(row);
    ArtistIdempotent(Field(row, "AUTHOR", "Unknown artist"));
    TitleIdempotent(Field(row, "TITLE", "Unknown title"));
    ReplaceHtmlSuffixIdempotent(ReplaceFirst(Field(row, "URL", ""), "/html/", "/art/"), "");
  }

  /** A row without AUTHOR and TITLE columns gets the normalised defaults. */
  lemma {:induction false} RecordDefaults(row: CsvRow)
    requires "AUTHOR" !in row && "TITLE" !in row
    ensures ToRecord(row).artist == "Unknown Artist"
    ensures ToRecord(row).title == "Unknown Title"
  {
    DefaultArtist(row, "Unknown", "artist");
    DefaultTitle(row, "Unknown", "title");
  }

  lemma {:induction false} DefaultArtist(row: CsvRow, u: string, a: string)
    requires "AUTHOR" !in row
    requires u == "Unknown" && a == "artist"
    ensures ToRecord(row).artist == "Unknown Artist"
  {
    assert ToRecord(row).artist == Artist(u + " " + a) by {
      assert Field(row, "AUTHOR", "Unknown artist") == u + " " + a;
    }
    NormalisedArtistDefault(u, a);
  }

  lemma {:induction false} DefaultTitle(row: CsvRow, u: string, t: string)
    requires "TITLE" !in row
    requires u == "Unknown" && t == "title"
    ensures ToRecord(row).title == "Unknown Title"
  {
    assert ToRecord(row).title == Title(u + " " + t) by {
      assert Field(row, "TITLE", "Unknown title") == u + " " + t;
    }
    NormalisedTitleDefault(u, t);
  }

  // ---------------------------------------------------------------------------
  // Loading the catalog

  function RecordUrls(recs: seq<Record>): set<string>
  {
    set k | 0 <= k < |recs| :: recs[k].url
  }

  lemma {:induction false} RecordUrlsCons(recs: seq<Record>)
    requires |recs| > 0
    ensures RecordUrls(recs) == {recs[0].url} + RecordUrls(recs[1..])
  {
    forall u | u in RecordUrls(recs)
      ensures u in {recs[0].url} + RecordUrls(recs[1..])
    {
      var k :| 0 <= k < |recs| && recs[k].url == u;
      if k > 0 {
        assert recs[1..][k - 1].url == u;
      }
    }
    forall u | u in RecordUrls(recs[1..])
      ensures u in RecordUrls(recs)
    {
      var k :| 0 <= k < |recs[1..]| && recs[1..][k].url == u;
      assert recs[k + 1].url == u;
    }
  }

  /** Offer each record to the table in turn; a duplicate url leaves the
      table as it was and the next record is still offered. */
  function InsertAll(t: Table, recs: seq<Record>, now: nat): (r: Table)
    requires Valid(t)
    ensures Valid(r)
    ensures Urls(r) == Urls(t) + RecordUrls(recs)
    ensures |r| >= |t| && r[..|t|] == t
    decreases |recs|
  {
    if |recs| == 0 then t
    else
      var t1 := Insert(t, recs[0], now).0;
      var r := InsertAll(t1, recs[1..], now);
      InsertAllStep(t, recs, now, r);
      r
  }

  /** One record offered, then the rest: the urls add up and the old rows
      stay in front. */
  lemma {:induction false} InsertAllStep(t: Table, recs: seq<Record>, now: nat, r: Table)
    requires Valid(t) && |recs| > 0
    requires var t1 := Insert(t, recs[0], now).0;
      Urls(r) == Urls(t1) + RecordUrls(recs[1..]) && |r| >= |t1| && r[..|t1|] == t1
    ensures Urls(r) == Urls(t) + RecordUrls(recs)
    ensures |r| >= |t| && r[..|t|] == t
  {
    var t1 := Insert(t, recs[0], now).0;
    RecordUrlsCons(recs);
    assert |t1| >= |t| && t1[..|t|] == t;
    assert r[..|t|] == r[..|t1|][..|t|];
  }

  /** Offering records whose urls are all in the table already changes
      nothing: importing the same catalog twice stores each url once. */
  lemma {:induction false} InsertAllKnown(t: Table, recs: seq<Record>, now: nat)
    requires Valid(t)
    requires forall k | 0 <= k < |recs| :: recs[k].url in Urls(t)
    ensures InsertAll(t, recs, now) == t
    decreases |recs|
  {
    if |recs| > 0 {
      InsertAllKnown(t, recs[1..], now);
    }
  }

  function Records(rows: seq<CsvRow>): (recs: seq<Record>)
    ensures |recs| == |rows|
    ensures forall k | 0 <= k < |rows| :: recs[k] == ToRecord(rows[k])
  {
    seq(|rows|, k requires 0 <= k < |rows| => ToRecord(rows[k]))
  }

  /** The image urls of a catalog's rows. */
  function ImageUrls(rows: seq<CsvRow>): set<string>
  {
    set k | 0 <= k < |rows| :: ConvertToImageUrl(Field(rows[k], "URL", ""))
  }

  lemma {:induction false} RecordsUrls(rows: seq<CsvRow>)
    ensures RecordUrls(Records(rows)) == ImageUrls(rows)
  {
    RecordUrlsWithin(rows);
    ImageUrlsWithin(rows);
  }

  lemma {:induction false} RecordUrlsWithin(rows: seq<CsvRow>)
    ensures RecordUrls(Records(rows)) <= ImageUrls(rows)
  {
    var recs := Records(rows);
    forall u | u in RecordUrls(recs)
      ensures u in ImageUrls(rows)
    {
      var k :| 0 <= k < |recs| && recs[k].url == u;
      assert recs[k] == ToRecord(rows[k]);
      assert ConvertToImageUrl(Field(rows[k], "URL", "")) == u;
    }
  }

  lemma {:induction false} ImageUrlsWithin(rows: seq<CsvRow>)
    ensures ImageUrls(rows) <= RecordUrls(Records(rows))
  {
    var recs := Records(rows);
    forall u | u in ImageUrls(rows)
      ensures u in RecordUrls(recs)
    {
      var k :| 0 <= k < |rows| && ConvertToImageUrl(Field(rows[k], "URL", "")) == u;
      assert recs[k] == ToRecord(rows[k]);
      assert recs[k].url == u;
    }
  }

  /** `updateDatabase`: `None` is a catalog that could not be read, which
      rejects before any insert. Afterwards the table holds exactly its old
      urls and the image urls of the catalog, each once. */
  function UpdateDatabase(t: Table, catalog: Option<seq<CsvRow>>, now: nat): (r: Table)
    requires Valid(t)
    ensures Valid(r)
    ensures catalog.None? ==> r == t
    ensures catalog.Some? ==> Urls(r) == Urls(t) + ImageUrls(catalog.value)
    ensures |r| >= |t| && r[..|t|] == t
  {
    match catalog
    case None => t
    case Some(rows) =>
      RecordsUrls(rows);
      InsertAll(t, Records(rows), now)
  }

  /** Importing a catalog a second time leaves the table unchanged. */
  lemma {:induction false} UpdateDatabaseTwice(t: Table, rows: seq<CsvRow>, now: nat, later: nat)
    requires Valid(t)
    ensures UpdateDatabase(UpdateDatabase(t, Some(rows), now), Some(rows), later) == UpdateDatabase(t, Some(rows), now)
  {
    var once := UpdateDatabase(t, Some(rows), now);
    var recs := Records(rows);
    RecordsUrls(rows);
    forall k | 0 <= k < |recs|
      ensures recs[k].url in Urls(once)
    {
      assert recs[k].url in RecordUrls(recs);
    }
    InsertAllKnown(once, recs, later);
  }

  /** The first run: `get()` creates the empty table, and importing a catalog
      into it leaves exactly the catalog's image urls, one row each. */
  lemma {:induction false} ImportIntoNewTable(rows: seq<CsvRow>, now: nat)
    ensures var t := Get(None, None).0;
      Valid(t) && |t| == 0 && Urls(UpdateDatabase(t, Some(rows), now)) == ImageUrls(rows)
  {
    var t := Get(None, None).0;
    assert Urls(t) == {};
  }

  /** A later run: reopening the database keeps the imported table (`CREATE
      TABLE IF NOT EXISTS`), so importing the same catalog again adds
      nothing. */
  lemma {:induction false} ImportAfterReopen(rows: seq<CsvRow>, now: nat, later: nat)
    ensures var first := UpdateDatabase(Get(None, None).0, Some(rows), now);
      Get(None, Some(first)).0 == first
      && UpdateDatabase(Get(None, Some(first)).0, Some(rows), later) == first
  {
    UpdateDatabaseTwice(Get(None, None).0, rows, now, later);
  }
}
