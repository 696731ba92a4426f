/** src/wallpapers.js: wallpapers for the most recently downloaded artworks,
    one per configured size, each with a five-line outlined caption (title,
    artist, date, location, technique). */
module Wallpapers {
  import opened Base
  import opened Decimal
  import opened Imaging
  import opened ArtStore

  /** The options object of `createWallpaper`; an absent key (`None`) takes
      its default. */
  datatype Options = Options(
    width: Option<nat>, height: Option<nat>, wallpaperFile: Option<string>,
    artImage: Option<string>, backgroundColor: Option<string>,
    fontColor: Option<string>, fontOutlineColor: Option<string>,
    fontFamily: Option<string>, textPosition: Option<string>,
    textOffset: Option<nat>, pointSize: Option<nat>, title: Option<string>,
    artist: Option<string>, date: Option<string>, location: Option<string>,
    technique: Option<string>)

  /** The caption lines, location before technique. */
  function Lines(o: Options): (lines: seq<string>)
    ensures |lines| == 5
    ensures lines[0] == GetOr(o.title, "Unknown title") && lines[1] == GetOr(o.artist, "Unknown artist")
    ensures lines[2] == GetOr(o.date, "Unknown date")
    ensures lines[3] == GetOr(o.location, "Unknown location") && lines[4] == GetOr(o.technique, "Unknown technique")
  {
    [GetOr(o.title, "Unknown title"), GetOr(o.artist, "Unknown artist"),
     GetOr(o.date, "Unknown date"), GetOr(o.location, "Unknown location"),
     GetOr(o.technique, "Unknown technique")]
  }

  /** The composition request with every default applied. */
  function RequestOf(o: Options): Request
    requires !MissingImage(o.artImage)
  {
    Request(
      GetOr(o.wallpaperFile, "wallpaper.jpg"), GetOr(o.width, 2650), GetOr(o.height, 1440),
      GetOr(o.backgroundColor, "black"), o.artImage.value,
      GetOr(o.textPosition, "northeast"), GetOr(o.fontColor, "white"),
      GetOr(o.fontFamily, "Ubuntu"), GetOr(o.pointSize, 28), GetOr(o.textOffset, 25),
      TextBlock(Lines(o)))
  }

  /** The text is outlined in the outline colour, and the canvas is measured
      after it is created. */
  function StyleOf(o: Options): Style
  {
    Style(Some(GetOr(o.fontOutlineColor, "black")), true)
  }

  /** `createWallpaper`. */
  function CreateWallpaper(o: Options, magick: Magick): (r: Outcome)
    ensures r.Thrown? <==> MissingImage(o.artImage)
    ensures r.Thrown? ==> r.message == "Input image must be provided"
    ensures r.Composed? ==> StopsAtFirstFailure(r.run, magick) && |r.run.calls| <= 5
    ensures r.Composed? && !r.run.failed ==>
      && |r.run.calls| == 5
      && r.run.calls[4].Convert? && |r.run.calls[4].args| == 15 && r.run.calls[4].args[5] == "-stroke"
  {
    if MissingImage(o.artImage) then Thrown("Input image must be provided")
    else Composed(Compose(RequestOf(o), StyleOf(o), magick))
  }

  /** The caption shows the five lines in order when no line holds a newline. */
  lemma {:induction false} CaptionLines(o: Options)
    requires !MissingImage(o.artImage)
    requires forall i | 0 <= i < 5 :: '\n' !in Lines(o)[i]
    ensures Split(RequestOf(o).text, '\n') == Lines(o)
  {
    TextBlockLines(Lines(o));
  }

  /** The options of a call that gives nothing but the artwork. */
  function Bare(art: string): Options
  {
    Options(None, None, None, Some(art), None, None, None, None, None, None, None, None, None, None, None, None)
  }

  /** The caption of a call that gives no metadata. */
  function DefaultCaption(): string
  {
    TextBlock(["Unknown title", "Unknown artist", "Unknown date", "Unknown location", "Unknown technique"])
  }

  lemma {:induction false} BareRequest(art: string)
    requires |art| > 0
    ensures RequestOf(Bare(art)) == Request("wallpaper.jpg", 2650, 1440, "black", art, "northeast", "white", "Ubuntu", 28, 25, DefaultCaption())
    ensures StyleOf(Bare(art)) == Style(Some("black"), true)
  {
  }

  lemma {:induction false} NumeralsOfDefaults()
    ensures NatToString(2650) == "2650" && NatToString(1440) == "1440"
    ensures NatToString(28) == "28" && OffsetGeometry(25) == "+25+25"
  {
    assert NatToString(25) == "25";
  }

  lemma {:induction false} DefaultCanvas(file: string, background: string)
    requires file == "wallpaper.jpg" && background == "black"
    ensures CanvasArgs(file, 2650, 1440, background) == ["-size", "2650x1440", "canvas:black", "wallpaper.jpg"]
  {
    NumeralsOfDefaults();
    assert "2650" + "x" + "1440" == "2650x1440";
    assert "canvas:" + background == "canvas:black";
  }

  lemma {:induction false} DefaultAnnotate(req: Request, outline: string)
    requires req == Request("wallpaper.jpg", 2650, 1440, "black", req.art, "northeast", "white", "Ubuntu", 28, 25, DefaultCaption())
    requires outline == "black"
    ensures AnnotateArgs(req, Some(outline)) == ["wallpaper.jpg", "-gravity", "northeast", "-fill", "white",
      "-stroke", "black", "-font", "Ubuntu", "-pointsize", "28", "-annotate", "+25+25", DefaultCaption(), "wallpaper.jpg"]
  {
    OutlinedAnnotateArgs(req, outline);
    NumeralsOfDefaults();
  }

  lemma {:induction false} OutlinedAnnotateArgs(req: Request, outline: string)
    ensures AnnotateArgs(req, Some(outline)) == [req.file, "-gravity", req.position, "-fill", req.fontColor,
      "-stroke", outline, "-font", req.font, "-pointsize", NatToString(req.pointSize),
      "-annotate", OffsetGeometry(req.offset), req.text, req.file]
  {
  }

  /** With nothing but the artwork given, the canvas is a 2650×1440 black
      `wallpaper.jpg`, and a complete run captions it in white, outlined in
      black, in Ubuntu at 28 points, 25 pixels from the top-right corner, with
      the five "Unknown …" lines. */
  lemma {:induction false} CreateWallpaperDefaults(art: string, magick: Magick)
    requires |art| > 0
    ensures CreateWallpaper(Bare(art), magick).Composed?
    ensures CreateWallpaper(Bare(art), magick).run.calls[0] == Convert(["-size", "2650x1440", "canvas:black", "wallpaper.jpg"])
    ensures var r := CreateWallpaper(Bare(art), magick).run;
      !r.failed ==> r.calls[|r.calls| - 1] == Convert(["wallpaper.jpg", "-gravity", "northeast", "-fill", "white",
        "-stroke", "black", "-font", "Ubuntu", "-pointsize", "28", "-annotate", "+25+25", DefaultCaption(), "wallpaper.jpg"])
  {
    BareRequest(art);
    DefaultCanvas("wallpaper.jpg", "black");
    DefaultAnnotate(RequestOf(Bare(art)), "black");
  }

  // ---------------------------------------------------------------------------
  // create: every recent record in every configured size

  /** A configured wallpaper size. */
  datatype WallpaperSize = WallpaperSize(width: nat, height: nat)

  /** `path.join(dir, name)` for a plain directory and file name. */
  function PathJoin(dir: string, name: string): (p: string)
    ensures |p| > 0
  {
    dir + "/" + name
  }

  /** `${width}x${height}-${file_name}`. */
  function WallpaperFileName(size: WallpaperSize, fileName: string): string
  {
    NatToString(size.width) + "x" + NatToString(size.height) + "-" + fileName
  }

  /** Distinct (size, artwork file) pairs get distinct wallpaper names, so the
      wallpapers of one run never overwrite each other when the artwork file
      names are distinct. */
  lemma {:induction false} WallpaperFileNameInjective(s1: WallpaperSize, f1: string, s2: WallpaperSize, f2: string)
    requires WallpaperFileName(s1, f1) == WallpaperFileName(s2, f2)
    ensures s1 == s2 && f1 == f2
  {
    var w1, h1 := NatToString(s1.width), NatToString(s1.height);
    var w2, h2 := NatToString(s2.width), NatToString(s2.height);
    WallpaperFileNameParts(s1, f1);
    WallpaperFileNameParts(s2, f2);
    NumeralAvoids(s1.width, 'x');
    NumeralAvoids(s2.width, 'x');
    FirstSeparatorDecides(w1, h1 + ['-'] + f1, w2, h2 + ['-'] + f2, 'x');
    NumeralAvoids(s1.height, '-');
    NumeralAvoids(s2.height, '-');
    FirstSeparatorDecides(h1, f1, h2, f2, '-');
    NatToStringInjective(s1.width, s2.width);
    NatToStringInjective(s1.height, s2.height);
  }

  lemma {:induction false} WallpaperFileNameParts(size: WallpaperSize, fileName: string)
    ensures WallpaperFileName(size, fileName)
      == NatToString(size.width) + ['x'] + (NatToString(size.height) + ['-'] + fileName)
  {
    var w, h := NatToString(size.width), NatToString(size.height);
    AppendAssoc(w + ['x'] + h, ['-'], fileName);
    AppendAssoc(w + ['x'], h, ['-'] + fileName);
    AppendAssoc(w, ['x'], h + ['-'] + fileName);
    AppendAssoc(h, ['-'], fileName);
  }

  /** Joining one directory with two names gives two paths that are equal
      only when the names are. */
  lemma {:induction false} PathJoinInjective(dir: string, a: string, b: string)
    requires PathJoin(dir, a) == PathJoin(dir, b)
    ensures a == b
  {
    var p := PathJoin(dir, a);
    assert a == p[|dir| + 1..];
  }

  /** The options `create` passes for one record and one size: the record's
      metadata, the size, the derived file name, bottom-right text 50 pixels
      from the edges, and defaults for everything else. */
  function PairOptions(record: Row, size: WallpaperSize, artDirectory: string, wallpaperDirectory: string): (o: Options)
    requires record.fileName.Some?
    ensures !MissingImage(o.artImage)
    ensures o.artImage == Some(PathJoin(artDirectory, record.fileName.value))
    ensures o.wallpaperFile == Some(PathJoin(wallpaperDirectory, WallpaperFileName(size, record.fileName.value)))
    ensures o.width == Some(size.width) && o.height == Some(size.height)
    ensures o.textPosition == Some("southeast") && o.textOffset == Some(50)
    ensures o.title == Some(record.title) && o.artist == Some(record.artist) && o.date == Some(record.date)
    ensures o.location == Some(record.location) && o.technique == Some(record.technique)
    ensures o.backgroundColor.None? && o.fontColor.None? && o.fontOutlineColor.None?
    ensures o.fontFamily.None? && o.pointSize.None?
  {
    Options(
      Some(size.width), Some(size.height),
      Some(PathJoin(wallpaperDirectory, WallpaperFileName(size, record.fileName.value))),
      Some(PathJoin(artDirectory, record.fileName.value)),
      None, None, None, None, Some("southeast"), Some(50), None,
      Some(record.title), Some(record.artist), Some(record.date),
      Some(record.location), Some(record.technique))
  }

  /** One (record, size) turn of `create`'s nested loop. */
  function Pair(artDirectory: string, wallpaperDirectory: string, magick: Magick): (Row, WallpaperSize) --> Outcome
  {
    (record: Row, size: WallpaperSize) requires record.fileName.Some? =>
      CreateWallpaper(PairOptions(record, size, artDirectory, wallpaperDirectory), magick)
  }

  lemma {:induction false} PairIs(artDirectory: string, wallpaperDirectory: string, magick: Magick, record: Row, size: WallpaperSize)
    requires record.fileName.Some?
    ensures Pair(artDirectory, wallpaperDirectory, magick).requires(record, size)
    ensures Pair(artDirectory, wallpaperDirectory, magick)(record, size)
      == CreateWallpaper(PairOptions(record, size, artDirectory, wallpaperDirectory), magick)
  {
  }

  /** No turn of `create` hits the emptiness guard: the artwork path is a
      joined path, never empty. */
  lemma {:induction false} PairsComposed(records: seq<Row>, sizes: seq<WallpaperSize>, artDirectory: string, wallpaperDirectory: string, magick: Magick)
    requires forall k | 0 <= k < |records| :: records[k].fileName.Some?
    ensures forall k | 0 <= k < |Grid(records, sizes, Pair(artDirectory, wallpaperDirectory, magick))| ::
      Grid(records, sizes, Pair(artDirectory, wallpaperDirectory, magick))[k].Composed?
  {
    var f := Pair(artDirectory, wallpaperDirectory, magick);
    var g := Grid(records, sizes, f);
    forall k | 0 <= k < |g|
      ensures g[k].Composed?
    {
      var i, j := GridCell(records, sizes, f, k);
      assert !MissingImage(PairOptions(records[i], sizes[j], artDirectory, wallpaperDirectory).artImage);
    }
  }

  /** The outcome of the pair (record i, size j) sits at index
      `i * |sizes| + j`, and it is the wallpaper of that record in that size. */
  predicate OnePerPair(records: seq<Row>, sizes: seq<WallpaperSize>, artDirectory: string,
                       wallpaperDirectory: string, magick: Magick, outcomes: seq<Outcome>)
  {
    forall i, j | 0 <= i < |records| && 0 <= j < |sizes| ::
      && records[i].fileName.Some?
      && i * |sizes| + j < |outcomes|
      && outcomes[i * |sizes| + j] == CreateWallpaper(PairOptions(records[i], sizes[j], artDirectory, wallpaperDirectory), magick)
  }

  /** The nested loop of `create` over records and sizes gives one
      composition per pair, the pair (record i, size j) at index
      `i * |sizes| + j`. */
  lemma {:induction false} PlanIndexing(records: seq<Row>, sizes: seq<WallpaperSize>, artDirectory: string,
                                        wallpaperDirectory: string, magick: Magick, outcomes: seq<Outcome>)
    requires forall k | 0 <= k < |records| :: records[k].fileName.Some?
    requires outcomes == Grid(records, sizes, Pair(artDirectory, wallpaperDirectory, magick))
    ensures |outcomes| == |records| * |sizes|
    ensures OnePerPair(records, sizes, artDirectory, wallpaperDirectory, magick, outcomes)
    ensures forall k | 0 <= k < |outcomes| :: outcomes[k].Composed?
  {
    var pair := Pair(artDirectory, wallpaperDirectory, magick);
    GridLength(records, sizes, pair);
    forall i, j | 0 <= i < |records| && 0 <= j < |sizes|
      ensures i * |sizes| + j < |outcomes|
      ensures outcomes[i * |sizes| + j] == CreateWallpaper(PairOptions(records[i], sizes[j], artDirectory, wallpaperDirectory), magick)
    {
      GridAt(records, sizes, pair, i, j);
      PairIs(artDirectory, wallpaperDirectory, magick, records[i], sizes[j]);
    }
    PairsComposed(records, sizes, artDirectory, wallpaperDirectory, magick);
  }

  /** `create`: `None` is a rejected selection query, which rejects `create`
      before any wallpaper. Otherwise one outcome per (record, size) pair in
      record-major order; a failure for one pair is caught and the loop goes
      on, and the emptiness guard never fires since the artwork path is a
      joined path. An absent `max` is the default 100. */
  method Create(t: Table, max: Option<int>, selection: Option<seq<Row>>, artDirectory: string,
                wallpaperDirectory: string, sizes: seq<WallpaperSize>, magick: Magick)
    returns (outcomes: seq<Outcome>, rejected: bool)
    requires selection.Some? ==> IsRecentSelection(t, GetOr(max, 100), selection.value)
    ensures rejected <==> selection.None?
    ensures rejected ==> outcomes == []
    ensures !rejected ==> |outcomes| == |selection.value| * |sizes|
    ensures !rejected ==> OnePerPair(selection.value, sizes, artDirectory, wallpaperDirectory, magick, outcomes)
    ensures forall k | 0 <= k < |outcomes| :: outcomes[k].Composed?
  {
    if selection.None? {
      return [], true;
    }
    rejected := false;
    var records := selection.value;
    RecentSelectionHasFiles(t, GetOr(max, 100), records);
    outcomes := CreateAll(records, sizes, Pair(artDirectory, wallpaperDirectory, magick));
    PlanIndexing(records, sizes, artDirectory, wallpaperDirectory, magick, outcomes);
  }

  /** The nested loop itself: for each record in turn, each size in turn. */
  method CreateAll(records: seq<Row>, sizes: seq<WallpaperSize>, pair: (Row, WallpaperSize) --> Outcome)
    returns (outcomes: seq<Outcome>)
    requires forall i, j | 0 <= i < |records| && 0 <= j < |sizes| :: pair.requires(records[i], sizes[j])
    ensures outcomes == Grid(records, sizes, pair)
  {
    outcomes := [];
    var i := 0;
    while i < |records|
      invariant 0 <= i <= |records|
      invariant outcomes == Grid(records[..i], sizes, pair)
    {
      var row := [];
      var j := 0;
      while j < |sizes|
        invariant 0 <= j <= |sizes| && |row| == j
        invariant forall b | 0 <= b < j :: row[b] == pair(records[i], sizes[b])
      {
        row := row + [pair(records[i], sizes[j])];
        j := j + 1;
      }
      assert row == Across(records[i], sizes, pair);
      assert records[..i + 1][..i] == records[..i];
      outcomes := outcomes + row;
      i := i + 1;
    }
    assert records[..i] == records;
  }

}
