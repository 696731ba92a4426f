/** src/wallpaper.js: a single wallpaper with a four-line caption (title,
    artist, date, medium) and no outline; the canvas is measured after it is
    created, as in src/wallpapers.js. */
module SrcWallpaper {
  import opened Base
  import opened Decimal
  import opened Scaling
  import opened Imaging

  /** The options object of `create`; an absent key (`None`) takes its default. */
  datatype Options = Options(
    width: Option<nat>, height: Option<nat>, wallpaperFile: Option<string>,
    artImage: Option<string>, backgroundColor: Option<string>,
    fontColor: Option<string>, font: Option<string>, textPosition: Option<string>,
    textOffset: Option<nat>, pointSize: Option<nat>, title: Option<string>,
    artist: Option<string>, date: Option<string>, medium: Option<string>)

  /** The caption lines. */
  function Lines(o: Options): (lines: seq<string>)
    ensures |lines| == 4
    ensures lines[0] == GetOr(o.title, "Unknown title") && lines[1] == GetOr(o.artist, "Unknown artist")
    ensures lines[2] == GetOr(o.date, "Unknown date") && lines[3] == GetOr(o.medium, "Unknown medium")
  {
    [GetOr(o.title, "Unknown title"), GetOr(o.artist, "Unknown artist"),
     GetOr(o.date, "Unknown date"), GetOr(o.medium, "Unknown medium")]
  }

  /** The composition request with every default applied. */
  function RequestOf(o: Options): Request
    requires !MissingImage(o.artImage)
  {
    Request(
      GetOr(o.wallpaperFile, "wallpaper.jpg"), GetOr(o.width, 2650), GetOr(o.height, 1440),
      GetOr(o.backgroundColor, "black"), o.artImage.value,
      GetOr(o.textPosition, "northeast"), GetOr(o.fontColor, "white"),
      GetOr(o.font, "Ubuntu"), GetOr(o.pointSize, 28), GetOr(o.textOffset, 25),
      TextBlock(Lines(o)))
  }

  /** No outline, and the canvas is measured. */
  const style: Style := Style(None, true)

  /** `create`. */
  function Create(o: Options, magick: Magick): (r: Outcome)
    ensures r.Thrown? <==> MissingImage(o.artImage)
    ensures r.Thrown? ==> r.message == "Input image must be provided"
    ensures r.Composed? ==> StopsAtFirstFailure(r.run, magick) && |r.run.calls| <= 5
    ensures r.Composed? && !r.run.failed ==>
      && |r.run.calls| == 5
      && r.run.calls[4].Convert? && |r.run.calls[4].args| == 13 && r.run.calls[4].args[5] != "-stroke"
  {
    if MissingImage(o.artImage) then Thrown("Input image must be provided")
    else Composed(Compose(RequestOf(o), style, magick))
  }

  /** The caption shows the four lines in order when no line holds a newline. */
  lemma {:induction false} CaptionLines(o: Options)
    requires !MissingImage(o.artImage)
    requires forall i | 0 <= i < 4 :: '\n' !in Lines(o)[i]
    ensures Split(RequestOf(o).text, '\n') == Lines(o)
  {
    TextBlockLines(Lines(o));
  }

  /** When the canvas is created and reports its requested size, the artwork
      is composited at the largest aspect-preserving size that fits it. */
  lemma {:induction false} CreateScalesToFit(o: Options, magick: Magick, iw: nat, ih: nat)
    requires !MissingImage(o.artImage)
    requires var req := RequestOf(o);
      && magick(Convert(CanvasArgs(req.file, req.width, req.height, req.background))).Some?
      && magick(Convert(InfoArgs(req.file))) == Some(FormatDimensions(req.width, req.height))
      && magick(Convert(InfoArgs(req.art))) == Some(FormatDimensions(iw, ih))
    ensures Create(o, magick).Composed?
    ensures |Create(o, magick).run.calls| >= 4
    ensures Create(o, magick).run.calls[3]
      == Composite(RequestOf(o).file, o.artImage.value, Fit(iw, ih, GetOr(o.width, 2650), GetOr(o.height, 1440)))
  {
    ComposeScalesToFit(RequestOf(o), style, magick, iw, ih);
  }
}
