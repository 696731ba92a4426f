/** wallpaper.js: the earliest wallpaper writer. It names the files
    `outputImage` and `inputImage`, builds the four-line caption with a
    template string, draws no outline, and scales the artwork to the
    requested canvas size without measuring the canvas. */
module RootWallpaper {
  import opened Base
  import opened Decimal
  import opened Scaling
  import opened Imaging

  /** The options object of `wallpaper`; an absent key (`None`) takes its default. */
  datatype Options = Options(
    width: Option<nat>, height: Option<nat>, outputImage: Option<string>,
    inputImage: Option<string>, backgroundColor: Option<string>,
    fontColor: Option<string>, font: Option<string>, textPosition: Option<string>,
    textOffset: Option<nat>, pointSize: Option<nat>, title: Option<string>,
    artist: Option<string>, date: Option<string>, medium: Option<string>)

  /** `${title}\n${artist}\n${date}\n${medium}` with the defaults applied. */
  function Caption(o: Options): string
  {
    GetOr(o.title, "Unknown title") + "\n" + GetOr(o.artist, "Unknown artist") + "\n"
      + GetOr(o.date, "Unknown date") + "\n" + GetOr(o.medium, "Unknown medium")
  }

  /** The caption is the four lines joined by newlines, as the src/ writers
      build theirs, so it reads back as those lines when none holds a newline. */
  lemma {:induction false} CaptionIsTextBlock(o: Options)
    ensures var lines := [GetOr(o.title, "Unknown title"), GetOr(o.artist, "Unknown artist"),
                          GetOr(o.date, "Unknown date"), GetOr(o.medium, "Unknown medium")];
      && Caption(o) == TextBlock(lines)
      && ((forall i | 0 <= i < 4 :: '\n' !in lines[i]) ==> Split(Caption(o), '\n') == lines)
  {
    var lines := [GetOr(o.title, "Unknown title"), GetOr(o.artist, "Unknown artist"),
                  GetOr(o.date, "Unknown date"), GetOr(o.medium, "Unknown medium")];
    JoinFour(lines[0], lines[1], lines[2], lines[3], "\n");
    assert lines == [lines[0], lines[1], lines[2], lines[3]];
    if forall i | 0 <= i < 4 :: '\n' !in lines[i] {
      TextBlockLines(lines);
    }
  }

  /** The composition request with every default applied. */
  function RequestOf(o: Options): Request
    requires !MissingImage(o.inputImage)
  {
    Request(
      GetOr(o.outputImage, "wallpaper.jpg"), GetOr(o.width, 2650), GetOr(o.height, 1440),
      GetOr(o.backgroundColor, "black"), o.inputImage.value,
      GetOr(o.textPosition, "northeast"), GetOr(o.fontColor, "white"),
      GetOr(o.font, "Ubuntu"), GetOr(o.pointSize, 28), GetOr(o.textOffset, 25),
      Caption(o))
  }

  /** No outline, and the canvas is not measured. */
  const style: Style := Style(None, false)

  /** `wallpaper`. */
  function Wallpaper(o: Options, magick: Magick): (r: Outcome)
    ensures r.Thrown? <==> MissingImage(o.inputImage)
    ensures r.Thrown? ==> r.message == "Input image location must be provided"
    ensures r.Composed? ==> StopsAtFirstFailure(r.run, magick) && |r.run.calls| <= 4
    ensures r.Composed? && !r.run.failed ==>
      && |r.run.calls| == 4
      && r.run.calls[3].Convert? && |r.run.calls[3].args| == 13 && r.run.calls[3].args[5] != "-stroke"
  {
    if MissingImage(o.inputImage) then Thrown("Input image location must be provided")
    else Composed(Compose(RequestOf(o), style, magick))
  }

  /** Once the canvas is created, the artwork is composited at the largest
      aspect-preserving size that fits the requested canvas size; the canvas
      itself is never queried. */
  lemma {:induction false} WallpaperScalesToFit(o: Options, magick: Magick, iw: nat, ih: nat)
    requires !MissingImage(o.inputImage)
    requires var req := RequestOf(o);
      && magick(Convert(CanvasArgs(req.file, req.width, req.height, req.background))).Some?
      && magick(Convert(InfoArgs(req.art))) == Some(FormatDimensions(iw, ih))
    ensures Wallpaper(o, magick).Composed?
    ensures |Wallpaper(o, magick).run.calls| >= 3
    ensures Wallpaper(o, magick).run.calls[1] == Convert(InfoArgs(o.inputImage.value))
    ensures Wallpaper(o, magick).run.calls[2]
      == Composite(RequestOf(o).file, o.inputImage.value, Fit(iw, ih, GetOr(o.width, 2650), GetOr(o.height, 1440)))
  {
    ComposeScalesToFit(RequestOf(o), style, magick, iw, ih);
  }
}
