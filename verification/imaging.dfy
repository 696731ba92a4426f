/** The wallpaper composition shared by the three wallpaper writers: create a
    plain canvas, read the artwork's size (and, in the src/ writers, the
    canvas's), composite the artwork scaled to fit, then annotate the text
    block. ImageMagick's `convert` is an oracle from a call to its outcome:
    `None` when the call fails, otherwise what it printed. Each writer runs the
    steps in order inside one try/catch, so the first failing call ends the
    composition. */
module Imaging {
  import opened Base
  import opened Decimal
  import opened Scaling

  /** One `convert` invocation. The composite step's `-resize WxH` geometry is
      kept as the computed size (`None` where JavaScript would compute with
      NaN or Infinity) because the rendering of fractional numbers is not
      modelled. */
  datatype Call =
    | Convert(args: seq<string>)
    | Composite(target: string, image: string, size: Option<Size>)

  /** ImageMagick as an oracle: `None` is a rejected call, `Some(out)` its output. */
  type Magick = Call -> Option<string>

  // ---------------------------------------------------------------------------
  // The "%w,%h" dimension string

  /** A parsed dimension string; `None` is NaN. */
  datatype Dims = Dims(width: Option<int>, height: Option<int>)

  /** What ImageMagick prints for `-format %w,%h` on a `w`×`h` image. */
  function FormatDimensions(w: nat, h: nat): (s: string)
    ensures ',' in s
  {
    assert (NatToString(w) + "," + NatToString(h))[|NatToString(w)|] == ',';
    NatToString(w) + "," + NatToString(h)
  }

  /** `getImageDimensions` after the query: split on ',', destructure the first
      two pieces (a missing second piece is `undefined`, which `parseInt`
      turns into NaN) and parse each. */
  function ParseDimensions(out: string): (d: Dims)
    ensures ',' !in out ==> d.height.None?
  {
    var pieces := Split(out, ',');
    Dims(ParseInt(pieces[0]), if |pieces| > 1 then ParseInt(pieces[1]) else None)
  }

  /** Parsing reads back the dimensions ImageMagick printed. */
  lemma {:induction false} ParseFormatDimensions(w: nat, h: nat)
    ensures ParseDimensions(FormatDimensions(w, h)) == Dims(Some(w), Some(h))
  {
    var a, b := NatToString(w), NatToString(h);
    NumeralAvoids(w, ',');
    NumeralAvoids(h, ',');
    assert a + "," + b == a + [','] + b;
    SplitAfterPrefix(a, ',', b);
    assert Split(a + "," + b, ',') == [a, b];
    ParseIntOfNatToString(w);
    ParseIntOfNatToString(h);
  }

  /** The resize size for the composite step: `Fit` on the parsed dimensions.
      A NaN makes both aspect comparisons false, so the height-fit branch is
      taken; its width and height stay numbers only when the canvas width is
      the one NaN. */
  function ScaledSize(art: Dims, canvasWidth: Option<int>, canvasHeight: Option<int>): (r: Option<Size>)
    ensures r.Some? ==> art.width.Some? && art.height.Some? && canvasHeight.Some?
    ensures r.Some? ==> SameAspect(r.value, art.width.value, art.height.value)
    ensures r.Some? && canvasWidth.None? ==> r.value.height == canvasHeight.value as real
    ensures art.width.Some? && art.height.Some? && canvasHeight.Some? && canvasWidth.None?
            ==> (r.Some? <==> art.height.value != 0)
  {
    if art.width.None? || art.height.None? || canvasHeight.None? then None
    else if canvasWidth.None? then HeightFit(art.width.value, art.height.value, canvasHeight.value)
    else Fit(art.width.value, art.height.value, canvasWidth.value, canvasHeight.value)
  }

  // ---------------------------------------------------------------------------
  // Argument lists

  /** `['-size', `${w}x${h}`, `canvas:${color}`, file]`. */
  function CanvasArgs(file: string, width: nat, height: nat, background: string): (a: seq<string>)
    ensures |a| == 4 && a[0] == "-size" && a[3] == file
    ensures a[2] == "canvas:" + background
  {
    ["-size", NatToString(width) + "x" + NatToString(height), "canvas:" + background, file]
  }

  /** The canvas geometry `WxH` splits at its one `x` into two numerals that
      read back as the requested width and height. */
  lemma {:induction false} CanvasGeometry(file: string, width: nat, height: nat, background: string)
    ensures Split(CanvasArgs(file, width, height, background)[1], 'x') == [NatToString(width), NatToString(height)]
    ensures ParseInt(NatToString(width)) == Some(width) && ParseInt(NatToString(height)) == Some(height)
  {
    var w, h := NatToString(width), NatToString(height);
    assert CanvasArgs(file, width, height, background)[1] == w + ['x'] + h;
    NumeralAvoids(width, 'x');
    NumeralAvoids(height, 'x');
    SplitAfterPrefix(w, 'x', h);
    assert Split(h, 'x') == [h];
    assert Split(w + ['x'] + h, 'x') == [w, h];
    ParseIntOfNatToString(width);
    ParseIntOfNatToString(height);
  }

  /** `[image, '-format', '%w,%h', 'info:']`. */
  function InfoArgs(image: string): (a: seq<string>)
    ensures |a| == 4 && a[0] == image
  {
    [image, "-format", "%w,%h", "info:"]
  }

  /** The annotate geometry `+${o}+${o}`: the same offset from both edges. */
  function OffsetGeometry(offset: nat): (g: string)
    ensures |g| >= 4 && g[0] == '+'
  {
    "+" + NatToString(offset) + "+" + NatToString(offset)
  }

  /** The geometry splits into an empty prefix and two equal offsets, and each
      offset reads back as the number. */
  lemma {:induction false} OffsetGeometrySymmetric(offset: nat)
    ensures Split(OffsetGeometry(offset), '+') == ["", NatToString(offset), NatToString(offset)]
    ensures ParseInt(Split(OffsetGeometry(offset), '+')[1]) == Some(offset)
  {
    var n := NatToString(offset);
    NumeralAvoids(offset, '+');
    OffsetGeometryParts(offset);
    SplitJoin(["", n, n], '+');
    ParseIntOfNatToString(offset);
  }

  /** The geometry is the empty string and the offset twice, joined by '+'. */
  lemma {:induction false} OffsetGeometryParts(offset: nat)
    ensures OffsetGeometry(offset) == Join(["", NatToString(offset), NatToString(offset)], ['+'])
  {
    var n := NatToString(offset);
    var parts := ["", n, n];
    assert parts[1..] == [n, n] && [n, n][1..] == [n];
    assert Join([n, n], ['+']) == n + ['+'] + n;
    assert Join(parts, ['+']) == "" + ['+'] + (n + ['+'] + n);
    AppendAssoc(['+'] + n, ['+'], n);
  }

  /** The lines of the annotation joined with newlines. */
  function TextBlock(lines: seq<string>): string
  {
    Join(lines, "\n")
  }

  /** Splitting the text block at newlines gives the lines back when no line
      holds a newline of its own, so the block shows every line, in order. */
  lemma {:induction false} TextBlockLines(lines: seq<string>)
    requires |lines| >= 1
    requires forall i | 0 <= i < |lines| :: '\n' !in lines[i]
    ensures Split(TextBlock(lines), '\n') == lines
  {
    SplitJoin(lines, '\n');
  }

  /** Everything one wallpaper needs once the defaults are filled in. */
  datatype Request = Request(
    file: string, width: nat, height: nat, background: string, art: string,
    position: string, fontColor: string, font: string, pointSize: nat,
    offset: nat, text: string)

  /** How the writers differ: src/wallpapers.js outlines the text with
      `-stroke`; both src/ writers measure the canvas they just created, while
      wallpaper.js scales to the requested size. */
  datatype Style = Style(outline: Option<string>, measureCanvas: bool)

  /** The annotate arguments: gravity, fill colour, the optional stroke, font,
      point size, the `+o+o` geometry, the text and the file written in place. */
  function AnnotateArgs(req: Request, outline: Option<string>): (a: seq<string>)
    ensures |a| == (if outline.Some? then 15 else 13)
    ensures a[0] == req.file && a[|a| - 1] == req.file
    ensures a[|a| - 4] == "-annotate" && a[|a| - 3] == OffsetGeometry(req.offset) && a[|a| - 2] == req.text
    ensures a[1] == "-gravity" && a[2] == req.position && a[3] == "-fill" && a[4] == req.fontColor
    ensures outline.Some? <==> a[5] == "-stroke"
    ensures outline.Some? ==> a[6] == outline.value
    ensures a[|a| - 8] == "-font" && a[|a| - 7] == req.font
    ensures a[|a| - 6] == "-pointsize" && a[|a| - 5] == NatToString(req.pointSize)
  {
    var stroke := if outline.Some? then ["-stroke", outline.value] else [];
    [req.file, "-gravity", req.position, "-fill", req.fontColor] + stroke
      + ["-font", req.font, "-pointsize", NatToString(req.pointSize),
         "-annotate", OffsetGeometry(req.offset), req.text, req.file]
  }

  /** The point size argument reads back as the requested size. */
  lemma {:induction false} AnnotatePointSize(req: Request, outline: Option<string>)
    ensures var a := AnnotateArgs(req, outline);
      a[|a| - 6] == "-pointsize" && ParseInt(a[|a| - 5]) == Some(req.pointSize)
  {
    ParseIntOfNatToString(req.pointSize);
  }

  // ---------------------------------------------------------------------------
  // The composition

  /** The calls made, in order, and whether the last of them failed. */
  datatype Run = Run(calls: seq<Call>, failed: bool)

  /** Every call but the last succeeded, and the run failed exactly when the
      last call did. */
  predicate StopsAtFirstFailure(r: Run, magick: Magick)
  {
    && |r.calls| >= 1
    && (forall i | 0 <= i < |r.calls| - 1 :: magick(r.calls[i]).Some?)
    && (r.failed <==> magick(r.calls[|r.calls| - 1]).None?)
  }

  /** A successful call in front of a run that stops at its first failure
      gives a run that does too. */
  lemma {:induction false} PrependSuccess(c: Call, rest: Run, magick: Magick)
    requires magick(c).Some? && StopsAtFirstFailure(rest, magick)
    ensures StopsAtFirstFailure(Run([c] + rest.calls, rest.failed), magick)
  {
    var calls := [c] + rest.calls;
    forall i | 0 <= i < |calls| - 1
      ensures magick(calls[i]).Some?
    {
      if i > 0 {
        assert calls[i] == rest.calls[i - 1];
      }
    }
    assert calls[|calls| - 1] == rest.calls[|rest.calls| - 1];
  }

  /** Number of calls of a complete composition. */
  function Steps(style: Style): nat
  {
    if style.measureCanvas then 5 else 4
  }

  /** Read the artwork's size, composite it scaled onto the canvas, annotate. */
  function AddImageAndText(req: Request, style: Style, magick: Magick, canvasWidth: Option<int>, canvasHeight: Option<int>): (r: Run)
    ensures StopsAtFirstFailure(r, magick) && 1 <= |r.calls| <= 3
    ensures r.calls[0] == Convert(InfoArgs(req.art))
    ensures !r.failed ==> |r.calls| == 3 && r.calls[2] == Convert(AnnotateArgs(req, style.outline))
    ensures |r.calls| >= 2 ==> exists out :: (magick(r.calls[0]) == Some(out)
      && r.calls[1] == Composite(req.file, req.art, ScaledSize(ParseDimensions(out), canvasWidth, canvasHeight)))
  {
    var query := Convert(InfoArgs(req.art));
    match magick(query)
    case None => Run([query], true)
    case Some(out) =>
      var composite := Composite(req.file, req.art, ScaledSize(ParseDimensions(out), canvasWidth, canvasHeight));
      if magick(composite).None? then Run([query, composite], true)
      else
        var annotate := Convert(AnnotateArgs(req, style.outline));
        Run([query, composite, annotate], magick(annotate).None?)
  }

  /** Read the canvas's own size (the src/ writers), then go on. */
  function MeasureAndAdd(req: Request, style: Style, magick: Magick): (r: Run)
    ensures StopsAtFirstFailure(r, magick) && 1 <= |r.calls| <= 4
    ensures r.calls[0] == Convert(InfoArgs(req.file))
    ensures !r.failed ==> |r.calls| == 4 && r.calls[3] == Convert(AnnotateArgs(req, style.outline))
  {
    var query := Convert(InfoArgs(req.file));
    match magick(query)
    case None => Run([query], true)
    case Some(out) =>
      var dims := ParseDimensions(out);
      var rest := AddImageAndText(req, style, magick, dims.width, dims.height);
      PrependSuccess(query, rest, magick);
      Run([query] + rest.calls, rest.failed)
  }

  /** The whole composition. It starts with the canvas call, stops at the
      first failing call, and when nothing fails ends with the annotation
      after `Steps(style)` calls. */
  function Compose(req: Request, style: Style, magick: Magick): (r: Run)
    ensures StopsAtFirstFailure(r, magick) && 1 <= |r.calls| <= Steps(style)
    ensures r.calls[0] == Convert(CanvasArgs(req.file, req.width, req.height, req.background))
    ensures !r.failed <==> |r.calls| == Steps(style) && magick(r.calls[Steps(style) - 1]).Some?
    ensures !r.failed ==> r.calls[|r.calls| - 1] == Convert(AnnotateArgs(req, style.outline))
  {
    var canvas := Convert(CanvasArgs(req.file, req.width, req.height, req.background));
    if magick(canvas).None? then Run([canvas], true)
    else
      var rest :=
        if style.measureCanvas then MeasureAndAdd(req, style, magick)
        else AddImageAndText(req, style, magick, Some(req.width), Some(req.height));
      PrependSuccess(canvas, rest, magick);
      Run([canvas] + rest.calls, rest.failed)
  }

  /** When the canvas reports the requested size and the artwork reports
      `iw`×`ih`, the artwork is composited at `Fit(iw, ih, width, height)`:
      the largest aspect-preserving size that fits the canvas. */
  lemma {:induction false} ComposeScalesToFit(req: Request, style: Style, magick: Magick, iw: nat, ih: nat)
    requires magick(Convert(CanvasArgs(req.file, req.width, req.height, req.background))).Some?
    requires style.measureCanvas ==> magick(Convert(InfoArgs(req.file))) == Some(FormatDimensions(req.width, req.height))
    requires magick(Convert(InfoArgs(req.art))) == Some(FormatDimensions(iw, ih))
    ensures |Compose(req, style, magick).calls| >= Steps(style) - 1
    ensures Compose(req, style, magick).calls[Steps(style) - 2]
      == Composite(req.file, req.art, Fit(iw, ih, req.width, req.height))
  {
    if style.measureCanvas {
      MeasuredComposeScalesToFit(req, style, magick, iw, ih);
    } else {
      DirectComposeScalesToFit(req, style, magick, iw, ih);
    }
  }

  lemma {:induction false} MeasuredComposeScalesToFit(req: Request, style: Style, magick: Magick, iw: nat, ih: nat)
    requires style.measureCanvas
    requires magick(Convert(CanvasArgs(req.file, req.width, req.height, req.background))).Some?
    requires magick(Convert(InfoArgs(req.file))) == Some(FormatDimensions(req.width, req.height))
    requires magick(Convert(InfoArgs(req.art))) == Some(FormatDimensions(iw, ih))
    ensures |Compose(req, style, magick).calls| >= 4
    ensures Compose(req, style, magick).calls[3] == Composite(req.file, req.art, Fit(iw, ih, req.width, req.height))
  {
    MeasureScalesToFit(req, style, magick, iw, ih);
    ComposeAfterCanvas(req, style, magick);
  }

  lemma {:induction false} DirectComposeScalesToFit(req: Request, style: Style, magick: Magick, iw: nat, ih: nat)
    requires !style.measureCanvas
    requires magick(Convert(CanvasArgs(req.file, req.width, req.height, req.background))).Some?
    requires magick(Convert(InfoArgs(req.art))) == Some(FormatDimensions(iw, ih))
    ensures |Compose(req, style, magick).calls| >= 3
    ensures Compose(req, style, magick).calls[2] == Composite(req.file, req.art, Fit(iw, ih, req.width, req.height))
  {
    AddScalesToFit(req, style, magick, iw, ih, req.width, req.height);
    ComposeAfterCanvas(req, style, magick);
  }

  /** Once the canvas exists, the composition goes on with the rest of the
      steps of its style. */
  lemma {:induction false} ComposeAfterCanvas(req: Request, style: Style, magick: Magick)
    requires magick(Convert(CanvasArgs(req.file, req.width, req.height, req.background))).Some?
    ensures Compose(req, style, magick).calls
      == [Convert(CanvasArgs(req.file, req.width, req.height, req.background))]
         + (if style.measureCanvas then MeasureAndAdd(req, style, magick)
            else AddImageAndText(req, style, magick, Some(req.width), Some(req.height))).calls
  {
  }

  /** After a measured canvas of the requested size, the artwork is
      composited at the fitted size. */
  lemma {:induction false} MeasureScalesToFit(req: Request, style: Style, magick: Magick, iw: nat, ih: nat)
    requires magick(Convert(InfoArgs(req.file))) == Some(FormatDimensions(req.width, req.height))
    requires magick(Convert(InfoArgs(req.art))) == Some(FormatDimensions(iw, ih))
    ensures |MeasureAndAdd(req, style, magick).calls| >= 3
    ensures MeasureAndAdd(req, style, magick).calls[2]
      == Composite(req.file, req.art, Fit(iw, ih, req.width, req.height))
  {
    ParseFormatDimensions(req.width, req.height);
    AddScalesToFit(req, style, magick, iw, ih, req.width, req.height);
    var rest := AddImageAndText(req, style, magick, Some(req.width), Some(req.height));
    var r := MeasureAndAdd(req, style, magick);
    assert r.calls == [Convert(InfoArgs(req.file))] + rest.calls;
    assert r.calls[2] == rest.calls[1];
  }

  /** Once the artwork reports `iw`×`ih`, it is composited at the fitted
      size on a `cw`×`ch` canvas. */
  lemma {:induction false} AddScalesToFit(req: Request, style: Style, magick: Magick, iw: nat, ih: nat, cw: nat, ch: nat)
    requires magick(Convert(InfoArgs(req.art))) == Some(FormatDimensions(iw, ih))
    ensures |AddImageAndText(req, style, magick, Some(cw), Some(ch)).calls| >= 2
    ensures AddImageAndText(req, style, magick, Some(cw), Some(ch)).calls[1]
      == Composite(req.file, req.art, Fit(iw, ih, cw, ch))
  {
    ParseFormatDimensions(iw, ih);
  }

  // ---------------------------------------------------------------------------
  // The writers' common guard

  /** What a wallpaper writer does: it throws before touching ImageMagick, or
      it runs the composition (whose own failures are caught and logged). */
  datatype Outcome = Thrown(message: string) | Composed(run: Run)

  /** `_isEmpty` on the artwork path: absent or the empty string. */
  predicate MissingImage(artImage: Option<string>)
  {
    artImage.None? || |artImage.value| == 0
  }
}
