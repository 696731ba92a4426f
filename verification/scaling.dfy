/** Aspect-fit scaling: the size to resize an artwork to so that it covers as
    much of the wallpaper canvas as possible without being cropped. The three
    copies of the computation in the program (`calculateScaledImageDimensions`
    in src/wallpapers.js and src/wallpaper.js, `scaledDimensions` in
    wallpaper.js) are the same arithmetic; the last only takes the canvas
    arguments first.
    Numbers are exact reals: floating-point rounding is not modelled. */
module Scaling {
  import opened Base

  /** A width and a height in pixels. */
  datatype Size = Size(width: real, height: real)

  /** Image and canvas dimensions are all positive. */
  predicate Positive(iw: int, ih: int, cw: int, ch: int)
  {
    iw > 0 && ih > 0 && cw > 0 && ch > 0
  }

  /** `s` has the image's aspect ratio, `s.width / s.height == iw / ih`,
      written without division. */
  predicate SameAspect(s: Size, iw: int, ih: int)
  {
    s.width * (ih as real) == s.height * (iw as real)
  }

  /** `s` lies inside the canvas. */
  predicate FitsIn(s: Size, cw: int, ch: int)
  {
    0.0 < s.width <= cw as real && 0.0 < s.height <= ch as real
  }

  /** The image is relatively wider than the canvas: `iw / ih > cw / ch`. */
  predicate Wider(iw: int, ih: int, cw: int, ch: int)
  {
    iw * ch > cw * ih
  }

  /** A JavaScript number as the scaling sees it: a quotient of two integers
      is finite, or, for a zero divisor, Infinity of the dividend's sign, or
      NaN for `0 / 0`. */
  datatype JsNumber = Finite(value: real) | PosInfinity | NegInfinity | NaN

  /** `a / b` on integer operands. */
  function JsDiv(a: int, b: int): (q: JsNumber)
    ensures b != 0 <==> q.Finite?
    ensures b != 0 ==> q.value * (b as real) == a as real
    ensures b == 0 ==> (q == PosInfinity <==> a > 0) && (q == NaN <==> a == 0)
  {
    if b != 0 then Finite((a as real) / (b as real))
    else if a > 0 then PosInfinity
    else if a < 0 then NegInfinity
    else NaN
  }

  /** `x > y`: false whenever NaN is involved, Infinity above every finite
      number and -Infinity below. */
  predicate JsGreater(x: JsNumber, y: JsNumber)
  {
    match (x, y)
    case (Finite(a), Finite(b)) => a > b
    case (Finite(_), NegInfinity) => true
    case (PosInfinity, Finite(_)) => true
    case (PosInfinity, NegInfinity) => true
    case _ => false
  }

  /** The height-fit branch on its own, `{width: iw * (ch / ih), height: ch}`;
      `None` when `ih` is zero, where that width is Infinity or NaN. */
  function HeightFit(iw: int, ih: int, ch: int): (r: Option<Size>)
    ensures r.None? <==> ih == 0
    ensures r.Some? ==> r.value.height == ch as real && SameAspect(r.value, iw, ih)
  {
    if ih == 0 then None
    else
      var w := (iw as real) * ((ch as real) / (ih as real));
      assert w * (ih as real) == (ch as real) * (iw as real);
      Some(Size(w, ch as real))
  }

  /** The scaled size of an `iw`×`ih` image on a `cw`×`ch` canvas. The image is
      stretched to the canvas width when it is relatively wider than the canvas
      and to the canvas height otherwise, the two aspects being compared as
      JavaScript numbers (a zero height makes an aspect Infinity, or NaN for
      `0 / 0`). `None` stands for a size with Infinity or NaN in it, which
      needs a zero image dimension. */
  function Fit(iw: int, ih: int, cw: int, ch: int): (r: Option<Size>)
    ensures Positive(iw, ih, cw, ch) ==> r.Some?
    ensures r.Some? ==> SameAspect(r.value, iw, ih)
    ensures r.None? ==> iw == 0 || ih == 0
    ensures Positive(iw, ih, cw, ch) ==> FitsIn(r.value, cw, ch)
    ensures Positive(iw, ih, cw, ch) ==> r.value.width == cw as real || r.value.height == ch as real
  {
    if JsGreater(JsDiv(iw, ih), JsDiv(cw, ch)) then
      if iw == 0 then None
      else
        var h := (ih as real) * ((cw as real) / (iw as real));
        WideBranchShape(iw, ih, cw, ch, h);
        Some(Size(cw as real, h))
    else
      var r := HeightFit(iw, ih, ch);
      if r.Some? then
        TallBranchShape(iw, ih, cw, ch, r.value.width);
        r
      else r
  }

  /** On positive dimensions the JavaScript comparison of the two aspects is
      the cross-multiplied integer comparison. */
  lemma {:induction false} AspectComparison(iw: int, ih: int, cw: int, ch: int)
    requires Positive(iw, ih, cw, ch)
    ensures JsGreater(JsDiv(iw, ih), JsDiv(cw, ch)) <==> Wider(iw, ih, cw, ch)
  {
    var a := (iw as real) / (ih as real);
    var b := (cw as real) / (ch as real);
    assert JsDiv(iw, ih) == Finite(a) && JsDiv(cw, ch) == Finite(b);
    assert a * (ih as real) == iw as real;
    assert b * (ch as real) == cw as real;
    var k := (ih as real) * (ch as real);
    assert k > 0.0;
    assert a * k == (iw * ch) as real;
    assert b * k == (cw * ih) as real;
    if a > b {
      assert a * k > b * k;
    }
    if iw * ch > cw * ih {
      assert a * k > b * k;
    }
  }

  lemma {:induction false} WideBranchShape(iw: int, ih: int, cw: int, ch: int, h: real)
    requires iw != 0
    requires JsGreater(JsDiv(iw, ih), JsDiv(cw, ch))
    requires h == (ih as real) * ((cw as real) / (iw as real))
    ensures (cw as real) * (ih as real) == h * (iw as real)
    ensures Positive(iw, ih, cw, ch) ==> 0.0 < h < ch as real
  {
    assert h * (iw as real) == (ih as real) * (cw as real);
    if Positive(iw, ih, cw, ch) {
      AspectComparison(iw, ih, cw, ch);
      assert (iw * ch) as real > (cw * ih) as real;
      assert h * (iw as real) < (ch as real) * (iw as real);
    }
  }

  lemma {:induction false} TallBranchShape(iw: int, ih: int, cw: int, ch: int, w: real)
    requires ih != 0
    requires !JsGreater(JsDiv(iw, ih), JsDiv(cw, ch))
    requires w * (ih as real) == (ch as real) * (iw as real)
    ensures Positive(iw, ih, cw, ch) ==> 0.0 < w <= cw as real
    ensures Positive(iw, ih, cw, ch) && iw * ch == cw * ih ==> w == cw as real
  {
    if Positive(iw, ih, cw, ch) {
      AspectComparison(iw, ih, cw, ch);
      assert (iw * ch) as real <= (cw * ih) as real;
      assert w * (ih as real) <= (cw as real) * (ih as real);
      if iw * ch == cw * ih {
        assert w * (ih as real) == (cw as real) * (ih as real);
      }
    }
  }

  /** Zero heights: an image of zero height has an infinite aspect and takes
      the canvas width at zero height; on a canvas of zero height every image
      shrinks to nothing; and `0 / 0` against `0 / 0` is no number at all. */
  lemma {:induction false} FitZeroHeight(iw: int, ih: int, cw: int, ch: int)
    requires iw > 0 && ih > 0 && cw > 0 && ch > 0
    ensures Fit(iw, 0, cw, ch) == Some(Size(cw as real, 0.0))
    ensures Fit(iw, ih, cw, 0) == Some(Size(0.0, 0.0))
    ensures Fit(iw, 0, cw, 0).None? && Fit(0, 0, cw, ch).None?
  {
    assert (iw as real) * ((0 as real) / (ih as real)) == 0.0;
  }

  /** Width-fit branch: an image relatively wider than the canvas takes the
      full canvas width and keeps a margin above and below. */
  lemma {:induction false} FitWide(iw: int, ih: int, cw: int, ch: int)
    requires Positive(iw, ih, cw, ch) && Wider(iw, ih, cw, ch)
    ensures Fit(iw, ih, cw, ch) == Some(Size(cw as real, (ih as real) * (cw as real) / (iw as real)))
    ensures Fit(iw, ih, cw, ch).value.height < ch as real
  {
    AspectComparison(iw, ih, cw, ch);
    var h := (ih as real) * ((cw as real) / (iw as real));
    assert h == (ih as real) * (cw as real) / (iw as real);
    WideBranchShape(iw, ih, cw, ch, h);
  }

  /** Height-fit branch: otherwise the image takes the full canvas height and
      at most the canvas width; at equal aspect ratios it covers the canvas
      exactly. */
  lemma {:induction false} FitTall(iw: int, ih: int, cw: int, ch: int)
    requires Positive(iw, ih, cw, ch) && !Wider(iw, ih, cw, ch)
    ensures Fit(iw, ih, cw, ch) == Some(Size((iw as real) * (ch as real) / (ih as real), ch as real))
    ensures Fit(iw, ih, cw, ch).value.width <= cw as real
    ensures iw * ch == cw * ih ==> Fit(iw, ih, cw, ch) == Some(Size(cw as real, ch as real))
  {
    AspectComparison(iw, ih, cw, ch);
    var w := (iw as real) * ((ch as real) / (ih as real));
    assert w == (iw as real) * (ch as real) / (ih as real);
    TallBranchShape(iw, ih, cw, ch, w);
  }

  /** "As much room as possible without cutting off any of the image": every
      size with the image's aspect ratio that fits on the canvas is no larger
      than the computed one, in either dimension. */
  lemma {:induction false} FitIsLargest(iw: int, ih: int, cw: int, ch: int, s: Size)
    requires Positive(iw, ih, cw, ch)
    requires SameAspect(s, iw, ih) && FitsIn(s, cw, ch)
    ensures s.width <= Fit(iw, ih, cw, ch).value.width
    ensures s.height <= Fit(iw, ih, cw, ch).value.height
  {
    var f := Fit(iw, ih, cw, ch).value;
    TouchingSizeIsLargest(iw, ih, cw, ch, f, s);
  }

  /** Of two sizes with the image's aspect ratio inside the canvas, one that
      touches a canvas edge is at least as large as the other. */
  lemma {:induction false} TouchingSizeIsLargest(iw: int, ih: int, cw: int, ch: int, f: Size, s: Size)
    requires Positive(iw, ih, cw, ch)
    requires SameAspect(f, iw, ih) && FitsIn(f, cw, ch)
    requires f.width == cw as real || f.height == ch as real
    requires SameAspect(s, iw, ih) && FitsIn(s, cw, ch)
    ensures s.width <= f.width && s.height <= f.height
  {
    var iwr, ihr := iw as real, ih as real;
    if f.width == cw as real {
      // the heights follow the widths
      MulLeq(s.width, f.width, ihr);
      assert s.height * iwr <= f.height * iwr;
      CancelLeq(s.height, f.height, iwr);
    } else {
      // the widths follow the heights
      MulLeq(s.height, f.height, iwr);
      assert s.width * ihr <= f.width * ihr;
      CancelLeq(s.width, f.width, ihr);
    }
  }

  lemma {:induction false} MulLeq(a: real, b: real, c: real)
    requires a <= b && 0.0 <= c
    ensures a * c <= b * c
  {
    assert b * c - a * c == (b - a) * c;
  }

  lemma {:induction false} CancelLeq(a: real, b: real, c: real)
    requires a * c <= b * c && 0.0 < c
    ensures a <= b
  {
    if a > b {
      MulLess(b, a, c);
    }
  }

  lemma {:induction false} MulLess(a: real, b: real, c: real)
    requires a < b && 0.0 < c
    ensures a * c < b * c
  {
    assert b * c - a * c == (b - a) * c;
  }

  /** The two worked cases: a 3000×2000 image on a 1920×1080 canvas becomes
      1620×1080, and a 4000×1000 image becomes 1920×480. */
  lemma {:induction false} FitExamples()
    ensures Fit(3000, 2000, 1920, 1080) == Some(Size(1620.0, 1080.0))
    ensures Fit(4000, 1000, 1920, 1080) == Some(Size(1920.0, 480.0))
  {
    FitTall(3000, 2000, 1920, 1080);
    FitWide(4000, 1000, 1920, 1080);
  }
}
