/** Fitting a video of one aspect ratio into a viewport of another, in integers. */
module AspectFit {
  import opened Arithmetic

  const WORD := 0x1_0000_0000        // one past the largest u32
  const LONG_WORD := 0x1_0000_0000_0000_0000

  type U32 = n: nat | n < WORD

  datatype Size = Size(width: nat, height: nat)

  /** `side * factor / over` in wide arithmetic, rounded down. */
  function Scale(side: nat, factor: nat, over: nat): nat
    requires over > 0
  {
    QuotientIsNatural(side * factor, over);
    side * factor / over
  }

  function FitSize(sourceWidth: U32, sourceHeight: U32, destinationWidth: U32, destinationHeight: U32): Size {
    if sourceWidth == 0 || sourceHeight == 0 || destinationWidth == 0 || destinationHeight == 0 then
      Size(0, 0)
    else if destinationWidth * sourceHeight <= destinationHeight * sourceWidth then
      Size(destinationWidth, Max(Scale(destinationWidth, sourceHeight, sourceWidth) % WORD, 1))
    else
      Size(Max(Scale(destinationHeight, sourceWidth, sourceHeight) % WORD, 1), destinationHeight)
  }

  lemma {:induction false} QuotientAtMost(a: nat, b: nat, d: nat)
    requires d > 0
    ensures a <= b * d ==> a / d <= b
    ensures a >= b * d ==> a / d >= b
    ensures a / d >= b ==> a >= b * d
  {
    var q := a / d;
    assert a == q * d + a % d;
    if q > b { assert q * d >= (b + 1) * d == b * d + d; }
    if q < b { assert (q + 1) * d <= b * d; }
    if q >= b { assert q * d >= b * d; }
  }

  lemma {:induction false} ProductBelow(a: nat, b: nat, n: nat)
    requires a < n && b < n
    ensures a * b < n * n
  {
    assert a * b <= a * n;
    assert a * n < n * n;
  }

  /** The wide products stay below 2^64 and the narrowing casts lose nothing. */
  lemma {:induction false} NothingOverflows(sw: U32, sh: U32, dw: U32, dh: U32)
    requires sw > 0 && sh > 0
    ensures dw * sh < LONG_WORD && dh * sw < LONG_WORD
    ensures dw * sh <= dh * sw ==> Scale(dw, sh, sw) <= dh
    ensures dw * sh > dh * sw ==> Scale(dh, sw, sh) <= dw
  {
    ProductBelow(dw, sh, WORD);
    ProductBelow(dh, sw, WORD);
    QuotientAtMost(dw * sh, dh, sw);
    QuotientAtMost(dh * sw, dw, sh);
  }

  /** The fit, of the two quotients it may use. */
  function FitOf(widthLimited: bool, dw: nat, dh: nat, height: nat, width: nat): Size {
    if widthLimited then Size(dw, Max(height % WORD, 1)) else Size(Max(width % WORD, 1), dh)
  }

  lemma {:induction false} FitOfIsClosed(widthLimited: bool, dw: U32, dh: U32, height: nat, width: nat)
    requires dw > 0 && dh > 0
    requires if widthLimited then height <= dh && width >= dw else width <= dw && height >= dh
    ensures FitOf(widthLimited, dw, dh, height, width) == Size(Max(1, Min(dw, width)), Max(1, Min(dh, height)))
  {
  }

  /** Main result: the fit, in closed form. */
  lemma {:induction false} FitIsTheClosedForm(sw: U32, sh: U32, dw: U32, dh: U32)
    requires sw > 0 && sh > 0 && dw > 0 && dh > 0
    ensures FitSize(sw, sh, dw, dh) == Size(Max(1, Min(dw, Scale(dh, sw, sh))), Max(1, Min(dh, Scale(dw, sh, sw))))
  {
    var height, width := Scale(dw, sh, sw), Scale(dh, sw, sh);
    QuotientAtMost(dw * sh, dh, sw);
    QuotientAtMost(dh * sw, dw, sh);
    FitOfIsClosed(dw * sh <= dh * sw, dw, dh, height, width);
  }

  /** The longest side, in whole pixels, that is not too long for the aspect, or one pixel. */
  predicate IsRoundedDown(side: nat, over: nat, product: nat) {
    (side * over <= product && product < side * over + over) || (side == 1 && product < over)
  }

  lemma {:induction false} QuotientIsRoundedDown(a: nat, d: nat, q: nat)
    requires d > 0 && q == a / d
    ensures IsRoundedDown(Max(q, 1), d, a)
  {
    assert a == q * d + a % d;
  }

  /** The fit fills the side that limits it, and the other side keeps the source's aspect as
      closely as whole pixels allow. */
  lemma {:induction false} FitKeepsTheAspect(sw: U32, sh: U32, dw: U32, dh: U32)
    requires sw > 0 && sh > 0 && dw > 0 && dh > 0
    ensures var fit := FitSize(sw, sh, dw, dh);
      if dw * sh <= dh * sw then fit.width == dw && IsRoundedDown(fit.height, sw, dw * sh)
      else fit.height == dh && IsRoundedDown(fit.width, sh, dh * sw)
  {
    NothingOverflows(sw, sh, dw, dh);
    QuotientIsRoundedDown(dw * sh, sw, Scale(dw, sh, sw));
    QuotientIsRoundedDown(dh * sw, sh, Scale(dh, sw, sh));
  }

  lemma {:induction false} FitStaysInside(sw: U32, sh: U32, dw: U32, dh: U32)
    ensures var fit := FitSize(sw, sh, dw, dh);
      && fit.width <= dw && fit.height <= dh
      && (fit.width == 0 <==> fit.height == 0)
      && (fit.width == 0 <==> sw == 0 || sh == 0 || dw == 0 || dh == 0)
      && (fit.width > 0 ==> fit.width == dw || fit.height == dh)
  {
    if sw > 0 && sh > 0 && dw > 0 && dh > 0 {
      FitIsTheClosedForm(sw, sh, dw, dh);
    }
  }

  lemma {:induction false} ScaleGrows(a: nat, b: nat, k: nat, d: nat)
    requires a <= b && d > 0
    ensures Scale(a, k, d) <= Scale(b, k, d)
  {
    assert a * k <= b * k;
    QuotientGrows(a * k, b * k, d);
  }

  lemma {:induction false} QuotientGrows(p: nat, q: nat, d: nat)
    requires p <= q && d > 0
    ensures p / d <= q / d
  {
    QuotientAtMost(q, p / d, d);
  }

  /** A larger destination never yields a smaller picture. */
  lemma {:induction false} FitIsMonotone(sw: U32, sh: U32, dw: U32, dh: U32, dw': U32, dh': U32)
    requires dw <= dw' && dh <= dh'
    ensures var fit := FitSize(sw, sh, dw, dh);
      var fit' := FitSize(sw, sh, dw', dh');
      fit.width <= fit'.width && fit.height <= fit'.height
  {
    if sw > 0 && sh > 0 && dw > 0 && dh > 0 {
      FitIsTheClosedForm(sw, sh, dw, dh);
      FitIsTheClosedForm(sw, sh, dw', dh');
      ScaleGrows(dw, dw', sh, sw);
      ScaleGrows(dh, dh', sw, sh);
    }
  }

  /** Turning source and destination on their side turns the fit on its side. */
  lemma {:induction false} FitCommutesWithTurning(sw: U32, sh: U32, dw: U32, dh: U32)
    ensures var fit := FitSize(sw, sh, dw, dh);
      FitSize(sh, sw, dh, dw) == Size(fit.height, fit.width)
  {
    if sw > 0 && sh > 0 && dw > 0 && dh > 0 {
      FitIsTheClosedForm(sw, sh, dw, dh);
      FitIsTheClosedForm(sh, sw, dh, dw);
    }
  }

  lemma {:induction false} RoundedSideCovers(a: nat, d: nat)
    requires d > 0
    ensures Max(1, a / d) * d >= a <==> a % d == 0 || a < d
  {
    assert a == a / d * d + a % d;
    if a < d {
      assert a / d == 0;
    } else {
      QuotientAtMost(a, 1, d);
    }
  }

  /** Fitting into a previous fit changes nothing exactly when the first division was exact
      or rounded up to one pixel, or the full side is one pixel wide already. */
  lemma {:induction false} RefitWhenWidthLimited(sw: U32, sh: U32, dw: U32, dh: U32)
    requires sw > 0 && sh > 0 && dw > 0 && dh > 0
    requires dw * sh <= dh * sw
    ensures var fit := FitSize(sw, sh, dw, dh);
      && fit.height < WORD
      && (FitSize(sw, sh, fit.width, fit.height) == fit <==> dw * sh % sw == 0 || dw * sh < sw || dw == 1)
  {
    FitStaysInside(sw, sh, dw, dh);
    NothingOverflows(sw, sh, dw, dh);
    var h := Max(1, Scale(dw, sh, sw));
    assert FitSize(sw, sh, dw, dh) == Size(dw, h);
    FitIsTheClosedForm(sw, sh, dw, h);
    QuotientAtMost(h * sw, dw, sh);
    RoundedSideCovers(dw * sh, sw);
  }

  lemma {:induction false} RefitWhenHeightLimited(sw: U32, sh: U32, dw: U32, dh: U32)
    requires sw > 0 && sh > 0 && dw > 0 && dh > 0
    requires dw * sh >= dh * sw
    ensures var fit := FitSize(sw, sh, dw, dh);
      && fit.width < WORD
      && (FitSize(sw, sh, fit.width, fit.height) == fit <==> dh * sw % sh == 0 || dh * sw < sh || dh == 1)
  {
    var fit := FitSize(sw, sh, dw, dh);
    FitCommutesWithTurning(sw, sh, dw, dh);
    RefitWhenWidthLimited(sh, sw, dh, dw);
    FitCommutesWithTurning(sw, sh, fit.width, fit.height);
  }

  /** So fitting twice is not in general the same as fitting once. */
  lemma {:induction false} RefitCanShrink()
    ensures FitSize(3, 2, 5, 5) == Size(5, 3) && FitSize(3, 2, 5, 3) == Size(4, 3)
  {
  }
}
