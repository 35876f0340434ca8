/**
 The RGB to RGBW converter of the BuildLeds plugin (`rgb_to_rgbw` and `clamp`).

 The brightest channel is scaled to 255, a whiteness value is estimated from
 the largest and smallest scaled channels and scaled back, and the four
 outputs (red, green, blue, white) are truncated toward zero and clamped to
 [0, 255]. The arithmetic is exact real arithmetic here, where the plugin uses
 floating point.
 */
module Rgbw {

  /** The four channel levels, in the order the plugin returns and writes them. */
  datatype Levels = Levels(r: int, g: int, b: int, w: int)

  predicate IsByte(v: int) {
    0 <= v <= 255
  }

  predicate AllBytes(q: Levels) {
    IsByte(q.r) && IsByte(q.g) && IsByte(q.b) && IsByte(q.w)
  }

  function IntMax(a: int, b: int): int {
    if a >= b then a else b
  }

  function IntMin(a: int, b: int): int {
    if a <= b then a else b
  }

  /** `max(a, b, c)` over integers. */
  function IntMax3(a: int, b: int, c: int): (m: int)
    ensures m >= a && m >= b && m >= c
    ensures m == a || m == b || m == c
  {
    IntMax(a, IntMax(b, c))
  }

  /** `min(a, b, c)` over integers. */
  function IntMin3(a: int, b: int, c: int): (m: int)
    ensures m <= a && m <= b && m <= c
    ensures m == a || m == b || m == c
  {
    IntMin(a, IntMin(b, c))
  }

  /** `max(a, b, c)` over reals. */
  function Max3(a: real, b: real, c: real): (m: real)
    ensures m >= a && m >= b && m >= c
    ensures m == a || m == b || m == c
  {
    if a >= b && a >= c then a else if b >= c then b else c
  }

  /** `min(a, b, c)` over reals. */
  function Min3(a: real, b: real, c: real): (m: real)
    ensures m <= a && m <= b && m <= c
    ensures m == a || m == b || m == c
  {
    if a <= b && a <= c then a else if b <= c then b else c
  }

  /** `clamp(val, min_val, max_val)`, that is `max(min_val, min(val, max_val))`. */
  function Clamp(v: int, lo: int, hi: int): (r: int)
    ensures lo <= hi ==> lo <= r <= hi
    ensures lo <= v <= hi ==> r == v
    ensures v < lo ==> r == lo
    ensures lo <= hi < v ==> r == hi
    ensures hi < lo ==> r == lo
  {
    IntMax(lo, IntMin(v, hi))
  }

  /** Clamping twice to the same bounds is clamping once. */
  lemma ClampIdempotent(v: int, lo: int, hi: int)
    requires lo <= hi
    ensures Clamp(Clamp(v, lo, hi), lo, hi) == Clamp(v, lo, hi)
  {
  }

  /** `int(x)` on a number: truncation toward zero. */
  function Trunc(x: real): (n: int)
    ensures 0.0 <= x ==> 0 <= n && n as real <= x < n as real + 1.0
    ensures x < 0.0 ==> n <= 0 && n as real - 1.0 < x <= n as real
  {
    if x >= 0.0 then x.Floor else -((-x).Floor)
  }

  lemma TruncOfInt(n: int)
    ensures Trunc(n as real) == n
  {
  }

  /** The whiteness: the midpoint of the largest and smallest scaled channels, moved from
      [127.5, 255] to [0, 255] and scaled back by `multiplier`. */
  function Whiteness(rh: real, gh: real, bh: real, multiplier: real): (w: real)
    requires multiplier != 0.0
    ensures w * multiplier == Max3(rh, gh, bh) + Min3(rh, gh, bh) - 255.0
  {
    ((Max3(rh, gh, bh) + Min3(rh, gh, bh)) / 2.0 - 127.5) * (255.0 / 127.5) / multiplier
  }

  /** The luminance of `rgb_to_rgbw`: scale the channels by `multiplier` and take the whiteness.
      As in the plugin, green's scaled value is bound to the name of blue's and blue's to the
      name of green's; the result is the whiteness with every channel under its own name. */
  function Luminance(r: real, g: real, b: real, multiplier: real): (l: real)
    requires multiplier != 0.0
    ensures l == Whiteness(r * multiplier, g * multiplier, b * multiplier, multiplier)
  {
    var rh := r * multiplier;
    var bh := g * multiplier;
    var gh := b * multiplier;
    WhitenessIgnoresSwap(rh, bh, gh, multiplier);
    Whiteness(rh, gh, bh, multiplier)
  }

  /** `rgb_to_rgbw(r_i, g_i, b_i)`. */
  function RgbToRgbw(ri: int, gi: int, bi: int): (q: Levels)
    ensures AllBytes(q)
    ensures IntMax3(ri, gi, bi) == 0 ==> q == Levels(0, 0, 0, 0)
  {
    var tm := IntMax3(ri, gi, bi);
    if tm == 0 then Levels(0, 0, 0, 0)
    else
      var multiplier := 255.0 / tm as real;
      assert multiplier * tm as real == 255.0;
      var luminance := Luminance(ri as real, gi as real, bi as real, multiplier);
      var wo := Trunc(luminance);
      var ro := Trunc(ri as real - luminance);
      var go := Trunc(gi as real - luminance);
      var bo := Trunc(bi as real - luminance);
      Levels(Clamp(ro, 0, 255), Clamp(go, 0, 255), Clamp(bo, 0, 255), Clamp(wo, 0, 255))
  }

  /** Exchanging the green and blue scaled values leaves the whiteness unchanged. */
  lemma WhitenessIgnoresSwap(rh: real, gh: real, bh: real, multiplier: real)
    requires multiplier != 0.0
    ensures Whiteness(rh, gh, bh, multiplier) == Whiteness(rh, bh, gh, multiplier)
  {
  }

  /** Multiplying by a positive factor keeps the order of two numbers; by a negative one it reverses it. */
  lemma MulCompare(x: real, y: real, m: real)
    ensures m > 0.0 ==> (x <= y <==> x * m <= y * m)
    ensures m < 0.0 ==> (x <= y <==> y * m <= x * m)
  {
  }

  /** Multiplying three numbers by a positive factor keeps the order between each pair of them. */
  lemma MulComparePositive(a: real, b: real, c: real, m: real)
    requires m > 0.0
    ensures a <= b <==> a * m <= b * m
    ensures b <= a <==> b * m <= a * m
    ensures a <= c <==> a * m <= c * m
    ensures c <= a <==> c * m <= a * m
    ensures b <= c <==> b * m <= c * m
    ensures c <= b <==> c * m <= b * m
  {
    MulCompare(a, b, m);
    MulCompare(b, a, m);
    MulCompare(a, c, m);
    MulCompare(c, a, m);
    MulCompare(b, c, m);
    MulCompare(c, b, m);
  }

  /** Scaling by a positive factor keeps the largest and the smallest of three numbers. */
  lemma ScaledExtremesPositive(a: real, b: real, c: real, m: real)
    requires m > 0.0
    ensures Max3(a * m, b * m, c * m) == Max3(a, b, c) * m
    ensures Min3(a * m, b * m, c * m) == Min3(a, b, c) * m
  {
    MulComparePositive(a, b, c, m);
  }

  /** Scaling by a negative factor exchanges the largest and the smallest of three numbers. */
  lemma ScaledExtremesNegative(a: real, b: real, c: real, m: real)
    requires m < 0.0
    ensures Max3(a * m, b * m, c * m) == Min3(a, b, c) * m
    ensures Min3(a * m, b * m, c * m) == Max3(a, b, c) * m
  {
    ScaledExtremesPositive(a, b, c, -m);
    assert a * m == -(a * -m) && b * m == -(b * -m) && c * m == -(c * -m);
    assert Max3(a * m, b * m, c * m) == -Min3(a * -m, b * -m, c * -m);
    assert Min3(a * m, b * m, c * m) == -Max3(a * -m, b * -m, c * -m);
  }

  /** When the largest and smallest scaled channels add up to 255 plus the scaled `lo`, the
      whiteness formula gives back `lo`. */
  lemma MidpointWhiteness(rh: real, gh: real, bh: real, lo: real, m: real)
    requires m != 0.0 && Max3(rh, gh, bh) + Min3(rh, gh, bh) == 255.0 + lo * m
    ensures Whiteness(rh, gh, bh, m) == lo
  {
    var sum := Max3(rh, gh, bh) + Min3(rh, gh, bh);
    assert (sum / 2.0 - 127.5) * (255.0 / 127.5) == lo * m;
  }

  /** Scaling by any non-zero factor scales the sum of the largest and the smallest of three numbers. */
  lemma ScaledExtremesSum(a: real, b: real, c: real, m: real)
    requires m != 0.0
    ensures Max3(a * m, b * m, c * m) + Min3(a * m, b * m, c * m) == Max3(a, b, c) * m + Min3(a, b, c) * m
  {
    if m > 0.0 {
      ScaledExtremesPositive(a, b, c, m);
    } else {
      ScaledExtremesNegative(a, b, c, m);
    }
  }

  /** Scaling three numbers so that the largest becomes 255 gives a whiteness equal to the smallest. */
  lemma WhitenessOfScaled(r: real, g: real, b: real, m: real)
    requires m != 0.0 && Max3(r, g, b) * m == 255.0
    ensures Whiteness(r * m, g * m, b * m, m) == Min3(r, g, b)
  {
    ScaledExtremesSum(r, g, b, m);
    MidpointWhiteness(r * m, g * m, b * m, Min3(r, g, b), m);
  }

  /** Over exact arithmetic, scaling a colour so that its largest channel becomes 255 gives a
      luminance equal to its smallest channel. */
  lemma LuminanceIsMin(r: real, g: real, b: real, multiplier: real)
    requires multiplier != 0.0 && Max3(r, g, b) * multiplier == 255.0
    ensures Luminance(r, g, b, multiplier) == Min3(r, g, b)
  {
    assert Max3(r, b, g) == Max3(r, g, b) && Min3(r, b, g) == Min3(r, g, b);
    WhitenessOfScaled(r, b, g, multiplier);
  }

  lemma ExtremesAsReal(a: int, b: int, c: int)
    ensures IntMax3(a, b, c) as real == Max3(a as real, b as real, c as real)
    ensures IntMin3(a, b, c) as real == Min3(a as real, b as real, c as real)
  {
  }

  /** Closed form of the conversion over exact arithmetic: a colour that is not black has its
      smallest channel moved to white, and every level is clamped. */
  lemma ClosedForm(ri: int, gi: int, bi: int)
    requires IntMax3(ri, gi, bi) != 0
    ensures var lo := IntMin3(ri, gi, bi);
      RgbToRgbw(ri, gi, bi) ==
        Levels(Clamp(ri - lo, 0, 255), Clamp(gi - lo, 0, 255), Clamp(bi - lo, 0, 255), Clamp(lo, 0, 255))
  {
    var lo := IntMin3(ri, gi, bi);
    var multiplier := 255.0 / IntMax3(ri, gi, bi) as real;
    assert multiplier * IntMax3(ri, gi, bi) as real == 255.0;
    ExtremesAsReal(ri, gi, bi);
    LuminanceIsMin(ri as real, gi as real, bi as real, multiplier);
    TruncOfInt(lo);
    TruncOfInt(ri - lo);
    TruncOfInt(gi - lo);
    TruncOfInt(bi - lo);
  }

  /** For a colour whose channels are bytes (black included) the conversion splits off the
      common part: white is the smallest channel, the colour levels are what remains, the
      four levels add back up to the input, and some colour level is zero. */
  lemma ByteColours(ri: int, gi: int, bi: int)
    requires IsByte(ri) && IsByte(gi) && IsByte(bi)
    ensures var lo := IntMin3(ri, gi, bi);
      RgbToRgbw(ri, gi, bi) == Levels(ri - lo, gi - lo, bi - lo, lo)
    ensures var q := RgbToRgbw(ri, gi, bi);
      q.r + q.w == ri && q.g + q.w == gi && q.b + q.w == bi && IntMin3(q.r, q.g, q.b) == 0
  {
    if IntMax3(ri, gi, bi) != 0 {
      ClosedForm(ri, gi, bi);
    }
  }

  /** A grey (every channel `v`) is pure white of level `v`: the default "#808080" gives
      (0, 0, 0, 128) and full white (0, 0, 0, 255). */
  lemma GreyIsWhite(v: int)
    requires IsByte(v)
    ensures RgbToRgbw(v, v, v) == Levels(0, 0, 0, v)
  {
    ByteColours(v, v, v);
  }

  /** Exchanging the green and blue inputs exchanges the green and blue levels and nothing
      else, despite the exchanged names inside the converter. */
  lemma GreenBlueSymmetric(ri: int, gi: int, bi: int)
    ensures var q := RgbToRgbw(ri, gi, bi);
      RgbToRgbw(ri, bi, gi) == Levels(q.r, q.b, q.g, q.w)
  {
    assert IntMax3(ri, gi, bi) == IntMax3(ri, bi, gi);
    assert IntMin3(ri, gi, bi) == IntMin3(ri, bi, gi);
    if IntMax3(ri, gi, bi) != 0 {
      ClosedForm(ri, gi, bi);
      ClosedForm(ri, bi, gi);
    }
  }
}
