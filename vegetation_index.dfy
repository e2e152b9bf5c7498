/** The ExG-ExR vegetation index of an RGB image, computed over exact reals.
    The epsilon that guards the division is an arbitrary positive constant. */
module VegetationIndex {
  import opened Grids

  /** An 8-bit channel intensity. */
  type Channel = x: int | 0 <= x <= 255

  datatype Pixel = Pixel(r: Channel, g: Channel, b: Channel)

  /** The index of one pixel: channels scaled to [0,1], turned into
      chromaticities by the epsilon-guarded sum, then 3g - 2.4r - b. */
  function ExGExR(p: Pixel, eps: real): (v: real)
    requires eps > 0.0
    ensures -2.4 < v < 3.0
    ensures p == Pixel(0, 0, 0) ==> v == 0.0
  {
    var rs := p.r as real / 255.0;
    var gs := p.g as real / 255.0;
    var bs := p.b as real / 255.0;
    var sum := rs + gs + bs + eps;
    var r := rs / sum;
    var g := gs / sum;
    var b := bs / sum;
    QuotientForm(rs, gs, bs, sum);
    QuotientBounds(3.0 * gs - 2.4 * rs - bs, sum);
    3.0 * g - 2.4 * r - b
  }

  /** The index is one quotient over the guarded sum. */
  lemma QuotientForm(rs: real, gs: real, bs: real, sum: real)
    requires sum > 0.0
    ensures 3.0 * (gs / sum) - 2.4 * (rs / sum) - bs / sum == (3.0 * gs - 2.4 * rs - bs) / sum
  {
    calc {
      3.0 * (gs / sum) - 2.4 * (rs / sum) - bs / sum;
      (3.0 * gs) / sum - (2.4 * rs) / sum - bs / sum;
      (3.0 * gs - 2.4 * rs - bs) / sum;
    }
  }

  /** The numerator lies strictly between -2.4 and 3 times the guarded sum. */
  lemma QuotientBounds(n: real, sum: real)
    requires sum > 0.0
    requires -2.4 * sum < n < 3.0 * sum
    ensures -2.4 < n / sum < 3.0
  {
    assert n / sum * sum == n;
  }

  /** With the default threshold 0, a pixel counts as vegetation exactly when
      15 G > 12 R + 5 B on its raw channels, whatever the epsilon. */
  lemma {:induction false} PositiveIff(p: Pixel, eps: real)
    requires eps > 0.0
    ensures ExGExR(p, eps) > 0.0 <==> 15 * p.g > 12 * p.r + 5 * p.b
  {
    var rs := p.r as real / 255.0;
    var gs := p.g as real / 255.0;
    var bs := p.b as real / 255.0;
    var sum := rs + gs + bs + eps;
    QuotientForm(rs, gs, bs, sum);
    var n := 3.0 * gs - 2.4 * rs - bs;
    assert ExGExR(p, eps) == n / sum;
    SignOfQuotient(n, sum);
    assert n == (30.0 * p.g as real - 24.0 * p.r as real - 10.0 * p.b as real) / 10.0 / 255.0;
  }

  lemma SignOfQuotient(n: real, sum: real)
    requires sum > 0.0
    ensures n / sum > 0.0 <==> n > 0.0
  {
    assert n / sum * sum == n;
  }

  /** A white pixel gives a finite negative value. */
  lemma WhitePixel(eps: real)
    requires eps > 0.0
    ensures ExGExR(Pixel(255, 255, 255), eps) == -0.4 / (3.0 + eps)
  {
    QuotientForm(1.0, 1.0, 1.0, 3.0 + eps);
  }

  /** For an epsilon of at most 1.4 the index has a largest and a smallest
      value, both reached: pure green gives 3 / (1 + eps) and pure red gives
      -2.4 / (1 + eps). (For a larger epsilon, red plus blue goes lower.) */
  lemma IndexExtremes(p: Pixel, eps: real)
    requires 0.0 < eps <= 1.4
    ensures ExGExR(Pixel(0, 255, 0), eps) == 3.0 / (1.0 + eps)
    ensures ExGExR(Pixel(255, 0, 0), eps) == -2.4 / (1.0 + eps)
    ensures -2.4 / (1.0 + eps) <= ExGExR(p, eps) <= 3.0 / (1.0 + eps)
  {
    QuotientForm(0.0, 1.0, 0.0, 1.0 + eps);
    QuotientForm(1.0, 0.0, 0.0, 1.0 + eps);
    var rs := p.r as real / 255.0;
    var gs := p.g as real / 255.0;
    var bs := p.b as real / 255.0;
    var sum := rs + gs + bs + eps;
    QuotientForm(rs, gs, bs, sum);
    var n := 3.0 * gs - 2.4 * rs - bs;
    assert ExGExR(p, eps) == n / sum;
    NumeratorBounds(rs, gs, bs, eps);
    UpperScaled(n, sum, 1.0 + eps);
    LowerScaled(n, sum, 1.0 + eps);
  }

  /** The numerator times (1 + eps) lies between -2.4 and 3 times the sum. */
  lemma NumeratorBounds(rs: real, gs: real, bs: real, eps: real)
    requires 0.0 <= rs <= 1.0 && 0.0 <= gs <= 1.0 && 0.0 <= bs <= 1.0 && 0.0 < eps <= 1.4
    ensures var n, sum := 3.0 * gs - 2.4 * rs - bs, rs + gs + bs + eps;
            -2.4 * sum <= n * (1.0 + eps) <= 3.0 * sum
  {
    var n, sum := 3.0 * gs - 2.4 * rs - bs, rs + gs + bs + eps;
    NonNegProduct(gs, 5.4 + 3.0 * eps);
    NonNegProduct(bs, 1.4 - eps);
    NonNegProduct(2.4 * eps, 1.0 - rs);
    NonNegProduct(3.0 * eps, 1.0 - gs);
    NonNegProduct(2.4 * rs + bs, 1.0 + eps);
    assert n * (1.0 + eps) == 3.0 * sum - 3.0 * (rs + bs) - (3.0 * eps) * (1.0 - gs) - (2.4 * rs + bs) * (1.0 + eps);
    assert n * (1.0 + eps) == -2.4 * sum + gs * (5.4 + 3.0 * eps) + bs * (1.4 - eps) + (2.4 * eps) * (1.0 - rs);
  }

  lemma NonNegProduct(x: real, y: real)
    requires x >= 0.0 && y >= 0.0
    ensures x * y >= 0.0
  {
  }

  /** Cross-multiplying by positive denominators, upper side. */
  lemma UpperScaled(n: real, sum: real, d: real)
    requires sum > 0.0 && d > 0.0 && n * d <= 3.0 * sum
    ensures n / sum <= 3.0 / d
  {
    var q, t := n / sum, 3.0 / d;
    assert q * sum == n && t * d == 3.0;
    assert (q * d - 3.0) * sum == n * d - 3.0 * sum;
    NonPosFactor(q * d - 3.0, sum);
    assert (q - t) * d == q * d - 3.0;
    NonPosFactor(q - t, d);
  }

  /** Cross-multiplying by positive denominators, lower side. */
  lemma LowerScaled(n: real, sum: real, d: real)
    requires sum > 0.0 && d > 0.0 && -2.4 * sum <= n * d
    ensures -2.4 / d <= n / sum
  {
    var q, t := n / sum, -2.4 / d;
    assert q * sum == n && t * d == -2.4;
    assert (-2.4 - q * d) * sum == -2.4 * sum - n * d;
    NonPosFactor(-2.4 - q * d, sum);
    assert (t - q) * d == -2.4 - q * d;
    NonPosFactor(t - q, d);
  }

  lemma NonPosFactor(x: real, y: real)
    requires y > 0.0 && x * y <= 0.0
    ensures x <= 0.0
  {
  }

  /** The index map of a whole image: same shape, and each value is the
      index of the pixel at the same place and of nothing else. */
  function IndexMap(img: seq<seq<Pixel>>, eps: real): (m: seq<seq<real>>)
    requires eps > 0.0
    ensures SameShape(m, img)
    ensures forall i, j :: 0 <= i < |img| && 0 <= j < |img[i]| ==> m[i][j] == ExGExR(img[i][j], eps)
    ensures forall i, j :: 0 <= i < |m| && 0 <= j < |m[i]| ==> -2.4 < m[i][j] < 3.0
  {
    seq(|img|, i requires 0 <= i < |img| =>
      seq(|img[i]|, j requires 0 <= j < |img[i]| => ExGExR(img[i][j], eps)))
  }

  /** An all-black image has an all-zero index map. */
  lemma BlackImage(img: seq<seq<Pixel>>, eps: real)
    requires eps > 0.0
    requires forall i, j :: 0 <= i < |img| && 0 <= j < |img[i]| ==> img[i][j] == Pixel(0, 0, 0)
    ensures forall i, j :: 0 <= i < |img| && 0 <= j < |img[i]| ==> IndexMap(img, eps)[i][j] == 0.0
  {
  }
}
