/** What the filters of the cascade are: the scaling function of a level is the hat function, the wavelet function runs
    straight between its weights, and their norms are known. */
module FilterNorms {
  import opened Filters

  // ---------------------------------------------------------------- a sparse factor

  lemma Halved(b: nat, m: nat, r: nat)
    ensures (b * (2 * m) + r) % 2 == r % 2
    ensures r % 2 == 0 ==> (b * (2 * m) + r) / 2 == b * m + r / 2
  {
    assert b * (2 * m) + r == 2 * (b * m) + r;
  }

  lemma UpHalf(p: seq<real>, k: nat, j: nat)
    requires |p| >= 1 && k > 0 && j < |Up(p, k)|
    ensures j % 2 == 0 ==> j / 2 < |Up(p, k - 1)|
    ensures Up(p, k)[j] == if j % 2 == 0 then Up(p, k - 1)[j / 2] else 0.0
  {
  }

  /** Of an upsampled filter, the old coefficients stand 2^k apart and the rest is zero. */
  lemma {:induction false} UpAt(p: seq<real>, k: nat, b: nat, r: nat)
    requires b < |p| && r < Pow2(k) && b * Pow2(k) + r < |Up(p, k)|
    ensures Up(p, k)[b * Pow2(k) + r] == if r == 0 then p[b] else 0.0
  {
    if k > 0 {
      var m := Pow2(k - 1);
      assert Pow2(k) == 2 * m;
      hide Up, Pow2;
      Halved(b, m, r);
      UpHalf(p, k, b * (2 * m) + r);
      if r % 2 == 0 { UpAt(p, k - 1, b, r / 2); }
    }
  }

  lemma {:induction false} PartialZeros(f: seq<real>, g: seq<real>, i: int, j: nat, k: nat)
    requires j <= k <= |f| && forall t :: j <= t < k ==> f[t] == 0.0
    ensures Partial(f, g, i, k) == Partial(f, g, i, j)
  {
    if j < k { PartialZeros(f, g, i, j, k - 1); }
  }

  /** The terms of the first `n` coefficients of `p`, set `m` apart. */
  function Spread(p: seq<real>, m: nat, g: seq<real>, i: int, n: nat): real
    requires n <= |p|
  {
    if n == 0 then 0.0 else Spread(p, m, g, i, n - 1) + p[n - 1] * Coeff(g, i - (n - 1) * m)
  }

  lemma {:induction false} PartialIsSpread(p: seq<real>, k: nat, g: seq<real>, i: int, b: nat)
    requires b < |p|
    ensures |Up(p, k)| == (|p| - 1) * Pow2(k) + 1 && b * Pow2(k) < |Up(p, k)|
    ensures Partial(Up(p, k), g, i, b * Pow2(k) + 1) == Spread(p, Pow2(k), g, i, b + 1)
  {
    hide Up;
    var m, f := Pow2(k), Up(p, k);
    UpLength(p, k);
    Times(b, |p| - 1, m);
    UpAt(p, k, b, 0);
    if b > 0 {
      PartialIsSpread(p, k, g, i, b - 1);
      assert (b - 1) * m + m == b * m;
      forall t | (b - 1) * m + 1 <= t < b * m ensures f[t] == 0.0 {
        UpAt(p, k, b - 1, t - (b - 1) * m);
      }
      PartialZeros(f, g, i, (b - 1) * m + 1, b * m);
    }
  }

  lemma Times(a: nat, b: nat, m: nat)
    requires a <= b
    ensures a * m <= b * m
  {
  }

  /** A coefficient of the product with an upsampled filter. */
  lemma ConvolvedIsSpread(p: seq<real>, k: nat, g: seq<real>, i: nat)
    requires |p| >= 1 && |g| >= 1 && i < |Up(p, k)| + |g| - 1
    ensures Convolved(Up(p, k), g)[i] == Spread(p, Pow2(k), g, i, |p|)
  {
    hide Up;
    PartialIsSpread(p, k, g, i, |p| - 1);
  }

  // ---------------------------------------------------------------- straight lines

  /** The hat function of width 2m: from 0 up to 1 at `m` and down to 0 at 2m. */
  function Hat(m: nat, i: int): real
    requires m >= 1
  {
    if 0 < i <= m then i as real / m as real else if m < i < 2 * m then (2 * m - i) as real / m as real else 0.0
  }

  /** At `r` of `m` on the way from weight `b - 1` of `p` to weight `b`; there is nothing in front of the weights and behind
      them. */
  function Between(p: seq<real>, m: nat, b: nat, r: nat): real
    requires m >= 1
  {
    Coeff(p, b - 1) + (Coeff(p, b) - Coeff(p, b - 1)) * (r as real / m as real)
  }

  /** `s` runs straight from weight to weight of `p`, which lie `m` apart. */
  ghost predicate Straight(s: seq<real>, p: seq<real>, m: nat) {
    && m >= 1 && |s| == (|p| + 1) * m - 1
    && forall b: nat, r: nat :: b <= |p| && r < m && 0 < b * m + r <= |s| ==> s[b * m + r - 1] == Between(p, m, b, r)
  }

  lemma HatStep(m: nat, d: int, r: nat)
    requires m >= 1 && r < m
    ensures d == 0 ==> Hat(m, d * m + r) == r as real / m as real
    ensures d == 1 ==> Hat(m, d * m + r) == 1.0 - r as real / m as real
    ensures d < 0 || d > 1 ==> Hat(m, d * m + r) == 0.0
  {
    if d < 0 { Times(1, -d, m); }
    if d > 1 { Times(2, d, m); }
    if d == 1 { Quotients(m as real, r as real); }
  }

  lemma Quotients(m: real, r: real)
    requires m > 0.0
    ensures m / m == 1.0 && (m - r) / m == 1.0 - r / m
  {
    var q := r / m;
    assert q * m == r;
    Quotient(m - r, m, 1.0 - q);
  }

  lemma Quotient(x: real, m: real, q: real)
    requires m > 0.0 && x == q * m
    ensures x / m == q
  {
  }

  /** Hats set `m` apart: two of them meet at any point. */
  lemma {:induction false} SpreadOfHats(p: seq<real>, m: nat, g: seq<real>, b: nat, r: nat, n: nat)
    requires m >= 1 && r < m && n <= |p| && forall i :: Coeff(g, i) == Hat(m, i + 1)
    ensures Spread(p, m, g, b * m + r - 1, n)
         == (if b < n then p[b] * (r as real / m as real) else 0.0)
            + (if 1 <= b <= n then p[b - 1] * (1.0 - r as real / m as real) else 0.0)
  {
    hide Hat, Coeff;
    if n > 0 {
      SpreadOfHats(p, m, g, b, r, n - 1);
      HatStep(m, b - (n - 1), r);
      assert b * m + r - 1 - (n - 1) * m + 1 == (b - (n - 1)) * m + r;
    }
  }

  lemma TwoMeet(p: seq<real>, m: nat, b: nat, r: nat)
    requires m >= 1 && b <= |p|
    ensures Between(p, m, b, r) == (if b < |p| then p[b] * (r as real / m as real) else 0.0)
                                   + (if 1 <= b then p[b - 1] * (1.0 - r as real / m as real) else 0.0)
  {
    Meet(Coeff(p, b - 1), Coeff(p, b), r as real / m as real);
  }

  lemma Meet(x: real, y: real, q: real)
    ensures y * q + x * (1.0 - q) == x + (y - x) * q
  {
  }

  /** An upsampled filter spreads a hat into straight lines between its weights. */
  lemma ConvolvedIsStraight(p: seq<real>, k: nat, g: seq<real>)
    requires |p| >= 1 && |g| == 2 * Pow2(k) - 1 && forall i :: Coeff(g, i) == Hat(Pow2(k), i + 1)
    ensures Straight(Convolved(Up(p, k), g), p, Pow2(k))
  {
    hide Hat, Up, Convolved, Spread, Pow2, Coeff, Between;
    var m, s := Pow2(k), Convolved(Up(p, k), g);
    UpLength(p, k);
    assert (|p| - 1) * m + 2 * m == (|p| + 1) * m;
    forall b: nat, r: nat | b <= |p| && r < m && 0 < b * m + r <= |s| ensures s[b * m + r - 1] == Between(p, m, b, r) {
      ConvolvedIsSpread(p, k, g, b * m + r - 1);
      SpreadOfHats(p, m, g, b, r, |p|);
      TwoMeet(p, m, b, r);
    }
  }

  // ---------------------------------------------------------------- the two functions

  /** Straight lines between a half, one, and a half are a hat of twice the width. */
  lemma WeightsAreHat(m: nat, b: nat, r: nat)
    requires m >= 1 && b <= 3 && r < m
    ensures Between(SCAL_WEIGHTS, m, b, r) == Hat(2 * m, b * m + r)
  {
    HalfQuotients(m as real, r as real);
  }

  lemma HalfQuotients(m: real, r: real)
    requires m > 0.0
    ensures r / (2.0 * m) == 0.5 * (r / m) && (m + r) / (2.0 * m) == 0.5 + 0.5 * (r / m)
    ensures (2.0 * m - r) / (2.0 * m) == 1.0 - 0.5 * (r / m) && (m - r) / (2.0 * m) == 0.5 - 0.5 * (r / m)
    ensures (2.0 * m) / (2.0 * m) == 1.0 && m / (2.0 * m) == 0.5
  {
    var q := r / m;
    assert q * m == r;
    Quotient(r, 2.0 * m, 0.5 * q);
    Quotient(m + r, 2.0 * m, 0.5 + 0.5 * q);
    Quotient(2.0 * m - r, 2.0 * m, 1.0 - 0.5 * q);
    Quotient(m - r, 2.0 * m, 0.5 - 0.5 * q);
  }

  /** Any position is a weight's and some way on. */
  lemma Position(n: nat, m: nat) returns (b: nat, r: nat)
    requires m >= 1
    ensures n == b * m + r && r < m
  {
    b, r := n / m, n % m;
  }

  lemma StraightIsHat(s: seq<real>, m: nat)
    requires Straight(s, SCAL_WEIGHTS, m)
    ensures |s| == 2 * (2 * m) - 1 && forall i :: Coeff(s, i) == Hat(2 * m, i + 1)
  {
    hide Hat, SCAL_WEIGHTS, Between;
    WeightLengths();
    assert |s| == 4 * m - 1;
    forall i ensures Coeff(s, i) == Hat(2 * m, i + 1) {
      if 0 <= i < |s| {
        var b, r := Position(i + 1, m);
        if b > 3 { Times(4, b, m); }
        assert s[b * m + r - 1] == Between(SCAL_WEIGHTS, m, b, r);
        WeightsAreHat(m, b, r);
      } else {
        NoHat(2 * m, i + 1);
      }
    }
  }

  lemma NoHat(m: nat, i: int)
    requires m >= 1 && (i <= 0 || 2 * m <= i)
    ensures Hat(m, i) == 0.0
  {
  }

  /** The weights themselves are straight lines of length 1. */
  lemma WeightsAreStraight(p: seq<real>)
    ensures Straight(p, p, 1)
  {
    forall b: nat, r: nat | b <= |p| && r < 1 && 0 < b * 1 + r <= |p| ensures p[b * 1 + r - 1] == Between(p, 1, b, r) {
    }
  }

  /** The scaling function of level `l` runs straight between its weights, which is to say, it is the hat function of
      width 2^(l+2). */
  lemma {:induction false} ScalIsHat(l: nat)
    ensures Straight(Scal(l), SCAL_WEIGHTS, Pow2(l))
    ensures |Scal(l)| == 2 * Pow2(l + 1) - 1 && forall i :: Coeff(Scal(l), i) == Hat(Pow2(l + 1), i + 1)
  {
    hide Hat, Up, Straight, SCAL_WEIGHTS;
    WeightLengths();
    if l == 0 {
      WeightsAreStraight(SCAL_WEIGHTS);
    } else {
      ScalIsHat(l - 1);
      ConvolvedIsStraight(SCAL_WEIGHTS, l, Scal(l - 1));
    }
    StraightIsHat(Scal(l), Pow2(l));
  }

  /** The wavelet function of level `l` runs straight between its weights. */
  lemma WaveIsStraight(l: nat)
    ensures Straight(Wave(l), WAVE_WEIGHTS, Pow2(l))
  {
    hide Hat, Up, Straight, WAVE_WEIGHTS;
    WeightLengths();
    if l == 0 {
      WeightsAreStraight(WAVE_WEIGHTS);
    } else {
      ScalIsHat(l - 1);
      ConvolvedIsStraight(WAVE_WEIGHTS, l, Scal(l - 1));
    }
  }

  // ---------------------------------------------------------------- norms

  /** The squares of the first `r` values on a line from `x` on that rises by `d` over a length of 1 / h. */
  function Squares(x: real, d: real, h: real, r: real): real {
    r * x * x + x * (d * h) * (r * r - r) + (d * h) * (d * h) * (2.0 * r * r * r - 3.0 * r * r + r) / 6.0
  }

  lemma SquaresNext(x: real, d: real, h: real, r: real, v: real)
    requires v == x + d * (r * h)
    ensures Squares(x, d, h, r + 1.0) == Squares(x, d, h, r) + v * v
  {
    Regroup(d, r, h);
    NextOfLine(x, d * h, r);
  }

  lemma Regroup(a: real, b: real, c: real)
    ensures a * (b * c) == (a * c) * b
  {
  }

  lemma NextOfLine(x: real, e: real, r: real)
    ensures (x + e * r) * (x + e * r) == x * x + 2.0 * (x * e) * r + e * e * (r * r)
  {
  }

  /** Those of a whole line of `m` values. */
  function Line(x: real, d: real, m: real): real
    requires m > 0.0
  {
    m * x * x + x * d * (m - 1.0) + d * d * (2.0 * m - 3.0 + 1.0 / m) / 6.0
  }

  lemma WholeLine(x: real, d: real, m: real)
    requires m > 0.0
    ensures Squares(x, d, 1.0 / m, m) == Line(x, d, m)
  {
    var h := 1.0 / m;
    assert h * m == 1.0;
    var e := d * h;
    assert e * m == d;
    assert x * e * (m * m - m) == x * d * (m - 1.0) by { assert e * (m * m - m) == d * (m - 1.0); }
    assert e * e * (2.0 * m * m * m - 3.0 * m * m + m) == d * d * (2.0 * m - 3.0 + h) by {
      assert e * e * m == d * e;
      assert e * e * (2.0 * m * m * m - 3.0 * m * m + m) == d * e * (2.0 * m * m - 3.0 * m + 1.0);
      assert e * (2.0 * m * m - 3.0 * m + 1.0) == d * (2.0 * m - 3.0) + e;
    }
  }

  /** Those of the first `b` lines between weights of `p`. */
  function Lines(p: seq<real>, m: nat, b: nat): real
    requires m >= 1
  {
    if b == 0 then 0.0
    else Lines(p, m, b - 1) + Line(Coeff(p, b - 2), Coeff(p, b - 1) - Coeff(p, b - 2), m as real)
  }

  lemma SumNext(s: seq<real>, n: nat)
    requires 0 < n <= |s|
    ensures SumOfSquares(s[..n]) == SumOfSquares(s[..n - 1]) + s[n - 1] * s[n - 1]
  {
    assert s[..n][..n - 1] == s[..n - 1];
  }

  lemma Over(r: real, m: real)
    requires m > 0.0
    ensures r / m == r * (1.0 / m)
  {
  }

  lemma StraightAt(s: seq<real>, p: seq<real>, m: nat, b: nat, r: nat, n: nat)
    requires Straight(s, p, m) && b <= |p| && r < m && n == b * m + r && 0 < n <= |s|
    ensures s[n - 1] == Coeff(p, b - 1) + (Coeff(p, b) - Coeff(p, b - 1)) * (r as real * (1.0 / m as real))
  {
    hide Coeff;
    assert s[n - 1] == Between(p, m, b, r);
    Over(r as real, m as real);
  }

  /** One value more. */
  lemma SquaresOn(s: seq<real>, p: seq<real>, m: nat, b: nat, r: nat, n: nat, sum: real)
    requires Straight(s, p, m) && b <= |p| && r < m && n == b * m + r && 0 < n <= |s|
    requires SumOfSquares(s[..n - 1])
          == sum + Squares(Coeff(p, b - 1), Coeff(p, b) - Coeff(p, b - 1), 1.0 / m as real, r as real)
    ensures SumOfSquares(s[..n])
         == sum + Squares(Coeff(p, b - 1), Coeff(p, b) - Coeff(p, b - 1), 1.0 / m as real, r as real + 1.0)
  {
    hide Squares, Coeff, Straight, SumOfSquares;
    SumNext(s, n);
    StraightAt(s, p, m, b, r, n);
    SquaresNext(Coeff(p, b - 1), Coeff(p, b) - Coeff(p, b - 1), 1.0 / m as real, r as real, s[n - 1]);
  }

  lemma {:induction false} SquaresTo(s: seq<real>, p: seq<real>, m: nat, b: nat, r: nat, n: nat)
    requires Straight(s, p, m) && b <= |p| && r <= m && n + 1 == b * m + r && n <= |s|
    ensures SumOfSquares(s[..n])
         == Lines(p, m, b) + Squares(Coeff(p, b - 1), Coeff(p, b) - Coeff(p, b - 1), 1.0 / m as real, r as real)
    decreases b, r
  {
    hide Squares, Line, Coeff, Straight, SumOfSquares;
    var x, d, h := Coeff(p, b - 1), Coeff(p, b) - Coeff(p, b - 1), 1.0 / m as real;
    if r == 0 {
      assert (b - 1) * m + m == b * m;
      SquaresTo(s, p, m, b - 1, m, n);
      WholeLine(Coeff(p, b - 2), Coeff(p, b - 1) - Coeff(p, b - 2), m as real);
      NoSquares(x, d, h);
    } else if n == 0 {
      NoSquares(x, d, h);
      NothingBefore(p, s);
      Zero(b, m, r);
    } else {
      SquaresTo(s, p, m, b, r - 1, n - 1);
      SquaresOn(s, p, m, b, r - 1, n, Lines(p, m, b));
      assert (r - 1) as real + 1.0 == r as real;
    }
  }

  lemma Zero(b: nat, m: nat, r: nat)
    requires m >= 1 && r >= 1 && b * m + r == 1
    ensures b == 0 && r == 1
  {
    if b > 0 { Times(1, b, m); }
  }

  lemma NothingBefore(p: seq<real>, s: seq<real>)
    ensures Coeff(p, -1) == 0.0 && SumOfSquares(s[..0]) == 0.0
  {
  }

  lemma NoSquares(x: real, d: real, h: real)
    ensures Squares(x, d, h, 0.0) == 0.0 && (x == 0.0 ==> Squares(x, d, h, 1.0) == 0.0)
  {
  }

  /** The squared norm of what runs straight between weights. */
  lemma SquaresOfStraight(s: seq<real>, p: seq<real>, m: nat)
    requires Straight(s, p, m)
    ensures SumOfSquares(s) == Lines(p, m, |p| + 1)
  {
    hide SumOfSquares, Line, Squares, Between;
    assert |p| * m + m == (|p| + 1) * m;
    SquaresTo(s, p, m, |p|, m, |s|);
    WholeLine(Coeff(p, |p| - 1), Coeff(p, |p|) - Coeff(p, |p| - 1), m as real);
    assert s[..|s|] == s;
  }

  lemma ScalLines(m: nat)
    requires m >= 1
    ensures Lines(SCAL_WEIGHTS, m, 4) == (8.0 * m as real + 1.0 / m as real) / 6.0
  {
    var p, k := SCAL_WEIGHTS, m as real;
    assert Lines(p, m, 1) == Line(0.0, 0.5, k);
    assert Lines(p, m, 2) == Lines(p, m, 1) + Line(0.5, 0.5, k);
    assert Lines(p, m, 3) == Lines(p, m, 2) + Line(1.0, -0.5, k);
    assert Lines(p, m, 4) == Lines(p, m, 3) + Line(0.5, -0.5, k);
  }

  lemma WaveLines(m: nat)
    requires m >= 1
    ensures Lines(WAVE_WEIGHTS, m, 6) == (12.0 * m as real + 11.0 / m as real) / 32.0
  {
    var p, k := WAVE_WEIGHTS, m as real;
    assert Lines(p, m, 1) == Line(0.0, -0.125, k);
    assert Lines(p, m, 2) == Lines(p, m, 1) + Line(-0.125, -0.125, k);
    assert Lines(p, m, 3) == Lines(p, m, 2) + Line(-0.25, 1.0, k);
    assert Lines(p, m, 4) == Lines(p, m, 3) + Line(0.75, -1.0, k);
    assert Lines(p, m, 5) == Lines(p, m, 4) + Line(-0.25, 0.125, k);
    assert Lines(p, m, 6) == Lines(p, m, 5) + Line(-0.125, 0.125, k);
    assert 11.0 / k == 11.0 * (1.0 / k);
  }

  /** The squared norms at level `l`, with m for 2^l: (8m + 1/m) / 6 and (12m + 11/m) / 32. */
  lemma NormsAre(l: nat)
    ensures ScalNorm(l) == (8.0 * Pow2(l) as real + 1.0 / Pow2(l) as real) / 6.0
    ensures WaveNorm(l) == (12.0 * Pow2(l) as real + 11.0 / Pow2(l) as real) / 32.0
  {
    hide Scal, Wave, Straight, SumOfSquares, Lines, SCAL_WEIGHTS, WAVE_WEIGHTS;
    WeightLengths();
    ScalIsHat(l);
    WaveIsStraight(l);
    SquaresOfStraight(Scal(l), SCAL_WEIGHTS, Pow2(l));
    SquaresOfStraight(Wave(l), WAVE_WEIGHTS, Pow2(l));
    ScalLines(Pow2(l));
    WaveLines(Pow2(l));
  }
}
