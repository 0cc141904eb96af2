/** The filter cascade of the CDF 5/3 wavelet, over the reals: upsampling in place, convolution, and the
    polynomials their repetition builds up.

    A filter is the sequence of coefficients of a polynomial, lowest degree first. */
module Filters {

  // ---------------------------------------------------------------- polynomials

  function Eval(p: seq<real>, x: real): real {
    if p == [] then 0.0 else p[0] + x * Eval(p[1..], x)
  }

  /** The coefficient of degree `i`; 0 outside the sequence. */
  function Coeff(p: seq<real>, i: int): real {
    if 0 <= i < |p| then p[i] else 0.0
  }

  function Power(x: real, n: nat): real {
    if n == 0 then 1.0 else x * Power(x, n - 1)
  }

  // ---------------------------------------------------------------- upsampling

  /** A zero between any two coefficients. */
  function Upsampled(p: seq<real>): (r: seq<real>)
    requires |p| >= 1
    ensures |r| == 2 * |p| - 1
    ensures forall i :: 0 <= i < |r| ==> r[i] == if i % 2 == 0 then p[i / 2] else 0.0
  {
    seq(2 * |p| - 1, i requires 0 <= i < 2 * |p| - 1 => if i % 2 == 0 then p[i / 2] else 0.0)
  }

  /** Upsampling puts `x * x` for `x`. */
  lemma {:induction false} UpsampledIsSquare(p: seq<real>, x: real)
    requires |p| >= 1
    ensures Eval(Upsampled(p), x) == Eval(p, x * x)
    decreases |p|
  {
    var u := Upsampled(p);
    if |p| == 1 {
      assert u == [p[0]] && u[1..] == [] && p[1..] == [];
    } else {
      UpsampledIsSquare(p[1..], x);
      assert u[1..][1..] == u[2..] == Upsampled(p[1..]);
      assert u[1..][0] == 0.0;
      assert Eval(u[1..], x) == x * Eval(u[2..], x);
      SquareStep(x, Eval(u[2..], x));
    }
  }

  lemma SquareStep(x: real, e: real)
    ensures x * (x * e) == x * x * e
  {
  }

  /** Upsample with the output in the place of the input: from the end down, no coefficient is read after
      it has been overwritten. */
  method Upsample(buf: array<real>, n: nat)
    requires n >= 1 && 2 * n - 1 <= buf.Length
    modifies buf
    ensures buf[..2 * n - 1] == Upsampled(old(buf[..n]))
  {
    var m := 2 * n - 1;
    buf[m - 1] := buf[(m - 1) / 2];
    var i := m - 3;
    while i >= 0
      invariant -2 <= i <= m - 3 && i % 2 == 0
      invariant forall k :: 0 <= k < n && k < i + 2 ==> buf[k] == old(buf[k])
      invariant forall k :: i + 2 <= k < m ==> buf[k] == if k % 2 == 0 then old(buf[k / 2]) else 0.0
    {
      buf[i] := buf[i / 2];
      buf[i + 1] := 0.0;
      i := i - 2;
    }
  }

  // ---------------------------------------------------------------- convolution

  /** The first `j` terms of the coefficient of degree `i` in the product. */
  function Partial(f: seq<real>, g: seq<real>, i: int, j: nat): real
    requires j <= |f|
  {
    if j == 0 then 0.0 else Partial(f, g, i, j - 1) + f[j - 1] * Coeff(g, i - (j - 1))
  }

  function Convolved(f: seq<real>, g: seq<real>): (r: seq<real>)
    requires |f| >= 1 && |g| >= 1
    ensures |r| == |f| + |g| - 1
    ensures forall i :: 0 <= i < |r| ==> r[i] == Partial(f, g, i, |f|)
  {
    seq(|f| + |g| - 1, i => Partial(f, g, i, |f|))
  }

  lemma {:induction false} PartialZeroBelow(f: seq<real>, g: seq<real>, i: int, j: nat)
    requires j <= |f| && (j > 0 ==> j <= i - |g| + 1)
    ensures Partial(f, g, i, j) == 0.0
  {
    if j > 0 { PartialZeroBelow(f, g, i, j - 1); }
  }

  lemma {:induction false} PartialZeroAbove(f: seq<real>, g: seq<real>, i: int, j: nat, k: nat)
    requires j <= k <= |f| && (j < k ==> i < j)
    ensures Partial(f, g, i, k) == Partial(f, g, i, j)
  {
    if j < k { PartialZeroAbove(f, g, i, j, k - 1); }
  }

  /** Convolve: only the terms inside both filters are summed. */
  method Convolve(f: array<real>, n: nat, g: array<real>, m: nat) returns (h: array<real>)
    requires 1 <= n <= f.Length && 1 <= m <= g.Length
    ensures fresh(h) && h.Length == n + m - 1 && h[..] == Convolved(f[..n], g[..m])
    ensures n == f.Length && m == g.Length ==> h[..] == Convolved(f[..], g[..])
  {
    var p := n + m - 1;
    h := new real[p];
    ghost var a, b := f[..n], g[..m];
    for i := 0 to p
      invariant f[..n] == a && g[..m] == b
      invariant forall k :: 0 <= k < i ==> h[k] == Partial(a, b, k, n)
    {
      var acc := 0.0;
      var top := if n - 1 < i then n - 1 else i;
      var low := if 0 < i - m + 1 then i - m + 1 else 0;
      PartialZeroBelow(a, b, i, low);
      for j := low to top + 1
        invariant acc == Partial(a, b, i, j)
      {
        assert f[j] == a[j] && g[i - j] == b[i - j];
        acc := acc + f[j] * g[i - j];
      }
      PartialZeroAbove(a, b, i, top + 1, n);
      h[i] := acc;
    }
    assert f[..f.Length] == f[..] && g[..g.Length] == g[..];
  }

  /** The terms of degree below `n` of the product of `f` and `g`. */
  function ProductTo(f: seq<real>, g: seq<real>, n: nat, x: real): real {
    if n == 0 then 0.0 else ProductTo(f, g, n - 1, x) + Partial(f, g, n - 1, |f|) * Power(x, n - 1)
  }

  /** The terms of degree below `n` of `g`. */
  function EvalTo(g: seq<real>, n: nat, x: real): real {
    if n == 0 then 0.0 else EvalTo(g, n - 1, x) + Coeff(g, n - 1) * Power(x, n - 1)
  }

  lemma {:induction false} PartialPeels(f: seq<real>, g: seq<real>, i: int, j: nat)
    requires 1 <= j <= |f|
    ensures Partial(f, g, i, j) == f[0] * Coeff(g, i) + Partial(f[1..], g, i - 1, j - 1)
  {
    if j > 1 {
      PartialPeels(f, g, i, j - 1);
      assert f[1..][j - 2] == f[j - 1];
    }
  }

  lemma ProductNext(f: seq<real>, g: seq<real>, n: nat, x: real)
    requires n >= 1
    ensures ProductTo(f, g, n, x) == ProductTo(f, g, n - 1, x) + Partial(f, g, n - 1, |f|) * Power(x, n - 1)
    ensures EvalTo(g, n, x) == EvalTo(g, n - 1, x) + Coeff(g, n - 1) * Power(x, n - 1)
    ensures n >= 2 ==> Power(x, n - 1) == x * Power(x, n - 2)
  {
  }

  lemma StepSum(p: real, a: real, e: real, x: real, r: real, c: real, cc: real, q: real, pw: real, pw2: real)
    requires p == a * e + x * r && c == a * cc + q && pw == x * pw2
    ensures p + c * pw == a * (e + cc * pw) + x * (r + q * pw2)
  {
    assert c * pw == a * cc * pw + q * pw;
    assert q * pw == x * (q * pw2);
    assert a * (e + cc * pw) == a * e + a * cc * pw;
    assert x * (r + q * pw2) == x * r + x * (q * pw2);
  }

  lemma {:induction false} ProductPeels(f: seq<real>, g: seq<real>, n: nat, x: real)
    requires |f| >= 1 && n >= 1
    ensures ProductTo(f, g, n, x) == f[0] * EvalTo(g, n, x) + x * ProductTo(f[1..], g, n - 1, x)
  {
    hide ProductTo, EvalTo, Partial, Power, Coeff;
    PartialPeels(f, g, n - 1, |f|);
    ProductNext(f, g, n, x);
    if n == 1 {
      ProductFirst(f, g, x);
    } else {
      ProductPeels(f, g, n - 1, x);
      ProductNext(f[1..], g, n - 1, x);
      StepSum(ProductTo(f, g, n - 1, x), f[0], EvalTo(g, n - 1, x), x, ProductTo(f[1..], g, n - 2, x),
              Partial(f, g, n - 1, |f|), Coeff(g, n - 1), Partial(f[1..], g, n - 2, |f| - 1), Power(x, n - 1), Power(x, n - 2));
    }
  }

  lemma ProductFirst(f: seq<real>, g: seq<real>, x: real)
    requires |f| >= 1
    ensures ProductTo(f, g, 1, x) == f[0] * EvalTo(g, 1, x) + x * ProductTo(f[1..], g, 0, x)
  {
    PartialPeels(f, g, 0, |f|);
    PartialZeroAbove(f[1..], g, -1, 0, |f| - 1);
    assert Power(x, 0) == 1.0;
  }

  /** Summing by degree is evaluating. */
  lemma {:induction false} EvalToIsEval(g: seq<real>, n: nat, x: real)
    requires n >= |g|
    ensures EvalTo(g, n, x) == Eval(g, x)
    decreases |g|, n
  {
    if g == [] {
      if n > 0 { EvalToIsEval(g, n - 1, x); }
    } else {
      EvalToPeels(g, n, x);
      EvalToIsEval(g[1..], n - 1, x);
    }
  }

  lemma PeelDistributes(a: real, x: real, e: real, c: real, pw: real)
    ensures a + x * e + c * (x * pw) == a + x * (e + c * pw)
  {
  }

  lemma {:induction false} EvalToPeels(g: seq<real>, n: nat, x: real)
    requires |g| >= 1 && n >= 1
    ensures EvalTo(g, n, x) == g[0] + x * EvalTo(g[1..], n - 1, x)
  {
    if n > 1 {
      EvalToPeels(g, n - 1, x);
      assert Coeff(g, n - 1) == Coeff(g[1..], n - 2);
      PeelDistributes(g[0], x, EvalTo(g[1..], n - 2, x), Coeff(g, n - 1), Power(x, n - 2));
    }
  }

  lemma FactorOut(a: real, x: real, e: real, g: real)
    ensures a * g + x * (e * g) == (a + x * e) * g
  {
  }

  lemma EvalNext(p: seq<real>, x: real)
    requires |p| >= 1
    ensures Eval(p, x) == p[0] + x * Eval(p[1..], x)
  {
  }

  lemma {:induction false} ProductIsProduct(f: seq<real>, g: seq<real>, n: nat, x: real)
    requires |g| >= 1 && n + 1 >= |f| + |g|
    ensures ProductTo(f, g, n, x) == Eval(f, x) * Eval(g, x)
    decreases |f|, n
  {
    hide ProductTo, EvalTo, Eval;
    if f == [] {
      ProductIsZero(f, g, n, x);
      EvalEmpty(x);
    } else {
      ProductPeels(f, g, n, x);
      EvalToIsEval(g, n, x);
      ProductIsProduct(f[1..], g, n - 1, x);
      EvalNext(f, x);
      FactorOut(f[0], x, Eval(f[1..], x), Eval(g, x));
    }
  }

  lemma EvalEmpty(x: real)
    ensures Eval([], x) == 0.0
  {
  }

  lemma {:induction false} ProductIsZero(f: seq<real>, g: seq<real>, n: nat, x: real)
    requires f == []
    ensures ProductTo(f, g, n, x) == 0.0
  {
    if n > 0 { ProductIsZero(f, g, n - 1, x); }
  }

  lemma {:induction false} ConvolvedTo(f: seq<real>, g: seq<real>, n: nat, x: real)
    requires |f| >= 1 && |g| >= 1 && n <= |f| + |g| - 1
    ensures EvalTo(Convolved(f, g), n, x) == ProductTo(f, g, n, x)
  {
    if n > 0 { ConvolvedTo(f, g, n - 1, x); }
  }

  /** Convolution is the product of polynomials. */
  lemma ConvolvedIsProduct(f: seq<real>, g: seq<real>, x: real)
    requires |f| >= 1 && |g| >= 1
    ensures Eval(Convolved(f, g), x) == Eval(f, x) * Eval(g, x)
  {
    var n := |f| + |g| - 1;
    EvalToIsEval(Convolved(f, g), n, x);
    ConvolvedTo(f, g, n, x);
    ProductIsProduct(f, g, n, x);
  }

  // ---------------------------------------------------------------- the cascade

  const SCAL_WEIGHTS: seq<real> := [0.5, 1.0, 0.5]
  const WAVE_WEIGHTS: seq<real> := [-0.125, -0.25, 0.75, -0.25, -0.125]

  function Pow2(n: nat): (r: nat)
    ensures r >= 1
  {
    if n == 0 then 1 else 2 * Pow2(n - 1)
  }

  /** Upsampled `k` times. */
  function Up(p: seq<real>, k: nat): (r: seq<real>)
    requires |p| >= 1
    ensures |r| >= 1
  {
    if k == 0 then p else Upsampled(Up(p, k - 1))
  }

  /** The scaling function at a level: `ScalFunc` when the loop comes to `l`. */
  function Scal(l: nat): (r: seq<real>)
    ensures |r| >= 1
  {
    if l == 0 then SCAL_WEIGHTS else Convolved(Up(SCAL_WEIGHTS, l), Scal(l - 1))
  }

  /** The wavelet function at a level. */
  function Wave(l: nat): (r: seq<real>)
    ensures |r| >= 1
  {
    if l == 0 then WAVE_WEIGHTS else Convolved(Up(WAVE_WEIGHTS, l), Scal(l - 1))
  }

  lemma {:induction false} UpLength(p: seq<real>, k: nat)
    requires |p| >= 1
    ensures |Up(p, k)| == (|p| - 1) * Pow2(k) + 1
  {
    if k > 0 {
      UpLength(p, k - 1);
      assert 2 * ((|p| - 1) * Pow2(k - 1)) == (|p| - 1) * Pow2(k);
    }
  }

  lemma {:induction false} PowerOfSquare(x: real, n: nat)
    ensures Power(x * x, n) == Power(x, 2 * n)
  {
    if n > 0 {
      PowerOfSquare(x, n - 1);
      assert Power(x, 2 * n) == x * Power(x, 2 * n - 1) == x * (x * Power(x, 2 * n - 2));
      SquareStep(x, Power(x, 2 * n - 2));
    }
  }

  /** Upsampling `k` times puts the power of 2^k for `x`. */
  lemma {:induction false} UpIsPower(p: seq<real>, k: nat, x: real)
    requires |p| >= 1
    ensures Eval(Up(p, k), x) == Eval(p, Power(x, Pow2(k)))
  {
    if k == 0 {
      assert Power(x, 1) == x * Power(x, 0) == x;
    } else {
      UpsampledIsSquare(Up(p, k - 1), x);
      UpIsPower(p, k - 1, x * x);
      PowerOfSquare(x, Pow2(k - 1));
    }
  }

  /** The product of w(x^(2^i)) for `i` below `n`. */
  function ScalProduct(n: nat, x: real): real {
    if n == 0 then 1.0 else Eval(SCAL_WEIGHTS, Power(x, Pow2(n - 1))) * ScalProduct(n - 1, x)
  }

  /** The scaling function of level `l` is the product of w(x^(2^i)) for i = 0..l, of length 2^(l+2) - 1. */
  lemma {:induction false} ScalIsProduct(l: nat, x: real)
    ensures Eval(Scal(l), x) == ScalProduct(l + 1, x)
    ensures |Scal(l)| == Pow2(l + 2) - 1
  {
    hide Eval, Power, Up, Convolved, SCAL_WEIGHTS;
    if l == 0 {
      FirstScal(x);
    } else {
      ScalIsProduct(l - 1, x);
      WeightLengths();
      UpIsPower(SCAL_WEIGHTS, l, x);
      UpLength(SCAL_WEIGHTS, l);
      ConvolvedIsProduct(Up(SCAL_WEIGHTS, l), Scal(l - 1), x);
    }
  }

  lemma WeightLengths()
    ensures |SCAL_WEIGHTS| == 3 && |WAVE_WEIGHTS| == 5
  {
  }

  lemma FirstScal(x: real)
    ensures Scal(0) == SCAL_WEIGHTS && Wave(0) == WAVE_WEIGHTS && Pow2(0) == 1 && Pow2(2) == 4
    ensures Power(x, Pow2(0)) == x && ScalProduct(1, x) == Eval(SCAL_WEIGHTS, x) && ScalProduct(0, x) == 1.0
    ensures |SCAL_WEIGHTS| == 3 && |WAVE_WEIGHTS| == 5
  {
    assert Power(x, 1) == x * Power(x, 0) == x;
  }

  /** The wavelet function of level `l` is g(x^(2^l)) times that product for i < l. */
  lemma WaveIsProduct(l: nat, x: real)
    ensures Eval(Wave(l), x) == Eval(WAVE_WEIGHTS, Power(x, Pow2(l))) * ScalProduct(l, x)
  {
    hide Eval, Power, Up, Convolved, ScalProduct, Scal, SCAL_WEIGHTS, WAVE_WEIGHTS, Pow2;
    FirstScal(x);
    if l > 0 {
      ScalIsProduct(l - 1, x);
      UpIsPower(WAVE_WEIGHTS, l, x);
      ConvolvedIsProduct(Up(WAVE_WEIGHTS, l), Scal(l - 1), x);
    }
  }

  lemma WaveLength(l: nat)
    ensures |Wave(l)| == 6 * Pow2(l) - 1
  {
    hide Eval, Up, Scal, SCAL_WEIGHTS, WAVE_WEIGHTS;
    WeightLengths();
    if l > 0 {
      ScalIsProduct(l - 1, 0.0);
      UpLength(WAVE_WEIGHTS, l);
    }
  }

  /** The sum of squares, from the first coefficient on. */
  function SumOfSquares(p: seq<real>): real {
    if p == [] then 0.0 else SumOfSquares(p[..|p| - 1]) + p[|p| - 1] * p[|p| - 1]
  }

  /** Norm, short of the square root. */
  method SquaredNorm(a: array<real>) returns (r: real)
    ensures r == SumOfSquares(a[..])
  {
    r := 0.0;
    assert a[..0] == [];
    for i := 0 to a.Length
      invariant r == SumOfSquares(a[..i])
    {
      assert a[..i + 1][..i] == a[..i];
      r := r + a[i] * a[i];
    }
    assert a[..a.Length] == a[..];
  }

  /** Make room behind the coefficients, then upsample where they are. */
  method ResizeAndUpsample(a: array<real>) returns (b: array<real>)
    requires a.Length >= 1
    ensures fresh(b) && b[..] == Upsampled(a[..])
  {
    b := new real[2 * a.Length - 1];
    forall i | 0 <= i < a.Length { b[i] := a[i]; }
    assert b[..a.Length] == a[..];
    Upsample(b, a.Length);
    assert b[..2 * a.Length - 1] == b[..];
  }

  function ScalNorm(l: nat): real { SumOfSquares(Scal(l)) }

  function WaveNorm(l: nat): real { SumOfSquares(Wave(l)) }

  /** GetCdf53Norms: the squared norms of scaling and wavelet function at levels 0 to `nLevels`. */
  method GetCdf53Norms(nLevels: nat) returns (scalNorms: array<real>, waveNorms: array<real>)
    ensures scalNorms.Length == waveNorms.Length == nLevels + 1
    ensures forall l :: 0 <= l <= nLevels ==> scalNorms[l] == ScalNorm(l) && waveNorms[l] == WaveNorm(l)
  {
    hide AtLevel, ScalNorm, WaveNorm;
    var scalWeights, waveWeights, scalFunc, waveFunc := FirstLevel();
    scalNorms, waveNorms := new real[nLevels + 1], new real[nLevels + 1];
    for l := 0 to nLevels + 1
      invariant AtLevel(scalWeights, waveWeights, scalFunc, waveFunc, l)
      invariant forall k :: 0 <= k < l ==> scalNorms[k] == ScalNorm(k) && waveNorms[k] == WaveNorm(k)
      invariant {scalWeights, waveWeights, scalFunc, waveFunc} !! {scalNorms, waveNorms}
      modifies scalNorms, waveNorms
    {
      var scalNorm, waveNorm := LevelNorms(scalWeights, waveWeights, scalFunc, waveFunc, l);
      scalNorms[l] := scalNorm;
      waveNorms[l] := waveNorm;
      scalWeights, waveWeights, scalFunc, waveFunc := NextLevel(scalWeights, waveWeights, scalFunc, waveFunc, l);
    }
  }

  method LevelNorms(scalWeights: array<real>, waveWeights: array<real>, scalFunc: array<real>, waveFunc: array<real>,
                    ghost l: nat)
    returns (scalNorm: real, waveNorm: real)
    requires AtLevel(scalWeights, waveWeights, scalFunc, waveFunc, l)
    ensures scalNorm == ScalNorm(l) && waveNorm == WaveNorm(l)
  {
    hide SumOfSquares, Scal, Wave, Up;
    scalNorm := SquaredNorm(scalFunc);
    waveNorm := SquaredNorm(waveFunc);
  }

  /** The four arrays when the loop comes to level `l`. */
  ghost predicate AtLevel(scalWeights: array<real>, waveWeights: array<real>, scalFunc: array<real>,
                          waveFunc: array<real>, l: nat)
    reads scalWeights, waveWeights, scalFunc, waveFunc
  {
    && |SCAL_WEIGHTS| >= 1 && |WAVE_WEIGHTS| >= 1
    && scalWeights[..] == Up(SCAL_WEIGHTS, l) && waveWeights[..] == Up(WAVE_WEIGHTS, l)
    && scalFunc[..] == Scal(l) && waveFunc[..] == Wave(l)
  }

  method FirstLevel()
    returns (scalWeights: array<real>, waveWeights: array<real>, scalFunc: array<real>, waveFunc: array<real>)
    ensures fresh(scalWeights) && fresh(waveWeights) && fresh(scalFunc) && fresh(waveFunc)
    ensures AtLevel(scalWeights, waveWeights, scalFunc, waveFunc, 0)
  {
    hide SCAL_WEIGHTS, WAVE_WEIGHTS, Up, Scal, Wave;
    CascadeStart();
    scalWeights := Cloned(SCAL_WEIGHTS);
    scalFunc := Cloned(SCAL_WEIGHTS);
    waveWeights := Cloned(WAVE_WEIGHTS);
    waveFunc := Cloned(WAVE_WEIGHTS);
  }

  method NextLevel(scalWeights0: array<real>, waveWeights0: array<real>, scalFunc0: array<real>,
                   waveFunc0: array<real>, ghost l: nat)
    returns (scalWeights: array<real>, waveWeights: array<real>, scalFunc: array<real>, waveFunc: array<real>)
    requires AtLevel(scalWeights0, waveWeights0, scalFunc0, waveFunc0, l)
    ensures fresh(scalWeights) && fresh(waveWeights) && fresh(scalFunc) && fresh(waveFunc)
    ensures AtLevel(scalWeights, waveWeights, scalFunc, waveFunc, l + 1)
  {
    hide Upsampled, Convolved, SCAL_WEIGHTS, WAVE_WEIGHTS, Up, Scal, Wave;
    CascadeNext(l);
    waveWeights := ResizeAndUpsample(waveWeights0);
    waveFunc := Convolve(waveWeights, waveWeights.Length, scalFunc0, scalFunc0.Length);
    scalWeights := ResizeAndUpsample(scalWeights0);
    scalFunc := Convolve(scalWeights, scalWeights.Length, scalFunc0, scalFunc0.Length);
  }

  method Cloned(s: seq<real>) returns (a: array<real>)
    ensures fresh(a) && a[..] == s
  {
    a := new real[|s|](i requires 0 <= i < |s| => s[i]);
  }

  lemma CascadeStart()
    ensures |SCAL_WEIGHTS| >= 1 && |WAVE_WEIGHTS| >= 1
    ensures Up(SCAL_WEIGHTS, 0) == Scal(0) == SCAL_WEIGHTS && Up(WAVE_WEIGHTS, 0) == Wave(0) == WAVE_WEIGHTS
  {
  }

  lemma CascadeNext(l: nat)
    ensures |SCAL_WEIGHTS| >= 1 && |WAVE_WEIGHTS| >= 1
    ensures Up(SCAL_WEIGHTS, l + 1) == Upsampled(Up(SCAL_WEIGHTS, l)) && Up(WAVE_WEIGHTS, l + 1) == Upsampled(Up(WAVE_WEIGHTS, l))
    ensures Scal(l + 1) == Convolved(Up(SCAL_WEIGHTS, l + 1), Scal(l))
    ensures Wave(l + 1) == Convolved(Up(WAVE_WEIGHTS, l + 1), Scal(l))
  {
    hide Upsampled, Convolved, SCAL_WEIGHTS, WAVE_WEIGHTS;
    WeightLengths();
  }
}
