/** Integer polynomials (core/polynomial.py): coefficient lists, constant
    term first, over the truncating Matter. Every operation is related to
    evaluation: `Val` (ordinary) and `HVal` (homogeneous, so that values at
    rational points n/d stay integer). */
module Polynomials {
  import opened Wrappers
  import opened Science

  function Pow(x: int, k: nat): int
    decreases k
  {
    if k == 0 then 1 else x * Pow(x, k - 1)
  }

  /** Σ p[i]·x^i. */
  function Val(p: seq<int>, x: int): int
    decreases |p|
  {
    if |p| == 0 then 0 else p[0] + x * Val(p[1..], x)
  }

  /** Σ p[i]·n^i·d^(|p|-1-i): the value at n/d scaled by d^(|p|-1). */
  function HVal(p: seq<int>, n: int, d: int): int
    decreases |p|
  {
    if |p| == 0 then 0 else p[0] * Pow(d, |p| - 1) + n * HVal(p[1..], n, d)
  }

  function Zeros(k: nat): (z: seq<int>)
    ensures |z| == k
  {
    seq(k, i => 0)
  }

  // ------------------------------------------------------------ evaluation

  lemma {:induction false} ValAppend(a: seq<int>, b: seq<int>, x: int)
    ensures Val(a + b, x) == Val(a, x) + Pow(x, |a|) * Val(b, x)
    decreases |a|
  {
    if |a| > 0 {
      assert (a + b)[1..] == a[1..] + b && (a + b)[0] == a[0];
      ValAppend(a[1..], b, x);
      AppendStep(Val(a + b, x), Val(a[1..] + b, x), Val(a, x), Val(a[1..], x), a[0], x,
        Pow(x, |a| - 1), Val(b, x));
    } else {
      assert a + b == b;
    }
  }

  /** The algebra of one Horner step over a concatenation. */
  lemma AppendStep(vab: int, tab: int, va: int, ta: int, a0: int, x: int, pw: int, vb: int)
    requires vab == a0 + x * tab && va == a0 + x * ta && tab == ta + pw * vb
    ensures vab == va + (x * pw) * vb
  {
    assert x * tab == x * ta + x * (pw * vb);
  }

  lemma {:induction false} ValZeros(k: nat, x: int)
    ensures Val(Zeros(k), x) == 0
    decreases k
  {
    if k > 0 {
      assert Zeros(k)[1..] == Zeros(k - 1);
      ValZeros(k - 1, x);
    }
  }

  lemma {:induction false} HValOne(p: seq<int>, x: int)
    ensures HVal(p, x, 1) == Val(p, x)
    decreases |p|
  {
    if |p| > 0 {
      PowOne(|p| - 1);
      HValOne(p[1..], x);
    }
  }

  lemma {:induction false} PowOne(k: nat)
    ensures Pow(1, k) == 1
    decreases k
  {
    if k > 0 { PowOne(k - 1); }
  }

  /** Appending c as the new top coefficient. */
  lemma {:induction false} HValSnoc(a: seq<int>, c: int, n: int, d: int)
    ensures HVal(a + [c], n, d) == d * HVal(a, n, d) + c * Pow(n, |a|)
    decreases |a|
  {
    if |a| == 0 {
      assert a + [c] == [c];
    } else {
      assert (a + [c])[1..] == a[1..] + [c];
      HValSnoc(a[1..], c, n, d);
      assert a[0] * Pow(d, |a|) == d * (a[0] * Pow(d, |a| - 1));
      assert n * (d * HVal(a[1..], n, d) + c * Pow(n, |a| - 1))
          == d * (n * HVal(a[1..], n, d)) + c * Pow(n, |a|);
    }
  }

  // --------------------------------------------------------- normalisation

  predicate Stripped(p: seq<int>)
  {
    |p| <= 1 || p[|p| - 1] != 0
  }

  /** `__post_init__`: drop vacuum top coefficients, keeping at least one. */
  function Normalize(p: seq<int>): (r: seq<int>)
    ensures Stripped(r) && |r| <= |p|
    ensures |p| >= 1 ==> |r| >= 1
    decreases |p|
  {
    if |p| > 1 && p[|p| - 1] == 0 then Normalize(p[..|p| - 1]) else p
  }

  /** Normalising only drops vacuum coefficients from the top. */
  lemma {:induction false} NormalizeDrops(p: seq<int>)
    ensures Normalize(p) <= p
    ensures forall i :: |Normalize(p)| <= i < |p| ==> p[i] == 0
    decreases |p|
  {
    if |p| > 1 && p[|p| - 1] == 0 {
      NormalizeDrops(p[..|p| - 1]);
    }
  }

  /** The division loop's pop: drop vacuum top coefficients, possibly all. */
  function StripAll(p: seq<int>): (r: seq<int>)
    ensures (|r| == 0 || r[|r| - 1] != 0) && r <= p
    ensures forall i :: |r| <= i < |p| ==> p[i] == 0
    decreases |p|
  {
    if |p| > 0 && p[|p| - 1] == 0 then StripAll(p[..|p| - 1]) else p
  }

  lemma ZeroTail(p: seq<int>, r: seq<int>, x: int)
    requires r <= p
    requires forall i :: |r| <= i < |p| ==> p[i] == 0
    ensures Val(p, x) == Val(r, x)
  {
    assert p == r + p[|r|..];
    assert p[|r|..] == Zeros(|p| - |r|);
    ValAppend(r, p[|r|..], x);
    ValZeros(|p| - |r|, x);
  }

  lemma NormalizeValue(p: seq<int>, x: int)
    ensures Val(Normalize(p), x) == Val(p, x)
    ensures Val(StripAll(p), x) == Val(p, x)
  {
    NormalizeDrops(p);
    ZeroTail(p, Normalize(p), x);
    ZeroTail(p, StripAll(p), x);
  }

  lemma {:induction false} HValZeroTail(r: seq<int>, k: nat, n: int, d: int)
    ensures HVal(r + Zeros(k), n, d) == HVal(r, n, d) * Pow(d, k)
    decreases k
  {
    if k > 0 {
      assert r + Zeros(k) == (r + Zeros(k - 1)) + [0];
      HValSnoc(r + Zeros(k - 1), 0, n, d);
      HValZeroTail(r, k - 1, n, d);
      assert d * (HVal(r, n, d) * Pow(d, k - 1)) == HVal(r, n, d) * Pow(d, k);
    } else {
      assert r + Zeros(0) == r;
    }
  }

  /** Normalising divides the homogeneous value by d once per vacuum
      coefficient dropped. */
  lemma NormalizeHValue(p: seq<int>, n: int, d: int)
    ensures HVal(Normalize(p), n, d) * Pow(d, |p| - |Normalize(p)|) == HVal(p, n, d)
  {
    var r := Normalize(p);
    NormalizeDrops(p);
    assert p == r + Zeros(|p| - |r|);
    HValZeroTail(r, |p| - |r|, n, d);
  }

  // -------------------------------------------------------------- protocol

  /** `mass`: the sum of the coefficient masses. */
  function Mass(p: seq<int>): (m: nat)
    ensures m == 0 <==> forall i :: 0 <= i < |p| ==> p[i] == 0
    decreases |p|
  {
    if |p| == 0 then 0
    else
      var m := Abs(p[0]) + Mass(p[1..]);
      assert forall i :: 1 <= i < |p| ==> p[i] == p[1..][i - 1];
      m
  }

  /** `is_vacuum`: mass zero. */
  predicate IsVacuum(p: seq<int>)
  {
    Mass(p) == 0
  }

  /** `evaluate`: Horner's rule from the top coefficient down; a polynomial
      without coefficients has no top coefficient (IndexError). */
  method Evaluate(p: seq<int>, x: int) returns (r: Result<int>)
    ensures r.Failure? <==> |p| == 0
    ensures r.Failure? ==> r.error == IndexOutOfRange
    ensures r.Success? ==> r.value == Val(p, x)
  {
    if |p| == 0 {
      return Failure(IndexOutOfRange);
    }
    var i := |p| - 1;
    var acc := p[i];
    assert p[i..][1..] == [];
    while i > 0
      invariant 0 <= i < |p|
      invariant acc == Val(p[i..], x)
      decreases i
    {
      i := i - 1;
      assert p[i..][1..] == p[i + 1..];
      acc := acc * x + p[i];
    }
    assert p[0..] == p;
    return Success(acc);
  }

  // ------------------------------------------------------------ ring moves

  /** Coefficientwise sum, the shorter operand padded with vacuum. */
  function PadAdd(a: seq<int>, b: seq<int>): (r: seq<int>)
    ensures |r| == if |a| >= |b| then |a| else |b|
    decreases |a| + |b|
  {
    if |a| == 0 then b
    else if |b| == 0 then a
    else
      var t := PadAdd(a[1..], b[1..]);
      [a[0] + b[0]] + t
  }

  lemma {:induction false} PadAddCoefficients(a: seq<int>, b: seq<int>)
    ensures var r := PadAdd(a, b);
      forall i :: 0 <= i < |r| ==> r[i] == (if i < |a| then a[i] else 0) + (if i < |b| then b[i] else 0)
    decreases |a| + |b|
  {
    if |a| > 0 && |b| > 0 {
      PadAddCoefficients(a[1..], b[1..]);
      var r := PadAdd(a, b);
      assert forall i :: 1 <= i < |r| ==> r[i] == PadAdd(a[1..], b[1..])[i - 1];
    }
  }

  lemma {:induction false} PadAddValue(a: seq<int>, b: seq<int>, x: int)
    ensures Val(PadAdd(a, b), x) == Val(a, x) + Val(b, x)
    decreases |a| + |b|
  {
    if |a| > 0 && |b| > 0 {
      var r := PadAdd(a, b);
      PadAddValue(a[1..], b[1..], x);
      assert r[1..] == PadAdd(a[1..], b[1..]) && r[0] == a[0] + b[0];
      HornerLinear(a[0], b[0], x, Val(a[1..], x), Val(b[1..], x), 1);
    }
  }

  /** One Horner step commutes with a linear combination a + s·b. */
  lemma HornerLinear(a0: int, b0: int, x: int, va: int, vb: int, sg: int)
    ensures (a0 + sg * b0) + x * (va + sg * vb) == (a0 + x * va) + sg * (b0 + x * vb)
  {
  }

  /** `+`: the left operand supplies the backend sample, so a left operand
      without coefficients raises IndexError. */
  function Add(a: seq<int>, b: seq<int>): (r: Result<seq<int>>)
    ensures r.Failure? <==> |a| == 0
    ensures r.Failure? ==> r.error == IndexOutOfRange
    ensures r.Success? ==> Stripped(r.value)
  {
    if |a| == 0 then Failure(IndexOutOfRange) else Success(Normalize(PadAdd(a, b)))
  }

  lemma AddValue(a: seq<int>, b: seq<int>, x: int)
    requires |a| > 0
    ensures Val(Add(a, b).value, x) == Val(a, x) + Val(b, x)
  {
    NormalizeValue(PadAdd(a, b), x);
    PadAddValue(a, b, x);
  }

  function ScaleBy(c: int, p: seq<int>): (r: seq<int>)
    ensures |r| == |p|
  {
    seq(|p|, i requires 0 <= i < |p| => c * p[i])
  }

  lemma {:induction false} ScaleValue(c: int, p: seq<int>, x: int)
    ensures Val(ScaleBy(c, p), x) == c * Val(p, x)
    decreases |p|
  {
    if |p| > 0 {
      assert ScaleBy(c, p)[1..] == ScaleBy(c, p[1..]);
      ScaleValue(c, p[1..], x);
    }
  }

  /** The convolution Σ_{i+j=k} a[i]·b[j], row by row of the left operand. */
  function Conv(a: seq<int>, b: seq<int>): (r: seq<int>)
    requires |a| > 0 && |b| > 0
    ensures |r| == |a| + |b| - 1
    decreases |a|
  {
    if |a| == 1 then ScaleBy(a[0], b)
    else PadAdd(ScaleBy(a[0], b), [0] + Conv(a[1..], b))
  }

  lemma {:induction false} ConvValue(a: seq<int>, b: seq<int>, x: int)
    requires |a| > 0 && |b| > 0
    ensures Val(Conv(a, b), x) == Val(a, x) * Val(b, x)
    decreases |a|
  {
    var head := ScaleBy(a[0], b);
    ScaleValue(a[0], b, x);
    if |a| == 1 {
      assert a[1..] == [];
    } else {
      var rest := Conv(a[1..], b);
      ConvValue(a[1..], b, x);
      var c := [0] + rest;
      assert c[1..] == rest;
      PadAddValue(head, c, x);
      assert Conv(a, b) == PadAdd(head, c);
      RowStep(a[0], x, Val(a[1..], x), Val(b, x));
    }
  }

  /** (a0 + x·va)·vb == a0·vb + x·(va·vb). */
  lemma RowStep(a0: int, x: int, va: int, vb: int)
    ensures (a0 + x * va) * vb == a0 * vb + x * (va * vb)
  {
  }

  /** `*`: vacuum (no coefficients) if either operand has none, else the
      normalised convolution. */
  function Mul(a: seq<int>, b: seq<int>): (r: seq<int>)
    ensures |r| == 0 <==> |a| == 0 || |b| == 0
    ensures Stripped(r)
  {
    if |a| == 0 || |b| == 0 then [] else Normalize(Conv(a, b))
  }

  lemma MulValue(a: seq<int>, b: seq<int>, x: int)
    ensures Val(Mul(a, b), x) == Val(a, x) * Val(b, x)
  {
    if |a| > 0 && |b| > 0 {
      NormalizeValue(Conv(a, b), x);
      ConvValue(a, b, x);
    }
  }

  lemma RingExamples()
    ensures Add([1, 1], [-1, 1]) == Success([0, 2])
    ensures Mul([1, 1], [-1, 1]) == [-1, 0, 1]
    ensures Mul([1, 1], [1, 1]) == [1, 2, 1]
    ensures Mul([], [1, 1]) == [] && Mul([1, 1], []) == []
    ensures Val([1, -2, 1], 3) == 4 && Val([1, -2, 1], 0) == 1
    ensures Val([1, -2, 1], 1) == 0 && Val([1, -2, 1], -2) == 9
  {
    assert PadAdd([1, 1], [-1, 1]) == [0, 2];
    assert ScaleBy(1, [-1, 1]) == [-1, 1];
    assert PadAdd([-1, 1], [0, -1, 1]) == [-1, 0, 1];
    assert Conv([1, 1], [-1, 1]) == [-1, 0, 1];
    assert ScaleBy(1, [1, 1]) == [1, 1];
    assert PadAdd([1, 1], [0, 1, 1]) == [1, 2, 1];
    assert Conv([1, 1], [1, 1]) == [1, 2, 1];
  }

  // -------------------------------------------------------------- division

  /** Coefficientwise difference of two lists of one length. */
  function Minus(a: seq<int>, b: seq<int>): (r: seq<int>)
    requires |a| == |b|
    ensures |r| == |a|
  {
    seq(|a|, j requires 0 <= j < |a| => a[j] - b[j])
  }

  /** Subtract factor·x^shift·divisor coefficientwise (shift + |divisor|
      is the length of the running remainder). */
  function SubShifted(rem: seq<int>, divisor: seq<int>, factor: int, shift: nat): (r: seq<int>)
    requires |divisor| >= 1 && shift + |divisor| == |rem|
    ensures |r| == |rem|
    ensures r[|rem| - 1] == rem[|rem| - 1] - divisor[|divisor| - 1] * factor
  {
    var b := Zeros(shift) + ScaleBy(factor, divisor);
    assert b[|rem| - 1] == ScaleBy(factor, divisor)[|divisor| - 1];
    Minus(rem, b)
  }

  lemma {:induction false} MinusValue(a: seq<int>, b: seq<int>, x: int)
    requires |a| == |b|
    ensures Val(Minus(a, b), x) == Val(a, x) - Val(b, x)
    decreases |a|
  {
    if |a| > 0 {
      var m := Minus(a, b);
      MinusValue(a[1..], b[1..], x);
      assert m[1..] == Minus(a[1..], b[1..]) && m[0] == a[0] - b[0];
      HornerLinear(a[0], b[0], x, Val(a[1..], x), Val(b[1..], x), -1);
    }
  }

  lemma SubShiftedValue(rem: seq<int>, divisor: seq<int>, factor: int, shift: nat, x: int)
    requires |divisor| >= 1 && shift + |divisor| == |rem|
    ensures Val(SubShifted(rem, divisor, factor, shift), x)
            == Val(rem, x) - factor * Pow(x, shift) * Val(divisor, x)
  {
    var z := Zeros(shift);
    var sc := ScaleBy(factor, divisor);
    var b := z + sc;
    assert SubShifted(rem, divisor, factor, shift) == Minus(rem, b);
    MinusValue(rem, b, x);
    ValAppend(z, sc, x);
    ValZeros(shift, x);
    ScaleValue(factor, divisor, x);
    Rearrange(Pow(x, shift), factor, Val(divisor, x));
  }

  lemma Rearrange(pw: int, f: int, v: int)
    ensures pw * (f * v) == f * pw * v
  {
  }

  lemma {:induction false} BumpValue(q: seq<int>, i: nat, c: int, x: int)
    requires i < |q|
    ensures Val(q[i := q[i] + c], x) == Val(q, x) + c * Pow(x, i)
    decreases i
  {
    var q' := q[i := q[i] + c];
    if i > 0 {
      assert q'[1..] == q[1..][i - 1 := q[1..][i - 1] + c] && q'[0] == q[0];
      BumpValue(q[1..], i - 1, c, x);
      BumpStep(Val(q', x), Val(q'[1..], x), Val(q, x), Val(q[1..], x), q[0], x, c, Pow(x, i - 1));
    } else {
      assert q'[1..] == q[1..];
    }
  }

  /** The algebra of bumping a coefficient above the constant one. */
  lemma BumpStep(v': int, t': int, v: int, t: int, q0: int, x: int, c: int, pw: int)
    requires v' == q0 + x * t' && v == q0 + x * t && t' == t + c * pw
    ensures v' == v + c * (x * pw)
  {
    assert x * t' == x * t + x * (c * pw);
  }

  function TopMass(p: seq<int>): nat
  {
    if |p| == 0 then 0 else Abs(p[|p| - 1])
  }

  /** The long-division loop: while the remainder is as long as the
      divisor, take the truncated quotient of the leading coefficients;
      stop when it is vacuum, else record it, subtract and pop vacuum tops. */
  function LongDiv(rem: seq<int>, divisor: seq<int>, q: seq<int>): (res: (seq<int>, seq<int>))
    requires |divisor| >= 1 && divisor[|divisor| - 1] != 0
    requires |rem| <= |q|
    ensures |res.0| == |q|
    decreases |rem|, TopMass(rem)
  {
    var lead := divisor[|divisor| - 1];
    if |rem| < |divisor| then (q, rem)
    else
      var f := TruncDiv(rem[|rem| - 1], lead);
      if f == 0 then (q, rem)
      else
        var shift := |rem| - |divisor|;
        var rem' := StripAll(SubShifted(rem, divisor, f, shift));
        TopShrinks(rem, divisor, f, shift);
        LongDiv(rem', divisor, q[shift := q[shift] + f])
  }

  /** One subtraction either shortens the remainder or leaves a top
      coefficient smaller than the divisor's, so the loop terminates. */
  lemma TopShrinks(rem: seq<int>, divisor: seq<int>, f: int, shift: nat)
    requires |divisor| >= 1 && shift + |divisor| == |rem|
    requires divisor[|divisor| - 1] != 0
    requires f == TruncDiv(rem[|rem| - 1], divisor[|divisor| - 1]) && f != 0
    ensures var r := StripAll(SubShifted(rem, divisor, f, shift));
      |r| < |rem| || (|r| == |rem| && TopMass(r) < TopMass(rem))
  {
    var lead := divisor[|divisor| - 1];
    var top := rem[|rem| - 1];
    var s := SubShifted(rem, divisor, f, shift);
    QuotientFacts(top, lead);
    assert s[|rem| - 1] == top - lead * f;
    assert Abs(f) >= 1;
    assert Abs(top) >= Abs(lead) by {
      assert Abs(top) / Abs(lead) >= 1;
    }
  }

  lemma {:induction false} LongDivInvariant(rem: seq<int>, divisor: seq<int>, q: seq<int>, x: int)
    requires |divisor| >= 1 && divisor[|divisor| - 1] != 0
    requires |rem| <= |q|
    ensures var res := LongDiv(rem, divisor, q);
      Val(divisor, x) * Val(res.0, x) + Val(res.1, x) == Val(divisor, x) * Val(q, x) + Val(rem, x)
    decreases |rem|, TopMass(rem)
  {
    var lead := divisor[|divisor| - 1];
    if |rem| >= |divisor| {
      var f := TruncDiv(rem[|rem| - 1], lead);
      if f != 0 {
        var shift := |rem| - |divisor|;
        var s := SubShifted(rem, divisor, f, shift);
        var rem' := StripAll(s);
        var q' := q[shift := q[shift] + f];
        TopShrinks(rem, divisor, f, shift);
        LongDivInvariant(rem', divisor, q', x);
        NormalizeValue(s, x);
        SubShiftedValue(rem, divisor, f, shift, x);
        BumpValue(q, shift, f, x);
        assert LongDiv(rem, divisor, q) == LongDiv(rem', divisor, q');
        Balance(Val(divisor, x), Val(q, x), Val(rem, x), f, Pow(x, shift));
      }
    }
  }

  /** Moving f·x^shift from the remainder to the quotient keeps
      divisor·quotient + remainder. */
  lemma Balance(dv: int, vq: int, vr: int, f: int, pw: int)
    ensures dv * (vq + f * pw) + (vr - f * pw * dv) == dv * vq + vr
  {
  }

  /** `/`: (quotient, remainder). The dividend supplies the backend sample
      (IndexError when it has no coefficients); a divisor without
      coefficients or with a vacuum top coefficient raises ZeroDivisionError. */
  function Div(a: seq<int>, b: seq<int>): (r: Result<(seq<int>, seq<int>)>)
    ensures r.Failure? <==> |a| == 0 || |b| == 0 || b[|b| - 1] == 0
    ensures r.Failure? && |a| == 0 ==> r.error == IndexOutOfRange
    ensures r.Failure? && |a| > 0 ==> r.error == ZeroDivision
    ensures r.Success? ==> Stripped(r.value.0) && Stripped(r.value.1) && |r.value.1| >= 1
  {
    if |a| == 0 then Failure(IndexOutOfRange)
    else if |b| == 0 || b[|b| - 1] == 0 then Failure(ZeroDivision)
    else
      var (q, rem) := LongDiv(a, b, Zeros(|a|));
      Success((Normalize(q), Normalize(if |rem| == 0 then [0] else rem)))
  }

  /** Reconstruction: dividend == divisor·quotient + remainder at every
      point. */
  lemma DivReconstructs(a: seq<int>, b: seq<int>, x: int)
    requires Div(a, b).Success?
    ensures var (q, r) := Div(a, b).value;
      Val(a, x) == Val(b, x) * Val(q, x) + Val(r, x)
  {
    var res := LongDiv(a, b, Zeros(|a|));
    LongDivInvariant(a, b, Zeros(|a|), x);
    ValZeros(|a|, x);
    NormalizeValue(res.0, x);
    var rem := if |res.1| == 0 then [0] else res.1;
    NormalizeValue(rem, x);
  }

  /** The remainder is fully reduced: shorter than the divisor, or with a
      top coefficient the divisor's top no longer divides. */
  lemma DivReduced(a: seq<int>, b: seq<int>)
    requires Stripped(a) && Div(a, b).Success?
    ensures var r := Div(a, b).value.1;
      |r| < |b| || TruncDiv(r[|r| - 1], b[|b| - 1]) == 0
  {
    var res := LongDiv(a, b, Zeros(|a|));
    LongDivStripped(a, b, Zeros(|a|));
    LongDivReduced(a, b, Zeros(|a|));
    if |res.1| >= 1 {
      assert Normalize(res.1) == res.1;
    }
  }

  /** Nothing more to divide: the remainder is shorter than the divisor,
      or the divisor's top no longer divides its top coefficient. */
  predicate Reduced(r: seq<int>, divisor: seq<int>)
    requires |divisor| >= 1 && divisor[|divisor| - 1] != 0
  {
    |r| < |divisor| || TruncDiv(r[|r| - 1], divisor[|divisor| - 1]) == 0
  }

  /** The loop stops only when the remainder is shorter than the divisor or
      its top coefficient is too small to divide. */
  lemma {:induction false} LongDivReduced(rem: seq<int>, divisor: seq<int>, q: seq<int>)
    requires |divisor| >= 1 && divisor[|divisor| - 1] != 0
    requires |rem| <= |q|
    ensures Reduced(LongDiv(rem, divisor, q).1, divisor)
    decreases |rem|, TopMass(rem)
  {
    var lead := divisor[|divisor| - 1];
    if |rem| < |divisor| {
      assert LongDiv(rem, divisor, q).1 == rem;
    } else {
      var f := TruncDiv(rem[|rem| - 1], lead);
      if f == 0 {
        assert LongDiv(rem, divisor, q).1 == rem;
      } else {
        var shift := |rem| - |divisor|;
        var rem' := StripAll(SubShifted(rem, divisor, f, shift));
        var q' := q[shift := q[shift] + f];
        assert LongDiv(rem, divisor, q) == LongDiv(rem', divisor, q');
        TopShrinks(rem, divisor, f, shift);
        LongDivReduced(rem', divisor, q');
      }
    }
  }

  /** Started on a normalised dividend, the loop leaves a remainder with no
      vacuum top coefficient (or the single vacuum). */
  lemma {:induction false} LongDivStripped(rem: seq<int>, divisor: seq<int>, q: seq<int>)
    requires |divisor| >= 1 && divisor[|divisor| - 1] != 0
    requires |rem| <= |q| && Stripped(rem)
    ensures Stripped(LongDiv(rem, divisor, q).1)
    decreases |rem|, TopMass(rem)
  {
    var lead := divisor[|divisor| - 1];
    if |rem| < |divisor| {
      assert LongDiv(rem, divisor, q).1 == rem;
    } else {
      var f := TruncDiv(rem[|rem| - 1], lead);
      if f == 0 {
        assert LongDiv(rem, divisor, q).1 == rem;
      } else {
        var shift := |rem| - |divisor|;
        var rem' := StripAll(SubShifted(rem, divisor, f, shift));
        var q' := q[shift := q[shift] + f];
        assert LongDiv(rem, divisor, q) == LongDiv(rem', divisor, q');
        TopShrinks(rem, divisor, f, shift);
        LongDivStripped(rem', divisor, q');
      }
    }
  }

  /** 1 + 2x + x² = (1 + x)(1 + x), remainder the single vacuum. */
  lemma DivExactSquare()
    ensures Div([1, 2, 1], [1, 1]) == Success(([1, 1], [0]))
  {
    assert Zeros(3) == [0, 0, 0];
    assert TruncDiv(1, 1) == 1;
    assert SubShifted([1, 2, 1], [1, 1], 1, 1) == [1, 1, 0];
    assert StripAll([1, 1, 0]) == [1, 1];
    assert SubShifted([1, 1], [1, 1], 1, 0) == [0, 0];
    assert StripAll([0, 0]) == [];
    assert [0, 0, 0][1 := 0 + 1] == [0, 1, 0];
    assert [0, 1, 0][0 := 0 + 1] == [1, 1, 0];
    assert LongDiv([], [1, 1], [1, 1, 0]) == ([1, 1, 0], []);
    assert LongDiv([1, 1], [1, 1], [0, 1, 0]) == ([1, 1, 0], []);
    assert LongDiv([1, 2, 1], [1, 1], [0, 0, 0]) == ([1, 1, 0], []);
  }

  /** 5 + 2x + x² = (1 + x)(1 + x) + 4. */
  lemma DivWithRemainder()
    ensures Div([5, 2, 1], [1, 1]) == Success(([1, 1], [4]))
  {
    assert Zeros(3) == [0, 0, 0];
    assert TruncDiv(1, 1) == 1;
    assert SubShifted([5, 2, 1], [1, 1], 1, 1) == [5, 1, 0];
    assert StripAll([5, 1, 0]) == [5, 1];
    assert SubShifted([5, 1], [1, 1], 1, 0) == [4, 0];
    assert StripAll([4, 0]) == [4];
    assert [0, 0, 0][1 := 0 + 1] == [0, 1, 0];
    assert [0, 1, 0][0 := 0 + 1] == [1, 1, 0];
    assert LongDiv([4], [1, 1], [1, 1, 0]) == ([1, 1, 0], [4]);
    assert LongDiv([5, 1], [1, 1], [0, 1, 0]) == ([1, 1, 0], [4]);
    assert LongDiv([5, 2, 1], [1, 1], [0, 0, 0]) == ([1, 1, 0], [4]);
    assert Normalize([1, 1, 0]) == [1, 1] && Normalize([4]) == [4];
  }

  /** 3x² over 2x: the truncated top quotient 3/2 = 1 leaves x², whose top
      the divisor's no longer divides. */
  lemma DivTruncatedLead()
    ensures Div([0, 0, 3], [0, 2]) == Success(([0, 1], [0, 0, 1]))
  {
    assert Zeros(3) == [0, 0, 0];
    assert TruncDiv(3, 2) == 1 && TruncDiv(1, 2) == 0;
    assert SubShifted([0, 0, 3], [0, 2], 1, 1) == [0, 0, 1];
    assert StripAll([0, 0, 1]) == [0, 0, 1];
    assert [0, 0, 0][1 := 0 + 1] == [0, 1, 0];
    assert LongDiv([0, 0, 1], [0, 2], [0, 1, 0]) == ([0, 1, 0], [0, 0, 1]);
    assert LongDiv([0, 0, 3], [0, 2], [0, 0, 0]) == ([0, 1, 0], [0, 0, 1]);
    assert Normalize([0, 1, 0]) == [0, 1] && Normalize([0, 0, 1]) == [0, 0, 1];
  }

  // ------------------------------------------------------- shift & reverse

  /** One pass of `shift`'s inner loop over the suffix s: from the top down,
      each coefficient absorbs c times the (already updated) one above it.
      This is synthetic division of s by (x - c). */
  function Synth(s: seq<int>, c: int): (r: seq<int>)
    ensures |r| == |s|
    decreases |s|
  {
    if |s| <= 1 then s
    else
      var t := Synth(s[1..], c);
      [s[0] + c * t[0]] + t
  }

  /** The outer loop: pass i works on the suffix from i; the coefficient at
      i is final afterwards. */
  function ShiftFrom(s: seq<int>, c: int): (r: seq<int>)
    ensures |r| == |s|
    decreases |s|
  {
    if |s| <= 1 then s
    else
      var b := Synth(s, c);
      [b[0]] + ShiftFrom(b[1..], c)
  }

  /** `shift(c)`. */
  function Shift(p: seq<int>, c: int): (r: seq<int>)
    ensures Stripped(r) && |r| <= |p| && (|p| >= 1 ==> |r| >= 1)
  {
    Normalize(ShiftFrom(p, c))
  }

  lemma {:induction false} SynthDivides(s: seq<int>, c: int, n: int, d: int)
    requires |s| >= 1
    ensures var b := Synth(s, c);
      HVal(s, n, d) == b[0] * Pow(d, |s| - 1) + (n - c * d) * HVal(b[1..], n, d)
    decreases |s|
  {
    if |s| > 1 {
      var t := Synth(s[1..], c);
      SynthDivides(s[1..], c, n, d);
      var b := Synth(s, c);
      assert b[1..] == t && b[0] == s[0] + c * t[0];
      var L := |s|;
      assert Pow(d, L - 1) == d * Pow(d, L - 2);
      SynthStep(HVal(s, n, d), HVal(s[1..], n, d), s[0], t[0], b[0], HVal(t, n, d), c, n, d,
        Pow(d, L - 1), Pow(d, L - 2), HVal(t[1..], n, d));
    }
  }

  /** The algebra of one synthetic-division step, over plain integers. */
  lemma SynthStep(hs: int, h1: int, s0: int, t0: int, b0: int, ht: int, c: int, n: int, d: int,
                  p1: int, p2: int, h: int)
    requires hs == s0 * p1 + n * h1 && p1 == d * p2 && b0 == s0 + c * t0
    requires ht == t0 * p2 + n * h && h1 == t0 * p2 + (n - c * d) * h
    ensures hs == b0 * p1 + (n - c * d) * ht
  {
    calc {
      b0 * p1 + (n - c * d) * ht;
      (s0 + c * t0) * (d * p2) + (n - c * d) * (t0 * p2 + n * h);
      s0 * (d * p2) + n * (t0 * p2 + (n - c * d) * h);
      hs;
    }
  }

  /** The Taylor shift: the new polynomial at u/v is the old one at
      (u + c·v)/v, i.e. P(x + c). */
  lemma {:induction false} ShiftFromMeaning(s: seq<int>, c: int, u: int, v: int)
    ensures HVal(ShiftFrom(s, c), u, v) == HVal(s, u + c * v, v)
    decreases |s|
  {
    if |s| > 1 {
      var b := Synth(s, c);
      SynthDivides(s, c, u + c * v, v);
      ShiftFromMeaning(b[1..], c, u, v);
      var r := ShiftFrom(s, c);
      assert r[1..] == ShiftFrom(b[1..], c);
    } else if |s| == 1 {
      assert s[1..] == [];
    }
  }

  lemma ShiftValue(p: seq<int>, c: int, y: int)
    ensures Val(Shift(p, c), y) == Val(p, y + c)
  {
    ShiftFromMeaning(p, c, y, 1);
    HValOne(ShiftFrom(p, c), y);
    HValOne(p, y + c);
    NormalizeValue(ShiftFrom(p, c), y);
  }

  function Rev(p: seq<int>): (r: seq<int>)
    ensures |r| == |p|
    decreases |p|
  {
    if |p| == 0 then [] else Rev(p[1..]) + [p[0]]
  }

  /** `reverse`: the coefficient list reversed, then normalised. */
  function Reverse(p: seq<int>): (r: seq<int>)
    ensures Stripped(r) && |r| <= |p| && (|p| >= 1 ==> |r| >= 1)
  {
    Normalize(Rev(p))
  }

  /** Reversal swaps the homogeneous coordinates: x^deg·P(1/x). */
  lemma {:induction false} RevMeaning(p: seq<int>, n: int, d: int)
    ensures HVal(Rev(p), n, d) == HVal(p, d, n)
    decreases |p|
  {
    if |p| > 0 {
      RevMeaning(p[1..], n, d);
      HValSnoc(Rev(p[1..]), p[0], n, d);
    }
  }

  /** The algebraic stream's transform after emitting k: x -> 1/(x - k).
      At every point x the new polynomial, times x to the number of vacuum
      top coefficients the shift dropped, is x^deg·P(k + 1/x). */
  lemma TransformMeaning(p: seq<int>, k: int, x: int)
    ensures Val(Reverse(Shift(p, k)), x) * Pow(x, |p| - |Shift(p, k)|) == HVal(p, k * x + 1, x)
  {
    var s0 := ShiftFrom(p, k);
    var s := Shift(p, k);
    NormalizeValue(Rev(s), x);
    HValOne(Rev(s), x);
    RevMeaning(s, x, 1);
    NormalizeHValue(s0, 1, x);
    ShiftFromMeaning(p, k, 1, x);
  }

  lemma ShiftExample()
    ensures Shift([-2, 0, 1], 1) == [-1, 2, 1]
  {
    assert Synth([0, 1], 1) == [1, 1];
    assert Synth([-2, 0, 1], 1) == [-1, 1, 1];
    assert Synth([1, 1], 1) == [2, 1];
    assert ShiftFrom([-2, 0, 1], 1) == [-1, 2, 1];
  }

  lemma ReverseExamples()
    ensures Reverse([-1, 2, 1]) == [1, 2, -1]
    ensures Reverse([3, 0, 0]) == [0, 0, 3] && Reverse([0, 0, 3]) == [3]
  {
    assert Rev([-1, 2, 1]) == [1, 2, -1];
    assert Rev([3, 0, 0]) == [0, 0, 3];
    assert Rev([0, 0, 3]) == [3, 0, 0];
    assert [3, 0, 0][..2] == [3, 0] && [3, 0][..1] == [3];
    assert Normalize([3, 0]) == Normalize([3]) == [3];
    assert Normalize([3, 0, 0]) == Normalize([3, 0]);
  }
}
