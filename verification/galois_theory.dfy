/** Why the engine of src/galois.py computes in a field: for a prime-like
    p ≥ 2 and a monic modulus m of degree n, every `+`, `×` result is the
    unique canonical representative (n coefficients or fewer, each in
    [0, p)) of its class modulo p and m. From that, multiplication is
    associative and commutative with unit one(), so square-and-multiply
    computes the repeated product, `inverse` is a power, and each Frobenius
    conjugate is a power of the element. Congruence is stated on values:
    two coefficient lists are congruent when their difference is
    p·u + m·v at every point, for some integer polynomials u and v. */
module GaloisTheory {
  import opened Wrappers
  import opened Science
  import opened Galois
  import P = Polynomials

  /** A field whose modulus is monic of degree n, over p ≥ 2. */
  predicate Monic(f: Field)
  {
    f.p >= 2 && f.n >= 1 && |f.modulus| == f.n + 1 && f.modulus[f.n] == 1
  }

  /** A canonical element: at most n coefficients, each in [0, p), no
      vacuum top coefficient. */
  predicate Canonical(f: Field, r: seq<int>)
  {
    1 <= |r| <= f.n && P.Stripped(r) && forall i :: 0 <= i < |r| ==> 0 <= r[i] < f.p
  }

  /** a − b == p·u + m·v as polynomial functions. */
  ghost predicate Congruent(f: Field, a: seq<int>, b: seq<int>, u: seq<int>, v: seq<int>)
  {
    forall x :: P.Val(a, x) - P.Val(b, x) == f.p * P.Val(u, x) + P.Val(f.modulus, x) * P.Val(v, x)
  }

  // ---------------------------------------------------------- coefficients

  /** The i-th coefficient, vacuum beyond the list. */
  function Coef(s: seq<int>, i: nat): int
  {
    if i < |s| then s[i] else 0
  }

  lemma CoefPadAdd(a: seq<int>, b: seq<int>, i: nat)
    ensures Coef(P.PadAdd(a, b), i) == Coef(a, i) + Coef(b, i)
  {
    P.PadAddCoefficients(a, b);
  }

  lemma CoefScale(c: int, a: seq<int>, i: nat)
    ensures Coef(P.ScaleBy(c, a), i) == c * Coef(a, i)
  {
  }

  /** An integer polynomial that vanishes at every positive integer has
      only vacuum coefficients: its constant term is a multiple of any x
      larger than itself, and the rest vanishes after dividing by x. */
  lemma {:induction false} IdentityTheorem(e: seq<int>)
    requires forall x :: x >= 1 ==> P.Val(e, x) == 0
    ensures forall i :: 0 <= i < |e| ==> e[i] == 0
    decreases |e|
  {
    if |e| > 0 {
      var t := e[1..];
      var x0 := Abs(e[0]) + 1;
      assert P.Val(e, x0) == e[0] + x0 * P.Val(t, x0);
      LowCoefficient(e[0], x0, P.Val(t, x0));
      forall x | x >= 1
        ensures P.Val(t, x) == 0
      {
        assert P.Val(e, x) == e[0] + x * P.Val(t, x);
        CancelFactor(x, P.Val(t, x));
      }
      IdentityTheorem(t);
      assert forall i :: 1 <= i < |e| ==> e[i] == t[i - 1];
    }
  }

  /** c + x·t == 0 with x > |c| forces c == 0. */
  lemma LowCoefficient(c: int, x: int, t: int)
    requires x > Abs(c) && c + x * t == 0
    ensures c == 0
  {
    SmallMultiple(x, t);
  }

  lemma CancelFactor(x: int, t: int)
    requires x >= 1 && x * t == 0
    ensures t == 0
  {
  }

  /** Two integer polynomials with the same values at every positive
      integer have the same coefficients. */
  lemma CoefficientsFromValues(a: seq<int>, b: seq<int>)
    requires forall x :: x >= 1 ==> P.Val(a, x) == P.Val(b, x)
    ensures forall i: nat :: Coef(a, i) == Coef(b, i)
  {
    var nb := P.ScaleBy(-1, b);
    var e := P.PadAdd(a, nb);
    forall x | x >= 1
      ensures P.Val(e, x) == 0
    {
      P.PadAddValue(a, nb, x);
      P.ScaleValue(-1, b, x);
    }
    IdentityTheorem(e);
    forall i: nat
      ensures Coef(a, i) == Coef(b, i)
    {
      CoefPadAdd(a, nb, i);
      CoefScale(-1, b, i);
      assert Coef(e, i) == 0;
    }
  }

  /** The top coefficient of a product is the product of the tops. */
  lemma {:induction false} ConvTop(a: seq<int>, b: seq<int>)
    requires |a| > 0 && |b| > 0
    ensures P.Conv(a, b)[|a| + |b| - 2] == a[|a| - 1] * b[|b| - 1]
    decreases |a|
  {
    if |a| > 1 {
      var rest := P.Conv(a[1..], b);
      ConvTop(a[1..], b);
      var c := [0] + rest;
      CoefPadAdd(P.ScaleBy(a[0], b), c, |a| + |b| - 2);
      assert c[|a| + |b| - 2] == rest[|a| + |b| - 3];
    }
  }

  // ------------------------------------------------------------ residues

  /** The quotients the coefficient reduction leaves behind. */
  function Quot(f: Field, cs: seq<int>): (q: seq<int>)
    requires f.p > 0
    ensures |q| == |cs|
  {
    if |cs| == 0 then [] else [cs[0] / f.p] + Quot(f, cs[1..])
  }

  /** Reducing every coefficient mod p changes the value by a multiple of
      p: cs == ModP(cs) + p·Quot(cs). */
  lemma {:induction false} ModPValue(f: Field, cs: seq<int>, x: int)
    requires f.p > 0
    ensures P.Val(cs, x) == P.Val(ModP(f, cs), x) + f.p * P.Val(Quot(f, cs), x)
    decreases |cs|
  {
    if |cs| > 0 {
      var m := ModP(f, cs);
      var q := Quot(f, cs);
      ModPValue(f, cs[1..], x);
      assert m[1..] == ModP(f, cs[1..]) && q[1..] == Quot(f, cs[1..]);
      EuclidParts(cs[0], f.p);
      P.HornerLinear(m[0], q[0], x, P.Val(m[1..], x), P.Val(q[1..], x), f.p);
    }
  }

  /** Coefficients already in [0, p) are left alone. */
  lemma {:induction false} ModPFixed(f: Field, cs: seq<int>)
    requires f.p > 0
    requires forall i :: 0 <= i < |cs| ==> 0 <= cs[i] < f.p
    ensures ModP(f, cs) == cs
    decreases |cs|
  {
    if |cs| > 0 {
      ModPFixed(f, cs[1..]);
      ResidueUnique(cs[0], f.p, 0, cs[0]);
      assert ModP(f, cs) == [cs[0]] + cs[1..];
    }
  }

  // ---------------------------------------------------------- uniqueness

  /** Residues in [0, p) with p·U + m·w of degree below n vanish, from the
      top down: the top surviving residue would be the top coefficient of
      m·w, a coefficient the difference does not have. */
  lemma {:induction false} ResiduesVanish(f: Field, d: seq<int>, u: seq<int>, w: seq<int>, j: nat)
    requires Monic(f) && |d| <= f.n && j <= |w|
    requires forall i :: 0 <= i < |w| ==> 0 <= w[i] < f.p
    requires forall x :: P.Val(d, x) == f.p * P.Val(u, x) + P.Val(f.modulus, x) * P.Val(w, x)
    ensures forall i :: j <= i < |w| ==> w[i] == 0
    decreases |w| - j
  {
    if j < |w| {
      ResiduesVanish(f, d, u, w, j + 1);
      var m := f.modulus;
      var pre := w[..j + 1];
      var c := P.Conv(m, pre);
      var su := P.ScaleBy(f.p, u);
      var rhs := P.PadAdd(su, c);
      forall x | x >= 1
        ensures P.Val(d, x) == P.Val(rhs, x)
      {
        P.ZeroTail(w, pre, x);
        P.ConvValue(m, pre, x);
        P.PadAddValue(su, c, x);
        P.ScaleValue(f.p, u, x);
      }
      CoefficientsFromValues(d, rhs);
      var k := f.n + j;
      CoefPadAdd(su, c, k);
      CoefScale(f.p, u, k);
      ConvTop(m, pre);
      assert Coef(d, k) == 0 && Coef(c, k) == w[j];
      ZeroResidue(f.p, Coef(u, k), w[j]);
    }
  }

  lemma ZeroResidue(p: int, q: int, c: int)
    requires 0 <= c < p && 0 == p * q + c
    ensures c == 0
  {
    SmallMultiple(p, q);
  }

  /** Two canonical elements congruent modulo p and m are equal. */
  lemma Uniqueness(f: Field, r1: seq<int>, r2: seq<int>, u: seq<int>, v: seq<int>)
    requires Monic(f) && Canonical(f, r1) && Canonical(f, r2)
    requires Congruent(f, r1, r2, u, v)
    ensures r1 == r2
  {
    var m := f.modulus;
    var v0 := ModP(f, v);
    var v1 := Quot(f, v);
    var mv1 := P.Mul(m, v1);
    var w := P.PadAdd(u, mv1);
    var nr2 := P.ScaleBy(-1, r2);
    var d := P.PadAdd(r1, nr2);
    forall x
      ensures P.Val(d, x) == f.p * P.Val(w, x) + P.Val(m, x) * P.Val(v0, x)
    {
      SplitPoint(f, r1, r2, u, v, x);
    }
    ResiduesVanish(f, d, w, v0, 0);
    var sw := P.ScaleBy(f.p, w);
    forall x | x >= 1
      ensures P.Val(d, x) == P.Val(sw, x)
    {
      P.ZeroTail(v0, [], x);
      P.ScaleValue(f.p, w, x);
    }
    CoefficientsFromValues(d, sw);
    forall i: nat
      ensures Coef(r1, i) == Coef(r2, i)
    {
      SameCoefficient(f, r1, r2, w, i);
    }
    StrippedEqual(r1, r2);
  }

  /** Congruence at one point, with v split into residues and quotients. */
  lemma SplitPoint(f: Field, r1: seq<int>, r2: seq<int>, u: seq<int>, v: seq<int>, x: int)
    requires f.p > 0
    requires P.Val(r1, x) - P.Val(r2, x) == f.p * P.Val(u, x) + P.Val(f.modulus, x) * P.Val(v, x)
    ensures P.Val(P.PadAdd(r1, P.ScaleBy(-1, r2)), x)
      == f.p * P.Val(P.PadAdd(u, P.Mul(f.modulus, Quot(f, v))), x) + P.Val(f.modulus, x) * P.Val(ModP(f, v), x)
  {
    var m := f.modulus;
    var v1 := Quot(f, v);
    P.PadAddValue(r1, P.ScaleBy(-1, r2), x);
    P.ScaleValue(-1, r2, x);
    ModPValue(f, v, x);
    P.PadAddValue(u, P.Mul(m, v1), x);
    P.MulValue(m, v1, x);
    Regroup(f.p, P.Val(u, x), P.Val(m, x), P.Val(ModP(f, v), x), P.Val(v1, x));
  }

  /** A coefficient of the difference of two canonical lists lies strictly
      between -p and p, so it can only be a multiple of p by being 0. */
  lemma SameCoefficient(f: Field, r1: seq<int>, r2: seq<int>, w: seq<int>, i: nat)
    requires Canonical(f, r1) && Canonical(f, r2)
    requires Coef(P.PadAdd(r1, P.ScaleBy(-1, r2)), i) == Coef(P.ScaleBy(f.p, w), i)
    ensures Coef(r1, i) == Coef(r2, i)
  {
    CoefPadAdd(r1, P.ScaleBy(-1, r2), i);
    CoefScale(-1, r2, i);
    CoefScale(f.p, w, i);
    SmallMultiple(f.p, Coef(w, i));
  }

  lemma Regroup(p: int, u: int, m: int, v0: int, v1: int)
    ensures p * u + m * (v0 + p * v1) == p * (u + m * v1) + m * v0
  {
  }

  /** Normalised lists with the same coefficients are the same list. */
  lemma StrippedEqual(a: seq<int>, b: seq<int>)
    requires |a| >= 1 && |b| >= 1 && P.Stripped(a) && P.Stripped(b)
    requires forall i: nat :: Coef(a, i) == Coef(b, i)
    ensures a == b
  {
    assert Coef(a, |b| - 1) == b[|b| - 1];
    assert Coef(b, |a| - 1) == a[|a| - 1];
    assert |a| == |b|;
    assert forall i :: 0 <= i < |a| ==> a[i] == Coef(b, i);
  }

  // ---------------------------------------------------------- the engine

  /** The engine leaves a canonical element congruent to its input, for a
      monic modulus over p ≥ 2; (u, v) witness the congruence. */
  lemma EnforceWitness(f: Field, poly: seq<int>) returns (u: seq<int>, v: seq<int>)
    requires Monic(f) && |poly| >= 1
    ensures Enforce(f, poly).Success? && Canonical(f, Enforce(f, poly).value)
    ensures Congruent(f, poly, Enforce(f, poly).value, u, v)
  {
    var m := f.modulus;
    var reduced := ModP(f, poly);
    var temp := P.Normalize(reduced);
    P.NormalizeDrops(reduced);
    if |temp| <= f.n {
      assert Enforce(f, poly) == Success(temp);
      u, v := Quot(f, poly), [];
      forall x
        ensures P.Val(poly, x) - P.Val(temp, x) == f.p * P.Val(u, x) + P.Val(m, x) * P.Val(v, x)
      {
        ReducedValue(f, poly, x);
      }
    } else {
      var (q, rem) := P.Div(temp, m).value;
      var last := ModP(f, rem);
      var r := P.Normalize(last);
      assert Enforce(f, poly) == Success(r);
      RemainderFits(f, temp);
      P.NormalizeDrops(last);
      u, v := P.PadAdd(Quot(f, poly), Quot(f, rem)), q;
      forall x
        ensures P.Val(poly, x) - P.Val(r, x) == f.p * P.Val(u, x) + P.Val(m, x) * P.Val(v, x)
      {
        P.DivReconstructs(temp, m, x);
        ReducePoint(f, poly, temp, rem, x, P.Val(m, x) * P.Val(q, x));
      }
    }
  }

  /** Reducing the coefficients and normalising loses p·Quot(cs) at every
      point. */
  lemma ReducedValue(f: Field, cs: seq<int>, x: int)
    requires f.p > 0
    ensures P.Val(cs, x) == P.Val(P.Normalize(ModP(f, cs)), x) + f.p * P.Val(Quot(f, cs), x)
  {
    ModPValue(f, cs, x);
    P.NormalizeValue(ModP(f, cs), x);
  }

  /** The value bookkeeping of one reduction at one point: poly loses p·Q
      to the coefficient reduction, mq (m·q) to the division, and p·Q' to
      the second coefficient reduction. */
  lemma ReducePoint(f: Field, poly: seq<int>, temp: seq<int>, rem: seq<int>, x: int, mq: int)
    requires f.p > 0
    requires temp == P.Normalize(ModP(f, poly))
    requires P.Val(temp, x) == mq + P.Val(rem, x)
    ensures P.Val(poly, x) - P.Val(P.Normalize(ModP(f, rem)), x)
      == f.p * P.Val(P.PadAdd(Quot(f, poly), Quot(f, rem)), x) + mq
  {
    var qp := Quot(f, poly);
    var qr := Quot(f, rem);
    ReducedValue(f, poly, x);
    ReducedValue(f, rem, x);
    P.PadAddValue(qp, qr, x);
    ReduceChain(f.p, P.Val(poly, x), P.Val(temp, x), P.Val(qp, x), P.Val(rem, x),
      P.Val(P.Normalize(ModP(f, rem)), x), P.Val(qr, x), P.Val(P.PadAdd(qp, qr), x), mq);
  }

  lemma ReduceChain(p: int, vp: int, vt: int, a: int, vr: int, vr2: int, b: int, s: int, mq: int)
    requires vp == vt + p * a
    requires vr == vr2 + p * b
    requires s == a + b
    requires vt == mq + vr
    ensures vp - vr2 == p * s + mq
  {
  }

  /** Dividing a normalised list by a monic modulus of degree n leaves at
      most n coefficients. */
  lemma RemainderFits(f: Field, t: seq<int>)
    requires Monic(f) && |t| >= 1 && P.Stripped(t)
    ensures P.Div(t, f.modulus).Success?
    ensures 1 <= |P.Div(t, f.modulus).value.1| <= f.n
  {
    var r := P.Div(t, f.modulus).value.1;
    P.DivReduced(t, f.modulus);
    TruncDivSign(r[|r| - 1], 1);
  }

  lemma EnforceCanonical(f: Field, poly: seq<int>)
    requires Monic(f) && |poly| >= 1
    ensures Enforce(f, poly).Success? && Canonical(f, Enforce(f, poly).value)
  {
    var _, _ := EnforceWitness(f, poly);
  }

  /** A canonical element passes through the engine unchanged. */
  lemma CanonicalFixed(f: Field, r: seq<int>)
    requires Monic(f) && Canonical(f, r)
    ensures Enforce(f, r) == Success(r)
  {
    ModPFixed(f, r);
    assert P.Normalize(r) == r;
  }

  /** The engine's result is characterised by its class: a canonical r
      congruent to the input is what the engine returns. */
  lemma Represents(f: Field, poly: seq<int>, r: seq<int>, u: seq<int>, v: seq<int>)
    requires Monic(f) && |poly| >= 1 && Canonical(f, r) && Congruent(f, poly, r, u, v)
    ensures Enforce(f, poly) == Success(r)
  {
    EnforceDetermined(f, poly, r, u, v);
    CanonicalFixed(f, r);
  }

  /** Congruent inputs leave the engine as the same element. */
  lemma EnforceDetermined(f: Field, a: seq<int>, b: seq<int>, u: seq<int>, v: seq<int>)
    requires Monic(f) && |a| >= 1 && |b| >= 1
    requires Congruent(f, a, b, u, v)
    ensures Enforce(f, a).Success? && Enforce(f, a) == Enforce(f, b)
  {
    var ua, va := EnforceWitness(f, a);
    var ub, vb := EnforceWitness(f, b);
    var ea := Enforce(f, a).value;
    var eb := Enforce(f, b).value;
    var uu := Combine(u, ua, ub);
    var vv := Combine(v, va, vb);
    forall x
      ensures P.Val(ea, x) - P.Val(eb, x) == f.p * P.Val(uu, x) + P.Val(f.modulus, x) * P.Val(vv, x)
    {
      TransitivePoint(f, a, b, ea, eb, u, v, ua, va, ub, vb, x);
    }
    Uniqueness(f, ea, eb, uu, vv);
  }

  /** Congruence is transitive, witness by witness, at one point. */
  lemma TransitivePoint(f: Field, a: seq<int>, b: seq<int>, ea: seq<int>, eb: seq<int>,
                        u: seq<int>, v: seq<int>, ua: seq<int>, va: seq<int>, ub: seq<int>, vb: seq<int>, x: int)
    requires Congruent(f, a, b, u, v) && Congruent(f, a, ea, ua, va) && Congruent(f, b, eb, ub, vb)
    ensures P.Val(ea, x) - P.Val(eb, x)
      == f.p * P.Val(Combine(u, ua, ub), x) + P.Val(f.modulus, x) * P.Val(Combine(v, va, vb), x)
  {
    var m := P.Val(f.modulus, x);
    assert P.Val(a, x) - P.Val(b, x) == f.p * P.Val(u, x) + m * P.Val(v, x);
    assert P.Val(a, x) - P.Val(ea, x) == f.p * P.Val(ua, x) + m * P.Val(va, x);
    assert P.Val(b, x) - P.Val(eb, x) == f.p * P.Val(ub, x) + m * P.Val(vb, x);
    CombineValue(u, ua, ub, x);
    CombineValue(v, va, vb, x);
    Rebalance(P.Val(a, x), P.Val(b, x), P.Val(ea, x), P.Val(eb, x), f.p, m,
      P.Val(u, x), P.Val(v, x), P.Val(ua, x), P.Val(va, x), P.Val(ub, x), P.Val(vb, x));
  }

  /** Inputs with the same value everywhere leave the engine as the same
      element. */
  lemma EnforceSameValue(f: Field, a: seq<int>, b: seq<int>)
    requires Monic(f) && |a| >= 1 && |b| >= 1
    requires forall x :: P.Val(a, x) == P.Val(b, x)
    ensures Enforce(f, a).Success? && Enforce(f, a) == Enforce(f, b)
  {
    EnforceDetermined(f, a, b, [], []);
  }

  /** a − b + c as a coefficient list. */
  function Combine(a: seq<int>, b: seq<int>, c: seq<int>): seq<int>
  {
    P.PadAdd(P.PadAdd(a, P.ScaleBy(-1, b)), c)
  }

  lemma CombineValue(a: seq<int>, b: seq<int>, c: seq<int>, x: int)
    ensures P.Val(Combine(a, b, c), x) == P.Val(a, x) - P.Val(b, x) + P.Val(c, x)
  {
    P.PadAddValue(P.PadAdd(a, P.ScaleBy(-1, b)), c, x);
    P.PadAddValue(a, P.ScaleBy(-1, b), x);
    P.ScaleValue(-1, b, x);
  }

  lemma Rebalance(a: int, b: int, ea: int, eb: int, p: int, m: int,
                  u: int, v: int, ua: int, va: int, ub: int, vb: int)
    requires a - b == p * u + m * v
    requires a - ea == p * ua + m * va && b - eb == p * ub + m * vb
    ensures ea - eb == p * (u - ua + ub) + m * (v - va + vb)
  {
  }
}
