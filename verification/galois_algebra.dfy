/** The arithmetic of src/galois.py on canonical elements. Over p ≥ 2 and a
    monic modulus, `+`, `−` and `×` of canonical elements always succeed
    and give canonical elements; `×` is associative and commutative with
    unit one(), `+` undoes `−`, and the exponentiation loop, `inverse`, `/`
    and the Frobenius stream behind `trace` all compute repeated products. */
module GaloisAlgebra {
  import opened Wrappers
  import opened Galois
  import opened GaloisTheory
  import P = Polynomials

  // ------------------------------------------------------------ products

  /** `×` on canonical elements: it succeeds (TimesIsMul), with a
      canonical result. */
  function Times(f: Field, a: seq<int>, b: seq<int>): (c: seq<int>)
    requires Monic(f) && Canonical(f, a) && Canonical(f, b)
    ensures Canonical(f, c)
  {
    Deferred(f, a, b, 1)
  }

  /** The product through the engine after `steps` idle steps. The solver
      unfolds a recursive function once per use, so the one idle step in
      Times keeps the engine's body out of the proofs about repeated
      products, which need only Times's contract. */
  function Deferred(f: Field, a: seq<int>, b: seq<int>, steps: nat): (c: seq<int>)
    requires Monic(f) && Canonical(f, a) && Canonical(f, b)
    ensures Canonical(f, c)
  {
    if steps == 0 then
      EnforceCanonical(f, P.Mul(a, b));
      Galois.Mul(f, a, b).value
    else Deferred(f, a, b, steps - 1)
  }

  /** Times is what `×` returns. */
  lemma TimesIsMul(f: Field, a: seq<int>, b: seq<int>)
    requires Monic(f) && Canonical(f, a) && Canonical(f, b)
    ensures Galois.Mul(f, a, b) == Success(Times(f, a, b))
  {
    EnforceCanonical(f, P.Mul(a, b));
    assert Deferred(f, a, b, 1) == Deferred(f, a, b, 0);
  }

  /** `+` on canonical elements: it succeeds (PlusIsAdd), with a canonical
      result. */
  function Plus(f: Field, a: seq<int>, b: seq<int>): (c: seq<int>)
    requires Monic(f) && Canonical(f, a) && Canonical(f, b)
    ensures Canonical(f, c)
  {
    Summed(f, a, b, 1)
  }

  /** The sum through the engine after `steps` idle steps, for the same
      reason as Deferred. */
  function Summed(f: Field, a: seq<int>, b: seq<int>, steps: nat): (c: seq<int>)
    requires Monic(f) && Canonical(f, a) && Canonical(f, b)
    ensures Canonical(f, c)
  {
    if steps == 0 then
      EnforceCanonical(f, P.Add(a, b).value);
      Galois.Add(f, a, b).value
    else Summed(f, a, b, steps - 1)
  }

  /** Plus is what `+` returns. */
  lemma PlusIsAdd(f: Field, a: seq<int>, b: seq<int>)
    requires Monic(f) && Canonical(f, a) && Canonical(f, b)
    ensures Galois.Add(f, a, b) == Success(Plus(f, a, b))
  {
    EnforceCanonical(f, P.Add(a, b).value);
    assert Summed(f, a, b, 1) == Summed(f, a, b, 0);
  }

  /** `−` (as intended) on canonical elements: it succeeds (MinusIsSub),
      with a canonical result. */
  function Minus(f: Field, a: seq<int>, b: seq<int>): (c: seq<int>)
    requires Monic(f) && Canonical(f, a) && Canonical(f, b)
    ensures Canonical(f, c)
  {
    Subtracted(f, a, b, 1)
  }

  /** The difference through the engine after `steps` idle steps, for the
      same reason as Deferred. */
  function Subtracted(f: Field, a: seq<int>, b: seq<int>, steps: nat): (c: seq<int>)
    requires Monic(f) && Canonical(f, a) && Canonical(f, b)
    ensures Canonical(f, c)
  {
    if steps == 0 then
      EnforceCanonical(f, P.Add(a, P.ScaleBy(-1, b)).value);
      Galois.Sub(f, a, b).value
    else Subtracted(f, a, b, steps - 1)
  }

  /** Minus is what `−` returns. */
  lemma MinusIsSub(f: Field, a: seq<int>, b: seq<int>)
    requires Monic(f) && Canonical(f, a) && Canonical(f, b)
    ensures Galois.Sub(f, a, b) == Success(Minus(f, a, b))
  {
    EnforceCanonical(f, P.Add(a, P.ScaleBy(-1, b)).value);
    assert Subtracted(f, a, b, 1) == Subtracted(f, a, b, 0);
  }

  /** zero() and one() are canonical. */
  lemma UnitsCanonical(f: Field)
    requires Monic(f)
    ensures Canonical(f, Zero()) && Canonical(f, One())
  {
  }

  /** a − b as a coefficient list. */
  function Diff(a: seq<int>, b: seq<int>): (d: seq<int>)
  {
    P.PadAdd(a, P.ScaleBy(-1, b))
  }

  lemma DiffValue(a: seq<int>, b: seq<int>, x: int)
    ensures P.Val(Diff(a, b), x) == P.Val(a, x) - P.Val(b, x)
  {
    P.PadAddValue(a, P.ScaleBy(-1, b), x);
    P.ScaleValue(-1, b, x);
  }

  /** The product is the canonical element congruent to a·b. */
  lemma TimesCharacterised(f: Field, a: seq<int>, b: seq<int>, r: seq<int>, u: seq<int>, v: seq<int>)
    requires Monic(f) && Canonical(f, a) && Canonical(f, b) && Canonical(f, r)
    requires forall x ::
               P.Val(a, x) * P.Val(b, x) - P.Val(r, x) == f.p * P.Val(u, x) + P.Val(f.modulus, x) * P.Val(v, x)
    ensures Times(f, a, b) == r
  {
    forall x
      ensures P.Val(P.Mul(a, b), x) - P.Val(r, x) == f.p * P.Val(u, x) + P.Val(f.modulus, x) * P.Val(v, x)
    {
      P.MulValue(a, b, x);
    }
    Represents(f, P.Mul(a, b), r, u, v);
    TimesIsMul(f, a, b);
  }

  /** The sum is the canonical element congruent to a + b. */
  lemma PlusCharacterised(f: Field, a: seq<int>, b: seq<int>, r: seq<int>, u: seq<int>, v: seq<int>)
    requires Monic(f) && Canonical(f, a) && Canonical(f, b) && Canonical(f, r)
    requires forall x ::
               P.Val(a, x) + P.Val(b, x) - P.Val(r, x) == f.p * P.Val(u, x) + P.Val(f.modulus, x) * P.Val(v, x)
    ensures Plus(f, a, b) == r
  {
    forall x
      ensures P.Val(P.Add(a, b).value, x) - P.Val(r, x) == f.p * P.Val(u, x) + P.Val(f.modulus, x) * P.Val(v, x)
    {
      P.AddValue(a, b, x);
    }
    Represents(f, P.Add(a, b).value, r, u, v);
    PlusIsAdd(f, a, b);
  }

  /** The difference is the canonical element congruent to a − b. */
  lemma MinusCharacterised(f: Field, a: seq<int>, b: seq<int>, r: seq<int>, u: seq<int>, v: seq<int>)
    requires Monic(f) && Canonical(f, a) && Canonical(f, b) && Canonical(f, r)
    requires forall x ::
               P.Val(a, x) - P.Val(b, x) - P.Val(r, x) == f.p * P.Val(u, x) + P.Val(f.modulus, x) * P.Val(v, x)
    ensures Minus(f, a, b) == r
  {
    var d := P.Add(a, P.ScaleBy(-1, b)).value;
    forall x
      ensures P.Val(d, x) - P.Val(r, x) == f.p * P.Val(u, x) + P.Val(f.modulus, x) * P.Val(v, x)
    {
      P.AddValue(a, P.ScaleBy(-1, b), x);
      P.ScaleValue(-1, b, x);
    }
    Represents(f, d, r, u, v);
    MinusIsSub(f, a, b);
  }

  /** `×` commutes. */
  lemma TimesCommutes(f: Field, a: seq<int>, b: seq<int>)
    requires Monic(f) && Canonical(f, a) && Canonical(f, b)
    ensures Times(f, a, b) == Times(f, b, a)
  {
    forall x
      ensures P.Val(P.Mul(a, b), x) == P.Val(P.Mul(b, a), x)
    {
      P.MulValue(a, b, x);
      P.MulValue(b, a, x);
    }
    EnforceSameValue(f, P.Mul(a, b), P.Mul(b, a));
    TimesIsMul(f, a, b);
    TimesIsMul(f, b, a);
  }

  /** one() is a unit for `×`, on either side. */
  lemma TimesOne(f: Field, a: seq<int>)
    requires Monic(f) && Canonical(f, a)
    ensures Times(f, One(), a) == a && Times(f, a, One()) == a
  {
    forall x
      ensures P.Val(P.Mul(One(), a), x) == P.Val(a, x)
    {
      P.MulValue(One(), a, x);
    }
    EnforceSameValue(f, P.Mul(One(), a), a);
    CanonicalFixed(f, a);
    TimesIsMul(f, One(), a);
    TimesCommutes(f, One(), a);
  }

  /** `×` is associative: (a·b)·c and a·(b·c) are congruent, since
      ab·c − a·bc == a·(b·c − bc) − c·(a·b − ab) is p·U + m·V. */
  lemma TimesAssociates(f: Field, a: seq<int>, b: seq<int>, c: seq<int>)
    requires Monic(f) && Canonical(f, a) && Canonical(f, b) && Canonical(f, c)
    ensures Times(f, Times(f, a, b), c) == Times(f, a, Times(f, b, c))
  {
    var ab := Times(f, a, b);
    var bc := Times(f, b, c);
    TimesIsMul(f, a, b);
    TimesIsMul(f, b, c);
    var u1, v1 := EnforceWitness(f, P.Mul(a, b));
    var u2, v2 := EnforceWitness(f, P.Mul(b, c));
    var uu := Diff(P.Mul(a, u2), P.Mul(c, u1));
    var vv := Diff(P.Mul(a, v2), P.Mul(c, v1));
    forall x
      ensures P.Val(P.Mul(ab, c), x) - P.Val(P.Mul(a, bc), x)
        == f.p * P.Val(uu, x) + P.Val(f.modulus, x) * P.Val(vv, x)
    {
      AssociatePoint(f, a, b, c, ab, bc, u1, v1, u2, v2, x);
    }
    EnforceDetermined(f, P.Mul(ab, c), P.Mul(a, bc), uu, vv);
    TimesIsMul(f, ab, c);
    TimesIsMul(f, a, bc);
  }

  lemma AssociatePoint(f: Field, a: seq<int>, b: seq<int>, c: seq<int>, ab: seq<int>, bc: seq<int>,
                       u1: seq<int>, v1: seq<int>, u2: seq<int>, v2: seq<int>, x: int)
    requires Congruent(f, P.Mul(a, b), ab, u1, v1) && Congruent(f, P.Mul(b, c), bc, u2, v2)
    ensures P.Val(P.Mul(ab, c), x) - P.Val(P.Mul(a, bc), x)
      == f.p * P.Val(Diff(P.Mul(a, u2), P.Mul(c, u1)), x)
        + P.Val(f.modulus, x) * P.Val(Diff(P.Mul(a, v2), P.Mul(c, v1)), x)
  {
    var m := P.Val(f.modulus, x);
    assert P.Val(P.Mul(a, b), x) - P.Val(ab, x) == f.p * P.Val(u1, x) + m * P.Val(v1, x);
    assert P.Val(P.Mul(b, c), x) - P.Val(bc, x) == f.p * P.Val(u2, x) + m * P.Val(v2, x);
    P.MulValue(a, b, x);
    P.MulValue(b, c, x);
    P.MulValue(ab, c, x);
    P.MulValue(a, bc, x);
    P.MulValue(c, u1, x);
    P.MulValue(a, u2, x);
    P.MulValue(c, v1, x);
    P.MulValue(a, v2, x);
    DiffValue(P.Mul(a, u2), P.Mul(c, u1), x);
    DiffValue(P.Mul(a, v2), P.Mul(c, v1), x);
    Reassociate(P.Val(a, x), P.Val(b, x), P.Val(c, x), P.Val(ab, x), P.Val(bc, x), f.p, m,
      P.Val(u1, x), P.Val(v1, x), P.Val(u2, x), P.Val(v2, x));
  }

  lemma Reassociate(a: int, b: int, c: int, ab: int, bc: int, p: int, m: int,
                    u1: int, v1: int, u2: int, v2: int)
    requires a * b - ab == p * u1 + m * v1
    requires b * c - bc == p * u2 + m * v2
    ensures ab * c - a * bc == p * (a * u2 - c * u1) + m * (a * v2 - c * v1)
  {
    assert ab * c == a * b * c - p * (c * u1) - m * (c * v1);
    assert a * bc == a * b * c - p * (a * u2) - m * (a * v2);
  }

  // -------------------------------------------------------- sums and differences

  /** `+` commutes. */
  lemma PlusCommutes(f: Field, a: seq<int>, b: seq<int>)
    requires Monic(f) && Canonical(f, a) && Canonical(f, b)
    ensures Plus(f, a, b) == Plus(f, b, a)
  {
    forall x
      ensures P.Val(P.Add(a, b).value, x) == P.Val(P.Add(b, a).value, x)
    {
      P.AddValue(a, b, x);
      P.AddValue(b, a, x);
    }
    EnforceSameValue(f, P.Add(a, b).value, P.Add(b, a).value);
    PlusIsAdd(f, a, b);
    PlusIsAdd(f, b, a);
  }

  /** zero() is a unit for `+`. */
  lemma PlusZero(f: Field, a: seq<int>)
    requires Monic(f) && Canonical(f, a)
    ensures Plus(f, a, Zero()) == a
  {
    forall x
      ensures P.Val(P.Add(a, Zero()).value, x) == P.Val(a, x)
    {
      P.AddValue(a, Zero(), x);
    }
    EnforceSameValue(f, P.Add(a, Zero()).value, a);
    CanonicalFixed(f, a);
    PlusIsAdd(f, a, Zero());
  }

  /** `−` undoes `+`: (a − b) + b == a. */
  lemma MinusThenPlus(f: Field, a: seq<int>, b: seq<int>)
    requires Monic(f) && Canonical(f, a) && Canonical(f, b)
    ensures Plus(f, Minus(f, a, b), b) == a
  {
    var d := P.Add(a, P.ScaleBy(-1, b)).value;
    var s := Minus(f, a, b);
    MinusIsSub(f, a, b);
    var u, v := EnforceWitness(f, d);
    var t := P.Add(s, b).value;
    forall x
      ensures P.Val(t, x) - P.Val(a, x) == f.p * P.Val(P.ScaleBy(-1, u), x) + P.Val(f.modulus, x) * P.Val(P.ScaleBy(-1, v), x)
    {
      UndoPoint(f, a, b, s, u, v, x);
    }
    EnforceDetermined(f, t, a, P.ScaleBy(-1, u), P.ScaleBy(-1, v));
    CanonicalFixed(f, a);
    PlusIsAdd(f, s, b);
  }

  lemma UndoPoint(f: Field, a: seq<int>, b: seq<int>, s: seq<int>, u: seq<int>, v: seq<int>, x: int)
    requires |a| >= 1 && |s| >= 1
    requires Congruent(f, P.Add(a, P.ScaleBy(-1, b)).value, s, u, v)
    ensures P.Val(P.Add(s, b).value, x) - P.Val(a, x)
      == f.p * P.Val(P.ScaleBy(-1, u), x) + P.Val(f.modulus, x) * P.Val(P.ScaleBy(-1, v), x)
  {
    var d := P.Add(a, P.ScaleBy(-1, b)).value;
    var m := P.Val(f.modulus, x);
    assert P.Val(d, x) - P.Val(s, x) == f.p * P.Val(u, x) + m * P.Val(v, x);
    P.AddValue(a, P.ScaleBy(-1, b), x);
    P.ScaleValue(-1, b, x);
    P.AddValue(s, b, x);
    P.ScaleValue(-1, u, x);
    P.ScaleValue(-1, v, x);
    Undo(P.Val(a, x), P.Val(b, x), P.Val(s, x), f.p, m, P.Val(u, x), P.Val(v, x));
  }

  lemma Undo(a: int, b: int, s: int, p: int, m: int, u: int, v: int)
    requires a + -1 * b - s == p * u + m * v
    ensures s + b - a == p * (-1 * u) + m * (-1 * v)
  {
  }

  /** a − a == zero(). */
  lemma MinusSelf(f: Field, a: seq<int>)
    requires Monic(f) && Canonical(f, a)
    ensures Minus(f, a, a) == Zero()
  {
    forall x
      ensures P.Val(P.Add(a, P.ScaleBy(-1, a)).value, x) == P.Val(Zero(), x)
    {
      P.AddValue(a, P.ScaleBy(-1, a), x);
      P.ScaleValue(-1, a, x);
    }
    EnforceSameValue(f, P.Add(a, P.ScaleBy(-1, a)).value, Zero());
    CanonicalFixed(f, Zero());
    MinusIsSub(f, a, a);
  }

  // --------------------------------------------------------------- powers

  /** The k-fold product one()·a·a·…·a, the reference meaning of a^k. */
  function RepMul(f: Field, a: seq<int>, k: nat): (r: seq<int>)
    requires Monic(f) && Canonical(f, a)
    ensures Canonical(f, r)
  {
    if k == 0 then One() else Times(f, RepMul(f, a, k - 1), a)
  }

  /** a^1 == a. */
  lemma RepMulOne(f: Field, a: seq<int>)
    requires Monic(f) && Canonical(f, a)
    ensures RepMul(f, a, 1) == a
  {
    TimesOne(f, a);
  }

  /** one()^k == one(). */
  lemma {:induction false} RepMulOfOne(f: Field, k: nat)
    requires Monic(f)
    ensures RepMul(f, One(), k) == One()
    decreases k
  {
    if k > 0 {
      RepMulOfOne(f, k - 1);
      TimesOne(f, One());
    }
  }

  /** a^(i+j) == a^i · a^j. */
  lemma {:induction false} RepMulAdd(f: Field, a: seq<int>, i: nat, j: nat)
    requires Monic(f) && Canonical(f, a)
    ensures RepMul(f, a, i + j) == Times(f, RepMul(f, a, i), RepMul(f, a, j))
    decreases j
  {
    if j == 0 {
      TimesOne(f, RepMul(f, a, i));
      SameExponent(f, a, i + j, i);
      assert RepMul(f, a, j) == One();
      assert Times(f, RepMul(f, a, i), One()) == RepMul(f, a, i);
      assert RepMul(f, a, i + j) == RepMul(f, a, i);
    } else {
      var k := j - 1;
      var ri := RepMul(f, a, i);
      var rk := RepMul(f, a, k);
      RepMulAdd(f, a, i, k);
      RepMulStep(f, a, i + k);
      RepMulStep(f, a, k);
      SameExponent(f, a, i + j, i + k + 1);
      SameExponent(f, a, j, k + 1);
      TimesAssociates(f, ri, rk, a);
      assert RepMul(f, a, i + j) == Times(f, RepMul(f, a, i + k), a);
      assert RepMul(f, a, i + k) == Times(f, ri, rk);
      assert RepMul(f, a, j) == Times(f, rk, a);
    }
  }

  /** One more factor: a^(k+1) == a^k · a. */
  lemma RepMulStep(f: Field, a: seq<int>, k: nat)
    requires Monic(f) && Canonical(f, a)
    ensures RepMul(f, a, k + 1) == Times(f, RepMul(f, a, k), a)
  {
  }

  lemma SameExponent(f: Field, a: seq<int>, k1: nat, k2: nat)
    requires Monic(f) && Canonical(f, a) && k1 == k2
    ensures RepMul(f, a, k1) == RepMul(f, a, k2)
  {
  }

  /** a^(i·j) == (a^i)^j. */
  lemma {:induction false} RepMulMul(f: Field, a: seq<int>, i: nat, j: nat)
    requires Monic(f) && Canonical(f, a)
    ensures RepMul(f, a, i * j) == RepMul(f, RepMul(f, a, i), j)
    decreases j
  {
    if j > 0 {
      var k := j - 1;
      RepMulMul(f, a, i, k);
      RepMulAdd(f, a, i * k, i);
      SameExponent(f, a, i * j, i * k + i);
      RepMulStep(f, RepMul(f, a, i), k);
      SameExponent(f, RepMul(f, a, i), j, k + 1);
    }
  }

  /** The square-and-multiply loop keeps acc · base^e invariant: from
      (base, acc, e) it ends with acc · base^e. */
  lemma {:induction false} PowLoopMeaning(f: Field, base: seq<int>, acc: seq<int>, e: nat)
    requires Monic(f) && Canonical(f, base) && Canonical(f, acc)
    ensures PowLoop(f, base, acc, e) == Success(Times(f, acc, RepMul(f, base, e)))
    decreases e
  {
    if e == 0 {
      TimesOne(f, acc);
    } else {
      var sq := Times(f, base, base);
      var acc' := if e % 2 == 1 then Times(f, acc, base) else acc;
      PowLoopStep(f, base, acc, e);
      PowLoopMeaning(f, sq, acc', e / 2);
      SquareStep(f, base, acc, e);
    }
  }

  /** One round of the loop, in terms of Times. */
  lemma PowLoopStep(f: Field, base: seq<int>, acc: seq<int>, e: nat)
    requires Monic(f) && Canonical(f, base) && Canonical(f, acc) && e > 0
    ensures PowLoop(f, base, acc, e)
      == PowLoop(f, Times(f, base, base), if e % 2 == 1 then Times(f, acc, base) else acc, e / 2)
  {
    TimesIsMul(f, acc, base);
    TimesIsMul(f, base, base);
  }

  /** The invariant survives one round: acc' · (base²)^(e/2) == acc · base^e. */
  lemma SquareStep(f: Field, base: seq<int>, acc: seq<int>, e: nat)
    requires Monic(f) && Canonical(f, base) && Canonical(f, acc) && e > 0
    ensures Times(f, if e % 2 == 1 then Times(f, acc, base) else acc, RepMul(f, Times(f, base, base), e / 2))
      == Times(f, acc, RepMul(f, base, e))
  {
    var half := e / 2;
    var sq := Times(f, base, base);
    RepMulStep(f, base, 1);
    RepMulOne(f, base);
    RepMulMul(f, base, 2, half);
    SameExponent(f, base, 1 + 1, 2);
    var even := RepMul(f, base, 2 * half);
    assert RepMul(f, sq, half) == even;
    if e % 2 == 1 {
      RepMulAdd(f, base, 1, 2 * half);
      SameExponent(f, base, 1 + 2 * half, e);
      TimesAssociates(f, acc, base, even);
    } else {
      SameExponent(f, base, 2 * half, e);
    }
  }

  /** `**` with a non-negative exponent is the repeated product. */
  lemma PowIsRepeated(f: Field, a: seq<int>, e: nat)
    requires Monic(f) && Canonical(f, a)
    ensures Galois.Pow(f, a, e) == Success(RepMul(f, a, e))
  {
    if e == 1 {
      RepMulOne(f, a);
    } else if e >= 2 {
      UnitsCanonical(f);
      PowLoopMeaning(f, a, One(), e);
      TimesOne(f, RepMul(f, a, e));
    }
  }

  /** A field with a monic modulus has at least p ≥ 2 elements. */
  lemma OrderAtLeastTwo(f: Field)
    requires Monic(f)
    ensures Order(f) >= 2
  {
    assert PMass(f) == f.p;
    OrderAtLeast(f.p, f.n);
  }

  /** `inverse` of a non-vacuum element is its power with exponent
      order − 2. */
  lemma InverseIsPower(f: Field, b: seq<int>)
    requires Monic(f) && Canonical(f, b) && !P.IsVacuum(b)
    ensures Order(f) >= 2 && Inverse(f, b) == Success(RepMul(f, b, Order(f) - 2))
  {
    OrderAtLeastTwo(f);
    PowIsRepeated(f, b, Order(f) - 2);
  }

  /** `/` multiplies by that power. */
  lemma DivideIsProduct(f: Field, a: seq<int>, b: seq<int>)
    requires Monic(f) && Canonical(f, a) && Canonical(f, b) && !P.IsVacuum(b)
    ensures Order(f) >= 2 && Divide(f, a, b) == Success(Times(f, a, RepMul(f, b, Order(f) - 2)))
  {
    InverseIsPower(f, b);
    TimesIsMul(f, a, RepMul(f, b, Order(f) - 2));
  }

  /** p^n ≥ p for n ≥ 1. */
  lemma {:induction false} OrderAtLeast(p: nat, n: nat)
    requires p >= 2 && n >= 1
    ensures Power(p, n) >= p
    decreases n
  {
    if n > 1 {
      OrderAtLeast(p, n - 1);
    }
  }

  /** The k-th element of the Frobenius stream is a^(p^k). */
  lemma {:induction false} ConjugateIsPower(f: Field, a: seq<int>, k: nat)
    requires Monic(f) && Canonical(f, a)
    ensures Conjugate(f, a, k) == Success(RepMul(f, a, Power(PMass(f), k)))
    decreases k
  {
    if k == 0 {
      RepMulOne(f, a);
    } else {
      ConjugateIsPower(f, a, k - 1);
      var c := RepMul(f, a, Power(PMass(f), k - 1));
      PowIsRepeated(f, c, PMass(f));
      RepMulMul(f, a, Power(PMass(f), k - 1), PMass(f));
    }
  }

  /** The sum of the first k conjugates a, a^p, …, a^(p^(k−1)). */
  function OrbitTotal(f: Field, a: seq<int>, k: nat): (r: seq<int>)
    requires Monic(f) && Canonical(f, a)
    ensures Canonical(f, r)
  {
    if k == 0 then Zero()
    else Plus(f, OrbitTotal(f, a, k - 1), RepMul(f, a, Power(PMass(f), k - 1)))
  }

  /** `trace` sums the first n powers a^(p^i). */
  lemma {:induction false} OrbitSumIsTotal(f: Field, a: seq<int>, k: nat)
    requires Monic(f) && Canonical(f, a)
    ensures OrbitSum(f, a, k) == Success(OrbitTotal(f, a, k))
    decreases k
  {
    if k > 0 {
      OrbitSumIsTotal(f, a, k - 1);
      ConjugateIsPower(f, a, k - 1);
      PlusIsAdd(f, OrbitTotal(f, a, k - 1), RepMul(f, a, Power(PMass(f), k - 1)));
    }
  }

  lemma TraceIsOrbitTotal(f: Field, a: seq<int>)
    requires Monic(f) && Canonical(f, a)
    ensures Trace(f, a) == Success(OrbitTotal(f, a, f.n))
  {
    OrbitSumIsTotal(f, a, f.n);
  }
}
