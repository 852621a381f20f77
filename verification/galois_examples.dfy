/** The field of eight elements the tests of src/galois.py use: p = 2 and
    the modulus 1 + x + x³. Its non-vacuum elements are the powers of x,
    which gives the inverse law for every element, the traces and the
    Frobenius orbit the tests expect. */
module GaloisExamples {
  import opened Wrappers
  import opened Galois
  import opened GaloisTheory
  import opened GaloisAlgebra
  import P = Polynomials

  function F8(): Field
  {
    Field(2, 3, [1, 1, 0, 1])
  }

  function X(): seq<int>
  {
    [0, 1]
  }

  lemma F8Monic()
    ensures Monic(F8())
  {
  }

  /** The multiplication table of x: x^k · x for k < 7. */
  lemma XStep0(f: Field)
    requires f == F8()
    ensures Times(f, [1], X()) == [0, 1]
  {
    TimesCharacterised(f, [1], X(), [0, 1], [], []);
  }

  lemma XStep1(f: Field)
    requires f == F8()
    ensures Times(f, [0, 1], X()) == [0, 0, 1]
  {
    TimesCharacterised(f, [0, 1], X(), [0, 0, 1], [], []);
  }

  lemma XStep2(f: Field)
    requires f == F8()
    ensures Times(f, [0, 0, 1], X()) == [1, 1]
  {
    TimesCharacterised(f, [0, 0, 1], X(), [1, 1], [-1, -1], [1]);
  }

  lemma XStep3(f: Field)
    requires f == F8()
    ensures Times(f, [1, 1], X()) == [0, 1, 1]
  {
    TimesCharacterised(f, [1, 1], X(), [0, 1, 1], [], []);
  }

  lemma XStep4(f: Field)
    requires f == F8()
    ensures Times(f, [0, 1, 1], X()) == [1, 1, 1]
  {
    TimesCharacterised(f, [0, 1, 1], X(), [1, 1, 1], [-1, -1], [1]);
  }

  lemma XStep5(f: Field)
    requires f == F8()
    ensures Times(f, [1, 1, 1], X()) == [1, 0, 1]
  {
    TimesCharacterised(f, [1, 1, 1], X(), [1, 0, 1], [-1], [1]);
  }

  lemma XStep6(f: Field, k: nat)
    requires f == F8() && k == 6
    ensures Times(f, XPow(k), X()) == One()
  {
    assert XPow(k) == [1, 0, 1];
    TimesCharacterised(f, [1, 0, 1], X(), [1], [-1], [1]);
  }

  /** x^k for k < 7, as canonical coefficient lists. */
  function XPow(k: nat): (r: seq<int>)
    requires k < 7
    ensures Canonical(F8(), r)
  {
    if k == 0 then [1]
    else if k == 1 then [0, 1]
    else if k == 2 then [0, 0, 1]
    else if k == 3 then [1, 1]
    else if k == 4 then [0, 1, 1]
    else if k == 5 then [1, 1, 1]
    else [1, 0, 1]
  }

  /** x^k · x == x^(k+1) below the order of x. */
  lemma XStep(f: Field, k: nat)
    requires f == F8() && k < 6
    ensures Times(f, XPow(k), X()) == XPow(k + 1)
  {
    if k == 0 {
      XStep0(f);
    } else if k == 1 {
      XStep1(f);
    } else if k == 2 {
      XStep2(f);
    } else if k == 3 {
      XStep3(f);
    } else if k == 4 {
      XStep4(f);
    } else {
      XStep5(f);
    }
  }

  /** The powers of x below its order. */
  lemma {:induction false} XPowers(f: Field, k: nat)
    requires f == F8() && k < 7
    ensures RepMul(f, X(), k) == XPow(k)
    decreases k
  {
    if k > 0 {
      var j := k - 1;
      XPowers(f, j);
      RepMulStep(f, X(), j);
      SameExponent(f, X(), k, j + 1);
      SameLeft(f, RepMul(f, X(), j), XPow(j), X());
      XStep(f, j);
      SamePow(j + 1, k);
      Chain(RepMul(f, X(), k), RepMul(f, X(), j + 1), Times(f, RepMul(f, X(), j), X()),
            Times(f, XPow(j), X()), XPow(j + 1), XPow(k));
    }
  }

  lemma SameLeft(f: Field, a: seq<int>, b: seq<int>, c: seq<int>)
    requires Monic(f) && Canonical(f, a) && Canonical(f, c) && a == b
    ensures Times(f, a, c) == Times(f, b, c)
  {
  }

  lemma SamePow(i: nat, j: nat)
    requires i == j < 7
    ensures XPow(i) == XPow(j)
  {
  }

  lemma Chain(a: seq<int>, b: seq<int>, c: seq<int>, d: seq<int>, e: seq<int>, g: seq<int>)
    requires a == b && b == c && c == d && d == e && e == g
    ensures a == g
  {
  }

  /** x^(q−1) == one() for the q == 8 elements of F8: x has order 7. */
  lemma XOrder(f: Field)
    requires f == F8()
    ensures RepMul(f, X(), Order(f) - 1) == One()
  {
    assert Monic(f) && Canonical(f, X());
    assert Order(f) == 8;
    XSeventh(f, Order(f) - 1);
  }

  /** x^7 == one(). */
  lemma XSeventh(f: Field, n: nat)
    requires f == F8() && n == 7
    ensures RepMul(f, X(), n) == One()
  {
    assert Monic(f) && Canonical(f, X());
    var j := n - 1;
    XPowers(f, j);
    XStep6(f, j);
    PowerStep(f, X(), j, XPow(j), One());
  }

  /** a^(k+1) == c once a^k == b and b · a == c. */
  lemma PowerStep(f: Field, a: seq<int>, k: nat, b: seq<int>, c: seq<int>)
    requires Monic(f) && Canonical(f, a) && Canonical(f, b)
    requires RepMul(f, a, k) == b && Times(f, b, a) == c
    ensures RepMul(f, a, k + 1) == c
  {
    RepMulStep(f, a, k);
  }

  /** x^(7q + r) == x^r. */
  lemma XReduce(f: Field, q: nat, r: nat)
    requires f == F8()
    ensures RepMul(f, X(), (Order(f) - 1) * q + r) == RepMul(f, X(), r)
  {
    var n := Order(f) - 1;
    RepMulAdd(f, X(), n * q, r);
    XCycles(f, q);
    TimesOne(f, RepMul(f, X(), r));
  }

  /** x^(7q) == one(). */
  lemma XCycles(f: Field, q: nat)
    requires f == F8()
    ensures RepMul(f, X(), (Order(f) - 1) * q) == One()
  {
    var n := Order(f) - 1;
    RepMulMul(f, X(), n, q);
    XOrder(f);
    RepMulOfOne(f, q);
  }

  /** Every non-vacuum element of F8 is a power of x. */
  lemma PowerOfX(a: seq<int>) returns (k: nat)
    requires Canonical(F8(), a) && a != [0]
    ensures k < 7 && a == XPow(k)
  {
    assert 0 <= a[0] < 2;
    if |a| == 1 {
      k := 0;
    } else if |a| == 2 {
      assert a[1] == 1;
      k := if a[0] == 0 then 1 else 3;
    } else {
      assert a[2] == 1 && 0 <= a[1] < 2;
      k := if a[0] == 0 && a[1] == 0 then 2
        else if a[0] == 0 then 4
        else if a[1] == 1 then 5
        else 6;
    }
  }

  /** x^k · (x^k)^(q−2) == one(). */
  lemma XInverse(f: Field, k: nat)
    requires f == F8()
    ensures Times(f, RepMul(f, X(), k), RepMul(f, RepMul(f, X(), k), Order(f) - 2)) == One()
  {
    RepMulMul(f, X(), k, Order(f) - 2);
    XCancel(f, k);
    RepMulAdd(f, X(), k, k * (Order(f) - 2));
  }

  /** x^(k + k·(q−2)) == one(), since k + k·6 is a multiple of 7. */
  lemma XCancel(f: Field, k: nat)
    requires f == F8()
    ensures k * (Order(f) - 2) >= 0
    ensures RepMul(f, X(), k + k * (Order(f) - 2)) == One()
  {
    assert Order(f) == 8;
    Sevenfold(k, Order(f) - 2, Order(f) - 1);
    SameExponent(f, X(), k + k * (Order(f) - 2), (Order(f) - 1) * k);
    XCycles(f, k);
  }

  lemma Sevenfold(k: nat, e: int, n: int)
    requires e == 6 && n == 7
    ensures k * e >= 0 && n * k >= 0 && k + k * e == n * k
  {
  }

  /** The inverse law of the census tests: every non-vacuum element times
      its `inverse` is one(). */
  lemma InverseLaw(a: seq<int>)
    requires Canonical(F8(), a) && !P.IsVacuum(a)
    ensures Inverse(F8(), a).Success?
    ensures Galois.Mul(F8(), a, Inverse(F8(), a).value) == Success(One())
  {
    var f := F8();
    assert a != [0];
    var k := PowerOfX(a);
    XPowers(f, k);
    InverseIsPower(f, a);
    TimesIsMul(f, a, RepMul(f, a, Order(f) - 2));
    XInverse(f, k);
  }

  /** zero() is the vacuum, and its `inverse` raises ZeroDivisionError. */
  lemma InverseOfZero()
    ensures P.IsVacuum(Zero())
    ensures Inverse(F8(), Zero()) == Failure(ZeroDivision)
  {
  }

  // ---------------------------------------------------------------- sums

  /** In characteristic 2 every element is its own negative. */
  lemma DoubleVanishes(f: Field, a: seq<int>)
    requires Monic(f) && f.p == 2 && Canonical(f, a)
    ensures Plus(f, a, a) == Zero()
  {
    PlusCharacterised(f, a, a, Zero(), a, []);
  }

  /** zero() is a unit for `+` from the left as well. */
  lemma ZeroPlus(f: Field, a: seq<int>)
    requires Monic(f) && Canonical(f, a)
    ensures Plus(f, Zero(), a) == a
  {
    UnitsCanonical(f);
    PlusCommutes(f, Zero(), a);
    PlusZero(f, a);
  }

  /** The annihilation tests: 1 + 1 == 0, (1+x) + (1+x) == 0 and
      (1+x²) + 1 == x². */
  lemma OnePlusOne(f: Field)
    requires f == F8()
    ensures Plus(f, [1], [1]) == Zero()
  {
    DoubleVanishes(f, [1]);
  }

  lemma OnePlusXTwice(f: Field)
    requires f == F8()
    ensures Plus(f, [1, 1], [1, 1]) == Zero()
  {
    DoubleVanishes(f, [1, 1]);
  }

  lemma SquarePlusOne(f: Field)
    requires f == F8()
    ensures Plus(f, [1, 0, 1], [1]) == [0, 0, 1]
  {
    PlusCharacterised(f, [1, 0, 1], [1], [0, 0, 1], [1], []);
  }

  /** The reduction test: x · x² == 1 + x. */
  lemma Reduction(f: Field)
    requires f == F8()
    ensures Galois.Mul(f, [0, 1], [0, 0, 1]) == Success([1, 1])
  {
    TimesCommutes(f, [0, 1], [0, 0, 1]);
    XStep2(f);
    TimesIsMul(f, [0, 1], [0, 0, 1]);
  }

  // ---------------------------------------------------------------- Frobenius

  /** (x^j)^e == x^r when j·e == 7q + r. */
  lemma PowerOfPower(f: Field, j: nat, e: nat, q: nat, r: nat)
    requires f == F8() && j < 7 && r < 7 && j * e == 7 * q + r
    ensures RepMul(f, XPow(j), e) == XPow(r)
  {
    XPowers(f, j);
    RepMulMul(f, X(), j, e);
    XExponent(f, j * e, q, r);
  }

  /** x^k == x^r when k == 7q + r. */
  lemma XExponent(f: Field, k: nat, q: nat, r: nat)
    requires f == F8() && r < 7 && k == 7 * q + r
    ensures RepMul(f, X(), k) == XPow(r)
  {
    assert Order(f) == 8;
    SameExponent(f, X(), k, (Order(f) - 1) * q + r);
    XReduce(f, q, r);
    XPowers(f, r);
  }

  /** The k-th element of the Frobenius stream of x is x^r when
      2^k == 7q + r. */
  lemma ConjugateOfX(f: Field, k: nat, q: nat, r: nat)
    requires f == F8() && r < 7 && Power(2, k) == 7 * q + r
    ensures Conjugate(f, X(), k) == Success(XPow(r))
  {
    ConjugateIsPower(f, X(), k);
    assert PMass(f) == 2;
    XExponent(f, Power(PMass(f), k), q, r);
  }

  /** The Frobenius stream of x: x, x², x² + x, and back to x. */
  lemma FrobeniusOrbit(f: Field)
    requires f == F8()
    ensures Conjugate(f, X(), 0) == Success(X())
    ensures Conjugate(f, X(), 1) == Success([0, 0, 1])
    ensures Conjugate(f, X(), 2) == Success([0, 1, 1])
    ensures Conjugate(f, X(), 3) == Success(X())
  {
    ConjugateOfX(f, 0, 0, 1);
    ConjugateOfX(f, 1, 0, 2);
    ConjugateOfX(f, 2, 0, 4);
    ConjugateOfX(f, 3, 1, 1);
  }

  // ---------------------------------------------------------------- trace

  /** Sums met along the orbits, each the canonical element congruent to
      the coefficientwise sum. */
  lemma SumXSquare(f: Field)
    requires f == F8()
    ensures Plus(f, [0, 1], [0, 0, 1]) == [0, 1, 1]
  {
    PlusCharacterised(f, [0, 1], [0, 0, 1], [0, 1, 1], [], []);
  }

  lemma SumSixFive(f: Field)
    requires f == F8()
    ensures Plus(f, [1, 0, 1], [1, 1, 1]) == [0, 1]
  {
    PlusCharacterised(f, [1, 0, 1], [1, 1, 1], [0, 1], [1, 0, 1], []);
  }

  lemma SumOneThree(f: Field)
    requires f == F8()
    ensures Plus(f, [0, 1], [1, 1]) == [1]
  {
    PlusCharacterised(f, [0, 1], [1, 1], [1], [0, 1], []);
  }

  lemma SumThreeSix(f: Field)
    requires f == F8()
    ensures Plus(f, [1, 1], [1, 0, 1]) == [0, 1, 1]
  {
    PlusCharacterised(f, [1, 1], [1, 0, 1], [0, 1, 1], [1], []);
  }

  lemma SumFourFive(f: Field)
    requires f == F8()
    ensures Plus(f, [0, 1, 1], [1, 1, 1]) == [1]
  {
    PlusCharacterised(f, [0, 1, 1], [1, 1, 1], [1], [0, 1, 1], []);
  }

  lemma SumXOne(f: Field)
    requires f == F8()
    ensures Plus(f, X(), One()) == [1, 1]
  {
    PlusCharacterised(f, X(), One(), [1, 1], [], []);
  }

  /** The trace of x^j is t when x^j + x^(2j) == s and s + x^(4j) == t,
      each power reduced by the order of x. */
  lemma TraceOfPower(f: Field, j: nat, q2: nat, r2: nat, q4: nat, r4: nat, s: seq<int>, t: seq<int>)
    requires f == F8() && j < 7 && r2 < 7 && r4 < 7
    requires 2 * j == 7 * q2 + r2 && 4 * j == 7 * q4 + r4
    requires Canonical(f, s) && Plus(f, XPow(j), XPow(r2)) == s && Plus(f, s, XPow(r4)) == t
    ensures Trace(f, XPow(j)) == Success(t)
  {
    TraceIsOrbitTotal(f, XPow(j));
    OrbitOfPower(f, j, q2, r2, q4, r4);
  }

  /** The orbit sum of x^j over the three conjugates. */
  lemma OrbitOfPower(f: Field, j: nat, q2: nat, r2: nat, q4: nat, r4: nat)
    requires f == F8() && j < 7 && r2 < 7 && r4 < 7
    requires 2 * j == 7 * q2 + r2 && 4 * j == 7 * q4 + r4
    ensures OrbitTotal(f, XPow(j), f.n) == Plus(f, Plus(f, XPow(j), XPow(r2)), XPow(r4))
  {
    var a := XPow(j);
    assert PMass(f) == 2;
    OrbitFirst(f, a);
    assert OrbitTotal(f, a, 2) == Plus(f, a, XPow(r2)) by {
      PowerOfPower(f, j, 2, q2, r2);
    }
    assert OrbitTotal(f, a, 3) == Plus(f, Plus(f, a, XPow(r2)), XPow(r4)) by {
      PowerOfPower(f, j, 4, q4, r4);
    }
  }

  /** The first conjugate alone: 0 + a == a. */
  lemma OrbitFirst(f: Field, a: seq<int>)
    requires Monic(f) && Canonical(f, a)
    ensures OrbitTotal(f, a, 1) == a
  {
    RepMulOne(f, a);
    ZeroPlus(f, a);
  }

  /** Tr(1) == 1: n == 3 is odd. */
  lemma TraceOfOne(f: Field)
    requires f == F8()
    ensures Trace(f, One()) == Success(One())
  {
    OnePlusOne(f);
    ZeroPlus(f, One());
    TraceOfPower(f, 0, 0, 0, 0, 0, Zero(), One());
  }

  /** Tr(x) == 0: the orbit x, x², x² + x sums to 2x² + 2x. */
  lemma TraceOfX(f: Field)
    requires f == F8()
    ensures Trace(f, X()) == Success(Zero())
  {
    assert XPow(1) == X() && XPow(2) == [0, 0, 1] && XPow(4) == [0, 1, 1];
    SumXSquare(f);
    DoubleVanishes(f, [0, 1, 1]);
    TraceOfPower(f, 1, 0, 2, 0, 4, [0, 1, 1], Zero());
  }

  /** Tr(1 + x²) == 1. */
  lemma TraceOfOnePlusSquare(f: Field)
    requires f == F8()
    ensures Trace(f, [1, 0, 1]) == Success(One())
  {
    assert XPow(6) == [1, 0, 1] && XPow(5) == [1, 1, 1] && XPow(3) == [1, 1];
    SumSixFive(f);
    SumOneThree(f);
    TraceOfPower(f, 6, 1, 5, 3, 3, [0, 1], One());
  }

  /** Tr(1 + x) == 1. */
  lemma TraceOfOnePlusX(f: Field)
    requires f == F8()
    ensures Trace(f, [1, 1]) == Success(One())
  {
    assert XPow(3) == [1, 1] && XPow(6) == [1, 0, 1] && XPow(5) == [1, 1, 1];
    SumThreeSix(f);
    SumFourFive(f);
    TraceOfPower(f, 3, 0, 6, 1, 5, [0, 1, 1], One());
  }

  /** The linearity test: Tr(x + 1) == Tr(x) + Tr(1). */
  lemma TraceLinearity(f: Field)
    requires f == F8()
    ensures Trace(f, Plus(f, X(), One())) == Success(Plus(f, Zero(), One()))
    ensures Trace(f, X()) == Success(Zero()) && Trace(f, One()) == Success(One())
  {
    SumXOne(f);
    TraceOfOnePlusX(f);
    TraceOfX(f);
    TraceOfOne(f);
    ZeroPlus(f, One());
  }

  /** The Frobenius symmetry test: (a + b)² == a² + b² for a == 1 + x and
      b == x², both sides 1 + x. */
  lemma FrobeniusSymmetry(f: Field)
    requires f == F8()
    ensures Plus(f, [1, 0, 1], [0, 1, 1]) == [1, 1]
    ensures Plus(f, [1, 1], [0, 0, 1]) == [1, 1, 1]
    ensures Galois.Pow(f, [1, 1, 1], 2) == Success([1, 1])
    ensures Galois.Pow(f, [1, 1], 2) == Success([1, 0, 1])
    ensures Galois.Pow(f, [0, 0, 1], 2) == Success([0, 1, 1])
  {
    assert XPow(2) == [0, 0, 1] && XPow(3) == [1, 1] && XPow(4) == [0, 1, 1];
    assert XPow(5) == [1, 1, 1] && XPow(6) == [1, 0, 1];
    SumThreeTwo(f);
    SquareOf(f, 5, 1, 3);
    SquareOf(f, 3, 0, 6);
    SquareOf(f, 2, 0, 4);
    SumSixFour(f);
  }

  /** (x^j)² == x^r when 2j == 7q + r, through `**`. */
  lemma SquareOf(f: Field, j: nat, q: nat, r: nat)
    requires f == F8() && j < 7 && r < 7 && 2 * j == 7 * q + r
    ensures Galois.Pow(f, XPow(j), 2) == Success(XPow(r))
  {
    PowIsRepeated(f, XPow(j), 2);
    PowerOfPower(f, j, 2, q, r);
  }

  lemma SumThreeTwo(f: Field)
    requires f == F8()
    ensures Plus(f, [1, 1], [0, 0, 1]) == [1, 1, 1]
  {
    PlusCharacterised(f, [1, 1], [0, 0, 1], [1, 1, 1], [], []);
  }

  lemma SumSixFour(f: Field)
    requires f == F8()
    ensures Plus(f, [1, 0, 1], [0, 1, 1]) == [1, 1]
  {
    PlusCharacterised(f, [1, 0, 1], [0, 1, 1], [1, 1], [0, 0, 1], []);
  }

  // ---------------------------------------------------------------- subtraction

  /** `−` as written fails on every pair of elements, where the intended
      difference exists: (1 + x) − 1 is x. */
  lemma SubtractionAsWritten(f: Field)
    requires f == F8()
    ensures SubAsWritten(f, [1, 1], [1]) == Failure(MissingAttribute)
    ensures Galois.Sub(f, [1, 1], [1]) == Success(X())
  {
    MinusCharacterised(f, [1, 1], [1], X(), [], []);
    MinusIsSub(f, [1, 1], [1]);
  }

  // ---------------------------------------------------------------- vacuum

  /** An element that `** p_mass` leaves alone is its own Frobenius stream. */
  lemma {:induction false} FixedConjugates(f: Field, a: seq<int>, k: nat)
    requires Galois.Pow(f, a, PMass(f)) == Success(a)
    ensures Conjugate(f, a, k) == Success(a)
    decreases k
  {
    if k > 0 {
      FixedConjugates(f, a, k - 1);
    }
  }

  /** The element without coefficients squares to the empty product. */
  lemma EmptySquare(f: Field, e: seq<int>)
    requires f == F8() && |e| == 0
    ensures Galois.Pow(f, e, PMass(f)) == Success(e)
  {
    assert PMass(f) == 2;
    assert Galois.Mul(f, e, e) == Success(e);
    assert Galois.Mul(f, One(), e) == Success(e);
    assert PowLoop(f, e, e, 0) == Success(e);
  }

  /** One more conjugate on the running sum. */
  lemma OrbitStep(f: Field, a: seq<int>, k: nat, s: seq<int>, c: seq<int>)
    requires k > 0 && OrbitSum(f, a, k - 1) == Success(s) && Conjugate(f, a, k - 1) == Success(c)
    ensures OrbitSum(f, a, k) == Galois.Add(f, s, c)
  {
  }

  lemma ZeroPlusEmpty(f: Field, e: seq<int>)
    requires f == F8() && |e| == 0
    ensures Galois.Add(f, Zero(), e) == Success(Zero())
  {
    assert P.Add(Zero(), e) == Success([0]);
    assert ModP(f, [0]) == [0];
  }

  /** The trace test on the element without coefficients: Tr == zero(). */
  lemma TraceOfEmpty(f: Field)
    requires f == F8()
    ensures Trace(f, []) == Success(Zero())
  {
    EmptySquare(f, []);
    ZeroPlusEmpty(f, []);
    FixedConjugates(f, [], 0);
    FixedConjugates(f, [], 1);
    FixedConjugates(f, [], 2);
    OrbitStep(f, [], 1, Zero(), []);
    OrbitStep(f, [], 2, Zero(), []);
    OrbitStep(f, [], 3, Zero(), []);
  }
}
