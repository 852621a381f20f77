/** Finite fields F_p^n of src/galois.py. An element is a coefficient list
    (constant term first) over the integer Matter; every `+` and `×` goes
    through the field's physics engine, which reduces coefficients mod p and
    the polynomial mod the field's modulus. The algebra of these operations
    (canonical forms, associativity, powers) is in module GaloisTheory. */
module Galois {
  import opened Wrappers
  import opened Science
  import Polynomials

  /** `GaloisField(p, n, mod_poly_coeffs)`. The modulus is kept as the
      Polynomial constructor leaves it: vacuum top coefficients dropped. */
  datatype Field = Field(p: int, n: nat, modulus: seq<int>)

  function MakeField(p: int, n: nat, coeffs: seq<int>): Field
  {
    Field(p, n, Polynomials.Normalize(coeffs))
  }

  /** `p_mass`: the scalar of p is its mass. */
  function PMass(f: Field): nat
  {
    Abs(f.p)
  }

  /** b^k over the naturals. */
  function Power(b: nat, k: nat): (r: nat)
    ensures b == 0 && k > 0 ==> r == 0
    ensures b >= 1 ==> r >= 1
  {
    if k == 0 then 1 else b * Power(b, k - 1)
  }

  /** `order`: p_mass ** n. */
  function Order(f: Field): nat
  {
    Power(PMass(f), f.n)
  }

  /** `zero()` and `one()`: the one-coefficient elements 0 and 1. */
  function Zero(): seq<int>
  {
    [0]
  }

  function One(): seq<int>
  {
    [1]
  }

  // ----------------------------------------------------------- enumeration

  /** The k base-`base` digits of val, least significant first. */
  function Digits(val: nat, base: nat, k: nat): (d: seq<int>)
    requires base > 0 || k == 0
    ensures |d| == k
    ensures forall i :: 0 <= i < k ==> 0 <= d[i] < base
    decreases k
  {
    if k == 0 then []
    else
      var low := val % base;
      var rest := Digits(val / base, base, k - 1);
      assert forall i :: 1 <= i < k ==> ([low] + rest)[i] == rest[i - 1];
      [low] + rest
  }

  /** `__iter__` of the field: for i in range(order), the element whose
      coefficients are the n base-p_mass digits of i. The order is 0 when
      p_mass is 0 and n > 0, so no digit is ever taken in base 0. */
  function Enumerate(f: Field): (es: seq<seq<int>>)
    ensures |es| == Order(f)
  {
    seq(Order(f), i requires 0 <= i < Order(f) =>
      Polynomials.Normalize(Digits(i, PMass(f), f.n)))
  }

  /** Below b^k, the digits read back in base b give the number itself. */
  lemma {:induction false} DigitsValue(v: nat, b: nat, k: nat)
    requires b > 0 && v < Power(b, k)
    ensures Polynomials.Val(Digits(v, b, k), b) == v
    decreases k
  {
    if k > 0 {
      var w := Power(b, k - 1);
      assert Power(b, k) == b * w;
      QuotientBelow(v, b, w);
      DigitsValue(v / b, b, k - 1);
      var d := Digits(v, b, k);
      assert d[1..] == Digits(v / b, b, k - 1) && d[0] == v % b;
      var t := Polynomials.Val(d[1..], b);
      assert t == v / b;
      assert Polynomials.Val(d, b) == v % b + b * t;
      EuclidParts(v, b);
    }
  }

  lemma EuclidParts(v: int, b: int)
    requires b > 0
    ensures v % b + b * (v / b) == v
  {
  }

  lemma QuotientBelow(v: nat, b: nat, w: nat)
    requires b > 0 && v < b * w
    ensures v / b < w
  {
    assert b * (v / b) <= v;
    ProductOrder(b, v / b, w);
  }

  /** Cancelling a positive factor keeps a strict order. */
  lemma ProductOrder(b: int, x: int, y: int)
    requires b > 0 && b * x < b * y
    ensures x < y
  {
  }

  /** The i-th enumerated element has the base-p_mass digits of i: read
      back in base p_mass it is i, so no element is listed twice. */
  lemma EnumerateDigits(f: Field, i: nat, j: nat)
    requires i < Order(f) && j < Order(f) && PMass(f) > 0
    ensures Polynomials.Val(Enumerate(f)[i], PMass(f)) == i
    ensures i != j ==> Enumerate(f)[i] != Enumerate(f)[j]
  {
    var b := PMass(f);
    DigitsValue(i, b, f.n);
    DigitsValue(j, b, f.n);
    Polynomials.NormalizeValue(Digits(i, b, f.n), b);
    Polynomials.NormalizeValue(Digits(j, b, f.n), b);
  }

  // --------------------------------------------------------------- physics

  /** One coefficient through the engine: `c % p` (truncated, so it takes
      c's sign), and a negative non-vacuum remainder is lifted by p. For a
      positive p this is the least non-negative residue. */
  function Lift(f: Field, c: int): (r: int)
    requires f.p != 0
    ensures f.p > 0 ==> r == c % f.p
  {
    var m := TruncMod(c, f.p);
    if f.p > 0 then
      LiftIsResidue(c, f.p);
      if m < 0 then m + f.p else m
    else if m < 0 then m + f.p else m
  }

  lemma LiftIsResidue(c: int, p: int)
    requires p > 0
    ensures var m := TruncMod(c, p); (if m < 0 then m + p else m) == c % p
  {
    var m := TruncMod(c, p);
    DivisionLaw(c, p);
    if m < 0 {
      ResidueUnique(c, p, TruncDiv(c, p) - 1, m + p);
    } else {
      ResidueUnique(c, p, TruncDiv(c, p), m);
    }
  }

  /** A remainder in [0, p) with c == p·k + r is Euclid's. */
  lemma ResidueUnique(c: int, p: int, k: int, r: int)
    requires p > 0 && 0 <= r < p && c == p * k + r
    ensures r == c % p
  {
    var d := k - c / p;
    assert p * d == c % p - r;
    SmallMultiple(p, d);
  }

  /** The only multiple of p strictly between -p and p is 0. */
  lemma SmallMultiple(p: int, d: int)
    requires p > 0 && -p < p * d < p
    ensures d == 0
  {
  }

  /** The coefficient loop of `_enforce_physics`. */
  function ModP(f: Field, cs: seq<int>): (r: seq<int>)
    requires f.p != 0
    ensures |r| == |cs|
    ensures f.p > 0 ==> forall i :: 0 <= i < |r| ==> 0 <= r[i] < f.p
  {
    if |cs| == 0 then [] else [Lift(f, cs[0])] + ModP(f, cs[1..])
  }

  /** A modulus the long division accepts: some coefficient, and a top
      coefficient that is not vacuum. */
  predicate Usable(m: seq<int>)
  {
    |m| >= 1 && m[|m| - 1] != 0
  }

  /** `_enforce_physics`: coefficients mod p, normalisation, and, when more
      than n coefficients remain, the remainder modulo the modulus, whose
      coefficients are reduced mod p again. `c % p` raises
      ZeroDivisionError when p is 0, and so does the division by a modulus
      without a usable top coefficient. */
  function Enforce(f: Field, poly: seq<int>): (r: Result<seq<int>>)
    ensures |poly| == 0 ==> r == Success([])
    ensures |poly| > 0 && f.p == 0 ==> r == Failure(ZeroDivision)
    ensures f.p != 0 && Usable(f.modulus) ==> r.Success?
    ensures r.Failure? ==> r.error == ZeroDivision
    ensures r.Success? ==> Polynomials.Stripped(r.value)
    ensures r.Success? && |poly| > 0 ==> |r.value| >= 1
    ensures r.Success? && f.p > 0 ==> forall i :: 0 <= i < |r.value| ==> 0 <= r.value[i] < f.p
  {
    if |poly| == 0 then Success([])
    else if f.p == 0 then Failure(ZeroDivision)
    else
      var reduced := ModP(f, poly);
      var temp := Polynomials.Normalize(reduced);
      Polynomials.NormalizeDrops(reduced);
      if |temp| > f.n then
        var (_, rem) :- Polynomials.Div(temp, f.modulus);
        var last := ModP(f, rem);
        Polynomials.NormalizeDrops(last);
        Success(Polynomials.Normalize(last))
      else Success(temp)
  }

  // ------------------------------------------------------------ arithmetic

  /** `+`: the polynomial sum (IndexError when the left operand has no
      coefficients), then the engine. */
  function Add(f: Field, a: seq<int>, b: seq<int>): (r: Result<seq<int>>)
    ensures |a| == 0 ==> r == Failure(IndexOutOfRange)
    ensures |a| > 0 && f.p != 0 && Usable(f.modulus) ==> r.Success? && |r.value| >= 1
  {
    var s :- Polynomials.Add(a, b);
    Enforce(f, s)
  }

  /** `×`: the polynomial product (vacuum when an operand has no
      coefficients), then the engine. */
  function Mul(f: Field, a: seq<int>, b: seq<int>): (r: Result<seq<int>>)
    ensures f.p != 0 && Usable(f.modulus) ==> r.Success?
    ensures r.Success? && |a| > 0 && |b| > 0 ==> |r.value| >= 1
  {
    Enforce(f, Polynomials.Mul(a, b))
  }

  /** `−` as written: `super().__sub__` finds no subtraction on Polynomial
      and reaches the Algebraic protocol's stub, whose body evaluates to
      None; the engine then reads `.coeffs` of None. */
  function ProtocolSub(a: seq<int>, b: seq<int>): Option<seq<int>>
  {
    None
  }

  function SubAsWritten(f: Field, a: seq<int>, b: seq<int>): Result<seq<int>>
  {
    match ProtocolSub(a, b)
    case None => Failure(MissingAttribute)
    case Some(d) => Enforce(f, d)
  }

  /** `−` as intended: the coefficientwise difference through the engine,
      with `+`'s IndexError on a left operand without coefficients. */
  function Sub(f: Field, a: seq<int>, b: seq<int>): (r: Result<seq<int>>)
    ensures |a| == 0 ==> r == Failure(IndexOutOfRange)
    ensures |a| > 0 && f.p != 0 && Usable(f.modulus) ==> r.Success? && |r.value| >= 1
  {
    var d :- Polynomials.Add(a, Polynomials.ScaleBy(-1, b));
    Enforce(f, d)
  }

  /** `__pow__`: 0 gives one() and 1 gives the element itself, untouched;
      otherwise square-and-multiply from one(). A negative exponent skips
      the loop and also gives one(). */
  function Pow(f: Field, a: seq<int>, e: int): (r: Result<seq<int>>)
    ensures e == 0 || e < 0 ==> r == Success(One())
    ensures e == 1 ==> r == Success(a)
  {
    if e == 0 then Success(One())
    else if e == 1 then Success(a)
    else PowLoop(f, a, One(), e)
  }

  /** The square-and-multiply loop: multiply the result by the base on an
      odd exponent, square the base, halve the exponent. */
  function PowLoop(f: Field, base: seq<int>, acc: seq<int>, e: int): (r: Result<seq<int>>)
    ensures e <= 0 ==> r == Success(acc)
    decreases e
  {
    if e <= 0 then Success(acc)
    else
      var acc' :- if e % 2 == 1 then Mul(f, acc, base) else Success(acc);
      var base' :- Mul(f, base, base);
      PowLoop(f, base', acc', e / 2)
  }

  /** `inverse`: ZeroDivisionError on the vacuum, else self^(order − 2)
      (Fermat's little theorem). */
  function Inverse(f: Field, a: seq<int>): (r: Result<seq<int>>)
    ensures Polynomials.IsVacuum(a) ==> r == Failure(ZeroDivision)
    ensures !Polynomials.IsVacuum(a) ==> r == Pow(f, a, Order(f) - 2)
  {
    if Polynomials.IsVacuum(a) then Failure(ZeroDivision) else Pow(f, a, Order(f) - 2)
  }

  /** `/`: multiply by the divisor's inverse. */
  function Divide(f: Field, a: seq<int>, b: seq<int>): (r: Result<seq<int>>)
    ensures Polynomials.IsVacuum(b) ==> r == Failure(ZeroDivision)
  {
    var inv :- Inverse(f, b);
    Mul(f, a, inv)
  }

  // ---------------------------------------------------------------- trace

  /** The k-th element of the Frobenius stream: self, self^p, self^p², … */
  function Conjugate(f: Field, a: seq<int>, k: nat): Result<seq<int>>
  {
    if k == 0 then Success(a)
    else
      var c :- Conjugate(f, a, k - 1);
      Pow(f, c, PMass(f))
  }

  /** The running sum after consuming k conjugates, from zero(). */
  function OrbitSum(f: Field, a: seq<int>, k: nat): Result<seq<int>>
  {
    if k == 0 then Success(Zero())
    else
      var s :- OrbitSum(f, a, k - 1);
      var c :- Conjugate(f, a, k - 1);
      Add(f, s, c)
  }

  /** `trace`: the sum of the first n Frobenius conjugates. */
  function Trace(f: Field, a: seq<int>): Result<seq<int>>
  {
    OrbitSum(f, a, f.n)
  }
}
