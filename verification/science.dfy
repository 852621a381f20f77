/** The integer "Matter" backend (core/science_mode.py): a signed integer whose
    division truncates toward zero. Every floor taken by the engines of this
    model is this division, never Dafny's Euclidean `/`. */
module Science {
  import opened Wrappers

  function Abs(x: int): nat
  {
    if x < 0 then -x else x
  }

  /** Quotient of a / b rounded toward zero: magnitude |a| div |b|, negative
      exactly when the operands' signs differ. */
  function TruncDiv(a: int, b: int): int
    requires b != 0
  {
    var qMag := Abs(a) / Abs(b);
    if (a < 0) != (b < 0) then -qMag else qMag
  }

  /** Remainder of a / b: magnitude |a| mod |b|, carrying the dividend's sign. */
  function TruncMod(a: int, b: int): (r: int)
    requires b != 0
    ensures Abs(r) < Abs(b)
    ensures a >= 0 ==> r >= 0
    ensures a <= 0 ==> r <= 0
  {
    var rMag := Abs(a) % Abs(b);
    if a < 0 then -rMag else rMag
  }

  /** The reconstruction law of the Matter contract: a == b*q + r. */
  lemma DivisionLaw(a: int, b: int)
    requires b != 0
    ensures b * TruncDiv(a, b) + TruncMod(a, b) == a
  {
    var qm := Abs(a) / Abs(b);
    var rm := Abs(a) % Abs(b);
    assert Abs(a) == Abs(b) * qm + rm;
    SignedProducts(Abs(b), qm);
    if a < 0 && b < 0 {
      assert TruncDiv(a, b) == qm && TruncMod(a, b) == -rm;
    } else if a < 0 {
      assert TruncDiv(a, b) == -qm && TruncMod(a, b) == -rm;
    } else if b < 0 {
      assert TruncDiv(a, b) == -qm && TruncMod(a, b) == rm;
    } else {
      assert TruncDiv(a, b) == qm && TruncMod(a, b) == rm;
    }
  }

  lemma SignedProducts(x: int, y: int)
    ensures (-x) * y == -(x * y) && x * (-y) == -(x * y) && (-x) * (-y) == x * y
  {
  }

  /** Truncated division is the only (q, r) pair meeting the reconstruction
      law with |r| < |b| and r sharing the dividend's sign. */
  lemma DivisionUnique(a: int, b: int, q: int, r: int)
    requires b != 0
    requires b * q + r == a
    requires Abs(r) < Abs(b)
    requires a >= 0 ==> r >= 0
    requires a <= 0 ==> r <= 0
    ensures q == TruncDiv(a, b) && r == TruncMod(a, b)
  {
    DivisionLaw(a, b);
    var q0 := TruncDiv(a, b);
    var r0 := TruncMod(a, b);
    assert b * q - b * q0 == r0 - r;
    assert b * (q - q0) == r0 - r by { Distribute(b, q, q0); }
    assert Abs(r0 - r) < Abs(b);
    if q != q0 {
      MulLowerBound(b, q - q0);
      assert false;
    }
  }

  lemma Distribute(b: int, x: int, y: int)
    ensures b * (x - y) == b * x - b * y
  {
  }

  lemma MulLowerBound(b: int, k: int)
    requires k != 0
    ensures Abs(b * k) >= Abs(b)
  {
    if k > 0 {
      if b >= 0 { assert b * k >= b * 1; } else { assert b * k <= b * 1; }
    } else {
      if b >= 0 { assert b * k <= b * -1; } else { assert b * k >= b * -1; }
    }
  }

  /** FastInteger.__truediv__: (quotient, remainder), or ZeroDivisionError. */
  function Divide(a: int, b: int): (r: Result<(int, int)>)
    ensures r.Failure? <==> b == 0
    ensures r.Failure? ==> r.error == ZeroDivision
    ensures r.Success? ==> b * r.value.0 + r.value.1 == a && Abs(r.value.1) < Abs(b)
    ensures r.Success? ==> Abs(r.value.0) == Abs(a) / Abs(b)
    ensures r.Success? ==> (r.value.0 < 0 ==> (a < 0) != (b < 0))
  {
    if b == 0 then Failure(ZeroDivision)
    else
      QuotientFacts(a, b);
      Success((TruncDiv(a, b), TruncMod(a, b)))
  }

  lemma QuotientFacts(a: int, b: int)
    requires b != 0
    ensures b * TruncDiv(a, b) + TruncMod(a, b) == a
    ensures Abs(TruncDiv(a, b)) == Abs(a) / Abs(b)
    ensures TruncDiv(a, b) < 0 ==> (a < 0) != (b < 0)
  {
    DivisionLaw(a, b);
    TruncDivSign(a, b);
  }

  lemma TruncDivSign(a: int, b: int)
    requires b != 0
    ensures Abs(TruncDiv(a, b)) == Abs(a) / Abs(b)
    ensures TruncDiv(a, b) < 0 ==> (a < 0) != (b < 0)
  {
    var qm := Abs(a) / Abs(b);
    DivNonNeg(Abs(a), Abs(b));
    if (a < 0) != (b < 0) {
      assert TruncDiv(a, b) == -qm;
    } else {
      assert TruncDiv(a, b) == qm;
    }
  }

  lemma DivNonNeg(x: nat, y: nat)
    requires y > 0
    ensures x / y >= 0
  {
  }

  /** `get_floor` of the engines: the truncated quotient, or nothing over a
      vacuum denominator. */
  function Quotient(num: int, den: int): (q: Option<int>)
    ensures q.None? <==> den == 0
    ensures q.Some? ==> den * q.value + TruncMod(num, den) == num
  {
    if den == 0 then None
    else
      DivisionLaw(num, den);
      Some(TruncDiv(num, den))
  }

  /** FastInteger.__mod__: the truncated remainder, or ZeroDivisionError. */
  function Mod(a: int, b: int): (r: Result<int>)
    ensures r.Failure? <==> b == 0
    ensures r.Success? ==> Abs(r.value) == Abs(a) % Abs(b)
    ensures r.Success? ==> (a >= 0 ==> r.value >= 0) && (a < 0 ==> r.value <= 0)
  {
    if Abs(b) == 0 then Failure(ZeroDivision) else Success(TruncMod(a, b))
  }

  /** `mass` is the magnitude. */
  function Mass(v: int): nat
  {
    Abs(v)
  }

  /** `is_vacuum` holds exactly for zero. */
  predicate IsVacuum(v: int)
  {
    v == 0
  }

  /** `len` of a FastInteger is always one, whatever its value. */
  function Len(v: int): nat
  {
    1
  }

  /** U(n): the non-negative constructor; ValueError below zero. */
  function U(n: int): (r: Result<int>)
    ensures r.Success? <==> n >= 0
    ensures r.Success? ==> r.value == n && Mass(r.value) == n
  {
    if n < 0 then Failure(InvalidValue) else Success(n)
  }

  /** S(n): the negative constructor; the magnitude must be non-negative. */
  function S(n: int): (r: Result<int>)
    ensures r.Success? <==> n >= 0
    ensures r.Success? ==> r.value == -n && Mass(r.value) == n
  {
    if n < 0 then Failure(InvalidValue) else Success(-n)
  }

  lemma MassVacuum(v: int)
    ensures IsVacuum(v) <==> Mass(v) == 0
    ensures Len(v) == 1
  {
  }

  /** S(7) / U(2) gives (-3, -1), where floor division would give (-4, 1). */
  lemma NegativeSevenByTwo()
    ensures Divide(-7, 2) == Success((-3, -1))
    ensures Mod(-5, 3) == Success(-2)
  {
  }
}
