/** Gaussian integers re + im·i over the truncating integer backend
    (core/complex_mode.py, with the near-duplicate src/complex_mode.py):
    ring operations, the norm, and division rounded to a nearest lattice
    point. */
module GaussianIntegers {
  import opened Wrappers
  import opened Science

  datatype Gaussian = Gaussian(re: int, im: int)

  /** `mass`: the sum of the component masses. */
  function Mass(z: Gaussian): (m: nat)
    ensures m >= Abs(z.re) && m >= Abs(z.im)
  {
    Abs(z.re) + Abs(z.im)
  }

  /** `is_vacuum`: mass zero. */
  predicate IsVacuum(z: Gaussian)
  {
    Mass(z) == 0
  }

  /** The vacuum is exactly zero. */
  lemma VacuumMeaning(z: Gaussian)
    ensures IsVacuum(z) <==> z == Gaussian(0, 0)
  {
  }

  /** `__len__` of the src variant reports the mass; the core variant has
      no length. */
  function Len(z: Gaussian): nat
  {
    Mass(z)
  }

  /** `norm_sq`: re² + im², zero exactly on the vacuum. */
  function NormSq(z: Gaussian): (n: int)
    ensures n >= 0
    ensures n == 0 <==> IsVacuum(z)
  {
    SquarePositive(z.re);
    SquarePositive(z.im);
    z.re * z.re + z.im * z.im
  }

  lemma SquarePositive(x: int)
    ensures x * x >= 0
    ensures x != 0 ==> x * x > 0
  {
    if x < 0 { SignedProducts(-x, -x); }
  }

  /** `_promote` of a plain integer n: n + 0i. */
  function Promote(n: int): Gaussian
  {
    Gaussian(n, 0)
  }

  function Add(a: Gaussian, b: Gaussian): Gaussian
  {
    Gaussian(a.re + b.re, a.im + b.im)
  }

  function Sub(a: Gaussian, b: Gaussian): Gaussian
  {
    Gaussian(a.re - b.re, a.im - b.im)
  }

  /** (a + bi)(c + di) = (ac - bd) + (ad + bc)i. */
  function Mul(a: Gaussian, b: Gaussian): Gaussian
  {
    Gaussian(a.re * b.re - a.im * b.im, a.re * b.im + a.im * b.re)
  }

  /** Subtraction undoes addition, and zero is neutral for both. */
  lemma AddSubInverse(a: Gaussian, b: Gaussian)
    ensures Sub(Add(a, b), b) == a && Add(Sub(a, b), b) == a
    ensures Add(a, Gaussian(0, 0)) == a && Sub(a, a) == Gaussian(0, 0)
  {
  }

  /** Multiplication commutes and the norm is multiplicative:
      N(ab) = N(a)·N(b). */
  lemma MulMeaning(a: Gaussian, b: Gaussian)
    ensures Mul(a, b) == Mul(b, a)
    ensures NormSq(Mul(a, b)) == NormSq(a) * NormSq(b)
  {
    TwoSquares(a.re, a.im, b.re, b.im);
  }

  /** The identity of two squares: (pu - qv)² + (pv + qu)² = (p² + q²)(u² + v²). */
  lemma TwoSquares(p: int, q: int, u: int, v: int)
    ensures (p * u - q * v) * (p * u - q * v) + (p * v + q * u) * (p * v + q * u)
      == (p * p + q * q) * (u * u + v * v)
  {
  }

  /** Mul on components, for evaluating products of literals. */
  lemma MulParts(p: int, q: int, u: int, v: int)
    ensures Mul(Gaussian(p, q), Gaussian(u, v)) == Gaussian(p * u - q * v, p * v + q * u)
  {
  }

  /** i·i = -1. */
  lemma ISquared()
    ensures Mul(Gaussian(0, 1), Gaussian(0, 1)) == Gaussian(-1, 0)
  {
    MulParts(0, 1, 0, 1);
  }

  /** (2 + 3i)(4 + 5i) = -7 + 22i. */
  lemma ProductExample()
    ensures Mul(Gaussian(2, 3), Gaussian(4, 5)) == Gaussian(-7, 22)
  {
    MulParts(2, 3, 4, 5);
  }

  /** (1 + i) + (1 - i) = 2 and (1 + i) - (1 - i) = 2i. */
  lemma SumExamples()
    ensures Add(Gaussian(1, 1), Gaussian(1, -1)) == Gaussian(2, 0)
    ensures Sub(Gaussian(1, 1), Gaussian(1, -1)) == Gaussian(0, 2)
  {
  }

  /** 1 + i has mass 2 and norm 2. */
  lemma MeasureExample()
    ensures Mass(Gaussian(1, 1)) == 2 && NormSq(Gaussian(1, 1)) == 2
  {
  }

  // ------------------------------------------------------------------ division

  /** Which rule `_div_nearest` uses to step away from zero: the shipped
      code steps by the sign of the truncated quotient, the intended rule by
      the sign of the exact quotient n/d. */
  datatype Rounding = AsWritten | Intended

  /** `_div_nearest(n, d)`: truncate, then step one unit away from zero
      when 2|r| > |d|. */
  function Nearest(n: int, d: int, mode: Rounding): int
    requires d != 0
  {
    var q := TruncDiv(n, d);
    var r := TruncMod(n, d);
    if 2 * Abs(r) > Abs(d) then
      match mode
      case AsWritten => if q >= 0 then q + 1 else q - 1
      case Intended => if (n < 0) == (d < 0) then q + 1 else q - 1
    else q
  }

  /** The intended rule lands on a nearest integer: |n - d·q| ≤ |d|/2. */
  lemma NearestIsNearest(n: int, d: int)
    requires d != 0
    ensures 2 * Abs(n - d * Nearest(n, d, Intended)) <= Abs(d)
  {
    var q := TruncDiv(n, d);
    var r := TruncMod(n, d);
    DivisionLaw(n, d);
    if 2 * Abs(r) > Abs(d) {
      if (n < 0) == (d < 0) {
        assert d * (q + 1) == d * q + d;
      } else {
        assert d * (q - 1) == d * q - d;
      }
    }
  }

  /** The two rules differ only when the truncated quotient is zero and the
      exact quotient is negative. */
  lemma NearestRulesAgree(n: int, d: int)
    requires d != 0
    requires TruncDiv(n, d) != 0 || (n < 0) == (d < 0) || n == 0
    ensures Nearest(n, d, AsWritten) == Nearest(n, d, Intended)
  {
    TruncDivSign(n, d);
    DivisionLaw(n, d);
  }

  /** `__truediv__`: multiply by the conjugate, round each component of
      a·conj(b) / N(b), and return (q, a - b·q); ZeroDivisionError when
      N(b) is vacuum. */
  function DivBy(a: Gaussian, b: Gaussian, mode: Rounding): (r: Result<(Gaussian, Gaussian)>)
    ensures r.Failure? <==> IsVacuum(b)
    ensures r.Failure? ==> r.error == ZeroDivision
    ensures r.Success? ==> Add(Mul(b, r.value.0), r.value.1) == a
  {
    if IsVacuum(b) then Failure(ZeroDivision)
    else
      var q := Quotient(a, b, mode);
      var m := Mul(b, q);
      AddBack(a, m);
      Success((q, Sub(a, m)))
  }

  /** The rounded quotient: each component of a·conj(b) divided by N(b). */
  function Quotient(a: Gaussian, b: Gaussian, mode: Rounding): Gaussian
    requires !IsVacuum(b)
  {
    var norm := NormSq(b);
    var conjIm := 0 - b.im;
    var nr := a.re * b.re - a.im * conjIm;
    var ni := a.re * conjIm + a.im * b.re;
    Gaussian(Nearest(nr, norm, mode), Nearest(ni, norm, mode))
  }

  /** Adding back what was subtracted. */
  lemma AddBack(a: Gaussian, m: Gaussian)
    ensures Add(m, Sub(a, m)) == a
  {
  }

  /** DivBy on components, for evaluating divisions of literals. */
  lemma DivParts(x: int, y: int, u: int, v: int, mode: Rounding, qr: int, qi: int, rr: int, ri: int)
    requires u * u + v * v != 0
    requires Nearest(x * u - y * (0 - v), u * u + v * v, mode) == qr
    requires Nearest(x * (0 - v) + y * u, u * u + v * v, mode) == qi
    requires rr == x - (u * qr - v * qi) && ri == y - (u * qi + v * qr)
    ensures DivBy(Gaussian(x, y), Gaussian(u, v), mode) == Success((Gaussian(qr, qi), Gaussian(rr, ri)))
  {
    var a, b := Gaussian(x, y), Gaussian(u, v);
    assert NormSq(b) == u * u + v * v;
    assert !IsVacuum(b);
    assert Quotient(a, b, mode) == Gaussian(qr, qi);
    MulParts(u, v, qr, qi);
    assert Sub(a, Mul(b, Gaussian(qr, qi))) == Gaussian(rr, ri);
  }

  /** The division both files ship. */
  function DivAsWritten(a: Gaussian, b: Gaussian): Result<(Gaussian, Gaussian)>
  {
    DivBy(a, b, AsWritten)
  }

  /** The division with the intended rounding, used by the Euclid expansion
      below. */
  function Div(a: Gaussian, b: Gaussian): Result<(Gaussian, Gaussian)>
  {
    DivBy(a, b, Intended)
  }

  /** The Hurwitz bound the division promises: N(r) ≤ N(b)/2, so the
      remainder is strictly smaller than the divisor. */
  lemma DivHurwitz(a: Gaussian, b: Gaussian)
    requires !IsVacuum(b)
    ensures var (q, r) := Div(a, b).value;
      2 * NormSq(r) <= NormSq(b) && NormSq(r) < NormSq(b)
  {
    var (q, r) := Div(a, b).value;
    var n := NormSq(b);
    NearestIsNearest(a.re * b.re - a.im * (0 - b.im), n);
    NearestIsNearest(a.re * (0 - b.im) + a.im * b.re, n);
    MulParts(b.re, b.im, q.re, q.im);
    HurwitzCore(a.re, a.im, b.re, b.im, q.re, q.im);
  }

  /** The bound on components: each rounded coordinate of a·conj(b) is
      within N(b)/2 of the exact one, so r = a - b·q has 2·N(r) ≤ N(b). */
  lemma HurwitzCore(x: int, y: int, u: int, v: int, qr: int, qi: int)
    requires u * u + v * v > 0
    requires 2 * Abs((x * u - y * (0 - v)) - (u * u + v * v) * qr) <= u * u + v * v
    requires 2 * Abs((x * (0 - v) + y * u) - (u * u + v * v) * qi) <= u * u + v * v
    ensures var rr, ri := x - (u * qr - v * qi), y - (u * qi + v * qr);
      2 * (rr * rr + ri * ri) <= u * u + v * v
  {
    var n := u * u + v * v;
    var rr, ri := x - (u * qr - v * qi), y - (u * qi + v * qr);
    var er := (x * u - y * (0 - v)) - n * qr;
    var ei := (x * (0 - v) + y * u) - n * qi;
    ConjugateRemainder(x, y, u, v, qr, qi, rr, ri);
    NormTimes(rr, ri, u, v);
    var nr := rr * rr + ri * ri;
    assert nr * n == er * er + ei * ei;
    HalfSquare(er, n);
    HalfSquare(ei, n);
    assert (2 * nr) * n <= n * n;
    CancelPositive(2 * nr, n, n);
  }

  /** r·conj(b) = a·conj(b) - N(b)·q, written out on components. */
  lemma ConjugateRemainder(x: int, y: int, u: int, v: int, qr: int, qi: int, rr: int, ri: int)
    requires rr == x - (u * qr - v * qi) && ri == y - (u * qi + v * qr)
    ensures rr * u + ri * v == (x * u - y * (0 - v)) - (u * u + v * v) * qr
    ensures ri * u - rr * v == (x * (0 - v) + y * u) - (u * u + v * v) * qi
  {
  }

  /** N(r)·N(b) = |r·conj(b)|², on components. */
  lemma NormTimes(p: int, q: int, u: int, v: int)
    ensures (p * p + q * q) * (u * u + v * v)
      == (p * u + q * v) * (p * u + q * v) + (q * u - p * v) * (q * u - p * v)
  {
  }

  lemma HalfSquare(e: int, n: int)
    requires 2 * Abs(e) <= n
    ensures 4 * (e * e) <= n * n
  {
    var m := Abs(e);
    assert e * e == m * m by { if e < 0 { SignedProducts(m, m); } }
    assert (2 * m) * (2 * m) <= n * n by { SquareMonotone(2 * m, n); }
  }

  lemma SquareMonotone(a: nat, b: nat)
    requires a <= b
    ensures a * a <= b * b
  {
    assert a * a <= a * b <= b * b;
  }

  lemma CancelPositive(a: int, b: int, n: int)
    requires n > 0 && a * n <= b * n
    ensures a <= b
  {
  }

  /** The shipped rounding breaks the bound: 3 divided by 4i has exact
      quotient -0.75i, which the truncate-then-step rule rounds up to i,
      leaving remainder 7 of norm 49 > 16. */
  lemma DivAsWrittenOvershoots()
    ensures DivAsWritten(Gaussian(3, 0), Gaussian(0, 4)) == Success((Gaussian(0, 1), Gaussian(7, 0)))
    ensures NormSq(Gaussian(7, 0)) > NormSq(Gaussian(0, 4))
  {
    assert TruncDiv(0, 16) == 0 && TruncMod(0, 16) == 0;
    assert TruncDiv(-12, 16) == 0 && TruncMod(-12, 16) == -12;
    assert Nearest(0, 16, AsWritten) == 0;
    assert Nearest(-12, 16, AsWritten) == 1;
    DivParts(3, 0, 0, 4, AsWritten, 0, 1, 7, 0);
  }

  /** 2/(1+i) = 1-i. */
  lemma DivTwoByOnePlusI()
    ensures Div(Gaussian(2, 0), Gaussian(1, 1)) == Success((Gaussian(1, -1), Gaussian(0, 0)))
  {
    assert TruncDiv(2, 2) == 1 && TruncMod(2, 2) == 0 && TruncDiv(-2, 2) == -1 && TruncMod(-2, 2) == 0;
    DivParts(2, 0, 1, 1, Intended, 1, -1, 0, 0);
  }

  /** (1+i)/(1-i) = i. */
  lemma DivOnePlusIByOneMinusI()
    ensures Div(Gaussian(1, 1), Gaussian(1, -1)) == Success((Gaussian(0, 1), Gaussian(0, 0)))
  {
    assert TruncDiv(0, 2) == 0 && TruncMod(0, 2) == 0 && TruncDiv(2, 2) == 1 && TruncMod(2, 2) == 0;
    DivParts(1, 1, 1, -1, Intended, 0, 1, 0, 0);
  }

  /** 5/2 = 2 remainder 1. */
  lemma DivFiveByTwo()
    ensures Div(Gaussian(5, 0), Gaussian(2, 0)) == Success((Gaussian(2, 0), Gaussian(1, 0)))
  {
    assert TruncDiv(10, 4) == 2 && TruncMod(10, 4) == 2 && TruncDiv(0, 4) == 0 && TruncMod(0, 4) == 0;
    DivParts(5, 0, 2, 0, Intended, 2, 0, 1, 0);
  }

  /** 10/(3+i) = 3-i. */
  lemma DivTenByThreePlusI()
    ensures Div(Gaussian(10, 0), Gaussian(3, 1)) == Success((Gaussian(3, -1), Gaussian(0, 0)))
  {
    assert TruncDiv(30, 10) == 3 && TruncMod(30, 10) == 0 && TruncDiv(-10, 10) == -1 && TruncMod(-10, 10) == 0;
    DivParts(10, 0, 3, 1, Intended, 3, -1, 0, 0);
  }

  /** (5+2i)/(2+i) = 2 remainder 1. */
  lemma DivFivePlusTwoI()
    ensures Div(Gaussian(5, 2), Gaussian(2, 1)) == Success((Gaussian(2, 0), Gaussian(1, 0)))
  {
    assert TruncDiv(12, 5) == 2 && TruncMod(12, 5) == 2 && TruncDiv(-1, 5) == 0 && TruncMod(-1, 5) == -1;
    DivParts(5, 2, 2, 1, Intended, 2, 0, 1, 0);
  }

  /** Division by one is exact. */
  lemma DivByOne(a: Gaussian)
    ensures Div(a, Gaussian(1, 0)) == Success((a, Gaussian(0, 0)))
  {
    assert TruncDiv(a.re, 1) == a.re && TruncMod(a.re, 1) == 0;
    assert TruncDiv(a.im, 1) == a.im && TruncMod(a.im, 1) == 0;
    DivParts(a.re, a.im, 1, 0, Intended, a.re, a.im, 0, 0);
  }

  // ------------------------------------------------------------------ equality

  /** Core `__eq__` against a plain integer: a vacuum imaginary part and an
      equal real part. */
  predicate EqualsIntCore(z: Gaussian, n: int)
  {
    IsVacuum(Gaussian(0, z.im)) && z.re == n
  }

  /** The older `__eq__` variant: promote the integer, then compare componentwise. */
  predicate EqualsIntLegacy(z: Gaussian, n: int)
  {
    z == Promote(n)
  }

  /** Both equality rules agree on integers. */
  lemma EqualityVariantsAgree(z: Gaussian, n: int)
    ensures EqualsIntCore(z, n) <==> EqualsIntLegacy(z, n)
    ensures EqualsIntCore(z, n) <==> z == Gaussian(n, 0)
  {
  }
}
