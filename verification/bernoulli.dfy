/** Exact-rational Bernoulli numbers of constants/bernoulli.py: fractions
    num/den over the integer backend, reduced by their gcd after every
    operation, and the Akiyama–Tanigawa triangle that turns the row
    1, 1/2, …, 1/(k+1) into B_k. */
module Bernoulli {
  import opened Wrappers
  import opened Science

  /** A `RationalState`: numerator and denominator as backend integers. */
  datatype Rational = Rational(num: int, den: int)

  /** The rational number a fraction with a non-vacuum denominator denotes. */
  function Value(r: Rational): real
    requires r.den != 0
  {
    r.num as real / r.den as real
  }

  // ---------------------------------------------------------------- gcd

  /** `math.gcd` on the magnitudes, by Euclid's algorithm. */
  function Gcd(a: nat, b: nat): (g: nat)
    ensures g == 0 <==> a == 0 && b == 0
    decreases b
  {
    if b == 0 then a else Gcd(b, a % b)
  }

  /** The gcd divides both arguments; the cofactors are returned. */
  lemma {:induction false} GcdDivides(a: nat, b: nat) returns (p: nat, q: nat)
    ensures a == Gcd(a, b) * p && b == Gcd(a, b) * q
    decreases b
  {
    if b == 0 {
      p, q := 1, 0;
    } else {
      var k, r := a / b, a % b;
      assert a == b * k + r;
      var p1, q1 := GcdDivides(b, r);
      var g := Gcd(b, r);
      assert Gcd(a, b) == g;
      Recombine(a, b, k, r, g, p1, q1);
      p, q := p1 * k + q1, p1;
    }
  }

  lemma Recombine(a: int, b: int, k: int, r: int, g: int, p1: int, q1: int)
    requires a == b * k + r && b == g * p1 && r == g * q1
    ensures a == g * (p1 * k + q1)
  {
    assert b * k == g * (p1 * k);
  }

  /** Every common divisor c of a and b divides their gcd. */
  lemma {:induction false} GcdGreatest(a: nat, b: nat, c: nat, x: nat, y: nat) returns (z: nat)
    requires a == c * x && b == c * y
    ensures Gcd(a, b) == c * z
    decreases b
  {
    if b == 0 {
      z := x;
    } else {
      var k := a / b;
      var w := Remainder(a, b, k, a % b, c, x, y);
      z := GcdGreatest(b, a % b, c, y, w);
    }
  }

  /** The remainder a − b·k of two multiples of c is a multiple of c. */
  lemma Remainder(a: nat, b: nat, k: int, r: nat, c: nat, x: nat, y: nat) returns (w: nat)
    requires b > 0 && a == b * k + r && a == c * x && b == c * y
    ensures r == c * w
  {
    assert b * k == c * (y * k);
    assert r == c * (x - y * k);
    NonNegativeFactor(c, x - y * k, r);
    w := x - y * k;
  }

  lemma NonNegativeFactor(c: int, w: int, r: int)
    requires c > 0 && r == c * w && r >= 0
    ensures w >= 0
  {
  }

  /** gcd(1, n) is 1: the fractions 1/(m+1) are already reduced. */
  lemma GcdOne(n: nat)
    requires n >= 1
    ensures Gcd(1, n) == 1
  {
    if n > 1 {
      assert 1 % n == 1;
      assert Gcd(1, n) == Gcd(n, 1);
    }
  }

  // ---------------------------------------------------------------- simplify

  /** The gcd `simplify` computes for a fraction. */
  function Common(r: Rational): nat
  {
    Gcd(Abs(r.num), Abs(r.den))
  }

  /** `simplify`: unchanged when the gcd is at most 1, otherwise both parts
      divided by it with the backend's division. The gcd divides both, so
      the division is exact. */
  function Simplify(r: Rational): (s: Rational)
    ensures Common(r) <= 1 ==> s == r
    ensures Common(r) > 1 ==> s.num * Common(r) == r.num && s.den * Common(r) == r.den
  {
    var g := Common(r);
    if g <= 1 then r
    else
      ExactQuotient(r.num, Abs(r.num), Abs(r.den), g);
      ExactQuotient(r.den, Abs(r.den), Abs(r.num), g);
      Rational(Divide(r.num, g).value.0, Divide(r.den, g).value.0)
  }

  /** Dividing by a divisor of the magnitude is exact. */
  lemma ExactQuotient(a: int, m: nat, other: nat, g: nat)
    requires m == Abs(a) && g > 1 && (g == Gcd(m, other) || g == Gcd(other, m))
    ensures Divide(a, g).Success? && Divide(a, g).value.0 * g == a
  {
    var p: nat;
    if g == Gcd(m, other) {
      var p1, q1 := GcdDivides(m, other);
      p := p1;
    } else {
      var p1, q1 := GcdDivides(other, m);
      p := q1;
    }
    ExactDivision(a, g, p);
  }

  lemma ExactDivision(a: int, g: int, p: int)
    requires g > 0 && Abs(a) == g * p
    ensures TruncDiv(a, g) * g == a
  {
    if a >= 0 {
      DivisionUnique(a, g, p, 0);
    } else {
      SignedProducts(g, p);
      DivisionUnique(a, g, -p, 0);
    }
  }

  /** The reduced fraction is in lowest terms. */
  lemma SimplifyReduces(r: Rational)
    ensures Common(Simplify(r)) <= 1
  {
    var g := Common(r);
    if g > 1 {
      var s := Simplify(r);
      var h := Common(s);
      var p, q := GcdDivides(Abs(s.num), Abs(s.den));
      assert Abs(r.num) == g * (h * p) by { AbsScale(s.num, g, r.num); }
      assert Abs(r.den) == g * (h * q) by { AbsScale(s.den, g, r.den); }
      Associate(g, h, p);
      Associate(g, h, q);
      var z := GcdGreatest(Abs(r.num), Abs(r.den), g * h, p, q);
      UnitFactor(g, h, z);
    }
  }

  lemma Associate(a: int, b: int, c: int)
    ensures a * (b * c) == (a * b) * c
  {
  }

  lemma AbsScale(x: int, g: nat, y: int)
    requires g > 0 && x * g == y
    ensures Abs(y) == g * Abs(x)
  {
    if x < 0 {
      assert y == -(g * -x);
    }
  }

  lemma UnitFactor(g: nat, h: nat, z: nat)
    requires g > 1 && g == g * h * z
    ensures h <= 1
  {
    assert g * (h * z) == g * 1;
    assert h * z == 1;
  }

  /** Simplifying twice is simplifying once. */
  lemma SimplifyIdempotent(r: Rational)
    ensures Simplify(Simplify(r)) == Simplify(r)
  {
    SimplifyReduces(r);
  }

  /** Simplifying keeps the denominator's sign and the rational value. */
  lemma SimplifyValue(r: Rational)
    requires r.den > 0
    ensures Simplify(r).den > 0 && Value(Simplify(r)) == Value(r)
  {
    var g := Common(r);
    if g > 1 {
      var s := Simplify(r);
      NonNegativeFactor(g, s.den, r.den);
      assert s.den != 0;
      CancelReal(s.num, s.den, g);
    }
  }

  lemma CancelReal(a: int, b: int, g: int)
    requires b != 0 && g != 0
    ensures (a * g) as real / (b * g) as real == a as real / b as real
  {
    CastMul(a, g);
    CastMul(b, g);
    var x := a as real / b as real;
    assert a as real == x * b as real;
    assert (a as real) * (g as real) == x * ((b as real) * (g as real));
  }

  lemma CastMul(a: int, b: int)
    ensures (a * b) as real == (a as real) * (b as real)
  {
  }

  // ---------------------------------------------------------------- arithmetic

  /** `__sub__`: (a·d − b·c)/(b·d), simplified. */
  function Sub(x: Rational, y: Rational): Rational
  {
    Simplify(Rational(x.num * y.den - x.den * y.num, x.den * y.den))
  }

  /** `__mul__`: (a·c)/(b·d), simplified. */
  function Mul(x: Rational, y: Rational): Rational
  {
    Simplify(Rational(x.num * y.num, x.den * y.den))
  }

  /** Subtraction is exact rational subtraction. */
  lemma SubValue(x: Rational, y: Rational)
    requires x.den > 0 && y.den > 0
    ensures Sub(x, y).den > 0 && Value(Sub(x, y)) == Value(x) - Value(y)
  {
    var t := Rational(x.num * y.den - x.den * y.num, x.den * y.den);
    RawDifference(x, y);
    SimplifyValue(t);
  }

  lemma RawDifference(x: Rational, y: Rational)
    requires x.den > 0 && y.den > 0
    ensures x.den * y.den > 0
    ensures Value(Rational(x.num * y.den - x.den * y.num, x.den * y.den)) == Value(x) - Value(y)
  {
    PositiveProduct(x.den, y.den);
    CastMul(x.num, y.den);
    CastMul(x.den, y.num);
    CastMul(x.den, y.den);
    var a, b := x.num as real, x.den as real;
    var c, d := y.num as real, y.den as real;
    RealDifference(a, b, c, d);
  }

  lemma RealDifference(a: real, b: real, c: real, d: real)
    requires b > 0.0 && d > 0.0
    ensures (a * d - b * c) / (b * d) == a / b - c / d
  {
    var u, v := a / b, c / d;
    assert a == u * b && c == v * d;
    assert a * d - b * c == (u - v) * (b * d);
  }

  /** Multiplication is exact rational multiplication. */
  lemma MulValue(x: Rational, y: Rational)
    requires x.den > 0 && y.den > 0
    ensures Mul(x, y).den > 0 && Value(Mul(x, y)) == Value(x) * Value(y)
  {
    var t := Rational(x.num * y.num, x.den * y.den);
    RawProduct(x, y);
    SimplifyValue(t);
  }

  lemma RawProduct(x: Rational, y: Rational)
    requires x.den > 0 && y.den > 0
    ensures x.den * y.den > 0
    ensures Value(Rational(x.num * y.num, x.den * y.den)) == Value(x) * Value(y)
  {
    PositiveProduct(x.den, y.den);
    CastMul(x.num, y.num);
    CastMul(x.den, y.den);
    RealProduct(x.num as real, x.den as real, y.num as real, y.den as real);
  }

  lemma RealProduct(a: real, b: real, c: real, d: real)
    requires b > 0.0 && d > 0.0
    ensures (a * c) / (b * d) == (a / b) * (c / d)
  {
    var u, v := a / b, c / d;
    assert a == u * b && c == v * d;
    assert a * c == (u * v) * (b * d);
  }

  lemma PositiveProduct(a: int, b: int)
    requires a > 0 && b > 0
    ensures a * b > 0
  {
  }

  // ---------------------------------------------------------------- the triangle

  /** Every fraction of the row has a positive denominator. */
  predicate PositiveDens(row: seq<Rational>)
  {
    forall i :: 0 <= i < |row| ==> row[i].den > 0
  }

  /** The values of a row of fractions with positive denominators. */
  function Values(row: seq<Rational>): (vs: seq<real>)
    requires PositiveDens(row)
    ensures |vs| == |row| && forall i :: 0 <= i < |row| ==> vs[i] == Value(row[i])
  {
    seq(|row|, i requires 0 <= i < |row| => Value(row[i]))
  }

  /** The 0-th row for B_k: 1/(m + 1) for m = 0..k, each simplified. */
  function FirstRow(k: nat): (row: seq<Rational>)
    ensures |row| == k + 1
  {
    seq(k + 1, m requires 0 <= m <= k => Simplify(Rational(1, m + 1)))
  }

  /** One pass of the recurrence a_j ← (j + 1)·(a_j − a_{j+1}). */
  function Reduce(row: seq<Rational>): (next: seq<Rational>)
    requires |row| >= 1
    ensures |next| == |row| - 1
  {
    seq(|row| - 1, j requires 0 <= j < |row| - 1 => Cell(row[j], row[j + 1], j + 1))
  }

  /** One cell of a pass: n·(a − b), each step simplified. */
  function Cell(a: Rational, b: Rational, n: nat): Rational
  {
    Mul(Rational(n, 1), Sub(a, b))
  }

  /** The row after `depth` passes. */
  function Reduced(row: seq<Rational>, depth: nat): (r: seq<Rational>)
    requires |row| > depth
    ensures |r| == |row| - depth
    decreases depth
  {
    if depth == 0 then row else Reduce(Reduced(row, depth - 1))
  }

  /** The k-th value the generator yields: 1/1 first, then the head of the
      row 1, 1/2, …, 1/(k+1) after k passes. */
  function BernoulliNumber(k: nat): Rational
  {
    if k == 0 then Rational(1, 1) else Reduced(FirstRow(k), k)[0]
  }

  // ---------------------------------------------------------------- over ℚ

  /** The same triangle computed with exact rationals (Dafny `real`). */
  function RealRow(k: nat): (xs: seq<real>)
    ensures |xs| == k + 1
  {
    seq(k + 1, m requires 0 <= m <= k => 1.0 / (m + 1) as real)
  }

  function RealReduce(xs: seq<real>): (ys: seq<real>)
    requires |xs| >= 1
    ensures |ys| == |xs| - 1
    ensures forall j :: 0 <= j < |ys| ==> ys[j] == (j + 1) as real * (xs[j] - xs[j + 1])
  {
    seq(|xs| - 1, j requires 0 <= j < |xs| - 1 => (j + 1) as real * (xs[j] - xs[j + 1]))
  }

  function RealReduced(xs: seq<real>, depth: nat): (ys: seq<real>)
    requires |xs| > depth
    ensures |ys| == |xs| - depth
    decreases depth
  {
    if depth == 0 then xs else RealReduce(RealReduced(xs, depth - 1))
  }

  /** The Akiyama–Tanigawa value B_k over the rationals. */
  function AkiyamaTanigawa(k: nat): real
  {
    if k == 0 then 1.0 else RealReduced(RealRow(k), k)[0]
  }

  /** The first row is 1/(m + 1) unchanged by simplification. */
  lemma FirstRowValues(k: nat)
    ensures PositiveDens(FirstRow(k)) && Values(FirstRow(k)) == RealRow(k)
    ensures forall m :: 0 <= m <= k ==> FirstRow(k)[m] == Rational(1, m + 1)
  {
    forall m | 0 <= m <= k
      ensures FirstRow(k)[m] == Rational(1, m + 1)
    {
      GcdOne(m + 1);
    }
  }

  /** One pass over fractions is one pass over their values. */
  lemma ReduceValues(row: seq<Rational>)
    requires |row| >= 1 && PositiveDens(row)
    ensures PositiveDens(Reduce(row)) && Values(Reduce(row)) == RealReduce(Values(row))
  {
    var next := Reduce(row);
    var vs := Values(row);
    forall j | 0 <= j < |row| - 1
      ensures next[j].den > 0 && Value(next[j]) == RealReduce(vs)[j]
    {
      assert next[j] == Cell(row[j], row[j + 1], j + 1);
      CellEntry(row, j);
    }
  }

  /** Entry j of a pass: (j + 1)·(a_j − a_{j+1}) over the rationals. */
  lemma CellEntry(row: seq<Rational>, j: nat)
    requires j + 1 < |row| && PositiveDens(row)
    ensures Cell(row[j], row[j + 1], j + 1).den > 0
    ensures Value(Cell(row[j], row[j + 1], j + 1)) == RealReduce(Values(row))[j]
  {
    var vs := Values(row);
    RealAt(vs, j);
    ScaledDifference(row[j], row[j + 1], j + 1, vs[j], vs[j + 1], RealReduce(vs)[j]);
  }

  lemma RealAt(xs: seq<real>, j: nat)
    requires j + 1 < |xs|
    ensures RealReduce(xs)[j] == (j + 1) as real * (xs[j] - xs[j + 1])
  {
  }

  /** One cell of the reduction: n times the difference of two fractions. */
  lemma ScaledDifference(a: Rational, b: Rational, n: nat, x: real, y: real, e: real)
    requires a.den > 0 && b.den > 0 && x == Value(a) && y == Value(b) && e == n as real * (x - y)
    ensures Cell(a, b, n).den > 0
    ensures Value(Cell(a, b, n)) == e
  {
    var d := Sub(a, b);
    var f := Rational(n, 1);
    SubValue(a, b);
    MulValue(f, d);
    calc {
      Value(Cell(a, b, n));
      Value(Mul(f, d));
      Value(f) * Value(d);
      { assert Value(f) == n as real; }
      n as real * (x - y);
    }
  }

  lemma {:induction false} ReducedValues(row: seq<Rational>, depth: nat)
    requires |row| > depth && PositiveDens(row)
    ensures PositiveDens(Reduced(row, depth))
    ensures Values(Reduced(row, depth)) == RealReduced(Values(row), depth)
    decreases depth
  {
    if depth > 0 {
      var prev := Reduced(row, depth - 1);
      ReducedValues(row, depth - 1);
      ReduceValues(prev);
      SameReduce(Values(prev), RealReduced(Values(row), depth - 1));
      SameRow(Reduced(row, depth), Reduce(prev));
    }
  }

  /** Equal rows have equal values. Stated apart so that the equalities in
      `ReducedValues` are used at these two terms only, which keeps that
      inductive step cheap. */
  lemma SameRow(xs: seq<Rational>, ys: seq<Rational>)
    requires xs == ys && PositiveDens(ys)
    ensures PositiveDens(xs) && Values(xs) == Values(ys)
  {
  }

  lemma SameReduce(xs: seq<real>, ys: seq<real>)
    requires |xs| >= 1 && xs == ys
    ensures RealReduce(xs) == RealReduce(ys)
  {
  }

  /** Every yielded fraction has a positive denominator and is the
      Akiyama–Tanigawa value over the rationals. */
  lemma BernoulliValue(k: nat)
    ensures BernoulliNumber(k).den > 0
    ensures Value(BernoulliNumber(k)) == AkiyamaTanigawa(k)
  {
    if k > 0 {
      FirstRowValues(k);
      ReducedValues(FirstRow(k), k);
    }
  }

  // ---------------------------------------------------------------- one triangle for all k

  /** A pass over a prefix of a row is the prefix of the pass. */
  lemma ReducePrefix(row: seq<Rational>, m: nat)
    requires 1 <= m <= |row|
    ensures Reduce(row[..m]) == Reduce(row)[..m - 1]
  {
    var short := row[..m];
    forall j | 0 <= j < m - 1
      ensures Reduce(short)[j] == Reduce(row)[j]
    {
      assert short[j] == row[j] && short[j + 1] == row[j + 1];
    }
  }

  /** `depth` passes over a prefix of a row are a prefix of the passes. */
  lemma {:induction false} ReducedPrefix(row: seq<Rational>, m: nat, depth: nat)
    requires depth < m <= |row|
    ensures Reduced(row[..m], depth) == Reduced(row, depth)[..m - depth]
    decreases depth
  {
    if depth == 0 {
      assert Reduced(row, 0)[..m] == row[..m];
    } else {
      var long := Reduced(row, depth - 1);
      ReducedPrefix(row, m, depth - 1);
      ReducePrefix(long, m - depth + 1);
    }
  }

  /** The first row for k is the first k + 1 entries of the first row for
      any larger K. */
  lemma FirstRowPrefix(k: nat, big: nat)
    requires k <= big
    ensures FirstRow(big)[..k + 1] == FirstRow(k)
  {
  }

  /** B_k is the head of the k-th row of the triangle built for any K ≥ k:
      the generator's per-k triangles are nested. */
  lemma NestedTriangles(k: nat, big: nat)
    requires 1 <= k <= big
    ensures BernoulliNumber(k) == Reduced(FirstRow(big), k)[0]
  {
    FirstRowPrefix(k, big);
    PrefixHead(FirstRow(big), FirstRow(k), k);
  }

  /** Passes over a prefix agree with passes over the whole row at the head. */
  lemma PrefixHead(row: seq<Rational>, short: seq<Rational>, depth: nat)
    requires depth < |row| && row[..depth + 1] == short
    ensures Reduced(short, depth)[0] == Reduced(row, depth)[0]
  {
    ReducedPrefix(row, depth + 1, depth);
  }

  // ---------------------------------------------------------------- examples

  /** The generator's first yield is 1/1. */
  lemma FirstYield()
    ensures BernoulliNumber(0) == Rational(1, 1)
  {
  }


  /** A fraction whose parts are those of r divided by its gcd g is what
      `simplify` returns. */
  lemma SimplifiedTo(r: Rational, g: nat, s: Rational)
    requires g > 0 && Common(r) == g && s.num * g == r.num && s.den * g == r.den
    ensures Simplify(r) == s
  {
    if g > 1 {
      var t := Simplify(r);
      Cancel(t.num, s.num, g);
      Cancel(t.den, s.den, g);
    }
  }

  lemma Cancel(x: int, y: int, g: int)
    requires g > 0 && x * g == y * g
    ensures x == y
  {
    if x != y {
      assert g * (x - y) == x * g - y * g;
      MulLowerBound(g, x - y);
    }
  }

  /** A cell n·(a − b) computed through its unreduced difference and product. */
  lemma CellIs(a: Rational, b: Rational, n: nat, d: Rational, gd: nat, c: Rational, gc: nat)
    requires gd > 0 && Common(Rational(a.num * b.den - a.den * b.num, a.den * b.den)) == gd
    requires d.num * gd == a.num * b.den - a.den * b.num && d.den * gd == a.den * b.den
    requires gc > 0 && Common(Rational(n * d.num, d.den)) == gc
    requires c.num * gc == n * d.num && c.den * gc == d.den
    ensures Sub(a, b) == d && Cell(a, b, n) == c
  {
    SimplifiedTo(Rational(a.num * b.den - a.den * b.num, a.den * b.den), gd, d);
    assert Rational(n, 1).num * d.num == n * d.num;
    SimplifiedTo(Rational(n * d.num, 1 * d.den), gc, c);
  }

  /** The cells of the k = 4 triangle, pass by pass. */
  lemma FirstPassCells()
    ensures Cell(Rational(1, 1), Rational(1, 2), 1) == Rational(1, 2)
    ensures Cell(Rational(1, 2), Rational(1, 3), 2) == Rational(1, 3)
    ensures Cell(Rational(1, 3), Rational(1, 4), 3) == Rational(1, 4)
    ensures Cell(Rational(1, 4), Rational(1, 5), 4) == Rational(1, 5)
  {
    CellIs(Rational(1, 1), Rational(1, 2), 1, Rational(1, 2), 1, Rational(1, 2), 1);
    CellIs(Rational(1, 2), Rational(1, 3), 2, Rational(1, 6), 1, Rational(1, 3), 2);
    CellIs(Rational(1, 3), Rational(1, 4), 3, Rational(1, 12), 1, Rational(1, 4), 3);
    CellIs(Rational(1, 4), Rational(1, 5), 4, Rational(1, 20), 1, Rational(1, 5), 4);
  }

  lemma SecondPassCells()
    ensures Cell(Rational(1, 2), Rational(1, 3), 1) == Rational(1, 6)
    ensures Cell(Rational(1, 3), Rational(1, 4), 2) == Rational(1, 6)
    ensures Cell(Rational(1, 4), Rational(1, 5), 3) == Rational(3, 20)
  {
    CellIs(Rational(1, 2), Rational(1, 3), 1, Rational(1, 6), 1, Rational(1, 6), 1);
    CellIs(Rational(1, 3), Rational(1, 4), 2, Rational(1, 12), 1, Rational(1, 6), 2);
    CellIs(Rational(1, 4), Rational(1, 5), 3, Rational(1, 20), 1, Rational(3, 20), 1);
  }

  /** 1/6 − 1/6 is 0/36 before reduction by the gcd 36. */
  lemma ThirdPassCells()
    ensures Sub(Rational(1, 6), Rational(1, 6)) == Rational(0, 1)
    ensures Cell(Rational(1, 6), Rational(1, 6), 1) == Rational(0, 1)
    ensures Cell(Rational(1, 6), Rational(3, 20), 2) == Rational(1, 30)
  {
    CellIs(Rational(1, 6), Rational(1, 6), 1, Rational(0, 1), 36, Rational(0, 1), 1);
    assert Gcd(2, 120) == 2 && Gcd(2, 60) == 2;
    CellIs(Rational(1, 6), Rational(3, 20), 2, Rational(1, 60), 2, Rational(1, 30), 2);
  }

  lemma FourthPassCells()
    ensures Cell(Rational(0, 1), Rational(1, 30), 1) == Rational(-1, 30)
  {
    CellIs(Rational(0, 1), Rational(1, 30), 1, Rational(-1, 30), 1, Rational(-1, 30), 1);
  }

  /** One pass over a row of two to five fractions, cell by cell. */
  lemma PassOf(row: seq<Rational>, next: seq<Rational>)
    requires 2 <= |row| && |next| == |row| - 1
    requires forall j :: 0 <= j < |next| ==> Cell(row[j], row[j + 1], j + 1) == next[j]
    ensures Reduce(row) == next
  {
  }

  /** The k = 4 triangle, pass by pass. */
  lemma FirstPass()
    ensures Reduce([Rational(1, 1), Rational(1, 2), Rational(1, 3), Rational(1, 4), Rational(1, 5)])
         == [Rational(1, 2), Rational(1, 3), Rational(1, 4), Rational(1, 5)]
  {
    FirstPassCells();
    PassOf([Rational(1, 1), Rational(1, 2), Rational(1, 3), Rational(1, 4), Rational(1, 5)],
           [Rational(1, 2), Rational(1, 3), Rational(1, 4), Rational(1, 5)]);
  }

  lemma SecondPass()
    ensures Reduce([Rational(1, 2), Rational(1, 3), Rational(1, 4), Rational(1, 5)])
         == [Rational(1, 6), Rational(1, 6), Rational(3, 20)]
  {
    SecondPassCells();
    PassOf([Rational(1, 2), Rational(1, 3), Rational(1, 4), Rational(1, 5)],
           [Rational(1, 6), Rational(1, 6), Rational(3, 20)]);
  }

  lemma ThirdPass()
    ensures Reduce([Rational(1, 6), Rational(1, 6), Rational(3, 20)]) == [Rational(0, 1), Rational(1, 30)]
  {
    ThirdPassCells();
    PassOf([Rational(1, 6), Rational(1, 6), Rational(3, 20)], [Rational(0, 1), Rational(1, 30)]);
  }

  lemma FourthPass()
    ensures Reduce([Rational(0, 1), Rational(1, 30)]) == [Rational(-1, 30)]
  {
    FourthPassCells();
    PassOf([Rational(0, 1), Rational(1, 30)], [Rational(-1, 30)]);
  }

  /** The rows of the k = 4 triangle. */
  lemma Triangle()
    ensures Reduced(FirstRow(4), 1) == [Rational(1, 2), Rational(1, 3), Rational(1, 4), Rational(1, 5)]
    ensures Reduced(FirstRow(4), 2) == [Rational(1, 6), Rational(1, 6), Rational(3, 20)]
    ensures Reduced(FirstRow(4), 3) == [Rational(0, 1), Rational(1, 30)]
    ensures Reduced(FirstRow(4), 4) == [Rational(-1, 30)]
  {
    FirstRowValues(4);
    var row0 := FirstRow(4);
    assert row0 == [Rational(1, 1), Rational(1, 2), Rational(1, 3), Rational(1, 4), Rational(1, 5)];
    FirstPass();
    SecondPass();
    ThirdPass();
    FourthPass();
  }

  /** The generator's second to fifth yields: 1/2, 1/6, 0/1 and −1/30.
      B_3 = 0 comes out as 0/1 because 1/6 − 1/6 = 0/36 is reduced by
      the gcd 36; B_4 carries its sign in the numerator. */
  lemma FirstYields()
    ensures BernoulliNumber(1) == Rational(1, 2)
    ensures BernoulliNumber(2) == Rational(1, 6)
    ensures BernoulliNumber(3) == Rational(0, 1)
    ensures BernoulliNumber(4) == Rational(-1, 30)
  {
    Triangle();
    NestedTriangles(1, 4);
    NestedTriangles(2, 4);
    NestedTriangles(3, 4);
    NestedTriangles(4, 4);
  }
}
