/** The generative Euclidean algorithm of core/algorithms.py over the integer
    Matter: yield num / den (truncated), continue with (den, remainder),
    stop as soon as the denominator is vacuum. */
module Euclid {
  import opened Science
  import opened Projective
  import Streams

  /** The terms `Euclid(num, den)` yields, in order. */
  function Terms(num: int, den: int): (terms: seq<int>)
    ensures |terms| == 0 <==> den == 0
    decreases Abs(den)
  {
    if den == 0 then [] else [TruncDiv(num, den)] + Terms(den, TruncMod(num, den))
  }

  /** Over non-negative p and positive q every term after the first is at
      least one, and the first is at least one once p >= q. */
  lemma {:induction false} PositiveTerms(num: int, den: int)
    requires 0 <= num && 0 < den
    ensures var t := Terms(num, den); t[0] >= 0 && (den <= num ==> t[0] >= 1)
    ensures var t := Terms(num, den); forall i :: 1 <= i < |t| ==> t[i] >= 1
    decreases den
  {
    var q := TruncDiv(num, den);
    var r := TruncMod(num, den);
    var t := Terms(num, den);
    assert t[1..] == Terms(den, r);
    if r != 0 {
      PositiveTerms(den, r);
      assert forall i :: 1 <= i < |t| ==> t[i] == Terms(den, r)[i - 1];
    }
  }

  /** The last non-vacuum denominator the loop divided by (the signed gcd). */
  function LastDivisor(num: int, den: int): int
    decreases Abs(den)
  {
    if den == 0 then num else LastDivisor(den, TruncMod(num, den))
  }

  /** Folding the yielded terms back onto the tail g/0, with g the last
      divisor, rebuilds num/den exactly. */
  lemma {:induction false} FoldsBack(num: int, den: int)
    ensures Fold(Terms(num, den), Pair(LastDivisor(num, den), 0)) == Pair(num, den)
    decreases Abs(den)
  {
    if den != 0 {
      var q := TruncDiv(num, den);
      var r := TruncMod(num, den);
      FoldsBack(den, r);
      DivisionLaw(num, den);
      assert Terms(num, den)[1..] == Terms(den, r);
    }
  }

  /** For a non-vacuum denominator the finite continued fraction of the
      terms denotes exactly num/den. */
  lemma FoldsBackToRatio(num: int, den: int)
    requires den != 0
    ensures Value(Terms(num, den)).d != 0
    ensures ToReal(Value(Terms(num, den))) == num as real / den as real
  {
    var g := LastDivisor(num, den);
    var t := Terms(num, den);
    FoldsBack(num, den);
    FoldScale(t, g, Infinity);
    assert Scale(g, Infinity) == Pair(g, 0);
    ScaledRatio(g, Value(t), num, den);
  }

  lemma ScaledRatio(g: int, v: Pair, num: int, den: int)
    requires Scale(g, v) == Pair(num, den) && den != 0
    ensures v.d != 0 && ToReal(v) == num as real / den as real
  {
    assert g * v.d == den;
    assert g * v.n == num;
    IntMulReal(g, v.n);
    IntMulReal(g, v.d);
    CancelCommonFactor(g as real, v.n as real, v.d as real);
  }

  lemma IntMulReal(a: int, b: int)
    ensures (a * b) as real == (a as real) * (b as real)
  {
  }

  lemma CancelCommonFactor(g: real, a: real, b: real)
    requires g != 0.0 && b != 0.0
    ensures (g * a) / (g * b) == a / b
  {
  }

  /** Over positive inputs the expansion is canonical: its last term is at
      least 2 whenever there are two or more terms. */
  lemma {:induction false} CanonicalLastTerm(num: int, den: int)
    requires 0 <= num && 0 < den
    ensures var t := Terms(num, den); |t| >= 2 ==> t[|t| - 1] >= 2
    decreases den
  {
    var r := TruncMod(num, den);
    var t := Terms(num, den);
    assert t[1..] == Terms(den, r);
    if r != 0 {
      assert 0 < r < den;
      CanonicalLastTerm(den, r);
      if |Terms(den, r)| == 1 {
        var r2 := TruncMod(den, r);
        assert Terms(r, r2) == [];
        assert r2 == 0;
        DivisionLaw(den, r);
        var q2 := TruncDiv(den, r);
        assert r * q2 == den;
        assert q2 != 1;
        assert q2 >= 1;
      }
    }
  }

  /** The generator wrapped in a charged stream register. */
  function Generator(num: int, den: int): Streams.Stream<int>
  {
    Streams.New(Terms(num, den))
  }

  /** Euclid(p, 0) yields nothing: the register starts exhausted. */
  lemma EmptyOnVacuumDenominator(num: int)
    ensures Streams.Head(Generator(num, 0)).None?
    ensures Terms(num, 0) == []
  {
  }

  /** One division step: when q and r are the truncated quotient and
      remainder of num by den, the terms are q followed by those of den/r. */
  lemma TermsStep(num: int, den: int, q: int, r: int)
    requires den != 0 && den * q + r == num && Abs(r) < Abs(den)
    requires (num >= 0 ==> r >= 0) && (num <= 0 ==> r <= 0)
    ensures Terms(num, den) == [q] + Terms(den, r)
  {
    DivisionUnique(num, den, q, r);
  }

  /** The rational cases of test/test_rational.py, each followed by an
      exhausted register. */
  lemma RationalExamples()
    ensures Terms(1, 5) == [0, 5]
    ensures Terms(10, 7) == [1, 2, 3]
    ensures Terms(3, 2) == [1, 2]
    ensures Terms(7, 1) == [7]
  {
    TermsStep(1, 5, 0, 1);
    TermsStep(5, 1, 5, 0);
    TermsStep(10, 7, 1, 3);
    TermsStep(7, 3, 2, 1);
    TermsStep(3, 1, 3, 0);
    TermsStep(3, 2, 1, 1);
    TermsStep(2, 1, 2, 0);
    TermsStep(7, 1, 7, 0);
  }

  lemma RationalExampleLong()
    ensures Terms(415, 93) == [4, 2, 6, 7]
    ensures Streams.Drain(Generator(415, 93)) == [4, 2, 6, 7]
  {
    TermsStep(415, 93, 4, 43);
    TermsStep(93, 43, 2, 7);
    TermsStep(43, 7, 6, 1);
    TermsStep(7, 1, 7, 0);
  }
}
