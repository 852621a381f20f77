/** The Euclid expansion of core/algorithms.py run over Gaussian integers:
    the quotients of repeated division with the intended rounding. */
module GaussianEuclid {
  import opened Wrappers
  import opened GaussianIntegers
  import Science

  /** `Euclid(num, den)` over Gaussian integers: stop on a vacuum
      denominator, else yield the quotient and continue with (den, rem).
      The Hurwitz bound makes the remainders' norms strictly decrease. */
  function Terms(num: Gaussian, den: Gaussian): (ts: seq<Gaussian>)
    ensures IsVacuum(den) <==> ts == []
    decreases NormSq(den)
  {
    if IsVacuum(den) then []
    else
      DivHurwitz(num, den);
      var (q, r) := Div(num, den).value;
      [q] + Terms(den, r)
  }

  /** Every term after the first divides a divisor by a remainder of at
      most half its norm: the expansion is at most about log₂ N(den) long. */
  lemma {:induction false} TermsLength(num: Gaussian, den: Gaussian)
    ensures Pow2(|Terms(num, den)|) <= 2 * NormSq(den) || NormSq(den) == 0
    decreases NormSq(den)
  {
    if !IsVacuum(den) {
      DivHurwitz(num, den);
      var (q, r) := Div(num, den).value;
      TermsLength(den, r);
      assert Terms(num, den) == [q] + Terms(den, r);
    }
  }

  function Pow2(k: nat): (p: nat)
    ensures p >= 1
  {
    if k == 0 then 1 else 2 * Pow2(k - 1)
  }

  /** One step of the expansion. */
  lemma TermsStep(num: Gaussian, den: Gaussian, q: Gaussian, r: Gaussian)
    requires Div(num, den) == Success((q, r))
    ensures Terms(num, den) == [q] + Terms(den, r)
  {
  }

  /** An exact division ends the expansion. */
  lemma TermsLast(num: Gaussian, den: Gaussian, q: Gaussian)
    requires Div(num, den) == Success((q, Gaussian(0, 0)))
    ensures Terms(num, den) == [q]
  {
    TermsStep(num, den, q, Gaussian(0, 0));
    TermsStop(den);
  }

  /** Two divisions, the second exact, give two terms. */
  lemma TermsTwo(num: Gaussian, den: Gaussian, q: Gaussian, r: Gaussian, q2: Gaussian)
    requires Div(num, den) == Success((q, r))
    requires Div(den, r) == Success((q2, Gaussian(0, 0)))
    ensures Terms(num, den) == [q, q2]
  {
    TermsStep(num, den, q, r);
    TermsLast(den, r, q2);
    PairConcat(q, q2);
  }

  lemma PairConcat(a: Gaussian, b: Gaussian)
    ensures [a] + [b] == [a, b]
  {
  }

  /** A vacuum denominator gives no terms. */
  lemma TermsStop(num: Gaussian)
    ensures Terms(num, Gaussian(0, 0)) == []
  {
  }

  /** The stream state after some terms: the terms yielded so far and the
      pair the generator divides next. */
  datatype Progress = Progress(terms: seq<Gaussian>, num: Gaussian, den: Gaussian)

  /** A division step: (num, den) to (quotient, remainder). */
  type Divider = (Gaussian, Gaussian) -> (Gaussian, Gaussian)

  /** The first `fuel` terms `Euclid(num, den)` yields when each step
      divides with `divide`: stop on a vacuum denominator, else yield the
      quotient and continue with (den, remainder). */
  function TakeBy(divide: Divider, num: Gaussian, den: Gaussian, fuel: nat): (p: Progress)
    ensures |p.terms| <= fuel
    ensures |p.terms| < fuel ==> IsVacuum(p.den)
    ensures IsVacuum(den) ==> p == Progress([], num, den)
    decreases fuel
  {
    if IsVacuum(den) || fuel == 0 then Progress([], num, den)
    else
      var qr := divide(num, den);
      var rest := TakeBy(divide, den, qr.1, fuel - 1);
      Progress([qr.0] + rest.terms, rest.num, rest.den)
  }

  /** The step both files ship: `__truediv__` with the shipped rounding. */
  function StepAsWritten(num: Gaussian, den: Gaussian): (Gaussian, Gaussian)
  {
    if IsVacuum(den) then (Gaussian(0, 0), num)
    else
      var q := Quotient(num, den, AsWritten);
      (q, Sub(num, Mul(den, q)))
  }

  /** A non-vacuum step is exactly the shipped division. */
  lemma StepIsDivAsWritten(num: Gaussian, den: Gaussian)
    requires !IsVacuum(den)
    ensures DivAsWritten(num, den) == Success(StepAsWritten(num, den))
  {
  }

  /** The expansion as shipped. Its remainders need not shrink in norm, so
      nothing bounds the stream; a consumer takes a prefix of it. */
  function TakeAsWritten(num: Gaussian, den: Gaussian, fuel: nat): Progress
  {
    TakeBy(StepAsWritten, num, den, fuel)
  }

  /** A pair of Gaussian integers n/d, and one continued-fraction level
      t + 1/z over them. */
  datatype Ratio = Ratio(n: Gaussian, d: Gaussian)

  function Level(t: Gaussian, z: Ratio): Ratio
  {
    Ratio(Add(Mul(t, z.n), z.d), z.n)
  }

  /** Folds the terms back onto a tail, last term innermost. */
  function Fold(terms: seq<Gaussian>, tail: Ratio): Ratio
    decreases |terms|
  {
    if |terms| == 0 then tail else Level(terms[0], Fold(terms[1..], tail))
  }

  /** Every division step puts back what it took: den·q + r = num. */
  lemma LevelUndoesDivision(num: Gaussian, den: Gaussian, mode: Rounding)
    requires !IsVacuum(den)
    ensures var (q, r) := DivBy(num, den, mode).value;
      Level(q, Ratio(den, r)) == Ratio(num, den)
  {
    var (q, r) := DivBy(num, den, mode).value;
    MulMeaning(q, den);
  }

  /** The divisor in force when the expansion stops. */
  function LastDivisor(num: Gaussian, den: Gaussian): Gaussian
    decreases NormSq(den)
  {
    if IsVacuum(den) then num
    else
      DivHurwitz(num, den);
      var (q, r) := Div(num, den).value;
      LastDivisor(den, r)
  }

  /** The terms folded back onto (g, 0), g the last divisor, give back
      (num, den) exactly. */
  lemma {:induction false} FoldsBack(num: Gaussian, den: Gaussian)
    ensures Fold(Terms(num, den), Ratio(LastDivisor(num, den), Gaussian(0, 0))) == Ratio(num, den)
    decreases NormSq(den)
  {
    if IsVacuum(den) {
      VacuumMeaning(den);
    } else {
      DivHurwitz(num, den);
      var (q, r) := Div(num, den).value;
      FoldsBack(den, r);
      LevelUndoesDivision(num, den, Intended);
      assert Terms(num, den)[1..] == Terms(den, r);
    }
  }

  /** A step that puts back what it took on every non-vacuum divisor. */
  ghost predicate Reconstructs(divide: Divider)
  {
    forall a: Gaussian, b: Gaussian :: !IsVacuum(b) ==>
      Level(divide(a, b).0, Ratio(b, divide(a, b).1)) == Ratio(a, b)
  }

  /** The shipped step puts back what it took, whatever its rounding. */
  lemma AsWrittenReconstructs()
    ensures Reconstructs(StepAsWritten)
  {
    forall a: Gaussian, b: Gaussian | !IsVacuum(b)
      ensures Level(StepAsWritten(a, b).0, Ratio(b, StepAsWritten(a, b).1)) == Ratio(a, b)
    {
      StepIsDivAsWritten(a, b);
      LevelUndoesDivision(a, b, AsWritten);
    }
  }

  /** Whatever prefix is taken, folding its terms onto the generator's
      current pair gives back (num, den): no term is lost, even when the
      remainders grow. */
  lemma {:induction false} TakeFoldsBack(divide: Divider, num: Gaussian, den: Gaussian, fuel: nat)
    requires Reconstructs(divide)
    ensures var p := TakeBy(divide, num, den, fuel);
      Fold(p.terms, Ratio(p.num, p.den)) == Ratio(num, den)
    decreases fuel
  {
    if !IsVacuum(den) && fuel > 0 {
      var qr := divide(num, den);
      TakeFoldsBack(divide, den, qr.1, fuel - 1);
      assert TakeBy(divide, num, den, fuel).terms[1..] == TakeBy(divide, den, qr.1, fuel - 1).terms;
    }
  }

  /** Taking n terms and then m more from where the stream stands is
      taking n + m terms: the generator resumes from its state. */
  lemma {:induction false} TakeResumes(divide: Divider, num: Gaussian, den: Gaussian, n: nat, m: nat)
    ensures var p := TakeBy(divide, num, den, n);
      var t := TakeBy(divide, p.num, p.den, m);
      TakeBy(divide, num, den, n + m) == Progress(p.terms + t.terms, t.num, t.den)
    decreases n
  {
    if IsVacuum(den) {
      assert TakeBy(divide, num, den, n).terms + [] == [];
    } else if n == 0 {
      assert [] + TakeBy(divide, num, den, m).terms == TakeBy(divide, num, den, m).terms;
    } else {
      var qr := divide(num, den);
      TakeResumes(divide, den, qr.1, n - 1, m);
      var p' := TakeBy(divide, den, qr.1, n - 1);
      var t := TakeBy(divide, p'.num, p'.den, m);
      assert [qr.0] + (p'.terms + t.terms) == ([qr.0] + p'.terms) + t.terms;
    }
  }

  /** Once the denominator is vacuum the stream has ended: more fuel takes
      nothing more. */
  lemma {:induction false} TakeSettles(divide: Divider, num: Gaussian, den: Gaussian, n: nat, m: nat)
    requires n <= m
    requires IsVacuum(TakeBy(divide, num, den, n).den)
    ensures TakeBy(divide, num, den, m) == TakeBy(divide, num, den, n)
    decreases n
  {
    if !IsVacuum(den) {
      assert n != 0;
      TakeSettles(divide, den, divide(num, den).1, n - 1, m - 1);
    }
  }

  /** One shipped step on components, for evaluating prefixes of literals. */
  lemma TakeStepParts(x: int, y: int, u: int, v: int, fuel: nat, qr: int, qi: int, rr: int, ri: int, rest: Progress)
    requires fuel > 0
    requires u * u + v * v != 0
    requires Nearest(x * u - y * (0 - v), u * u + v * v, AsWritten) == qr
    requires Nearest(x * (0 - v) + y * u, u * u + v * v, AsWritten) == qi
    requires rr == x - (u * qr - v * qi) && ri == y - (u * qi + v * qr)
    requires TakeAsWritten(Gaussian(u, v), Gaussian(rr, ri), fuel - 1) == rest
    ensures TakeAsWritten(Gaussian(x, y), Gaussian(u, v), fuel)
      == Progress([Gaussian(qr, qi)] + rest.terms, rest.num, rest.den)
  {
    DivParts(x, y, u, v, AsWritten, qr, qi, rr, ri);
  }

  /** Four single steps make a prefix of four terms. */
  lemma TakeFour(a: Gaussian, b: Gaussian, c: Gaussian, d: Gaussian, e: Gaussian, z: Gaussian,
                 q1: Gaussian, q2: Gaussian, q3: Gaussian, q4: Gaussian)
    requires TakeAsWritten(a, b, 1) == Progress([q1], b, c)
    requires TakeAsWritten(b, c, 1) == Progress([q2], c, d)
    requires TakeAsWritten(c, d, 1) == Progress([q3], d, e)
    requires TakeAsWritten(d, e, 1) == Progress([q4], e, z)
    ensures TakeAsWritten(a, b, 4) == Progress([q1, q2, q3, q4], e, z)
  {
    TakeResumes(StepAsWritten, c, d, 1, 1);
    TakeResumes(StepAsWritten, b, c, 1, 2);
    TakeResumes(StepAsWritten, a, b, 1, 3);
    assert [q1] + ([q2] + ([q3] + [q4])) == [q1, q2, q3, q4];
  }

  /** As written, 3/(4i) yields [i, i, 2i, -3i] and then stops on a vacuum
      denominator: 3/(4i) → (i, 7), 4i/7 → (i, -3i), 7/(-3i) → (2i, 1),
      -3i/1 → (-3i, 0). */
  lemma ThreeByFourIAsWritten()
    ensures TakeAsWritten(Gaussian(3, 0), Gaussian(0, 4), 4)
      == Progress([Gaussian(0, 1), Gaussian(0, 1), Gaussian(0, 2), Gaussian(0, -3)], Gaussian(1, 0), Gaussian(0, 0))
  {
    StepThreeByFourI();
    StepFourIBySeven();
    StepSevenByMinusThreeI();
    StepMinusThreeIByOne();
    TakeFour(Gaussian(3, 0), Gaussian(0, 4), Gaussian(7, 0), Gaussian(0, -3), Gaussian(1, 0), Gaussian(0, 0),
             Gaussian(0, 1), Gaussian(0, 1), Gaussian(0, 2), Gaussian(0, -3));
  }

  lemma StepThreeByFourI()
    ensures TakeAsWritten(Gaussian(3, 0), Gaussian(0, 4), 1) == Progress([Gaussian(0, 1)], Gaussian(0, 4), Gaussian(7, 0))
  {
    assert Science.TruncDiv(0, 16) == 0 && Science.TruncMod(0, 16) == 0;
    assert Science.TruncDiv(-12, 16) == 0 && Science.TruncMod(-12, 16) == -12;
    TakeStepParts(3, 0, 0, 4, 1, 0, 1, 7, 0, Progress([], Gaussian(0, 4), Gaussian(7, 0)));
  }

  lemma StepFourIBySeven()
    ensures TakeAsWritten(Gaussian(0, 4), Gaussian(7, 0), 1) == Progress([Gaussian(0, 1)], Gaussian(7, 0), Gaussian(0, -3))
  {
    assert Science.TruncDiv(0, 49) == 0 && Science.TruncMod(0, 49) == 0;
    assert Science.TruncDiv(28, 49) == 0 && Science.TruncMod(28, 49) == 28;
    TakeStepParts(0, 4, 7, 0, 1, 0, 1, 0, -3, Progress([], Gaussian(7, 0), Gaussian(0, -3)));
  }

  lemma StepSevenByMinusThreeI()
    ensures TakeAsWritten(Gaussian(7, 0), Gaussian(0, -3), 1) == Progress([Gaussian(0, 2)], Gaussian(0, -3), Gaussian(1, 0))
  {
    assert Science.TruncDiv(0, 9) == 0 && Science.TruncMod(0, 9) == 0;
    assert Science.TruncDiv(21, 9) == 2 && Science.TruncMod(21, 9) == 3;
    TakeStepParts(7, 0, 0, -3, 1, 0, 2, 1, 0, Progress([], Gaussian(0, -3), Gaussian(1, 0)));
  }

  lemma StepMinusThreeIByOne()
    ensures TakeAsWritten(Gaussian(0, -3), Gaussian(1, 0), 1) == Progress([Gaussian(0, -3)], Gaussian(1, 0), Gaussian(0, 0))
  {
    assert Science.TruncDiv(0, 1) == 0 && Science.TruncMod(0, 1) == 0;
    assert Science.TruncDiv(-3, 1) == -3 && Science.TruncMod(-3, 1) == 0;
    TakeStepParts(0, -3, 1, 0, 1, 0, -3, 0, 0, Progress([], Gaussian(1, 0), Gaussian(0, 0)));
  }

  /** With the corrected rounding, 3/(4i) → (-i, -1) and -1 divides 4i
      exactly: [-i, -4i]. */
  lemma EuclidThreeByFourI()
    ensures Terms(Gaussian(3, 0), Gaussian(0, 4)) == [Gaussian(0, -1), Gaussian(0, -4)]
  {
    ThreeByFourI();
    FourIByMinusOne();
    TermsTwo(Gaussian(3, 0), Gaussian(0, 4), Gaussian(0, -1), Gaussian(-1, 0), Gaussian(0, -4));
  }

  lemma ThreeByFourI()
    ensures Div(Gaussian(3, 0), Gaussian(0, 4)) == Success((Gaussian(0, -1), Gaussian(-1, 0)))
  {
    assert Science.TruncDiv(0, 16) == 0 && Science.TruncMod(0, 16) == 0;
    assert Science.TruncDiv(-12, 16) == 0 && Science.TruncMod(-12, 16) == -12;
    DivParts(3, 0, 0, 4, Intended, 0, -1, -1, 0);
  }

  lemma FourIByMinusOne()
    ensures Div(Gaussian(0, 4), Gaussian(-1, 0)) == Success((Gaussian(0, -4), Gaussian(0, 0)))
  {
    assert Science.TruncDiv(0, 1) == 0 && Science.TruncMod(0, 1) == 0;
    assert Science.TruncDiv(-4, 1) == -4 && Science.TruncMod(-4, 1) == 0;
    DivParts(0, 4, -1, 0, Intended, 0, -4, 0, 0);
  }

  /** 10/(3+i) → [3-i]. */
  lemma EuclidTenByThreePlusI()
    ensures Terms(Gaussian(10, 0), Gaussian(3, 1)) == [Gaussian(3, -1)]
  {
    DivTenByThreePlusI();
    TermsLast(Gaussian(10, 0), Gaussian(3, 1), Gaussian(3, -1));
  }

  /** (5+2i)/(2+i) → [2, 2+i]. */
  lemma EuclidFivePlusTwoI()
    ensures Terms(Gaussian(5, 2), Gaussian(2, 1)) == [Gaussian(2, 0), Gaussian(2, 1)]
  {
    DivFivePlusTwoI();
    DivByOne(Gaussian(2, 1));
    TermsTwo(Gaussian(5, 2), Gaussian(2, 1), Gaussian(2, 0), Gaussian(1, 0), Gaussian(2, 1));
  }

  /** i/1 → [i]. */
  lemma EuclidIByOne()
    ensures Terms(Gaussian(0, 1), Gaussian(1, 0)) == [Gaussian(0, 1)]
  {
    DivByOne(Gaussian(0, 1));
    TermsLast(Gaussian(0, 1), Gaussian(1, 0), Gaussian(0, 1));
  }
}
