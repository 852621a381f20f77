/** `AlgebraicStream` of core/algorithms.py: the continued fraction of the
    positive root of an integer polynomial. Each round locates the floor k
    by scanning P(1), P(2), … for the first sign change, emits k, and
    replaces P by reverse(shift(P, k)), the polynomial of 1/(x - k). */
module Algebraic {
  import opened Wrappers
  import opened Projective
  import opened Polynomials

  /** The scan gives up once the counter passes this bound. */
  const ScanLimit := 1000

  /** What the floor scan found: an exact root k, or the floor k with
      P(k + 1) on the other side of zero. */
  datatype Found = ExactAt(k: int) | FloorAt(k: int)

  /** P(j) is not vacuum and lies on the same side of zero as P(0) did
      (`start` is "P(0) > 0", so a vacuum P(0) counts as the negative side). */
  predicate Keeps(p: seq<int>, start: bool, j: int)
  {
    Val(p, j) != 0 && (Val(p, j) > 0) == start
  }

  /** The scan loop from counter k: test P(k + 1) for a root, then for a
      sign change; otherwise advance, raising once the counter passes the
      limit. */
  function Scan(p: seq<int>, start: bool, k: nat): (r: Result<Found>)
    requires k <= ScanLimit
    ensures r.Failure? ==> r.error == ScanExceeded
    ensures r.Success? && r.value.ExactAt? ==> k < r.value.k <= ScanLimit + 1
    ensures r.Success? && r.value.FloorAt? ==> 0 <= k <= r.value.k <= ScanLimit
    decreases ScanLimit - k
  {
    var v := Val(p, k + 1);
    if v == 0 then Success(ExactAt(k + 1))
    else if (v > 0) != start then Success(FloorAt(k))
    else if k + 1 > ScanLimit then Failure(ScanExceeded)
    else Scan(p, start, k + 1)
  }

  /** What each outcome of the scan means: the counters it passed all kept
      P(0)'s side; an exact root is a vacuum value; the floor k is followed
      by a value on the other side; raising means every counter up to the
      limit kept the side. */
  lemma {:induction false} ScanMeaning(p: seq<int>, start: bool, k: nat)
    requires k <= ScanLimit
    ensures var r := Scan(p, start, k);
      r.Failure? ==> forall j :: k < j <= ScanLimit + 1 ==> Keeps(p, start, j)
    ensures var r := Scan(p, start, k);
      r.Success? && r.value.ExactAt? ==>
        Val(p, r.value.k) == 0 && forall j :: k < j < r.value.k ==> Keeps(p, start, j)
    ensures var r := Scan(p, start, k);
      r.Success? && r.value.FloorAt? ==>
        !Keeps(p, start, r.value.k + 1) && Val(p, r.value.k + 1) != 0
        && forall j :: k < j <= r.value.k ==> Keeps(p, start, j)
    decreases ScanLimit - k
  {
    var v := Val(p, k + 1);
    if v != 0 && (v > 0) == start && k + 1 <= ScanLimit {
      ScanMeaning(p, start, k + 1);
      assert Keeps(p, start, k + 1);
    }
  }

  /** One floor scan, started at 0 with the side of P(0). */
  function Locate(p: seq<int>): Result<Found>
  {
    Scan(p, StartSide(p), 0)
  }

  /** `start_sign`: whether P(0) is positive. */
  predicate StartSide(p: seq<int>)
  {
    Val(p, 0) > 0
  }

  /** The scan raises exactly when P(1), …, P(1001) all stay on P(0)'s side. */
  lemma LocateRaisesIff(p: seq<int>)
    ensures Locate(p).Failure? <==>
      forall j :: 1 <= j <= ScanLimit + 1 ==> Keeps(p, StartSide(p), j)
  {
    var r := Locate(p);
    ScanMeaning(p, StartSide(p), 0);
    if r.Success? {
      if r.value.ExactAt? {
        assert !Keeps(p, StartSide(p), r.value.k);
      } else {
        assert !Keeps(p, StartSide(p), r.value.k + 1);
      }
    }
  }

  /** Why a run of the stream ended. */
  datatype Stop = Rounds | Constant | ExactRoot | Raised(error: Error)

  /** The terms yielded, the polynomial left over, and why it stopped. */
  datatype Trace = Trace(out: seq<int>, poly: seq<int>, stop: Stop)

  /** The generator's main loop for `fuel` rounds (`max_iter`): scan; on an
      exact root yield it and return; on a floor k yield k, move to
      `next(P, k)` and stop once that has at most one coefficient. The
      transform is a parameter so that the loop's properties are proved
      once, for any transform that pulls roots back; the stream itself
      uses `Accordion`. */
  function Generate(p: seq<int>, fuel: nat, next: (seq<int>, int) -> seq<int>): (r: Trace)
    ensures |r.out| <= fuel
    ensures r.stop == Rounds ==> |r.out| == fuel
    ensures r.stop == Constant ==> |r.poly| <= 1
    ensures r.stop.Raised? ==> r.stop.error == ScanExceeded
    decreases fuel
  {
    if fuel == 0 then Trace([], p, Rounds)
    else
      match Locate(p)
      case Failure(e) => Trace([], p, Raised(e))
      case Success(ExactAt(m)) => Trace([m], p, ExactRoot)
      case Success(FloorAt(k)) =>
        var q := next(p, k);
        if |q| <= 1 then Trace([k], q, Constant)
        else
          var r := Generate(q, fuel - 1, next);
          Trace([k] + r.out, r.poly, r.stop)
  }

  /** The transform after emitting k: x -> 1/(x - k), as reverse(shift(P, k)). */
  function Accordion(p: seq<int>, k: int): (q: seq<int>)
    ensures |p| >= 1 ==> |q| >= 1
  {
    Reverse(Shift(p, k))
  }

  /** `AlgebraicStream(poly, max_iter)`: a polynomial without coefficients
      has no backend sample (IndexError); otherwise the main loop. */
  function AlgebraicStream(p: seq<int>, maxIter: nat): (r: Trace)
    ensures r.stop == Raised(IndexOutOfRange) <==> |p| == 0
    ensures |p| == 0 ==> r.out == []
  {
    if |p| == 0 then Trace([], p, Raised(IndexOutOfRange)) else Generate(p, maxIter, Accordion)
  }

  // --------------------------------------------------------- the accordion

  /** Homogeneous vanishing: d^deg·P(n/d) == 0. */
  predicate VanishesAt(p: seq<int>, z: Pair)
  {
    HVal(p, z.n, z.d) == 0
  }

  /** Reversal swaps the homogeneous coordinates; normalising the reversed
      list divides by d once per vacuum coefficient dropped. */
  lemma ReverseHomogeneous(s: seq<int>, n: int, d: int)
    ensures HVal(Reverse(s), n, d) * Pow(d, |s| - |Reverse(s)|) == HVal(s, d, n)
  {
    NormalizeHValue(Rev(s), n, d);
    RevMeaning(s, n, d);
  }

  /** The shift moves the homogeneous point by k; normalising divides by
      the second coordinate once per vacuum coefficient dropped. */
  lemma ShiftHomogeneous(p: seq<int>, k: int, n: int, d: int)
    ensures HVal(Shift(p, k), n, d) * Pow(d, |p| - |Shift(p, k)|) == HVal(p, n + k * d, d)
  {
    NormalizeHValue(ShiftFrom(p, k), n, d);
    ShiftFromMeaning(p, k, n, d);
  }

  /** The transform after emitting k is x -> k + 1/x in homogeneous form,
      in two moves: the reversed polynomial at n/d, times a power of d (one
      per vacuum coefficient the normalisation dropped), is the shifted one
      at d/n; and that, times a power of n, is the old one at the point
      k + 1/(n/d), i.e. at Level(k, n/d). */
  lemma AccordionMeaning(p: seq<int>, k: int, z: Pair)
    ensures var s := Shift(p, k);
      var q := Accordion(p, k);
      HVal(q, z.n, z.d) * Pow(z.d, |s| - |q|) == HVal(s, z.d, z.n)
      && HVal(s, z.d, z.n) * Pow(z.n, |p| - |s|) == HVal(p, Level(k, z).n, Level(k, z).d)
  {
    AccordionHomogeneous(p, k, z.n, z.d);
    ShiftHomogeneous(p, k, z.d, z.n);
    assert Level(k, z) == Pair(z.d + k * z.n, z.n);
  }

  /** The reversed shift read at n/d is the shift read at d/n, up to a
      power of d for the leading zeros the reversal drops. */
  lemma AccordionHomogeneous(p: seq<int>, k: int, n: int, d: int)
    ensures |Accordion(p, k)| <= |Shift(p, k)|
    ensures HVal(Accordion(p, k), n, d) * Pow(d, |Shift(p, k)| - |Accordion(p, k)|)
      == HVal(Shift(p, k), d, n)
  {
    var s := Shift(p, k);
    ReverseHomogeneous(s, n, d);
  }

  /** A transform pulls roots back when every root z of next(P, k) gives
      the root k + 1/z of P. */
  ghost predicate PullsBack(next: (seq<int>, int) -> seq<int>)
  {
    forall q, k, z :: VanishesAt(next(q, k), z) ==> VanishesAt(q, Level(k, z))
  }

  /** Every root of the transformed polynomial, pushed back through
      x -> k + 1/x, is a root of the old one. */
  lemma AccordionPullsBack()
    ensures PullsBack(Accordion)
  {
    forall q, k, z | VanishesAt(Accordion(q, k), z)
      ensures VanishesAt(q, Level(k, z))
    {
      AccordionMeaning(q, k, z);
    }
  }

  lemma PullBack(next: (seq<int>, int) -> seq<int>, q: seq<int>, k: int, z: Pair)
    requires PullsBack(next) && VanishesAt(next(q, k), z)
    ensures VanishesAt(q, Level(k, z))
  {
  }

  lemma LevelPositive(k: int, v: Pair)
    requires k >= 0 && v.n >= 1 && v.d >= 1
    ensures Level(k, v).n >= 1 && Level(k, v).d >= 1
  {
    assert k * v.n >= 0;
  }

  /** One round that finds the floor k and leaves a non-constant
      polynomial: k, then whatever the transformed polynomial yields. */
  lemma GenerateStep(p: seq<int>, fuel: nat, next: (seq<int>, int) -> seq<int>, k: int)
    requires fuel >= 1 && Locate(p) == Success(FloorAt(k)) && |next(p, k)| > 1
    ensures var r := Generate(p, fuel, next);
      var r' := Generate(next(p, k), fuel - 1, next);
      r.out == [k] + r'.out && r.poly == r'.poly && r.stop == r'.stop
  {
  }

  /** The scan's exact root m is at least 1 and P vanishes at m/1. */
  lemma ExactRootFound(p: seq<int>, m: int)
    requires Locate(p) == Success(ExactAt(m))
    ensures m >= 1 && VanishesAt(p, Level(m, Infinity))
  {
    ScanMeaning(p, StartSide(p), 0);
    HValOne(p, m);
  }

  /** A round that lands exactly on a root m yields m alone, whose value
      m/1 is a root of P. */
  lemma ExactRootHere(p: seq<int>, fuel: nat, next: (seq<int>, int) -> seq<int>, m: int)
    requires fuel >= 1 && Locate(p) == Success(ExactAt(m))
    ensures var r := Generate(p, fuel, next);
      r.out == [m] && Value(r.out).n >= 1 && Value(r.out).d >= 1 && VanishesAt(p, Value(r.out))
  {
    ExactRootFound(p, m);
    FoldCons(m, [], Infinity);
    assert [m] + [] == [m];
  }

  /** A floor k in front of a finite expansion whose value is a positive
      root of the transformed polynomial gives a positive root of P. */
  lemma ExtendRoot(p: seq<int>, next: (seq<int>, int) -> seq<int>, k: int, out: seq<int>)
    requires PullsBack(next) && k >= 0
    requires Value(out).n >= 1 && Value(out).d >= 1 && VanishesAt(next(p, k), Value(out))
    ensures Value([k] + out).n >= 1 && Value([k] + out).d >= 1 && VanishesAt(p, Value([k] + out))
  {
    FoldCons(k, out, Infinity);
    LevelPositive(k, Value(out));
    PullBack(next, p, k, Value(out));
  }

  /** When the loop stops on an exact root, the yielded terms form a finite
      continued fraction n/d with n, d >= 1 at which P vanishes. */
  lemma {:induction false} GenerateExactRoot(p: seq<int>, fuel: nat, next: (seq<int>, int) -> seq<int>)
    requires PullsBack(next)
    ensures var r := Generate(p, fuel, next);
      r.stop == ExactRoot ==> var v := Value(r.out);
        v.n >= 1 && v.d >= 1 && VanishesAt(p, v)
    decreases fuel
  {
    if fuel > 0 && Locate(p).Success? {
      match Locate(p).value
      case ExactAt(m) =>
        ExactRootHere(p, fuel, next, m);
      case FloorAt(k) =>
        var q := next(p, k);
        if |q| > 1 {
          GenerateStep(p, fuel, next, k);
          var r' := Generate(q, fuel - 1, next);
          if r'.stop == ExactRoot {
            GenerateExactRoot(q, fuel - 1, next);
            ExtendRoot(p, next, k, r'.out);
          }
        }
    }
  }

  /** Otherwise every root z of the polynomial left over, folded back
      through the yielded terms, is a root of P. */
  lemma {:induction false} GenerateRootsPullBack(p: seq<int>, fuel: nat, next: (seq<int>, int) -> seq<int>, z: Pair)
    requires PullsBack(next)
    ensures var r := Generate(p, fuel, next);
      r.stop != ExactRoot && VanishesAt(r.poly, z) ==> VanishesAt(p, Fold(r.out, z))
    decreases fuel
  {
    if fuel > 0 && Locate(p).Success? && Locate(p).value.FloorAt? {
      var k := Locate(p).value.k;
      var q := next(p, k);
      if |q| <= 1 {
        FoldCons(k, [], z);
      } else {
        GenerateStep(p, fuel, next, k);
        var r' := Generate(q, fuel - 1, next);
        GenerateRootsPullBack(q, fuel - 1, next, z);
        FoldCons(k, r'.out, z);
        if r'.stop != ExactRoot && VanishesAt(r'.poly, z) {
          PullBack(next, p, k, Fold(r'.out, z));
        }
      }
    }
  }

  /** Every yielded term is non-negative: floors start at 0, exact roots
      at 1. */
  lemma {:induction false} GenerateTermsNonNegative(p: seq<int>, fuel: nat, next: (seq<int>, int) -> seq<int>)
    ensures forall i :: 0 <= i < |Generate(p, fuel, next).out| ==> Generate(p, fuel, next).out[i] >= 0
    decreases fuel
  {
    if fuel > 0 && Locate(p).Success? && Locate(p).value.FloorAt? {
      var k := Locate(p).value.k;
      var q := next(p, k);
      if |q| > 1 {
        GenerateStep(p, fuel, next, k);
        GenerateTermsNonNegative(q, fuel - 1, next);
        var out := Generate(p, fuel, next).out;
        assert forall i :: 1 <= i < |out| ==> out[i] == Generate(q, fuel - 1, next).out[i - 1];
      }
    }
  }

  /** A longer run only extends the terms of a shorter one. */
  lemma {:induction false} GenerateMonotone(p: seq<int>, f1: nat, f2: nat, next: (seq<int>, int) -> seq<int>)
    requires f1 <= f2
    ensures Generate(p, f1, next).out <= Generate(p, f2, next).out
    decreases f1
  {
    if f1 > 0 && Locate(p).Success? && Locate(p).value.FloorAt? {
      var k := Locate(p).value.k;
      var q := next(p, k);
      if |q| > 1 {
        GenerateMonotone(q, f1 - 1, f2 - 1, next);
        GenerateStep(p, f1, next, k);
        GenerateStep(p, f2, next, k);
        PrefixCons(k, Generate(q, f1 - 1, next).out, Generate(q, f2 - 1, next).out);
      }
    }
  }

  lemma PrefixCons(k: int, a: seq<int>, b: seq<int>)
    requires a <= b
    ensures [k] + a <= [k] + b
  {
    assert ([k] + b)[..|a| + 1] == [k] + a;
  }

  /** Soundness of the stream. When it stops on an exact root, the terms
      form a finite continued fraction n/d with n, d >= 1 and P(n/d) == 0.
      Otherwise every root z of the polynomial left over, folded back
      through the terms, is a root of P: the terms are the leading terms
      of a continued fraction of a root of P. Every term is non-negative. */
  lemma AlgebraicSound(p: seq<int>, maxIter: nat, z: Pair)
    ensures var r := AlgebraicStream(p, maxIter);
      r.stop == ExactRoot ==> var v := Value(r.out);
        v.n >= 1 && v.d >= 1 && VanishesAt(p, v)
    ensures var r := AlgebraicStream(p, maxIter);
      r.stop != ExactRoot && VanishesAt(r.poly, z) ==> VanishesAt(p, Fold(r.out, z))
    ensures forall i :: 0 <= i < |AlgebraicStream(p, maxIter).out| ==> AlgebraicStream(p, maxIter).out[i] >= 0
  {
    if |p| > 0 {
      AccordionPullsBack();
      GenerateExactRoot(p, maxIter, Accordion);
      GenerateRootsPullBack(p, maxIter, Accordion, z);
      GenerateTermsNonNegative(p, maxIter, Accordion);
    }
  }

  /** More rounds only extend the terms already yielded. */
  lemma AlgebraicMonotone(p: seq<int>, m1: nat, m2: nat)
    requires m1 <= m2
    ensures AlgebraicStream(p, m1).out <= AlgebraicStream(p, m2).out
  {
    if |p| > 0 {
      GenerateMonotone(p, m1, m2, Accordion);
    }
  }

  // ------------------------------------------------------ concrete streams

  /** k0, k1, k0, k1, … of length n. */
  function Cycle(k0: int, k1: int, n: nat): (s: seq<int>)
    ensures |s| == n
    decreases n
  {
    if n == 0 then [] else [k0] + Cycle(k1, k0, n - 1)
  }

  lemma {:induction false} CyclePrefix(k0: int, k1: int, n: nat, m: nat)
    requires m <= n
    ensures Cycle(k0, k1, n)[..m] == Cycle(k0, k1, m)
    decreases m
  {
    if m > 0 {
      CyclePrefix(k1, k0, n - 1, m - 1);
      assert Cycle(k0, k1, n)[..m] == [k0] + Cycle(k1, k0, n - 1)[..m - 1];
    }
  }

  /** Two polynomials that the transform maps to each other, with floors
      k0 and k1, make a purely periodic stream. */
  lemma {:induction false} TwoCycle(p0: seq<int>, k0: int, p1: seq<int>, k1: int, n: nat, next: (seq<int>, int) -> seq<int>)
    requires Locate(p0) == Success(FloorAt(k0)) && next(p0, k0) == p1 && |p1| > 1
    requires Locate(p1) == Success(FloorAt(k1)) && next(p1, k1) == p0 && |p0| > 1
    ensures Generate(p0, n, next).out == Cycle(k0, k1, n)
    decreases n
  {
    if n > 0 {
      TwoCycle(p1, k1, p0, k0, n - 1, next);
      GenerateStep(p0, n, next, k0);
    }
  }

  /** A first round with floor k into such a pair of polynomials makes a
      stream k, k0, k1, k0, … */
  lemma OpenThenCycle(p: seq<int>, k: int, p0: seq<int>, k0: int, p1: seq<int>, k1: int, n: nat, next: (seq<int>, int) -> seq<int>)
    requires n >= 1 && Locate(p) == Success(FloorAt(k)) && next(p, k) == p0
    requires Locate(p0) == Success(FloorAt(k0)) && next(p0, k0) == p1 && |p1| > 1
    requires Locate(p1) == Success(FloorAt(k1)) && next(p1, k1) == p0 && |p0| > 1
    ensures Generate(p, n, next).out == [k] + Cycle(k0, k1, n - 1)
  {
    TwoCycle(p0, k0, p1, k1, n - 1, next);
    GenerateStep(p, n, next, k);
  }

  /** The first five terms of k, k0, k1, k0, … */
  lemma CycleOpening(o: seq<int>, k: int, k0: int, k1: int, n: nat)
    requires n >= 5 && o == [k] + Cycle(k0, k1, n - 1)
    ensures |o| == n && o[..5] == [k, k0, k1, k0, k1]
  {
    CyclePrefix(k0, k1, n - 1, 4);
    assert Cycle(k0, k1, 4) == [k0, k1, k0, k1];
    assert o[..5] == [k] + Cycle(k0, k1, n - 1)[..4];
  }

  /** The quadratics of the examples and the polynomials their periods
      pass through. */
  const Sqrt2Poly: seq<int> := [-2, 0, 1]
  const Sqrt2Even: seq<int> := [1, 2, -1]
  const Sqrt2Odd: seq<int> := [-1, -2, 1]
  const GoldenPoly: seq<int> := [-1, -1, 1]
  const GoldenTwin: seq<int> := [1, 1, -1]
  const Sqrt3Poly: seq<int> := [-3, 0, 1]
  const Sqrt3Even: seq<int> := [1, 2, -2]
  const Sqrt3Odd: seq<int> := [-2, -2, 1]

  /** x² - 2: floor 1, and x² + 2x - 1 after the shift reverses to 1 + 2x - x². */
  lemma Sqrt2StartFloor()
    ensures Locate(Sqrt2Poly) == Success(FloorAt(1))
  {
    assert Scan([-2, 0, 1], false, 1) == Success(FloorAt(1));
  }

  lemma Sqrt2StartTurn()
    ensures Accordion(Sqrt2Poly, 1) == Sqrt2Even
  {
    assert Synth([0, 1], 1) == [1, 1];
    assert Synth([-2, 0, 1], 1) == [-1, 1, 1];
    assert Synth([1, 1], 1) == [2, 1];
    assert ShiftFrom([-2, 0, 1], 1) == [-1, 2, 1];
    assert Rev([-1, 2, 1]) == [1, 2, -1];
  }

  /** 1 + 2x - x²: floor 2, turning into -1 - 2x + x². */
  lemma Sqrt2EvenFloor()
    ensures Locate(Sqrt2Even) == Success(FloorAt(2))
  {
    assert Scan([1, 2, -1], true, 2) == Success(FloorAt(2));
    assert Scan([1, 2, -1], true, 1) == Success(FloorAt(2));
  }

  lemma Sqrt2EvenTurn()
    ensures Accordion(Sqrt2Even, 2) == Sqrt2Odd
  {
    assert Synth([2, -1], 2) == [0, -1];
    assert Synth([1, 2, -1], 2) == [1, 0, -1];
    assert Synth([0, -1], 2) == [-2, -1];
    assert ShiftFrom([1, 2, -1], 2) == [1, -2, -1];
    assert Rev([1, -2, -1]) == [-1, -2, 1];
  }

  /** -1 - 2x + x²: floor 2, turning back into 1 + 2x - x². */
  lemma Sqrt2OddFloor()
    ensures Locate(Sqrt2Odd) == Success(FloorAt(2))
  {
    assert Scan([-1, -2, 1], false, 2) == Success(FloorAt(2));
    assert Scan([-1, -2, 1], false, 1) == Success(FloorAt(2));
  }

  lemma Sqrt2OddTurn()
    ensures Accordion(Sqrt2Odd, 2) == Sqrt2Even
  {
    assert Synth([-2, 1], 2) == [0, 1];
    assert Synth([-1, -2, 1], 2) == [-1, 0, 1];
    assert Synth([0, 1], 2) == [2, 1];
    assert ShiftFrom([-1, -2, 1], 2) == [-1, 2, 1];
    assert Rev([-1, 2, 1]) == [1, 2, -1];
  }

  /** x² - x - 1: floor 1, turning into its negation. */
  lemma GoldenFloor()
    ensures Locate(GoldenPoly) == Success(FloorAt(1))
  {
    assert Scan([-1, -1, 1], false, 1) == Success(FloorAt(1));
  }

  lemma GoldenTurn()
    ensures Accordion(GoldenPoly, 1) == GoldenTwin
  {
    assert Synth([-1, 1], 1) == [0, 1];
    assert Synth([-1, -1, 1], 1) == [-1, 0, 1];
    assert Synth([0, 1], 1) == [1, 1];
    assert ShiftFrom([-1, -1, 1], 1) == [-1, 1, 1];
    assert Rev([-1, 1, 1]) == [1, 1, -1];
  }

  /** 1 + x - x²: floor 1, turning back into x² - x - 1. */
  lemma GoldenTwinFloor()
    ensures Locate(GoldenTwin) == Success(FloorAt(1))
  {
    assert Scan([1, 1, -1], true, 1) == Success(FloorAt(1));
  }

  lemma GoldenTwinTurn()
    ensures Accordion(GoldenTwin, 1) == GoldenPoly
  {
    assert Synth([1, -1], 1) == [0, -1];
    assert Synth([1, 1, -1], 1) == [1, 0, -1];
    assert Synth([0, -1], 1) == [-1, -1];
    assert ShiftFrom([1, 1, -1], 1) == [1, -1, -1];
    assert Rev([1, -1, -1]) == [-1, -1, 1];
  }

  /** x² - 3: floor 1, turning into 1 + 2x - 2x². */
  lemma Sqrt3StartFloor()
    ensures Locate(Sqrt3Poly) == Success(FloorAt(1))
  {
    assert Scan([-3, 0, 1], false, 1) == Success(FloorAt(1));
  }

  lemma Sqrt3StartTurn()
    ensures Accordion(Sqrt3Poly, 1) == Sqrt3Even
  {
    assert Synth([0, 1], 1) == [1, 1];
    assert Synth([-3, 0, 1], 1) == [-2, 1, 1];
    assert Synth([1, 1], 1) == [2, 1];
    assert ShiftFrom([-3, 0, 1], 1) == [-2, 2, 1];
    assert Rev([-2, 2, 1]) == [1, 2, -2];
  }

  /** 1 + 2x - 2x²: floor 1, turning into -2 - 2x + x². */
  lemma Sqrt3EvenFloor()
    ensures Locate(Sqrt3Even) == Success(FloorAt(1))
  {
    assert Scan([1, 2, -2], true, 1) == Success(FloorAt(1));
  }

  lemma Sqrt3EvenTurn()
    ensures Accordion(Sqrt3Even, 1) == Sqrt3Odd
  {
    assert Synth([2, -2], 1) == [0, -2];
    assert Synth([1, 2, -2], 1) == [1, 0, -2];
    assert Synth([0, -2], 1) == [-2, -2];
    assert ShiftFrom([1, 2, -2], 1) == [1, -2, -2];
    assert Rev([1, -2, -2]) == [-2, -2, 1];
  }

  /** -2 - 2x + x²: floor 2, turning back into 1 + 2x - 2x². */
  lemma Sqrt3OddFloor()
    ensures Locate(Sqrt3Odd) == Success(FloorAt(2))
  {
    assert Scan([-2, -2, 1], false, 2) == Success(FloorAt(2));
    assert Scan([-2, -2, 1], false, 1) == Success(FloorAt(2));
  }

  lemma Sqrt3OddTurn()
    ensures Accordion(Sqrt3Odd, 2) == Sqrt3Even
  {
    assert Synth([-2, 1], 2) == [0, 1];
    assert Synth([-2, -2, 1], 2) == [-2, 0, 1];
    assert Synth([0, 1], 2) == [2, 1];
    assert ShiftFrom([-2, -2, 1], 2) == [-2, 2, 1];
    assert Rev([-2, 2, 1]) == [1, 2, -2];
  }

  /** √2 = [1; 2, 2, 2, …], for any number of rounds. */
  lemma Sqrt2Expansion(n: nat)
    requires n >= 1
    ensures AlgebraicStream(Sqrt2Poly, n).out == [1] + Cycle(2, 2, n - 1)
  {
    Sqrt2StartFloor(); Sqrt2StartTurn();
    Sqrt2EvenFloor(); Sqrt2EvenTurn();
    Sqrt2OddFloor(); Sqrt2OddTurn();
    OpenThenCycle(Sqrt2Poly, 1, Sqrt2Even, 2, Sqrt2Odd, 2, n, Accordion);
  }

  /** The golden ratio = [1; 1, 1, …], for any number of rounds. */
  lemma GoldenExpansion(n: nat)
    ensures AlgebraicStream(GoldenPoly, n).out == Cycle(1, 1, n)
  {
    GoldenFloor(); GoldenTurn();
    GoldenTwinFloor(); GoldenTwinTurn();
    TwoCycle(GoldenPoly, 1, GoldenTwin, 1, n, Accordion);
  }

  /** √3 = [1; 1, 2, 1, 2, …], for any number of rounds. */
  lemma Sqrt3Expansion(n: nat)
    requires n >= 1
    ensures AlgebraicStream(Sqrt3Poly, n).out == [1] + Cycle(1, 2, n - 1)
  {
    Sqrt3StartFloor(); Sqrt3StartTurn();
    Sqrt3EvenFloor(); Sqrt3EvenTurn();
    Sqrt3OddFloor(); Sqrt3OddTurn();
    OpenThenCycle(Sqrt3Poly, 1, Sqrt3Even, 1, Sqrt3Odd, 2, n, Accordion);
  }

  /** The prefixes of the three quadratic irrationals under any `max_iter`
      from 5 on, the default 1000 included: √2 opens 1, 2, 2, 2, 2 … */
  lemma Sqrt2Prefix(maxIter: nat)
    requires maxIter >= 5
    ensures |AlgebraicStream(Sqrt2Poly, maxIter).out| == maxIter
    ensures AlgebraicStream(Sqrt2Poly, maxIter).out[..5] == [1, 2, 2, 2, 2]
  {
    Sqrt2Expansion(maxIter);
    CycleOpening(AlgebraicStream(Sqrt2Poly, maxIter).out, 1, 2, 2, maxIter);
  }

  /** … the golden ratio 1, 1, 1, 1, 1 … */
  lemma GoldenPrefix(maxIter: nat)
    requires maxIter >= 5
    ensures |AlgebraicStream(GoldenPoly, maxIter).out| == maxIter
    ensures AlgebraicStream(GoldenPoly, maxIter).out[..5] == [1, 1, 1, 1, 1]
  {
    GoldenExpansion(maxIter);
    CyclePrefix(1, 1, maxIter, 5);
    assert Cycle(1, 1, 5) == [1, 1, 1, 1, 1];
  }

  /** … and √3 1, 1, 2, 1, 2. */
  lemma Sqrt3Prefix(maxIter: nat)
    requires maxIter >= 5
    ensures |AlgebraicStream(Sqrt3Poly, maxIter).out| == maxIter
    ensures AlgebraicStream(Sqrt3Poly, maxIter).out[..5] == [1, 1, 2, 1, 2]
  {
    Sqrt3Expansion(maxIter);
    CycleOpening(AlgebraicStream(Sqrt3Poly, maxIter).out, 1, 1, 2, maxIter);
  }

  /** x - 2000 keeps the negative side for every counter the scan may try,
      so the stream raises before yielding anything. */
  lemma ScanExceededExample()
    ensures AlgebraicStream([-2000, 1], 5) == Trace([], [-2000, 1], Raised(ScanExceeded))
  {
    var p := [-2000, 1];
    forall j | 1 <= j <= ScanLimit + 1
      ensures Keeps(p, StartSide(p), j)
    {
      assert Val(p, j) == -2000 + j;
    }
    assert Val(p, 0) == -2000;
    LocateRaisesIff(p);
  }
}
