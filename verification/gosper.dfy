/** The bihomographic engine of core/gosper.py. Eight coefficients hold
      z = (a·x·y + b·x + c·y + d) / (e·x·y + f·x + g·y + h)
    and three integer-matrix moves keep z fixed while the inputs x, y are
    read term by term and the output is written term by term. Values are
    homogeneous pairs (see module Projective), so every identity is exact. */
module Gosper {
  import opened Wrappers
  import opened Science
  import opened Projective
  import opened Streams
  import Euclid
  import Polynomials

  /** One row of coefficients: the form c.a·xy + c.b·x + c.c·y + c.d. */
  datatype Row = Row(a: int, b: int, c: int, d: int)

  /** The state: numerator row (a, b, c, d) over denominator row
      (e, f, g, h). */
  datatype State = State(num: Row, den: Row)

  /** The eight coefficients a, b, c, d, e, f, g, h in order. */
  function Coefficients(s: State): (cs: seq<int>)
    ensures |cs| == 8 && cs[0] == s.num.a && cs[4] == s.den.a
  {
    [s.num.a, s.num.b, s.num.c, s.num.d, s.den.a, s.den.b, s.den.c, s.den.d]
  }

  /** Sum of the eight coefficient masses: vacuum exactly when every
      coefficient is. */
  function Mass(s: State): (m: nat)
    ensures m == 0 <==> forall i :: 0 <= i < 8 ==> Coefficients(s)[i] == 0
  {
    Polynomials.Mass(Coefficients(s))
  }

  /** A row's form at homogeneous inputs x = x.n/x.d, y = y.n/y.d. */
  function Form(r: Row, x: Pair, y: Pair): int
  {
    r.a * (x.n * y.n) + r.b * (x.n * y.d) + r.c * (x.d * y.n) + r.d * (x.d * y.d)
  }

  /** The value z the state denotes at inputs x, y. */
  function Apply(s: State, x: Pair, y: Pair): Pair
  {
    Pair(Form(s.num, x, y), Form(s.den, x, y))
  }

  function RowX(r: Row, p: int): Row
  {
    Row(r.a * p + r.c, r.b * p + r.d, r.a, r.b)
  }

  function RowY(r: Row, q: int): Row
  {
    Row(r.a * q + r.b, r.a, r.c * q + r.d, r.c)
  }

  /** r - k·u, coefficientwise. */
  function RowMinus(r: Row, k: int, u: Row): Row
  {
    Row(r.a - u.a * k, r.b - u.b * k, r.c - u.c * k, r.d - u.d * k)
  }

  /** `ingest_x(p)`: (a, b, c, d, e, f, g, h) becomes
      (ap + c, bp + d, a, b, ep + g, fp + h, e, f). */
  function IngestX(s: State, p: int): State
  {
    State(RowX(s.num, p), RowX(s.den, p))
  }

  /** `ingest_y(q)`: (a, b, c, d, e, f, g, h) becomes
      (aq + b, a, cq + d, c, eq + f, e, gq + h, g). */
  function IngestY(s: State, q: int): State
  {
    State(RowY(s.num, q), RowY(s.den, q))
  }

  /** `emit(k)`: the numerator row becomes the old denominator row, the
      denominator row the old numerator row minus k times the old
      denominator row. */
  function Emit(s: State, k: int): State
  {
    State(s.den, RowMinus(s.num, k, s.den))
  }

  lemma RowXPreserves(r: Row, p: int, x: Pair, y: Pair)
    ensures Form(RowX(r, p), x, y) == Form(r, Level(p, x), y)
  {
    var u := Level(p, x);
    assert u.n * y.n == p * (x.n * y.n) + x.d * y.n;
    assert u.n * y.d == p * (x.n * y.d) + x.d * y.d;
    assert u.d * y.n == x.n * y.n && u.d * y.d == x.n * y.d;
  }

  lemma RowYPreserves(r: Row, q: int, x: Pair, y: Pair)
    ensures Form(RowY(r, q), x, y) == Form(r, x, Level(q, y))
  {
    var v := Level(q, y);
    assert x.n * v.n == q * (x.n * y.n) + x.n * y.d;
    assert x.d * v.n == q * (x.d * y.n) + x.d * y.d;
    assert x.n * v.d == x.n * y.n && x.d * v.d == x.d * y.n;
  }

  lemma RowMinusForm(r: Row, k: int, u: Row, x: Pair, y: Pair)
    ensures Form(RowMinus(r, k, u), x, y) == Form(r, x, y) - k * Form(u, x, y)
  {
    var (p, q, v, w) := (x.n * y.n, x.n * y.d, x.d * y.n, x.d * y.d);
    MinusTerm(r.a, u.a, k, p);
    MinusTerm(r.b, u.b, k, q);
    MinusTerm(r.c, u.c, k, v);
    MinusTerm(r.d, u.d, k, w);
    assert k * Form(u, x, y) == k * (u.a * p) + k * (u.b * q) + k * (u.c * v) + k * (u.d * w);
  }

  lemma MinusTerm(c: int, e: int, k: int, m: int)
    ensures (c - e * k) * m == c * m - k * (e * m)
  {
  }

  /** Reading the term p of x (x = p + 1/x') leaves the value unchanged. */
  lemma IngestXPreserves(s: State, p: int, x: Pair, y: Pair)
    ensures Apply(IngestX(s, p), x, y) == Apply(s, Level(p, x), y)
  {
    RowXPreserves(s.num, p, x, y);
    RowXPreserves(s.den, p, x, y);
  }

  /** Reading the term q of y (y = q + 1/y') leaves the value unchanged. */
  lemma IngestYPreserves(s: State, q: int, x: Pair, y: Pair)
    ensures Apply(IngestY(s, q), x, y) == Apply(s, x, Level(q, y))
  {
    RowYPreserves(s.num, q, x, y);
    RowYPreserves(s.den, q, x, y);
  }

  /** Writing the term k (z = k + 1/z') leaves z' for the new state. */
  lemma EmitPreserves(s: State, k: int, x: Pair, y: Pair)
    ensures Apply(s, x, y) == Level(k, Apply(Emit(s, k), x, y))
  {
    RowMinusForm(s.num, k, s.den, x, y);
  }

  /** Once both inputs are infinite (spent), the value is a/e. */
  lemma SpentInputs(s: State)
    ensures Apply(s, Infinity, Infinity) == Pair(s.num.a, s.den.a)
  {
  }

  // ---------------------------------------------------------------- consensus

  /** The candidate list, in the order the engine builds it: the corner
      quotients a/e, (a+b+c+d)/(e+f+g+h), (a+b)/(e+f) and (a+c)/(e+g). */
  function Candidates(s: State, xAlive: bool, yAlive: bool): seq<Option<int>>
  {
    var (n, m) := (s.num, s.den);
    [Quotient(n.a, m.a)]
    + (if xAlive && yAlive then [Quotient(n.a + n.b + n.c + n.d, m.a + m.b + m.c + m.d)] else [])
    + (if yAlive then [Quotient(n.a + n.b, m.a + m.b)] else [])
    + (if xAlive then [Quotient(n.a + n.c, m.a + m.c)] else [])
  }

  /** Every candidate in the list is defined and equal to v. */
  predicate AllAre(cs: seq<Option<int>>, v: int)
  {
    |cs| == 0 || (cs[0] == Some(v) && AllAre(cs[1..], v))
  }

  /** The first candidate, provided every candidate is defined and each
      later one agrees with it. */
  function Agreement(cs: seq<Option<int>>): Option<int>
  {
    if |cs| == 0 || cs[0].None? then None
    else if AllAre(cs[1..], cs[0].value) then cs[0]
    else None
  }

  function Consensus(s: State, xAlive: bool, yAlive: bool): Option<int>
  {
    Agreement(Candidates(s, xAlive, yAlive))
  }

  lemma {:induction false} AllAreAppend(u: seq<Option<int>>, w: seq<Option<int>>, v: int)
    ensures AllAre(u + w, v) <==> AllAre(u, v) && AllAre(w, v)
    decreases |u|
  {
    if |u| == 0 {
      assert u + w == w;
    } else {
      assert (u + w)[1..] == u[1..] + w;
      AllAreAppend(u[1..], w, v);
    }
  }

  lemma AllAreSingle(q: Option<int>, v: int)
    ensures AllAre([q], v) <==> q == Some(v)
  {
    assert [q][1..] == [];
  }

  /** A term is emitted exactly when every live corner of the input box has a
      non-vacuum denominator and the same truncated quotient. */
  lemma ConsensusRule(s: State, xAlive: bool, yAlive: bool, k: int)
    ensures var (n, m) := (s.num, s.den);
      Consensus(s, xAlive, yAlive) == Some(k) <==>
        (m.a != 0 && TruncDiv(n.a, m.a) == k)
        && (xAlive && yAlive ==>
              m.a + m.b + m.c + m.d != 0 && TruncDiv(n.a + n.b + n.c + n.d, m.a + m.b + m.c + m.d) == k)
        && (yAlive ==> (m.a + m.b != 0 && TruncDiv(n.a + n.b, m.a + m.b) == k))
        && (xAlive ==> (m.a + m.c != 0 && TruncDiv(n.a + n.c, m.a + m.c) == k))
  {
    var (n, m) := (s.num, s.den);
    var q0 := [Quotient(n.a, m.a)];
    var q1: seq<Option<int>> := if xAlive && yAlive then [Quotient(n.a + n.b + n.c + n.d, m.a + m.b + m.c + m.d)] else [];
    var q2: seq<Option<int>> := if yAlive then [Quotient(n.a + n.b, m.a + m.b)] else [];
    var q3: seq<Option<int>> := if xAlive then [Quotient(n.a + n.c, m.a + m.c)] else [];
    var cs := Candidates(s, xAlive, yAlive);
    assert cs == q0 + q1 + q2 + q3;
    assert cs[1..] == q1 + q2 + q3;
    AllAreAppend(q1 + q2, q3, k);
    AllAreAppend(q1, q2, k);
    AllAreSingle(q0[0], k);
    if xAlive && yAlive { AllAreSingle(q1[0], k); }
    if yAlive { AllAreSingle(q2[0], k); }
    if xAlive { AllAreSingle(q3[0], k); }
  }

  // ------------------------------------------------------------------ engine

  /** The generator's suspended state: coefficients, both input registers
      and the two liveness flags. */
  datatype Engine = Engine(s: State, x: Stream<int>, y: Stream<int>, xAlive: bool, yAlive: bool)

  /** Registers are well formed, and a dead input has nothing left. */
  ghost predicate Inv(en: Engine)
  {
    Valid(en.x) && Valid(en.y)
    && (!en.xAlive ==> Pending(en.x) == [])
    && (!en.yAlive ==> Pending(en.y) == [])
  }

  /** `gosper_engine(x_stream, y_stream, a, …, h)` before its first step. */
  function Start(s: State, xs: seq<int>, ys: seq<int>): (en: Engine)
    ensures Inv(en) && en.s == s && en.xAlive && en.yAlive
    ensures Pending(en.x) == xs && Pending(en.y) == ys
  {
    Engine(s, New(xs), New(ys), true, true)
  }

  datatype Move = Ingested(next: Engine) | Drained

  /** The consume policy after a failed consensus: x if it has a head; else
      y if it has a head (an empty x head kills x for good); with both dead
      and nothing read, the engine drains. */
  function Feed(en: Engine): Move
  {
    var xRead := if en.xAlive then Consume(en.x) else Failure(Exhausted);
    if xRead.Success? then
      Ingested(en.(s := IngestX(en.s, xRead.value.0), x := xRead.value.1))
    else
      var yRead := if en.yAlive then Consume(en.y) else Failure(Exhausted);
      if yRead.Success? then
        Ingested(en.(s := IngestY(en.s, yRead.value.0), y := yRead.value.1, xAlive := false))
      else
        Drained
  }

  /** Feeding reads exactly one term, from x while x has one, else from y;
      it drains only when both inputs are spent, and keeps the invariant. */
  lemma FeedFacts(en: Engine)
    requires Inv(en)
    ensures Feed(en).Drained? <==> Pending(en.x) == [] && Pending(en.y) == []
    ensures Feed(en).Ingested? ==> Inv(Feed(en).next)
    ensures Feed(en).Ingested? && Pending(en.x) != [] ==>
      var next := Feed(en).next;
      en.xAlive && Pending(en.x) == [en.x.buffer.value] + Pending(next.x) && next.y == en.y
      && next.s == IngestX(en.s, en.x.buffer.value) && next.yAlive == en.yAlive
    ensures Feed(en).Ingested? && Pending(en.x) == [] ==>
      var next := Feed(en).next;
      en.yAlive && Pending(en.y) == [en.y.buffer.value] + Pending(next.y) && !next.xAlive
      && next.s == IngestY(en.s, en.y.buffer.value) && next.yAlive
  {
  }

  /** What a fuel-bounded run produced: the terms yielded, whether the
      generator returned, and the state it was suspended (or returned) in. */
  datatype Trace = Trace(out: seq<int>, halted: bool, last: Engine)

  /** What one round of the main loop does: emit the consensus term, or
      read one input term, or (both inputs spent) drain a/e and return. */
  datatype Round = Emitted(k: int, next: Engine) | Fed(next: Engine) | Halted

  function Step(en: Engine): Round
  {
    match Consensus(en.s, en.xAlive, en.yAlive)
    case Some(k) => Emitted(k, en.(s := Emit(en.s, k)))
    case None =>
      match Feed(en)
      case Ingested(next) => Fed(next)
      case Drained => Halted
  }

  /** Up to `fuel` rounds of a loop whose rounds are given by `step`; the
      final drain of a/e is the Euclid expansion and completes within the
      round that starts it. */
  function Drive(en: Engine, fuel: nat, step: Engine -> Round): Trace
    decreases fuel
  {
    if fuel == 0 then Trace([], false, en)
    else
      match step(en)
      case Emitted(k, next) =>
        var t := Drive(next, fuel - 1, step);
        Trace([k] + t.out, t.halted, t.last)
      case Fed(next) => Drive(next, fuel - 1, step)
      case Halted => Trace(Euclid.Terms(en.s.num.a, en.s.den.a), true, en)
  }

  /** The engine's main loop, `fuel` rounds of it. */
  function Run(en: Engine, fuel: nat): Trace
  {
    Drive(en, fuel, Step)
  }

  /** The value of the whole computation: the state at the inputs' values
      (a spent input is infinite). */
  ghost function Target(en: Engine): Pair
  {
    Apply(en.s, Value(Pending(en.x)), Value(Pending(en.y)))
  }

  /** What the yielded terms are still to be folded onto, measuring a
      suspended engine with `target`. */
  ghost function Rest(t: Trace, target: Engine -> Pair): Pair
  {
    if t.halted then Pair(Euclid.LastDivisor(t.last.s.num.a, t.last.s.den.a), 0) else target(t.last)
  }

  ghost function Residual(t: Trace): Pair
  {
    Rest(t, Target)
  }

  lemma FeedPreserves(en: Engine)
    requires Inv(en)
    ensures Feed(en).Ingested? ==> Target(Feed(en).next) == Target(en)
    ensures Feed(en).Drained? ==> Target(en) == Pair(en.s.num.a, en.s.den.a)
  {
    FeedFacts(en);
    var m := Feed(en);
    if m.Ingested? {
      var nx := m.next;
      if Pending(en.x) != [] {
        var p := en.x.buffer.value;
        assert ([p] + Pending(nx.x))[1..] == Pending(nx.x);
        IngestXPreserves(en.s, p, Value(Pending(nx.x)), Value(Pending(en.y)));
      } else {
        var q := en.y.buffer.value;
        assert ([q] + Pending(nx.y))[1..] == Pending(nx.y);
        assert Pending(nx.x) == [];
        IngestYPreserves(en.s, q, Value(Pending(en.x)), Value(Pending(nx.y)));
      }
    }
  }

  /** Soundness: at every fuel, folding the yielded terms onto what remains
      gives back the exact value of the seeded state at the inputs. After a
      halt the remainder is g/0, so the output alone denotes that value. */
  lemma {:induction false} DriveSound(en: Engine, fuel: nat, step: Engine -> Round,
                                     inv: Engine -> bool, target: Engine -> Pair)
    requires inv(en) && Sound(step, inv, target)
    ensures Fold(Drive(en, fuel, step).out, Rest(Drive(en, fuel, step), target)) == target(en)
    decreases fuel
  {
    if fuel > 0 {
      assert Law(en, step(en), inv, target);
      match step(en)
      case Emitted(k, next) =>
        var t' := Drive(next, fuel - 1, step);
        DriveSound(next, fuel - 1, step, inv, target);
        FoldCons(k, t'.out, Rest(t', target));
        assert Drive(en, fuel, step) == Trace([k] + t'.out, t'.halted, t'.last);
      case Fed(next) =>
        DriveSound(next, fuel - 1, step, inv, target);
      case Halted =>
        Euclid.FoldsBack(en.s.num.a, en.s.den.a);
    }
  }

  lemma RunSound(en: Engine, fuel: nat)
    requires Inv(en)
    ensures Fold(Run(en, fuel).out, Residual(Run(en, fuel))) == Target(en)
  {
    StepSound();
    DriveSound(en, fuel, Step, Inv, Target);
  }

  /** What one round promises, for an invariant and a measure of the
      engine: an emitted k peels one level k + 1/z' off the measure, a read
      leaves it unchanged, both keep the invariant, and a halt happens at
      the value a/e. */
  ghost predicate Law(en: Engine, r: Round, inv: Engine -> bool, target: Engine -> Pair)
  {
    match r
    case Emitted(k, next) => inv(next) && target(en) == Level(k, target(next))
    case Fed(next) => inv(next) && target(next) == target(en)
    case Halted => target(en) == Pair(en.s.num.a, en.s.den.a)
  }

  ghost predicate Sound(step: Engine -> Round, inv: Engine -> bool, target: Engine -> Pair)
  {
    forall en :: inv(en) ==> Law(en, step(en), inv, target)
  }

  lemma StepPreserves(en: Engine)
    requires Inv(en)
    ensures Law(en, Step(en), Inv, Target)
  {
    match Consensus(en.s, en.xAlive, en.yAlive)
    case Some(k) =>
      EmitPreserves(en.s, k, Value(Pending(en.x)), Value(Pending(en.y)));
    case None =>
      FeedFacts(en);
      FeedPreserves(en);
  }

  /** The engine's round keeps the law in every state. */
  lemma StepSound()
    ensures Sound(Step, Inv, Target)
  {
    forall en | Inv(en)
      ensures Law(en, Step(en), Inv, Target)
    {
      StepPreserves(en);
    }
  }

  /** After a halt over a finite-valued target, the output continued
      fraction denotes the target exactly as a real number. */
  lemma RunExact(en: Engine, fuel: nat)
    requires Inv(en)
    requires Run(en, fuel).halted && Target(en).d != 0
    ensures Value(Run(en, fuel).out).d != 0
    ensures ToReal(Value(Run(en, fuel).out)) == ToReal(Target(en))
  {
    var t := Run(en, fuel);
    var g := Euclid.LastDivisor(t.last.s.num.a, t.last.s.den.a);
    RunSound(en, fuel);
    FoldScale(t.out, g, Infinity);
    assert Scale(g, Infinity) == Pair(g, 0);
    Euclid.ScaledRatio(g, Value(t.out), Target(en).n, Target(en).d);
  }

  /** Output never regresses: more fuel only extends the output, and a run
      that halted is not changed by more fuel. */
  lemma {:induction false} DriveMonotone(en: Engine, f1: nat, f2: nat, step: Engine -> Round)
    requires f1 <= f2
    ensures Drive(en, f1, step).out <= Drive(en, f2, step).out
    ensures Drive(en, f1, step).halted ==> Drive(en, f2, step) == Drive(en, f1, step)
    decreases f1
  {
    if f1 > 0 {
      match step(en)
      case Emitted(k, next) =>
        DriveMonotone(next, f1 - 1, f2 - 1, step);
      case Fed(next) =>
        DriveMonotone(next, f1 - 1, f2 - 1, step);
      case Halted =>
    }
  }

  lemma RunMonotone(en: Engine, f1: nat, f2: nat)
    requires f1 <= f2
    ensures Run(en, f1).out <= Run(en, f2).out
    ensures Run(en, f1).halted ==> Run(en, f2) == Run(en, f1)
  {
    DriveMonotone(en, f1, f2, Step);
  }

  // ------------------------------------------------------------------- seeds

  const AddSeed := State(Row(0, 1, 1, 0), Row(0, 0, 0, 1))
  const SubSeed := State(Row(0, 1, -1, 0), Row(0, 0, 0, 1))
  const MulSeed := State(Row(1, 0, 0, 0), Row(0, 0, 0, 1))
  const DivSeed := State(Row(0, 1, 0, 0), Row(0, 0, 1, 0))

  /** The four seeds denote x + y, x − y, x · y and x / y. */
  lemma SeedMeaning(x: Pair, y: Pair)
    ensures Apply(AddSeed, x, y) == Pair(x.n * y.d + x.d * y.n, x.d * y.d)
    ensures Apply(SubSeed, x, y) == Pair(x.n * y.d - x.d * y.n, x.d * y.d)
    ensures Apply(MulSeed, x, y) == Pair(x.n * y.n, x.d * y.d)
    ensures Apply(DivSeed, x, y) == Pair(x.n * y.d, x.d * y.n)
  {
  }

  /** The input values a fresh engine is seeded with. */
  lemma StartTarget(s: State, xs: seq<int>, ys: seq<int>)
    ensures Target(Start(s, xs, ys)) == Apply(s, Value(xs), Value(ys))
  {
  }

  lemma RealSum(xn: int, xd: int, yn: int, yd: int)
    requires xd != 0 && yd != 0
    ensures (xn * yd + xd * yn) as real / (xd * yd) as real
            == xn as real / xd as real + yn as real / yd as real
  {
    Euclid.IntMulReal(xn, yd);
    Euclid.IntMulReal(xd, yn);
    Euclid.IntMulReal(xd, yd);
  }

  lemma RealDifference(xn: int, xd: int, yn: int, yd: int)
    requires xd != 0 && yd != 0
    ensures (xn * yd - xd * yn) as real / (xd * yd) as real
            == xn as real / xd as real - yn as real / yd as real
  {
    Euclid.IntMulReal(xn, yd);
    Euclid.IntMulReal(xd, yn);
    Euclid.IntMulReal(xd, yd);
  }

  lemma RealProduct(xn: int, xd: int, yn: int, yd: int)
    requires xd != 0 && yd != 0
    ensures (xn * yn) as real / (xd * yd) as real
            == (xn as real / xd as real) * (yn as real / yd as real)
  {
    Euclid.IntMulReal(xn, yn);
    Euclid.IntMulReal(xd, yd);
  }

  lemma RealQuotient(xn: int, xd: int, yn: int, yd: int)
    requires xd != 0 && yd != 0 && yn != 0
    ensures (xn * yd) as real / (xd * yn) as real
            == (xn as real / xd as real) / (yn as real / yd as real)
  {
    Euclid.IntMulReal(xn, yd);
    Euclid.IntMulReal(xd, yn);
  }

  /** A halted run of the addition engine over two finite continued
      fractions (with finite values) outputs exactly x + y. */
  lemma SumExact(xs: seq<int>, ys: seq<int>, fuel: nat)
    requires Value(xs).d != 0 && Value(ys).d != 0
    requires Run(Start(AddSeed, xs, ys), fuel).halted
    ensures Value(Run(Start(AddSeed, xs, ys), fuel).out).d != 0
    ensures ToReal(Value(Run(Start(AddSeed, xs, ys), fuel).out))
            == ToReal(Value(xs)) + ToReal(Value(ys))
  {
    var (x, y) := (Value(xs), Value(ys));
    SeedMeaning(x, y);
    StartTarget(AddSeed, xs, ys);
    RunExact(Start(AddSeed, xs, ys), fuel);
    RealSum(x.n, x.d, y.n, y.d);
  }

  /** Likewise the subtraction engine outputs exactly x − y. */
  lemma DifferenceExact(xs: seq<int>, ys: seq<int>, fuel: nat)
    requires Value(xs).d != 0 && Value(ys).d != 0
    requires Run(Start(SubSeed, xs, ys), fuel).halted
    ensures Value(Run(Start(SubSeed, xs, ys), fuel).out).d != 0
    ensures ToReal(Value(Run(Start(SubSeed, xs, ys), fuel).out))
            == ToReal(Value(xs)) - ToReal(Value(ys))
  {
    var (x, y) := (Value(xs), Value(ys));
    SeedMeaning(x, y);
    StartTarget(SubSeed, xs, ys);
    RunExact(Start(SubSeed, xs, ys), fuel);
    RealDifference(x.n, x.d, y.n, y.d);
  }

  /** Likewise the multiplication engine outputs exactly x · y. */
  lemma ProductExact(xs: seq<int>, ys: seq<int>, fuel: nat)
    requires Value(xs).d != 0 && Value(ys).d != 0
    requires Run(Start(MulSeed, xs, ys), fuel).halted
    ensures Value(Run(Start(MulSeed, xs, ys), fuel).out).d != 0
    ensures ToReal(Value(Run(Start(MulSeed, xs, ys), fuel).out))
            == ToReal(Value(xs)) * ToReal(Value(ys))
  {
    var (x, y) := (Value(xs), Value(ys));
    SeedMeaning(x, y);
    StartTarget(MulSeed, xs, ys);
    RunExact(Start(MulSeed, xs, ys), fuel);
    RealProduct(x.n, x.d, y.n, y.d);
  }

  /** Likewise the division engine outputs exactly x / y when y != 0. */
  lemma QuotientExact(xs: seq<int>, ys: seq<int>, fuel: nat)
    requires Value(xs).d != 0 && Value(ys).d != 0 && Value(ys).n != 0
    requires Run(Start(DivSeed, xs, ys), fuel).halted
    ensures Value(Run(Start(DivSeed, xs, ys), fuel).out).d != 0
    ensures ToReal(Value(Run(Start(DivSeed, xs, ys), fuel).out))
            == ToReal(Value(xs)) / ToReal(Value(ys))
  {
    var (x, y) := (Value(xs), Value(ys));
    SeedMeaning(x, y);
    StartTarget(DivSeed, xs, ys);
    RunExact(Start(DivSeed, xs, ys), fuel);
    RealQuotient(x.n, x.d, y.n, y.d);
  }

  /** (1, 2, 0, 0 / 0, 0, 0, 1) has mass 4. */
  lemma MassExample()
    ensures Mass(State(Row(1, 2, 0, 0), Row(0, 0, 0, 1))) == 4
  {
  }
}
