/** Concrete runs of the seeded Gosper engines on the operands of the
    arithmetic tests, test/test_gosper_arithmatic.py:70-88 and
    test/test_continued_fraction.py:44-49, 83-90 and 121-126.

    Each operand is the expansion Euclid yields for its fraction. Each run is
    recorded round by round as a Moves value: which register is read or which
    term is agreed, and the engine that round leads to. One lemma per round
    checks the round against the engine's consensus and update rules on the
    literal state; the records are chained tail first, and FollowsRun turns a
    record into a statement about Run. The last lemma of each case adds the
    exact value: through the matching theorem of Gosper for sums,
    differences and quotients, and through Euclid's expansion of the exact
    result for products. */
module GosperExamples {
  import opened Wrappers
  import opened Projective
  import opened Streams
  import opened Gosper
  import Euclid

  /** t is s after reading the x term p, coefficient by coefficient. */
  predicate AfterX(s: State, p: int, t: State)
  {
    t.num.a == s.num.a * p + s.num.c && t.num.b == s.num.b * p + s.num.d
    && t.num.c == s.num.a && t.num.d == s.num.b
    && t.den.a == s.den.a * p + s.den.c && t.den.b == s.den.b * p + s.den.d
    && t.den.c == s.den.a && t.den.d == s.den.b
  }

  /** t is s after reading the y term q, coefficient by coefficient. */
  predicate AfterY(s: State, q: int, t: State)
  {
    t.num.a == s.num.a * q + s.num.b && t.num.b == s.num.a
    && t.num.c == s.num.c * q + s.num.d && t.num.d == s.num.c
    && t.den.a == s.den.a * q + s.den.b && t.den.b == s.den.a
    && t.den.c == s.den.c * q + s.den.d && t.den.d == s.den.c
  }

  /** t is s after writing the term k, coefficient by coefficient. */
  predicate AfterEmit(s: State, k: int, t: State)
  {
    t.num.a == s.den.a && t.num.b == s.den.b && t.num.c == s.den.c && t.num.d == s.den.d
    && t.den.a == s.num.a - s.den.a * k && t.den.b == s.num.b - s.den.b * k
    && t.den.c == s.num.c - s.den.c * k && t.den.d == s.num.d - s.den.d * k
  }

  /** One round reads the term p from x: no agreement yet and x still live. */
  predicate ReadsX(en: Engine, p: int, next: Engine)
  {
    Consensus(en.s, en.xAlive, en.yAlive).None?
    && en.xAlive && en.x.buffer == Some(p)
    && AfterX(en.s, p, next.s) && next.x == Fill(en.x.producer) && next.y == en.y
    && next.xAlive && next.yAlive == en.yAlive
  }

  /** One round reads the term q from y, x being spent or idle; reading y
      retires x for good. */
  predicate ReadsY(en: Engine, q: int, next: Engine)
  {
    Consensus(en.s, en.xAlive, en.yAlive).None?
    && (!en.xAlive || en.x.buffer.None?)
    && en.yAlive && en.y.buffer == Some(q)
    && AfterY(en.s, q, next.s) && next.x == en.x && next.y == Fill(en.y.producer)
    && !next.xAlive && next.yAlive
  }

  /** One round writes the agreed term k and leaves the registers alone. */
  predicate Emits(en: Engine, k: int, next: Engine)
  {
    Consensus(en.s, en.xAlive, en.yAlive) == Some(k)
    && AfterEmit(en.s, k, next.s) && next.x == en.x && next.y == en.y
    && next.xAlive == en.xAlive && next.yAlive == en.yAlive
  }

  /** No agreement and nothing left to read: the round drains a/e. */
  predicate Drains(en: Engine)
  {
    Consensus(en.s, en.xAlive, en.yAlive).None?
    && (!en.xAlive || en.x.buffer.None?)
    && (!en.yAlive || en.y.buffer.None?)
  }

  lemma RoundReadsX(en: Engine, p: int, next: Engine)
    requires ReadsX(en, p, next)
    ensures Step(en) == Fed(next)
  {
    IngestXFields(en.s, p, next.s);
  }

  lemma RoundReadsY(en: Engine, q: int, next: Engine)
    requires ReadsY(en, q, next)
    ensures Step(en) == Fed(next)
  {
    IngestYFields(en.s, q, next.s);
  }

  lemma RoundEmits(en: Engine, k: int, next: Engine)
    requires Emits(en, k, next)
    ensures Step(en) == Emitted(k, next)
  {
    EmitFields(en.s, k, next.s);
  }

  lemma RoundDrains(en: Engine)
    requires Drains(en)
    ensures Step(en) == Halted
  {
  }

  lemma RunFed(en: Engine, next: Engine, fuel: nat)
    requires Step(en) == Fed(next)
    ensures Run(en, fuel + 1) == Run(next, fuel)
  {
  }

  lemma RunEmitted(en: Engine, k: int, next: Engine, fuel: nat)
    requires Step(en) == Emitted(k, next)
    ensures Run(en, fuel + 1).out == [k] + Run(next, fuel).out
    ensures Run(en, fuel + 1).halted == Run(next, fuel).halted
  {
  }

  lemma RunHalted(en: Engine, fuel: nat)
    requires Step(en) == Halted && fuel >= 1
    ensures Run(en, fuel).out == Euclid.Terms(en.s.num.a, en.s.den.a)
    ensures Run(en, fuel).halted
  {
  }

  /** The successor states, coefficient by coefficient. */
  lemma IngestXFields(s: State, p: int, t: State)
    requires AfterX(s, p, t)
    ensures t == IngestX(s, p)
  {
  }

  lemma IngestYFields(s: State, q: int, t: State)
    requires AfterY(s, q, t)
    ensures t == IngestY(s, q)
  {
  }

  lemma EmitFields(s: State, k: int, t: State)
    requires AfterEmit(s, k, t)
    ensures t == Emit(s, k)
  {
  }

  /** A drained a/e that divides exactly yields the single term a / e. */
  lemma ExactDivision(n: int, d: int, q: int)
    requires d != 0 && n == d * q
    ensures Euclid.Terms(n, d) == [q]
  {
    Euclid.TermsStep(n, d, q, 0);
  }

  /** A drained a/0 yields nothing. */
  lemma Vacuum(n: int, d: int)
    requires d == 0
    ensures Euclid.Terms(n, d) == []
  {
    Euclid.EmptyOnVacuumDenominator(n);
  }

  /** A recorded run: each round taken, with the engine it leads to. */
  datatype Moves =
    | Done(out: seq<int>)
    | ReadX(p: int, next: Engine, rest: Moves)
    | ReadY(q: int, next: Engine, rest: Moves)
    | Wrote(k: int, next: Engine, rest: Moves)

  /** en takes the recorded rounds one after another and then drains. The
      body sits in Takes so that a known Follows fact opens one round only
      when a proof asks for it. */
  predicate Follows(en: Engine, m: Moves)
    decreases m, 1
  {
    Takes(en, m)
  }

  /** The first recorded round is legal from en, and the engine it leads to
      follows the rest of the record. */
  predicate Takes(en: Engine, m: Moves)
    decreases m, 0
  {
    match m
    case Done(out) => Drains(en) && out == Euclid.Terms(en.s.num.a, en.s.den.a)
    case ReadX(p, next, rest) => ReadsX(en, p, next) && Follows(next, rest)
    case ReadY(q, next, rest) => ReadsY(en, q, next) && Follows(next, rest)
    case Wrote(k, next, rest) => Emits(en, k, next) && Follows(next, rest)
  }

  /** The order of the recorded rounds: 'x' and 'y' read a term of that
      input, 'k' writes a term. */
  function Schedule(m: Moves): string
  {
    match m
    case Done(_) => ""
    case ReadX(_, _, rest) => "x" + Schedule(rest)
    case ReadY(_, _, rest) => "y" + Schedule(rest)
    case Wrote(_, _, rest) => "k" + Schedule(rest)
  }

  /** The terms an engine following the record writes: the recorded terms,
      then the drain of a/e in the state the record ends in. */
  function Output(m: Moves): seq<int>
  {
    match m
    case Done(out) => out
    case ReadX(_, _, rest) => Output(rest)
    case ReadY(_, _, rest) => Output(rest)
    case Wrote(k, _, rest) => [k] + Output(rest)
  }

  lemma ExtendReadX(en: Engine, p: int, next: Engine, rest: Moves) returns (m: Moves)
    requires ReadsX(en, p, next) && Follows(next, rest)
    ensures Follows(en, m) && Schedule(m) == "x" + Schedule(rest) && Output(m) == Output(rest)
  {
    m := ReadX(p, next, rest);
  }

  lemma ExtendReadY(en: Engine, q: int, next: Engine, rest: Moves) returns (m: Moves)
    requires ReadsY(en, q, next) && Follows(next, rest)
    ensures Follows(en, m) && Schedule(m) == "y" + Schedule(rest) && Output(m) == Output(rest)
  {
    m := ReadY(q, next, rest);
  }

  lemma ExtendWrote(en: Engine, k: int, next: Engine, rest: Moves) returns (m: Moves)
    requires Emits(en, k, next) && Follows(next, rest)
    ensures Follows(en, m) && Schedule(m) == "k" + Schedule(rest) && Output(m) == [k] + Output(rest)
  {
    m := Wrote(k, next, rest);
  }

  lemma AdvanceX(en: Engine, p: int, next: Engine, fuel: nat)
    requires ReadsX(en, p, next)
    ensures Run(en, fuel + 1) == Run(next, fuel)
  {
    RoundReadsX(en, p, next);
  }

  lemma AdvanceY(en: Engine, q: int, next: Engine, fuel: nat)
    requires ReadsY(en, q, next)
    ensures Run(en, fuel + 1) == Run(next, fuel)
  {
    RoundReadsY(en, q, next);
  }

  lemma AdvanceEmit(en: Engine, k: int, next: Engine, fuel: nat)
    requires Emits(en, k, next)
    ensures Run(en, fuel + 1).out == [k] + Run(next, fuel).out
    ensures Run(en, fuel + 1).halted == Run(next, fuel).halted
  {
    RoundEmits(en, k, next);
  }

  lemma Finish(en: Engine, fuel: nat)
    requires Drains(en) && fuel >= 1
    ensures Run(en, fuel).halted
    ensures Run(en, fuel).out == Euclid.Terms(en.s.num.a, en.s.den.a)
  {
    RoundDrains(en);
    RunHalted(en, fuel);
  }

  /** An engine that follows a record runs to a halt with enough fuel, and
      writes the recorded terms followed by the drain of its last state. */
  lemma FollowsRun(en: Engine, m: Moves, fuel: nat)
    requires Follows(en, m)
    requires fuel > |Schedule(m)|
    ensures Run(en, fuel).halted
    ensures Run(en, fuel).out == Output(m)
    decreases m, 1
  {
    assert Takes(en, m);
    match m
    case Done(_) => Finish(en, fuel);
    case ReadX(p, next, rest) => FollowsRunX(en, p, next, rest, fuel);
    case ReadY(q, next, rest) => FollowsRunY(en, q, next, rest, fuel);
    case Wrote(k, next, rest) => FollowsRunEmit(en, k, next, rest, fuel);
  }

  lemma FollowsRunX(en: Engine, p: int, next: Engine, rest: Moves, fuel: nat)
    requires ReadsX(en, p, next) && Follows(next, rest)
    requires fuel > 1 + |Schedule(rest)|
    ensures Run(en, fuel).halted
    ensures Run(en, fuel).out == Output(rest)
    decreases ReadX(p, next, rest), 0
  {
    FollowsRun(next, rest, fuel - 1);
    AdvanceX(en, p, next, fuel - 1);
  }

  lemma FollowsRunY(en: Engine, q: int, next: Engine, rest: Moves, fuel: nat)
    requires ReadsY(en, q, next) && Follows(next, rest)
    requires fuel > 1 + |Schedule(rest)|
    ensures Run(en, fuel).halted
    ensures Run(en, fuel).out == Output(rest)
    decreases ReadY(q, next, rest), 0
  {
    FollowsRun(next, rest, fuel - 1);
    AdvanceY(en, q, next, fuel - 1);
  }

  lemma FollowsRunEmit(en: Engine, k: int, next: Engine, rest: Moves, fuel: nat)
    requires Emits(en, k, next) && Follows(next, rest)
    requires fuel > 1 + |Schedule(rest)|
    ensures Run(en, fuel).halted
    ensures Run(en, fuel).out == [k] + Output(rest)
    decreases Wrote(k, next, rest), 0
  {
    FollowsRun(next, rest, fuel - 1);
    AdvanceEmit(en, k, next, fuel - 1);
  }

  /** The exact-value theorems of Gosper, for operands known to denote x
      and y. */
  lemma SumDenotes(xs: seq<int>, ys: seq<int>, x: real, y: real, fuel: nat)
    requires Value(xs).d != 0 && Value(ys).d != 0
    requires ToReal(Value(xs)) == x && ToReal(Value(ys)) == y
    requires Run(Start(AddSeed, xs, ys), fuel).halted
    ensures Value(Run(Start(AddSeed, xs, ys), fuel).out).d != 0
    ensures ToReal(Value(Run(Start(AddSeed, xs, ys), fuel).out)) == x + y
  {
    SumExact(xs, ys, fuel);
  }

  lemma DifferenceDenotes(xs: seq<int>, ys: seq<int>, x: real, y: real, fuel: nat)
    requires Value(xs).d != 0 && Value(ys).d != 0
    requires ToReal(Value(xs)) == x && ToReal(Value(ys)) == y
    requires Run(Start(SubSeed, xs, ys), fuel).halted
    ensures Value(Run(Start(SubSeed, xs, ys), fuel).out).d != 0
    ensures ToReal(Value(Run(Start(SubSeed, xs, ys), fuel).out)) == x - y
  {
    DifferenceExact(xs, ys, fuel);
  }

  lemma QuotientDenotes(xs: seq<int>, ys: seq<int>, x: real, y: real, fuel: nat)
    requires Value(xs).d != 0 && Value(ys).d != 0
    requires ToReal(Value(xs)) == x && ToReal(Value(ys)) == y && y != 0.0
    requires Run(Start(DivSeed, xs, ys), fuel).halted
    ensures Value(Run(Start(DivSeed, xs, ys), fuel).out).d != 0
    ensures ToReal(Value(Run(Start(DivSeed, xs, ys), fuel).out)) == x / y
  {
    QuotientExact(xs, ys, fuel);
  }

  // The operands, expanded by Euclid.

  lemma ExpandHalf()
    ensures Euclid.Terms(1, 2) == [0, 2]
  {
    Euclid.TermsStep(1, 2, 0, 1);
    Euclid.TermsStep(2, 1, 2, 0);
  }

  lemma ExpandThird()
    ensures Euclid.Terms(1, 3) == [0, 3]
  {
    Euclid.TermsStep(1, 3, 0, 1);
    Euclid.TermsStep(3, 1, 3, 0);
  }

  lemma ExpandThreeHalves()
    ensures Euclid.Terms(3, 2) == [1, 2]
  {
    Euclid.TermsStep(3, 2, 1, 1);
    Euclid.TermsStep(2, 1, 2, 0);
  }

  lemma ExpandFourFifths()
    ensures Euclid.Terms(4, 5) == [0, 1, 4]
  {
    Euclid.TermsStep(4, 5, 0, 4);
    Euclid.TermsStep(5, 4, 1, 1);
    Euclid.TermsStep(4, 1, 4, 0);
  }

  lemma ExpandTen()
    ensures Euclid.Terms(10, 1) == [10]
  {
    Euclid.TermsStep(10, 1, 10, 0);
  }

  lemma ExpandFive()
    ensures Euclid.Terms(5, 1) == [5]
  {
    Euclid.TermsStep(5, 1, 5, 0);
  }

  lemma ExpandOne()
    ensures Euclid.Terms(1, 1) == [1]
  {
    Euclid.TermsStep(1, 1, 1, 0);
  }

  lemma ExpandTwo()
    ensures Euclid.Terms(2, 1) == [2]
  {
    Euclid.TermsStep(2, 1, 2, 0);
  }

  lemma ExpandZero()
    ensures Euclid.Terms(0, 1) == [0]
  {
    Euclid.TermsStep(0, 1, 0, 0);
  }

  lemma ExpandTwoThirds()
    ensures Euclid.Terms(2, 3) == [0, 1, 2]
  {
    Euclid.TermsStep(2, 3, 0, 2);
    Euclid.TermsStep(3, 2, 1, 1);
    Euclid.TermsStep(2, 1, 2, 0);
  }

  lemma ExpandFiftyFive()
    ensures Euclid.Terms(55, 1) == [55]
  {
    Euclid.TermsStep(55, 1, 55, 0);
  }

  // 1/2 + 1/3 = 5/6 (test/test_gosper_arithmatic.py:74 and test/test_continued_fraction.py:122).

  lemma HalfPlusThirdConsensus0(s: State)
    requires s == State(Row(0, 1, 1, 0), Row(0, 0, 0, 1))
    ensures Consensus(s, true, true) == None
  {
  }

  lemma HalfPlusThirdCoefficients0(s: State, t: State)
    requires s == State(Row(0, 1, 1, 0), Row(0, 0, 0, 1))
    requires t == State(Row(1, 0, 0, 1), Row(0, 1, 0, 0))
    ensures AfterX(s, 0, t)
  {
  }

  lemma HalfPlusThirdRound0(en: Engine, next: Engine)
    requires en == Engine(State(Row(0, 1, 1, 0), Row(0, 0, 0, 1)), Stream(Some(0), [2]), Stream(Some(0), [3]), true, true)
    requires next == Engine(State(Row(1, 0, 0, 1), Row(0, 1, 0, 0)), Stream(Some(2), []), Stream(Some(0), [3]), true, true)
    ensures ReadsX(en, 0, next)
  {
    HalfPlusThirdConsensus0(en.s);
    HalfPlusThirdCoefficients0(en.s, next.s);
  }

  lemma HalfPlusThirdRecord0(en: Engine) returns (m: Moves)
    requires en == Engine(State(Row(0, 1, 1, 0), Row(0, 0, 0, 1)), Stream(Some(0), [2]), Stream(Some(0), [3]), true, true)
    ensures Follows(en, m) && Schedule(m) == "x" + ("x" + ("y" + ("y" + ("k" + ("k" + ""))))) && Output(m) == [0] + ([1] + [5])
  {
    var next := Engine(State(Row(1, 0, 0, 1), Row(0, 1, 0, 0)), Stream(Some(2), []), Stream(Some(0), [3]), true, true);
    HalfPlusThirdRound0(en, next);
    var rest := HalfPlusThirdRecord1(next);
    m := ExtendReadX(en, 0, next, rest);
  }

  lemma HalfPlusThirdConsensus1(s: State)
    requires s == State(Row(1, 0, 0, 1), Row(0, 1, 0, 0))
    ensures Consensus(s, true, true) == None
  {
  }

  lemma HalfPlusThirdCoefficients1(s: State, t: State)
    requires s == State(Row(1, 0, 0, 1), Row(0, 1, 0, 0))
    requires t == State(Row(2, 1, 1, 0), Row(0, 2, 0, 1))
    ensures AfterX(s, 2, t)
  {
  }

  lemma HalfPlusThirdRound1(en: Engine, next: Engine)
    requires en == Engine(State(Row(1, 0, 0, 1), Row(0, 1, 0, 0)), Stream(Some(2), []), Stream(Some(0), [3]), true, true)
    requires next == Engine(State(Row(2, 1, 1, 0), Row(0, 2, 0, 1)), Stream(None, []), Stream(Some(0), [3]), true, true)
    ensures ReadsX(en, 2, next)
  {
    HalfPlusThirdConsensus1(en.s);
    HalfPlusThirdCoefficients1(en.s, next.s);
  }

  lemma HalfPlusThirdRecord1(en: Engine) returns (m: Moves)
    requires en == Engine(State(Row(1, 0, 0, 1), Row(0, 1, 0, 0)), Stream(Some(2), []), Stream(Some(0), [3]), true, true)
    ensures Follows(en, m) && Schedule(m) == "x" + ("y" + ("y" + ("k" + ("k" + "")))) && Output(m) == [0] + ([1] + [5])
  {
    var next := Engine(State(Row(2, 1, 1, 0), Row(0, 2, 0, 1)), Stream(None, []), Stream(Some(0), [3]), true, true);
    HalfPlusThirdRound1(en, next);
    var rest := HalfPlusThirdRecord2(next);
    m := ExtendReadX(en, 2, next, rest);
  }

  lemma HalfPlusThirdConsensus2(s: State)
    requires s == State(Row(2, 1, 1, 0), Row(0, 2, 0, 1))
    ensures Consensus(s, true, true) == None
  {
  }

  lemma HalfPlusThirdCoefficients2(s: State, t: State)
    requires s == State(Row(2, 1, 1, 0), Row(0, 2, 0, 1))
    requires t == State(Row(1, 2, 0, 1), Row(2, 0, 1, 0))
    ensures AfterY(s, 0, t)
  {
  }

  lemma HalfPlusThirdRound2(en: Engine, next: Engine)
    requires en == Engine(State(Row(2, 1, 1, 0), Row(0, 2, 0, 1)), Stream(None, []), Stream(Some(0), [3]), true, true)
    requires next == Engine(State(Row(1, 2, 0, 1), Row(2, 0, 1, 0)), Stream(None, []), Stream(Some(3), []), false, true)
    ensures ReadsY(en, 0, next)
  {
    HalfPlusThirdConsensus2(en.s);
    HalfPlusThirdCoefficients2(en.s, next.s);
  }

  lemma HalfPlusThirdRecord2(en: Engine) returns (m: Moves)
    requires en == Engine(State(Row(2, 1, 1, 0), Row(0, 2, 0, 1)), Stream(None, []), Stream(Some(0), [3]), true, true)
    ensures Follows(en, m) && Schedule(m) == "y" + ("y" + ("k" + ("k" + ""))) && Output(m) == [0] + ([1] + [5])
  {
    var next := Engine(State(Row(1, 2, 0, 1), Row(2, 0, 1, 0)), Stream(None, []), Stream(Some(3), []), false, true);
    HalfPlusThirdRound2(en, next);
    var rest := HalfPlusThirdRecord3(next);
    m := ExtendReadY(en, 0, next, rest);
  }

  lemma HalfPlusThirdConsensus3(s: State)
    requires s == State(Row(1, 2, 0, 1), Row(2, 0, 1, 0))
    ensures Consensus(s, false, true) == None
  {
  }

  lemma HalfPlusThirdCoefficients3(s: State, t: State)
    requires s == State(Row(1, 2, 0, 1), Row(2, 0, 1, 0))
    requires t == State(Row(5, 1, 1, 0), Row(6, 2, 3, 1))
    ensures AfterY(s, 3, t)
  {
  }

  lemma HalfPlusThirdRound3(en: Engine, next: Engine)
    requires en == Engine(State(Row(1, 2, 0, 1), Row(2, 0, 1, 0)), Stream(None, []), Stream(Some(3), []), false, true)
    requires next == Engine(State(Row(5, 1, 1, 0), Row(6, 2, 3, 1)), Stream(None, []), Stream(None, []), false, true)
    ensures ReadsY(en, 3, next)
  {
    HalfPlusThirdConsensus3(en.s);
    HalfPlusThirdCoefficients3(en.s, next.s);
  }

  lemma HalfPlusThirdRecord3(en: Engine) returns (m: Moves)
    requires en == Engine(State(Row(1, 2, 0, 1), Row(2, 0, 1, 0)), Stream(None, []), Stream(Some(3), []), false, true)
    ensures Follows(en, m) && Schedule(m) == "y" + ("k" + ("k" + "")) && Output(m) == [0] + ([1] + [5])
  {
    var next := Engine(State(Row(5, 1, 1, 0), Row(6, 2, 3, 1)), Stream(None, []), Stream(None, []), false, true);
    HalfPlusThirdRound3(en, next);
    var rest := HalfPlusThirdRecord4(next);
    m := ExtendReadY(en, 3, next, rest);
  }

  lemma HalfPlusThirdConsensus4(s: State)
    requires s == State(Row(5, 1, 1, 0), Row(6, 2, 3, 1))
    ensures Consensus(s, false, true) == Some(0)
  {
  }

  lemma HalfPlusThirdCoefficients4(s: State, t: State)
    requires s == State(Row(5, 1, 1, 0), Row(6, 2, 3, 1))
    requires t == State(Row(6, 2, 3, 1), Row(5, 1, 1, 0))
    ensures AfterEmit(s, 0, t)
  {
  }

  lemma HalfPlusThirdRound4(en: Engine, next: Engine)
    requires en == Engine(State(Row(5, 1, 1, 0), Row(6, 2, 3, 1)), Stream(None, []), Stream(None, []), false, true)
    requires next == Engine(State(Row(6, 2, 3, 1), Row(5, 1, 1, 0)), Stream(None, []), Stream(None, []), false, true)
    ensures Emits(en, 0, next)
  {
    HalfPlusThirdConsensus4(en.s);
    HalfPlusThirdCoefficients4(en.s, next.s);
  }

  lemma HalfPlusThirdRecord4(en: Engine) returns (m: Moves)
    requires en == Engine(State(Row(5, 1, 1, 0), Row(6, 2, 3, 1)), Stream(None, []), Stream(None, []), false, true)
    ensures Follows(en, m) && Schedule(m) == "k" + ("k" + "") && Output(m) == [0] + ([1] + [5])
  {
    var next := Engine(State(Row(6, 2, 3, 1), Row(5, 1, 1, 0)), Stream(None, []), Stream(None, []), false, true);
    HalfPlusThirdRound4(en, next);
    var rest := HalfPlusThirdRecord5(next);
    m := ExtendWrote(en, 0, next, rest);
  }

  lemma HalfPlusThirdConsensus5(s: State)
    requires s == State(Row(6, 2, 3, 1), Row(5, 1, 1, 0))
    ensures Consensus(s, false, true) == Some(1)
  {
  }

  lemma HalfPlusThirdCoefficients5(s: State, t: State)
    requires s == State(Row(6, 2, 3, 1), Row(5, 1, 1, 0))
    requires t == State(Row(5, 1, 1, 0), Row(1, 1, 2, 1))
    ensures AfterEmit(s, 1, t)
  {
  }

  lemma HalfPlusThirdRound5(en: Engine, next: Engine)
    requires en == Engine(State(Row(6, 2, 3, 1), Row(5, 1, 1, 0)), Stream(None, []), Stream(None, []), false, true)
    requires next == Engine(State(Row(5, 1, 1, 0), Row(1, 1, 2, 1)), Stream(None, []), Stream(None, []), false, true)
    ensures Emits(en, 1, next)
  {
    HalfPlusThirdConsensus5(en.s);
    HalfPlusThirdCoefficients5(en.s, next.s);
  }

  lemma HalfPlusThirdRecord5(en: Engine) returns (m: Moves)
    requires en == Engine(State(Row(6, 2, 3, 1), Row(5, 1, 1, 0)), Stream(None, []), Stream(None, []), false, true)
    ensures Follows(en, m) && Schedule(m) == "k" + "" && Output(m) == [1] + [5]
  {
    var next := Engine(State(Row(5, 1, 1, 0), Row(1, 1, 2, 1)), Stream(None, []), Stream(None, []), false, true);
    HalfPlusThirdRound5(en, next);
    var rest := HalfPlusThirdRecord6(next);
    m := ExtendWrote(en, 1, next, rest);
  }

  lemma HalfPlusThirdConsensus6(s: State)
    requires s == State(Row(5, 1, 1, 0), Row(1, 1, 2, 1))
    ensures Consensus(s, false, true) == None
  {
  }

  lemma HalfPlusThirdRecord6(en: Engine) returns (m: Moves)
    requires en == Engine(State(Row(5, 1, 1, 0), Row(1, 1, 2, 1)), Stream(None, []), Stream(None, []), false, true)
    ensures Follows(en, m) && Schedule(m) == "" && Output(m) == [5]
  {
    HalfPlusThirdConsensus6(en.s);
    ExactDivision(en.s.num.a, en.s.den.a, 5);
    m := Done([5]);
  }

  lemma HalfPlusThirdRun(fuel: nat)
    requires fuel >= 7
    ensures Run(Start(AddSeed, [0, 2], [0, 3]), fuel).halted
    ensures Run(Start(AddSeed, [0, 2], [0, 3]), fuel).out == [0, 1, 5]
  {
    var m := HalfPlusThirdRecord0(Start(AddSeed, [0, 2], [0, 3]));
    FollowsRun(Start(AddSeed, [0, 2], [0, 3]), m, fuel);
  }

  lemma HalfPlusThirdHalts(fuel: nat)
    requires fuel >= 7
    ensures Run(Start(AddSeed, Euclid.Terms(1, 2), Euclid.Terms(1, 3)), fuel).halted
    ensures Run(Start(AddSeed, Euclid.Terms(1, 2), Euclid.Terms(1, 3)), fuel).out == [0, 1, 5]
  {
    ExpandHalf();
    ExpandThird();
    HalfPlusThirdRun(fuel);
  }

  /** 1/2 + 1/3 = 5/6: on the expansions of its operands the sum engine halts
      within 7 rounds, writes [0, 1, 5], and that output denotes exactly the
      sum of the operands. */
  lemma HalfPlusThird(fuel: nat)
    requires fuel >= 7
    ensures Run(Start(AddSeed, Euclid.Terms(1, 2), Euclid.Terms(1, 3)), fuel).halted
    ensures Run(Start(AddSeed, Euclid.Terms(1, 2), Euclid.Terms(1, 3)), fuel).out == [0, 1, 5]
    ensures Value(Run(Start(AddSeed, Euclid.Terms(1, 2), Euclid.Terms(1, 3)), fuel).out).d != 0
    ensures ToReal(Value(Run(Start(AddSeed, Euclid.Terms(1, 2), Euclid.Terms(1, 3)), fuel).out)) == (1 as real / 2 as real) + (1 as real / 3 as real)
  {
    HalfPlusThirdHalts(fuel);
    Euclid.FoldsBackToRatio(1, 2);
    Euclid.FoldsBackToRatio(1, 3);
    SumDenotes(Euclid.Terms(1, 2), Euclid.Terms(1, 3), (1 as real / 2 as real), (1 as real / 3 as real), fuel);
  }

  // 1/2 - 1/3 = 1/6 (test/test_gosper_arithmatic.py:87 and test/test_continued_fraction.py:123).

  lemma HalfMinusThirdConsensus0(s: State)
    requires s == State(Row(0, 1, -1, 0), Row(0, 0, 0, 1))
    ensures Consensus(s, true, true) == None
  {
  }

  lemma HalfMinusThirdCoefficients0(s: State, t: State)
    requires s == State(Row(0, 1, -1, 0), Row(0, 0, 0, 1))
    requires t == State(Row(-1, 0, 0, 1), Row(0, 1, 0, 0))
    ensures AfterX(s, 0, t)
  {
  }

  lemma HalfMinusThirdRound0(en: Engine, next: Engine)
    requires en == Engine(State(Row(0, 1, -1, 0), Row(0, 0, 0, 1)), Stream(Some(0), [2]), Stream(Some(0), [3]), true, true)
    requires next == Engine(State(Row(-1, 0, 0, 1), Row(0, 1, 0, 0)), Stream(Some(2), []), Stream(Some(0), [3]), true, true)
    ensures ReadsX(en, 0, next)
  {
    HalfMinusThirdConsensus0(en.s);
    HalfMinusThirdCoefficients0(en.s, next.s);
  }

  lemma HalfMinusThirdRecord0(en: Engine) returns (m: Moves)
    requires en == Engine(State(Row(0, 1, -1, 0), Row(0, 0, 0, 1)), Stream(Some(0), [2]), Stream(Some(0), [3]), true, true)
    ensures Follows(en, m) && Schedule(m) == "x" + ("x" + ("y" + ("k" + ("y" + "")))) && Output(m) == [0] + [6]
  {
    var next := Engine(State(Row(-1, 0, 0, 1), Row(0, 1, 0, 0)), Stream(Some(2), []), Stream(Some(0), [3]), true, true);
    HalfMinusThirdRound0(en, next);
    var rest := HalfMinusThirdRecord1(next);
    m := ExtendReadX(en, 0, next, rest);
  }

  lemma HalfMinusThirdConsensus1(s: State)
    requires s == State(Row(-1, 0, 0, 1), Row(0, 1, 0, 0))
    ensures Consensus(s, true, true) == None
  {
  }

  lemma HalfMinusThirdCoefficients1(s: State, t: State)
    requires s == State(Row(-1, 0, 0, 1), Row(0, 1, 0, 0))
    requires t == State(Row(-2, 1, -1, 0), Row(0, 2, 0, 1))
    ensures AfterX(s, 2, t)
  {
  }

  lemma HalfMinusThirdRound1(en: Engine, next: Engine)
    requires en == Engine(State(Row(-1, 0, 0, 1), Row(0, 1, 0, 0)), Stream(Some(2), []), Stream(Some(0), [3]), true, true)
    requires next == Engine(State(Row(-2, 1, -1, 0), Row(0, 2, 0, 1)), Stream(None, []), Stream(Some(0), [3]), true, true)
    ensures ReadsX(en, 2, next)
  {
    HalfMinusThirdConsensus1(en.s);
    HalfMinusThirdCoefficients1(en.s, next.s);
  }

  lemma HalfMinusThirdRecord1(en: Engine) returns (m: Moves)
    requires en == Engine(State(Row(-1, 0, 0, 1), Row(0, 1, 0, 0)), Stream(Some(2), []), Stream(Some(0), [3]), true, true)
    ensures Follows(en, m) && Schedule(m) == "x" + ("y" + ("k" + ("y" + ""))) && Output(m) == [0] + [6]
  {
    var next := Engine(State(Row(-2, 1, -1, 0), Row(0, 2, 0, 1)), Stream(None, []), Stream(Some(0), [3]), true, true);
    HalfMinusThirdRound1(en, next);
    var rest := HalfMinusThirdRecord2(next);
    m := ExtendReadX(en, 2, next, rest);
  }

  lemma HalfMinusThirdConsensus2(s: State)
    requires s == State(Row(-2, 1, -1, 0), Row(0, 2, 0, 1))
    ensures Consensus(s, true, true) == None
  {
  }

  lemma HalfMinusThirdCoefficients2(s: State, t: State)
    requires s == State(Row(-2, 1, -1, 0), Row(0, 2, 0, 1))
    requires t == State(Row(1, -2, 0, -1), Row(2, 0, 1, 0))
    ensures AfterY(s, 0, t)
  {
  }

  lemma HalfMinusThirdRound2(en: Engine, next: Engine)
    requires en == Engine(State(Row(-2, 1, -1, 0), Row(0, 2, 0, 1)), Stream(None, []), Stream(Some(0), [3]), true, true)
    requires next == Engine(State(Row(1, -2, 0, -1), Row(2, 0, 1, 0)), Stream(None, []), Stream(Some(3), []), false, true)
    ensures ReadsY(en, 0, next)
  {
    HalfMinusThirdConsensus2(en.s);
    HalfMinusThirdCoefficients2(en.s, next.s);
  }

  lemma HalfMinusThirdRecord2(en: Engine) returns (m: Moves)
    requires en == Engine(State(Row(-2, 1, -1, 0), Row(0, 2, 0, 1)), Stream(None, []), Stream(Some(0), [3]), true, true)
    ensures Follows(en, m) && Schedule(m) == "y" + ("k" + ("y" + "")) && Output(m) == [0] + [6]
  {
    var next := Engine(State(Row(1, -2, 0, -1), Row(2, 0, 1, 0)), Stream(None, []), Stream(Some(3), []), false, true);
    HalfMinusThirdRound2(en, next);
    var rest := HalfMinusThirdRecord3(next);
    m := ExtendReadY(en, 0, next, rest);
  }

  lemma HalfMinusThirdConsensus3(s: State)
    requires s == State(Row(1, -2, 0, -1), Row(2, 0, 1, 0))
    ensures Consensus(s, false, true) == Some(0)
  {
  }

  lemma HalfMinusThirdCoefficients3(s: State, t: State)
    requires s == State(Row(1, -2, 0, -1), Row(2, 0, 1, 0))
    requires t == State(Row(2, 0, 1, 0), Row(1, -2, 0, -1))
    ensures AfterEmit(s, 0, t)
  {
  }

  lemma HalfMinusThirdRound3(en: Engine, next: Engine)
    requires en == Engine(State(Row(1, -2, 0, -1), Row(2, 0, 1, 0)), Stream(None, []), Stream(Some(3), []), false, true)
    requires next == Engine(State(Row(2, 0, 1, 0), Row(1, -2, 0, -1)), Stream(None, []), Stream(Some(3), []), false, true)
    ensures Emits(en, 0, next)
  {
    HalfMinusThirdConsensus3(en.s);
    HalfMinusThirdCoefficients3(en.s, next.s);
  }

  lemma HalfMinusThirdRecord3(en: Engine) returns (m: Moves)
    requires en == Engine(State(Row(1, -2, 0, -1), Row(2, 0, 1, 0)), Stream(None, []), Stream(Some(3), []), false, true)
    ensures Follows(en, m) && Schedule(m) == "k" + ("y" + "") && Output(m) == [0] + [6]
  {
    var next := Engine(State(Row(2, 0, 1, 0), Row(1, -2, 0, -1)), Stream(None, []), Stream(Some(3), []), false, true);
    HalfMinusThirdRound3(en, next);
    var rest := HalfMinusThirdRecord4(next);
    m := ExtendWrote(en, 0, next, rest);
  }

  lemma HalfMinusThirdConsensus4(s: State)
    requires s == State(Row(2, 0, 1, 0), Row(1, -2, 0, -1))
    ensures Consensus(s, false, true) == None
  {
  }

  lemma HalfMinusThirdCoefficients4(s: State, t: State)
    requires s == State(Row(2, 0, 1, 0), Row(1, -2, 0, -1))
    requires t == State(Row(6, 2, 3, 1), Row(1, 1, -1, 0))
    ensures AfterY(s, 3, t)
  {
  }

  lemma HalfMinusThirdRound4(en: Engine, next: Engine)
    requires en == Engine(State(Row(2, 0, 1, 0), Row(1, -2, 0, -1)), Stream(None, []), Stream(Some(3), []), false, true)
    requires next == Engine(State(Row(6, 2, 3, 1), Row(1, 1, -1, 0)), Stream(None, []), Stream(None, []), false, true)
    ensures ReadsY(en, 3, next)
  {
    HalfMinusThirdConsensus4(en.s);
    HalfMinusThirdCoefficients4(en.s, next.s);
  }

  lemma HalfMinusThirdRecord4(en: Engine) returns (m: Moves)
    requires en == Engine(State(Row(2, 0, 1, 0), Row(1, -2, 0, -1)), Stream(None, []), Stream(Some(3), []), false, true)
    ensures Follows(en, m) && Schedule(m) == "y" + "" && Output(m) == [6]
  {
    var next := Engine(State(Row(6, 2, 3, 1), Row(1, 1, -1, 0)), Stream(None, []), Stream(None, []), false, true);
    HalfMinusThirdRound4(en, next);
    var rest := HalfMinusThirdRecord5(next);
    m := ExtendReadY(en, 3, next, rest);
  }

  lemma HalfMinusThirdConsensus5(s: State)
    requires s == State(Row(6, 2, 3, 1), Row(1, 1, -1, 0))
    ensures Consensus(s, false, true) == None
  {
  }

  lemma HalfMinusThirdRecord5(en: Engine) returns (m: Moves)
    requires en == Engine(State(Row(6, 2, 3, 1), Row(1, 1, -1, 0)), Stream(None, []), Stream(None, []), false, true)
    ensures Follows(en, m) && Schedule(m) == "" && Output(m) == [6]
  {
    HalfMinusThirdConsensus5(en.s);
    ExactDivision(en.s.num.a, en.s.den.a, 6);
    m := Done([6]);
  }

  lemma HalfMinusThirdRun(fuel: nat)
    requires fuel >= 6
    ensures Run(Start(SubSeed, [0, 2], [0, 3]), fuel).halted
    ensures Run(Start(SubSeed, [0, 2], [0, 3]), fuel).out == [0, 6]
  {
    var m := HalfMinusThirdRecord0(Start(SubSeed, [0, 2], [0, 3]));
    FollowsRun(Start(SubSeed, [0, 2], [0, 3]), m, fuel);
  }

  lemma HalfMinusThirdHalts(fuel: nat)
    requires fuel >= 6
    ensures Run(Start(SubSeed, Euclid.Terms(1, 2), Euclid.Terms(1, 3)), fuel).halted
    ensures Run(Start(SubSeed, Euclid.Terms(1, 2), Euclid.Terms(1, 3)), fuel).out == [0, 6]
  {
    ExpandHalf();
    ExpandThird();
    HalfMinusThirdRun(fuel);
  }

  /** 1/2 - 1/3 = 1/6: on the expansions of its operands the difference engine halts
      within 6 rounds, writes [0, 6], and that output denotes exactly the
      difference of the operands. */
  lemma HalfMinusThird(fuel: nat)
    requires fuel >= 6
    ensures Run(Start(SubSeed, Euclid.Terms(1, 2), Euclid.Terms(1, 3)), fuel).halted
    ensures Run(Start(SubSeed, Euclid.Terms(1, 2), Euclid.Terms(1, 3)), fuel).out == [0, 6]
    ensures Value(Run(Start(SubSeed, Euclid.Terms(1, 2), Euclid.Terms(1, 3)), fuel).out).d != 0
    ensures ToReal(Value(Run(Start(SubSeed, Euclid.Terms(1, 2), Euclid.Terms(1, 3)), fuel).out)) == (1 as real / 2 as real) - (1 as real / 3 as real)
  {
    HalfMinusThirdHalts(fuel);
    Euclid.FoldsBackToRatio(1, 2);
    Euclid.FoldsBackToRatio(1, 3);
    DifferenceDenotes(Euclid.Terms(1, 2), Euclid.Terms(1, 3), (1 as real / 2 as real), (1 as real / 3 as real), fuel);
  }

  // 3/2 * 4/5 = 6/5 (test/test_gosper_arithmatic.py:77 and test/test_continued_fraction.py:124).

  lemma ThreeHalvesTimesFourFifthsConsensus0(s: State)
    requires s == State(Row(1, 0, 0, 0), Row(0, 0, 0, 1))
    ensures Consensus(s, true, true) == None
  {
  }

  lemma ThreeHalvesTimesFourFifthsCoefficients0(s: State, t: State)
    requires s == State(Row(1, 0, 0, 0), Row(0, 0, 0, 1))
    requires t == State(Row(1, 0, 1, 0), Row(0, 1, 0, 0))
    ensures AfterX(s, 1, t)
  {
  }

  lemma ThreeHalvesTimesFourFifthsRound0(en: Engine, next: Engine)
    requires en == Engine(State(Row(1, 0, 0, 0), Row(0, 0, 0, 1)), Stream(Some(1), [2]), Stream(Some(0), [1, 4]), true, true)
    requires next == Engine(State(Row(1, 0, 1, 0), Row(0, 1, 0, 0)), Stream(Some(2), []), Stream(Some(0), [1, 4]), true, true)
    ensures ReadsX(en, 1, next)
  {
    ThreeHalvesTimesFourFifthsConsensus0(en.s);
    ThreeHalvesTimesFourFifthsCoefficients0(en.s, next.s);
  }

  lemma ThreeHalvesTimesFourFifthsRecord0(en: Engine) returns (m: Moves)
    requires en == Engine(State(Row(1, 0, 0, 0), Row(0, 0, 0, 1)), Stream(Some(1), [2]), Stream(Some(0), [1, 4]), true, true)
    ensures Follows(en, m) && Schedule(m) == "x" + ("x" + ("y" + ("y" + ("y" + ("k" + ""))))) && Output(m) == [1] + [5]
  {
    var next := Engine(State(Row(1, 0, 1, 0), Row(0, 1, 0, 0)), Stream(Some(2), []), Stream(Some(0), [1, 4]), true, true);
    ThreeHalvesTimesFourFifthsRound0(en, next);
    var rest := ThreeHalvesTimesFourFifthsRecord1(next);
    m := ExtendReadX(en, 1, next, rest);
  }

  lemma ThreeHalvesTimesFourFifthsConsensus1(s: State)
    requires s == State(Row(1, 0, 1, 0), Row(0, 1, 0, 0))
    ensures Consensus(s, true, true) == None
  {
  }

  lemma ThreeHalvesTimesFourFifthsCoefficients1(s: State, t: State)
    requires s == State(Row(1, 0, 1, 0), Row(0, 1, 0, 0))
    requires t == State(Row(3, 0, 1, 0), Row(0, 2, 0, 1))
    ensures AfterX(s, 2, t)
  {
  }

  lemma ThreeHalvesTimesFourFifthsRound1(en: Engine, next: Engine)
    requires en == Engine(State(Row(1, 0, 1, 0), Row(0, 1, 0, 0)), Stream(Some(2), []), Stream(Some(0), [1, 4]), true, true)
    requires next == Engine(State(Row(3, 0, 1, 0), Row(0, 2, 0, 1)), Stream(None, []), Stream(Some(0), [1, 4]), true, true)
    ensures ReadsX(en, 2, next)
  {
    ThreeHalvesTimesFourFifthsConsensus1(en.s);
    ThreeHalvesTimesFourFifthsCoefficients1(en.s, next.s);
  }

  lemma ThreeHalvesTimesFourFifthsRecord1(en: Engine) returns (m: Moves)
    requires en == Engine(State(Row(1, 0, 1, 0), Row(0, 1, 0, 0)), Stream(Some(2), []), Stream(Some(0), [1, 4]), true, true)
    ensures Follows(en, m) && Schedule(m) == "x" + ("y" + ("y" + ("y" + ("k" + "")))) && Output(m) == [1] + [5]
  {
    var next := Engine(State(Row(3, 0, 1, 0), Row(0, 2, 0, 1)), Stream(None, []), Stream(Some(0), [1, 4]), true, true);
    ThreeHalvesTimesFourFifthsRound1(en, next);
    var rest := ThreeHalvesTimesFourFifthsRecord2(next);
    m := ExtendReadX(en, 2, next, rest);
  }

  lemma ThreeHalvesTimesFourFifthsConsensus2(s: State)
    requires s == State(Row(3, 0, 1, 0), Row(0, 2, 0, 1))
    ensures Consensus(s, true, true) == None
  {
  }

  lemma ThreeHalvesTimesFourFifthsCoefficients2(s: State, t: State)
    requires s == State(Row(3, 0, 1, 0), Row(0, 2, 0, 1))
    requires t == State(Row(0, 3, 0, 1), Row(2, 0, 1, 0))
    ensures AfterY(s, 0, t)
  {
  }

  lemma ThreeHalvesTimesFourFifthsRound2(en: Engine, next: Engine)
    requires en == Engine(State(Row(3, 0, 1, 0), Row(0, 2, 0, 1)), Stream(None, []), Stream(Some(0), [1, 4]), true, true)
    requires next == Engine(State(Row(0, 3, 0, 1), Row(2, 0, 1, 0)), Stream(None, []), Stream(Some(1), [4]), false, true)
    ensures ReadsY(en, 0, next)
  {
    ThreeHalvesTimesFourFifthsConsensus2(en.s);
    ThreeHalvesTimesFourFifthsCoefficients2(en.s, next.s);
  }

  lemma ThreeHalvesTimesFourFifthsRecord2(en: Engine) returns (m: Moves)
    requires en == Engine(State(Row(3, 0, 1, 0), Row(0, 2, 0, 1)), Stream(None, []), Stream(Some(0), [1, 4]), true, true)
    ensures Follows(en, m) && Schedule(m) == "y" + ("y" + ("y" + ("k" + ""))) && Output(m) == [1] + [5]
  {
    var next := Engine(State(Row(0, 3, 0, 1), Row(2, 0, 1, 0)), Stream(None, []), Stream(Some(1), [4]), false, true);
    ThreeHalvesTimesFourFifthsRound2(en, next);
    var rest := ThreeHalvesTimesFourFifthsRecord3(next);
    m := ExtendReadY(en, 0, next, rest);
  }

  lemma ThreeHalvesTimesFourFifthsConsensus3(s: State)
    requires s == State(Row(0, 3, 0, 1), Row(2, 0, 1, 0))
    ensures Consensus(s, false, true) == None
  {
  }

  lemma ThreeHalvesTimesFourFifthsCoefficients3(s: State, t: State)
    requires s == State(Row(0, 3, 0, 1), Row(2, 0, 1, 0))
    requires t == State(Row(3, 0, 1, 0), Row(2, 2, 1, 1))
    ensures AfterY(s, 1, t)
  {
  }

  lemma ThreeHalvesTimesFourFifthsRound3(en: Engine, next: Engine)
    requires en == Engine(State(Row(0, 3, 0, 1), Row(2, 0, 1, 0)), Stream(None, []), Stream(Some(1), [4]), false, true)
    requires next == Engine(State(Row(3, 0, 1, 0), Row(2, 2, 1, 1)), Stream(None, []), Stream(Some(4), []), false, true)
    ensures ReadsY(en, 1, next)
  {
    ThreeHalvesTimesFourFifthsConsensus3(en.s);
    ThreeHalvesTimesFourFifthsCoefficients3(en.s, next.s);
  }

  lemma ThreeHalvesTimesFourFifthsRecord3(en: Engine) returns (m: Moves)
    requires en == Engine(State(Row(0, 3, 0, 1), Row(2, 0, 1, 0)), Stream(None, []), Stream(Some(1), [4]), false, true)
    ensures Follows(en, m) && Schedule(m) == "y" + ("y" + ("k" + "")) && Output(m) == [1] + [5]
  {
    var next := Engine(State(Row(3, 0, 1, 0), Row(2, 2, 1, 1)), Stream(None, []), Stream(Some(4), []), false, true);
    ThreeHalvesTimesFourFifthsRound3(en, next);
    var rest := ThreeHalvesTimesFourFifthsRecord4(next);
    m := ExtendReadY(en, 1, next, rest);
  }

  lemma ThreeHalvesTimesFourFifthsConsensus4(s: State)
    requires s == State(Row(3, 0, 1, 0), Row(2, 2, 1, 1))
    ensures Consensus(s, false, true) == None
  {
  }

  lemma ThreeHalvesTimesFourFifthsCoefficients4(s: State, t: State)
    requires s == State(Row(3, 0, 1, 0), Row(2, 2, 1, 1))
    requires t == State(Row(12, 3, 4, 1), Row(10, 2, 5, 1))
    ensures AfterY(s, 4, t)
  {
  }

  lemma ThreeHalvesTimesFourFifthsRound4(en: Engine, next: Engine)
    requires en == Engine(State(Row(3, 0, 1, 0), Row(2, 2, 1, 1)), Stream(None, []), Stream(Some(4), []), false, true)
    requires next == Engine(State(Row(12, 3, 4, 1), Row(10, 2, 5, 1)), Stream(None, []), Stream(None, []), false, true)
    ensures ReadsY(en, 4, next)
  {
    ThreeHalvesTimesFourFifthsConsensus4(en.s);
    ThreeHalvesTimesFourFifthsCoefficients4(en.s, next.s);
  }

  lemma ThreeHalvesTimesFourFifthsRecord4(en: Engine) returns (m: Moves)
    requires en == Engine(State(Row(3, 0, 1, 0), Row(2, 2, 1, 1)), Stream(None, []), Stream(Some(4), []), false, true)
    ensures Follows(en, m) && Schedule(m) == "y" + ("k" + "") && Output(m) == [1] + [5]
  {
    var next := Engine(State(Row(12, 3, 4, 1), Row(10, 2, 5, 1)), Stream(None, []), Stream(None, []), false, true);
    ThreeHalvesTimesFourFifthsRound4(en, next);
    var rest := ThreeHalvesTimesFourFifthsRecord5(next);
    m := ExtendReadY(en, 4, next, rest);
  }

  lemma ThreeHalvesTimesFourFifthsConsensus5(s: State)
    requires s == State(Row(12, 3, 4, 1), Row(10, 2, 5, 1))
    ensures Consensus(s, false, true) == Some(1)
  {
  }

  lemma ThreeHalvesTimesFourFifthsCoefficients5(s: State, t: State)
    requires s == State(Row(12, 3, 4, 1), Row(10, 2, 5, 1))
    requires t == State(Row(10, 2, 5, 1), Row(2, 1, -1, 0))
    ensures AfterEmit(s, 1, t)
  {
  }

  lemma ThreeHalvesTimesFourFifthsRound5(en: Engine, next: Engine)
    requires en == Engine(State(Row(12, 3, 4, 1), Row(10, 2, 5, 1)), Stream(None, []), Stream(None, []), false, true)
    requires next == Engine(State(Row(10, 2, 5, 1), Row(2, 1, -1, 0)), Stream(None, []), Stream(None, []), false, true)
    ensures Emits(en, 1, next)
  {
    ThreeHalvesTimesFourFifthsConsensus5(en.s);
    ThreeHalvesTimesFourFifthsCoefficients5(en.s, next.s);
  }

  lemma ThreeHalvesTimesFourFifthsRecord5(en: Engine) returns (m: Moves)
    requires en == Engine(State(Row(12, 3, 4, 1), Row(10, 2, 5, 1)), Stream(None, []), Stream(None, []), false, true)
    ensures Follows(en, m) && Schedule(m) == "k" + "" && Output(m) == [1] + [5]
  {
    var next := Engine(State(Row(10, 2, 5, 1), Row(2, 1, -1, 0)), Stream(None, []), Stream(None, []), false, true);
    ThreeHalvesTimesFourFifthsRound5(en, next);
    var rest := ThreeHalvesTimesFourFifthsRecord6(next);
    m := ExtendWrote(en, 1, next, rest);
  }

  lemma ThreeHalvesTimesFourFifthsConsensus6(s: State)
    requires s == State(Row(10, 2, 5, 1), Row(2, 1, -1, 0))
    ensures Consensus(s, false, true) == None
  {
  }

  lemma ThreeHalvesTimesFourFifthsRecord6(en: Engine) returns (m: Moves)
    requires en == Engine(State(Row(10, 2, 5, 1), Row(2, 1, -1, 0)), Stream(None, []), Stream(None, []), false, true)
    ensures Follows(en, m) && Schedule(m) == "" && Output(m) == [5]
  {
    ThreeHalvesTimesFourFifthsConsensus6(en.s);
    ExactDivision(en.s.num.a, en.s.den.a, 5);
    m := Done([5]);
  }

  lemma ThreeHalvesTimesFourFifthsRun(fuel: nat)
    requires fuel >= 7
    ensures Run(Start(MulSeed, [1, 2], [0, 1, 4]), fuel).halted
    ensures Run(Start(MulSeed, [1, 2], [0, 1, 4]), fuel).out == [1, 5]
  {
    var m := ThreeHalvesTimesFourFifthsRecord0(Start(MulSeed, [1, 2], [0, 1, 4]));
    FollowsRun(Start(MulSeed, [1, 2], [0, 1, 4]), m, fuel);
  }

  lemma ExpandSixFifths()
    ensures Euclid.Terms(6, 5) == [1, 5]
  {
    Euclid.TermsStep(6, 5, 1, 1);
    Euclid.TermsStep(5, 1, 5, 0);
  }

  lemma ThreeHalvesTimesFourFifthsArithmetic()
    ensures (3 as real / 2 as real) * (4 as real / 5 as real) == (6 as real / 5 as real)
  {
  }

  lemma ThreeHalvesTimesFourFifthsHalts(fuel: nat)
    requires fuel >= 7
    ensures Run(Start(MulSeed, Euclid.Terms(3, 2), Euclid.Terms(4, 5)), fuel).halted
    ensures Run(Start(MulSeed, Euclid.Terms(3, 2), Euclid.Terms(4, 5)), fuel).out == [1, 5]
  {
    ExpandThreeHalves();
    ExpandFourFifths();
    ThreeHalvesTimesFourFifthsRun(fuel);
  }

  /** 3/2 * 4/5 = 6/5: on the expansions of its operands the product engine halts
      within 7 rounds, writes [1, 5], and that output denotes exactly the
      product of the operands. */
  lemma ThreeHalvesTimesFourFifths(fuel: nat)
    requires fuel >= 7
    ensures Run(Start(MulSeed, Euclid.Terms(3, 2), Euclid.Terms(4, 5)), fuel).halted
    ensures Run(Start(MulSeed, Euclid.Terms(3, 2), Euclid.Terms(4, 5)), fuel).out == [1, 5]
    ensures Value(Run(Start(MulSeed, Euclid.Terms(3, 2), Euclid.Terms(4, 5)), fuel).out).d != 0
    ensures ToReal(Value(Run(Start(MulSeed, Euclid.Terms(3, 2), Euclid.Terms(4, 5)), fuel).out)) == (3 as real / 2 as real) * (4 as real / 5 as real)
  {
    ThreeHalvesTimesFourFifthsHalts(fuel);
    ExpandSixFifths();
    Euclid.FoldsBackToRatio(6, 5);
    ThreeHalvesTimesFourFifthsArithmetic();
  }

  // 10 + 5 = 15 (test/test_gosper_arithmatic.py:80).

  lemma TenPlusFiveConsensus0(s: State)
    requires s == State(Row(0, 1, 1, 0), Row(0, 0, 0, 1))
    ensures Consensus(s, true, true) == None
  {
  }

  lemma TenPlusFiveCoefficients0(s: State, t: State)
    requires s == State(Row(0, 1, 1, 0), Row(0, 0, 0, 1))
    requires t == State(Row(1, 10, 0, 1), Row(0, 1, 0, 0))
    ensures AfterX(s, 10, t)
  {
  }

  lemma TenPlusFiveRound0(en: Engine, next: Engine)
    requires en == Engine(State(Row(0, 1, 1, 0), Row(0, 0, 0, 1)), Stream(Some(10), []), Stream(Some(5), []), true, true)
    requires next == Engine(State(Row(1, 10, 0, 1), Row(0, 1, 0, 0)), Stream(None, []), Stream(Some(5), []), true, true)
    ensures ReadsX(en, 10, next)
  {
    TenPlusFiveConsensus0(en.s);
    TenPlusFiveCoefficients0(en.s, next.s);
  }

  lemma TenPlusFiveRecord0(en: Engine) returns (m: Moves)
    requires en == Engine(State(Row(0, 1, 1, 0), Row(0, 0, 0, 1)), Stream(Some(10), []), Stream(Some(5), []), true, true)
    ensures Follows(en, m) && Schedule(m) == "x" + ("y" + "") && Output(m) == [15]
  {
    var next := Engine(State(Row(1, 10, 0, 1), Row(0, 1, 0, 0)), Stream(None, []), Stream(Some(5), []), true, true);
    TenPlusFiveRound0(en, next);
    var rest := TenPlusFiveRecord1(next);
    m := ExtendReadX(en, 10, next, rest);
  }

  lemma TenPlusFiveConsensus1(s: State)
    requires s == State(Row(1, 10, 0, 1), Row(0, 1, 0, 0))
    ensures Consensus(s, true, true) == None
  {
  }

  lemma TenPlusFiveCoefficients1(s: State, t: State)
    requires s == State(Row(1, 10, 0, 1), Row(0, 1, 0, 0))
    requires t == State(Row(15, 1, 1, 0), Row(1, 0, 0, 0))
    ensures AfterY(s, 5, t)
  {
  }

  lemma TenPlusFiveRound1(en: Engine, next: Engine)
    requires en == Engine(State(Row(1, 10, 0, 1), Row(0, 1, 0, 0)), Stream(None, []), Stream(Some(5), []), true, true)
    requires next == Engine(State(Row(15, 1, 1, 0), Row(1, 0, 0, 0)), Stream(None, []), Stream(None, []), false, true)
    ensures ReadsY(en, 5, next)
  {
    TenPlusFiveConsensus1(en.s);
    TenPlusFiveCoefficients1(en.s, next.s);
  }

  lemma TenPlusFiveRecord1(en: Engine) returns (m: Moves)
    requires en == Engine(State(Row(1, 10, 0, 1), Row(0, 1, 0, 0)), Stream(None, []), Stream(Some(5), []), true, true)
    ensures Follows(en, m) && Schedule(m) == "y" + "" && Output(m) == [15]
  {
    var next := Engine(State(Row(15, 1, 1, 0), Row(1, 0, 0, 0)), Stream(None, []), Stream(None, []), false, true);
    TenPlusFiveRound1(en, next);
    var rest := TenPlusFiveRecord2(next);
    m := ExtendReadY(en, 5, next, rest);
  }

  lemma TenPlusFiveConsensus2(s: State)
    requires s == State(Row(15, 1, 1, 0), Row(1, 0, 0, 0))
    ensures Consensus(s, false, true) == None
  {
  }

  lemma TenPlusFiveRecord2(en: Engine) returns (m: Moves)
    requires en == Engine(State(Row(15, 1, 1, 0), Row(1, 0, 0, 0)), Stream(None, []), Stream(None, []), false, true)
    ensures Follows(en, m) && Schedule(m) == "" && Output(m) == [15]
  {
    TenPlusFiveConsensus2(en.s);
    ExactDivision(en.s.num.a, en.s.den.a, 15);
    m := Done([15]);
  }

  lemma TenPlusFiveRun(fuel: nat)
    requires fuel >= 3
    ensures Run(Start(AddSeed, [10], [5]), fuel).halted
    ensures Run(Start(AddSeed, [10], [5]), fuel).out == [15]
  {
    var m := TenPlusFiveRecord0(Start(AddSeed, [10], [5]));
    FollowsRun(Start(AddSeed, [10], [5]), m, fuel);
  }

  lemma TenPlusFiveHalts(fuel: nat)
    requires fuel >= 3
    ensures Run(Start(AddSeed, Euclid.Terms(10, 1), Euclid.Terms(5, 1)), fuel).halted
    ensures Run(Start(AddSeed, Euclid.Terms(10, 1), Euclid.Terms(5, 1)), fuel).out == [15]
  {
    ExpandTen();
    ExpandFive();
    TenPlusFiveRun(fuel);
  }

  /** 10 + 5 = 15: on the expansions of its operands the sum engine halts
      within 3 rounds, writes [15], and that output denotes exactly the
      sum of the operands. */
  lemma TenPlusFive(fuel: nat)
    requires fuel >= 3
    ensures Run(Start(AddSeed, Euclid.Terms(10, 1), Euclid.Terms(5, 1)), fuel).halted
    ensures Run(Start(AddSeed, Euclid.Terms(10, 1), Euclid.Terms(5, 1)), fuel).out == [15]
    ensures Value(Run(Start(AddSeed, Euclid.Terms(10, 1), Euclid.Terms(5, 1)), fuel).out).d != 0
    ensures ToReal(Value(Run(Start(AddSeed, Euclid.Terms(10, 1), Euclid.Terms(5, 1)), fuel).out)) == (10 as real / 1 as real) + (5 as real / 1 as real)
  {
    TenPlusFiveHalts(fuel);
    Euclid.FoldsBackToRatio(10, 1);
    Euclid.FoldsBackToRatio(5, 1);
    SumDenotes(Euclid.Terms(10, 1), Euclid.Terms(5, 1), (10 as real / 1 as real), (5 as real / 1 as real), fuel);
  }

  // 1 / 2 = 1/2 (test/test_gosper_arithmatic.py:83).

  lemma OneOverTwoConsensus0(s: State)
    requires s == State(Row(0, 1, 0, 0), Row(0, 0, 1, 0))
    ensures Consensus(s, true, true) == None
  {
  }

  lemma OneOverTwoCoefficients0(s: State, t: State)
    requires s == State(Row(0, 1, 0, 0), Row(0, 0, 1, 0))
    requires t == State(Row(0, 1, 0, 1), Row(1, 0, 0, 0))
    ensures AfterX(s, 1, t)
  {
  }

  lemma OneOverTwoRound0(en: Engine, next: Engine)
    requires en == Engine(State(Row(0, 1, 0, 0), Row(0, 0, 1, 0)), Stream(Some(1), []), Stream(Some(2), []), true, true)
    requires next == Engine(State(Row(0, 1, 0, 1), Row(1, 0, 0, 0)), Stream(None, []), Stream(Some(2), []), true, true)
    ensures ReadsX(en, 1, next)
  {
    OneOverTwoConsensus0(en.s);
    OneOverTwoCoefficients0(en.s, next.s);
  }

  lemma OneOverTwoRecord0(en: Engine) returns (m: Moves)
    requires en == Engine(State(Row(0, 1, 0, 0), Row(0, 0, 1, 0)), Stream(Some(1), []), Stream(Some(2), []), true, true)
    ensures Follows(en, m) && Schedule(m) == "x" + ("y" + ("k" + "")) && Output(m) == [0] + [2]
  {
    var next := Engine(State(Row(0, 1, 0, 1), Row(1, 0, 0, 0)), Stream(None, []), Stream(Some(2), []), true, true);
    OneOverTwoRound0(en, next);
    var rest := OneOverTwoRecord1(next);
    m := ExtendReadX(en, 1, next, rest);
  }

  lemma OneOverTwoConsensus1(s: State)
    requires s == State(Row(0, 1, 0, 1), Row(1, 0, 0, 0))
    ensures Consensus(s, true, true) == None
  {
  }

  lemma OneOverTwoCoefficients1(s: State, t: State)
    requires s == State(Row(0, 1, 0, 1), Row(1, 0, 0, 0))
    requires t == State(Row(1, 0, 1, 0), Row(2, 1, 0, 0))
    ensures AfterY(s, 2, t)
  {
  }

  lemma OneOverTwoRound1(en: Engine, next: Engine)
    requires en == Engine(State(Row(0, 1, 0, 1), Row(1, 0, 0, 0)), Stream(None, []), Stream(Some(2), []), true, true)
    requires next == Engine(State(Row(1, 0, 1, 0), Row(2, 1, 0, 0)), Stream(None, []), Stream(None, []), false, true)
    ensures ReadsY(en, 2, next)
  {
    OneOverTwoConsensus1(en.s);
    OneOverTwoCoefficients1(en.s, next.s);
  }

  lemma OneOverTwoRecord1(en: Engine) returns (m: Moves)
    requires en == Engine(State(Row(0, 1, 0, 1), Row(1, 0, 0, 0)), Stream(None, []), Stream(Some(2), []), true, true)
    ensures Follows(en, m) && Schedule(m) == "y" + ("k" + "") && Output(m) == [0] + [2]
  {
    var next := Engine(State(Row(1, 0, 1, 0), Row(2, 1, 0, 0)), Stream(None, []), Stream(None, []), false, true);
    OneOverTwoRound1(en, next);
    var rest := OneOverTwoRecord2(next);
    m := ExtendReadY(en, 2, next, rest);
  }

  lemma OneOverTwoConsensus2(s: State)
    requires s == State(Row(1, 0, 1, 0), Row(2, 1, 0, 0))
    ensures Consensus(s, false, true) == Some(0)
  {
  }

  lemma OneOverTwoCoefficients2(s: State, t: State)
    requires s == State(Row(1, 0, 1, 0), Row(2, 1, 0, 0))
    requires t == State(Row(2, 1, 0, 0), Row(1, 0, 1, 0))
    ensures AfterEmit(s, 0, t)
  {
  }

  lemma OneOverTwoRound2(en: Engine, next: Engine)
    requires en == Engine(State(Row(1, 0, 1, 0), Row(2, 1, 0, 0)), Stream(None, []), Stream(None, []), false, true)
    requires next == Engine(State(Row(2, 1, 0, 0), Row(1, 0, 1, 0)), Stream(None, []), Stream(None, []), false, true)
    ensures Emits(en, 0, next)
  {
    OneOverTwoConsensus2(en.s);
    OneOverTwoCoefficients2(en.s, next.s);
  }

  lemma OneOverTwoRecord2(en: Engine) returns (m: Moves)
    requires en == Engine(State(Row(1, 0, 1, 0), Row(2, 1, 0, 0)), Stream(None, []), Stream(None, []), false, true)
    ensures Follows(en, m) && Schedule(m) == "k" + "" && Output(m) == [0] + [2]
  {
    var next := Engine(State(Row(2, 1, 0, 0), Row(1, 0, 1, 0)), Stream(None, []), Stream(None, []), false, true);
    OneOverTwoRound2(en, next);
    var rest := OneOverTwoRecord3(next);
    m := ExtendWrote(en, 0, next, rest);
  }

  lemma OneOverTwoConsensus3(s: State)
    requires s == State(Row(2, 1, 0, 0), Row(1, 0, 1, 0))
    ensures Consensus(s, false, true) == None
  {
  }

  lemma OneOverTwoRecord3(en: Engine) returns (m: Moves)
    requires en == Engine(State(Row(2, 1, 0, 0), Row(1, 0, 1, 0)), Stream(None, []), Stream(None, []), false, true)
    ensures Follows(en, m) && Schedule(m) == "" && Output(m) == [2]
  {
    OneOverTwoConsensus3(en.s);
    ExactDivision(en.s.num.a, en.s.den.a, 2);
    m := Done([2]);
  }

  lemma OneOverTwoRun(fuel: nat)
    requires fuel >= 4
    ensures Run(Start(DivSeed, [1], [2]), fuel).halted
    ensures Run(Start(DivSeed, [1], [2]), fuel).out == [0, 2]
  {
    var m := OneOverTwoRecord0(Start(DivSeed, [1], [2]));
    FollowsRun(Start(DivSeed, [1], [2]), m, fuel);
  }

  lemma OneOverTwoHalts(fuel: nat)
    requires fuel >= 4
    ensures Run(Start(DivSeed, Euclid.Terms(1, 1), Euclid.Terms(2, 1)), fuel).halted
    ensures Run(Start(DivSeed, Euclid.Terms(1, 1), Euclid.Terms(2, 1)), fuel).out == [0, 2]
  {
    ExpandOne();
    ExpandTwo();
    OneOverTwoRun(fuel);
  }

  /** 1 / 2 = 1/2: on the expansions of its operands the quotient engine halts
      within 4 rounds, writes [0, 2], and that output denotes exactly the
      quotient of the operands. */
  lemma OneOverTwo(fuel: nat)
    requires fuel >= 4
    ensures Run(Start(DivSeed, Euclid.Terms(1, 1), Euclid.Terms(2, 1)), fuel).halted
    ensures Run(Start(DivSeed, Euclid.Terms(1, 1), Euclid.Terms(2, 1)), fuel).out == [0, 2]
    ensures Value(Run(Start(DivSeed, Euclid.Terms(1, 1), Euclid.Terms(2, 1)), fuel).out).d != 0
    ensures ToReal(Value(Run(Start(DivSeed, Euclid.Terms(1, 1), Euclid.Terms(2, 1)), fuel).out)) == (1 as real / 1 as real) / (2 as real / 1 as real)
  {
    OneOverTwoHalts(fuel);
    Euclid.FoldsBackToRatio(1, 1);
    Euclid.FoldsBackToRatio(2, 1);
    QuotientDenotes(Euclid.Terms(1, 1), Euclid.Terms(2, 1), (1 as real / 1 as real), (2 as real / 1 as real), fuel);
  }

  // 1 / (1/2) = 2 (test/test_continued_fraction.py:125).

  lemma OneOverHalfConsensus0(s: State)
    requires s == State(Row(0, 1, 0, 0), Row(0, 0, 1, 0))
    ensures Consensus(s, true, true) == None
  {
  }

  lemma OneOverHalfCoefficients0(s: State, t: State)
    requires s == State(Row(0, 1, 0, 0), Row(0, 0, 1, 0))
    requires t == State(Row(0, 1, 0, 1), Row(1, 0, 0, 0))
    ensures AfterX(s, 1, t)
  {
  }

  lemma OneOverHalfRound0(en: Engine, next: Engine)
    requires en == Engine(State(Row(0, 1, 0, 0), Row(0, 0, 1, 0)), Stream(Some(1), []), Stream(Some(0), [2]), true, true)
    requires next == Engine(State(Row(0, 1, 0, 1), Row(1, 0, 0, 0)), Stream(None, []), Stream(Some(0), [2]), true, true)
    ensures ReadsX(en, 1, next)
  {
    OneOverHalfConsensus0(en.s);
    OneOverHalfCoefficients0(en.s, next.s);
  }

  lemma OneOverHalfRecord0(en: Engine) returns (m: Moves)
    requires en == Engine(State(Row(0, 1, 0, 0), Row(0, 0, 1, 0)), Stream(Some(1), []), Stream(Some(0), [2]), true, true)
    ensures Follows(en, m) && Schedule(m) == "x" + ("y" + ("y" + "")) && Output(m) == [2]
  {
    var next := Engine(State(Row(0, 1, 0, 1), Row(1, 0, 0, 0)), Stream(None, []), Stream(Some(0), [2]), true, true);
    OneOverHalfRound0(en, next);
    var rest := OneOverHalfRecord1(next);
    m := ExtendReadX(en, 1, next, rest);
  }

  lemma OneOverHalfConsensus1(s: State)
    requires s == State(Row(0, 1, 0, 1), Row(1, 0, 0, 0))
    ensures Consensus(s, true, true) == None
  {
  }

  lemma OneOverHalfCoefficients1(s: State, t: State)
    requires s == State(Row(0, 1, 0, 1), Row(1, 0, 0, 0))
    requires t == State(Row(1, 0, 1, 0), Row(0, 1, 0, 0))
    ensures AfterY(s, 0, t)
  {
  }

  lemma OneOverHalfRound1(en: Engine, next: Engine)
    requires en == Engine(State(Row(0, 1, 0, 1), Row(1, 0, 0, 0)), Stream(None, []), Stream(Some(0), [2]), true, true)
    requires next == Engine(State(Row(1, 0, 1, 0), Row(0, 1, 0, 0)), Stream(None, []), Stream(Some(2), []), false, true)
    ensures ReadsY(en, 0, next)
  {
    OneOverHalfConsensus1(en.s);
    OneOverHalfCoefficients1(en.s, next.s);
  }

  lemma OneOverHalfRecord1(en: Engine) returns (m: Moves)
    requires en == Engine(State(Row(0, 1, 0, 1), Row(1, 0, 0, 0)), Stream(None, []), Stream(Some(0), [2]), true, true)
    ensures Follows(en, m) && Schedule(m) == "y" + ("y" + "") && Output(m) == [2]
  {
    var next := Engine(State(Row(1, 0, 1, 0), Row(0, 1, 0, 0)), Stream(None, []), Stream(Some(2), []), false, true);
    OneOverHalfRound1(en, next);
    var rest := OneOverHalfRecord2(next);
    m := ExtendReadY(en, 0, next, rest);
  }

  lemma OneOverHalfConsensus2(s: State)
    requires s == State(Row(1, 0, 1, 0), Row(0, 1, 0, 0))
    ensures Consensus(s, false, true) == None
  {
  }

  lemma OneOverHalfCoefficients2(s: State, t: State)
    requires s == State(Row(1, 0, 1, 0), Row(0, 1, 0, 0))
    requires t == State(Row(2, 1, 2, 1), Row(1, 0, 0, 0))
    ensures AfterY(s, 2, t)
  {
  }

  lemma OneOverHalfRound2(en: Engine, next: Engine)
    requires en == Engine(State(Row(1, 0, 1, 0), Row(0, 1, 0, 0)), Stream(None, []), Stream(Some(2), []), false, true)
    requires next == Engine(State(Row(2, 1, 2, 1), Row(1, 0, 0, 0)), Stream(None, []), Stream(None, []), false, true)
    ensures ReadsY(en, 2, next)
  {
    OneOverHalfConsensus2(en.s);
    OneOverHalfCoefficients2(en.s, next.s);
  }

  lemma OneOverHalfRecord2(en: Engine) returns (m: Moves)
    requires en == Engine(State(Row(1, 0, 1, 0), Row(0, 1, 0, 0)), Stream(None, []), Stream(Some(2), []), false, true)
    ensures Follows(en, m) && Schedule(m) == "y" + "" && Output(m) == [2]
  {
    var next := Engine(State(Row(2, 1, 2, 1), Row(1, 0, 0, 0)), Stream(None, []), Stream(None, []), false, true);
    OneOverHalfRound2(en, next);
    var rest := OneOverHalfRecord3(next);
    m := ExtendReadY(en, 2, next, rest);
  }

  lemma OneOverHalfConsensus3(s: State)
    requires s == State(Row(2, 1, 2, 1), Row(1, 0, 0, 0))
    ensures Consensus(s, false, true) == None
  {
  }

  lemma OneOverHalfRecord3(en: Engine) returns (m: Moves)
    requires en == Engine(State(Row(2, 1, 2, 1), Row(1, 0, 0, 0)), Stream(None, []), Stream(None, []), false, true)
    ensures Follows(en, m) && Schedule(m) == "" && Output(m) == [2]
  {
    OneOverHalfConsensus3(en.s);
    ExactDivision(en.s.num.a, en.s.den.a, 2);
    m := Done([2]);
  }

  lemma OneOverHalfRun(fuel: nat)
    requires fuel >= 4
    ensures Run(Start(DivSeed, [1], [0, 2]), fuel).halted
    ensures Run(Start(DivSeed, [1], [0, 2]), fuel).out == [2]
  {
    var m := OneOverHalfRecord0(Start(DivSeed, [1], [0, 2]));
    FollowsRun(Start(DivSeed, [1], [0, 2]), m, fuel);
  }

  lemma OneOverHalfHalts(fuel: nat)
    requires fuel >= 4
    ensures Run(Start(DivSeed, Euclid.Terms(1, 1), Euclid.Terms(1, 2)), fuel).halted
    ensures Run(Start(DivSeed, Euclid.Terms(1, 1), Euclid.Terms(1, 2)), fuel).out == [2]
  {
    ExpandOne();
    ExpandHalf();
    OneOverHalfRun(fuel);
  }

  /** 1 / (1/2) = 2: on the expansions of its operands the quotient engine halts
      within 4 rounds, writes [2], and that output denotes exactly the
      quotient of the operands. */
  lemma OneOverHalf(fuel: nat)
    requires fuel >= 4
    ensures Run(Start(DivSeed, Euclid.Terms(1, 1), Euclid.Terms(1, 2)), fuel).halted
    ensures Run(Start(DivSeed, Euclid.Terms(1, 1), Euclid.Terms(1, 2)), fuel).out == [2]
    ensures Value(Run(Start(DivSeed, Euclid.Terms(1, 1), Euclid.Terms(1, 2)), fuel).out).d != 0
    ensures ToReal(Value(Run(Start(DivSeed, Euclid.Terms(1, 1), Euclid.Terms(1, 2)), fuel).out)) == (1 as real / 1 as real) / (1 as real / 2 as real)
  {
    OneOverHalfHalts(fuel);
    Euclid.FoldsBackToRatio(1, 1);
    Euclid.FoldsBackToRatio(1, 2);
    QuotientDenotes(Euclid.Terms(1, 1), Euclid.Terms(1, 2), (1 as real / 1 as real), (1 as real / 2 as real), fuel);
  }

  // 1/2 + 0 = 1/2 (test/test_continued_fraction.py:46).

  lemma HalfPlusZeroConsensus0(s: State)
    requires s == State(Row(0, 1, 1, 0), Row(0, 0, 0, 1))
    ensures Consensus(s, true, true) == None
  {
  }

  lemma HalfPlusZeroCoefficients0(s: State, t: State)
    requires s == State(Row(0, 1, 1, 0), Row(0, 0, 0, 1))
    requires t == State(Row(1, 0, 0, 1), Row(0, 1, 0, 0))
    ensures AfterX(s, 0, t)
  {
  }

  lemma HalfPlusZeroRound0(en: Engine, next: Engine)
    requires en == Engine(State(Row(0, 1, 1, 0), Row(0, 0, 0, 1)), Stream(Some(0), [2]), Stream(Some(0), []), true, true)
    requires next == Engine(State(Row(1, 0, 0, 1), Row(0, 1, 0, 0)), Stream(Some(2), []), Stream(Some(0), []), true, true)
    ensures ReadsX(en, 0, next)
  {
    HalfPlusZeroConsensus0(en.s);
    HalfPlusZeroCoefficients0(en.s, next.s);
  }

  lemma HalfPlusZeroRecord0(en: Engine) returns (m: Moves)
    requires en == Engine(State(Row(0, 1, 1, 0), Row(0, 0, 0, 1)), Stream(Some(0), [2]), Stream(Some(0), []), true, true)
    ensures Follows(en, m) && Schedule(m) == "x" + ("x" + ("y" + "")) && Output(m) == [0, 2]
  {
    var next := Engine(State(Row(1, 0, 0, 1), Row(0, 1, 0, 0)), Stream(Some(2), []), Stream(Some(0), []), true, true);
    HalfPlusZeroRound0(en, next);
    var rest := HalfPlusZeroRecord1(next);
    m := ExtendReadX(en, 0, next, rest);
  }

  lemma HalfPlusZeroConsensus1(s: State)
    requires s == State(Row(1, 0, 0, 1), Row(0, 1, 0, 0))
    ensures Consensus(s, true, true) == None
  {
  }

  lemma HalfPlusZeroCoefficients1(s: State, t: State)
    requires s == State(Row(1, 0, 0, 1), Row(0, 1, 0, 0))
    requires t == State(Row(2, 1, 1, 0), Row(0, 2, 0, 1))
    ensures AfterX(s, 2, t)
  {
  }

  lemma HalfPlusZeroRound1(en: Engine, next: Engine)
    requires en == Engine(State(Row(1, 0, 0, 1), Row(0, 1, 0, 0)), Stream(Some(2), []), Stream(Some(0), []), true, true)
    requires next == Engine(State(Row(2, 1, 1, 0), Row(0, 2, 0, 1)), Stream(None, []), Stream(Some(0), []), true, true)
    ensures ReadsX(en, 2, next)
  {
    HalfPlusZeroConsensus1(en.s);
    HalfPlusZeroCoefficients1(en.s, next.s);
  }

  lemma HalfPlusZeroRecord1(en: Engine) returns (m: Moves)
    requires en == Engine(State(Row(1, 0, 0, 1), Row(0, 1, 0, 0)), Stream(Some(2), []), Stream(Some(0), []), true, true)
    ensures Follows(en, m) && Schedule(m) == "x" + ("y" + "") && Output(m) == [0, 2]
  {
    var next := Engine(State(Row(2, 1, 1, 0), Row(0, 2, 0, 1)), Stream(None, []), Stream(Some(0), []), true, true);
    HalfPlusZeroRound1(en, next);
    var rest := HalfPlusZeroRecord2(next);
    m := ExtendReadX(en, 2, next, rest);
  }

  lemma HalfPlusZeroConsensus2(s: State)
    requires s == State(Row(2, 1, 1, 0), Row(0, 2, 0, 1))
    ensures Consensus(s, true, true) == None
  {
  }

  lemma HalfPlusZeroCoefficients2(s: State, t: State)
    requires s == State(Row(2, 1, 1, 0), Row(0, 2, 0, 1))
    requires t == State(Row(1, 2, 0, 1), Row(2, 0, 1, 0))
    ensures AfterY(s, 0, t)
  {
  }

  lemma HalfPlusZeroRound2(en: Engine, next: Engine)
    requires en == Engine(State(Row(2, 1, 1, 0), Row(0, 2, 0, 1)), Stream(None, []), Stream(Some(0), []), true, true)
    requires next == Engine(State(Row(1, 2, 0, 1), Row(2, 0, 1, 0)), Stream(None, []), Stream(None, []), false, true)
    ensures ReadsY(en, 0, next)
  {
    HalfPlusZeroConsensus2(en.s);
    HalfPlusZeroCoefficients2(en.s, next.s);
  }

  lemma HalfPlusZeroRecord2(en: Engine) returns (m: Moves)
    requires en == Engine(State(Row(2, 1, 1, 0), Row(0, 2, 0, 1)), Stream(None, []), Stream(Some(0), []), true, true)
    ensures Follows(en, m) && Schedule(m) == "y" + "" && Output(m) == [0, 2]
  {
    var next := Engine(State(Row(1, 2, 0, 1), Row(2, 0, 1, 0)), Stream(None, []), Stream(None, []), false, true);
    HalfPlusZeroRound2(en, next);
    var rest := HalfPlusZeroRecord3(next);
    m := ExtendReadY(en, 0, next, rest);
  }

  lemma HalfPlusZeroConsensus3(s: State)
    requires s == State(Row(1, 2, 0, 1), Row(2, 0, 1, 0))
    ensures Consensus(s, false, true) == None
  {
  }

  lemma HalfPlusZeroRecord3(en: Engine) returns (m: Moves)
    requires en == Engine(State(Row(1, 2, 0, 1), Row(2, 0, 1, 0)), Stream(None, []), Stream(None, []), false, true)
    ensures Follows(en, m) && Schedule(m) == "" && Output(m) == [0, 2]
  {
    HalfPlusZeroConsensus3(en.s);
    Euclid.TermsStep(en.s.num.a, en.s.den.a, 0, 1);
    ExactDivision(en.s.den.a, 1, 2);
    m := Done([0, 2]);
  }

  lemma HalfPlusZeroRun(fuel: nat)
    requires fuel >= 4
    ensures Run(Start(AddSeed, [0, 2], [0]), fuel).halted
    ensures Run(Start(AddSeed, [0, 2], [0]), fuel).out == [0, 2]
  {
    var m := HalfPlusZeroRecord0(Start(AddSeed, [0, 2], [0]));
    FollowsRun(Start(AddSeed, [0, 2], [0]), m, fuel);
  }

  lemma HalfPlusZeroHalts(fuel: nat)
    requires fuel >= 4
    ensures Run(Start(AddSeed, Euclid.Terms(1, 2), Euclid.Terms(0, 1)), fuel).halted
    ensures Run(Start(AddSeed, Euclid.Terms(1, 2), Euclid.Terms(0, 1)), fuel).out == [0, 2]
  {
    ExpandHalf();
    ExpandZero();
    HalfPlusZeroRun(fuel);
  }

  /** 1/2 + 0 = 1/2: on the expansions of its operands the sum engine halts
      within 4 rounds, writes [0, 2], and that output denotes exactly the
      sum of the operands. */
  lemma HalfPlusZero(fuel: nat)
    requires fuel >= 4
    ensures Run(Start(AddSeed, Euclid.Terms(1, 2), Euclid.Terms(0, 1)), fuel).halted
    ensures Run(Start(AddSeed, Euclid.Terms(1, 2), Euclid.Terms(0, 1)), fuel).out == [0, 2]
    ensures Value(Run(Start(AddSeed, Euclid.Terms(1, 2), Euclid.Terms(0, 1)), fuel).out).d != 0
    ensures ToReal(Value(Run(Start(AddSeed, Euclid.Terms(1, 2), Euclid.Terms(0, 1)), fuel).out)) == (1 as real / 2 as real) + (0 as real / 1 as real)
  {
    HalfPlusZeroHalts(fuel);
    Euclid.FoldsBackToRatio(1, 2);
    Euclid.FoldsBackToRatio(0, 1);
    SumDenotes(Euclid.Terms(1, 2), Euclid.Terms(0, 1), (1 as real / 2 as real), (0 as real / 1 as real), fuel);
  }

  // 2/3 * 1 = 2/3 (test/test_continued_fraction.py:47).

  lemma TwoThirdsTimesOneConsensus0(s: State)
    requires s == State(Row(1, 0, 0, 0), Row(0, 0, 0, 1))
    ensures Consensus(s, true, true) == None
  {
  }

  lemma TwoThirdsTimesOneCoefficients0(s: State, t: State)
    requires s == State(Row(1, 0, 0, 0), Row(0, 0, 0, 1))
    requires t == State(Row(0, 0, 1, 0), Row(0, 1, 0, 0))
    ensures AfterX(s, 0, t)
  {
  }

  lemma TwoThirdsTimesOneRound0(en: Engine, next: Engine)
    requires en == Engine(State(Row(1, 0, 0, 0), Row(0, 0, 0, 1)), Stream(Some(0), [1, 2]), Stream(Some(1), []), true, true)
    requires next == Engine(State(Row(0, 0, 1, 0), Row(0, 1, 0, 0)), Stream(Some(1), [2]), Stream(Some(1), []), true, true)
    ensures ReadsX(en, 0, next)
  {
    TwoThirdsTimesOneConsensus0(en.s);
    TwoThirdsTimesOneCoefficients0(en.s, next.s);
  }

  lemma TwoThirdsTimesOneRecord0(en: Engine) returns (m: Moves)
    requires en == Engine(State(Row(1, 0, 0, 0), Row(0, 0, 0, 1)), Stream(Some(0), [1, 2]), Stream(Some(1), []), true, true)
    ensures Follows(en, m) && Schedule(m) == "x" + ("x" + ("x" + ("y" + ""))) && Output(m) == [0, 1, 2]
  {
    var next := Engine(State(Row(0, 0, 1, 0), Row(0, 1, 0, 0)), Stream(Some(1), [2]), Stream(Some(1), []), true, true);
    TwoThirdsTimesOneRound0(en, next);
    var rest := TwoThirdsTimesOneRecord1(next);
    m := ExtendReadX(en, 0, next, rest);
  }

  lemma TwoThirdsTimesOneConsensus1(s: State)
    requires s == State(Row(0, 0, 1, 0), Row(0, 1, 0, 0))
    ensures Consensus(s, true, true) == None
  {
  }

  lemma TwoThirdsTimesOneCoefficients1(s: State, t: State)
    requires s == State(Row(0, 0, 1, 0), Row(0, 1, 0, 0))
    requires t == State(Row(1, 0, 0, 0), Row(0, 1, 0, 1))
    ensures AfterX(s, 1, t)
  {
  }

  lemma TwoThirdsTimesOneRound1(en: Engine, next: Engine)
    requires en == Engine(State(Row(0, 0, 1, 0), Row(0, 1, 0, 0)), Stream(Some(1), [2]), Stream(Some(1), []), true, true)
    requires next == Engine(State(Row(1, 0, 0, 0), Row(0, 1, 0, 1)), Stream(Some(2), []), Stream(Some(1), []), true, true)
    ensures ReadsX(en, 1, next)
  {
    TwoThirdsTimesOneConsensus1(en.s);
    TwoThirdsTimesOneCoefficients1(en.s, next.s);
  }

  lemma TwoThirdsTimesOneRecord1(en: Engine) returns (m: Moves)
    requires en == Engine(State(Row(0, 0, 1, 0), Row(0, 1, 0, 0)), Stream(Some(1), [2]), Stream(Some(1), []), true, true)
    ensures Follows(en, m) && Schedule(m) == "x" + ("x" + ("y" + "")) && Output(m) == [0, 1, 2]
  {
    var next := Engine(State(Row(1, 0, 0, 0), Row(0, 1, 0, 1)), Stream(Some(2), []), Stream(Some(1), []), true, true);
    TwoThirdsTimesOneRound1(en, next);
    var rest := TwoThirdsTimesOneRecord2(next);
    m := ExtendReadX(en, 1, next, rest);
  }

  lemma TwoThirdsTimesOneConsensus2(s: State)
    requires s == State(Row(1, 0, 0, 0), Row(0, 1, 0, 1))
    ensures Consensus(s, true, true) == None
  {
  }

  lemma TwoThirdsTimesOneCoefficients2(s: State, t: State)
    requires s == State(Row(1, 0, 0, 0), Row(0, 1, 0, 1))
    requires t == State(Row(2, 0, 1, 0), Row(0, 3, 0, 1))
    ensures AfterX(s, 2, t)
  {
  }

  lemma TwoThirdsTimesOneRound2(en: Engine, next: Engine)
    requires en == Engine(State(Row(1, 0, 0, 0), Row(0, 1, 0, 1)), Stream(Some(2), []), Stream(Some(1), []), true, true)
    requires next == Engine(State(Row(2, 0, 1, 0), Row(0, 3, 0, 1)), Stream(None, []), Stream(Some(1), []), true, true)
    ensures ReadsX(en, 2, next)
  {
    TwoThirdsTimesOneConsensus2(en.s);
    TwoThirdsTimesOneCoefficients2(en.s, next.s);
  }

  lemma TwoThirdsTimesOneRecord2(en: Engine) returns (m: Moves)
    requires en == Engine(State(Row(1, 0, 0, 0), Row(0, 1, 0, 1)), Stream(Some(2), []), Stream(Some(1), []), true, true)
    ensures Follows(en, m) && Schedule(m) == "x" + ("y" + "") && Output(m) == [0, 1, 2]
  {
    var next := Engine(State(Row(2, 0, 1, 0), Row(0, 3, 0, 1)), Stream(None, []), Stream(Some(1), []), true, true);
    TwoThirdsTimesOneRound2(en, next);
    var rest := TwoThirdsTimesOneRecord3(next);
    m := ExtendReadX(en, 2, next, rest);
  }

  lemma TwoThirdsTimesOneConsensus3(s: State)
    requires s == State(Row(2, 0, 1, 0), Row(0, 3, 0, 1))
    ensures Consensus(s, true, true) == None
  {
  }

  lemma TwoThirdsTimesOneCoefficients3(s: State, t: State)
    requires s == State(Row(2, 0, 1, 0), Row(0, 3, 0, 1))
    requires t == State(Row(2, 2, 1, 1), Row(3, 0, 1, 0))
    ensures AfterY(s, 1, t)
  {
  }

  lemma TwoThirdsTimesOneRound3(en: Engine, next: Engine)
    requires en == Engine(State(Row(2, 0, 1, 0), Row(0, 3, 0, 1)), Stream(None, []), Stream(Some(1), []), true, true)
    requires next == Engine(State(Row(2, 2, 1, 1), Row(3, 0, 1, 0)), Stream(None, []), Stream(None, []), false, true)
    ensures ReadsY(en, 1, next)
  {
    TwoThirdsTimesOneConsensus3(en.s);
    TwoThirdsTimesOneCoefficients3(en.s, next.s);
  }

  lemma TwoThirdsTimesOneRecord3(en: Engine) returns (m: Moves)
    requires en == Engine(State(Row(2, 0, 1, 0), Row(0, 3, 0, 1)), Stream(None, []), Stream(Some(1), []), true, true)
    ensures Follows(en, m) && Schedule(m) == "y" + "" && Output(m) == [0, 1, 2]
  {
    var next := Engine(State(Row(2, 2, 1, 1), Row(3, 0, 1, 0)), Stream(None, []), Stream(None, []), false, true);
    TwoThirdsTimesOneRound3(en, next);
    var rest := TwoThirdsTimesOneRecord4(next);
    m := ExtendReadY(en, 1, next, rest);
  }

  lemma TwoThirdsTimesOneConsensus4(s: State)
    requires s == State(Row(2, 2, 1, 1), Row(3, 0, 1, 0))
    ensures Consensus(s, false, true) == None
  {
  }

  lemma TwoThirdsTimesOneRecord4(en: Engine) returns (m: Moves)
    requires en == Engine(State(Row(2, 2, 1, 1), Row(3, 0, 1, 0)), Stream(None, []), Stream(None, []), false, true)
    ensures Follows(en, m) && Schedule(m) == "" && Output(m) == [0, 1, 2]
  {
    TwoThirdsTimesOneConsensus4(en.s);
    Euclid.TermsStep(en.s.num.a, en.s.den.a, 0, 2);
    Euclid.TermsStep(en.s.den.a, 2, 1, 1);
    ExactDivision(2, 1, 2);
    m := Done([0, 1, 2]);
  }

  lemma TwoThirdsTimesOneRun(fuel: nat)
    requires fuel >= 5
    ensures Run(Start(MulSeed, [0, 1, 2], [1]), fuel).halted
    ensures Run(Start(MulSeed, [0, 1, 2], [1]), fuel).out == [0, 1, 2]
  {
    var m := TwoThirdsTimesOneRecord0(Start(MulSeed, [0, 1, 2], [1]));
    FollowsRun(Start(MulSeed, [0, 1, 2], [1]), m, fuel);
  }

  lemma TwoThirdsTimesOneArithmetic()
    ensures (2 as real / 3 as real) * (1 as real / 1 as real) == (2 as real / 3 as real)
  {
  }

  lemma TwoThirdsTimesOneHalts(fuel: nat)
    requires fuel >= 5
    ensures Run(Start(MulSeed, Euclid.Terms(2, 3), Euclid.Terms(1, 1)), fuel).halted
    ensures Run(Start(MulSeed, Euclid.Terms(2, 3), Euclid.Terms(1, 1)), fuel).out == [0, 1, 2]
  {
    ExpandTwoThirds();
    ExpandOne();
    TwoThirdsTimesOneRun(fuel);
  }

  /** 2/3 * 1 = 2/3: on the expansions of its operands the product engine halts
      within 5 rounds, writes [0, 1, 2], and that output denotes exactly the
      product of the operands. */
  lemma TwoThirdsTimesOne(fuel: nat)
    requires fuel >= 5
    ensures Run(Start(MulSeed, Euclid.Terms(2, 3), Euclid.Terms(1, 1)), fuel).halted
    ensures Run(Start(MulSeed, Euclid.Terms(2, 3), Euclid.Terms(1, 1)), fuel).out == [0, 1, 2]
    ensures Value(Run(Start(MulSeed, Euclid.Terms(2, 3), Euclid.Terms(1, 1)), fuel).out).d != 0
    ensures ToReal(Value(Run(Start(MulSeed, Euclid.Terms(2, 3), Euclid.Terms(1, 1)), fuel).out)) == (2 as real / 3 as real) * (1 as real / 1 as real)
  {
    TwoThirdsTimesOneHalts(fuel);
    ExpandTwoThirds();
    Euclid.FoldsBackToRatio(2, 3);
    TwoThirdsTimesOneArithmetic();
  }

  // 55 * 0 = 0 (test/test_continued_fraction.py:48).

  lemma FiftyFiveTimesZeroConsensus0(s: State)
    requires s == State(Row(1, 0, 0, 0), Row(0, 0, 0, 1))
    ensures Consensus(s, true, true) == None
  {
  }

  lemma FiftyFiveTimesZeroCoefficients0(s: State, t: State)
    requires s == State(Row(1, 0, 0, 0), Row(0, 0, 0, 1))
    requires t == State(Row(55, 0, 1, 0), Row(0, 1, 0, 0))
    ensures AfterX(s, 55, t)
  {
  }

  lemma FiftyFiveTimesZeroRound0(en: Engine, next: Engine)
    requires en == Engine(State(Row(1, 0, 0, 0), Row(0, 0, 0, 1)), Stream(Some(55), []), Stream(Some(0), []), true, true)
    requires next == Engine(State(Row(55, 0, 1, 0), Row(0, 1, 0, 0)), Stream(None, []), Stream(Some(0), []), true, true)
    ensures ReadsX(en, 55, next)
  {
    FiftyFiveTimesZeroConsensus0(en.s);
    FiftyFiveTimesZeroCoefficients0(en.s, next.s);
  }

  lemma FiftyFiveTimesZeroRecord0(en: Engine) returns (m: Moves)
    requires en == Engine(State(Row(1, 0, 0, 0), Row(0, 0, 0, 1)), Stream(Some(55), []), Stream(Some(0), []), true, true)
    ensures Follows(en, m) && Schedule(m) == "x" + ("y" + "") && Output(m) == [0]
  {
    var next := Engine(State(Row(55, 0, 1, 0), Row(0, 1, 0, 0)), Stream(None, []), Stream(Some(0), []), true, true);
    FiftyFiveTimesZeroRound0(en, next);
    var rest := FiftyFiveTimesZeroRecord1(next);
    m := ExtendReadX(en, 55, next, rest);
  }

  lemma FiftyFiveTimesZeroConsensus1(s: State)
    requires s == State(Row(55, 0, 1, 0), Row(0, 1, 0, 0))
    ensures Consensus(s, true, true) == None
  {
  }

  lemma FiftyFiveTimesZeroCoefficients1(s: State, t: State)
    requires s == State(Row(55, 0, 1, 0), Row(0, 1, 0, 0))
    requires t == State(Row(0, 55, 0, 1), Row(1, 0, 0, 0))
    ensures AfterY(s, 0, t)
  {
  }

  lemma FiftyFiveTimesZeroRound1(en: Engine, next: Engine)
    requires en == Engine(State(Row(55, 0, 1, 0), Row(0, 1, 0, 0)), Stream(None, []), Stream(Some(0), []), true, true)
    requires next == Engine(State(Row(0, 55, 0, 1), Row(1, 0, 0, 0)), Stream(None, []), Stream(None, []), false, true)
    ensures ReadsY(en, 0, next)
  {
    FiftyFiveTimesZeroConsensus1(en.s);
    FiftyFiveTimesZeroCoefficients1(en.s, next.s);
  }

  lemma FiftyFiveTimesZeroRecord1(en: Engine) returns (m: Moves)
    requires en == Engine(State(Row(55, 0, 1, 0), Row(0, 1, 0, 0)), Stream(None, []), Stream(Some(0), []), true, true)
    ensures Follows(en, m) && Schedule(m) == "y" + "" && Output(m) == [0]
  {
    var next := Engine(State(Row(0, 55, 0, 1), Row(1, 0, 0, 0)), Stream(None, []), Stream(None, []), false, true);
    FiftyFiveTimesZeroRound1(en, next);
    var rest := FiftyFiveTimesZeroRecord2(next);
    m := ExtendReadY(en, 0, next, rest);
  }

  lemma FiftyFiveTimesZeroConsensus2(s: State)
    requires s == State(Row(0, 55, 0, 1), Row(1, 0, 0, 0))
    ensures Consensus(s, false, true) == None
  {
  }

  lemma FiftyFiveTimesZeroRecord2(en: Engine) returns (m: Moves)
    requires en == Engine(State(Row(0, 55, 0, 1), Row(1, 0, 0, 0)), Stream(None, []), Stream(None, []), false, true)
    ensures Follows(en, m) && Schedule(m) == "" && Output(m) == [0]
  {
    FiftyFiveTimesZeroConsensus2(en.s);
    ExactDivision(en.s.num.a, en.s.den.a, 0);
    m := Done([0]);
  }

  lemma FiftyFiveTimesZeroRun(fuel: nat)
    requires fuel >= 3
    ensures Run(Start(MulSeed, [55], [0]), fuel).halted
    ensures Run(Start(MulSeed, [55], [0]), fuel).out == [0]
  {
    var m := FiftyFiveTimesZeroRecord0(Start(MulSeed, [55], [0]));
    FollowsRun(Start(MulSeed, [55], [0]), m, fuel);
  }

  lemma FiftyFiveTimesZeroArithmetic()
    ensures (55 as real / 1 as real) * (0 as real / 1 as real) == (0 as real / 1 as real)
  {
  }

  lemma ValueOfZero()
    ensures Value([0]) == Pair(0, 1)
  {
  }

  lemma FiftyFiveTimesZeroValue(fuel: nat)
    requires fuel >= 3
    ensures Value(Run(Start(MulSeed, Euclid.Terms(55, 1), Euclid.Terms(0, 1)), fuel).out) == Pair(0, 1)
  {
    FiftyFiveTimesZeroHalts(fuel);
    ValueOfZero();
  }

  lemma FiftyFiveTimesZeroHalts(fuel: nat)
    requires fuel >= 3
    ensures Run(Start(MulSeed, Euclid.Terms(55, 1), Euclid.Terms(0, 1)), fuel).halted
    ensures Run(Start(MulSeed, Euclid.Terms(55, 1), Euclid.Terms(0, 1)), fuel).out == [0]
  {
    ExpandFiftyFive();
    ExpandZero();
    FiftyFiveTimesZeroRun(fuel);
  }

  /** 55 * 0 = 0: on the expansions of its operands the product engine halts
      within 3 rounds, writes [0], and that output denotes 0. */
  lemma FiftyFiveTimesZero(fuel: nat)
    requires fuel >= 3
    ensures Run(Start(MulSeed, Euclid.Terms(55, 1), Euclid.Terms(0, 1)), fuel).halted
    ensures Run(Start(MulSeed, Euclid.Terms(55, 1), Euclid.Terms(0, 1)), fuel).out == [0]
    ensures Value(Run(Start(MulSeed, Euclid.Terms(55, 1), Euclid.Terms(0, 1)), fuel).out) == Pair(0, 1)
  {
    FiftyFiveTimesZeroHalts(fuel);
    FiftyFiveTimesZeroValue(fuel);
  }

  /** The output of the run above denotes exactly the product of the
      operands. */
  lemma FiftyFiveTimesZeroExact(fuel: nat)
    requires fuel >= 3
    ensures Value(Run(Start(MulSeed, Euclid.Terms(55, 1), Euclid.Terms(0, 1)), fuel).out).d != 0
    ensures ToReal(Value(Run(Start(MulSeed, Euclid.Terms(55, 1), Euclid.Terms(0, 1)), fuel).out)) == (55 as real / 1 as real) * (0 as real / 1 as real)
  {
    FiftyFiveTimesZeroValue(fuel);
    FiftyFiveTimesZeroArithmetic();
  }

  // 1/3 - 1/3 = 0 (test/test_continued_fraction.py:84).

  lemma ThirdMinusThirdConsensus0(s: State)
    requires s == State(Row(0, 1, -1, 0), Row(0, 0, 0, 1))
    ensures Consensus(s, true, true) == None
  {
  }

  lemma ThirdMinusThirdCoefficients0(s: State, t: State)
    requires s == State(Row(0, 1, -1, 0), Row(0, 0, 0, 1))
    requires t == State(Row(-1, 0, 0, 1), Row(0, 1, 0, 0))
    ensures AfterX(s, 0, t)
  {
  }

  lemma ThirdMinusThirdRound0(en: Engine, next: Engine)
    requires en == Engine(State(Row(0, 1, -1, 0), Row(0, 0, 0, 1)), Stream(Some(0), [3]), Stream(Some(0), [3]), true, true)
    requires next == Engine(State(Row(-1, 0, 0, 1), Row(0, 1, 0, 0)), Stream(Some(3), []), Stream(Some(0), [3]), true, true)
    ensures ReadsX(en, 0, next)
  {
    ThirdMinusThirdConsensus0(en.s);
    ThirdMinusThirdCoefficients0(en.s, next.s);
  }

  lemma ThirdMinusThirdRecord0(en: Engine) returns (m: Moves)
    requires en == Engine(State(Row(0, 1, -1, 0), Row(0, 0, 0, 1)), Stream(Some(0), [3]), Stream(Some(0), [3]), true, true)
    ensures Follows(en, m) && Schedule(m) == "x" + ("x" + ("y" + ("k" + ("y" + "")))) && Output(m) == [0] + []
  {
    var next := Engine(State(Row(-1, 0, 0, 1), Row(0, 1, 0, 0)), Stream(Some(3), []), Stream(Some(0), [3]), true, true);
    ThirdMinusThirdRound0(en, next);
    var rest := ThirdMinusThirdRecord1(next);
    m := ExtendReadX(en, 0, next, rest);
  }

  lemma ThirdMinusThirdConsensus1(s: State)
    requires s == State(Row(-1, 0, 0, 1), Row(0, 1, 0, 0))
    ensures Consensus(s, true, true) == None
  {
  }

  lemma ThirdMinusThirdCoefficients1(s: State, t: State)
    requires s == State(Row(-1, 0, 0, 1), Row(0, 1, 0, 0))
    requires t == State(Row(-3, 1, -1, 0), Row(0, 3, 0, 1))
    ensures AfterX(s, 3, t)
  {
  }

  lemma ThirdMinusThirdRound1(en: Engine, next: Engine)
    requires en == Engine(State(Row(-1, 0, 0, 1), Row(0, 1, 0, 0)), Stream(Some(3), []), Stream(Some(0), [3]), true, true)
    requires next == Engine(State(Row(-3, 1, -1, 0), Row(0, 3, 0, 1)), Stream(None, []), Stream(Some(0), [3]), true, true)
    ensures ReadsX(en, 3, next)
  {
    ThirdMinusThirdConsensus1(en.s);
    ThirdMinusThirdCoefficients1(en.s, next.s);
  }

  lemma ThirdMinusThirdRecord1(en: Engine) returns (m: Moves)
    requires en == Engine(State(Row(-1, 0, 0, 1), Row(0, 1, 0, 0)), Stream(Some(3), []), Stream(Some(0), [3]), true, true)
    ensures Follows(en, m) && Schedule(m) == "x" + ("y" + ("k" + ("y" + ""))) && Output(m) == [0] + []
  {
    var next := Engine(State(Row(-3, 1, -1, 0), Row(0, 3, 0, 1)), Stream(None, []), Stream(Some(0), [3]), true, true);
    ThirdMinusThirdRound1(en, next);
    var rest := ThirdMinusThirdRecord2(next);
    m := ExtendReadX(en, 3, next, rest);
  }

  lemma ThirdMinusThirdConsensus2(s: State)
    requires s == State(Row(-3, 1, -1, 0), Row(0, 3, 0, 1))
    ensures Consensus(s, true, true) == None
  {
  }

  lemma ThirdMinusThirdCoefficients2(s: State, t: State)
    requires s == State(Row(-3, 1, -1, 0), Row(0, 3, 0, 1))
    requires t == State(Row(1, -3, 0, -1), Row(3, 0, 1, 0))
    ensures AfterY(s, 0, t)
  {
  }

  lemma ThirdMinusThirdRound2(en: Engine, next: Engine)
    requires en == Engine(State(Row(-3, 1, -1, 0), Row(0, 3, 0, 1)), Stream(None, []), Stream(Some(0), [3]), true, true)
    requires next == Engine(State(Row(1, -3, 0, -1), Row(3, 0, 1, 0)), Stream(None, []), Stream(Some(3), []), false, true)
    ensures ReadsY(en, 0, next)
  {
    ThirdMinusThirdConsensus2(en.s);
    ThirdMinusThirdCoefficients2(en.s, next.s);
  }

  lemma ThirdMinusThirdRecord2(en: Engine) returns (m: Moves)
    requires en == Engine(State(Row(-3, 1, -1, 0), Row(0, 3, 0, 1)), Stream(None, []), Stream(Some(0), [3]), true, true)
    ensures Follows(en, m) && Schedule(m) == "y" + ("k" + ("y" + "")) && Output(m) == [0] + []
  {
    var next := Engine(State(Row(1, -3, 0, -1), Row(3, 0, 1, 0)), Stream(None, []), Stream(Some(3), []), false, true);
    ThirdMinusThirdRound2(en, next);
    var rest := ThirdMinusThirdRecord3(next);
    m := ExtendReadY(en, 0, next, rest);
  }

  lemma ThirdMinusThirdConsensus3(s: State)
    requires s == State(Row(1, -3, 0, -1), Row(3, 0, 1, 0))
    ensures Consensus(s, false, true) == Some(0)
  {
  }

  lemma ThirdMinusThirdCoefficients3(s: State, t: State)
    requires s == State(Row(1, -3, 0, -1), Row(3, 0, 1, 0))
    requires t == State(Row(3, 0, 1, 0), Row(1, -3, 0, -1))
    ensures AfterEmit(s, 0, t)
  {
  }

  lemma ThirdMinusThirdRound3(en: Engine, next: Engine)
    requires en == Engine(State(Row(1, -3, 0, -1), Row(3, 0, 1, 0)), Stream(None, []), Stream(Some(3), []), false, true)
    requires next == Engine(State(Row(3, 0, 1, 0), Row(1, -3, 0, -1)), Stream(None, []), Stream(Some(3), []), false, true)
    ensures Emits(en, 0, next)
  {
    ThirdMinusThirdConsensus3(en.s);
    ThirdMinusThirdCoefficients3(en.s, next.s);
  }

  lemma ThirdMinusThirdRecord3(en: Engine) returns (m: Moves)
    requires en == Engine(State(Row(1, -3, 0, -1), Row(3, 0, 1, 0)), Stream(None, []), Stream(Some(3), []), false, true)
    ensures Follows(en, m) && Schedule(m) == "k" + ("y" + "") && Output(m) == [0] + []
  {
    var next := Engine(State(Row(3, 0, 1, 0), Row(1, -3, 0, -1)), Stream(None, []), Stream(Some(3), []), false, true);
    ThirdMinusThirdRound3(en, next);
    var rest := ThirdMinusThirdRecord4(next);
    m := ExtendWrote(en, 0, next, rest);
  }

  lemma ThirdMinusThirdConsensus4(s: State)
    requires s == State(Row(3, 0, 1, 0), Row(1, -3, 0, -1))
    ensures Consensus(s, false, true) == None
  {
  }

  lemma ThirdMinusThirdCoefficients4(s: State, t: State)
    requires s == State(Row(3, 0, 1, 0), Row(1, -3, 0, -1))
    requires t == State(Row(9, 3, 3, 1), Row(0, 1, -1, 0))
    ensures AfterY(s, 3, t)
  {
  }

  lemma ThirdMinusThirdRound4(en: Engine, next: Engine)
    requires en == Engine(State(Row(3, 0, 1, 0), Row(1, -3, 0, -1)), Stream(None, []), Stream(Some(3), []), false, true)
    requires next == Engine(State(Row(9, 3, 3, 1), Row(0, 1, -1, 0)), Stream(None, []), Stream(None, []), false, true)
    ensures ReadsY(en, 3, next)
  {
    ThirdMinusThirdConsensus4(en.s);
    ThirdMinusThirdCoefficients4(en.s, next.s);
  }

  lemma ThirdMinusThirdRecord4(en: Engine) returns (m: Moves)
    requires en == Engine(State(Row(3, 0, 1, 0), Row(1, -3, 0, -1)), Stream(None, []), Stream(Some(3), []), false, true)
    ensures Follows(en, m) && Schedule(m) == "y" + "" && Output(m) == []
  {
    var next := Engine(State(Row(9, 3, 3, 1), Row(0, 1, -1, 0)), Stream(None, []), Stream(None, []), false, true);
    ThirdMinusThirdRound4(en, next);
    var rest := ThirdMinusThirdRecord5(next);
    m := ExtendReadY(en, 3, next, rest);
  }

  lemma ThirdMinusThirdConsensus5(s: State)
    requires s == State(Row(9, 3, 3, 1), Row(0, 1, -1, 0))
    ensures Consensus(s, false, true) == None
  {
  }

  lemma ThirdMinusThirdRecord5(en: Engine) returns (m: Moves)
    requires en == Engine(State(Row(9, 3, 3, 1), Row(0, 1, -1, 0)), Stream(None, []), Stream(None, []), false, true)
    ensures Follows(en, m) && Schedule(m) == "" && Output(m) == []
  {
    ThirdMinusThirdConsensus5(en.s);
    Vacuum(en.s.num.a, en.s.den.a);
    m := Done([]);
  }

  lemma ThirdMinusThirdRun(fuel: nat)
    requires fuel >= 6
    ensures Run(Start(SubSeed, [0, 3], [0, 3]), fuel).halted
    ensures Run(Start(SubSeed, [0, 3], [0, 3]), fuel).out == [0]
  {
    var m := ThirdMinusThirdRecord0(Start(SubSeed, [0, 3], [0, 3]));
    FollowsRun(Start(SubSeed, [0, 3], [0, 3]), m, fuel);
  }

  lemma ThirdMinusThirdHalts(fuel: nat)
    requires fuel >= 6
    ensures Run(Start(SubSeed, Euclid.Terms(1, 3), Euclid.Terms(1, 3)), fuel).halted
    ensures Run(Start(SubSeed, Euclid.Terms(1, 3), Euclid.Terms(1, 3)), fuel).out == [0]
  {
    ExpandThird();
    ExpandThird();
    ThirdMinusThirdRun(fuel);
  }

  /** 1/3 - 1/3 = 0: on the expansions of its operands the difference engine halts
      within 6 rounds, writes [0], and that output denotes exactly the
      difference of the operands. */
  lemma ThirdMinusThird(fuel: nat)
    requires fuel >= 6
    ensures Run(Start(SubSeed, Euclid.Terms(1, 3), Euclid.Terms(1, 3)), fuel).halted
    ensures Run(Start(SubSeed, Euclid.Terms(1, 3), Euclid.Terms(1, 3)), fuel).out == [0]
    ensures Value(Run(Start(SubSeed, Euclid.Terms(1, 3), Euclid.Terms(1, 3)), fuel).out).d != 0
    ensures ToReal(Value(Run(Start(SubSeed, Euclid.Terms(1, 3), Euclid.Terms(1, 3)), fuel).out)) == (1 as real / 3 as real) - (1 as real / 3 as real)
  {
    ThirdMinusThirdHalts(fuel);
    Euclid.FoldsBackToRatio(1, 3);
    Euclid.FoldsBackToRatio(1, 3);
    DifferenceDenotes(Euclid.Terms(1, 3), Euclid.Terms(1, 3), (1 as real / 3 as real), (1 as real / 3 as real), fuel);
  }

  // 2/3 / 2/3 = 1, written as the uncompressed [0, 1] (test/test_continued_fraction.py:89).

  lemma TwoThirdsOverTwoThirdsConsensus0(s: State)
    requires s == State(Row(0, 1, 0, 0), Row(0, 0, 1, 0))
    ensures Consensus(s, true, true) == None
  {
  }

  lemma TwoThirdsOverTwoThirdsCoefficients0(s: State, t: State)
    requires s == State(Row(0, 1, 0, 0), Row(0, 0, 1, 0))
    requires t == State(Row(0, 0, 0, 1), Row(1, 0, 0, 0))
    ensures AfterX(s, 0, t)
  {
  }

  lemma TwoThirdsOverTwoThirdsRound0(en: Engine, next: Engine)
    requires en == Engine(State(Row(0, 1, 0, 0), Row(0, 0, 1, 0)), Stream(Some(0), [1, 2]), Stream(Some(0), [1, 2]), true, true)
    requires next == Engine(State(Row(0, 0, 0, 1), Row(1, 0, 0, 0)), Stream(Some(1), [2]), Stream(Some(0), [1, 2]), true, true)
    ensures ReadsX(en, 0, next)
  {
    TwoThirdsOverTwoThirdsConsensus0(en.s);
    TwoThirdsOverTwoThirdsCoefficients0(en.s, next.s);
  }

  lemma TwoThirdsOverTwoThirdsRecord0(en: Engine) returns (m: Moves)
    requires en == Engine(State(Row(0, 1, 0, 0), Row(0, 0, 1, 0)), Stream(Some(0), [1, 2]), Stream(Some(0), [1, 2]), true, true)
    ensures Follows(en, m) && Schedule(m) == "x" + ("x" + ("x" + ("k" + ("y" + ("y" + ("y" + ("k" + ""))))))) && Output(m) == [0] + ([1] + [])
  {
    var next := Engine(State(Row(0, 0, 0, 1), Row(1, 0, 0, 0)), Stream(Some(1), [2]), Stream(Some(0), [1, 2]), true, true);
    TwoThirdsOverTwoThirdsRound0(en, next);
    var rest := TwoThirdsOverTwoThirdsRecord1(next);
    m := ExtendReadX(en, 0, next, rest);
  }

  lemma TwoThirdsOverTwoThirdsConsensus1(s: State)
    requires s == State(Row(0, 0, 0, 1), Row(1, 0, 0, 0))
    ensures Consensus(s, true, true) == None
  {
  }

  lemma TwoThirdsOverTwoThirdsCoefficients1(s: State, t: State)
    requires s == State(Row(0, 0, 0, 1), Row(1, 0, 0, 0))
    requires t == State(Row(0, 1, 0, 0), Row(1, 0, 1, 0))
    ensures AfterX(s, 1, t)
  {
  }

  lemma TwoThirdsOverTwoThirdsRound1(en: Engine, next: Engine)
    requires en == Engine(State(Row(0, 0, 0, 1), Row(1, 0, 0, 0)), Stream(Some(1), [2]), Stream(Some(0), [1, 2]), true, true)
    requires next == Engine(State(Row(0, 1, 0, 0), Row(1, 0, 1, 0)), Stream(Some(2), []), Stream(Some(0), [1, 2]), true, true)
    ensures ReadsX(en, 1, next)
  {
    TwoThirdsOverTwoThirdsConsensus1(en.s);
    TwoThirdsOverTwoThirdsCoefficients1(en.s, next.s);
  }

  lemma TwoThirdsOverTwoThirdsRecord1(en: Engine) returns (m: Moves)
    requires en == Engine(State(Row(0, 0, 0, 1), Row(1, 0, 0, 0)), Stream(Some(1), [2]), Stream(Some(0), [1, 2]), true, true)
    ensures Follows(en, m) && Schedule(m) == "x" + ("x" + ("k" + ("y" + ("y" + ("y" + ("k" + "")))))) && Output(m) == [0] + ([1] + [])
  {
    var next := Engine(State(Row(0, 1, 0, 0), Row(1, 0, 1, 0)), Stream(Some(2), []), Stream(Some(0), [1, 2]), true, true);
    TwoThirdsOverTwoThirdsRound1(en, next);
    var rest := TwoThirdsOverTwoThirdsRecord2(next);
    m := ExtendReadX(en, 1, next, rest);
  }

  lemma TwoThirdsOverTwoThirdsConsensus2(s: State)
    requires s == State(Row(0, 1, 0, 0), Row(1, 0, 1, 0))
    ensures Consensus(s, true, true) == None
  {
  }

  lemma TwoThirdsOverTwoThirdsCoefficients2(s: State, t: State)
    requires s == State(Row(0, 1, 0, 0), Row(1, 0, 1, 0))
    requires t == State(Row(0, 2, 0, 1), Row(3, 0, 1, 0))
    ensures AfterX(s, 2, t)
  {
  }

  lemma TwoThirdsOverTwoThirdsRound2(en: Engine, next: Engine)
    requires en == Engine(State(Row(0, 1, 0, 0), Row(1, 0, 1, 0)), Stream(Some(2), []), Stream(Some(0), [1, 2]), true, true)
    requires next == Engine(State(Row(0, 2, 0, 1), Row(3, 0, 1, 0)), Stream(None, []), Stream(Some(0), [1, 2]), true, true)
    ensures ReadsX(en, 2, next)
  {
    TwoThirdsOverTwoThirdsConsensus2(en.s);
    TwoThirdsOverTwoThirdsCoefficients2(en.s, next.s);
  }

  lemma TwoThirdsOverTwoThirdsRecord2(en: Engine) returns (m: Moves)
    requires en == Engine(State(Row(0, 1, 0, 0), Row(1, 0, 1, 0)), Stream(Some(2), []), Stream(Some(0), [1, 2]), true, true)
    ensures Follows(en, m) && Schedule(m) == "x" + ("k" + ("y" + ("y" + ("y" + ("k" + ""))))) && Output(m) == [0] + ([1] + [])
  {
    var next := Engine(State(Row(0, 2, 0, 1), Row(3, 0, 1, 0)), Stream(None, []), Stream(Some(0), [1, 2]), true, true);
    TwoThirdsOverTwoThirdsRound2(en, next);
    var rest := TwoThirdsOverTwoThirdsRecord3(next);
    m := ExtendReadX(en, 2, next, rest);
  }

  lemma TwoThirdsOverTwoThirdsConsensus3(s: State)
    requires s == State(Row(0, 2, 0, 1), Row(3, 0, 1, 0))
    ensures Consensus(s, true, true) == Some(0)
  {
  }

  lemma TwoThirdsOverTwoThirdsCoefficients3(s: State, t: State)
    requires s == State(Row(0, 2, 0, 1), Row(3, 0, 1, 0))
    requires t == State(Row(3, 0, 1, 0), Row(0, 2, 0, 1))
    ensures AfterEmit(s, 0, t)
  {
  }

  lemma TwoThirdsOverTwoThirdsRound3(en: Engine, next: Engine)
    requires en == Engine(State(Row(0, 2, 0, 1), Row(3, 0, 1, 0)), Stream(None, []), Stream(Some(0), [1, 2]), true, true)
    requires next == Engine(State(Row(3, 0, 1, 0), Row(0, 2, 0, 1)), Stream(None, []), Stream(Some(0), [1, 2]), true, true)
    ensures Emits(en, 0, next)
  {
    TwoThirdsOverTwoThirdsConsensus3(en.s);
    TwoThirdsOverTwoThirdsCoefficients3(en.s, next.s);
  }

  lemma TwoThirdsOverTwoThirdsRecord3(en: Engine) returns (m: Moves)
    requires en == Engine(State(Row(0, 2, 0, 1), Row(3, 0, 1, 0)), Stream(None, []), Stream(Some(0), [1, 2]), true, true)
    ensures Follows(en, m) && Schedule(m) == "k" + ("y" + ("y" + ("y" + ("k" + "")))) && Output(m) == [0] + ([1] + [])
  {
    var next := Engine(State(Row(3, 0, 1, 0), Row(0, 2, 0, 1)), Stream(None, []), Stream(Some(0), [1, 2]), true, true);
    TwoThirdsOverTwoThirdsRound3(en, next);
    var rest := TwoThirdsOverTwoThirdsRecord4(next);
    m := ExtendWrote(en, 0, next, rest);
  }

  lemma TwoThirdsOverTwoThirdsConsensus4(s: State)
    requires s == State(Row(3, 0, 1, 0), Row(0, 2, 0, 1))
    ensures Consensus(s, true, true) == None
  {
  }

  lemma TwoThirdsOverTwoThirdsCoefficients4(s: State, t: State)
    requires s == State(Row(3, 0, 1, 0), Row(0, 2, 0, 1))
    requires t == State(Row(0, 3, 0, 1), Row(2, 0, 1, 0))
    ensures AfterY(s, 0, t)
  {
  }

  lemma TwoThirdsOverTwoThirdsRound4(en: Engine, next: Engine)
    requires en == Engine(State(Row(3, 0, 1, 0), Row(0, 2, 0, 1)), Stream(None, []), Stream(Some(0), [1, 2]), true, true)
    requires next == Engine(State(Row(0, 3, 0, 1), Row(2, 0, 1, 0)), Stream(None, []), Stream(Some(1), [2]), false, true)
    ensures ReadsY(en, 0, next)
  {
    TwoThirdsOverTwoThirdsConsensus4(en.s);
    TwoThirdsOverTwoThirdsCoefficients4(en.s, next.s);
  }

  lemma TwoThirdsOverTwoThirdsRecord4(en: Engine) returns (m: Moves)
    requires en == Engine(State(Row(3, 0, 1, 0), Row(0, 2, 0, 1)), Stream(None, []), Stream(Some(0), [1, 2]), true, true)
    ensures Follows(en, m) && Schedule(m) == "y" + ("y" + ("y" + ("k" + ""))) && Output(m) == [1] + []
  {
    var next := Engine(State(Row(0, 3, 0, 1), Row(2, 0, 1, 0)), Stream(None, []), Stream(Some(1), [2]), false, true);
    TwoThirdsOverTwoThirdsRound4(en, next);
    var rest := TwoThirdsOverTwoThirdsRecord5(next);
    m := ExtendReadY(en, 0, next, rest);
  }

  lemma TwoThirdsOverTwoThirdsConsensus5(s: State)
    requires s == State(Row(0, 3, 0, 1), Row(2, 0, 1, 0))
    ensures Consensus(s, false, true) == None
  {
  }

  lemma TwoThirdsOverTwoThirdsCoefficients5(s: State, t: State)
    requires s == State(Row(0, 3, 0, 1), Row(2, 0, 1, 0))
    requires t == State(Row(3, 0, 1, 0), Row(2, 2, 1, 1))
    ensures AfterY(s, 1, t)
  {
  }

  lemma TwoThirdsOverTwoThirdsRound5(en: Engine, next: Engine)
    requires en == Engine(State(Row(0, 3, 0, 1), Row(2, 0, 1, 0)), Stream(None, []), Stream(Some(1), [2]), false, true)
    requires next == Engine(State(Row(3, 0, 1, 0), Row(2, 2, 1, 1)), Stream(None, []), Stream(Some(2), []), false, true)
    ensures ReadsY(en, 1, next)
  {
    TwoThirdsOverTwoThirdsConsensus5(en.s);
    TwoThirdsOverTwoThirdsCoefficients5(en.s, next.s);
  }

  lemma TwoThirdsOverTwoThirdsRecord5(en: Engine) returns (m: Moves)
    requires en == Engine(State(Row(0, 3, 0, 1), Row(2, 0, 1, 0)), Stream(None, []), Stream(Some(1), [2]), false, true)
    ensures Follows(en, m) && Schedule(m) == "y" + ("y" + ("k" + "")) && Output(m) == [1] + []
  {
    var next := Engine(State(Row(3, 0, 1, 0), Row(2, 2, 1, 1)), Stream(None, []), Stream(Some(2), []), false, true);
    TwoThirdsOverTwoThirdsRound5(en, next);
    var rest := TwoThirdsOverTwoThirdsRecord6(next);
    m := ExtendReadY(en, 1, next, rest);
  }

  lemma TwoThirdsOverTwoThirdsConsensus6(s: State)
    requires s == State(Row(3, 0, 1, 0), Row(2, 2, 1, 1))
    ensures Consensus(s, false, true) == None
  {
  }

  lemma TwoThirdsOverTwoThirdsCoefficients6(s: State, t: State)
    requires s == State(Row(3, 0, 1, 0), Row(2, 2, 1, 1))
    requires t == State(Row(6, 3, 2, 1), Row(6, 2, 3, 1))
    ensures AfterY(s, 2, t)
  {
  }

  lemma TwoThirdsOverTwoThirdsRound6(en: Engine, next: Engine)
    requires en == Engine(State(Row(3, 0, 1, 0), Row(2, 2, 1, 1)), Stream(None, []), Stream(Some(2), []), false, true)
    requires next == Engine(State(Row(6, 3, 2, 1), Row(6, 2, 3, 1)), Stream(None, []), Stream(None, []), false, true)
    ensures ReadsY(en, 2, next)
  {
    TwoThirdsOverTwoThirdsConsensus6(en.s);
    TwoThirdsOverTwoThirdsCoefficients6(en.s, next.s);
  }

  lemma TwoThirdsOverTwoThirdsRecord6(en: Engine) returns (m: Moves)
    requires en == Engine(State(Row(3, 0, 1, 0), Row(2, 2, 1, 1)), Stream(None, []), Stream(Some(2), []), false, true)
    ensures Follows(en, m) && Schedule(m) == "y" + ("k" + "") && Output(m) == [1] + []
  {
    var next := Engine(State(Row(6, 3, 2, 1), Row(6, 2, 3, 1)), Stream(None, []), Stream(None, []), false, true);
    TwoThirdsOverTwoThirdsRound6(en, next);
    var rest := TwoThirdsOverTwoThirdsRecord7(next);
    m := ExtendReadY(en, 2, next, rest);
  }

  lemma TwoThirdsOverTwoThirdsConsensus7(s: State)
    requires s == State(Row(6, 3, 2, 1), Row(6, 2, 3, 1))
    ensures Consensus(s, false, true) == Some(1)
  {
  }

  lemma TwoThirdsOverTwoThirdsCoefficients7(s: State, t: State)
    requires s == State(Row(6, 3, 2, 1), Row(6, 2, 3, 1))
    requires t == State(Row(6, 2, 3, 1), Row(0, 1, -1, 0))
    ensures AfterEmit(s, 1, t)
  {
  }

  lemma TwoThirdsOverTwoThirdsRound7(en: Engine, next: Engine)
    requires en == Engine(State(Row(6, 3, 2, 1), Row(6, 2, 3, 1)), Stream(None, []), Stream(None, []), false, true)
    requires next == Engine(State(Row(6, 2, 3, 1), Row(0, 1, -1, 0)), Stream(None, []), Stream(None, []), false, true)
    ensures Emits(en, 1, next)
  {
    TwoThirdsOverTwoThirdsConsensus7(en.s);
    TwoThirdsOverTwoThirdsCoefficients7(en.s, next.s);
  }

  lemma TwoThirdsOverTwoThirdsRecord7(en: Engine) returns (m: Moves)
    requires en == Engine(State(Row(6, 3, 2, 1), Row(6, 2, 3, 1)), Stream(None, []), Stream(None, []), false, true)
    ensures Follows(en, m) && Schedule(m) == "k" + "" && Output(m) == [1] + []
  {
    var next := Engine(State(Row(6, 2, 3, 1), Row(0, 1, -1, 0)), Stream(None, []), Stream(None, []), false, true);
    TwoThirdsOverTwoThirdsRound7(en, next);
    var rest := TwoThirdsOverTwoThirdsRecord8(next);
    m := ExtendWrote(en, 1, next, rest);
  }

  lemma TwoThirdsOverTwoThirdsConsensus8(s: State)
    requires s == State(Row(6, 2, 3, 1), Row(0, 1, -1, 0))
    ensures Consensus(s, false, true) == None
  {
  }

  lemma TwoThirdsOverTwoThirdsRecord8(en: Engine) returns (m: Moves)
    requires en == Engine(State(Row(6, 2, 3, 1), Row(0, 1, -1, 0)), Stream(None, []), Stream(None, []), false, true)
    ensures Follows(en, m) && Schedule(m) == "" && Output(m) == []
  {
    TwoThirdsOverTwoThirdsConsensus8(en.s);
    Vacuum(en.s.num.a, en.s.den.a);
    m := Done([]);
  }

  lemma TwoThirdsOverTwoThirdsRun(fuel: nat)
    requires fuel >= 9
    ensures Run(Start(DivSeed, [0, 1, 2], [0, 1, 2]), fuel).halted
    ensures Run(Start(DivSeed, [0, 1, 2], [0, 1, 2]), fuel).out == [0, 1]
  {
    var m := TwoThirdsOverTwoThirdsRecord0(Start(DivSeed, [0, 1, 2], [0, 1, 2]));
    FollowsRun(Start(DivSeed, [0, 1, 2], [0, 1, 2]), m, fuel);
  }

  lemma TwoThirdsOverTwoThirdsHalts(fuel: nat)
    requires fuel >= 9
    ensures Run(Start(DivSeed, Euclid.Terms(2, 3), Euclid.Terms(2, 3)), fuel).halted
    ensures Run(Start(DivSeed, Euclid.Terms(2, 3), Euclid.Terms(2, 3)), fuel).out == [0, 1]
  {
    ExpandTwoThirds();
    ExpandTwoThirds();
    TwoThirdsOverTwoThirdsRun(fuel);
  }

  /** 2/3 / 2/3 = 1, written as the uncompressed [0, 1]: on the expansions of its operands the quotient engine halts
      within 9 rounds, writes [0, 1], and that output denotes exactly the
      quotient of the operands. */
  lemma TwoThirdsOverTwoThirds(fuel: nat)
    requires fuel >= 9
    ensures Run(Start(DivSeed, Euclid.Terms(2, 3), Euclid.Terms(2, 3)), fuel).halted
    ensures Run(Start(DivSeed, Euclid.Terms(2, 3), Euclid.Terms(2, 3)), fuel).out == [0, 1]
    ensures Value(Run(Start(DivSeed, Euclid.Terms(2, 3), Euclid.Terms(2, 3)), fuel).out).d != 0
    ensures ToReal(Value(Run(Start(DivSeed, Euclid.Terms(2, 3), Euclid.Terms(2, 3)), fuel).out)) == (2 as real / 3 as real) / (2 as real / 3 as real)
  {
    TwoThirdsOverTwoThirdsHalts(fuel);
    Euclid.FoldsBackToRatio(2, 3);
    Euclid.FoldsBackToRatio(2, 3);
    QuotientDenotes(Euclid.Terms(2, 3), Euclid.Terms(2, 3), (2 as real / 3 as real), (2 as real / 3 as real), fuel);
  }
}
