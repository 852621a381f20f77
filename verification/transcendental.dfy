/** The generalized-to-simple continued fraction transducer of
    src/transcendental.py. A generalized continued fraction is a stream of
    pairs (a, b), each standing for the substitution t = b + a/t'; a four
    coefficient state holds z = (A·t + B) / (C·t + D) of the tail t still to
    be read, and the transducer writes the simple continued fraction of z. */
module Transcendental {
  import opened Wrappers
  import opened Science
  import opened Projective
  import Euclid

  /** A partial numerator a over partial denominator b: the level b + a/t. */
  datatype GTerm = GTerm(a: int, b: int)

  /** The `GCFState` coefficients. */
  datatype Gcf = Gcf(A: int, B: int, C: int, D: int)

  /** A fresh state is the identity map z = t. */
  const Identity := Gcf(1, 0, 0, 1)

  function Mass(g: Gcf): (m: nat)
    ensures m == 0 <==> g == Gcf(0, 0, 0, 0)
    ensures m >= Abs(g.A) && m >= Abs(g.C)
  {
    Abs(g.A) + Abs(g.B) + Abs(g.C) + Abs(g.D)
  }

  /** The value z of the state at a homogeneous tail t = t.n/t.d. */
  function Apply(g: Gcf, t: Pair): Pair
  {
    Pair(g.A * t.n + g.B * t.d, g.C * t.n + g.D * t.d)
  }

  /** One level of a generalized continued fraction: b + a/t. */
  function GLevel(p: GTerm, t: Pair): Pair
  {
    Pair(p.b * t.n + p.a * t.d, t.n)
  }

  /** Folds partial quotients back onto a tail, the last pair innermost. */
  function GFold(ps: seq<GTerm>, t: Pair): Pair
    decreases |ps|
  {
    if |ps| == 0 then t else GLevel(ps[0], GFold(ps[1..], t))
  }

  /** The value of a finite generalized continued fraction. */
  function GValue(ps: seq<GTerm>): Pair
  {
    GFold(ps, Infinity)
  }

  /** `ingest(a, b)`: substitute t = b + a/t'. */
  function Ingest(g: Gcf, p: GTerm): Gcf
  {
    Gcf(g.A * p.b + g.B, g.A * p.a, g.C * p.b + g.D, g.C * p.a)
  }

  /** `emit(k)`: replace z by 1/(z - k). */
  function Emit(g: Gcf, k: int): Gcf
  {
    Gcf(g.C, g.D, g.A - g.C * k, g.B - g.D * k)
  }

  lemma IdentityMeaning(t: Pair)
    ensures Apply(Identity, t) == t
  {
  }

  /** Ingesting a pair keeps the value: the new state at t' is the old state
      at b + a/t'. */
  lemma IngestPreserves(g: Gcf, p: GTerm, t: Pair)
    ensures Apply(Ingest(g, p), t) == Apply(g, GLevel(p, t))
  {
    assert g.A * (p.b * t.n + p.a * t.d) + g.B * t.n == (g.A * p.b + g.B) * t.n + (g.A * p.a) * t.d;
    assert g.C * (p.b * t.n + p.a * t.d) + g.D * t.n == (g.C * p.b + g.D) * t.n + (g.C * p.a) * t.d;
  }

  /** Emitting k keeps the value: z == k + 1/z' with z' the new state. */
  lemma EmitPreserves(g: Gcf, k: int, t: Pair)
    ensures Apply(g, t) == Level(k, Apply(Emit(g, k), t))
  {
    EmitAlgebra(g.A, g.B, g.C, g.D, k, t.n, t.d);
  }

  lemma EmitAlgebra(a: int, b: int, c: int, d: int, k: int, n: int, m: int)
    ensures k * (c * n + d * m) + ((a - c * k) * n + (b - d * k) * m) == a * n + b * m
  {
    assert (a - c * k) * n == a * n - k * (c * n);
    assert (b - d * k) * m == b * m - k * (d * m);
  }

  /** `probe`: the shared truncated quotient of the two corners A/C (t
      infinite) and B/D (t vacuum), when both are defined and agree. */
  function Probe(g: Gcf): (k: Option<int>)
    ensures k.Some? <==> g.C != 0 && g.D != 0 && TruncDiv(g.A, g.C) == TruncDiv(g.B, g.D)
    ensures k.Some? ==> g.C * k.value + TruncMod(g.A, g.C) == g.A
    ensures k.Some? ==> g.D * k.value + TruncMod(g.B, g.D) == g.B
  {
    var f1 := Quotient(g.A, g.C);
    var f2 := Quotient(g.B, g.D);
    if f1.Some? && f2.Some? && f1.value == f2.value then f1 else None
  }

  // ------------------------------------------------------------------ sources

  /** A pair producer: its i-th pair, and its length (None when it never
      stops, as the ln, e and π generators do). */
  datatype Source = Source(term: nat -> GTerm, length: Option<nat>)

  predicate Available(src: Source, pos: nat)
  {
    src.length.None? || pos < src.length.value
  }

  /** A finite list of pairs as a producer. */
  function FromSeq(ps: seq<GTerm>): (src: Source)
    ensures src.length == Some(|ps|)
    ensures forall i :: 0 <= i < |ps| ==> src.term(i) == ps[i]
  {
    Source((i: nat) => if i < |ps| then ps[i] else GTerm(0, 0), Some(|ps|))
  }

  /** A generator that never returns. */
  function Endless(term: nat -> GTerm): (src: Source)
    ensures src.length.None? && forall i: nat :: Available(src, i)
  {
    Source(term, None)
  }

  /** Pairs pos .. end-1 of a producer. */
  function Slice(src: Source, pos: nat, end: nat): (ps: seq<GTerm>)
    requires pos <= end
    ensures |ps| == end - pos
    ensures forall i :: 0 <= i < |ps| ==> ps[i] == src.term(pos + i)
  {
    seq(end - pos, i requires 0 <= i < end - pos => src.term(pos + i))
  }

  lemma SliceCons(src: Source, pos: nat, end: nat)
    requires pos < end
    ensures Slice(src, pos, end) == [src.term(pos)] + Slice(src, pos + 1, end)
  {
  }

  // ------------------------------------------------------------------ engine

  /** What a fuel-bounded run produced: the terms yielded, whether the
      generator returned, the state it stopped in and the producer position. */
  datatype Trace = Trace(out: seq<int>, halted: bool, last: Gcf, pos: nat)

  /** Up to `fuel` rounds of `gcf_to_scf`'s loop from state g at producer
      position pos: emit while the probe succeeds, otherwise pull one pair;
      when the producer is spent (`StopIteration`), the round yields the
      Euclid expansion of A/C and the generator returns. */
  function Run(src: Source, g: Gcf, pos: nat, fuel: nat): Trace
    decreases fuel
  {
    if fuel == 0 then Trace([], false, g, pos)
    else
      match Probe(g)
      case Some(k) =>
        var t := Run(src, Emit(g, k), pos, fuel - 1);
        Trace([k] + t.out, t.halted, t.last, t.pos)
      case None =>
        if Available(src, pos) then Run(src, Ingest(g, src.term(pos)), pos + 1, fuel - 1)
        else Trace(Euclid.Terms(g.A, g.C), true, g, pos)
  }

  /** `gcf_to_scf(stream)`, run for `fuel` rounds. */
  function GcfToScf(src: Source, fuel: nat): Trace
  {
    Run(src, Identity, 0, fuel)
  }

  /** What soundness says of a trace r started in g at pos, for a tail t:
      the terms yielded, folded onto the state left behind, equal the
      starting state applied to the pairs read; after the producer is
      spent the tail is infinite and the state's value is g/0, g the last
      Euclid divisor of A/C. */
  ghost predicate Sound(src: Source, g: Gcf, pos: nat, t: Pair, r: Trace)
  {
    pos <= r.pos
    && (!r.halted ==> Fold(r.out, Apply(r.last, t)) == Apply(g, GFold(Slice(src, pos, r.pos), t)))
    && (r.halted ==>
          src.length == Some(r.pos)
          && Fold(r.out, Pair(Euclid.LastDivisor(r.last.A, r.last.C), 0))
             == Apply(g, GValue(Slice(src, pos, r.pos))))
  }

  /** Soundness at every fuel, for every tail t. */
  lemma {:induction false} RunSound(src: Source, g: Gcf, pos: nat, fuel: nat, t: Pair)
    requires src.length.Some? ==> pos <= src.length.value
    ensures Sound(src, g, pos, t, Run(src, g, pos, fuel))
    decreases fuel
  {
    if fuel > 0 {
      match Probe(g)
      case Some(k) =>
        RunSound(src, Emit(g, k), pos, fuel - 1, t);
        EmitSound(src, g, pos, t, k, Run(src, Emit(g, k), pos, fuel - 1));
      case None =>
        if Available(src, pos) {
          RunSound(src, Ingest(g, src.term(pos)), pos + 1, fuel - 1, t);
          IngestSound(src, g, pos, t, Run(src, Ingest(g, src.term(pos)), pos + 1, fuel - 1));
        } else {
          assert Slice(src, pos, pos) == [];
          Euclid.FoldsBack(g.A, g.C);
        }
    }
  }

  /** An emitted k in front of a sound trace from Emit(g, k) is sound from g. */
  lemma EmitSound(src: Source, g: Gcf, pos: nat, t: Pair, k: int, r': Trace)
    requires Sound(src, Emit(g, k), pos, t, r')
    ensures Sound(src, g, pos, t, Trace([k] + r'.out, r'.halted, r'.last, r'.pos))
  {
    var ps := Slice(src, pos, r'.pos);
    if r'.halted {
      FoldCons(k, r'.out, Pair(Euclid.LastDivisor(r'.last.A, r'.last.C), 0));
      EmitPreserves(g, k, GValue(ps));
    } else {
      FoldCons(k, r'.out, Apply(r'.last, t));
      EmitPreserves(g, k, GFold(ps, t));
    }
  }

  /** A sound trace after reading the pair at pos is sound from g at pos. */
  lemma IngestSound(src: Source, g: Gcf, pos: nat, t: Pair, r': Trace)
    requires Available(src, pos) && Sound(src, Ingest(g, src.term(pos)), pos + 1, t, r')
    ensures Sound(src, g, pos, t, r')
  {
    var p := src.term(pos);
    SliceCons(src, pos, r'.pos);
    var rest := Slice(src, pos + 1, r'.pos);
    assert ([p] + rest)[1..] == rest;
    if r'.halted {
      IngestPreserves(g, p, GValue(rest));
    } else {
      IngestPreserves(g, p, GFold(rest, t));
    }
  }

  /** A round without consensus over an available pair reads it, moving
      to the state h that ingesting the pair gives. */
  lemma RunIngests(src: Source, g: Gcf, h: Gcf, pos: nat, fuel: nat)
    requires fuel > 0 && Available(src, pos) && Ingest(g, src.term(pos)) == h && Probe(g).None?
    ensures Run(src, g, pos, fuel) == Run(src, h, pos + 1, fuel - 1)
  {
  }

  /** A round with consensus k writes k in front of what follows. */
  lemma RunEmits(src: Source, g: Gcf, pos: nat, fuel: nat, k: int)
    requires fuel > 0 && Probe(g) == Some(k)
    ensures Run(src, g, pos, fuel).out == [k] + Run(src, Emit(g, k), pos, fuel - 1).out
  {
  }

  /** A producer that never returns never lets the transducer halt. */
  lemma {:induction false} EndlessNeverHalts(src: Source, g: Gcf, pos: nat, fuel: nat)
    requires src.length.None?
    ensures !Run(src, g, pos, fuel).halted
    decreases fuel
  {
    if fuel > 0 {
      match Probe(g)
      case Some(k) => EndlessNeverHalts(src, Emit(g, k), pos, fuel - 1);
      case None => EndlessNeverHalts(src, Ingest(g, src.term(pos)), pos + 1, fuel - 1);
    }
  }

  /** Output never regresses: more fuel only extends the output, and a run
      that returned is unchanged by more fuel. */
  lemma {:induction false} RunMonotone(src: Source, g: Gcf, pos: nat, f1: nat, f2: nat)
    requires f1 <= f2
    ensures Run(src, g, pos, f1).out <= Run(src, g, pos, f2).out
    ensures Run(src, g, pos, f1).halted ==> Run(src, g, pos, f2) == Run(src, g, pos, f1)
    decreases f1
  {
    if f1 > 0 {
      match Probe(g)
      case Some(k) =>
        RunMonotone(src, Emit(g, k), pos, f1 - 1, f2 - 1);
      case None =>
        if Available(src, pos) {
          RunMonotone(src, Ingest(g, src.term(pos)), pos + 1, f1 - 1, f2 - 1);
        }
    }
  }

  /** Over a finite list of pairs with a finite value, a transducer run that
      returned wrote a simple continued fraction denoting exactly that value. */
  lemma FiniteExact(ps: seq<GTerm>, fuel: nat)
    requires GValue(ps).d != 0
    requires GcfToScf(FromSeq(ps), fuel).halted
    ensures Value(GcfToScf(FromSeq(ps), fuel).out).d != 0
    ensures ToReal(Value(GcfToScf(FromSeq(ps), fuel).out)) == ToReal(GValue(ps))
  {
    var src := FromSeq(ps);
    var r := GcfToScf(src, fuel);
    RunSound(src, Identity, 0, fuel, Infinity);
    assert Slice(src, 0, r.pos) == ps;
    IdentityMeaning(GValue(ps));
    var g := Euclid.LastDivisor(r.last.A, r.last.C);
    FoldScale(r.out, g, Infinity);
    assert Scale(g, Infinity) == Pair(g, 0);
    Euclid.ScaledRatio(g, Value(r.out), GValue(ps).n, GValue(ps).d);
  }

  /** Over a never-ending producer, after any number of rounds the output
      folded onto the state left behind is the generalized continued
      fraction of the pairs read so far, whatever its tail. */
  lemma EndlessSound(term: nat -> GTerm, fuel: nat, t: Pair)
    ensures var r := GcfToScf(Endless(term), fuel);
      !r.halted && Fold(r.out, Apply(r.last, t)) == GFold(Slice(Endless(term), 0, r.pos), t)
  {
    var r := GcfToScf(Endless(term), fuel);
    EndlessNeverHalts(Endless(term), Identity, 0, fuel);
    RunSound(Endless(term), Identity, 0, fuel, t);
    IdentityMeaning(GFold(Slice(Endless(term), 0, r.pos), t));
  }

  // --------------------------------------------------------------- generators

  /** `ln_generator(x)`: (x, 0), (x, 1), then ((k-1)²·x, k) for k = 2, 3, … */
  function LnTerm(x: int, i: nat): (p: GTerm)
    ensures i == 0 ==> p == GTerm(x, 0)
    ensures i == 1 ==> p == GTerm(x, 1)
    ensures i >= 2 ==> p.b == i && p.a == (i - 1) * (i - 1) * x
  {
    if i == 0 then GTerm(x, 0)
    else if i == 1 then GTerm(x, 1)
    else GTerm((i - 1) * (i - 1) * x, i)
  }

  /** `e_generator(x)`: (2x, 1), (x², 2 - x), then (x², 4k + 2) for
      k = 1, 2, … */
  function ETerm(x: int, i: nat): (p: GTerm)
    ensures i == 0 ==> p == GTerm(2 * x, 1)
    ensures i >= 1 ==> p.a == x * x
    ensures i == 1 ==> p.b == 2 - x
    ensures i >= 2 ==> p.b == 4 * (i - 1) + 2
  {
    if i == 0 then GTerm(2 * x, 1)
    else if i == 1 then GTerm(x * x, 2 - x)
    else GTerm(x * x, 4 * (i - 1) + 2)
  }

  function LnSource(x: int): Source
  {
    Endless((i: nat) => LnTerm(x, i))
  }

  function ESource(x: int): Source
  {
    Endless((i: nat) => ETerm(x, i))
  }

  /** The generators' opening pairs at x = 1 and x = 2. */
  lemma GeneratorOpenings()
    ensures LnTerm(1, 0) == GTerm(1, 0) && LnTerm(1, 1) == GTerm(1, 1)
    ensures LnTerm(1, 2) == GTerm(1, 2) && LnTerm(1, 3) == GTerm(4, 3) && LnTerm(1, 4) == GTerm(9, 4)
    ensures ETerm(1, 0) == GTerm(2, 1) && ETerm(1, 1) == GTerm(1, 1) && ETerm(1, 2) == GTerm(1, 6)
    ensures ETerm(1, 3) == GTerm(1, 10)
    ensures ETerm(2, 1) == GTerm(4, 0)
  {
  }

  /** ln(1 + x) opens as 0 + x/(1 + x/(2 + …)): the first pair's vacuum
      denominator makes the whole value x over the rest. */
  lemma LnOpening(x: int, t: Pair)
    ensures GFold([LnTerm(x, 0), LnTerm(x, 1)], t) == Pair(x * t.n, x * t.d + t.n)
  {
    var ps := [LnTerm(x, 0), LnTerm(x, 1)];
    assert ps[1..] == [LnTerm(x, 1)];
    assert GFold(ps[1..], t) == Pair(t.n + x * t.d, t.n);
    assert GFold(ps, t) == GLevel(GTerm(x, 0), Pair(t.n + x * t.d, t.n));
  }
}
