/** The constructive π stream of constants/pi.py: the generalized continued
    fraction π - 3 = 1²/(6 + 3²/(6 + 5²/(6 + …))) fed through the transducer,
    with the integer part 3 spliced in front. */
module Pi {
  import opened Wrappers
  import opened Science
  import opened Projective
  import opened Transcendental

  /** `pi_gcf_source`, pair by pair: (1, 0) sets up 0 + 1/z, then the loop
      with n = 2, 3, … yields ((2n - 1)², 6). */
  function PiTerm(i: nat): GTerm
  {
    if i == 0 then GTerm(1, 0) else GTerm((2 * i + 1) * (2 * i + 1), 6)
  }

  function PiSource(): Source
  {
    Endless(PiTerm)
  }

  /** The generator's loop from counter n, for `count` rounds. */
  function PiLoop(n: int, count: nat): (ps: seq<GTerm>)
    ensures |ps| == count
    decreases count
  {
    if count == 0 then [] else [GTerm((2 * n - 1) * (2 * n - 1), 6)] + PiLoop(n + 1, count - 1)
  }

  /** The first `count` pairs the source generator yields. */
  function PiPrefix(count: nat): (ps: seq<GTerm>)
    ensures |ps| == count
  {
    if count == 0 then [] else [GTerm(1, 0)] + PiLoop(2, count - 1)
  }

  lemma {:induction false} PiLoopTerms(n: int, count: nat)
    ensures forall j :: 0 <= j < count ==>
      PiLoop(n, count)[j] == GTerm((2 * (n + j) - 1) * (2 * (n + j) - 1), 6)
    decreases count
  {
    if count > 0 {
      PiLoopTerms(n + 1, count - 1);
      var ps := PiLoop(n, count);
      forall j | 1 <= j < count
        ensures ps[j] == GTerm((2 * (n + j) - 1) * (2 * (n + j) - 1), 6)
      {
        assert ps[j] == PiLoop(n + 1, count - 1)[j - 1];
      }
    }
  }

  /** The loop-with-counter generator and the closed form agree pair by
      pair: (1, 0), (9, 6), (25, 6), (49, 6), … */
  lemma PiPrefixMatches(count: nat)
    ensures forall i :: 0 <= i < count ==> PiPrefix(count)[i] == PiTerm(i)
  {
    if count > 0 {
      PiLoopTerms(2, count - 1);
      var ps := PiPrefix(count);
      forall i | 1 <= i < count
        ensures ps[i] == PiTerm(i)
      {
        assert ps[i] == PiLoop(2, count - 1)[i - 1];
        assert 2 * (2 + (i - 1)) - 1 == 2 * i + 1;
      }
    }
  }

  lemma PiSourceOpening()
    ensures PiPrefix(4) == [GTerm(1, 0), GTerm(9, 6), GTerm(25, 6), GTerm(49, 6)]
    ensures forall i: nat :: i >= 1 ==> PiTerm(i).b == 6 && PiTerm(i).a > 0
  {
    PiPrefixMatches(4);
  }

  /** The leading pair (1, 0) makes the fraction 0 + 1/z: the source denotes
      the reciprocal of the rest. */
  lemma PiReciprocal(rest: seq<GTerm>, t: Pair)
    ensures GFold([PiTerm(0)] + rest, t) == Pair(GFold(rest, t).d, GFold(rest, t).n)
  {
    assert ([PiTerm(0)] + rest)[1..] == rest;
  }

  /** `constructive_pi_stream`: 3, then the transducer's first term unless
      it is vacuum, then every later term unchanged. */
  function PiSplice(frac: seq<int>): (s: seq<int>)
    ensures |s| >= 1 && s[0] == 3
    ensures |frac| > 0 && frac[0] == 0 ==> s[1..] == frac[1..]
    ensures |frac| == 0 || frac[0] != 0 ==> s[1..] == frac
  {
    if |frac| > 0 && frac[0] == 0 then [3] + frac[1..] else [3] + frac
  }

  /** Dropping a vacuum leading term and prefixing 3 adds 3 to the value:
      [0; t1, …] denotes v, so [3; t1, …] denotes 3 + v, whatever the tail. */
  lemma SpliceAddsThree(frac: seq<int>, tail: Pair)
    requires |frac| > 0 && frac[0] == 0
    ensures var v := Fold(frac, tail);
      Fold(PiSplice(frac), tail) == Pair(3 * v.d + v.n, v.d)
  {
    var s := PiSplice(frac);
    assert s[1..] == frac[1..];
  }

  /** The π stream after `fuel` rounds of the transducer. */
  function PiStream(fuel: nat): seq<int>
  {
    PiSplice(GcfToScf(PiSource(), fuel).out)
  }

  /** The transducer's states after the first and second pairs of π - 3:
      0 + 1/z, then 1/(6 + 9/z). */
  const AfterOne := Gcf(0, 1, 1, 0)
  const AfterTwo := Gcf(1, 0, 6, 9)

  lemma IdentityOpens()
    ensures Probe(Identity) == None && Ingest(Identity, GTerm(1, 0)) == AfterOne
  {
    assert Quotient(1, 0) == None;
  }

  lemma AfterOneOpens()
    ensures Probe(AfterOne) == None && Ingest(AfterOne, GTerm(9, 6)) == AfterTwo
  {
    assert Quotient(0, 1) == Some(0);
  }

  lemma AfterTwoAgrees()
    ensures Probe(AfterTwo) == Some(0)
  {
    assert Quotient(1, 6) == Some(0) && Quotient(0, 9) == Some(0);
  }

  /** Two reads then an emission of k, from any state g at the head of an
      endless producer: the output opens with k. */
  lemma ReadReadEmit(src: Source, g: Gcf, h1: Gcf, h2: Gcf, fuel: nat, k: int)
    requires fuel >= 3 && src.length.None?
    requires Ingest(g, src.term(0)) == h1 && Ingest(h1, src.term(1)) == h2
    requires Probe(g).None? && Probe(h1).None? && Probe(h2) == Some(k)
    ensures var o := Run(src, g, 0, fuel).out; |o| >= 1 && o[0] == k
  {
    RunIngests(src, g, h1, 0, fuel);
    RunIngests(src, h1, h2, 1, fuel - 1);
    RunEmits(src, h2, 2, fuel - 2, k);
  }

  /** Three rounds (ingest (1, 0), ingest (9, 6), emit) over any producer
      opening like the π source give the vacuum leading term of π - 3, and
      later rounds only append to it. */
  lemma FirstRounds(src: Source, fuel: nat)
    requires fuel >= 3
    requires src.length.None?
    requires src.term(0) == PiTerm(0) && src.term(1) == PiTerm(1)
    ensures var o := Run(src, Identity, 0, fuel).out; |o| >= 1 && o[0] == 0
  {
    assert PiTerm(0) == GTerm(1, 0) && PiTerm(1) == GTerm(9, 6);
    IdentityOpens();
    AfterOneOpens();
    AfterTwoAgrees();
    ReadReadEmit(src, Identity, AfterOne, AfterTwo, fuel, 0);
  }

  /** From the third round on, the transducer's output for π - 3 opens with
      the vacuum term the splice drops. */
  lemma PiLeadingZero(fuel: nat)
    requires fuel >= 3
    ensures |GcfToScf(PiSource(), fuel).out| >= 1 && GcfToScf(PiSource(), fuel).out[0] == 0
  {
    FirstRounds(PiSource(), fuel);
  }

  /** Soundness of the π stream: after any number of rounds from the third,
      the spliced output folded onto the transducer's remaining state is
      3 plus the generalized continued fraction of the pairs read, whatever
      its unread tail t. */
  lemma PiStreamSound(fuel: nat, t: Pair)
    requires fuel >= 3
    ensures var r := GcfToScf(PiSource(), fuel);
      var w := GFold(Slice(PiSource(), 0, r.pos), t);
      Fold(PiStream(fuel), Apply(r.last, t)) == Pair(3 * w.d + w.n, w.d)
  {
    var r := GcfToScf(PiSource(), fuel);
    PiLeadingZero(fuel);
    EndlessSound(PiTerm, fuel, t);
    SpliceAddsThree(r.out, Apply(r.last, t));
  }
}
