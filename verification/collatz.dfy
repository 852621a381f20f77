/** The Collatz laboratory of src/collatz_lab.py: a number is a polynomial
    in x whose value at x = 2 is the number. Odd steps (x + 1)·P + 1 leave
    overloaded coefficients behind; the avalanche pass carries them back to
    binary digits and counts the carries it moved. */
module Collatz {
  import opened Wrappers
  import opened Science
  import P = Polynomials

  /** Every coefficient is a binary digit. */
  predicate Binary(cs: seq<int>)
  {
    forall i :: 0 <= i < |cs| ==> 0 <= cs[i] <= 1
  }

  predicate NonNegative(cs: seq<int>)
  {
    forall i :: 0 <= i < |cs| ==> cs[i] >= 0
  }

  /** The reference map: halve an even number, 3n + 1 for an odd one. */
  function Collatz(n: nat): nat
  {
    if n % 2 == 0 then n / 2 else 3 * n + 1
  }

  // ---------------------------------------------------------------- inject

  /** The digit loop of `inject`: n % 2, then n // 2, until n is 0. */
  function Bits(n: nat): (cs: seq<int>)
    ensures Binary(cs) && P.Val(cs, 2) == n
    ensures n == 0 <==> |cs| == 0
    ensures |cs| >= 1 ==> cs[|cs| - 1] == 1
  {
    if n == 0 then []
    else
      var d := n % 2;
      var h := n / 2;
      var rest := Bits(h);
      var cs := [d] + rest;
      assert n == d + 2 * h && (h == 0 ==> d == 1);
      assert cs[1..] == rest;
      assert P.Val(cs, 2) == d + 2 * P.Val(rest, 2);
      assert forall i :: 1 <= i < |cs| ==> cs[i] == rest[i - 1];
      cs
  }

  /** `inject(n)`: the binary digits of n, least significant first. Zero is
      the single digit [0]; a negative n never enters the digit loop and
      gives a polynomial without coefficients. */
  function Inject(n: int): (cs: seq<int>)
    ensures n < 0 ==> cs == []
    ensures n == 0 ==> cs == [0]
    ensures n >= 0 ==> |cs| >= 1 && Binary(cs) && P.Stripped(cs) && P.Val(cs, 2) == n
  {
    if n == 0 then [0] else if n < 0 then [] else Bits(n)
  }

  /** Binary digits without a vacuum top digit are the injection of their
      value: the representation is unique. */
  lemma InjectOfValue(cs: seq<int>)
    requires |cs| >= 1 && Binary(cs) && P.Stripped(cs)
    ensures P.Val(cs, 2) >= 0 && Inject(P.Val(cs, 2)) == cs
  {
    if cs == [0] {
      assert P.Val(cs, 2) == 0 + 2 * P.Val([], 2);
    } else {
      BitsOfValue(cs);
    }
  }

  /** Binary digits ending in 1 are the digit loop's output for their value. */
  lemma {:induction false} BitsOfValue(cs: seq<int>)
    requires |cs| >= 1 && Binary(cs) && cs[|cs| - 1] == 1
    ensures P.Val(cs, 2) > 0 && Bits(P.Val(cs, 2)) == cs
    decreases |cs|
  {
    var rest := cs[1..];
    var v := P.Val(cs, 2);
    if |cs| == 1 {
      assert rest == [] && P.Val(rest, 2) == 0;
      assert v == 1;
      assert Bits(0) == [];
      assert Bits(1) == [1] + Bits(0);
      assert cs == [1];
    } else {
      BitsOfValue(rest);
      var w := P.Val(rest, 2);
      assert v == cs[0] + 2 * w;
      BitsCons(v, cs[0], w);
      assert [cs[0]] + rest == cs;
    }
  }

  /** Prepending a digit to the binary digits of w > 0 gives those of d + 2w. */
  lemma BitsCons(v: nat, d: int, w: nat)
    requires 0 <= d <= 1 && w > 0 && v == d + 2 * w
    ensures Bits(v) == [d] + Bits(w)
  {
    Halves(v, d, w);
  }

  /** v = d + 2·w with a digit d: d is the parity of v and w its half. */
  lemma Halves(v: int, d: int, w: int)
    requires 0 <= d <= 1 && v == d + 2 * w
    ensures v % 2 == d && v / 2 == w
  {
  }

  // ---------------------------------------------------------------- avalanche

  lemma MassesOfNonNegative(cs: seq<int>)
    requires NonNegative(cs)
    ensures Masses(cs) == cs
  {
  }

  /** The masses of the coefficients, as `normalize_and_measure` reads them. */
  function Masses(poly: seq<int>): (ms: seq<int>)
    ensures |ms| == |poly| && NonNegative(ms)
    ensures forall i :: 0 <= i < |poly| ==> ms[i] == Abs(poly[i])
  {
    seq(|poly|, i requires 0 <= i < |poly| => Abs(poly[i]))
  }

  /** One overloaded site resolved: a[i] keeps its parity bit and the next
      site, appended when missing, receives the carry a[i] // 2. */
  function Carried(a: seq<int>, i: nat): (b: seq<int>)
    requires i < |a| && a[i] >= 2
    ensures |b| == if i + 1 < |a| then |a| else |a| + 1
    ensures forall k :: 0 <= k < i ==> b[k] == a[k]
    ensures b[i] == a[i] % 2
  {
    var h := a[i] / 2;
    var kept := a[i := a[i] + -2 * h];
    if i + 1 < |a| then kept[i + 1 := kept[i + 1] + h] else kept + [h]
  }

  /** A carry keeps the value at 2, keeps coefficients non-negative, loses
      exactly the carried mass, and shrinks the mass still to be visited. */
  lemma CarriedMeaning(a: seq<int>, i: nat)
    requires NonNegative(a) && i < |a| && a[i] >= 2
    ensures NonNegative(Carried(a, i))
    ensures P.Val(Carried(a, i), 2) == P.Val(a, 2)
    ensures P.Mass(Carried(a, i)) + a[i] / 2 == P.Mass(a)
    ensures P.Mass(Carried(a, i)[i + 1..]) < P.Mass(a[i..])
  {
    CarriedValue(a, i);
    CarriedMass(a, i);
    CarriedSuffix(a, i);
  }

  lemma {:induction false} CarriedValue(a: seq<int>, i: nat)
    requires i < |a| && a[i] >= 2
    ensures P.Val(Carried(a, i), 2) == P.Val(a, 2)
    decreases i
  {
    var b := Carried(a, i);
    if i == 0 {
      var h := a[0] / 2;
      if 1 < |a| {
        assert b[1..][1..] == a[1..][1..];
        assert b[1] == a[1] + h;
      } else {
        assert b == [a[0] + -2 * h, h];
        assert b[1..][1..] == [];
      }
    } else {
      CarriedValue(a[1..], i - 1);
      assert b[1..] == Carried(a[1..], i - 1);
    }
  }

  lemma {:induction false} CarriedMass(a: seq<int>, i: nat)
    requires NonNegative(a) && i < |a| && a[i] >= 2
    ensures NonNegative(Carried(a, i))
    ensures P.Mass(Carried(a, i)) + a[i] / 2 == P.Mass(a)
    decreases i
  {
    var b := Carried(a, i);
    if i == 0 {
      if 1 < |a| {
        assert b[1..][1..] == a[1..][1..];
      } else {
        assert b[1..][1..] == [];
      }
    } else {
      CarriedMass(a[1..], i - 1);
      assert b[1..] == Carried(a[1..], i - 1);
    }
  }

  /** The mass still to be visited shrinks: the carry is less than a[i]. */
  lemma CarriedSuffix(a: seq<int>, i: nat)
    requires NonNegative(a) && i < |a| && a[i] >= 2
    ensures P.Mass(Carried(a, i)[i + 1..]) < P.Mass(a[i..])
  {
    var b := Carried(a, i);
    MassSuffix(a, i);
    if i + 1 < |a| {
      MassSuffix(a, i + 1);
      MassSuffix(b, i + 1);
      assert b[i + 2..] == a[i + 2..];
    } else {
      assert b[i + 1..] == [a[i] / 2];
      assert P.Mass([a[i] / 2]) == a[i] / 2 + P.Mass([]);
    }
  }

  lemma {:induction false} MassAppend(a: seq<int>, y: int)
    ensures P.Mass(a + [y]) == P.Mass(a) + Abs(y)
    decreases |a|
  {
    if |a| == 0 {
      assert a + [y] == [y];
      assert P.Mass([y]) == Abs(y) + P.Mass([]);
    } else {
      assert (a + [y])[1..] == a[1..] + [y];
      MassAppend(a[1..], y);
    }
  }

  /** The mass from site i on is a[i]'s mass plus the mass after it. */
  lemma MassSuffix(a: seq<int>, i: nat)
    requires i < |a|
    ensures P.Mass(a[i..]) == Abs(a[i]) + P.Mass(a[i + 1..])
  {
    assert a[i..][1..] == a[i + 1..];
  }

  /** Dropping vacuum top coefficients keeps the mass. */
  lemma {:induction false} MassNormalize(p: seq<int>)
    ensures P.Mass(P.Normalize(p)) == P.Mass(p)
    decreases |p|
  {
    if |p| > 1 && p[|p| - 1] == 0 {
      var q := p[..|p| - 1];
      MassNormalize(q);
      assert p == q + [0];
      MassAppend(q, 0);
    }
  }

  lemma {:induction false} MassesMass(poly: seq<int>)
    ensures P.Mass(Masses(poly)) == P.Mass(poly)
    decreases |poly|
  {
    if |poly| > 0 {
      assert Masses(poly)[1..] == Masses(poly[1..]);
      MassesMass(poly[1..]);
    }
  }

  /** `normalize_and_measure`: one pass from the least significant site up;
      an overloaded site keeps c % 2 and pushes c // 2 to the next site,
      appending a site at the top when needed. The result is the binary
      expansion of the value, and the energy is the total carry moved,
      which is the mass the pass lost. */
  method NormalizeAndMeasure(poly: seq<int>) returns (relaxed: seq<int>, energy: nat)
    ensures Binary(relaxed) && P.Stripped(relaxed)
    ensures P.Val(relaxed, 2) == P.Val(Masses(poly), 2)
    ensures energy + P.Mass(relaxed) == P.Mass(poly)
    ensures |poly| == 0 ==> relaxed == []
    ensures |poly| >= 1 ==> relaxed == Inject(P.Val(Masses(poly), 2))
    ensures Binary(poly) ==> relaxed == P.Normalize(poly) && energy == 0
  {
    var raw := Masses(poly);
    MassesMass(poly);
    var a := raw;
    var i := 0;
    energy := 0;
    while i < |a|
      invariant i <= |a| && |a| >= |raw| && NonNegative(a)
      invariant forall k :: 0 <= k < i ==> a[k] <= 1
      invariant P.Val(a, 2) == P.Val(raw, 2)
      invariant P.Mass(a) + energy == P.Mass(poly)
      invariant Binary(poly) ==> a == poly && energy == 0
      decreases P.Mass(a[i..]), |a| - i
    {
      if a[i] >= 2 {
        CarriedMeaning(a, i);
        energy := energy + a[i] / 2;
        a := Carried(a, i);
      } else {
        MassSuffix(a, i);
      }
      i := i + 1;
    }
    relaxed := P.Normalize(a);
    Settled(a);
  }

  /** Once every site holds a digit, normalising keeps the digits, the value
      and the mass, and yields the injection of the value. */
  lemma Settled(a: seq<int>)
    requires Binary(a)
    ensures Binary(P.Normalize(a)) && P.Val(P.Normalize(a), 2) == P.Val(a, 2)
    ensures P.Mass(P.Normalize(a)) == P.Mass(a)
    ensures |a| >= 1 ==> P.Normalize(a) == Inject(P.Val(a, 2))
  {
    P.NormalizeDrops(a);
    P.NormalizeValue(a, 2);
    MassNormalize(a);
    if |a| >= 1 {
      InjectOfValue(P.Normalize(a));
    }
  }

  // ---------------------------------------------------------------- the map

  /** One move of `run_experiment` on the relaxed polynomial: an even least
      significant digit is dropped (an empty remainder becomes [0]); an odd
      one gives (x + 1)·P + 1. */
  function Step(relaxed: seq<int>): (next: seq<int>)
    requires |relaxed| >= 1
    ensures |next| >= 1
  {
    if Abs(relaxed[0]) % 2 == 0 then
      var rest := relaxed[1..];
      P.Normalize(if |rest| == 0 then [0] else rest)
    else
      P.Add(P.Mul(relaxed, [1, 1]), [1]).value
  }

  /** The move is the Collatz map on the value at 2; after a descent the
      digits are still binary, so the next avalanche moves nothing. */
  lemma StepValue(relaxed: seq<int>)
    requires |relaxed| >= 1 && Binary(relaxed)
    ensures NonNegative(Step(relaxed))
    ensures P.Val(relaxed, 2) >= 0
    ensures P.Val(Step(relaxed), 2) == Collatz(P.Val(relaxed, 2))
    ensures relaxed[0] == 0 ==> Binary(Step(relaxed))
  {
    NonNegativeValue(relaxed);
    if relaxed[0] == 0 {
      Descent(relaxed);
    } else {
      Ascent(relaxed);
    }
  }

  /** An even value: dropping the digit 0 halves it and leaves binary digits. */
  lemma Descent(relaxed: seq<int>)
    requires |relaxed| >= 1 && Binary(relaxed) && relaxed[0] == 0
    ensures P.Val(relaxed, 2) >= 0 && Binary(Step(relaxed))
    ensures P.Val(Step(relaxed), 2) == Collatz(P.Val(relaxed, 2))
  {
    var rest := relaxed[1..];
    var q := if |rest| == 0 then [0] else rest;
    Dropped(relaxed);
    DroppedDigits(q);
    var n := P.Val(relaxed, 2);
    var w := P.Val(rest, 2);
    NonNegativeValue(rest);
    assert n == 0 + 2 * w;
    CollatzOfDigits(n, 0, w);
  }

  /** The even branch of the move drops the least significant digit. */
  lemma Dropped(relaxed: seq<int>)
    requires |relaxed| >= 1 && relaxed[0] == 0
    ensures Step(relaxed) == P.Normalize(if |relaxed| == 1 then [0] else relaxed[1..])
    ensures P.Val(if |relaxed| == 1 then [0] else relaxed[1..], 2) == P.Val(relaxed[1..], 2)
  {
    assert Abs(relaxed[0]) == 0;
  }

  lemma DroppedDigits(q: seq<int>)
    requires Binary(q)
    ensures Binary(P.Normalize(q)) && P.Val(P.Normalize(q), 2) == P.Val(q, 2)
  {
    P.NormalizeDrops(q);
    P.NormalizeValue(q, 2);
  }

  /** The map read off the least significant digit d of n = d + 2w. */
  lemma CollatzOfDigits(n: nat, d: int, w: nat)
    requires 0 <= d <= 1 && n == d + 2 * w
    ensures Collatz(n) == if d == 0 then w else 3 * n + 1
  {
    Halves(n, d, w);
  }

  /** An odd value: (x + 1)·P + 1 at 2 is 3n + 1, with non-negative digits. */
  lemma Ascent(relaxed: seq<int>)
    requires |relaxed| >= 1 && Binary(relaxed) && relaxed[0] == 1
    ensures P.Val(relaxed, 2) >= 0 && NonNegative(Step(relaxed))
    ensures P.Val(Step(relaxed), 2) == Collatz(P.Val(relaxed, 2))
  {
    Raised(relaxed);
    AffineValue(relaxed);
    AffineNonNegative(relaxed);
    var rest := relaxed[1..];
    var n := P.Val(relaxed, 2);
    var w := P.Val(rest, 2);
    NonNegativeValue(rest);
    assert n == 1 + 2 * w;
    CollatzOfDigits(n, 1, w);
  }

  /** The odd branch of the move is (x + 1)·P + 1. */
  lemma Raised(relaxed: seq<int>)
    requires |relaxed| >= 1 && relaxed[0] == 1
    ensures Step(relaxed) == P.Add(P.Mul(relaxed, [1, 1]), [1]).value
  {
    assert Abs(relaxed[0]) == 1;
  }

  /** (x + 1)·P + 1 has the value 3n + 1 at 2. */
  lemma AffineValue(relaxed: seq<int>)
    requires |relaxed| >= 1
    ensures P.Val(P.Add(P.Mul(relaxed, [1, 1]), [1]).value, 2) == 3 * P.Val(relaxed, 2) + 1
  {
    var m := P.Mul(relaxed, [1, 1]);
    var n := P.Val(relaxed, 2);
    P.MulValue(relaxed, [1, 1], 2);
    assert P.Val([1, 1], 2) == 3;
    assert P.Val(m, 2) == n * 3;
    P.AddValue(m, [1], 2);
    assert P.Val([1], 2) == 1;
  }

  /** (x + 1)·P + 1 keeps non-negative coefficients non-negative. */
  lemma AffineNonNegative(relaxed: seq<int>)
    requires |relaxed| >= 1 && NonNegative(relaxed)
    ensures NonNegative(P.Add(P.Mul(relaxed, [1, 1]), [1]).value)
  {
    var m := P.Mul(relaxed, [1, 1]);
    MulNonNegative(relaxed, [1, 1]);
    PadAddNonNegative(m, [1]);
    P.NormalizeDrops(P.PadAdd(m, [1]));
  }

  lemma {:induction false} NonNegativeValue(cs: seq<int>)
    requires NonNegative(cs)
    ensures P.Val(cs, 2) >= 0
    decreases |cs|
  {
    if |cs| > 0 {
      NonNegativeValue(cs[1..]);
    }
  }

  lemma {:induction false} PadAddNonNegative(a: seq<int>, b: seq<int>)
    requires NonNegative(a) && NonNegative(b)
    ensures NonNegative(P.PadAdd(a, b))
    decreases |a| + |b|
  {
    if |a| > 0 && |b| > 0 {
      PadAddNonNegative(a[1..], b[1..]);
      var r := P.PadAdd(a, b);
      assert forall i :: 1 <= i < |r| ==> r[i] == P.PadAdd(a[1..], b[1..])[i - 1];
    }
  }

  lemma ScaleNonNegative(c: int, p: seq<int>)
    requires c >= 0 && NonNegative(p)
    ensures NonNegative(P.ScaleBy(c, p))
  {
  }

  lemma {:induction false} ConvNonNegative(a: seq<int>, b: seq<int>)
    requires |a| > 0 && |b| > 0 && NonNegative(a) && NonNegative(b)
    ensures NonNegative(P.Conv(a, b))
    decreases |a|
  {
    ScaleNonNegative(a[0], b);
    if |a| > 1 {
      ConvNonNegative(a[1..], b);
      var t := [0] + P.Conv(a[1..], b);
      assert forall i :: 1 <= i < |t| ==> t[i] == P.Conv(a[1..], b)[i - 1];
      PadAddNonNegative(P.ScaleBy(a[0], b), t);
    }
  }

  lemma MulNonNegative(a: seq<int>, b: seq<int>)
    requires NonNegative(a) && NonNegative(b)
    ensures NonNegative(P.Mul(a, b))
  {
    if |a| > 0 && |b| > 0 {
      ConvNonNegative(a, b);
      P.NormalizeDrops(P.Conv(a, b));
    }
  }

  // ---------------------------------------------------------------- the run

  /** One report line of `run_experiment`: the step, the value at 2 and the
      avalanche energy (entropy and the polynomial text are left out). */
  datatype Line = Line(step: nat, val: nat, energy: nat)

  /** The lines so far follow the Collatz map from the start value: every
      line but the last is above 1, each value is the map of the one
      before, and after a descent the avalanche moves nothing. */
  predicate Follows(lines: seq<Line>, start: int)
  {
    && (|lines| > 0 ==> lines[0].val == start && lines[0].energy == 0)
    && (forall k :: 0 <= k < |lines| ==> lines[k].step == k)
    && (forall k :: 0 <= k < |lines| - 1 ==> lines[k].val > 1 && lines[k + 1].val == Collatz(lines[k].val))
    && (forall k :: 0 <= k < |lines| - 1 && lines[k].val % 2 == 0 ==> lines[k + 1].energy == 0)
  }

  /** A line that continues the map keeps the report following it. */
  lemma FollowsExtend(lines: seq<Line>, start: int, l: Line)
    requires Follows(lines, start) && l.step == |lines|
    requires |lines| == 0 ==> l.val == start && l.energy == 0
    requires |lines| > 0 ==> lines[|lines| - 1].val > 1 && l.val == Collatz(lines[|lines| - 1].val)
    requires |lines| > 0 && lines[|lines| - 1].val % 2 == 0 ==> l.energy == 0
    ensures Follows(lines + [l], start)
  {
    var ls := lines + [l];
    assert forall k :: 0 <= k < |lines| ==> ls[k] == lines[k];
  }

  /** `run_experiment(start_n, max_steps)`: at most max_steps lines, ending
      early exactly at the first value at most 1. A negative start injects
      a polynomial without coefficients, whose evaluation raises
      IndexError. */
  method RunExperiment(startN: int, maxSteps: int) returns (r: Result<seq<Line>>)
    ensures r.Failure? <==> startN < 0 && maxSteps > 0
    ensures r.Failure? ==> r.error == IndexOutOfRange
    ensures r.Success? ==> Follows(r.value, startN)
    ensures r.Success? && maxSteps <= 0 ==> r.value == []
    ensures r.Success? && maxSteps > 0 ==> 1 <= |r.value| <= maxSteps
    ensures r.Success? && 0 < |r.value| < maxSteps ==> r.value[|r.value| - 1].val <= 1
  {
    if startN < 0 {
      if maxSteps > 0 {
        return Failure(IndexOutOfRange);
      }
      return Success([]);
    }
    var cur := Inject(startN);
    var lines: seq<Line> := [];
    var step := 0;
    while step < maxSteps
      invariant step >= 0 && |lines| == step && (step == 0 || step <= maxSteps)
      invariant |cur| >= 1 && NonNegative(cur)
      invariant Follows(lines, startN)
      invariant |lines| == 0 ==> P.Val(cur, 2) == startN && Binary(cur)
      invariant |lines| > 0 ==> lines[|lines| - 1].val > 1
      invariant |lines| > 0 ==> P.Val(cur, 2) == Collatz(lines[|lines| - 1].val)
      invariant |lines| > 0 && lines[|lines| - 1].val % 2 == 0 ==> Binary(cur)
      decreases maxSteps - step
    {
      NonNegativeValue(cur);
      var val := Abs(P.Val(cur, 2));
      MassesOfNonNegative(cur);
      var relaxed, energy := NormalizeAndMeasure(cur);
      FollowsExtend(lines, startN, Line(step, val, energy));
      lines := lines + [Line(step, val, energy)];
      if val <= 1 {
        break;
      }
      StepValue(relaxed);
      cur := Step(relaxed);
      step := step + 1;
    }
    return Success(lines);
  }

  // ---------------------------------------------------------------- examples

  /** The docstring's 6 = 110 and the start values of the module's runs. */
  lemma InjectSix()
    ensures Inject(6) == [0, 1, 1]
  {
    assert Bits(1) == [1];
    assert Bits(3) == [1, 1];
  }

  lemma InjectTwentySeven()
    ensures Inject(27) == [1, 1, 0, 1, 1]
  {
    assert Bits(1) == [1];
    assert Bits(3) == [1, 1];
    assert Bits(6) == [0, 1, 1];
    assert Bits(13) == [1, 0, 1, 1];
  }

  lemma InjectNineteen()
    ensures Inject(19) == [1, 1, 0, 0, 1]
  {
    assert Bits(1) == [1];
    assert Bits(2) == [0, 1];
    assert Bits(4) == [0, 0, 1];
    assert Bits(9) == [1, 0, 0, 1];
  }
}
