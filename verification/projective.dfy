/** Values as integer pairs n/d (d == 0 is infinity), so that the identities
    of the continued-fraction engines can be stated exactly, without
    division. A simple continued fraction [t0; t1, …] with tail z denotes
    t0 + 1/(t1 + 1/(… + 1/z)); a finite one has the infinite tail. */
module Projective {

  datatype Pair = Pair(n: int, d: int)

  const Infinity := Pair(1, 0)

  function Scale(k: int, p: Pair): Pair
  {
    Pair(k * p.n, k * p.d)
  }

  /** One level of a simple continued fraction: t + 1/z. */
  function Level(t: int, z: Pair): Pair
  {
    Pair(t * z.n + z.d, z.n)
  }

  /** Folds the terms back onto a tail, last term innermost. */
  function Fold(terms: seq<int>, tail: Pair): Pair
    decreases |terms|
  {
    if |terms| == 0 then tail else Level(terms[0], Fold(terms[1..], tail))
  }

  /** The rational a finite continued fraction denotes. */
  function Value(terms: seq<int>): Pair
  {
    Fold(terms, Infinity)
  }

  /** Two pairs name the same ratio. */
  predicate SameRatio(p: Pair, q: Pair)
  {
    p.n * q.d == p.d * q.n
  }

  /** A leading term is the outermost level. */
  lemma FoldCons(k: int, rest: seq<int>, z: Pair)
    ensures Fold([k] + rest, z) == Level(k, Fold(rest, z))
  {
    assert ([k] + rest)[1..] == rest;
  }

  lemma {:induction false} FoldAppend(a: seq<int>, b: seq<int>, tail: Pair)
    ensures Fold(a + b, tail) == Fold(a, Fold(b, tail))
    decreases |a|
  {
    if |a| == 0 {
      assert a + b == b;
    } else {
      assert (a + b)[1..] == a[1..] + b;
      FoldAppend(a[1..], b, tail);
    }
  }

  lemma {:induction false} FoldScale(terms: seq<int>, k: int, tail: Pair)
    ensures Fold(terms, Scale(k, tail)) == Scale(k, Fold(terms, tail))
    decreases |terms|
  {
    if |terms| > 0 {
      FoldScale(terms[1..], k, tail);
      var z := Fold(terms[1..], tail);
      assert terms[0] * (k * z.n) + k * z.d == k * (terms[0] * z.n + z.d);
    }
  }

  /** Folding is unimodular: the determinant n*d' - d*n' of two tails changes
      only by sign, so the infinite tail never folds to 0/0. */
  lemma {:induction false} FoldDeterminant(terms: seq<int>)
    ensures var p := Value(terms); p.n != 0 || p.d != 0
    decreases |terms|
  {
    if |terms| > 0 {
      FoldDeterminant(terms[1..]);
    }
  }

  /** A pair with non-zero denominator read as a real number. */
  function ToReal(p: Pair): real
    requires p.d != 0
  {
    p.n as real / p.d as real
  }

  lemma SameRatioReal(p: Pair, q: Pair)
    requires p.d != 0 && q.d != 0
    requires SameRatio(p, q)
    ensures ToReal(p) == ToReal(q)
  {
    assert (p.n as real) * (q.d as real) == (p.d as real) * (q.n as real);
  }
}
