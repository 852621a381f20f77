/** The one-slot lookahead register of src/stream.py. The producer (a Python
    generator) is the finite sequence of terms it has not yet handed out;
    the buffer holds the charged head, `None` being the exhausted sentinel. */
module Streams {
  import opened Wrappers

  datatype Stream<T> = Stream(buffer: Option<T>, producer: seq<T>)

  /** A register only reads the sentinel once its producer is spent. */
  ghost predicate Valid<T>(s: Stream<T>)
  {
    s.buffer.None? ==> s.producer == []
  }

  /** Every term the register will still hand out, head first. */
  function Pending<T>(s: Stream<T>): seq<T>
  {
    (if s.buffer.Some? then [s.buffer.value] else []) + s.producer
  }

  /** `_fill`: pull exactly one term from the producer, or the sentinel. */
  function Fill<T>(producer: seq<T>): (s: Stream<T>)
    ensures Valid(s)
    ensures Pending(s) == producer
    ensures |producer| > 0 ==> |s.producer| == |producer| - 1
  {
    if |producer| == 0 then Stream(None, []) else Stream(Some(producer[0]), producer[1..])
  }

  /** Construction charges the register with the producer's first term. */
  function New<T>(gen: seq<T>): (s: Stream<T>)
    ensures Valid(s)
    ensures Head(s) == (if |gen| == 0 then None else Some(gen[0]))
    ensures Pending(s) == gen
    ensures |gen| > 0 ==> |s.producer| == |gen| - 1
  {
    Fill(gen)
  }

  /** `head`: observation only; a function of the register's value, so it
      cannot move the buffer or the producer. */
  function Head<T>(s: Stream<T>): Option<T>
  {
    s.buffer
  }

  /** `consume`: hand out the buffered head and refill, or raise the
      exhaustion signal when the sentinel is buffered. */
  function Consume<T>(s: Stream<T>): (r: Result<(T, Stream<T>)>)
    ensures r.Failure? <==> Head(s).None?
    ensures r.Failure? ==> r.error == Exhausted && (Valid(s) ==> Pending(s) == [])
    ensures r.Success? ==> Head(s) == Some(r.value.0) && Valid(r.value.1)
    ensures r.Success? ==> Pending(s) == [r.value.0] + Pending(r.value.1)
  {
    match s.buffer
    case None => Failure(Exhausted)
    case Some(v) => Success((v, Fill(s.producer)))
  }

  /** Once the sentinel is buffered, no later call produces anything. */
  lemma ExhaustedStaysExhausted<T>(s: Stream<T>)
    requires Valid(s)
    requires Head(s).None?
    ensures Consume(s) == Failure(Exhausted)
    ensures Pending(s) == []
  {
  }

  /** Iterating the register (`__next__` is `consume`) until the exhaustion
      signal: the terms handed out, in order. */
  function Drain<T>(s: Stream<T>): (out: seq<T>)
    requires Valid(s)
    ensures out == Pending(s)
    decreases |Pending(s)|
  {
    match Consume(s)
    case Failure(_) => []
    case Success((v, rest)) => [v] + Drain(rest)
  }

  /** Draining a freshly built register yields the producer's terms exactly:
      nothing skipped, nothing repeated. */
  lemma DrainNew<T>(gen: seq<T>)
    ensures Drain(New(gen)) == gen
  {
  }

  /** Draining with an explicit count of `consume` calls: after n calls the
      n-th call hands out the n-th term of the producer. */
  function ConsumeN<T>(s: Stream<T>, n: nat): (r: Result<(seq<T>, Stream<T>)>)
    requires Valid(s)
    ensures r.Success? <==> n <= |Pending(s)|
    ensures r.Failure? ==> r.error == Exhausted
    ensures r.Success? ==> r.value.0 == Pending(s)[..n] && Valid(r.value.1)
    ensures r.Success? ==> Pending(r.value.1) == Pending(s)[n..]
    decreases n
  {
    if n == 0 then Success(([], s))
    else
      match Consume(s)
      case Failure(e) => Failure(e)
      case Success((v, rest)) =>
        match ConsumeN(rest, n - 1)
        case Failure(e) => Failure(e)
        case Success((vs, last)) => Success(([v] + vs, last))
  }
}
