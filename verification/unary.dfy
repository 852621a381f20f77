/** The base-1 number domain of src/unary.py: an integer is a tally of '|'
    marks tagged with a class, non-negative or negative. Arithmetic works on
    the marks; its meaning is stated by the integer each value stands for. */
module Unary {
  import opened Wrappers
  import Science

  /** A string of tally marks only. */
  predicate IsTally(s: string)
  {
    forall i :: 0 <= i < |s| ==> s[i] == '|'
  }

  type Tally = s: string | IsTally(s)

  /** `NonNegativeInteger` and `NegativeInteger`: the class and the marks. */
  datatype Number = NonNeg(value: Tally) | Neg(value: Tally)

  /** `"|" * n`. */
  function Bars(n: nat): (t: Tally)
    ensures |t| == n
  {
    if n == 0 then "" else "|" + Bars(n - 1)
  }

  /** Two tallies of the same length are the same string. */
  lemma TallyByLength(a: Tally, b: Tally)
    requires |a| == |b|
    ensures a == b
  {
    assert forall i :: 0 <= i < |a| ==> a[i] == b[i];
  }

  /** `value * n`: the string repeated n times. */
  function Repeat(s: Tally, n: nat): (t: Tally)
    ensures |t| == |s| * n
  {
    if n == 0 then "" else s + Repeat(s, n - 1)
  }

  /** Construction: `__post_init__` raises ValueError unless every character
      is a tally mark. */
  function Make(s: string, negative: bool): (r: Result<Number>)
    ensures r.Success? <==> IsTally(s)
    ensures r.Success? ==> r.value.value == s && (r.value.Neg? <==> negative)
    ensures r.Failure? ==> r.error == InvalidValue
  {
    if IsTally(s) then Success(if negative then Neg(s) else NonNeg(s))
    else Failure(InvalidValue)
  }

  /** `mass`: the number of marks. */
  function Mass(x: Number): nat
  {
    |x.value|
  }

  /** `is_vacuum`: no marks at all, in either class. */
  predicate IsVacuum(x: Number)
  {
    |x.value| == 0
  }

  /** The integer a value stands for (`__int__`): +len or -len. */
  function ToInt(x: Number): (i: int)
    ensures Science.Abs(i) == Mass(x)
    ensures x.NonNeg? ==> i >= 0
    ensures x.Neg? ==> i <= 0
  {
    match x
    case NonNeg(v) => |v|
    case Neg(v) => -|v|
  }

  lemma MassMeaning(x: Number)
    ensures IsVacuum(x) <==> Mass(x) == 0
    ensures IsVacuum(x) <==> ToInt(x) == 0
  {
  }

  /** `U(n)`: ValueError below zero. */
  function U(n: int): (r: Result<Number>)
    ensures r.Success? <==> n >= 0
    ensures r.Success? ==> r.value.NonNeg? && ToInt(r.value) == n
    ensures r.Failure? ==> r.error == InvalidValue
  {
    if n < 0 then Failure(InvalidValue) else Success(NonNeg(Bars(n)))
  }

  /** `S(n)`: a negative-class value of magnitude n; ValueError below zero. */
  function S(n: int): (r: Result<Number>)
    ensures r.Success? <==> n >= 0
    ensures r.Success? ==> r.value.Neg? && ToInt(r.value) == -n
    ensures r.Failure? ==> r.error == InvalidValue
  {
    if n < 0 then Failure(InvalidValue) else Success(Neg(Bars(n)))
  }

  /** `NegativeInteger.__call__`: a negative tally cancels marks of a
      non-negative one; the survivor's class says who had more. */
  function Cancel(neg: Tally, pos: Tally): (r: Number)
    ensures ToInt(r) == |pos| - |neg|
    ensures r.NonNeg? <==> |pos| >= |neg|
  {
    if |pos| >= |neg| then NonNeg(Bars(|pos| - |neg|)) else Neg(Bars(|neg| - |pos|))
  }

  /** `smart_add`: same classes concatenate, mixed classes cancel. */
  function Add(a: Number, b: Number): (r: Number)
    ensures ToInt(r) == ToInt(a) + ToInt(b)
    ensures a.NonNeg? && b.NonNeg? ==> r.NonNeg?
    ensures a.Neg? && b.Neg? ==> r.Neg?
    ensures a.NonNeg? && b.Neg? ==> (r.NonNeg? <==> Mass(a) >= Mass(b))
    ensures a.Neg? && b.NonNeg? ==> (r.NonNeg? <==> Mass(b) >= Mass(a))
  {
    match (a, b)
    case (NonNeg(x), NonNeg(y)) => NonNeg(x + y)
    case (Neg(x), Neg(y)) => Neg(x + y)
    case (NonNeg(x), Neg(y)) => Cancel(y, x)
    case (Neg(x), NonNeg(y)) => Cancel(x, y)
  }

  /** `smart_mul`: the marks of a repeated len(b) times; non-negative exactly
      when both operands are in the same class. */
  function Mul(a: Number, b: Number): (r: Number)
    ensures ToInt(r) == ToInt(a) * ToInt(b)
    ensures Mass(r) == Mass(a) * Mass(b)
    ensures r.NonNeg? <==> (a.NonNeg? <==> b.NonNeg?)
  {
    var t := Repeat(a.value, |b.value|);
    if a.NonNeg? == b.NonNeg? then NonNeg(t) else Neg(t)
  }

  /** `__sub__`: a + b·S(1). */
  function Sub(a: Number, b: Number): Number
  {
    Add(a, Mul(b, Neg("|")))
  }

  lemma SubMeaning(a: Number, b: Number)
    ensures ToInt(Sub(a, b)) == ToInt(a) - ToInt(b)
  {
    assert ToInt(Neg("|")) == -1;
  }

  /** `smart_div`: quotient and remainder of the magnitudes; the quotient is
      non-negative when both are in the same class, the remainder keeps the
      dividend's class, and an empty divisor raises ZeroDivisionError. */
  function Div(a: Number, b: Number): (r: Result<(Number, Number)>)
    ensures r.Failure? <==> IsVacuum(b)
    ensures r.Failure? ==> r.error == ZeroDivision
    ensures r.Success? ==> var (q, m) := r.value;
      Mass(q) == Mass(a) / Mass(b) && Mass(m) == Mass(a) % Mass(b)
      && (q.NonNeg? <==> (a.NonNeg? <==> b.NonNeg?))
      && (m.NonNeg? <==> a.NonNeg?)
  {
    if |b.value| == 0 then Failure(ZeroDivision)
    else
      var qs := Bars(|a.value| / |b.value|);
      var rs := Bars(|a.value| % |b.value|);
      var q := if a.NonNeg? == b.NonNeg? then NonNeg(qs) else Neg(qs);
      var m := if a.NonNeg? then NonNeg(rs) else Neg(rs);
      Success((q, m))
  }

  /** Division by tallies is the truncated division of the integers the
      values stand for: the quotient rounds toward zero and the remainder
      takes the dividend's sign. */
  lemma DivRefines(a: Number, b: Number)
    requires !IsVacuum(b)
    ensures var (q, m) := Div(a, b).value;
      ToInt(q) == Science.TruncDiv(ToInt(a), ToInt(b))
      && ToInt(m) == Science.TruncMod(ToInt(a), ToInt(b))
  {
    var (q, m) := Div(a, b).value;
    var (x, y) := (ToInt(a), ToInt(b));
    assert Science.Abs(x) == Mass(a) && Science.Abs(y) == Mass(b);
    Science.DivNonNeg(Mass(a), Mass(b));
  }

  /** The reconstruction the tests check: (d·q) + r gives back n. */
  lemma DivReconstructs(a: Number, b: Number)
    requires !IsVacuum(b)
    ensures var (q, m) := Div(a, b).value;
      ToInt(Add(Mul(b, q), m)) == ToInt(a)
  {
    var (q, m) := Div(a, b).value;
    DivRefines(a, b);
    Science.DivisionLaw(ToInt(a), ToInt(b));
  }

  // ---------------------------------------------------------------- ordering

  /** `__lt__`: every negative-class value is below every non-negative one,
      even S(0) below U(0); within a class, by length. */
  predicate Less(a: Number, b: Number)
  {
    match (a, b)
    case (NonNeg(x), NonNeg(y)) => |x| < |y|
    case (NonNeg(_), Neg(_)) => false
    case (Neg(_), NonNeg(_)) => true
    case (Neg(x), Neg(y)) => |x| > |y|
  }

  /** `__le__`. */
  predicate LessEq(a: Number, b: Number)
  {
    match (a, b)
    case (NonNeg(x), NonNeg(y)) => |x| <= |y|
    case (NonNeg(_), Neg(_)) => false
    case (Neg(_), NonNeg(_)) => true
    case (Neg(x), Neg(y)) => |x| >= |y|
  }

  /** `__gt__`. */
  predicate Greater(a: Number, b: Number)
  {
    match (a, b)
    case (NonNeg(x), NonNeg(y)) => |x| > |y|
    case (NonNeg(_), Neg(_)) => true
    case (Neg(_), NonNeg(_)) => false
    case (Neg(x), Neg(y)) => |x| < |y|
  }

  /** `__ge__`. */
  predicate GreaterEq(a: Number, b: Number)
  {
    match (a, b)
    case (NonNeg(x), NonNeg(y)) => |x| >= |y|
    case (NonNeg(_), Neg(_)) => true
    case (Neg(_), NonNeg(_)) => false
    case (Neg(x), Neg(y)) => |x| <= |y|
  }

  /** The order refines the integers' order with one extra step: the
      negative-class zero sits just below the non-negative zero. */
  lemma LessRefines(a: Number, b: Number)
    ensures Less(a, b) <==> ToInt(a) < ToInt(b) || (a == Neg("") && b == NonNeg(""))
  {
    if a.Neg? && b.NonNeg? && ToInt(a) == ToInt(b) {
      TallyByLength(a.value, "");
      TallyByLength(b.value, "");
    }
  }

  /** The four comparisons are one strict order seen four ways: `<=` is
      `<` or equal, and `>`, `>=` are their mirrors. */
  lemma ComparisonsAgree(a: Number, b: Number)
    ensures LessEq(a, b) <==> Less(a, b) || a == b
    ensures Greater(a, b) <==> Less(b, a)
    ensures GreaterEq(a, b) <==> LessEq(b, a)
  {
    if a.NonNeg? == b.NonNeg? && |a.value| == |b.value| {
      TallyByLength(a.value, b.value);
    }
  }

  /** `<` is a strict total order on the tagged tallies. */
  lemma LessIsStrictTotal(a: Number, b: Number, c: Number)
    ensures !Less(a, a)
    ensures Less(a, b) && Less(b, c) ==> Less(a, c)
    ensures a == b || Less(a, b) || Less(b, a)
  {
    if a.NonNeg? == b.NonNeg? && |a.value| == |b.value| {
      TallyByLength(a.value, b.value);
    }
  }

  // ---------------------------------------------------------------- examples

  /** Additions, divisions with reconstruction, and S(0) < U(0). */
  lemma Examples()
    ensures Add(U(2).value, U(3).value) == U(5).value
    ensures Add(S(2).value, S(3).value) == S(5).value
    ensures Add(U(5).value, S(3).value) == U(2).value
    ensures Add(S(5).value, U(2).value) == S(3).value
    ensures Add(U(3).value, U(0).value) == U(3).value
    ensures Div(U(7).value, U(2).value) == Success((U(3).value, U(1).value))
    ensures Div(S(7).value, U(2).value) == Success((S(3).value, S(1).value))
    ensures Div(U(7).value, S(2).value) == Success((S(3).value, U(1).value))
    ensures Div(S(7).value, S(2).value) == Success((U(3).value, S(1).value))
    ensures Less(S(0).value, U(0).value) && ToInt(S(0).value) == ToInt(U(0).value)
  {
    assert Bars(0) == "";
  }
}
