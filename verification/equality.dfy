/** JavaScript's `===` and `==` on the values a table can hold.

    Arrays and plain objects are compared by reference.  A target id comes
    from the caller and every element of a table is a fresh result of
    `JSON.parse`, so an object never shares its reference with the value it
    is compared against: object-to-object comparison is always false here. */
module JsEquality {
  import opened JsValues
  import opened JsNumbers

  datatype JsType = TUndefined | TNull | TBoolean | TNumber | TString | TObject

  function TypeOf(v: Value): JsType {
    match v
    case Undefined => TUndefined
    case Null => TNull
    case Bool(_) => TBoolean
    case Num(_) => TNumber
    case Str(_) => TString
    case Arr(_) => TObject
    case Obj(_) => TObject
  }

  predicate IsNullish(v: Value) {
    v.Undefined? || v.Null?
  }

  /** The object has an own property named `toString`.  Such a property
      comes from the parsed text, so it is never a function: converting the
      object to a primitive cannot call it, and the object's `valueOf`
      returns the object itself, so the conversion throws a TypeError. */
  predicate HasOwnToString(fs: seq<Field>) {
    "toString" in Keys(fs)
  }

  /** ToString of a value as Array.prototype.join writes an element
      (`null` and `undefined` become the empty string); `None` when the
      conversion throws. */
  function JoinElement(v: Value): Option<string>
    decreases v, 1
  {
    match v
    case Undefined => Some("")
    case Null => Some("")
    case Bool(b) => Some(if b then "true" else "false")
    case Num(n) => Some(IntToString(n))
    case Str(s) => Some(s)
    case Arr(es) => Join(es)
    case Obj(fs) => if HasOwnToString(fs) then None else Some("[object Object]")
  }

  /** Array.prototype.join with the default "," separator; it throws when
      converting some element throws. */
  function Join(es: seq<Value>): Option<string>
    decreases es, 0
  {
    if |es| == 0 then Some("")
    else if |es| == 1 then JoinElement(es[0])
    else
      match (JoinElement(es[0]), Join(es[1..]))
      case (Some(head), Some(tail)) => Some(head + "," + tail)
      case _ => None
  }

  /** ToPrimitive of an object: an array becomes the text `join` gives, a
      plain object becomes "[object Object]", and `None` is the TypeError of
      an object with its own `toString` property. */
  function ToPrimitive(v: Value): (p: Option<Value>)
    requires IsObject(v)
    ensures p.Some? ==> p.value.Str?
    ensures v.Obj? ==> (p.None? <==> HasOwnToString(v.fields))
  {
    match JoinElement(v)
    case None => None
    case Some(s) => Some(Str(s))
  }

  /** Converting `v` to a string throws, as in the template literal
      `${v}`: only an object whose ToPrimitive throws does. */
  predicate ToStringThrows(v: Value) {
    IsObject(v) && ToPrimitive(v).None?
  }

  function BoolToNumber(b: bool): Value {
    Num(if b then 1 else 0)
  }

  /** Strict equality (`===`). */
  predicate StrictEq(x: Value, y: Value)
    ensures StrictEq(x, y) ==> x == y
  {
    match (x, y)
    case (Undefined, Undefined) => true
    case (Null, Null) => true
    case (Bool(a), Bool(b)) => a == b
    case (Num(a), Num(b)) => a == b
    case (Str(a), Str(b)) => a == b
    case _ => false
  }

  /** The primitive a non-nullish operand of `==` ends up as once the
      comparison has converted it: a boolean becomes a number, an object
      becomes its ToPrimitive string (or throws), numbers and strings stay. */
  function Converted(v: Value): (p: Option<Value>)
    requires !IsNullish(v)
    ensures p.Some? ==> p.value.Num? || p.value.Str?
    ensures p.None? <==> ToStringThrows(v)
  {
    match v
    case Bool(b) => Some(BoolToNumber(b))
    case Arr(_) => ToPrimitive(v)
    case Obj(_) => ToPrimitive(v)
    case _ => Some(v)
  }

  /** Equality of two converted primitives; a string meeting a number is
      converted with ToNumber. */
  predicate PrimitiveEq(p: Value, q: Value)
    requires p.Num? || p.Str?
    requires q.Num? || q.Str?
  {
    if p.Num? && q.Num? then p.n == q.n
    else if p.Str? && q.Str? then p.s == q.s
    else if p.Num? then StringToNumber(q.s) == Some(p.n as real)
    else StringToNumber(p.s) == Some(q.n as real)
  }

  /** Loose equality (`==`): operands of one type compare strictly, `null`
      and `undefined` equal each other only, and anything else is compared
      after converting both sides to numbers or strings.  `None` is the
      TypeError of a conversion that throws. */
  function LooseEq(x: Value, y: Value): (r: Option<bool>)
    ensures r == Some(true) ==> (IsNullish(x) <==> IsNullish(y))
    ensures r.None? ==> ToStringThrows(x) || ToStringThrows(y)
  {
    if TypeOf(x) == TypeOf(y) then Some(StrictEq(x, y))
    else if IsNullish(x) || IsNullish(y) then Some(IsNullish(x) && IsNullish(y))
    else
      match (Converted(x), Converted(y))
      case (Some(p), Some(q)) => Some(PrimitiveEq(p, q))
      case _ => None
  }

  /** Loose inequality (`!=`): the negation of `==`, throwing when it throws. */
  function LooseNe(x: Value, y: Value): (r: Option<bool>)
    ensures r.None? <==> LooseEq(x, y).None?
    ensures r.Some? ==> r.value == !LooseEq(x, y).value
  {
    match LooseEq(x, y)
    case None => None
    case Some(b) => Some(!b)
  }

  /** Which conversions are still pending: a boolean becomes a number and an
      object becomes a string, so this measure drops with every step. */
  function Pending(v: Value): nat {
    if v.Bool? then 2 else if IsObject(v) then 1 else 0
  }

  /** The Abstract Equality Comparison, one conversion per step, as section
      7.2.12 of ECMAScript 2015 lays it out; `None` is the abrupt completion
      of a ToPrimitive that throws. */
  function AbstractEquality(x: Value, y: Value): (r: Option<bool>)
    ensures r == Some(true) ==> (IsNullish(x) <==> IsNullish(y))
    decreases Pending(x) + Pending(y)
  {
    if TypeOf(x) == TypeOf(y) then Some(StrictEq(x, y))
    else if IsNullish(x) && IsNullish(y) then Some(true)
    else if x.Num? && y.Str? then Some(StringToNumber(y.s) == Some(x.n as real))
    else if x.Str? && y.Num? then Some(StringToNumber(x.s) == Some(y.n as real))
    else if x.Bool? then AbstractEquality(BoolToNumber(x.b), y)
    else if y.Bool? then AbstractEquality(x, BoolToNumber(y.b))
    else if (x.Num? || x.Str?) && IsObject(y) then
      match ToPrimitive(y)
      case None => None
      case Some(p) => AbstractEquality(x, p)
    else if IsObject(x) && (y.Num? || y.Str?) then
      match ToPrimitive(x)
      case None => None
      case Some(p) => AbstractEquality(p, y)
    else Some(false)
  }

  /** Converting both sides first and then comparing agrees with the
      step-by-step algorithm on every pair of values, throwing included. */
  lemma {:induction false} LooseEqIsAbstractEquality(x: Value, y: Value)
    ensures LooseEq(x, y) == AbstractEquality(x, y)
    decreases Pending(x) + Pending(y), 1
  {
    if TypeOf(x) == TypeOf(y) {
    } else if IsNullish(x) || IsNullish(y) {
      NullishAbstractEquality(x, y);
    } else if x.Bool? {
      BoolLeft(x, y);
    } else if y.Bool? {
      BoolRight(x, y);
    } else if IsObject(y) {
      ObjectRight(x, y);
    } else if IsObject(x) {
      ObjectLeft(x, y);
    } else {
      PrimitivePair(x, y);
    }
  }

  lemma PrimitivePair(x: Value, y: Value)
    requires TypeOf(x) != TypeOf(y) && (x.Num? || x.Str?) && (y.Num? || y.Str?)
    ensures LooseEq(x, y) == AbstractEquality(x, y)
  {
  }

  lemma {:induction false} BoolLeft(x: Value, y: Value)
    requires TypeOf(x) != TypeOf(y) && !IsNullish(y) && x.Bool?
    ensures LooseEq(x, y) == AbstractEquality(x, y)
    decreases Pending(x) + Pending(y), 0
  {
    var n := BoolToNumber(x.b);
    assert AbstractEquality(x, y) == AbstractEquality(n, y);
    assert LooseEq(x, y) == LooseEq(n, y);
    LooseEqIsAbstractEquality(n, y);
  }

  lemma {:induction false} BoolRight(x: Value, y: Value)
    requires TypeOf(x) != TypeOf(y) && !IsNullish(x) && !x.Bool? && y.Bool?
    ensures LooseEq(x, y) == AbstractEquality(x, y)
    decreases Pending(x) + Pending(y), 0
  {
    var n := BoolToNumber(y.b);
    assert AbstractEquality(x, y) == AbstractEquality(x, n);
    assert LooseEq(x, y) == LooseEq(x, n);
    LooseEqIsAbstractEquality(x, n);
  }

  lemma ObjectRight(x: Value, y: Value)
    requires TypeOf(x) != TypeOf(y) && (x.Num? || x.Str?) && IsObject(y)
    ensures LooseEq(x, y) == AbstractEquality(x, y)
  {
    match ToPrimitive(y)
    case None =>
    case Some(p) =>
      assert AbstractEquality(x, y) == AbstractEquality(x, p);
      assert LooseEq(x, y) == LooseEq(x, p);
      TextPair(x, p.s);
  }

  lemma ObjectLeft(x: Value, y: Value)
    requires TypeOf(x) != TypeOf(y) && IsObject(x) && (y.Num? || y.Str?)
    ensures LooseEq(x, y) == AbstractEquality(x, y)
  {
    match ToPrimitive(x)
    case None =>
    case Some(p) =>
      assert AbstractEquality(x, y) == AbstractEquality(p, y);
      assert LooseEq(x, y) == LooseEq(p, y);
      TextPairLeft(p.s, y);
  }

  /** A number or string against any text, on either side: the two
      definitions agree. */
  lemma TextPair(x: Value, s: string)
    requires x.Num? || x.Str?
    ensures LooseEq(x, Str(s)) == AbstractEquality(x, Str(s))
  {
  }

  lemma TextPairLeft(s: string, y: Value)
    requires y.Num? || y.Str?
    ensures LooseEq(Str(s), y) == AbstractEquality(Str(s), y)
  {
  }

  /** Under the step-by-step algorithm `null` and `undefined` equal each
      other and nothing else, and comparing with them never throws. */
  lemma NullishAbstractEquality(x: Value, y: Value)
    requires TypeOf(x) != TypeOf(y) && (IsNullish(x) || IsNullish(y))
    ensures AbstractEquality(x, y) == Some(IsNullish(x) && IsNullish(y))
  {
    if x.Bool? {
      assert AbstractEquality(x, y) == AbstractEquality(BoolToNumber(x.b), y);
    } else if y.Bool? {
      assert AbstractEquality(x, y) == AbstractEquality(x, BoolToNumber(y.b));
    }
  }

  /** `==` throws exactly when the operands differ in type, neither is
      `null` or `undefined`, and one of them is an object whose conversion
      to a primitive throws. */
  lemma LooseEqThrows(x: Value, y: Value)
    ensures LooseEq(x, y).None? <==>
      TypeOf(x) != TypeOf(y) && !IsNullish(x) && !IsNullish(y) && (ToStringThrows(x) || ToStringThrows(y))
  {
  }

  /** An object or array id throws under `==` against a number exactly when
      its conversion does: a plain object only when it has its own
      `toString` property, an array when one of its elements, at any depth,
      is such an object. */
  lemma OwnToStringThrows(fs: seq<Field>, n: int)
    ensures LooseEq(Obj(fs), Num(n)).None? <==> HasOwnToString(fs)
    ensures LooseEq(Arr([Obj(fs)]), Num(n)).None? <==> HasOwnToString(fs)
  {
    LooseEqThrows(Obj(fs), Num(n));
    LooseEqThrows(Arr([Obj(fs)]), Num(n));
    assert Join([Obj(fs)]) == JoinElement(Obj(fs));
  }

  /** `===` holds exactly between equal primitives. */
  lemma StrictEqIsPrimitiveEquality(x: Value, y: Value)
    ensures StrictEq(x, y) <==> !IsObject(x) && x == y
  {
  }

  /** Whatever is strictly equal is loosely equal. */
  lemma StrictImpliesLoose(x: Value, y: Value)
    ensures StrictEq(x, y) ==> LooseEq(x, y) == Some(true)
  {
  }

  lemma LooseEqSymmetric(x: Value, y: Value)
    ensures LooseEq(x, y) == LooseEq(y, x)
  {
  }

  /** A value `==` to the target converts to a string without throwing, so
      logging the target after a loose match cannot throw. */
  lemma LooseMatchTargetPrints(x: Value, y: Value)
    requires LooseEq(x, y) == Some(true)
    ensures !ToStringThrows(y)
  {
  }

  /** `null` and `undefined` are loosely equal to each other and to nothing
      else, and comparing with them never throws. */
  lemma LooseNullish(x: Value, y: Value)
    requires IsNullish(y)
    ensures LooseEq(x, y) == Some(IsNullish(x))
  {
  }

  /** A numeric id matches its decimal text loosely but never strictly. */
  lemma NumberMatchesItsText(i: int)
    ensures LooseEq(Num(i), Str(IntToString(i))) == Some(true)
    ensures !StrictEq(Num(i), Str(IntToString(i)))
  {
    IntToStringToNumber(i);
  }

  /** The conversions `==` applies, on concrete operands: an array joins its
      elements with ",", a plain object reads as "[object Object]", `true`
      is 1, and text is trimmed, with blank text reading as 0. */
  lemma ConversionExamples()
    ensures LooseEq(Arr([Num(1), Num(2)]), Str("1,2")) == Some(true)
    ensures LooseEq(Obj([]), Str("[object Object]")) == Some(true)
    ensures LooseEq(Bool(true), Num(1)) == Some(true)
    ensures LooseEq(Bool(true), Num(2)) == Some(false)
    ensures LooseEq(Str(" 5 "), Num(5)) == Some(true)
    ensures LooseEq(Str(""), Num(0)) == Some(true)
  {
    var es := [Num(1), Num(2)];
    assert IntToString(1) == "1" && IntToString(2) == "2";
    assert es[1..] == [Num(2)];
    assert JoinElement(es[0]) == Some("1") && Join(es[1..]) == Some("2");
    assert "1" + "," + "2" == "1,2";
    assert Join(es) == Some("1,2");
  }
}
