/**
 * The request-parameter validators: `BaseValidator`, whose `fail` raises
 * `ValidationError` with the validator's message, `Boolean`, which maps
 * truthy and falsy spellings to `True` and `False`, and `String`, which
 * accepts strings whose length lies within optional inclusive bounds.
 */
module Validators {
  import opened Values
  import opened Strings

  datatype Validator =
    | Base
    | Boolean
    | String(minLength: Option<int>, maxLength: Option<int>)

  /** The `message` attribute each constructor sets. */
  function Message(v: Validator): string
  {
    match v
    case Base => "Validation failed."
    case Boolean => "Valid boolean required"
    case String(_, _) => "Valid string required."
  }

  /**
   * `fail`: raise `ValidationError` carrying the validator's message. The
   * message tells which kind of validator failed.
   */
  function Fail(v: Validator): (r: Result<Value>)
    ensures r.Err? && r.error == ValidationError(Message(v))
    ensures forall w :: Message(w) == r.error.message ==> (w.Base? <==> v.Base?) && (w.Boolean? <==> v.Boolean?)
  {
    Err(ValidationError(Message(v)))
  }

  // ---------------------------------------------------------------- Boolean

  /** `Boolean.truthy` and `Boolean.falsy`, in the source's order. */
  const TruthyList: seq<Value> := [Str("true"), Str("1"), Str("yes"), Str("t"), Str("y"), Bool(true), Int(1)]
  const FalsyList: seq<Value> := [Str("false"), Str("0"), Str("no"), Str("f"), Str("n"), Bool(false), Int(0)]

  /** The number a bool or int stands for in a Python comparison. */
  function Numeric(v: Value): Option<int>
  {
    match v
    case Bool(b) => Some(if b then 1 else 0)
    case Int(i) => Some(i)
    case _ => None
  }

  /**
   * Python `==` between a value and a string, bool or int constant: strings
   * equal strings only, and `True == 1`, `False == 0`.
   */
  predicate EqualsConstant(v: Value, c: Value)
  {
    if c.Str? then v == c
    else Numeric(c).Some? && Numeric(v) == Numeric(c)
  }

  /** Python `in` on a list of constants. */
  predicate InList(v: Value, cs: seq<Value>)
  {
    exists i :: 0 <= i < |cs| && EqualsConstant(v, cs[i])
  }

  /** Strings are lowercased before the lookup; everything else is looked up as it is. */
  function Lowered(v: Value): (r: Value)
    ensures v.Str? <==> r.Str?
    ensures v.Str? ==> r.s == Lower(v.s)
    ensures !v.Str? ==> r == v
  {
    if v.Str? then Str(Lower(v.s)) else v
  }

  /** `Boolean.validate`. */
  function ValidateBoolean(value: Value): (r: Result<Value>)
    ensures r.Ok? ==> r.value.Bool?
    ensures r.Err? ==> r.error == ValidationError(Message(Boolean))
  {
    var v := Lowered(value);
    if InList(v, TruthyList) then Ok(Bool(true))
    else if InList(v, FalsyList) then Ok(Bool(false))
    else Fail(Boolean)
  }

  /** The spellings `Boolean` reads as true and as false, once lowercased. */
  const TrueWords: set<string> := {"true", "1", "yes", "t", "y"}
  const FalseWords: set<string> := {"false", "0", "no", "f", "n"}

  lemma InTruthyList(v: Value)
    ensures InList(v, TruthyList) <==> (v.Str? && v.s in TrueWords) || Numeric(v) == Some(1)
  {
    if v.Str? && v.s in TrueWords {
      var i := if v == TruthyList[0] then 0 else if v == TruthyList[1] then 1
               else if v == TruthyList[2] then 2 else if v == TruthyList[3] then 3 else 4;
      assert EqualsConstant(v, TruthyList[i]);
    }
    if Numeric(v) == Some(1) {
      assert EqualsConstant(v, TruthyList[6]);
    }
  }

  lemma InFalsyList(v: Value)
    ensures InList(v, FalsyList) <==> (v.Str? && v.s in FalseWords) || Numeric(v) == Some(0)
  {
    if v.Str? && v.s in FalseWords {
      var i := if v == FalsyList[0] then 0 else if v == FalsyList[1] then 1
               else if v == FalsyList[2] then 2 else if v == FalsyList[3] then 3 else 4;
      assert EqualsConstant(v, FalsyList[i]);
    }
    if Numeric(v) == Some(0) {
      assert EqualsConstant(v, FalsyList[6]);
    }
  }

  /**
   * `Boolean` accepts exactly the true and false spellings in any letter
   * case, `True`, `False`, `1` and `0`; everything else fails with its
   * message.
   */
  lemma BooleanAccepts(value: Value)
    ensures ValidateBoolean(value) == Ok(Bool(true)) <==>
              (value.Str? && Lower(value.s) in TrueWords) || value == Bool(true) || value == Int(1)
    ensures ValidateBoolean(value) == Ok(Bool(false)) <==>
              (value.Str? && Lower(value.s) in FalseWords) || value == Bool(false) || value == Int(0)
    ensures ValidateBoolean(value).Err? <==>
              if value.Str? then Lower(value.s) !in TrueWords + FalseWords
              else Numeric(value) != Some(1) && Numeric(value) != Some(0)
  {
    var v := Lowered(value);
    InTruthyList(v);
    InFalsyList(v);
  }

  /** Letter case does not matter. */
  lemma BooleanIgnoresCase(s: string)
    ensures ValidateBoolean(Str(s)) == ValidateBoolean(Str(Lower(s)))
  {
    LowerIdempotent(s);
  }

  /** What `Boolean` returns, it accepts again unchanged. */
  lemma BooleanIdempotent(value: Value)
    requires ValidateBoolean(value).Ok?
    ensures ValidateBoolean(ValidateBoolean(value).value) == ValidateBoolean(value)
  {
    var b := ValidateBoolean(value).value;
    BooleanAccepts(value);
    BooleanAccepts(b);
  }

  /** The rejected inputs of the source's tests: `'foo'`, `'3'`, `3`, None, a dict, a list and another object. */
  lemma BooleanRejections(other: bool)
    ensures ValidateBoolean(Str("foo")).Err?
    ensures ValidateBoolean(Str("3")).Err?
    ensures ValidateBoolean(Int(3)).Err?
    ensures ValidateBoolean(Null).Err?
    ensures ValidateBoolean(Dict(map[])).Err?
    ensures ValidateBoolean(List([Int(1)])).Err?
    ensures ValidateBoolean(Other(other)).Err?
  {
    BooleanAccepts(Str("foo"));
    BooleanAccepts(Str("3"));
    assert Lower("foo") == "foo" && Lower("3") == "3";
    BooleanAccepts(Int(3));
    BooleanAccepts(Null);
    BooleanAccepts(Dict(map[]));
    BooleanAccepts(List([Int(1)]));
    BooleanAccepts(Other(other));
  }

  // ----------------------------------------------------------------- String

  /** Both optional bounds, inclusive. */
  predicate WithinBounds(n: int, minLength: Option<int>, maxLength: Option<int>)
  {
    && (minLength.None? || minLength.value <= n)
    && (maxLength.None? || n <= maxLength.value)
  }

  /**
   * `String.validate`: a string within the bounds is returned as it is;
   * anything else fails with the message.
   */
  function ValidateString(minLength: Option<int>, maxLength: Option<int>, value: Value): (r: Result<Value>)
    ensures r.Ok? <==> value.Str? && WithinBounds(|value.s|, minLength, maxLength)
    ensures r.Ok? ==> r.value == value
    ensures r.Err? ==> r.error == ValidationError(Message(String(minLength, maxLength)))
  {
    var v := String(minLength, maxLength);
    if !value.Str? then Fail(v)
    else
      var length := |value.s|;
      if minLength.Some? && length < minLength.value then Fail(v)
      else if maxLength.Some? && length > maxLength.value then Fail(v)
      else Ok(value)
  }

  /** Bounds that cross leave nothing to accept. */
  lemma CrossedBoundsRejectAll(lo: int, hi: int, value: Value)
    requires lo > hi
    ensures ValidateString(Some(lo), Some(hi), value).Err?
  {
  }

  /** What `String` returns, it accepts again unchanged. */
  lemma StringIdempotent(minLength: Option<int>, maxLength: Option<int>, value: Value)
    requires ValidateString(minLength, maxLength, value).Ok?
    ensures ValidateString(minLength, maxLength, ValidateString(minLength, maxLength, value).value)
            == ValidateString(minLength, maxLength, value)
  {
  }

  /** Widening the bounds never turns an accepted string away. */
  lemma StringMonotone(lo: Option<int>, hi: Option<int>, lo': Option<int>, hi': Option<int>, value: Value)
    requires lo'.Some? ==> lo.Some? && lo'.value <= lo.value
    requires hi'.Some? ==> hi.Some? && hi.value <= hi'.value
    requires ValidateString(lo, hi, value).Ok?
    ensures ValidateString(lo', hi', value) == ValidateString(lo, hi, value)
  {
  }

  // ------------------------------------------------------------ dispatching

  /**
   * `validate`, whichever class the validator is. The handler argument is
   * unused by all three and left out.
   */
  function Validate(v: Validator, value: Value): (r: Result<Value>)
    ensures r.Ok? ==> !v.Base?
    ensures r.Err? ==> r.error == NotImplemented || r.error == ValidationError(Message(v))
    ensures v.Boolean? && r.Ok? ==> r.value.Bool?
    ensures v.String? && r.Ok? ==> r.value == value
  {
    match v
    case Base => Err(NotImplemented)
    case Boolean => ValidateBoolean(value)
    case String(lo, hi) => ValidateString(lo, hi, value)
  }

  /**
   * Every rejection goes through `fail` and carries the validator's own
   * message, except the base class, which has no `validate` of its own.
   */
  lemma FailuresCarryTheMessage(v: Validator, value: Value)
    requires Validate(v, value).Err?
    ensures v.Base? <==> Validate(v, value).error == NotImplemented
    ensures !v.Base? ==> Validate(v, value) == Fail(v)
  {
  }

  /** What a validator accepts is a fixed point of it. */
  lemma ValidateIdempotent(v: Validator, value: Value)
    requires Validate(v, value).Ok?
    ensures Validate(v, Validate(v, value).value) == Validate(v, value)
  {
    if v.Boolean? {
      BooleanIdempotent(value);
    }
  }
}
