/**
 * The `parse` decorator: it gathers the request's arguments, runs each
 * declared parameter's value through its chain of validators, and calls the
 * handler method with exactly the declared parameters as keyword arguments.
 */
module Params {
  import opened Values
  import opened Strings
  import opened Validators

  /**
   * An object whose `validate` the chain may call: one of the validator
   * classes, or any other object with a `validate` method, given as the
   * function its `validate` computes on a value.
   */
  datatype Check =
    | Library(validator: Validator)
    | Custom(validate: Value -> Result<Value>)

  /** An entry of a validator list: an object with `validate`, or one without. */
  datatype Element = Validating(check: Check) | NotAValidator

  /**
   * What `properties.get('validators', [])` gives: one validator, a list, or
   * something the `for` loop cannot iterate.
   */
  datatype ValidatorsArg = OneValidator(check: Check) | ValidatorList(elements: seq<Element>) | NotIterable

  /** `validator.validate(value, handler)`; the handler is used by none of the validator classes. */
  function RunCheck(c: Check, value: Value): Result<Value>
  {
    match c
    case Library(v) => Validate(v, value)
    case Custom(f) => f(value)
  }

  const ServerError: Error := HttpError(500, None)

  /**
   * The loop of `_apply_validator_chain`: left to right, each output feeding
   * the next; an entry without `validate` raises HTTP 500. A chain that
   * succeeds consisted of validators only.
   */
  function ApplyChain(elements: seq<Element>, value: Value): (r: Result<Value>)
    ensures elements == [] ==> r == Ok(value)
    ensures r.Ok? ==> forall i :: 0 <= i < |elements| ==> elements[i].Validating?
    ensures (forall i :: 0 <= i < |elements| ==> elements[i].NotAValidator?) && elements != [] ==> r == Err(ServerError)
    decreases |elements|
  {
    if elements == [] then Ok(value)
    else
      match elements[0]
      case NotAValidator => Err(ServerError)
      case Validating(c) =>
        var next :- RunCheck(c, value);
        ApplyChain(elements[1..], next)
  }


  /** Running `a` and then `b` is running `a + b`. */
  lemma {:induction false} ChainsCompose(a: seq<Element>, b: seq<Element>, value: Value)
    ensures ApplyChain(a + b, value) ==
              match ApplyChain(a, value)
              case Err(e) => Err(e)
              case Ok(mid) => ApplyChain(b, mid)
    decreases |a|
  {
    if a != [] {
      assert (a + b)[0] == a[0];
      assert (a + b)[1..] == a[1..] + b;
      if a[0].Validating? {
        var next := RunCheck(a[0].check, value);
        if next.Ok? {
          ChainsCompose(a[1..], b, next.value);
          assert ApplyChain(a + b, value) == ApplyChain(a[1..] + b, next.value);
          assert ApplyChain(a, value) == ApplyChain(a[1..], next.value);
        } else {
          assert ApplyChain(a + b, value) == Err(next.error) == ApplyChain(a, value);
        }
      } else {
        assert ApplyChain(a + b, value) == Err(ServerError) == ApplyChain(a, value);
      }
    } else {
      assert a + b == b;
    }
  }

  /** The failure of a chain is the failure of its first failing step. */
  lemma {:induction false} ChainFailsAtFirstFailure(elements: seq<Element>, value: Value, k: nat)
    requires k < |elements|
    requires ApplyChain(elements[..k], value).Ok?
    requires elements[k].NotAValidator? || RunCheck(elements[k].check, ApplyChain(elements[..k], value).value).Err?
    ensures ApplyChain(elements, value).Err?
    ensures elements[k].NotAValidator? ==> ApplyChain(elements, value) == Err(ServerError)
  {
    assert elements == elements[..k] + elements[k..];
    ChainsCompose(elements[..k], elements[k..], value);
    assert elements[k..][0] == elements[k];
  }

  // ------------------------------------------------- the call as written

  /**
   * The validator classes declare `validate(self, value, handler)` while the
   * chain calls `validator.validate(value)` with one argument, which Python
   * refuses with `TypeError`. Only objects whose `validate` takes a single
   * argument get past the call.
   */
  function RunCheckAsWritten(c: Check, value: Value): (r: Result<Value>)
    ensures c.Library? ==> r == Err(TypeError("validate"))
    ensures c.Custom? ==> r == RunCheck(c, value)
  {
    match c
    case Library(_) => Err(TypeError("validate"))
    case Custom(f) => f(value)
  }

  function ApplyChainAsWritten(elements: seq<Element>, value: Value): (r: Result<Value>)
    ensures elements == [] ==> r == Ok(value)
    ensures r.Ok? ==> forall i :: 0 <= i < |elements| ==> elements[i].Validating? && elements[i].check.Custom?
    decreases |elements|
  {
    if elements == [] then Ok(value)
    else
      match elements[0]
      case NotAValidator => Err(ServerError)
      case Validating(c) =>
        var next :- RunCheckAsWritten(c, value);
        ApplyChainAsWritten(elements[1..], next)
  }

  /**
   * How the chain calls `validate`: with the value alone, as the source
   * does, or with the value and the handler, as the validator classes
   * declare.
   */
  datatype Calling = AsWritten | WithHandler

  /** The chain under either way of calling. */
  function Chain(calling: Calling, elements: seq<Element>, value: Value): Result<Value>
  {
    match calling
    case AsWritten => ApplyChainAsWritten(elements, value)
    case WithHandler => ApplyChain(elements, value)
  }

  /**
   * `_apply_validator_chain`: a single validator is a chain of one. As
   * written, a validator class in the chain raises `TypeError`; a one-argument
   * object runs; an entry without `validate` raises HTTP 500.
   */
  function ApplyValidators(calling: Calling, validators: ValidatorsArg, value: Value): (r: Result<Value>)
    ensures validators.NotIterable? ==> r == Err(TypeError("validators"))
    ensures calling == WithHandler && validators.OneValidator? ==> r == RunCheck(validators.check, value)
    ensures calling == AsWritten && validators.OneValidator? ==> r == RunCheckAsWritten(validators.check, value)
    ensures calling == AsWritten && validators.OneValidator? && validators.check.Library? ==> r == Err(TypeError("validate"))
    ensures validators.ValidatorList? && validators.elements == [] ==> r == Ok(value)
  {
    match validators
    case OneValidator(c) =>
      assert [Validating(c)][1..] == [];
      Chain(calling, [Validating(c)], value)
    case ValidatorList(es) => Chain(calling, es, value)
    case NotIterable => Err(TypeError("validators"))
  }

  /** On chains of one-argument objects, the call as written is the intended call. */
  lemma {:induction false} CustomChainsAgree(elements: seq<Element>, value: Value)
    requires forall i :: 0 <= i < |elements| ==> elements[i].Validating? ==> elements[i].check.Custom?
    ensures ApplyChainAsWritten(elements, value) == ApplyChain(elements, value)
    decreases |elements|
  {
    if elements != [] && elements[0].Validating? {
      var next := RunCheck(elements[0].check, value);
      if next.Ok? {
        CustomChainsAgree(elements[1..], next.value);
      }
    }
  }

  /**
   * `Boolean()` in a chain: as written the call raises `TypeError` for
   * `'true'`; the intended call returns `True`.
   */
  lemma BooleanInChain()
    ensures ApplyChainAsWritten([Validating(Library(Boolean))], Str("true")) == Err(TypeError("validate"))
    ensures ApplyChain([Validating(Library(Boolean))], Str("true")) == Ok(Bool(true))
  {
    BooleanAccepts(Str("true"));
    assert Lower("true") == "true";
  }

  // ------------------------------------------------------------ binding

  /**
   * A parameter's declaration with the source's defaults already applied:
   * no `validators` is an empty list, no `required` is `False`, no
   * `default` is None.
   */
  datatype Properties = Properties(validators: ValidatorsArg, required: Value, default: Value)

  datatype Declaration = Declaration(key: string, properties: Properties)

  /** The properties dict `{}`. */
  const NoProperties: Properties := Properties(ValidatorList([]), Bool(false), Null)

  /**
   * The keyword argument one declaration contributes, or why the call is
   * refused. A present argument goes through the validators; an absent one
   * refuses the call with HTTP 400 exactly when it is required, and
   * otherwise takes the default, since a default of `None` and no default
   * both give `None`.
   */
  function BindOne(calling: Calling, d: Declaration, arguments: map<string, Value>): (r: Result<Value>)
    ensures d.key !in arguments ==> (r.Err? <==> Truthy(d.properties.required))
    ensures d.key !in arguments && r.Err? ==>
              r.error == HttpError(400, Some("Missing required parameter: " + d.key))
    ensures d.key !in arguments && r.Ok? ==> r.value == d.properties.default
  {
    var p := d.properties;
    if d.key in arguments then ApplyValidators(calling, p.validators, arguments[d.key])
    else if Truthy(p.required) then Err(HttpError(400, Some("Missing required parameter: " + d.key)))
    else if p.default != Null then Ok(p.default)
    else Ok(Null)
  }

  /** The declared keys. */
  function Keys(decls: seq<Declaration>): (r: set<string>)
    ensures forall k :: k in r <==> exists i :: 0 <= i < |decls| && decls[i].key == k
  {
    set i | 0 <= i < |decls| :: decls[i].key
  }

  /** `decls[i]` is the last declaration of its key, so its value is the one passed. */
  predicate LastOfKey(decls: seq<Declaration>, i: int)
    requires 0 <= i < |decls|
  {
    forall j :: i < j < |decls| ==> decls[j].key != decls[i].key
  }

  /**
   * The state of the loop of `call` after `n` declarations: each was bound,
   * the keyword arguments hold exactly their keys, and each key holds the
   * value of its last declaration so far.
   */
  predicate BoundSoFar(calling: Calling, decls: seq<Declaration>, arguments: map<string, Value>,
                       kwargs: map<string, Value>, n: nat)
  {
    Bound(decls, Bindings(calling, decls, arguments), kwargs, n)
  }

  /** What each declaration contributes, in declaration order. */
  function Bindings(calling: Calling, decls: seq<Declaration>, arguments: map<string, Value>): (r: seq<Result<Value>>)
    ensures |r| == |decls| && forall i :: 0 <= i < |r| ==> r[i] == BindOne(calling, decls[i], arguments)
  {
    seq(|decls|, i requires 0 <= i < |decls| => BindOne(calling, decls[i], arguments))
  }

  /** `BoundSoFar` for given contributions `results`. */
  predicate Bound(decls: seq<Declaration>, results: seq<Result<Value>>, kwargs: map<string, Value>, n: nat)
  {
    && n <= |decls| == |results|
    && (forall i :: 0 <= i < n ==> results[i].Ok?)
    && kwargs.Keys == Keys(decls[..n])
    && (forall i :: 0 <= i < n && (forall j :: i < j < n ==> decls[j].key != decls[i].key) ==>
          Ok(kwargs[decls[i].key]) == results[i])
  }

  /**
   * The loop of `call` in `parse`, in declaration order: every declared key
   * is bound and nothing else; the call is refused with the first
   * declaration, in order, that cannot be bound.
   */
  function Bind(calling: Calling, decls: seq<Declaration>, arguments: map<string, Value>): (r: Result<map<string, Value>>)
    ensures r.Ok? <==> forall i :: 0 <= i < |decls| ==> BindOne(calling, decls[i], arguments).Ok?
    ensures r.Err? ==> exists i :: 0 <= i < |decls| && BindOne(calling, decls[i], arguments) == Err(r.error)
                                   && forall j :: 0 <= j < i ==> BindOne(calling, decls[j], arguments).Ok?
    ensures r.Ok? ==> r.value.Keys == Keys(decls)
    ensures r.Ok? ==> forall i :: 0 <= i < |decls| && LastOfKey(decls, i) ==>
                        Ok(r.value[decls[i].key]) == BindOne(calling, decls[i], arguments)
  {
    BindFrom(calling, decls, arguments, map[], 0)
  }

  function BindFrom(calling: Calling, decls: seq<Declaration>, arguments: map<string, Value>, kwargs: map<string, Value>, n: nat)
    : (r: Result<map<string, Value>>)
    requires BoundSoFar(calling, decls, arguments, kwargs, n)
    ensures r.Ok? <==> forall i :: n <= i < |decls| ==> BindOne(calling, decls[i], arguments).Ok?
    ensures r.Err? ==> exists i :: n <= i < |decls| && BindOne(calling, decls[i], arguments) == Err(r.error)
                                   && forall j :: n <= j < i ==> BindOne(calling, decls[j], arguments).Ok?
    ensures r.Ok? ==> r.value.Keys == Keys(decls)
    ensures r.Ok? ==> forall i :: 0 <= i < |decls| && LastOfKey(decls, i) ==>
                        Ok(r.value[decls[i].key]) == BindOne(calling, decls[i], arguments)
    decreases |decls| - n
  {
    if n == |decls| then
      assert decls[..n] == decls;
      Ok(kwargs)
    else
      var d := decls[n];
      match BindOne(calling, d, arguments)
      case Err(e) => Err(e)
      case Ok(v) =>
        BoundStep(calling, decls, arguments, kwargs, n);
        BindFrom(calling, decls, arguments, kwargs[d.key := v], n + 1)
  }

  /**
   * What each declared parameter receives, when no key is declared twice:
   * the validated request value when present; when absent, the default,
   * which stands for None when none is given; and a missing required
   * parameter refuses the call with HTTP 400.
   */
  lemma BoundValues(calling: Calling, decls: seq<Declaration>, arguments: map<string, Value>, i: nat)
    requires i < |decls| && LastOfKey(decls, i)
    ensures var k, p := decls[i].key, decls[i].properties;
            && (k in arguments && Bind(calling, decls, arguments).Ok? ==>
                  Ok(Bind(calling, decls, arguments).value[k]) == ApplyValidators(calling, p.validators, arguments[k]))
            && (k !in arguments && !Truthy(p.required) && Bind(calling, decls, arguments).Ok? ==>
                  Bind(calling, decls, arguments).value[k] == p.default)
            && (k !in arguments && Truthy(p.required) ==> Bind(calling, decls, arguments).Err?)
  {
  }

  /** The validators of a declaration take the value alone, so both ways of calling agree on them. */
  predicate OneArgumentValidators(v: ValidatorsArg)
  {
    match v
    case OneValidator(c) => c.Custom?
    case ValidatorList(es) => forall i :: 0 <= i < |es| ==> es[i].Validating? ==> es[i].check.Custom?
    case NotIterable => true
  }

  lemma BindOneAgrees(d: Declaration, arguments: map<string, Value>)
    requires OneArgumentValidators(d.properties.validators)
    ensures BindOne(AsWritten, d, arguments) == BindOne(WithHandler, d, arguments)
  {
    if d.key in arguments {
      match d.properties.validators
      case OneValidator(c) => CustomChainsAgree([Validating(c)], arguments[d.key]);
      case ValidatorList(es) => CustomChainsAgree(es, arguments[d.key]);
      case NotIterable =>
    }
  }

  /** One more declaration bound keeps the loop's state. */
  lemma BoundStep(calling: Calling, decls: seq<Declaration>, arguments: map<string, Value>,
                  kwargs: map<string, Value>, n: nat)
    requires BoundSoFar(calling, decls, arguments, kwargs, n) && n < |decls|
    requires BindOne(calling, decls[n], arguments).Ok?
    ensures BoundSoFar(calling, decls, arguments,
                       kwargs[decls[n].key := BindOne(calling, decls[n], arguments).value], n + 1)
  {
    BoundSnoc(decls, Bindings(calling, decls, arguments), kwargs, n);
  }

  lemma BoundSnoc(decls: seq<Declaration>, results: seq<Result<Value>>, kwargs: map<string, Value>, n: nat)
    requires Bound(decls, results, kwargs, n) && n < |decls| && results[n].Ok?
    ensures Bound(decls, results, kwargs[decls[n].key := results[n].value], n + 1)
  {
    var after := kwargs[decls[n].key := results[n].value];
    KeysSnoc(decls[..n], decls[n]);
    assert decls[..n + 1] == decls[..n] + [decls[n]];
    forall i | 0 <= i < n + 1 && (forall j :: i < j < n + 1 ==> decls[j].key != decls[i].key)
      ensures Ok(after[decls[i].key]) == results[i]
    {
      if i < n {
        assert decls[n].key != decls[i].key;
        assert forall j :: i < j < n ==> decls[j].key != decls[i].key;
      }
    }
  }

  lemma KeysSnoc(decls: seq<Declaration>, d: Declaration)
    ensures Keys(decls + [d]) == Keys(decls) + {d.key}
  {
    var all := decls + [d];
    forall k | k in Keys(decls)
      ensures k in Keys(all)
    {
      var i :| 0 <= i < |decls| && decls[i].key == k;
      assert all[i] == decls[i];
    }
    assert all[|decls|] == d;
  }

  lemma {:induction false} BindFromAgrees(decls: seq<Declaration>, arguments: map<string, Value>,
                                          kwargs: map<string, Value>, n: nat)
    requires forall i :: 0 <= i < |decls| ==> BindOne(AsWritten, decls[i], arguments) == BindOne(WithHandler, decls[i], arguments)
    requires BoundSoFar(AsWritten, decls, arguments, kwargs, n)
    ensures BoundSoFar(WithHandler, decls, arguments, kwargs, n)
    ensures BindFrom(AsWritten, decls, arguments, kwargs, n) == BindFrom(WithHandler, decls, arguments, kwargs, n)
    decreases |decls| - n
  {
    BoundSoFarAgrees(decls, arguments, kwargs, n);
    if n < |decls| {
      var d := decls[n];
      if BindOne(AsWritten, d, arguments).Ok? {
        var v := BindOne(AsWritten, d, arguments).value;
        BoundStep(AsWritten, decls, arguments, kwargs, n);
        BindFromAgrees(decls, arguments, kwargs[d.key := v], n + 1);
      }
    }
  }

  lemma BoundSoFarAgrees(decls: seq<Declaration>, arguments: map<string, Value>, kwargs: map<string, Value>, n: nat)
    requires forall i :: 0 <= i < |decls| ==> BindOne(AsWritten, decls[i], arguments) == BindOne(WithHandler, decls[i], arguments)
    requires BoundSoFar(AsWritten, decls, arguments, kwargs, n)
    ensures BoundSoFar(WithHandler, decls, arguments, kwargs, n)
  {
    assert Bindings(AsWritten, decls, arguments) == Bindings(WithHandler, decls, arguments);
  }

  /**
   * When every declared validator takes the value alone, binding as written
   * is binding with the handler passed: the two ways of calling part only
   * at a validator class.
   */
  lemma OneArgumentBindingsAgree(decls: seq<Declaration>, arguments: map<string, Value>)
    requires forall i :: 0 <= i < |decls| ==> OneArgumentValidators(decls[i].properties.validators)
    ensures Bind(AsWritten, decls, arguments) == Bind(WithHandler, decls, arguments)
  {
    forall i | 0 <= i < |decls|
      ensures BindOne(AsWritten, decls[i], arguments) == BindOne(WithHandler, decls[i], arguments)
    {
      BindOneAgrees(decls[i], arguments);
    }
    assert decls[..0] == [];
    BindFromAgrees(decls, arguments, map[], 0);
  }

  /** A parameter `flag` validated by `Boolean()`. */
  const Flag: Declaration := Declaration("flag", Properties(ValidatorList([Validating(Library(Boolean))]), Bool(false), Null))

  /**
   * `flag=true` with a `Boolean()` validator: as written the call raises
   * `TypeError` and the method never runs, whatever it is; with the handler
   * passed, the method would receive `flag=True`.
   */
  lemma BooleanParameter(handlerMethod: (seq<Value>, map<string, Value>) -> Value)
    ensures Bind(AsWritten, [Flag], map["flag" := Str("true")]) == Err(TypeError("validate"))
    ensures Call(AsWritten, [Flag], "post", map[], map["flag" := Str("true")], [], handlerMethod) == Err(TypeError("validate"))
    ensures Bind(WithHandler, [Flag], map["flag" := Str("true")]) == Ok(map["flag" := Bool(true)])
  {
    var args := map["flag" := Str("true")];
    var chain := [Validating(Library(Boolean))];
    BooleanInChain();
    assert "flag" in args && args["flag"] == Str("true");
    assert Flag.key == "flag" && Flag.properties.validators == ValidatorList(chain);
    assert ApplyValidators(AsWritten, ValidatorList(chain), Str("true")) == Err(TypeError("validate"));
    assert ApplyValidators(WithHandler, ValidatorList(chain), Str("true")) == Ok(Bool(true));
    assert BindOne(AsWritten, Flag, args) == Err(TypeError("validate"));
    assert BindOne(WithHandler, Flag, args) == Ok(Bool(true));
    var decls := [Flag];
    assert decls[0].key == "flag";
    assert Keys(decls) == {"flag"};
    assert LastOfKey(decls, 0);
    var r := Bind(WithHandler, decls, args);
    assert r.Ok? && r.value.Keys == {"flag"};
    assert r.value["flag"] == Bool(true);
    assert r.value == map["flag" := Bool(true)];
  }

  /** Request arguments that are not declared never reach the method. */
  lemma UndeclaredDropped(calling: Calling, decls: seq<Declaration>, arguments: map<string, Value>, k: string)
    requires Bind(calling, decls, arguments).Ok?
    requires forall i :: 0 <= i < |decls| ==> decls[i].key != k
    ensures k !in Bind(calling, decls, arguments).value
  {
  }

  // -------------------------------------------------------- the arguments

  /** Every item is a string. */
  predicate AllStrings(items: seq<Value>)
  {
    forall i :: 0 <= i < |items| ==> items[i].Str?
  }

  function Strs(items: seq<Value>): (r: seq<string>)
    requires AllStrings(items)
    ensures |r| == |items| && forall i :: 0 <= i < |r| ==> r[i] == items[i].s
  {
    seq(|items|, i requires 0 <= i < |items| => items[i].s)
  }

  /** One request argument for GET: a list becomes its items joined with commas. */
  function FlattenArgument(v: Value): Value
    requires v.List? ==> AllStrings(v.items)
  {
    if v.List? then Str(Join(Strs(v.items), ",")) else v
  }

  /**
   * The GET branch of `_fetch_arguments`. `','.join` raises `TypeError` for
   * a list holding anything but strings.
   */
  function FetchGet(arguments: map<string, Value>): (r: Result<map<string, Value>>)
    ensures r.Ok? <==> forall k :: k in arguments && arguments[k].List? ==> AllStrings(arguments[k].items)
    ensures r.Err? ==> r.error == TypeError("join")
    ensures r.Ok? ==> r.value.Keys == arguments.Keys
    ensures r.Ok? ==> forall k :: k in arguments && !arguments[k].List? ==> r.value[k] == arguments[k]
    ensures r.Ok? ==> forall k :: k in arguments && arguments[k].List? ==>
                        AllStrings(arguments[k].items) && r.value[k] == Str(Join(Strs(arguments[k].items), ","))
  {
    if exists k :: k in arguments && arguments[k].List? && !AllStrings(arguments[k].items) then
      Err(TypeError("join"))
    else
      Ok(map k | k in arguments :: FlattenArgument(arguments[k]))
  }

  /**
   * The joining is undone by splitting at the commas, as the comment in the
   * source promises, for non-empty lists whose strings hold no comma.
   */
  lemma FetchGetSplits(arguments: map<string, Value>, k: string)
    requires FetchGet(arguments).Ok?
    requires k in arguments && arguments[k].List? && arguments[k].items != []
    requires forall i :: 0 <= i < |arguments[k].items| ==> ',' !in arguments[k].items[i].s
    ensures Split(FetchGet(arguments).value[k].s, ',') == Strs(arguments[k].items)
  {
    var items := arguments[k].items;
    SplitJoin(Strs(items), ',');
  }

  /** `ids=1&ids=2` becomes `'1,2'`, an empty list the empty string, and a list holding a number fails. */
  lemma FetchGetExamples()
    ensures FetchGet(map["ids" := List([Str("1"), Str("2")]), "q" := Int(3)]) == Ok(map["ids" := Str("1,2"), "q" := Int(3)])
    ensures FetchGet(map["ids" := List([])]) == Ok(map["ids" := Str("")])
    ensures FetchGet(map["ids" := List([Int(1)])]) == Err(TypeError("join"))
  {
    var two := map["ids" := List([Str("1"), Str("2")]), "q" := Int(3)];
    assert Strs([Str("1"), Str("2")]) == ["1", "2"];
    assert Join(["1", "2"], ",") == "1,2" by {
      assert ["1", "2"][1..] == ["2"];
    }
    var r := FetchGet(two);
    assert r.Ok? && r.value.Keys == {"ids", "q"};
    assert r.value == map["ids" := Str("1,2"), "q" := Int(3)];
    var none := map["ids" := List([])];
    assert FetchGet(none).value == map["ids" := Str("")];
    var bad := map["ids" := List([Int(1)])];
    assert bad["ids"].items[0] == Int(1);
    assert !AllStrings(bad["ids"].items);
  }

  /**
   * `_fetch_arguments`: a GET reads the query arguments; every other method
   * reads `get_post_arguments()`, given here as `postArguments`.
   */
  function FetchArguments(methodName: string, requestArguments: map<string, Value>, postArguments: map<string, Value>)
    : (r: Result<map<string, Value>>)
    ensures r.Err? ==> methodName == "get" && r.error == TypeError("join")
    ensures methodName != "get" ==> r == Ok(postArguments)
    ensures methodName == "get" && r.Ok? ==> r.value.Keys == requestArguments.Keys
  {
    if methodName == "get" then FetchGet(requestArguments) else Ok(postArguments)
  }

  /**
   * `call`: the arguments are fetched for the method's HTTP verb, bound to
   * the declarations, and the method runs with the positional arguments it
   * was called with and the bound keywords, or not at all. The method is
   * given as the function from those to its result; `self` is implicit.
   */
  function Call(calling: Calling, decls: seq<Declaration>, methodName: string, requestArguments: map<string, Value>,
                postArguments: map<string, Value>, positional: seq<Value>,
                handlerMethod: (seq<Value>, map<string, Value>) -> Value)
    : (r: Result<Value>)
    ensures r.Err? <==>
              || FetchArguments(methodName, requestArguments, postArguments).Err?
              || Bind(calling, decls, FetchArguments(methodName, requestArguments, postArguments).value).Err?
    ensures FetchArguments(methodName, requestArguments, postArguments).Err? ==>
              r.Err? && r.error == FetchArguments(methodName, requestArguments, postArguments).error
    ensures r.Ok? ==>
              r.value == handlerMethod(positional, Bind(calling, decls, FetchArguments(methodName, requestArguments, postArguments).value).value)
  {
    var arguments :- FetchArguments(methodName, requestArguments, postArguments);
    var kwargs :- Bind(calling, decls, arguments);
    Ok(handlerMethod(positional, kwargs))
  }

  /**
   * A GET whose `ids` list holds a number fails in the join, before any
   * binding, so the method never runs; `ids=1&ids=2` reaches it as `'1,2'`.
   */
  lemma CallFetchesFirst(calling: Calling, handlerMethod: (seq<Value>, map<string, Value>) -> Value)
    ensures Call(calling, [Declaration("ids", NoProperties)], "get", map["ids" := List([Int(1)])], map[], [], handlerMethod)
            == Err(TypeError("join"))
    ensures Call(calling, [Declaration("ids", NoProperties)], "get", map["ids" := List([Str("1"), Str("2")])], map[], [], handlerMethod)
            == Ok(handlerMethod([], map["ids" := Str("1,2")]))
  {
    var bad := map["ids" := List([Int(1)])];
    assert bad["ids"].items[0] == Int(1);
    assert !AllStrings(bad["ids"].items);
    var two := map["ids" := List([Str("1"), Str("2")])];
    assert Join(["1", "2"], ",") == "1,2" by {
      assert ["1", "2"][1..] == ["2"];
    }
    assert Strs([Str("1"), Str("2")]) == ["1", "2"];
    var fetched := FetchArguments("get", two, map[]);
    assert fetched.Ok? && fetched.value.Keys == {"ids"};
    assert fetched.value == map["ids" := Str("1,2")];
    var decls := [Declaration("ids", NoProperties)];
    assert decls[0].key == "ids";
    assert Keys(decls) == {"ids"};
    assert LastOfKey(decls, 0);
    var b := Bind(calling, decls, fetched.value);
    assert b.Ok? && b.value.Keys == {"ids"};
    assert b.value["ids"] == Str("1,2");
    assert b.value == map["ids" := Str("1,2")];
  }

  // ---------------------------------------------------------------- tests

  function Constant(v: Value): Value -> Result<Value>
  {
    _ => Ok(v)
  }

  /** Three validators returning `'bar'`, `'bat'` and `'baz'` in a chain give `'baz'`. */
  lemma ChainedConstants()
    ensures ApplyChain([Validating(Custom(Constant(Str("bar")))), Validating(Custom(Constant(Str("bat")))),
                        Validating(Custom(Constant(Str("baz"))))], Str("Foobar")) == Ok(Str("baz"))
  {
  }

  /** A parameter `foo` declared with the source's test properties. */
  function Foo(required: bool, default: Value): Declaration
  {
    Declaration("foo", Properties(OneValidator(Custom(Constant(Str("bar")))), Bool(required), default))
  }

  /**
   * An optional `foo` without a request value is None, or its default 42; a
   * required one refuses the call; with `foo=Foobar` it is the validator's
   * `'bar'`, and an extra argument is dropped.
   */
  lemma BindingExamples(calling: Calling)
    ensures Bind(calling, [Foo(false, Null)], map[]) == Ok(map["foo" := Null])
    ensures Bind(calling, [Foo(false, Int(42))], map[]) == Ok(map["foo" := Int(42)])
    ensures Bind(calling, [Foo(true, Null)], map[]) == Err(HttpError(400, Some("Missing required parameter: foo")))
    ensures Bind(calling, [Foo(true, Null)], map["foo" := Str("Foobar"), "extra" := Str("Do Not Want")])
            == Ok(map["foo" := Str("bar")])
  {
    assert "Missing required parameter: " + "foo" == "Missing required parameter: foo";
    var one := [Foo(true, Null)];
    var args := map["foo" := Str("Foobar"), "extra" := Str("Do Not Want")];
    assert one[0].key == "foo";
    assert Keys(one) == {"foo"};
    var r := Bind(calling, one, args);
    assert LastOfKey(one, 0);
    assert r.value.Keys == {"foo"};
    assert r.value == map["foo" := Str("bar")];
  }
}
