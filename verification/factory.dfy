/**
 * `ServiceFactory`: builds one service from its descriptor. It checks the
 * descriptor, imports the module, then either hands back the module or the
 * class (static services) or calls the class with the substituted
 * arguments, optionally replaces the object by a factory method's return
 * value, and finally runs the post-construction calls.
 *
 * Import and attribute lookup go through a `Catalogue`; the objects built
 * are `Instance` traces and every call into constructed code is logged as
 * an `Effect`.
 */
module Factory {
  import opened Values
  import opened References

  /** What `__import__` can import and which `(module, class)` pairs `getattr` finds. */
  datatype Catalogue = Catalogue(modules: set<string>, classes: set<(string, string)>)

  /** Built services by name. */
  type Registry = map<string, Instance>

  /** The factory's state: the scalar table and the services built so far. */
  datatype ServiceFactory = ServiceFactory(scalars: map<string, Value>, services: Registry)

  /** A call into constructed code. */
  datatype Effect =
    | Constructed(obj: Instance)
    | Called(target: Instance, methodName: string, args: seq<Value>, kwargs: map<string, Value>)

  /** An outcome together with the effects that already happened, also when it is an error. */
  datatype Run<+T> = Run(result: Result<T>, effects: seq<Effect>)

  /** The arguments of `create`, before its `None` defaults are applied. */
  datatype Descriptor = Descriptor(
    mod: Value,
    cls: Value,
    args: Value,
    kwargs: Value,
    factoryMethod: Value,
    factoryArgs: Value,
    factoryKwargs: Value,
    isStatic: Value,
    calls: Value)

  /** The exceptions `create` can raise. */
  predicate FactoryError(e: Error)
  {
    || e.TypeError? || e.KeyError? || e.AttributeError? || e.ImportError?
    || e.InvalidServiceConfiguration? || e.UninstantiatedService?
  }

  // ---------------------------------------------------------------- registry

  /** `add_instantiated_service`. */
  function AddInstantiatedService(f: ServiceFactory, name: string, obj: Instance): (g: ServiceFactory)
    ensures g.scalars == f.scalars
    ensures g.services.Keys == f.services.Keys + {name}
    ensures g.services[name] == obj
    ensures forall n :: n in f.services && n != name ==> g.services[n] == f.services[n]
  {
    f.(services := f.services[name := obj])
  }

  /** `get_instantiated_service`: an absent name raises `UninstantiatedServiceException`. */
  function GetInstantiatedService(f: ServiceFactory, name: string): (r: Result<Instance>)
    ensures r.Ok? <==> name in f.services
    ensures r.Ok? ==> r.value == f.services[name]
    ensures r.Err? ==> r.error == UninstantiatedService
  {
    if name in f.services then Ok(f.services[name]) else Err(UninstantiatedService)
  }

  /** Reading a name back after adding it gives the added object; other names are untouched. */
  lemma GetAfterAdd(f: ServiceFactory, name: string, obj: Instance, other: string)
    ensures GetInstantiatedService(AddInstantiatedService(f, name, obj), other)
            == if other == name then Ok(obj) else GetInstantiatedService(f, other)
  {
  }

  /** `get_scalar_value`: an absent name raises `InvalidServiceConfiguration` naming it. */
  function GetScalarValue(f: ServiceFactory, name: string): (r: Result<Value>)
    ensures r.Ok? <==> name in f.scalars
    ensures r.Ok? ==> r.value == f.scalars[name]
    ensures r.Err? ==> r.error == InvalidServiceConfiguration(ScalarNotFound(name))
  {
    if name in f.scalars then Ok(f.scalars[name]) else Err(InvalidServiceConfiguration(ScalarNotFound(name)))
  }

  /** Two absent scalars are reported differently. */
  lemma ScalarErrorNamesTheScalar(f: ServiceFactory, a: string, b: string)
    requires a !in f.scalars && b !in f.scalars
    ensures GetScalarValue(f, a) == GetScalarValue(f, b) <==> a == b
  {
  }

  /**
   * The scalar a failed scalar pass reports: one that the arguments refer to
   * and that is not defined, taken from the positional arguments when they
   * refer to one. Which of several the source meets first depends on the
   * iteration order of the dictionaries involved, which is left open.
   */
  ghost function MissingScalar(scalars: map<string, Value>, args: seq<Value>, kwargs: map<string, Value>): (name: string)
    requires !(RefNames(List(args), ScalarSigil) + RefNames(Dict(kwargs), ScalarSigil) <= scalars.Keys)
    ensures name in RefNames(List(args), ScalarSigil) + RefNames(Dict(kwargs), ScalarSigil) && name !in scalars
    ensures !(RefNames(List(args), ScalarSigil) <= scalars.Keys) ==> name in RefNames(List(args), ScalarSigil)
  {
    if !(RefNames(List(args), ScalarSigil) <= scalars.Keys) then
      var n :| n in RefNames(List(args), ScalarSigil) && n !in scalars; n
    else
      var n :| n in RefNames(Dict(kwargs), ScalarSigil) && n !in scalars; n
  }

  // ----------------------------------------------------------- substitution

  function ScalarTables(f: ServiceFactory): Tables
  {
    map[ScalarSigil := f.scalars]
  }

  function ServiceTables(f: ServiceFactory): Tables
  {
    map[ServiceSigil := map n | n in f.services :: Obj(f.services[n])]
  }

  /** `_replace_scalars_in_args` on the positional arguments, then `_replace_scalars_in_kwargs` on the keyed ones. */
  ghost function ReplaceScalars(f: ServiceFactory, args: seq<Value>, kwargs: map<string, Value>)
    : (r: Result<(seq<Value>, map<string, Value>)>)
    ensures r.Ok? <==> RefNames(List(args), ScalarSigil) + RefNames(Dict(kwargs), ScalarSigil) <= f.scalars.Keys
    ensures r.Err? ==> r.error == InvalidServiceConfiguration(ScalarNotFound(MissingScalar(f.scalars, args, kwargs)))
    ensures r.Ok? ==> RewritesTo(List(args), List(r.value.0), ScalarTables(f))
    ensures r.Ok? ==> RewritesTo(Dict(kwargs), Dict(r.value.1), ScalarTables(f))
  {
    match Rewrite(List(args), ScalarTables(f))
    case None => Err(InvalidServiceConfiguration(ScalarNotFound(MissingScalar(f.scalars, args, kwargs))))
    case Some(a) =>
      match Rewrite(Dict(kwargs), ScalarTables(f))
      case None => Err(InvalidServiceConfiguration(ScalarNotFound(MissingScalar(f.scalars, args, kwargs))))
      case Some(k) => Ok((a.items, k.entries))
  }

  /**
   * `_replace_services_in_args` then `_replace_services_in_kwargs`: it
   * succeeds exactly when every `@` name is already built, and then no `@`
   * reference is left.
   */
  function ReplaceServices(f: ServiceFactory, args: seq<Value>, kwargs: map<string, Value>)
    : (r: Result<(seq<Value>, map<string, Value>)>)
    ensures r.Ok? <==> RefNames(List(args), ServiceSigil) + RefNames(Dict(kwargs), ServiceSigil) <= f.services.Keys
    ensures r.Err? ==> r.error == UninstantiatedService
    ensures r.Ok? ==> RewritesTo(List(args), List(r.value.0), ServiceTables(f))
    ensures r.Ok? ==> RewritesTo(Dict(kwargs), Dict(r.value.1), ServiceTables(f))
  {
    match Rewrite(List(args), ServiceTables(f))
    case None => Err(UninstantiatedService)
    case Some(a) =>
      match Rewrite(Dict(kwargs), ServiceTables(f))
      case None => Err(UninstantiatedService)
      case Some(k) => Ok((a.items, k.entries))
  }

  /** After the service pass no `@` reference is left in the arguments. */
  lemma ServicePassLeavesNoReferences(f: ServiceFactory, args: seq<Value>, kwargs: map<string, Value>)
    requires ReplaceServices(f, args, kwargs).Ok?
    ensures RefNames(List(ReplaceServices(f, args, kwargs).value.0), ServiceSigil) == {}
    ensures RefNames(Dict(ReplaceServices(f, args, kwargs).value.1), ServiceSigil) == {}
  {
    var p := ReplaceServices(f, args, kwargs).value;
    var t := ServiceTables(f);
    assert TableRefs(t, ServiceSigil) == {};
    RefNamesAfterRewrite(List(args), List(p.0), t, ServiceSigil);
    RefNamesAfterRewrite(Dict(kwargs), Dict(p.1), t, ServiceSigil);
  }

  /** The scalar table holds no `@` reference. */
  predicate ScalarsServiceFree(f: ServiceFactory)
  {
    forall n :: n in f.scalars ==> RefNames(f.scalars[n], ServiceSigil) == {}
  }

  /**
   * The constructor's two passes (scalars, then services over the result)
   * agree with one pass that resolves `$` and `@` side by side, as long as
   * no scalar value contains an `@` reference.
   */
  lemma TwoPassesAsOne(f: ServiceFactory, v: Value)
    requires ScalarsServiceFree(f)
    ensures (match Rewrite(v, ScalarTables(f))
             case None => None
             case Some(w) => Rewrite(w, ServiceTables(f)))
            == Rewrite(v, ScalarTables(f) + ServiceTables(f))
  {
    var both := ScalarTables(f) + ServiceTables(f);
    var st := ScalarTables(f);
    match Rewrite(v, st)
    case None =>
      assert !Resolvable(v, st);
      assert !Resolvable(v, both) by {
        var c :| c in st && !(RefNames(v, c) <= st[c].Keys);
        assert c == ScalarSigil && both[c] == st[c];
      }
    case Some(w) =>
      assert forall c, n :: c in st && n in st[c] ==> RefNames(st[c][n], ServiceSigil) == {};
      assert TableRefs(st, ServiceSigil) == {};
      RefNamesAfterRewrite(v, w, st, ServiceSigil);
      assert RefNames(w, ServiceSigil) == RefNames(v, ServiceSigil);
      match Rewrite(w, ServiceTables(f))
      case None =>
        assert !Resolvable(v, both) by {
          assert both[ServiceSigil] == ServiceTables(f)[ServiceSigil];
        }
      case Some(u) =>
        ComposeRewrites(v, w, u, f);
        RewritesToUnique(v, u, both);
  }

  lemma {:induction false} ComposeRewrites(v: Value, w: Value, u: Value, f: ServiceFactory)
    requires ScalarsServiceFree(f)
    requires RewritesTo(v, w, ScalarTables(f))
    requires RewritesTo(w, u, ServiceTables(f))
    ensures RewritesTo(v, u, ScalarTables(f) + ServiceTables(f))
    decreases v
  {
    var both := ScalarTables(f) + ServiceTables(f);
    match v
    case Str(s) =>
      if |s| > 0 && s[0] == ScalarSigil {
        RewriteWithoutReferences(w, ServiceTables(f));
        RewritesToUnique(w, u, ServiceTables(f));
      }
    case List(items) =>
      forall i | 0 <= i < |items|
        ensures RewritesTo(items[i], u.items[i], both)
      {
        ComposeRewrites(items[i], w.items[i], u.items[i], f);
      }
    case Dict(m) =>
      forall k | k in m
        ensures RewritesTo(m[k], u.entries[k], both)
      {
        ComposeRewrites(m[k], w.entries[k], u.entries[k], f);
      }
    case _ =>
  }

  /**
   * Where the two orders part: a scalar whose value is an `@` string is
   * resolved again as a service by the constructor's second pass, while a
   * single pass would keep the string.
   */
  lemma ScalarNamingAServiceIsResolved(obj: Instance)
    ensures var f := ServiceFactory(map["x" := Str("@y")], map["y" := obj]);
            && Rewrite(Str("$x"), ScalarTables(f)) == Some(Str("@y"))
            && Rewrite(Str("@y"), ServiceTables(f)) == Some(Obj(obj))
            && Rewrite(Str("$x"), ScalarTables(f) + ServiceTables(f)) == Some(Str("@y"))
  {
    assert "$x"[1..] == "x" && "@y"[1..] == "y";
  }

  // ------------------------------------------------------------ create steps

  /** `_verify_create_args`: a module is required, and a class unless the service is static. */
  function VerifyCreateArgs(mod: Value, cls: Value, isStatic: Value): (r: Result<()>)
    ensures r.Ok? <==> mod != Null && (Truthy(isStatic) || cls != Null)
    ensures mod == Null ==> r == Err(InvalidServiceConfiguration(MissingModule))
    ensures mod != Null && r.Err? ==> r == Err(InvalidServiceConfiguration(MissingClass(mod)))
  {
    if mod == Null then Err(InvalidServiceConfiguration(MissingModule))
    else if !Truthy(isStatic) && cls == Null then Err(InvalidServiceConfiguration(MissingClass(mod)))
    else Ok(())
  }

  /** `_import_module`: a module name that is not a string has no `rfind`. */
  function ImportModule(cat: Catalogue, mod: Value): (r: Result<string>)
    ensures r.Ok? <==> mod.Str? && mod.s in cat.modules
    ensures r.Ok? ==> r.value == mod.s
  {
    match mod
    case Str(m) => if m in cat.modules then Ok(m) else Err(ImportError(m))
    case _ => Err(AttributeError("rfind"))
  }

  /** `getattr(module, class_name)`. */
  function GetClass(cat: Catalogue, m: string, cls: Value): (r: Result<string>)
    ensures r.Ok? <==> cls.Str? && (m, cls.s) in cat.classes
    ensures r.Ok? ==> r.value == cls.s
  {
    match cls
    case Str(c) => if (m, c) in cat.classes then Ok(c) else Err(AttributeError(c))
    case _ => Err(TypeError("attribute name"))
  }

  /**
   * `_instantiate`: after the type checks, a static service is its module
   * (no class) or its class object; otherwise the class is called with the
   * arguments after the scalar pass and then the service pass.
   */
  ghost function Instantiate(f: ServiceFactory, cat: Catalogue, m: string, cls: Value, args: Value, kwargs: Value, isStatic: Value)
    : (r: Result<Instance>)
    ensures r.Err? ==> FactoryError(r.error)
    ensures !args.List? ==> r == Err(TypeError("args"))
    ensures args.List? && !kwargs.Dict? ==> r == Err(TypeError("kwargs"))
    ensures r.Ok? && Truthy(isStatic) ==>
      (cls == Null && r.value == ModuleRef(m)) || (cls.Str? && r.value == ClassRef(m, cls.s))
    ensures r.Ok? && !Truthy(isStatic) ==>
      && r.value.Built? && r.value.mod == m && cls == Str(r.value.cls)
      && exists a, k ::
           && RewritesTo(args, List(a), ScalarTables(f)) && RewritesTo(kwargs, Dict(k), ScalarTables(f))
           && RewritesTo(List(a), List(r.value.args), ServiceTables(f))
           && RewritesTo(Dict(k), Dict(r.value.kwargs), ServiceTables(f))
  {
    if !args.List? then Err(TypeError("args"))
    else if !kwargs.Dict? then Err(TypeError("kwargs"))
    else if Truthy(isStatic) && cls == Null then Ok(ModuleRef(m))
    else
      var c :- GetClass(cat, m, cls);
      if Truthy(isStatic) then Ok(ClassRef(m, c))
      else
        var scalars :- ReplaceScalars(f, args.items, kwargs.entries);
        var services :- ReplaceServices(f, scalars.0, scalars.1);
        Ok(Built(m, c, services.0, services.1))
  }

  /** A `None` argument of `create` stands for its default. */
  function OrDefault(v: Value, default: Value): Value
  {
    if v == Null then default else v
  }

  /**
   * `_handle_factory_method`: only the scalar pass runs over the factory
   * arguments; the method's return value is the new object.
   */
  ghost function HandleFactoryMethod(f: ServiceFactory, obj: Instance, methodName: Value, args: Value, kwargs: Value)
    : (r: Result<Instance>)
    ensures r.Err? ==> FactoryError(r.error) && r.error != UninstantiatedService
    ensures r.Ok? ==>
      && methodName.Str?
      && r.value.FactoryResult? && r.value.source == obj && r.value.methodName == methodName.s
      && RewritesTo(OrDefault(args, List([])), List(r.value.args), ScalarTables(f))
      && RewritesTo(OrDefault(kwargs, Dict(map[])), Dict(r.value.kwargs), ScalarTables(f))
  {
    var a := OrDefault(args, List([]));
    var k := OrDefault(kwargs, Dict(map[]));
    if !a.List? then Err(TypeError("args"))
    else if !k.Dict? then Err(TypeError("kwargs"))
    else
      var scalars :- ReplaceScalars(f, a.items, k.entries);
      if !methodName.Str? then Err(TypeError("attribute name"))
      else Ok(FactoryResult(obj, methodName.s, scalars.0, scalars.1))
  }

  /**
   * One iteration of `_handle_calls`: read the call's fields, check their
   * types, insist on a method, substitute scalars and call the method.
   */
  ghost function CallStep(f: ServiceFactory, obj: Instance, call: Value): (r: Result<Effect>)
    ensures r.Err? ==> FactoryError(r.error) && r.error != UninstantiatedService
    ensures r.Ok? ==> call.Dict? && "method" in call.entries && call.entries["method"].Str?
    ensures r.Ok? ==> r.value.Called? && r.value.target == obj && r.value.methodName == call.entries["method"].s
    ensures r.Ok? ==>
      && RewritesTo(GetOr(call.entries, "args", List([])), List(r.value.args), ScalarTables(f))
      && RewritesTo(GetOr(call.entries, "kwargs", Dict(map[])), Dict(r.value.kwargs), ScalarTables(f))
    ensures (&& call.Dict? && "method" !in call.entries
             && GetOr(call.entries, "args", List([])).List? && GetOr(call.entries, "kwargs", Dict(map[])).Dict?)
            ==> r == Err(InvalidServiceConfiguration(CallWithoutMethod))
  {
    if !call.Dict? then Err(AttributeError("get"))
    else
      var methodName := GetOr(call.entries, "method", Null);
      var args := GetOr(call.entries, "args", List([]));
      var kwargs := GetOr(call.entries, "kwargs", Dict(map[]));
      if !args.List? then Err(TypeError("args"))
      else if !kwargs.Dict? then Err(TypeError("kwargs"))
      else if methodName == Null then Err(InvalidServiceConfiguration(CallWithoutMethod))
      else
        var scalars :- ReplaceScalars(f, args.items, kwargs.entries);
        if !methodName.Str? then Err(TypeError("attribute name"))
        else Ok(Called(obj, methodName.s, scalars.0, scalars.1))
  }

  /**
   * `_handle_calls`: the calls run in list order on `obj`; when one fails,
   * the ones before it have already run.
   */
  ghost function HandleCalls(f: ServiceFactory, obj: Instance, calls: seq<Value>): (r: Run<()>)
    ensures r.result.Ok? ==> |r.effects| == |calls|
    ensures r.result.Err? ==> |r.effects| < |calls| && CallStep(f, obj, calls[|r.effects|]) == Err(r.result.error)
    ensures forall i :: 0 <= i < |r.effects| ==> i < |calls| && CallStep(f, obj, calls[i]) == Ok(r.effects[i])
  {
    if calls == [] then Run(Ok(()), [])
    else
      match CallStep(f, obj, calls[0])
      case Err(e) => Run(Err(e), [])
      case Ok(effect) =>
        var rest := HandleCalls(f, obj, calls[1..]);
        Run(rest.result, [effect] + rest.effects)
  }

  /** The factory method (if any) and the calls (if a list), on the object `_instantiate` produced. */
  ghost function FinishCreate(f: ServiceFactory, obj: Instance, d: Descriptor): (r: Run<Instance>)
    ensures r.result.Err? ==> FactoryError(r.result.error) && r.result.error != UninstantiatedService
  {
    var built := if obj.Built? then [Constructed(obj)] else [];
    if d.factoryMethod != Null then
      match HandleFactoryMethod(f, obj, d.factoryMethod, d.factoryArgs, d.factoryKwargs)
      case Err(e) => Run(Err(e), built)
      case Ok(product) =>
        var effects := built + [Called(obj, product.methodName, product.args, product.kwargs)];
        RunCalls(f, product, d.calls, effects)
    else
      RunCalls(f, obj, d.calls, built)
  }

  /** `calls` is ignored unless it is a list. */
  ghost function RunCalls(f: ServiceFactory, obj: Instance, calls: Value, before: seq<Effect>): (r: Run<Instance>)
    ensures r.result.Err? ==> FactoryError(r.result.error) && r.result.error != UninstantiatedService
    ensures !calls.List? ==> r == Run(Ok(obj), before)
    ensures r.result.Ok? ==> r.result.value == obj
    ensures |before| <= |r.effects| && r.effects[..|before|] == before
  {
    if calls.List? then
      var done := HandleCalls(f, obj, calls.items);
      match done.result
      case Ok(_) => Run(Ok(obj), before + done.effects)
      case Err(e) => Run(Err(e), before + done.effects)
    else Run(Ok(obj), before)
  }

  /** `create`. */
  ghost function Create(f: ServiceFactory, cat: Catalogue, d: Descriptor): (r: Run<Instance>)
    ensures r.result.Err? ==> FactoryError(r.result.error)
    ensures VerifyCreateArgs(d.mod, d.cls, d.isStatic).Err? ==> r == Run(VerifyCreateArgs(d.mod, d.cls, d.isStatic).PropagateFailure(), [])
    ensures r.result.Ok? ==> d.mod.Str? && d.mod.s in cat.modules
  {
    match VerifyCreateArgs(d.mod, d.cls, d.isStatic)
    case Err(e) => Run(Err(e), [])
    case Ok(_) =>
      match ImportModule(cat, d.mod)
      case Err(e) => Run(Err(e), [])
      case Ok(m) =>
        match Instantiate(f, cat, m, d.cls, OrDefault(d.args, List([])), OrDefault(d.kwargs, Dict(map[])), d.isStatic)
        case Err(e) => Run(Err(e), [])
        case Ok(obj) => FinishCreate(f, obj, d)
  }

  /** `create_from_dict`: absent optional keys take their defaults, but `module` and `class` must be present. */
  function FromDict(dict: map<string, Value>): (r: Result<Descriptor>)
    ensures r.Ok? <==> "module" in dict && "class" in dict
    ensures "module" !in dict ==> r == Err(KeyError("module"))
    ensures "module" in dict && "class" !in dict ==> r == Err(KeyError("class"))
  {
    if "module" !in dict then Err(KeyError("module"))
    else if "class" !in dict then Err(KeyError("class"))
    else Ok(Descriptor(
      mod := dict["module"],
      cls := dict["class"],
      args := GetOr(dict, "args", List([])),
      kwargs := GetOr(dict, "kwargs", Dict(map[])),
      factoryMethod := GetOr(dict, "factory-method", Null),
      factoryArgs := GetOr(dict, "factory-args", List([])),
      factoryKwargs := GetOr(dict, "factory-kwargs", Dict(map[])),
      isStatic := GetOr(dict, "static", Bool(false)),
      calls := GetOr(dict, "calls", Null)))
  }

  ghost function CreateFromDict(f: ServiceFactory, cat: Catalogue, dict: map<string, Value>): (r: Run<Instance>)
    ensures r.result.Err? ==> FactoryError(r.result.error)
    ensures FromDict(dict).Err? ==> r == Run(FromDict(dict).PropagateFailure(), [])
  {
    match FromDict(dict)
    case Err(e) => Run(Err(e), [])
    case Ok(d) => Create(f, cat, d)
  }

  // ------------------------------------------------------------------ lemmas

  /**
   * A rejected descriptor fails before anything is imported or built: the
   * outcome depends on neither the catalogue nor the factory's state, and no
   * effect happens.
   */
  lemma RejectedBeforeImport(f: ServiceFactory, g: ServiceFactory, cat: Catalogue, cat': Catalogue, d: Descriptor)
    requires d.mod == Null || (!Truthy(d.isStatic) && d.cls == Null)
    ensures Create(f, cat, d) == Create(g, cat', d)
    ensures Create(f, cat, d).effects == []
    ensures Create(f, cat, d).result.Err? && Create(f, cat, d).result.error.InvalidServiceConfiguration?
  {
  }

  /**
   * A static service is its module (no class) or its class object: nothing
   * is constructed, nothing is substituted (the outcome does not depend on
   * the scalars or the built services) and no effect happens.
   */
  lemma StaticService(f: ServiceFactory, g: ServiceFactory, cat: Catalogue, d: Descriptor)
    requires Truthy(d.isStatic) && d.mod.Str? && d.mod.s in cat.modules
    requires OrDefault(d.args, List([])).List? && OrDefault(d.kwargs, Dict(map[])).Dict?
    requires d.factoryMethod == Null && !d.calls.List?
    requires d.cls == Null || (d.cls.Str? && (d.mod.s, d.cls.s) in cat.classes)
    ensures Create(f, cat, d) == Create(g, cat, d)
    ensures Create(f, cat, d).effects == []
    ensures d.cls == Null ==> Create(f, cat, d).result == Ok(ModuleRef(d.mod.s))
    ensures d.cls != Null ==> Create(f, cat, d).result == Ok(ClassRef(d.mod.s, d.cls.s))
  {
  }

  /**
   * The factory-method and post-construction steps resolve scalars only:
   * they give the same outcome whatever services are built.
   */
  lemma FactoryAndCallsIgnoreServices(f: ServiceFactory, g: ServiceFactory, obj: Instance, d: Descriptor)
    requires f.scalars == g.scalars
    ensures HandleFactoryMethod(f, obj, d.factoryMethod, d.factoryArgs, d.factoryKwargs)
            == HandleFactoryMethod(g, obj, d.factoryMethod, d.factoryArgs, d.factoryKwargs)
    ensures d.calls.List? ==> HandleCalls(f, obj, d.calls.items) == HandleCalls(g, obj, d.calls.items)
  {
    FactoryMethodIgnoresServices(f, g, obj, d.factoryMethod, d.factoryArgs, d.factoryKwargs);
    if d.calls.List? {
      CallsIgnoreServices(f, g, obj, d.calls.items);
    }
  }

  lemma FactoryMethodIgnoresServices(f: ServiceFactory, g: ServiceFactory, obj: Instance, methodName: Value, args: Value, kwargs: Value)
    requires f.scalars == g.scalars
    ensures HandleFactoryMethod(f, obj, methodName, args, kwargs) == HandleFactoryMethod(g, obj, methodName, args, kwargs)
  {
    var a := OrDefault(args, List([]));
    var k := OrDefault(kwargs, Dict(map[]));
    if a.List? && k.Dict? {
      assert ScalarTables(f) == ScalarTables(g);
      assert ReplaceScalars(f, a.items, k.entries) == ReplaceScalars(g, a.items, k.entries);
    }
  }

  lemma {:induction false} CallsIgnoreServices(f: ServiceFactory, g: ServiceFactory, obj: Instance, calls: seq<Value>)
    requires f.scalars == g.scalars
    ensures HandleCalls(f, obj, calls) == HandleCalls(g, obj, calls)
    decreases |calls|
  {
    assert ScalarTables(f) == ScalarTables(g);
    if calls != [] {
      assert CallStep(f, obj, calls[0]) == CallStep(g, obj, calls[0]);
      CallsIgnoreServices(f, g, obj, calls[1..]);
    }
  }

  /**
   * With a factory method and a list of calls, a successful `create`
   * returns the factory method's product, and the last effects are the
   * calls, in list order, each on that product.
   */
  lemma FactoryProductReceivesCalls(f: ServiceFactory, cat: Catalogue, d: Descriptor)
    requires Create(f, cat, d).result.Ok?
    requires d.factoryMethod != Null && d.calls.List?
    ensures ProductReceivesCalls(f, d, Create(f, cat, d))
  {
    var obj := CreateFinishes(f, cat, d);
    FinishWithFactory(f, obj, d, Create(f, cat, d));
  }

  /**
   * The run returned the product of the factory method named by `d`, and
   * its log ends with that method's call, then one entry per configured
   * call, in list order, each on the product.
   */
  ghost predicate ProductReceivesCalls(f: ServiceFactory, d: Descriptor, r: Run<Instance>)
  {
    var calls := if d.calls.List? then d.calls.items else [];
    && r.result.Ok? && d.factoryMethod.Str?
    && r.result.value.FactoryResult?
    && r.result.value.methodName == d.factoryMethod.s
    && |calls| < |r.effects|
    && r.effects[|r.effects| - |calls| - 1]
       == Called(r.result.value.source, r.result.value.methodName, r.result.value.args, r.result.value.kwargs)
    && forall i :: 0 <= i < |calls| ==>
         CallStep(f, r.result.value, calls[i]) == Ok(r.effects[|r.effects| - |calls| + i])
  }

  /** A successful `create` passed its checks and the import, and the rest is `FinishCreate` on the object `_instantiate` returned. */
  lemma CreateFinishes(f: ServiceFactory, cat: Catalogue, d: Descriptor) returns (obj: Instance)
    requires Create(f, cat, d).result.Ok?
    ensures Create(f, cat, d) == FinishCreate(f, obj, d)
  {
    var m := ImportModule(cat, d.mod).value;
    obj := Instantiate(f, cat, m, d.cls, OrDefault(d.args, List([])), OrDefault(d.kwargs, Dict(map[])), d.isStatic).value;
  }

  /** The stages after `_instantiate`, with a factory method and a list of calls. */
  lemma FinishWithFactory(f: ServiceFactory, obj: Instance, d: Descriptor, r: Run<Instance>)
    requires r == FinishCreate(f, obj, d) && r.result.Ok?
    requires d.factoryMethod != Null && d.calls.List?
    ensures HandleFactoryMethod(f, obj, d.factoryMethod, d.factoryArgs, d.factoryKwargs) == Ok(r.result.value)
    ensures ProductReceivesCalls(f, d, r)
  {
    var calls := d.calls.items;
    var made := HandleFactoryMethod(f, obj, d.factoryMethod, d.factoryArgs, d.factoryKwargs);
    assert made.Ok?;
    var product := made.value;
    var built := if obj.Built? then [Constructed(obj)] else [];
    var call := Called(obj, product.methodName, product.args, product.kwargs);
    var done := HandleCalls(f, product, calls);
    assert r == RunCalls(f, product, d.calls, built + [call]);
    assert done.result.Ok? && r.result.value == product;
    assert r.effects == built + [call] + done.effects;
    LogEndsWith(built, call, done.effects, |calls|);
    assert r.effects[|r.effects| - |calls| - 1] == Called(product.source, product.methodName, product.args, product.kwargs);
    forall i | 0 <= i < |calls|
      ensures CallStep(f, product, calls[i]) == Ok(r.effects[|r.effects| - |calls| + i])
    {
      assert r.effects[|r.effects| - |calls| + i] == done.effects[i];
    }
  }

  /** Where the last entries of a log sit, counted from its end. */
  lemma LogEndsWith(before: seq<Effect>, last: Effect, tail: seq<Effect>, n: nat)
    requires |tail| == n
    ensures var e := before + [last] + tail;
            && n < |e| && e[|e| - n - 1] == last
            && forall i :: 0 <= i < n ==> e[|e| - n + i] == tail[i]
  {
  }

  /**
   * A service that is neither static nor made by a factory method is the
   * object `_instantiate` built by calling its class: the first effect is
   * that construction, and the calls, when a list, follow in order on it.
   */
  lemma ConstructedService(f: ServiceFactory, cat: Catalogue, d: Descriptor)
    requires Create(f, cat, d).result.Ok?
    requires !Truthy(d.isStatic) && d.factoryMethod == Null
    ensures var r := Create(f, cat, d);
            var obj := r.result.value;
            && d.mod.Str?
            && obj == Instantiate(f, cat, d.mod.s, d.cls, OrDefault(d.args, List([])), OrDefault(d.kwargs, Dict(map[])), d.isStatic).value
            && obj.Built? && obj.mod == d.mod.s && d.cls == Str(obj.cls)
            && |r.effects| > 0 && r.effects[0] == Constructed(obj)
            && (!d.calls.List? ==> r.effects == [Constructed(obj)])
            && (d.calls.List? ==>
                  && |r.effects| == 1 + |d.calls.items|
                  && forall i :: 0 <= i < |d.calls.items| ==> CallStep(f, obj, d.calls.items[i]) == Ok(r.effects[1 + i]))
  {
    var m := ImportModule(cat, d.mod).value;
    var obj := Instantiate(f, cat, m, d.cls, OrDefault(d.args, List([])), OrDefault(d.kwargs, Dict(map[])), d.isStatic).value;
    assert Create(f, cat, d) == FinishCreate(f, obj, d);
    assert FinishCreate(f, obj, d) == RunCalls(f, obj, d.calls, [Constructed(obj)]);
    if d.calls.List? {
      var done := HandleCalls(f, obj, d.calls.items);
      assert done.result.Ok?;
      assert RunCalls(f, obj, d.calls, [Constructed(obj)]).effects == [Constructed(obj)] + done.effects;
    }
  }

  /**
   * A call without `method` raises only after the calls before it ran: the
   * first call is logged, then the second one fails.
   */
  lemma CallWithoutMethodAfterEarlierCalls(f: ServiceFactory, obj: Instance)
    ensures HandleCalls(f, obj, [Dict(map["method" := Str("set_ham")]), Dict(map[])])
            == Run(Err(InvalidServiceConfiguration(CallWithoutMethod)), [Called(obj, "set_ham", [], map[])])
  {
    var good := Dict(map["method" := Str("set_ham")]);
    assert RewritesTo(List([]), List([]), ScalarTables(f));
    RewritesToUnique(List([]), List([]), ScalarTables(f));
    assert RewritesTo(Dict(map[]), Dict(map[]), ScalarTables(f));
    RewritesToUnique(Dict(map[]), Dict(map[]), ScalarTables(f));
    assert CallStep(f, obj, good) == Ok(Called(obj, "set_ham", [], map[]));
    assert CallStep(f, obj, Dict(map[])) == Err(InvalidServiceConfiguration(CallWithoutMethod));
    var calls := [good, Dict(map[])];
    assert calls[1..] == [Dict(map[])];
    assert calls[1..][1..] == [];
  }

  /**
   * `create_from_dict` reads `class` unconditionally: a static service
   * without a `class` key fails, and one with `class: None` is its module.
   */
  lemma StaticNeedsExplicitClassKey(f: ServiceFactory, cat: Catalogue, m: string)
    requires m in cat.modules
    ensures CreateFromDict(f, cat, map["module" := Str(m), "static" := Bool(true)]).result == Err(KeyError("class"))
    ensures CreateFromDict(f, cat, map["module" := Str(m), "class" := Null, "static" := Bool(true)])
            == Run(Ok(ModuleRef(m)), [])
  {
  }

  /** The defaults `create_from_dict` fills in for absent keys. */
  lemma FromDictDefaults(m: Value, c: Value)
    ensures FromDict(map["module" := m, "class" := c])
            == Ok(Descriptor(m, c, List([]), Dict(map[]), Null, List([]), Dict(map[]), Bool(false), Null))
  {
  }

  /**
   * When every `@` name of the positional and keyword arguments is built
   * and no scalar value holds an `@` reference, `create` never raises
   * `UninstantiatedServiceException`.
   */
  lemma CreateFindsItsServices(f: ServiceFactory, cat: Catalogue, d: Descriptor)
    requires ScalarsServiceFree(f)
    requires RefNames(OrDefault(d.args, List([])), ServiceSigil) <= f.services.Keys
    requires RefNames(OrDefault(d.kwargs, Dict(map[])), ServiceSigil) <= f.services.Keys
    ensures Create(f, cat, d).result.Err? ==> Create(f, cat, d).result.error != UninstantiatedService
  {
    if VerifyCreateArgs(d.mod, d.cls, d.isStatic).Ok? && ImportModule(cat, d.mod).Ok? {
      InstantiateFindsItsServices(f, cat, d.mod.s, d.cls, OrDefault(d.args, List([])), OrDefault(d.kwargs, Dict(map[])), d.isStatic);
    }
  }

  lemma InstantiateFindsItsServices(f: ServiceFactory, cat: Catalogue, m: string, cls: Value, args: Value, kwargs: Value, isStatic: Value)
    requires ScalarsServiceFree(f)
    requires RefNames(args, ServiceSigil) + RefNames(kwargs, ServiceSigil) <= f.services.Keys
    ensures Instantiate(f, cat, m, cls, args, kwargs, isStatic).Err? ==>
              Instantiate(f, cat, m, cls, args, kwargs, isStatic).error != UninstantiatedService
  {
    if args.List? && kwargs.Dict? && !Truthy(isStatic) && GetClass(cat, m, cls).Ok? {
      var sc := ReplaceScalars(f, args.items, kwargs.entries);
      if sc.Ok? {
        var st := ScalarTables(f);
        assert forall c, n :: c in st && n in st[c] ==> RefNames(st[c][n], ServiceSigil) == {};
        assert TableRefs(st, ServiceSigil) == {};
        RefNamesAfterRewrite(args, List(sc.value.0), st, ServiceSigil);
        RefNamesAfterRewrite(kwargs, Dict(sc.value.1), st, ServiceSigil);
        assert ReplaceServices(f, sc.value.0, sc.value.1).Ok?;
      }
    }
  }
}
