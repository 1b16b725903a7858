/**
 * The Python values the dependency-injection engine handles: configuration
 * data (strings, numbers, lists, string-keyed dicts), the objects it
 * constructs, and the exceptions it raises.
 */
module Values {

  /** A Python value as it appears in a service configuration or an argument tree. */
  datatype Value =
    | Null                              // None
    | Bool(b: bool)
    | Int(i: int)
    | Str(s: string)
    | List(items: seq<Value>)
    | Dict(entries: map<string, Value>)
    | Obj(inst: Instance)               // an object the factory produced
    | Other(truth: bool)                // any other object, with its truth value

  /**
   * What dynamic import, attribute lookup and calls produce. Instead of
   * running code, the model records how each object came to be.
   */
  datatype Instance =
    | ModuleRef(mod: string)
    | ClassRef(mod: string, cls: string)
    | Built(mod: string, cls: string, args: seq<Value>, kwargs: map<string, Value>)
    | FactoryResult(source: Instance, methodName: string, args: seq<Value>, kwargs: map<string, Value>)

  /**
   * Python truthiness (`if x:`). The falsy values are exactly `None`,
   * `False`, zero, the empty string, list and dict, and the opaque values
   * that say so.
   */
  predicate Truthy(v: Value): (b: bool)
    ensures !b <==> v == Null || v == Bool(false) || v == Int(0) || v == Str("") || v == List([]) || v == Dict(map[]) || v == Other(false)
  {
    match v
    case Null => false
    case Bool(b) => b
    case Int(i) => i != 0
    case Str(s) => s != []
    case List(items) => items != []
    case Dict(m) => m != map[]
    case Obj(_) => true
    case Other(t) => t
  }

  /** Why `InvalidServiceConfiguration` was raised. */
  datatype ConfigProblem =
    | MissingModule
    | MissingClass(mod: Value)
    | ScalarNotFound(name: string)
    | CallWithoutMethod

  /** The exceptions of the modelled code. */
  datatype Error =
    | TypeError(what: string)
    | KeyError(key: string)
    | AttributeError(name: string)
    | ImportError(mod: string)
    | InvalidServiceConfiguration(problem: ConfigProblem)
    | UninstantiatedService
    | CircularDependency(path: seq<string>)
    | RecursionLimit
    | NoNewlyInstantiated
    | NoNodesRemoved
    | ValidationError(message: string)
    | NotImplemented
    | HttpError(status: int, logMessage: Option<string>)

  /** Either a value or the exception that was raised instead. */
  datatype Result<+T> = Ok(value: T) | Err(error: Error) {
    predicate IsFailure() { Err? }

    function PropagateFailure<U>(): Result<U>
      requires Err?
    {
      Err(error)
    }

    function Extract(): T
      requires Ok?
    {
      value
    }
  }

  datatype Option<+T> = None | Some(value: T)

  /** `d.get(key, default)`. */
  function GetOr(d: map<string, Value>, key: string, default: Value): Value
  {
    if key in d then d[key] else default
  }
}
