# chassis dependency injection and parameter parsing, in Dafny

This project models the core of the `chassis` Tornado toolkit:

- the **dependency-injection engine**:
  - `ServiceFactory` builds one service from a descriptor: module, class,
    arguments, factory method and post-construction calls. It substitutes
    `$name` scalar references and `@name` service references anywhere
    inside the arguments.
  - `Resolver` turns a configuration into a dependency graph and creates the
    services in rounds, each service after everything it depends on.
  - `detect_circle` walks the graph, returns a `DependencyTree` of the
    services, and raises `CircularDependencyException` on a cycle.
- the **parameter layer**:
  - the `Boolean` and `String` validators and the `fail` they share;
  - the validator chain a declared parameter runs through;
  - the binding of declared parameters to keyword arguments: required
    parameters, defaults, and dropping undeclared arguments;
  - the flattening of a GET request's list-valued arguments.

Modules, one per file, following the source:

| module | file | models |
|---|---|---|
| `Values` | values.dfy | Python values, constructed objects, the exceptions, `Result`/`Option` |
| `Strings` | strings.dfy | `join`, its inverse `split`, ASCII `lower` |
| `Enumeration` | enumeration.dfy | the unspecified iteration order of a Python set or dict |
| `References` | references.dfy | `is_dependency_name`, `is_arg_scalar`, `is_arg_service`, reference collection and substitution through nested lists and dicts |
| `Graph` | graph.dfy | `_init_nodes` and the dependency graph: closed graphs, walks, cycles, rankings |
| `Tree` | tree.dfy | `DependencyNode` and `DependencyTree` and their renderings |
| `Factory` | factory.dfy | `ServiceFactory` |
| `Scheduler` | scheduler.dfy | `Resolver.__init__`, `do` and `_do` |
| `Cycles` | cycles.dfy | `detect_circle` as written, and a corrected search over whole names |
| `Validators` | validators.dfy | `BaseValidator.fail`, `Boolean`, `String` |
| `Params` | params.dfy | `_apply_validator_chain`, the binding loop of `parse`, `_fetch_arguments` |

Iteration over a Python set or dict happens in an order the model leaves
open (`Enumeration.Enumerate`). Everything that follows such an order is
`ghost`, and the lemmas about it hold for whichever fixed order the
enumeration picks.

Side effects are not hidden: constructing an object, calling a factory
method and each post-construction call are appended to an effect log. The
log is kept even when a later step raises.

Some consequences of the code, modelled as written:

- `_instantiate` substitutes scalars first, then services over the result.
  A scalar whose value is an `@` string is therefore resolved as a service
  (`Factory.ScalarNamingAServiceIsResolved`).
- `_handle_calls` checks each call for `method` only when it reaches it, so
  a call without `method` raises after the earlier calls of the list have
  run (`Factory.CallWithoutMethodAfterEarlierCalls`).
- `do` on an empty graph returns `None`, not an empty registry.
- `_do` reads `config[name]` for every graph node.
- `_apply_validator_chain` calls `validate(value)`, while `Boolean` and
  `String` declare `validate(value, handler)`. The binding layer takes the
  way of calling as a parameter, `Params.Calling`: `AsWritten` is the code,
  under which a `Boolean` or `String` validator raises `TypeError`
  (`Params.BooleanParameter`); `WithHandler` passes the handler too. The
  two bind alike when every validator is a one-argument custom one
  (`Params.OneArgumentBindingsAgree`).

## Model

| member | source | states |
|---|---|---|
| Strings.SplitJoin | chassis/util/params.py:18-19 | splitting a comma join at commas gives the parts back, when there is at least one part and no part holds a comma |
| Strings.Lower | chassis/util/validators.py:43-44 | lowering keeps the length, turns each ASCII capital into its small letter and leaves every other character alone |
| Values.Truthy | chassis/util/params.py:79 | Python truthiness: the falsy values are exactly `None`, `False`, zero, the empty string, list and dict |
| Strings.JoinAppend | chassis/util/tree.py:57 | joining one more part adds the separator and that part at the end, for any number of earlier parts |
| Strings.LowerIdempotent | chassis/util/validators.py:43-44 | lowering an already lowered string changes nothing |
| References.IsArgScalar | chassis/services/dependency_injection/__init__.py:17-19 | a string is a scalar argument exactly when it is `$` followed by some name; no string is both a scalar and a service argument |
| References.IsArgService | chassis/services/dependency_injection/__init__.py:22-24 | a string is a service argument exactly when it is `@` followed by some name |
| References.IsDependencyName | chassis/services/dependency_injection/resolver.py:96-100 | a value is a dependency name exactly when it is a string made of `@` followed by some name; a non-string and the empty string are not |
| References.RefNamesAreLeaves | chassis/services/dependency_injection/resolver.py:195-226 | a name is collected as a reference exactly when sigil-plus-name is a string leaf of the value, at any depth of lists and dicts |
| References.Rewrite | chassis/services/dependency_injection/__init__.py:191-253 | substitution succeeds exactly when every referenced name is in its table; the result is the value with each reference leaf replaced by its table entry and every other leaf kept; lists keep their length and dicts their keys |
| References.RewritesToUnique | chassis/services/dependency_injection/__init__.py:191-253 | substitution is deterministic: any value the leaf-by-leaf relation allows is the one computed |
| References.RewriteWithoutReferences | chassis/services/dependency_injection/__init__.py:264-275 | a value holding no reference comes back unchanged |
| References.RefNamesAfterRewrite | chassis/services/dependency_injection/__init__.py:191-253 | after substitution, the references of a sigil come only from the table entries, or also from the value itself when the sigil is not substituted; references of a sigil that is not substituted all survive |
| Graph.DescriptorDependencies | chassis/services/dependency_injection/resolver.py:195-215 | a descriptor whose `args` is not a list, or whose `kwargs` is not a dict, raises `TypeError` naming it; any other descriptor yields its dependencies |
| Graph.DependenciesAreServiceLeaves | chassis/services/dependency_injection/resolver.py:195-226 | a service depends on `n` exactly when `@n` is a string leaf of its positional or keyword arguments |
| Graph.InitNodes | chassis/services/dependency_injection/resolver.py:177-193 | the graph has one node per configured service, each holding that descriptor's dependencies; it fails exactly when some descriptor is ill-typed, with that descriptor's error |
| Graph.RankedIsAcyclic | chassis/services/dependency_injection/resolver.py:131-175 | a ranking under which every dependency ranks below its dependant shows the graph closed and free of cycles |
| Graph.StuckMeansCycle | chassis/services/dependency_injection/resolver.py:155-158 | a closed, non-empty graph in which no service is ready has a cycle |
| Graph.RepeatOnWalk | chassis/services/dependency_injection/resolver.py:155-158 | a walk that meets some service twice shows a cycle |
| Graph.CycleWitness | chassis/services/dependency_injection/resolver.py:155-158 | a walk of at least one step that ends where it started is a cycle |
| Graph.FooBarNodes | chassis/test/services/dependency_injection/resolver_test.py:142-159 | the two-service configuration of the test yields `foo: {}` and `bar: {foo}` |
| Graph.NoArgumentsNoDependencies | chassis/test/services/dependency_injection/resolver_test.py:128-140 | a descriptor without `args` and `kwargs` has no dependencies |
| Graph.OneServiceArgument | chassis/services/dependency_injection/resolver.py:217-226 | a single positional `@x` argument gives exactly the dependency `x` |
| Tree.NewNode | chassis/util/tree.py:6-10 | a new node holds its value, no children and no parent |
| Tree.ChildCount | chassis/util/tree.py:32-35 | a node has fewer children than its subtree has nodes |
| Tree.SetParent | chassis/util/tree.py:12-20 | setting the parent changes neither the value nor the children |
| Tree.AddChild | chassis/util/tree.py:37-41 | adding succeeds exactly for a node and raises `TypeError` otherwise; the child count grows by one and the child goes last |
| Tree.AddChildren | chassis/util/tree.py:43-48 | an argument that is not a list raises `TypeError` and leaves the node as it was |
| Tree.AddChildrenAppends | chassis/util/tree.py:43-48 | the nodes before the first non-node are appended in order; it raises `TypeError` exactly when the list holds a non-node; value and parent are kept |
| Tree.OneParenPerNode | chassis/util/tree.py:50-57 | when no value contains `(`, a node's rendering opens exactly one parenthesis per node of its subtree |
| Tree.NodeString | chassis/util/tree.py:50-57 | every rendering opens with `(` followed by the node's value and closes with `)`; it is exactly `(value)` when the node has no children, and longer otherwise |
| Tree.ChildStringsPointwise | chassis/util/tree.py:54-56 | the i-th child string is the rendering of the i-th child, in the children's order |
| Tree.ChildStringsAppend | chassis/util/tree.py:54-56 | rendering one more child adds its rendering at the end of the list |
| Tree.FirstChildString | chassis/util/tree.py:50-57 | a leaf that gains a child `c` renders as `(value, [` followed by `c`'s rendering and `])` |
| Tree.NodeStringAppend | chassis/util/tree.py:50-57 | a node with children that gains a child `c` renders as before up to the closing `])`, then `, `, `c`'s rendering and `])`: children appear in order, separated by `, ` |
| Tree.RenderingExample | chassis/util/tree.py:50-57 | a leaf renders as `(b)`, a parent as `(c, [(b)])`, and a tree prefixes each head with `H` |
| Tree.AddHead | chassis/util/tree.py:95-99 | adding a head succeeds exactly for a node, which goes last; anything else raises `TypeError` |
| Tree.NewTree | chassis/util/tree.py:62-69 | no heads gives an empty tree; heads that are not a list raise `TypeError` |
| Tree.NewTreeKeepsOrder | chassis/util/tree.py:62-69 | a list of heads is accepted exactly when it holds only nodes, and they become the heads in list order; otherwise `TypeError` |
| Tree.AddHeadsAppends | chassis/util/tree.py:95-99 | adding heads one by one appends them in order and raises exactly when one is not a node |
| Tree.AddHeadsAllNodes | chassis/util/tree.py:62-69 | a list of nodes is added whole, in order, after the existing heads |
| Tree.AddHeadsNonNode | chassis/util/tree.py:95-99 | a non-node anywhere in the list makes the construction raise `TypeError` |
| Tree.HeadValues | chassis/util/tree.py:76-82 | the head values are exactly the values carried by some head; there are no more of them than heads |
| Tree.HeadCount | chassis/util/tree.py:84-87 | a tree has no heads exactly when it renders as the empty string |
| Tree.TreeString | chassis/util/tree.py:89-93 | an empty tree renders as the empty string, a one-head tree as `H` followed by the head's rendering |
| Tree.TreeStringAppend | chassis/util/tree.py:89-93 | one more head adds `, `, `H` and that head's rendering at the end, whatever the number of earlier heads |
| Tree.HeadStrings | chassis/util/tree.py:89-93 | each head is rendered as `H` followed by its node rendering, in head order |
| Cycles.Adopt | chassis/services/dependency_injection/resolver.py:76-81 | each child of a new node records that node as its parent and is otherwise unchanged |
| Cycles.NodePath | chassis/services/dependency_injection/resolver.py:14 | the node path of a one-service path is that service's name |
| Cycles.NodePathAppend | chassis/services/dependency_injection/resolver.py:14 | appending a name to a non-empty path appends `->` and that name to its node path, so the node path lists the names in order with `->` between neighbours, for every length |
| Cycles.CircularMessage | chassis/services/dependency_injection/resolver.py:15 | the message is the fixed text `Circular Depedency Detected: `, with the source's spelling, followed by the node path |
| Cycles.MessageTellsNodePath | chassis/services/dependency_injection/resolver.py:14-15 | two messages are equal exactly when their node paths are |
| Cycles.DetectCircle | chassis/services/dependency_injection/resolver.py:18-29 | the search as written raises only `CircularDependencyException`, `KeyError` or the recursion limit, and reports a cycle only on a one-character name |
| Cycles.DetectFrom | chassis/services/dependency_injection/resolver.py:32-83 | when the search below a set of dependencies succeeds, it returns one node per dependency, carrying exactly those names; every error it raises is one of those three, a reported cycle ending on a one-character name |
| Cycles.VisitAll | chassis/services/dependency_injection/resolver.py:59-83 | when visiting a list of names succeeds, it returns one parentless node per name, in the same order; its errors are limited the same way |
| Cycles.DetectNames | chassis/services/dependency_injection/resolver.py:32-83 | the corrected search: on success, one node per dependency, carrying exactly those names |
| Cycles.VisitNames | chassis/services/dependency_injection/resolver.py:59-83 | the corrected visit: on success, one parentless node per name, in order |
| Cycles.DetectCircleNames | chassis/services/dependency_injection/resolver.py:18-29 | the search on whole names never raises the recursion limit: a reported cycle is a walk that comes back to a service on it for the first time, and a `KeyError` means some dependency is not configured |
| Cycles.TreeOfHeads | chassis/services/dependency_injection/resolver.py:27-29 | the tree made from the list of heads holds exactly those heads, in order |
| Cycles.HeadsAreTheKeys | chassis/services/dependency_injection/resolver.py:18-29 | when `detect_circle` succeeds, its tree has one head per service of the graph, and its head values are the graph's keys |
| Cycles.HeadsAreTheKeysNames | chassis/services/dependency_injection/resolver.py:18-29 | the same for the corrected search |
| Cycles.RepeatIsCycle | chassis/services/dependency_injection/resolver.py:66-68 | a walk whose last service already occurs earlier on it shows a cycle |
| Cycles.NamesFindEveryCycle | chassis/services/dependency_injection/resolver.py:18-83 | the corrected search succeeds exactly when every dependency is a configured service and the graph has no cycle |
| Cycles.NamesOkIsAcyclic | chassis/services/dependency_injection/resolver.py:18-83 | a successful corrected search means a closed, acyclic graph |
| Cycles.NamesErrIsCyclic | chassis/services/dependency_injection/resolver.py:18-83 | a failed corrected search means a missing service or a cycle |
| Cycles.NamesOkNoCycleThrough | chassis/services/dependency_injection/resolver.py:18-83 | after a successful corrected search, no walk returns to where it started |
| Cycles.NamesReportCycles | chassis/services/dependency_injection/resolver.py:66-68 | on a closed graph with a cycle, the corrected search raises `CircularDependencyException`; its path is a walk ending at a service already on it |
| Cycles.TravelledIsOnPath | chassis/services/dependency_injection/resolver.py:67-73 | when every name is one character long, the check against the travelled characters is the check against the path |
| Cycles.TracksStep | chassis/services/dependency_injection/resolver.py:67-73 | with one-character names, adding a name to the path and its character to the travelled list keeps them in step |
| Cycles.SingleCharacterNamesAgree | chassis/services/dependency_injection/resolver.py:67-73 | when every name is one character long and the recursion limit exceeds the number of services, `detect_circle` as written gives the corrected result |
| Cycles.SingleCharacterSearchFindsEveryCycle | chassis/services/dependency_injection/resolver.py:18-83 | with one-character names and enough recursion depth, `detect_circle` succeeds exactly on closed, acyclic graphs |
| Cycles.SingleCharacterCyclesReported | chassis/services/dependency_injection/resolver.py:66-68 | with one-character names, a cycle is reported with a path that is a walk returning to a service on it |
| Cycles.TwoCycleReported | chassis/test/services/dependency_injection/resolver_test.py:26-41 | `a` and `b` depending on each other raises `CircularDependencyException` with the path `a, b, a` and node path `a->b->a`, or `b, a, b` and `b->a->b`, depending on which key is visited first |
| Cycles.ThreeCycleReported | chassis/test/services/dependency_injection/resolver_test.py:26-41 | the cycle `a`, `b`, `c` raises `CircularDependencyException` whose path is the cycle closed at its starting service, `a->b->c->a`, `b->c->a->b` or `c->a->b->c` |
| Cycles.TwoCycleReportedPath | chassis/services/dependency_injection/resolver.py:66-68 | on the two-cycle graph, a walk that first returns to a service already on it is `a, b, a` or `b, a, b`, with node path `a->b->a` or `b->a->b` |
| Cycles.ThreeCycleReportedPath | chassis/services/dependency_injection/resolver.py:66-68 | on the three-cycle graph, such a walk is the cycle closed at one of its three services, with the matching node path |
| Cycles.TwoCyclePaths | chassis/services/dependency_injection/resolver.py:66-68 | the walks of the two-cycle graph that first return to a service on them are exactly `a, b, a` and `b, a, b` |
| Cycles.ThreeCyclePaths | chassis/services/dependency_injection/resolver.py:66-68 | the walks of the three-cycle graph that first return to a service on them are the cycle closed at `a`, `b` or `c` |
| Cycles.DiamondIsNoCycle | chassis/test/services/dependency_injection/resolver_test.py:79-90 | two branches meeting at one service is no cycle: the search succeeds with the five services as heads |
| Cycles.SevenAcyclic | chassis/test/services/dependency_injection/resolver_test.py:92-114 | the seven-service graph of the test is closed and acyclic |
| Cycles.SevenHeads | chassis/test/services/dependency_injection/resolver_test.py:92-114 | the seven-service graph gives a tree with seven heads whose values are `a` to `g` |
| Cycles.SpuriousCycle | chassis/services/dependency_injection/resolver.py:67-73 | `{ab: {a}, a: {}}` is acyclic and the corrected search succeeds, yet `detect_circle` as written raises `CircularDependencyException` on `ab->a` |
| Cycles.SelfLoopNeverCaught | chassis/services/dependency_injection/resolver.py:67-73 | below a service `ab` that depends on itself, the search as written never sees a repeat and exhausts any recursion limit |
| Cycles.SelfLoopMissed | chassis/services/dependency_injection/resolver.py:67-73 | the self-dependent `ab` is a cycle; as written it ends in the recursion limit, corrected it is reported on `ab->ab` |
| Factory.AddInstantiatedService | chassis/services/dependency_injection/__init__.py:169-171 | the service is registered under its name; every other service and every scalar is kept |
| Factory.GetInstantiatedService | chassis/services/dependency_injection/__init__.py:177-181 | the lookup succeeds exactly for a registered name and returns that service; otherwise `UninstantiatedServiceException` |
| Factory.GetAfterAdd | chassis/services/dependency_injection/__init__.py:169-181 | after registering a service, looking it up returns it, and every other lookup is as before |
| Factory.GetScalarValue | chassis/services/dependency_injection/__init__.py:255-262 | the lookup succeeds exactly for a known scalar and returns its value; otherwise `InvalidServiceConfiguration` naming the missing scalar |
| Factory.ScalarErrorNamesTheScalar | chassis/services/dependency_injection/__init__.py:257-260 | two missing scalars give different errors |
| Factory.MissingScalar | chassis/services/dependency_injection/__init__.py:191-221 | the reported name is referred to by a `$` leaf of the arguments and is not a scalar, and comes from the positional arguments when they hold one |
| Factory.ReplaceScalars | chassis/services/dependency_injection/__init__.py:191-221 | scalar substitution succeeds exactly when every `$` name is a known scalar, and then replaces each `$` leaf by that scalar's value; a failure names a missing scalar the arguments refer to |
| Factory.ReplaceServices | chassis/services/dependency_injection/__init__.py:223-253 | service substitution succeeds exactly when every `@` name is registered, and then replaces each `@` leaf by that service |
| Factory.ServicePassLeavesNoReferences | chassis/services/dependency_injection/__init__.py:223-253 | after service substitution no `@` reference is left |
| Factory.TwoPassesAsOne | chassis/services/dependency_injection/__init__.py:298-304 | when no scalar value holds an `@` reference, the scalar pass followed by the service pass equals a single pass resolving both sigils |
| Factory.ComposeRewrites | chassis/services/dependency_injection/__init__.py:298-304 | a scalar substitution followed by a service substitution is one substitution under both tables |
| Factory.ScalarNamingAServiceIsResolved | chassis/services/dependency_injection/__init__.py:298-304 | a scalar whose value is `@y` becomes service `y` after the two passes, where one pass would keep the string |
| Factory.VerifyCreateArgs | chassis/services/dependency_injection/__init__.py:59-71 | creation may proceed exactly when a module is given and the service is static or has a class; the error names what is missing |
| Factory.ImportModule | chassis/services/dependency_injection/__init__.py:35-56 | the import succeeds exactly for a string naming a known module |
| Factory.GetClass | chassis/services/dependency_injection/__init__.py:293-296 | the class lookup succeeds exactly for a string naming a class of the module |
| Factory.Instantiate | chassis/services/dependency_injection/__init__.py:277-308 | non-list `args` and non-dict `kwargs` raise `TypeError`; a static service is its module or class; anything else is the class called with the substituted arguments |
| Factory.HandleFactoryMethod | chassis/services/dependency_injection/__init__.py:310-325 | on success, the product of calling the named method on the object with scalar-substituted arguments; its failures never concern services |
| Factory.CallStep | chassis/services/dependency_injection/__init__.py:330-345 | one call succeeds only for a dict naming a string `method`, and logs that method called on the object, with the call's `args` and `kwargs` after scalar substitution only; a dict without `method` fails with `InvalidServiceConfiguration` |
| Factory.HandleCalls | chassis/services/dependency_injection/__init__.py:327-345 | the calls run in order; on failure exactly the calls before the failing one were logged, and the failure is that call's |
| Factory.RunCalls | chassis/services/dependency_injection/__init__.py:117-119 | calls that are not a list are skipped; on success the object is returned; earlier effects stay at the front of the log |
| Factory.FinishCreate | chassis/services/dependency_injection/__init__.py:111-122 | the factory-method and call stages fail only with factory errors, never with a missing service |
| Factory.Create | chassis/services/dependency_injection/__init__.py:86-122 | an incomplete descriptor is rejected before anything happens; success requires an importable module |
| Factory.ConstructedService | chassis/services/dependency_injection/__init__.py:111-122 | a non-static service without a factory method is the object `_instantiate` built from its module, class and substituted arguments; the log starts with that construction, followed by exactly one entry per configured call, each on that object |
| Factory.FromDict | chassis/services/dependency_injection/__init__.py:124-167 | a dictionary gives a descriptor exactly when it has both `module` and `class`; a missing one raises `KeyError` naming it |
| Factory.CreateFromDict | chassis/services/dependency_injection/__init__.py:124-167 | a dictionary without `module` or `class` fails with no effect; otherwise it fails only with factory errors |
| Factory.RejectedBeforeImport | chassis/services/dependency_injection/__init__.py:102-103 | a descriptor without a module, or a non-static one without a class, fails with `InvalidServiceConfiguration` whatever the registry and the modules, and has no effect |
| Factory.StaticService | chassis/services/dependency_injection/__init__.py:290-294 | a static service is its module, or its module's class, with no effect and whatever the registry |
| Factory.FactoryAndCallsIgnoreServices | chassis/services/dependency_injection/__init__.py:310-345 | factory methods and calls depend only on the scalars, never on the registered services |
| Factory.FactoryMethodIgnoresServices | chassis/services/dependency_injection/__init__.py:310-325 | the factory-method step gives the same result for any two factories with the same scalars |
| Factory.CallsIgnoreServices | chassis/services/dependency_injection/__init__.py:327-345 | the calls give the same result under any two registries with the same scalars |
| Factory.FactoryProductReceivesCalls | chassis/services/dependency_injection/__init__.py:111-122 | with a factory method, the service is the method's product; the log ends with the factory call followed by each configured call, in order, on that product |
| Factory.FinishWithFactory | chassis/services/dependency_injection/__init__.py:111-119 | after a factory method, the product is what the method returned; the log ends with that call and then one entry per configured call, each on the product |
| Factory.CallWithoutMethodAfterEarlierCalls | chassis/services/dependency_injection/__init__.py:330-341 | a call without `method` raises after the call before it was made |
| Factory.StaticNeedsExplicitClassKey | chassis/services/dependency_injection/__init__.py:157-159 | a static service without a `class` key raises `KeyError`; with `class: None` it is its module |
| Factory.FromDictDefaults | chassis/services/dependency_injection/__init__.py:126-133 | absent keys default to no arguments, no factory method, not static and no calls |
| Factory.CreateFindsItsServices | chassis/services/dependency_injection/__init__.py:86-122 | when every `@` argument is registered and no scalar holds an `@` reference, creation never raises `UninstantiatedServiceException` |
| Factory.InstantiateFindsItsServices | chassis/services/dependency_injection/__init__.py:277-308 | the same for instantiation alone |
| Scheduler.NewResolver | chassis/services/dependency_injection/resolver.py:105-112 | a resolver starts with the given scalars, no built service, and one graph node per configured service holding that descriptor's dependencies; it fails exactly when the graph cannot be built, with a `TypeError` |
| Scheduler.Ready | chassis/services/dependency_injection/resolver.py:143-146 | a round takes exactly the services with no dependency left |
| Scheduler.Peel | chassis/services/dependency_injection/resolver.py:161-172 | the round's services leave the graph and every remaining dependency set |
| Scheduler.CreateAll | chassis/services/dependency_injection/resolver.py:143-153 | on success every named service is configured and registered, nothing else is added and the scalars are kept; failures are factory errors |
| Scheduler.Do | chassis/services/dependency_injection/resolver.py:120-129 | an empty graph gives `None` and does nothing; a successful run over a non-empty graph gives a registry |
| Scheduler.Rounds | chassis/services/dependency_injection/resolver.py:131-175 | rounds that finish keep the scalars and add exactly the graph's services to the registry |
| Scheduler.RoundsFollowDependencies | chassis/services/dependency_injection/resolver.py:131-175 | when the rounds finish, numbering the services by round ranks the graph: every dependency of a service is a service of the graph in an earlier round |
| Scheduler.OrderFollowsDependencies | chassis/services/dependency_injection/resolver.py:131-175 | the creation order, round after round, lists each service of the graph at most once, and each one after all of its dependencies |
| Scheduler.RoundsRunInOrder | chassis/services/dependency_injection/resolver.py:131-175 | rounds that finish are the creation of the services one by one in that order, with the same result and the same effects, and every service of the graph is in the order |
| Scheduler.OrderIsTheGraph | chassis/services/dependency_injection/resolver.py:131-175 | after rounds that finish, a name is in the creation order exactly when it is a service of the graph |
| Scheduler.CreateAllConcat | chassis/services/dependency_injection/resolver.py:143-153 | creating a concatenation of names is creating the first part and then, if that succeeded, the second on the registry it left, with the logs concatenated |
| Scheduler.DependenciesRegisteredFirst | chassis/services/dependency_injection/resolver.py:143-153 | when the rounds finish, each service is created once, after exactly the services before it in the order; at that point every one of its dependencies is registered, and the run is those creations followed by the rest |
| Scheduler.RoundsNeedAcyclicClosedGraph | chassis/services/dependency_injection/resolver.py:131-175 | rounds that finish leave behind proof that the graph was closed and acyclic |
| Scheduler.AcyclicRoundsFailOnlyInCreate | chassis/services/dependency_injection/resolver.py:155-158 | on a closed, acyclic graph the rounds fail only because creating a service raised, never because no service was ready |
| Scheduler.AcyclicRound | chassis/services/dependency_injection/resolver.py:143-172 | on a closed, acyclic graph every round has a service ready and leaves a smaller graph that is still closed and acyclic |
| Scheduler.NoNodesRemovedNeverRaised | chassis/services/dependency_injection/resolver.py:164-168 | "No nodes removed!" is never raised |
| Scheduler.PeelShrinks | chassis/services/dependency_injection/resolver.py:160-168 | removing a non-empty round of services leaves fewer nodes |
| Scheduler.DoSucceedsOnlyOnAcyclicGraphs | chassis/services/dependency_injection/resolver.py:120-175 | a successful `do` means a closed, acyclic graph whose services are exactly the registry's; a cycle or a dependency on an unconfigured name makes it fail |
| Scheduler.AcyclicDoFailsOnlyInCreate | chassis/services/dependency_injection/resolver.py:120-175 | on a closed, acyclic graph `do` raises only what creating a service raised, and never "No newly instantiated services" |
| Scheduler.DoNeverMissesAService | chassis/services/dependency_injection/resolver.py:131-175 | `do` on a new resolver never raises `UninstantiatedServiceException`, as long as no scalar value is an `@` reference |
| Scheduler.RoundsFindServices | chassis/services/dependency_injection/resolver.py:143-153 | rounds that start with every lost dependency registered never raise `UninstantiatedServiceException` |
| Scheduler.RoundFindsServices | chassis/services/dependency_injection/resolver.py:143-172 | one round finds every service it needs and leaves a smaller graph in which every lost dependency is registered |
| Validators.ValidateBoolean | chassis/util/validators.py:42-52 | `Boolean` returns a bool or fails with "Valid boolean required" |
| Validators.Fail | chassis/util/validators.py:18-20 | `fail` always raises `ValidationError` with the validator's own message, and that message tells which kind of validator raised it |
| Validators.InTruthyList | chassis/util/validators.py:34-47 | membership in the truthy list is a true spelling, `True` or `1`, since Python counts `True == 1` |
| Validators.InFalsyList | chassis/util/validators.py:35-50 | membership in the falsy list is a false spelling, `False` or `0` |
| Validators.BooleanAccepts | chassis/util/validators.py:42-52 | `Boolean` gives `True` exactly for `true`/`1`/`yes`/`t`/`y` in any case, `True` and `1`; `False` exactly for the false spellings, `False` and `0`; and fails on everything else |
| Validators.BooleanIgnoresCase | chassis/util/validators.py:43-44 | a string and its lowercase form are validated alike |
| Validators.BooleanIdempotent | chassis/util/validators.py:42-52 | the bool `Boolean` returns, it maps to itself |
| Validators.BooleanRejections | chassis/test/util/validators_test.py:61-68 | `'foo'`, `'3'`, `3`, `None`, a dict, a list and another object are rejected |
| Validators.ValidateString | chassis/util/validators.py:68-82 | `String` accepts exactly the strings whose length lies within both optional inclusive bounds, returns them unchanged, and otherwise fails with "Valid string required." |
| Validators.CrossedBoundsRejectAll | chassis/util/validators.py:74-80 | a minimum above the maximum rejects everything |
| Validators.StringIdempotent | chassis/util/validators.py:68-82 | what `String` accepts it accepts again unchanged |
| Validators.StringMonotone | chassis/util/validators.py:74-80 | loosening either bound never rejects a string that was accepted |
| Validators.Validate | chassis/util/validators.py:22-82 | only `Boolean` and `String` can accept; a failure is the base class's `NotImplementedError` or the validator's own message; `Boolean` returns a bool and `String` the value it was given |
| Validators.FailuresCarryTheMessage | chassis/util/validators.py:18-20 | every rejection by `Boolean` or `String` is `fail`, carrying the validator's own message |
| Validators.ValidateIdempotent | chassis/util/validators.py:42-82 | every value a validator returns is a fixed point of that validator |
| Params.ApplyChain | chassis/util/params.py:28-39 | an empty chain returns the value; success requires every element to be a validator; a chain holding no validator at all raises HTTP 500 |
| Params.ApplyValidators | chassis/util/params.py:31-36 | a single validator is run on its own: called as the code calls it, a `Boolean` or `String` validator raises `TypeError`, since `validate` gets no handler; something that is neither a validator nor iterable raises `TypeError`; an empty list returns the value |
| Params.ChainsCompose | chassis/util/params.py:34-39 | running a concatenated chain is running the first part, then the second on its result |
| Params.ChainFailsAtFirstFailure | chassis/util/params.py:34-39 | once an element fails or is not a validator, the whole chain fails; a non-validator makes it HTTP 500 |
| Params.ApplyChainAsWritten | chassis/util/params.py:36 | the chain as written succeeds only when every element is a one-argument custom validator |
| Params.CustomChainsAgree | chassis/util/params.py:28-39 | on chains of one-argument validators the chain as written and the corrected one agree |
| Params.BooleanInChain | chassis/util/params.py:36 | a chain of `Boolean` on `'true'` raises `TypeError` as written, and gives `True` corrected |
| Params.Bind | chassis/util/params.py:72-89 | under either way of calling `validate`, binding succeeds exactly when every declaration binds; a failure is the first failing declaration's; the keywords are exactly the declared keys, each bound as its last declaration says |
| Params.BoundValues | chassis/util/params.py:73-89 | a supplied parameter gets its value run through its validator chain, called the same way; a missing optional one gets its default; a missing required one refuses the call |
| Params.UndeclaredDropped | chassis/util/params.py:72-89 | an argument that no declaration names is not passed on |
| Params.Call | chassis/util/params.py:67-90 | the arguments are fetched for the method's verb first, and a failing GET join refuses the call before any binding; otherwise the handler runs exactly when binding the fetched arguments succeeds under the same way of calling, and receives the positional arguments it was called with and the bound keywords |
| Params.CallFetchesFirst | chassis/util/params.py:9-25 | a GET whose list argument holds a number raises `TypeError` before the method runs; `ids=1&ids=2` reaches the method as `'1,2'` |
| Params.BindOne | chassis/util/params.py:74-89 | an absent argument refuses the call with HTTP 400 naming the key exactly when `required` is truthy, and otherwise takes the default, `None` included |
| Params.RunCheckAsWritten | chassis/util/params.py:36 | the one-argument call raises `TypeError` for every library validator and agrees with the two-argument call on custom ones |
| Params.BindOneAgrees | chassis/util/params.py:73-89 | a declaration whose validators are all one-argument custom validators binds alike whichever way `validate` is called |
| Params.OneArgumentBindingsAgree | chassis/util/params.py:72-89 | when every declaration's validators take one argument, binding as written and binding with the handler give the same result |
| Params.BindFromAgrees | chassis/util/params.py:72-89 | from any point of the binding loop, the two ways of calling bind the rest alike when each declaration binds alike |
| Params.BooleanParameter | chassis/util/params.py:67-90 | `flag` with a `Boolean` validator and `flag=true`: as written the binding and the call raise `TypeError` and the handler never runs; with the handler it binds `True` |
| Params.FetchGet | chassis/util/params.py:12-21 | GET arguments keep their keys; a list of strings becomes its items joined with commas, the empty list the empty string; other values are kept; a list holding a non-string raises `TypeError` |
| Params.FetchGetExamples | chassis/util/params.py:12-21 | `ids=[1, 2]` becomes `1,2` and other values are kept; an empty list becomes the empty string; a list holding a number raises `TypeError` |
| Params.FetchGetSplits | chassis/util/params.py:18-19 | a flattened list of comma-free strings splits back into the original list |
| Params.FetchArguments | chassis/util/params.py:9-25 | only a `get` handler can fail, with the `TypeError` of `join`; it then keeps the request's keys; any other handler reads the body arguments unchanged |
| Params.ChainedConstants | chassis/test/util/params_test.py:174-204 | the chain `bar`, `bat`, `baz` of the test returns `baz` |
| Params.BindingExamples | chassis/test/util/params_test.py:31-172 | the optional, default, required and extra-parameter cases of the tests bind as the tests expect |

## Left out

- Dynamic import and `getattr` are an oracle, `Factory.Catalogue`: the modules and classes that exist. Looking up a method on an object always succeeds, and calling a class, factory method or method is logged, not executed.
- Python's recursion limit is the parameter `limit` of `Cycles.DetectCircle`. `RecursionError` is the error `RecursionLimit`.
- Scheduler.Rounds: `_do` calls itself once per round (resolver.py:175), so a graph needing more rounds than Python's recursion limit allows raises `RecursionError`. The model has no depth bound there and runs every round.
- A node's parent is recorded by value, not by object identity. Mutating a node after adding it is not modelled.
- The resolver's state after `do`: its graph copy, and the registry returned as a live dict.
- `BaseValidator(message=...)`, `documentation` overrides and `get_message` appear only in the tests. The source's constructors take no such arguments.
- `Regex`, `Integer` and `Number` validators are not part of this model.
- Validators.Documentation: each validator's `documentation` attribute is a constant that nothing in the modelled code reads, so it is not modelled.
- Factory.MissingScalar: when several `$` names are missing, the source reports the first it meets, which follows list order and dictionary iteration order; the model promises only one of the missing names, from the positional arguments if any is missing there.
- Strings.Lower: Python's `lower()` is Unicode-aware; the model lowercases ASCII letters only.
- Floats are not values of the model.
- The body arguments of a non-GET request are a parameter of `Params.FetchArguments`; Tornado's request parsing is not part of this model.
- The handler argument of `validate` is unused by every validator and is not modelled.
- Params.Call: `self`, the request handler, is implicit in the method the call runs; it is passed through unchanged and the method is not modelled.
- Graph.InitNodes: the configuration is typed as a map from service names to descriptor dicts. So `_init_nodes`' `TypeError('"config" must be a dictionary')` (resolver.py:179-180) cannot arise, and neither can a descriptor that is not a dict, for which `'args' in conf` (resolver.py:183-184) would be a substring or membership test and `create_from_dict` would then index the value. The runtime type checks in `_detect_circle` and `_do` on their own arguments are left out for the same reason.
- `_replace_service_arg` and `_replace_service_kwarg` are never called and are left out.
- `cache.py`, `data_context.py`, `decorators.py`, `encoders.py` and the documentation side of `parse` are not part of this model.
- Python 2's `unicode` versus `str` distinction is not modelled; `is_dependency_name` accepts any string.
- Params.ApplyChain: a validator that raises `HTTPError` and one that raises `ValidationError` are both just errors. Only the chain's own HTTP 500 is told apart.

## Findings

| source | as written | input that shows it | evidently intended | confidence | as-written member | corrected member |
|---|---|---|---|---|---|---|
| chassis/services/dependency_injection/resolver.py:67-73 | `traveled + list(name)` adds the characters of the name, and `name in traveled` then compares a whole name with single characters | `{ab: {a}, a: {}}` reports the cycle `ab->a`; `{ab: {ab}}` recurses until the recursion limit | compare whole names: `traveled + [name]` | high, not executed | Cycles.SpuriousCycle | Cycles.NamesFindEveryCycle |
| chassis/util/params.py:36 | `validator.validate(value)` passes one argument, while validators.py:22, 42 and 68 declare `validate(self, value, handler)` and params_test.py:46 expects `(value, handler)` | a chain of `Boolean()` on `'true'` raises `TypeError` | pass the handler: `validator.validate(value, handler)` | high, not executed | Params.BooleanInChain | Params.ApplyChain |
