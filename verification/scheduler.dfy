/**
 * `Resolver`: builds the dependency graph of a configuration and then
 * instantiates the services in rounds. Each round creates every service
 * whose remaining dependency set is empty, removes those services from the
 * graph and from every remaining dependency set, and starts over until the
 * graph is empty.
 *
 * Within a round the services are created in dict order, which the model
 * leaves open (`Enumerate`), so everything here that follows a round is
 * ghost; the lemmas hold for every order.
 */
module Scheduler {
  import opened Values
  import opened Enumeration
  import opened References
  import opened Factory
  import opened Graph

  /** A resolver's state: its configuration, its graph and its factory. */
  datatype Resolver = Resolver(config: Config, nodes: Nodes, factory: ServiceFactory)

  /** `Resolver.__init__`: a factory over the scalars with nothing built yet, and the graph of `config`. */
  ghost function NewResolver(config: Config, scalars: map<string, Value>): (r: Result<Resolver>)
    ensures r.Ok? <==> InitNodes(config).Ok?
    ensures r.Err? ==> r.error.TypeError?
    ensures r.Ok? ==> r.value.config == config && r.value.nodes.Keys == config.Keys
    ensures r.Ok? ==> r.value.factory.scalars == scalars && r.value.factory.services == map[]
    ensures r.Ok? ==> forall n :: n in r.value.nodes ==> Ok(r.value.nodes[n]) == DescriptorDependencies(config[n])
  {
    var nodes :- InitNodes(config);
    Ok(Resolver(config, nodes, ServiceFactory(scalars, map[])))
  }

  /** The services of this round: those with no dependency left. */
  function Ready(nodes: Nodes): (r: set<string>)
    ensures r <= nodes.Keys
    ensures forall n :: n in nodes && nodes[n] == {} ==> n in r
    ensures forall n :: n in r ==> nodes[n] == {}
  {
    set n | n in nodes && nodes[n] == {}
  }

  /** Drops the services of `done` from the graph and from every dependency set. */
  function Peel(nodes: Nodes, done: set<string>): (r: Nodes)
    ensures r.Keys == nodes.Keys - done
    ensures forall n :: n in r ==> r[n] == nodes[n] - done
  {
    map n | n in nodes && n !in done :: nodes[n] - done
  }

  /**
   * The first loop of `_do`: create each named service from its descriptor
   * and register it under its name, in the given order, stopping at the
   * first exception.
   */
  ghost function CreateAll(f: ServiceFactory, cat: Catalogue, config: Config, names: seq<string>): (r: Run<ServiceFactory>)
    ensures r.result.Err? ==> FactoryError(r.result.error)
    ensures r.result.Ok? ==> r.result.value.scalars == f.scalars
    ensures r.result.Ok? ==> forall n :: n in r.result.value.services <==> n in f.services || n in names
    ensures r.result.Ok? ==> forall i :: 0 <= i < |names| ==> names[i] in config
    decreases |names|
  {
    if names == [] then Run(Ok(f), [])
    else if names[0] !in config then Run(Err(KeyError(names[0])), [])
    else
      var made := CreateFromDict(f, cat, config[names[0]]);
      match made.result
      case Err(e) => Run(Err(e), made.effects)
      case Ok(obj) =>
        var rest := CreateAll(AddInstantiatedService(f, names[0], obj), cat, config, names[1..]);
        assert forall n :: n in names <==> n == names[0] || n in names[1..];
        assert rest.result.Ok? ==> forall i :: 1 <= i < |names| ==> names[i] == names[1..][i - 1];
        Run(rest.result, made.effects + rest.effects)
  }

  /**
   * `_do`: one round, then the rest. A round with nothing ready raises; so
   * would a round that removes no node, which cannot happen
   * (`NoNodesRemovedNeverRaised`). Rounds that finish add exactly the
   * graph's services to the registry and keep the scalars.
   */
  ghost function Rounds(f: ServiceFactory, cat: Catalogue, config: Config, nodes: Nodes): (r: Run<ServiceFactory>)
    ensures r.result.Ok? ==> r.result.value.scalars == f.scalars
    ensures r.result.Ok? ==> forall n :: n in r.result.value.services <==> n in f.services || n in nodes
    decreases nodes.Keys
  {
    if nodes == map[] then Run(Ok(f), [])
    else
      var ready := Ready(nodes);
      var made := CreateAll(f, cat, config, Enumerate(ready));
      match made.result
      case Err(e) => Run(Err(e), made.effects)
      case Ok(g) =>
        if ready == {} then Run(Err(NoNewlyInstantiated), made.effects)
        else
          var next := Peel(nodes, ready);
          if |next| == |nodes| then Run(Err(NoNodesRemoved), made.effects)
          else
            var rest := Rounds(g, cat, config, next);
            Run(rest.result, made.effects + rest.effects)
  }

  /** `do`: nothing to do for an empty graph; otherwise the rounds, then the registry. */
  ghost function Do(res: Resolver, cat: Catalogue): (r: Run<Option<Registry>>)
    ensures res.nodes == map[] ==> r == Run(Ok(None), [])
    ensures r.result.Ok? && res.nodes != map[] ==> r.result.value.Some?
  {
    if res.nodes == map[] then Run(Ok(None), [])
    else
      var done := Rounds(res.factory, cat, res.config, res.nodes);
      match done.result
      case Err(e) => Run(Err(e), done.effects)
      case Ok(g) => Run(Ok(Some(g.services)), done.effects)
  }

  // ---------------------------------------------------------------- rounds

  /** The round in which each service becomes ready, counting from zero. */
  ghost function Layers(nodes: Nodes): (rank: map<string, nat>)
    decreases nodes.Keys
  {
    var ready := Ready(nodes);
    if ready == {} then map[]
    else
      var rest := Layers(Peel(nodes, ready));
      map n | n in nodes :: if n in ready || n !in rest then 0 else rest[n] + 1
  }

  /**
   * When the rounds finish, every service sits in a later round than all of
   * its dependencies, which are services of the graph.
   */
  lemma {:induction false} RoundsFollowDependencies(f: ServiceFactory, cat: Catalogue, config: Config, nodes: Nodes)
    requires Rounds(f, cat, config, nodes).result.Ok?
    ensures Ranked(nodes, Layers(nodes))
    decreases nodes.Keys
  {
    if nodes != map[] {
      var ready := Ready(nodes);
      var made := CreateAll(f, cat, config, Enumerate(ready));
      var g := made.result.value;
      var next := Peel(nodes, ready);
      assert Rounds(f, cat, config, nodes).result == Rounds(g, cat, config, next).result;
      RoundsFollowDependencies(g, cat, config, next);
      LayersStep(nodes);
    }
  }

  /** A round's layer sits on top of the layers of what is left. */
  lemma LayersStep(nodes: Nodes)
    requires Ready(nodes) != {}
    requires Ranked(Peel(nodes, Ready(nodes)), Layers(Peel(nodes, Ready(nodes))))
    ensures Ranked(nodes, Layers(nodes))
  {
    var ready := Ready(nodes);
    var next := Peel(nodes, ready);
    var rest := Layers(next);
    var rank := Layers(nodes);
    assert rank.Keys == nodes.Keys;
    assert forall n :: n in ready ==> rank[n] == 0;
    assert forall n :: n in next ==> rank[n] == rest[n] + 1;
    RankStep(nodes, ready, next, rest, rank);
  }

  lemma RankStep(nodes: Nodes, ready: set<string>, next: Nodes, rest: map<string, nat>, rank: map<string, nat>)
    requires ready <= nodes.Keys && forall n :: n in ready ==> nodes[n] == {}
    requires next.Keys == nodes.Keys - ready && forall n :: n in next ==> next[n] == nodes[n] - ready
    requires Ranked(next, rest)
    requires rank.Keys == nodes.Keys
    requires forall n :: n in ready ==> rank[n] == 0
    requires forall n :: n in next ==> rank[n] == rest[n] + 1
    ensures Ranked(nodes, rank)
  {
    forall n, d | n in nodes && d in nodes[n]
      ensures d in nodes && d in rank && rank[d] < rank[n]
    {
      assert n in next && rank[n] == rest[n] + 1;
      if d in ready {
        assert d in nodes && rank[d] == 0;
      } else {
        assert d in next[n];
        assert d in next && rest[d] < rest[n];
        assert rank[d] == rest[d] + 1;
      }
    }
  }

  /** A run that finishes leaves a closed, acyclic graph behind it. */
  lemma RoundsNeedAcyclicClosedGraph(f: ServiceFactory, cat: Catalogue, config: Config, nodes: Nodes)
    requires Rounds(f, cat, config, nodes).result.Ok?
    ensures Closed(nodes) && !HasCycle(nodes)
  {
    RoundsFollowDependencies(f, cat, config, nodes);
    RankedIsAcyclic(nodes, Layers(nodes));
  }

  /** Peeling a closed graph keeps it closed, and every walk after peeling was a walk before. */
  lemma PeelKeepsClosedAcyclic(nodes: Nodes, done: set<string>)
    requires Closed(nodes) && !HasCycle(nodes)
    ensures Closed(Peel(nodes, done)) && !HasCycle(Peel(nodes, done))
  {
    var next := Peel(nodes, done);
    if HasCycle(next) {
      var w :| IsWalk(next, w) && |w| > 1 && w[0] == w[|w| - 1];
      assert IsWalk(nodes, w);
    }
  }

  /**
   * On a closed, acyclic graph the rounds fail only because creating some
   * service raised: never because nothing was ready, never because no node
   * was removed.
   */
  lemma {:induction false} AcyclicRoundsFailOnlyInCreate(f: ServiceFactory, cat: Catalogue, config: Config, nodes: Nodes)
    requires Closed(nodes) && !HasCycle(nodes)
    ensures Rounds(f, cat, config, nodes).result.Err? ==> FactoryError(Rounds(f, cat, config, nodes).result.error)
    decreases |nodes|
  {
    if nodes != map[] {
      var ready := Ready(nodes);
      var made := CreateAll(f, cat, config, Enumerate(ready));
      AcyclicRound(nodes);
      if made.result.Ok? {
        AcyclicRoundsFailOnlyInCreate(made.result.value, cat, config, Peel(nodes, ready));
      }
    }
  }

  /** On a closed, acyclic graph every round has services ready and leaves a smaller closed, acyclic graph. */
  lemma AcyclicRound(nodes: Nodes)
    requires Closed(nodes) && !HasCycle(nodes) && nodes != map[]
    ensures Ready(nodes) != {}
    ensures |Peel(nodes, Ready(nodes))| < |nodes|
    ensures Closed(Peel(nodes, Ready(nodes))) && !HasCycle(Peel(nodes, Ready(nodes)))
  {
    var ready := Ready(nodes);
    if ready == {} {
      StuckMeansCycle(nodes);
    }
    PeelShrinks(nodes, ready);
    PeelKeepsClosedAcyclic(nodes, ready);
  }

  // ------------------------------------------------------ creation order

  /**
   * The order in which the rounds register services: each round's services
   * in dict order, then the rounds after it.
   */
  ghost function Order(nodes: Nodes): (r: seq<string>)
    decreases nodes.Keys
  {
    var ready := Ready(nodes);
    if ready == {} then []
    else Enumerate(ready) + Order(Peel(nodes, ready))
  }

  /** A run of `a` followed by a run of `b` from where `a` left off. */
  function Then<T>(a: Run<ServiceFactory>, b: Run<T>): Run<T>
  {
    Run(b.result, a.effects + b.effects)
  }

  /** Creating `a + b` is creating `a`, then `b` with the factory `a` left. */
  lemma {:induction false} CreateAllConcat(f: ServiceFactory, cat: Catalogue, config: Config, a: seq<string>, b: seq<string>)
    ensures var first := CreateAll(f, cat, config, a);
            CreateAll(f, cat, config, a + b)
            == if first.result.Err? then first else Then(first, CreateAll(first.result.value, cat, config, b))
    decreases |a|
  {
    if a == [] {
      assert a + b == b;
      assert [] + CreateAll(f, cat, config, b).effects == CreateAll(f, cat, config, b).effects;
    } else {
      HeadOfConcat(a, b);
      if a[0] in config {
        var made := CreateFromDict(f, cat, config[a[0]]);
        CreateAllUnfold(f, cat, config, a);
        CreateAllUnfold(f, cat, config, a + b);
        if made.result.Ok? {
          var g := AddInstantiatedService(f, a[0], made.result.value);
          CreateAllConcat(g, cat, config, a[1..], b);
          var first := CreateAll(g, cat, config, a[1..]);
          if first.result.Ok? {
            ThenAfterMade(made.effects, first, cat, config, b);
          }
        }
      }
    }
  }

  /** One step of `CreateAll` on a name the configuration holds. */
  lemma CreateAllUnfold(f: ServiceFactory, cat: Catalogue, config: Config, names: seq<string>)
    requires names != [] && names[0] in config
    ensures var made := CreateFromDict(f, cat, config[names[0]]);
            CreateAll(f, cat, config, names)
            == if made.result.Err? then Run(Err(made.result.error), made.effects)
               else var rest := CreateAll(AddInstantiatedService(f, names[0], made.result.value), cat, config, names[1..]);
                    Run(rest.result, made.effects + rest.effects)
  {
  }

  lemma HeadOfConcat(a: seq<string>, b: seq<string>)
    requires a != []
    ensures (a + b)[0] == a[0] && (a + b)[1..] == a[1..] + b
  {
  }

  /** Prefixing the effects of one creation commutes with sequencing the rest. */
  lemma ThenAfterMade(made: seq<Effect>, first: Run<ServiceFactory>, cat: Catalogue, config: Config, b: seq<string>)
    requires first.result.Ok?
    ensures var rest := CreateAll(first.result.value, cat, config, b);
            made + Then(first, rest).effects == made + first.effects + rest.effects
  {
  }

  /**
   * The creation order lists each service once, and every dependency of a
   * service comes before it.
   */
  lemma {:induction false} OrderFollowsDependencies(nodes: Nodes)
    ensures var order := Order(nodes);
            && Distinct(order)
            && (forall i :: 0 <= i < |order| ==> order[i] in nodes)
            && forall i, d :: 0 <= i < |order| && d in nodes[order[i]] ==> d in order[..i]
    decreases nodes.Keys
  {
    var ready := Ready(nodes);
    if ready != {} {
      var next := Peel(nodes, ready);
      OrderFollowsDependencies(next);
      OrderStep(nodes, ready, next, Enumerate(ready), Order(next));
    }
  }

  /** One round's services, then an order of what is left, is an order of the whole graph. */
  lemma OrderStep(nodes: Nodes, ready: set<string>, next: Nodes, first: seq<string>, rest: seq<string>)
    requires ready <= nodes.Keys && forall n :: n in ready ==> nodes[n] == {}
    requires next.Keys == nodes.Keys - ready && forall n :: n in next ==> next[n] == nodes[n] - ready
    requires Distinct(first) && forall x :: x in first <==> x in ready
    requires Distinct(rest) && forall j :: 0 <= j < |rest| ==> rest[j] in next
    requires forall j, d :: 0 <= j < |rest| && d in next[rest[j]] ==> d in rest[..j]
    ensures var order := first + rest;
            && Distinct(order)
            && (forall i :: 0 <= i < |order| ==> order[i] in nodes)
            && forall i, d :: 0 <= i < |order| && d in nodes[order[i]] ==> d in order[..i]
  {
    var order := first + rest;
    ConcatDistinct(first, rest, ready, next.Keys);
    forall i | 0 <= i < |order|
      ensures order[i] in nodes
    {
      if i < |first| {
        assert order[i] == first[i];
      } else {
        assert order[i] == rest[i - |first|];
      }
    }
    forall i, d | 0 <= i < |order| && d in nodes[order[i]]
      ensures d in order[..i]
    {
      if i >= |first| {
        var j := i - |first|;
        assert order[i] == rest[j];
        if d in ready {
          BeforeInFirst(first, rest, i, d);
        } else {
          assert d in next[rest[j]];
          BeforeInRest(first, rest, j, d);
        }
      }
    }
  }

  /** Two duplicate-free lists drawn from disjoint sets join into a duplicate-free list. */
  lemma ConcatDistinct(first: seq<string>, rest: seq<string>, xs: set<string>, ys: set<string>)
    requires Distinct(first) && forall x :: x in first ==> x in xs
    requires Distinct(rest) && forall j :: 0 <= j < |rest| ==> rest[j] in ys
    requires xs !! ys
    ensures Distinct(first + rest)
  {
    var order := first + rest;
    forall i, j | 0 <= i < j < |order|
      ensures order[i] != order[j]
    {
      if j < |first| {
        assert order[i] == first[i] && order[j] == first[j];
      } else if i >= |first| {
        assert order[i] == rest[i - |first|] && order[j] == rest[j - |first|];
      } else {
        assert order[i] == first[i] && order[j] == rest[j - |first|];
      }
    }
  }

  /** An element of the first part comes before every position of the second. */
  lemma BeforeInFirst(first: seq<string>, rest: seq<string>, i: nat, d: string)
    requires |first| <= i < |first + rest| && d in first
    ensures d in (first + rest)[..i]
  {
    var k :| 0 <= k < |first| && first[k] == d;
    assert (first + rest)[..i][k] == d;
  }

  /** What comes before position `j` of the second part comes before it in the whole. */
  lemma BeforeInRest(first: seq<string>, rest: seq<string>, j: nat, d: string)
    requires j < |rest| && d in rest[..j]
    ensures d in (first + rest)[..|first| + j]
  {
    var k :| 0 <= k < j && rest[..j][k] == d;
    assert (first + rest)[..|first| + j][|first| + k] == d;
  }

  /**
   * A run that finishes is the creation of the services one by one in the
   * creation order, which covers the whole graph.
   */
  lemma {:induction false} RoundsRunInOrder(f: ServiceFactory, cat: Catalogue, config: Config, nodes: Nodes)
    requires Rounds(f, cat, config, nodes).result.Ok?
    ensures Rounds(f, cat, config, nodes) == CreateAll(f, cat, config, Order(nodes))
    ensures forall n :: n in nodes ==> n in Order(nodes)
    decreases nodes.Keys
  {
    if nodes != map[] {
      var ready := Ready(nodes);
      var names := Enumerate(ready);
      var made := CreateAll(f, cat, config, names);
      var next := Peel(nodes, ready);
      assert ready != {} && made.result.Ok?;
      PeelShrinks(nodes, ready);
      var rest := Rounds(made.result.value, cat, config, next);
      assert Rounds(f, cat, config, nodes) == Then(made, rest);
      RoundsRunInOrder(made.result.value, cat, config, next);
      CreateAllConcat(f, cat, config, names, Order(next));
      assert Order(nodes) == names + Order(next);
    }
  }

  /**
   * When the rounds finish, each service was registered exactly once, and
   * when it was created, every service of its dependency set was already
   * registered: the run creates the services of `Order(nodes)` one after
   * another, and at position `i` the factory holds the services before it.
   */
  lemma DependenciesRegisteredFirst(f: ServiceFactory, cat: Catalogue, config: Config, nodes: Nodes, i: nat)
    requires Rounds(f, cat, config, nodes).result.Ok?
    requires i < |Order(nodes)|
    ensures var order := Order(nodes);
            var before := CreateAll(f, cat, config, order[..i]);
            && order[i] in nodes && order[i] !in order[..i]
            && before.result.Ok?
            && Rounds(f, cat, config, nodes) == Then(before, CreateAll(before.result.value, cat, config, order[i..]))
            && nodes[order[i]] <= before.result.value.services.Keys
  {
    var order := Order(nodes);
    assert order == order[..i] + order[i..];
    RoundsRunInOrder(f, cat, config, nodes);
    OrderFollowsDependencies(nodes);
    CreateAllConcat(f, cat, config, order[..i], order[i..]);
    DistinctNotBefore(order, i);
  }

  lemma DistinctNotBefore(xs: seq<string>, i: nat)
    requires Distinct(xs) && i < |xs|
    ensures xs[i] !in xs[..i]
  {
    forall k | 0 <= k < i
      ensures xs[..i][k] != xs[i]
    {
    }
  }

  /** Every service of the graph has its place in the creation order of a run that finishes. */
  lemma OrderIsTheGraph(f: ServiceFactory, cat: Catalogue, config: Config, nodes: Nodes)
    requires Rounds(f, cat, config, nodes).result.Ok?
    ensures forall n :: n in nodes <==> n in Order(nodes)
  {
    RoundsRunInOrder(f, cat, config, nodes);
    OrderFollowsDependencies(nodes);
  }

  /** The "No nodes removed!" exception is never raised: a round that gets that far has removed its ready services. */
  lemma {:induction false} NoNodesRemovedNeverRaised(f: ServiceFactory, cat: Catalogue, config: Config, nodes: Nodes)
    ensures Rounds(f, cat, config, nodes).result.Err? ==> Rounds(f, cat, config, nodes).result.error != NoNodesRemoved
    decreases |nodes|
  {
    if nodes != map[] {
      var ready := Ready(nodes);
      var made := CreateAll(f, cat, config, Enumerate(ready));
      if made.result.Ok? && ready != {} {
        PeelShrinks(nodes, ready);
        NoNodesRemovedNeverRaised(made.result.value, cat, config, Peel(nodes, ready));
      }
    }
  }

  /**
   * `do` on a resolver: when it succeeds, the registry holds exactly the
   * configured services and the graph was closed and acyclic; a graph with a
   * cycle or with a dependency on an unconfigured name makes it fail.
   */
  lemma DoSucceedsOnlyOnAcyclicGraphs(res: Resolver, cat: Catalogue)
    requires res.factory.services == map[]
    ensures Do(res, cat).result.Ok? ==> Closed(res.nodes) && !HasCycle(res.nodes)
    ensures Do(res, cat).result.Ok? && res.nodes != map[] ==> Do(res, cat).result.value.value.Keys == res.nodes.Keys
    ensures HasCycle(res.nodes) || !Closed(res.nodes) ==> Do(res, cat).result.Err?
  {
    if res.nodes != map[] && Rounds(res.factory, cat, res.config, res.nodes).result.Ok? {
      RoundsNeedAcyclicClosedGraph(res.factory, cat, res.config, res.nodes);
      RoundsFollowDependencies(res.factory, cat, res.config, res.nodes);
    }
    if res.nodes == map[] {
      RankedIsAcyclic(res.nodes, map[]);
    }
  }

  /** On a closed, acyclic graph, `do` raises only what creating a service raised. */
  lemma AcyclicDoFailsOnlyInCreate(res: Resolver, cat: Catalogue)
    requires Closed(res.nodes) && !HasCycle(res.nodes)
    ensures Do(res, cat).result.Err? ==> FactoryError(Do(res, cat).result.error)
    ensures Do(res, cat).result != Err(NoNewlyInstantiated)
  {
    if res.nodes != map[] {
      AcyclicRoundsFailOnlyInCreate(res.factory, cat, res.config, res.nodes);
    }
  }

  // --------------------------------------------------- services are found

  /** The resolver's view of a service: its graph node lists the `@` names of its arguments. */
  ghost predicate NodesMatch(config: Config, graph: Nodes)
  {
    forall n :: n in graph ==> n in config && DescriptorDependencies(config[n]) == Ok(graph[n])
  }

  /**
   * A service whose dependencies are all built finds them when it is
   * created, as long as no scalar value holds an `@` reference.
   */
  lemma CreateFromDictFindsServices(f: ServiceFactory, cat: Catalogue, conf: map<string, Value>)
    requires ScalarsServiceFree(f)
    requires DescriptorDependencies(conf).Ok? && DescriptorDependencies(conf).value <= f.services.Keys
    ensures CreateFromDict(f, cat, conf).result != Err(UninstantiatedService)
  {
    if FromDict(conf).Ok? {
      CreateFindsItsServices(f, cat, FromDict(conf).value);
    }
  }

  lemma {:induction false} CreateAllFindsServices(f: ServiceFactory, cat: Catalogue, config: Config, graph: Nodes, names: seq<string>)
    requires ScalarsServiceFree(f) && NodesMatch(config, graph)
    requires forall i :: 0 <= i < |names| ==> names[i] in graph && graph[names[i]] <= f.services.Keys
    ensures CreateAll(f, cat, config, names).result != Err(UninstantiatedService)
    decreases |names|
  {
    if names != [] {
      CreateFromDictFindsServices(f, cat, config[names[0]]);
      var made := CreateFromDict(f, cat, config[names[0]]);
      if made.result.Ok? {
        var g := AddInstantiatedService(f, names[0], made.result.value);
        assert forall i :: 0 <= i < |names[1..]| ==> names[1..][i] == names[i + 1];
        CreateAllFindsServices(g, cat, config, graph, names[1..]);
      }
    }
  }

  /**
   * What the rounds keep: the dependencies a node has already lost are
   * built services.
   */
  ghost predicate RoundInvariant(f: ServiceFactory, config: Config, graph: Nodes, nodes: Nodes)
  {
    && ScalarsServiceFree(f)
    && NodesMatch(config, graph)
    && forall n :: n in nodes ==> n in graph && nodes[n] <= graph[n] && graph[n] - nodes[n] <= f.services.Keys
  }

  lemma {:induction false} RoundsFindServices(f: ServiceFactory, cat: Catalogue, config: Config, graph: Nodes, nodes: Nodes)
    requires RoundInvariant(f, config, graph, nodes)
    ensures Rounds(f, cat, config, nodes).result != Err(UninstantiatedService)
    decreases |nodes|
  {
    if nodes != map[] {
      var ready := Ready(nodes);
      var made := CreateAll(f, cat, config, Enumerate(ready));
      RoundFindsServices(f, cat, config, graph, nodes);
      if made.result.Ok? && ready != {} {
        RoundsFindServices(made.result.value, cat, config, graph, Peel(nodes, ready));
      }
    }
  }

  /** One round finds every service it needs and hands the invariant on to a smaller graph. */
  lemma RoundFindsServices(f: ServiceFactory, cat: Catalogue, config: Config, graph: Nodes, nodes: Nodes)
    requires RoundInvariant(f, config, graph, nodes)
    ensures CreateAll(f, cat, config, Enumerate(Ready(nodes))).result != Err(UninstantiatedService)
    ensures CreateAll(f, cat, config, Enumerate(Ready(nodes))).result.Ok? && Ready(nodes) != {} ==>
              && RoundInvariant(CreateAll(f, cat, config, Enumerate(Ready(nodes))).result.value, config, graph, Peel(nodes, Ready(nodes)))
              && |Peel(nodes, Ready(nodes))| < |nodes|
  {
    var ready := Ready(nodes);
    var names := Enumerate(ready);
    ReadyAreBuildable(f, config, graph, nodes, names);
    CreateAllFindsServices(f, cat, config, graph, names);
    var made := CreateAll(f, cat, config, names);
    if made.result.Ok? && ready != {} {
      PeelShrinks(nodes, ready);
      RoundKeepsInvariant(f, made.result.value, config, graph, nodes, names);
    }
  }

  /** Every service of a round has all its dependencies built. */
  lemma ReadyAreBuildable(f: ServiceFactory, config: Config, graph: Nodes, nodes: Nodes, names: seq<string>)
    requires RoundInvariant(f, config, graph, nodes)
    requires forall n :: n in names <==> n in Ready(nodes)
    ensures forall i :: 0 <= i < |names| ==> names[i] in graph && graph[names[i]] <= f.services.Keys
  {
    forall i | 0 <= i < |names|
      ensures names[i] in graph && graph[names[i]] <= f.services.Keys
    {
      assert names[i] in Ready(nodes);
    }
  }

  /** A round with something ready removes it from the graph. */
  lemma PeelShrinks(nodes: Nodes, ready: set<string>)
    requires ready != {} && ready <= nodes.Keys
    ensures |Peel(nodes, ready)| < |nodes|
  {
    var x :| x in ready;
    assert Peel(nodes, ready).Keys < nodes.Keys;
  }

  lemma RoundKeepsInvariant(f: ServiceFactory, g: ServiceFactory, config: Config, graph: Nodes, nodes: Nodes, names: seq<string>)
    requires RoundInvariant(f, config, graph, nodes)
    requires g.scalars == f.scalars
    requires forall n :: n in g.services <==> n in f.services || n in names
    requires forall n :: n in names <==> n in Ready(nodes)
    ensures RoundInvariant(g, config, graph, Peel(nodes, Ready(nodes)))
  {
    var ready := Ready(nodes);
    var next := Peel(nodes, ready);
    forall n | n in next
      ensures graph[n] - next[n] <= g.services.Keys
    {
      forall d | d in graph[n] - next[n]
        ensures d in g.services
      {
        if d in nodes[n] {
          assert d in names;
        }
      }
    }
  }

  /**
   * Every `@` argument is found when its service is created: `do` on a new
   * resolver never raises `UninstantiatedServiceException`, as long as no
   * scalar value is itself an `@` reference.
   */
  lemma DoNeverMissesAService(config: Config, scalars: map<string, Value>, cat: Catalogue)
    requires NewResolver(config, scalars).Ok?
    requires forall n :: n in scalars ==> RefNames(scalars[n], ServiceSigil) == {}
    ensures Do(NewResolver(config, scalars).value, cat).result != Err(UninstantiatedService)
  {
    var res := NewResolver(config, scalars).value;
    InitialRoundInvariant(config, scalars);
    DoFindsServices(res, cat);
  }

  /** A resolver that starts its rounds with the invariant never misses a service. */
  lemma DoFindsServices(res: Resolver, cat: Catalogue)
    requires RoundInvariant(res.factory, res.config, res.nodes, res.nodes)
    ensures Do(res, cat).result != Err(UninstantiatedService)
  {
    if res.nodes != map[] {
      RoundsFindServices(res.factory, cat, res.config, res.nodes, res.nodes);
    }
  }

  /** A new resolver starts the rounds with the invariant: nothing is built and no dependency is lost yet. */
  lemma InitialRoundInvariant(config: Config, scalars: map<string, Value>)
    requires NewResolver(config, scalars).Ok?
    requires forall n :: n in scalars ==> RefNames(scalars[n], ServiceSigil) == {}
    ensures var res := NewResolver(config, scalars).value;
            RoundInvariant(res.factory, config, res.nodes, res.nodes)
  {
  }
}
