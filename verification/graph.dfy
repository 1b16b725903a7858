/**
 * The dependency graph the resolver builds from a service configuration:
 * one node per configured service, whose edges are the `@` names found in
 * its positional and keyword arguments.
 */
module Graph {
  import opened Values
  import opened References
  import opened Enumeration

  /** Service name to the names it depends on. */
  type Nodes = map<string, set<string>>

  /** Service name to its descriptor dict. */
  type Config = map<string, map<string, Value>>

  /**
   * One iteration of `_init_nodes`: `args` defaults to `[]` and `kwargs` to
   * `{}` when absent, each must then have the right type, and the
   * dependencies are the `@` leaves of both, at any depth of nesting.
   */
  function DescriptorDependencies(conf: map<string, Value>): (r: Result<set<string>>)
    ensures var args := GetOr(conf, "args", List([]));
            var kwargs := GetOr(conf, "kwargs", Dict(map[]));
            && (!args.List? ==> r == Err(TypeError("args")))
            && (args.List? && !kwargs.Dict? ==> r == Err(TypeError("kwargs")))
            && (r.Ok? <==> args.List? && kwargs.Dict?)
  {
    var args := GetOr(conf, "args", List([]));
    var kwargs := GetOr(conf, "kwargs", Dict(map[]));
    if !args.List? then Err(TypeError("args"))
    else if !kwargs.Dict? then Err(TypeError("kwargs"))
    else Ok(RefNames(args, ServiceSigil) + RefNames(kwargs, ServiceSigil))
  }

  /**
   * A service depends on `n` exactly when `"@" + n` is a string leaf of its
   * positional or keyword arguments, at any depth of nesting.
   */
  lemma DependenciesAreServiceLeaves(conf: map<string, Value>, n: string)
    requires DescriptorDependencies(conf).Ok?
    ensures n in DescriptorDependencies(conf).value <==>
              || HasLeaf(GetOr(conf, "args", List([])), [ServiceSigil] + n)
              || HasLeaf(GetOr(conf, "kwargs", Dict(map[])), [ServiceSigil] + n)
  {
    RefNamesAreLeaves(GetOr(conf, "args", List([])), ServiceSigil, n);
    RefNamesAreLeaves(GetOr(conf, "kwargs", Dict(map[])), ServiceSigil, n);
  }

  /**
   * `_init_nodes`: the graph has one node per configured service. The
   * descriptors are visited in dict order, so when several are malformed
   * the one raised is the first in that order.
   */
  ghost function InitNodes(config: Config): (r: Result<Nodes>)
    ensures r.Ok? <==> forall name :: name in config ==> DescriptorDependencies(config[name]).Ok?
    ensures r.Err? ==> exists name :: name in config && DescriptorDependencies(config[name]) == Err(r.error)
    ensures r.Err? ==> r.error.TypeError?
    ensures r.Ok? ==> r.value.Keys == config.Keys
    ensures r.Ok? ==> forall name :: name in config ==> Ok(r.value[name]) == DescriptorDependencies(config[name])
  {
    InitFrom(config, Enumerate(config.Keys), map[])
  }

  ghost function InitFrom(config: Config, names: seq<string>, acc: Nodes): (r: Result<Nodes>)
    requires forall name :: name in names ==> name in config
    requires forall name :: name in acc ==> name in config && Ok(acc[name]) == DescriptorDependencies(config[name])
    ensures r.Ok? <==> forall name :: name in names ==> DescriptorDependencies(config[name]).Ok?
    ensures r.Err? ==> exists name :: name in names && DescriptorDependencies(config[name]) == Err(r.error)
    ensures r.Err? ==> r.error.TypeError?
    ensures r.Ok? ==> forall name :: name in r.value <==> name in acc || name in names
    ensures r.Ok? ==> forall name :: name in r.value ==> Ok(r.value[name]) == DescriptorDependencies(config[name])
    decreases |names|
  {
    if names == [] then Ok(acc)
    else
      match DescriptorDependencies(config[names[0]])
      case Err(e) => Err(e)
      case Ok(deps) =>
        assert forall name :: name in names <==> name == names[0] || name in names[1..];
        InitFrom(config, names[1..], acc[names[0] := deps])
  }

  // ----------------------------------------------------------- graph terms

  /** Every dependency names a configured service. */
  predicate Closed(nodes: Nodes)
  {
    forall n, d :: n in nodes && d in nodes[n] ==> d in nodes
  }

  /** `w` follows dependency edges from node to node. */
  predicate IsWalk(nodes: Nodes, w: seq<string>)
  {
    && |w| > 0
    && (forall i :: 0 <= i < |w| ==> w[i] in nodes)
    && (forall i :: 0 <= i < |w| - 1 ==> w[i + 1] in nodes[w[i]])
  }

  /** Some service depends, directly or not, on itself. */
  ghost predicate HasCycle(nodes: Nodes)
  {
    exists w :: IsWalk(nodes, w) && |w| > 1 && w[0] == w[|w| - 1]
  }

  /**
   * `rank` is a witness that the graph can be built bottom-up: every
   * dependency is a configured service of strictly smaller rank.
   */
  predicate Ranked(nodes: Nodes, rank: map<string, nat>)
  {
    && nodes.Keys <= rank.Keys
    && forall n, d :: n in nodes && d in nodes[n] ==> d in nodes && d in rank && rank[d] < rank[n]
  }

  /** Along a walk in a ranked graph the rank strictly falls. */
  lemma {:induction false} RankFallsAlongWalk(nodes: Nodes, rank: map<string, nat>, w: seq<string>, j: nat)
    requires Ranked(nodes, rank) && IsWalk(nodes, w)
    requires 0 < j < |w|
    ensures rank[w[j]] < rank[w[0]]
  {
    if j > 1 {
      RankFallsAlongWalk(nodes, rank, w, j - 1);
    }
    assert w[j] in nodes[w[j - 1]];
  }

  /** A ranked graph is closed and has no cycle. */
  lemma RankedIsAcyclic(nodes: Nodes, rank: map<string, nat>)
    requires Ranked(nodes, rank)
    ensures Closed(nodes)
    ensures !HasCycle(nodes)
  {
    if HasCycle(nodes) {
      var w :| IsWalk(nodes, w) && |w| > 1 && w[0] == w[|w| - 1];
      RankFallsAlongWalk(nodes, rank, w, |w| - 1);
    }
  }

  /**
   * If every service of a closed, non-empty graph still waits on some
   * dependency, following dependencies must come back to a service already
   * visited: the graph has a cycle.
   */
  lemma StuckMeansCycle(nodes: Nodes)
    requires Closed(nodes) && nodes != map[]
    requires forall n :: n in nodes ==> nodes[n] != {}
    ensures HasCycle(nodes)
  {
    var start :| start in nodes;
    var w := LongWalk(nodes, start, |nodes.Keys| + 1);
    var i, j := Pigeonhole(w, nodes.Keys);
    RepeatOnWalk(nodes, w, i, j);
  }

  /** A walk that meets the same service twice contains a cycle. */
  lemma RepeatOnWalk(nodes: Nodes, w: seq<string>, i: nat, j: nat)
    requires IsWalk(nodes, w) && i < j < |w| && w[i] == w[j]
    ensures HasCycle(nodes)
  {
    var c := w[i..j + 1];
    SubWalk(nodes, w, i, j + 1);
    assert |c| > 1 && c[0] == w[i] && c[|c| - 1] == w[j];
    CycleWitness(nodes, c);
  }

  /** A closed walk of more than one service is a cycle. */
  lemma CycleWitness(nodes: Nodes, c: seq<string>)
    requires IsWalk(nodes, c) && |c| > 1 && c[0] == c[|c| - 1]
    ensures HasCycle(nodes)
  {
  }

  /** A non-empty stretch of a walk is a walk. */
  lemma SubWalk(nodes: Nodes, w: seq<string>, lo: nat, hi: nat)
    requires IsWalk(nodes, w) && lo < hi <= |w|
    ensures IsWalk(nodes, w[lo..hi])
  {
    var c := w[lo..hi];
    assert forall k :: 0 <= k < |c| ==> c[k] == w[lo + k];
  }

  /** A walk of the requested length in a graph where every node has a dependency. */
  ghost function LongWalk(nodes: Nodes, start: string, len: nat): (w: seq<string>)
    requires Closed(nodes) && start in nodes
    requires forall n :: n in nodes ==> nodes[n] != {}
    requires len > 0
    ensures |w| == len && w[0] == start && IsWalk(nodes, w)
    decreases len
  {
    if len == 1 then [start]
    else
      var next :| next in nodes[start];
      var rest := LongWalk(nodes, next, len - 1);
      var w := [start] + rest;
      assert forall i :: 1 <= i < |w| ==> w[i] == rest[i - 1];
      w
  }

  /** More entries than distinct values: some value repeats. */
  lemma Pigeonhole(w: seq<string>, s: set<string>) returns (i: nat, j: nat)
    requires forall k :: 0 <= k < |w| ==> w[k] in s
    requires |w| > |s|
    ensures i < j < |w| && w[i] == w[j]
  {
    if Distinct(w) {
      DistinctFitsIn(w, s);
      assert false;
    }
    i, j :| 0 <= i < j < |w| && w[i] == w[j];
  }

  lemma {:induction false} DistinctFitsIn(w: seq<string>, s: set<string>)
    requires Distinct(w)
    requires forall k :: 0 <= k < |w| ==> w[k] in s
    ensures |w| <= |s|
    decreases |w|
  {
    if w != [] {
      assert forall k :: 0 <= k < |w[1..]| ==> w[1..][k] == w[k + 1];
      DistinctFitsIn(w[1..], s - {w[0]});
    }
  }

  /** The configuration of the resolver's documentation example: `bar` takes `@foo` as an argument. */
  const FooConf: map<string, Value> := map["module" := Str("m"), "class" := Str("Foo")]
  const BarConf: map<string, Value> := map["module" := Str("m"), "class" := Str("Bar"), "args" := List([Str("@foo")])]
  const FooBarConfig: Config := map["foo" := FooConf, "bar" := BarConf]

  /** Its graph: `foo` depends on nothing and `bar` on `foo`. */
  lemma FooBarNodes()
    ensures InitNodes(FooBarConfig) == Ok(map["foo" := {}, "bar" := {"foo"}])
  {
    NoArgumentsNoDependencies(FooConf);
    OneServiceArgument(BarConf, "@foo");
    assert "@foo"[1..] == "foo";
    InitNodesOfTwo(FooBarConfig, "foo", "bar", {}, {"foo"});
  }

  lemma InitNodesOfTwo(config: Config, a: string, b: string, da: set<string>, db: set<string>)
    requires a != b && config.Keys == {a, b}
    requires DescriptorDependencies(config[a]) == Ok(da) && DescriptorDependencies(config[b]) == Ok(db)
    ensures InitNodes(config) == Ok(map[a := da, b := db])
  {
    var r := InitNodes(config);
    assert r.Ok?;
    var v := r.value;
    assert v.Keys == {a, b};
    assert Ok(v[a]) == DescriptorDependencies(config[a]);
    assert Ok(v[b]) == DescriptorDependencies(config[b]);
    TwoEntries(v, a, b);
  }

  lemma TwoEntries(v: Nodes, a: string, b: string)
    requires a != b && v.Keys == {a, b}
    ensures v == map[a := v[a], b := v[b]]
  {
  }

  lemma NoArgumentsNoDependencies(conf: map<string, Value>)
    requires "args" !in conf && "kwargs" !in conf
    ensures DescriptorDependencies(conf) == Ok({})
  {
    var r := DescriptorDependencies(conf);
    forall n ensures n !in r.value {
      DependenciesAreServiceLeaves(conf, n);
      assert !HasLeaf(List([]), [ServiceSigil] + n);
      assert !HasLeaf(Dict(map[]), [ServiceSigil] + n);
    }
    assert r.value == {};
  }

  lemma OneServiceArgument(conf: map<string, Value>, ref: string)
    requires "kwargs" !in conf && "args" in conf
    requires IsArgService(ref) && conf["args"] == List([Str(ref)])
    ensures DescriptorDependencies(conf) == Ok({ref[1..]})
  {
    var r := DescriptorDependencies(conf);
    var items := conf["args"].items;
    forall n ensures n in r.value <==> n == ref[1..] {
      DependenciesAreServiceLeaves(conf, n);
      var leaf := [ServiceSigil] + n;
      assert HasLeaf(conf["args"], leaf) <==> HasLeaf(items[0], leaf);
      assert !HasLeaf(Dict(map[]), leaf);
      if leaf == ref {
        assert n == leaf[1..];
      }
      if n == ref[1..] {
        assert leaf == ref;
      }
    }
    assert r.value == {ref[1..]};
  }
}
