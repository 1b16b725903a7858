/**
 * `detect_circle`: a depth-first walk from every service through its
 * dependencies, building one diagnostic node per visit and raising
 * `CircularDependencyException` with the path when it meets a service
 * already on the way.
 *
 * The source records the way travelled as the list of the characters of
 * the names visited (`traveled + list(name)`) and asks whether the next name
 * is in that list, which only a one-character name can be. `DetectCircle`
 * models that as written, with Python's recursion limit as a parameter;
 * `DetectCircleNames` is the evidently intended check on whole names. The
 * two agree when every name is one character long (`SingleCharacterNamesAgree`).
 */
module Cycles {
  import opened Values
  import opened Strings
  import opened Enumeration
  import opened Graph
  import opened Tree

  /** `CircularDependencyException.node_path`. */
  function NodePath(path: seq<string>): (s: string)
    ensures |path| == 1 ==> s == path[0]
  {
    Join(path, "->")
  }

  /**
   * Extending a path by one name extends its rendering by `->` and that
   * name, so `node_path` lists the names in order, separated by `->`.
   */
  lemma {:induction false} NodePathAppend(p: seq<string>, x: string)
    requires p != []
    ensures NodePath(p + [x]) == NodePath(p) + "->" + x
    decreases |p|
  {
    if |p| == 1 {
      assert (p + [x])[1..] == [x];
    } else {
      assert (p + [x])[1..] == p[1..] + [x];
      NodePathAppend(p[1..], x);
      assert NodePath(p + [x]) == p[0] + "->" + (NodePath(p[1..]) + "->" + x);
    }
  }

  /** Three- and four-name paths, as the cycle reports below need them. */
  lemma NodePathOfThree(x: string, y: string, z: string)
    ensures NodePath([x, y, z]) == x + "->" + y + "->" + z
  {
    assert [x] + [y] == [x, y];
    NodePathAppend([x], y);
    assert [x, y] + [z] == [x, y, z];
    NodePathAppend([x, y], z);
  }

  lemma NodePathOfFour(w: string, x: string, y: string, z: string)
    ensures NodePath([w, x, y, z]) == w + "->" + x + "->" + y + "->" + z
  {
    NodePathOfThree(w, x, y);
    assert [w, x, y] + [z] == [w, x, y, z];
    NodePathAppend([w, x, y], z);
  }

  /** The fixed start of the exception's message, spelled as in the source. */
  const CircularPrefix: string := "Circular Depedency Detected: "

  /** The exception's `message`: the fixed start, then the node path. */
  function CircularMessage(path: seq<string>): (m: string)
    ensures |CircularPrefix| <= |m| && m[..|CircularPrefix|] == CircularPrefix
    ensures m[|CircularPrefix|..] == NodePath(path)
  {
    CircularPrefix + NodePath(path)
  }

  /** Two messages are equal exactly when the node paths are. */
  lemma MessageTellsNodePath(p: seq<string>, q: seq<string>)
    ensures CircularMessage(p) == CircularMessage(q) <==> NodePath(p) == NodePath(q)
  {
  }

  /**
   * What `traveled` holds when every name is one character long: a
   * character is in it exactly when its one-character name is on `path`.
   */
  predicate Tracks(traveled: seq<char>, path: seq<string>)
  {
    forall c :: c in traveled <==> [c] in path
  }

  /** `name in traveled` for a list of one-character strings. */
  predicate InTraveled(name: string, traveled: seq<char>)
  {
    |name| == 1 && name[0] in traveled
  }

  /** `child.parent = node; node.add_child(child)` for each child, in order. */
  function Adopt(children: seq<Node>, parent: string): (r: seq<Node>)
    ensures |r| == |children|
    ensures forall i :: 0 <= i < |r| ==> r[i] == SetParent(children[i], Some(parent))
  {
    seq(|children|, i requires 0 <= i < |children| => SetParent(children[i], Some(parent)))
  }

  // ------------------------------------------------------------ as written

  /** What the search as written can raise: a cycle is only ever seen on a one-character name. */
  predicate AsWrittenError(e: Error)
  {
    || (e.CircularDependency? && |e.path| > 0 && |e.path[|e.path| - 1]| == 1)
    || e.KeyError?
    || e.RecursionLimit?
  }

  /**
   * `_detect_circle` as written. `limit` is the number of nested calls the
   * interpreter still allows; each call uses one, and its loop over the
   * names runs at the depth the call reached.
   */
  ghost function DetectFrom(nodes: Nodes, deps: set<string>, traveled: seq<char>, path: seq<string>, limit: nat)
    : (r: Result<seq<Node>>)
    ensures r.Ok? ==> |r.value| == |deps|
    ensures r.Ok? ==> forall d :: d in deps <==> exists i :: 0 <= i < |r.value| && r.value[i].value == d
    ensures r.Err? ==> AsWrittenError(r.error)
    decreases limit, 1
  {
    if limit == 0 then Err(RecursionLimit)
    else if deps == {} then Ok([])
    else VisitAll(nodes, Enumerate(deps), traveled, path, limit)
  }

  /** The loop of `_detect_circle` over the names still to visit. */
  ghost function VisitAll(nodes: Nodes, names: seq<string>, traveled: seq<char>, path: seq<string>, limit: nat)
    : (r: Result<seq<Node>>)
    requires limit > 0
    ensures r.Ok? ==> |r.value| == |names|
    ensures r.Ok? ==> forall i :: 0 <= i < |names| ==> r.value[i].value == names[i] && r.value[i].parent == None
    ensures r.Err? ==> AsWrittenError(r.error)
    decreases limit, 0, |names|
  {
    if names == [] then Ok([])
    else
      var name := names[0];
      var newPath := path + [name];
      if InTraveled(name, traveled) then Err(CircularDependency(newPath))
      else if name !in nodes then Err(KeyError(name))
      else
        var sub :- DetectFrom(nodes, nodes[name], traveled + name, newPath, limit - 1);
        var rest :- VisitAll(nodes, names[1..], traveled, path, limit);
        Ok([Node(name, Adopt(sub, name), None)] + rest)
  }

  /** The nodes of a list of nodes, as arguments. */
  function AsItems(heads: seq<Node>): (r: seq<Item>)
    ensures |r| == |heads| && forall i :: 0 <= i < |r| ==> r[i] == NodeItem(heads[i])
  {
    seq(|heads|, i requires 0 <= i < |heads| => NodeItem(heads[i]))
  }

  /**
   * `detect_circle`: start from every key with nothing travelled, and wrap
   * the nodes in a tree. It raises a cycle, a missing service or the
   * recursion limit, and only ever reports a cycle on a one-character name.
   */
  ghost function DetectCircle(nodes: Nodes, limit: nat): (r: Result<DependencyTree>)
    ensures r.Err? ==> AsWrittenError(r.error)
  {
    var heads :- DetectFrom(nodes, nodes.Keys, [], [], limit);
    TreeOfHeads(heads);
    NewTree(HeadList(AsItems(heads)))
  }

  // ------------------------------------------------------------- corrected

  /** The configured services not yet on `path`. */
  function Unvisited(nodes: Nodes, path: seq<string>): set<string>
  {
    set n | n in nodes && n !in path
  }

  /** `_detect_circle` testing whole names against the path. */
  ghost function DetectNames(nodes: Nodes, deps: set<string>, path: seq<string>): (r: Result<seq<Node>>)
    ensures r.Ok? ==> |r.value| == |deps|
    ensures r.Ok? ==> forall d :: d in deps <==> exists i :: 0 <= i < |r.value| && r.value[i].value == d
    decreases Unvisited(nodes, path), 1
  {
    if deps == {} then Ok([])
    else VisitNames(nodes, Enumerate(deps), path)
  }

  ghost function VisitNames(nodes: Nodes, names: seq<string>, path: seq<string>): (r: Result<seq<Node>>)
    ensures r.Ok? ==> |r.value| == |names|
    ensures r.Ok? ==> forall i :: 0 <= i < |names| ==> r.value[i].value == names[i] && r.value[i].parent == None
    decreases Unvisited(nodes, path), 0, |names|
  {
    if names == [] then Ok([])
    else
      var name := names[0];
      var newPath := path + [name];
      if name in path then Err(CircularDependency(newPath))
      else if name !in nodes then Err(KeyError(name))
      else
        assert Unvisited(nodes, newPath) < Unvisited(nodes, path) by {
          assert name in Unvisited(nodes, path) && name !in Unvisited(nodes, newPath);
        }
        var sub :- DetectNames(nodes, nodes[name], newPath);
        var rest :- VisitNames(nodes, names[1..], path);
        Ok([Node(name, Adopt(sub, name), None)] + rest)
  }

  /**
   * `detect_circle` as evidently intended: the search on whole names. It
   * fails only for a reason, never for the recursion limit: a reported
   * cycle is a walk that comes back to a service on it for the first time,
   * and a `KeyError` means some dependency is not configured.
   */
  ghost function DetectCircleNames(nodes: Nodes): (r: Result<DependencyTree>)
    ensures r.Err? ==>
              || (r.error.CircularDependency? && IsWalk(nodes, r.error.path) && FirstReturn(r.error.path))
              || (r.error.KeyError? && !Closed(nodes))
  {
    NamesErrors(nodes, nodes.Keys, []);
    var heads :- DetectNames(nodes, nodes.Keys, []);
    TreeOfHeads(heads);
    NewTree(HeadList(AsItems(heads)))
  }

  // --------------------------------------------------------- the tree built

  lemma {:induction false} PrefixOfNodes(heads: seq<Node>)
    ensures NodePrefix(AsItems(heads)) == heads
    decreases |heads|
  {
    if heads != [] {
      assert AsItems(heads)[1..] == AsItems(heads[1..]);
      PrefixOfNodes(heads[1..]);
    }
  }

  /** Wrapping the nodes in `DependencyTree` never raises and keeps them in order. */
  lemma TreeOfHeads(heads: seq<Node>)
    ensures NewTree(HeadList(AsItems(heads))) == Ok(DependencyTree(heads))
  {
    NewTreeKeepsOrder(AsItems(heads));
    PrefixOfNodes(heads);
  }

  /**
   * A search that finds no cycle returns one head per key: `head_values` is
   * the key set and `head_count` its size.
   */
  lemma HeadsAreTheKeys(nodes: Nodes, limit: nat)
    requires DetectCircle(nodes, limit).Ok?
    ensures HeadValues(DetectCircle(nodes, limit).value) == nodes.Keys
    ensures HeadCount(DetectCircle(nodes, limit).value) == |nodes.Keys|
  {
    TreeOfHeads(DetectFrom(nodes, nodes.Keys, [], [], limit).value);
  }

  /** The same for the corrected search. */
  lemma HeadsAreTheKeysNames(nodes: Nodes)
    requires DetectCircleNames(nodes).Ok?
    ensures HeadValues(DetectCircleNames(nodes).value) == nodes.Keys
    ensures HeadCount(DetectCircleNames(nodes).value) == |nodes.Keys|
  {
    TreeOfHeads(DetectNames(nodes, nodes.Keys, []).value);
  }

  // ------------------------------------------- what the corrected search finds

  /**
   * Where a frame of the search stands: at the top with every key to visit,
   * or at the end of a walk with the last service's dependencies to visit.
   */
  ghost predicate Frame(nodes: Nodes, deps: set<string>, path: seq<string>)
  {
    if path == [] then deps == nodes.Keys
    else IsWalk(nodes, path) && deps == nodes[path[|path| - 1]]
  }

  /** A path whose last service already occurs earlier on it. */
  predicate RepeatsLast(p: seq<string>)
  {
    |p| > 1 && p[|p| - 1] in p[..|p| - 1]
  }

  /**
   * A path that stops at the first service it meets again: its last service
   * occurs earlier, and nothing before it repeats.
   */
  predicate FirstReturn(p: seq<string>)
  {
    RepeatsLast(p) && Distinct(p[..|p| - 1])
  }

  lemma ExtendWalk(nodes: Nodes, path: seq<string>, name: string)
    requires path == [] || IsWalk(nodes, path)
    requires name in nodes
    requires path != [] ==> name in nodes[path[|path| - 1]]
    ensures IsWalk(nodes, path + [name])
  {
    var w := path + [name];
    assert forall i :: 0 <= i < |path| ==> w[i] == path[i];
  }

  /** A walk that comes back to a service it passed through contains a cycle. */
  lemma RepeatIsCycle(nodes: Nodes, p: seq<string>)
    requires IsWalk(nodes, p) && RepeatsLast(p)
    ensures HasCycle(nodes)
  {
    var i :| 0 <= i < |p| - 1 && p[..|p| - 1][i] == p[|p| - 1];
    SubWalk(nodes, p, i, |p|);
    var c := p[i..];
    assert c[0] == p[i] && c[|c| - 1] == p[|p| - 1];
  }

  /**
   * The corrected search fails only for a reason: a `CircularDependency`
   * path is a walk coming back to a service on it, and a `KeyError` names a
   * dependency that is not configured.
   */
  lemma {:induction false} NamesErrors(nodes: Nodes, deps: set<string>, path: seq<string>)
    requires Frame(nodes, deps, path) && Distinct(path)
    ensures var r := DetectNames(nodes, deps, path);
            r.Err? ==> || (r.error.CircularDependency? && IsWalk(nodes, r.error.path) && FirstReturn(r.error.path))
                       || (r.error.KeyError? && !Closed(nodes))
    decreases Unvisited(nodes, path), 1
  {
    if deps != {} {
      VisitNamesErrors(nodes, Enumerate(deps), deps, path);
    }
  }

  lemma {:induction false} VisitNamesErrors(nodes: Nodes, names: seq<string>, deps: set<string>, path: seq<string>)
    requires Frame(nodes, deps, path) && Distinct(path)
    requires forall i :: 0 <= i < |names| ==> names[i] in deps
    ensures var r := VisitNames(nodes, names, path);
            r.Err? ==> || (r.error.CircularDependency? && IsWalk(nodes, r.error.path) && FirstReturn(r.error.path))
                       || (r.error.KeyError? && !Closed(nodes))
    decreases Unvisited(nodes, path), 0, |names|
  {
    if names != [] {
      var name := names[0];
      var newPath := path + [name];
      if name in path {
        ExtendWalk(nodes, path, name);
        assert newPath[..|newPath| - 1] == path;
      } else if name !in nodes {
        assert path != [];
        assert name in nodes[path[|path| - 1]];
      } else {
        assert Unvisited(nodes, newPath) < Unvisited(nodes, path) by {
          assert name in Unvisited(nodes, path) && name !in Unvisited(nodes, newPath);
        }
        ExtendWalk(nodes, path, name);
        assert newPath[|newPath| - 1] == name;
        assert Distinct(newPath);
        NamesErrors(nodes, nodes[name], newPath);
        VisitNamesErrors(nodes, names[1..], deps, path);
      }
    }
  }

  /** A successful frame went one level deeper into every dependency, each new on the path. */
  lemma {:induction false} VisitNamesOk(nodes: Nodes, names: seq<string>, path: seq<string>, i: nat)
    requires VisitNames(nodes, names, path).Ok?
    requires i < |names|
    ensures names[i] !in path && names[i] in nodes
    ensures DetectNames(nodes, nodes[names[i]], path + [names[i]]).Ok?
    decreases |names|
  {
    if i > 0 {
      VisitNamesOk(nodes, names[1..], path, i - 1);
    }
  }

  lemma NamesOkStep(nodes: Nodes, deps: set<string>, path: seq<string>, d: string)
    requires DetectNames(nodes, deps, path).Ok? && d in deps
    ensures d !in path && d in nodes
    ensures DetectNames(nodes, nodes[d], path + [d]).Ok?
  {
    var names := Enumerate(deps);
    var i :| 0 <= i < |names| && names[i] == d;
    VisitNamesOk(nodes, names, path, i);
  }

  /** Below a successful frame, no walk from the end of the path comes back onto the path. */
  lemma {:induction false} FreshAlongWalk(nodes: Nodes, path: seq<string>, w: seq<string>)
    requires path != [] && path[|path| - 1] in nodes
    requires DetectNames(nodes, nodes[path[|path| - 1]], path).Ok?
    requires IsWalk(nodes, w) && w[0] == path[|path| - 1]
    ensures forall j :: 1 <= j < |w| ==> w[j] !in path
    decreases |w|
  {
    if |w| > 1 {
      NamesOkStep(nodes, nodes[w[0]], path, w[1]);
      var path' := path + [w[1]];
      FreshAlongWalk(nodes, path', w[1..]);
      forall j | 2 <= j < |w|
        ensures w[j] !in path
      {
        assert w[j] == w[1..][j - 1];
      }
    }
  }

  /**
   * The corrected search succeeds exactly on graphs where every dependency
   * is configured and no service depends on itself, directly or not.
   */
  lemma NamesFindEveryCycle(nodes: Nodes)
    ensures DetectCircleNames(nodes).Ok? <==> Closed(nodes) && !HasCycle(nodes)
  {
    var top := DetectNames(nodes, nodes.Keys, []);
    if top.Ok? {
      TreeOfHeads(top.value);
      NamesOkIsAcyclic(nodes);
    } else {
      NamesErrIsCyclic(nodes);
    }
  }

  lemma NamesOkIsAcyclic(nodes: Nodes)
    requires DetectNames(nodes, nodes.Keys, []).Ok?
    ensures Closed(nodes) && !HasCycle(nodes)
  {
    forall n, d | n in nodes && d in nodes[n]
      ensures d in nodes
    {
      NamesOkDepth2(nodes, n, d);
    }
    if HasCycle(nodes) {
      var w :| IsWalk(nodes, w) && |w| > 1 && w[0] == w[|w| - 1];
      NamesOkNoCycleThrough(nodes, w);
    }
  }

  lemma NamesOkDepth2(nodes: Nodes, n: string, d: string)
    requires DetectNames(nodes, nodes.Keys, []).Ok?
    requires n in nodes && d in nodes[n]
    ensures d in nodes
  {
    var top: seq<string> := [];
    NamesOkStep(nodes, nodes.Keys, top, n);
    NamesOkStep(nodes, nodes[n], top + [n], d);
  }

  lemma NamesOkNoCycleThrough(nodes: Nodes, w: seq<string>)
    requires DetectNames(nodes, nodes.Keys, []).Ok?
    requires IsWalk(nodes, w) && |w| > 1
    ensures w[0] != w[|w| - 1]
  {
    var top: seq<string> := [];
    NamesOkStep(nodes, nodes.Keys, top, w[0]);
    var start := top + [w[0]];
    assert start[|start| - 1] == w[0];
    FreshAlongWalk(nodes, start, w);
    assert w[|w| - 1] !in start;
  }

  lemma NamesErrIsCyclic(nodes: Nodes)
    requires DetectNames(nodes, nodes.Keys, []).Err?
    ensures !Closed(nodes) || HasCycle(nodes)
  {
    var top := DetectNames(nodes, nodes.Keys, []);
    NamesErrors(nodes, nodes.Keys, []);
    if top.error.CircularDependency? {
      RepeatIsCycle(nodes, top.error.path);
    }
  }

  // ------------------------------------- where the two searches coincide

  /** Every key and every dependency is a one-character name. */
  predicate SingleCharacterNames(nodes: Nodes)
  {
    forall n :: n in nodes ==> |n| == 1 && forall d :: d in nodes[n] ==> |d| == 1
  }

  /** With one-character names, the character test is the name test. */
  lemma TravelledIsOnPath(traveled: seq<char>, path: seq<string>, name: string)
    requires Tracks(traveled, path) && |name| == 1
    ensures InTraveled(name, traveled) <==> name in path
  {
    assert name == [name[0]];
  }

  /** Extending the path by a one-character name extends the travelled characters by it. */
  lemma TracksStep(traveled: seq<char>, path: seq<string>, name: string)
    requires Tracks(traveled, path) && |name| == 1
    ensures Tracks(traveled + name, path + [name])
  {
    assert name == [name[0]];
    forall c
      ensures c in traveled + name <==> [c] in path + [name]
    {
      assert c in traveled + name <==> c in traveled || c == name[0];
      assert [c] in path + [name] <==> [c] in path || [c] == name;
    }
  }

  lemma {:induction false} AgreeFrom(nodes: Nodes, deps: set<string>, traveled: seq<char>, path: seq<string>, limit: nat)
    requires SingleCharacterNames(nodes)
    requires forall d :: d in deps ==> |d| == 1
    requires forall i :: 0 <= i < |path| ==> path[i] in nodes
    requires Distinct(path) && Tracks(traveled, path)
    requires limit + |path| > |nodes.Keys|
    ensures DetectFrom(nodes, deps, traveled, path, limit) == DetectNames(nodes, deps, path)
    decreases Unvisited(nodes, path), 2
  {
    DistinctFitsIn(path, nodes.Keys);
    if deps == {} {
      UnfoldEmpty(nodes, deps, traveled, path, limit);
    } else {
      AgreeFromSome(nodes, deps, traveled, path, limit);
    }
  }

  lemma {:induction false} AgreeFromSome(nodes: Nodes, deps: set<string>, traveled: seq<char>, path: seq<string>, limit: nat)
    requires SingleCharacterNames(nodes)
    requires forall d :: d in deps ==> |d| == 1
    requires forall i :: 0 <= i < |path| ==> path[i] in nodes
    requires Distinct(path) && Tracks(traveled, path)
    requires deps != {} && limit > 0 && limit + |path| > |nodes.Keys|
    ensures DetectFrom(nodes, deps, traveled, path, limit) == DetectNames(nodes, deps, path)
    decreases Unvisited(nodes, path), 1
  {
    var names := Enumerate(deps);
    assert forall i :: 0 <= i < |names| ==> names[i] in deps;
    AgreeVisit(nodes, names, traveled, path, limit);
    UnfoldNonEmpty(nodes, deps, traveled, path, limit);
  }

  lemma UnfoldNonEmpty(nodes: Nodes, deps: set<string>, traveled: seq<char>, path: seq<string>, limit: nat)
    requires deps != {} && limit > 0
    requires VisitAll(nodes, Enumerate(deps), traveled, path, limit) == VisitNames(nodes, Enumerate(deps), path)
    ensures DetectFrom(nodes, deps, traveled, path, limit) == DetectNames(nodes, deps, path)
  {
    DetectFromUnfolds(nodes, deps, traveled, path, limit);
    DetectNamesUnfolds(nodes, deps, path);
  }

  lemma UnfoldEmpty(nodes: Nodes, deps: set<string>, traveled: seq<char>, path: seq<string>, limit: nat)
    requires limit > 0 && deps == {}
    ensures DetectFrom(nodes, deps, traveled, path, limit) == DetectNames(nodes, deps, path) == Ok([])
  {
  }

  lemma {:induction false} AgreeVisit(nodes: Nodes, names: seq<string>, traveled: seq<char>, path: seq<string>, limit: nat)
    requires SingleCharacterNames(nodes)
    requires forall i :: 0 <= i < |names| ==> |names[i]| == 1
    requires forall i :: 0 <= i < |path| ==> path[i] in nodes
    requires Distinct(path) && Tracks(traveled, path)
    requires limit > 0 && limit + |path| > |nodes.Keys|
    ensures VisitAll(nodes, names, traveled, path, limit) == VisitNames(nodes, names, path)
    decreases Unvisited(nodes, path), 0, |names|
  {
    if names != [] {
      var name := names[0];
      TravelledIsOnPath(traveled, path, name);
      if name !in path && name in nodes {
        var newPath := path + [name];
        TracksStep(traveled, path, name);
        assert Unvisited(nodes, newPath) < Unvisited(nodes, path) by {
          assert name in Unvisited(nodes, path) && name !in Unvisited(nodes, newPath);
        }
        assert Distinct(newPath);
        AgreeFrom(nodes, nodes[name], traveled + name, newPath, limit - 1);
        AgreeVisit(nodes, names[1..], traveled, path, limit);
        VisitStepAgrees(nodes, names, traveled, path, limit);
      } else {
        VisitStopAgrees(nodes, names, traveled, path, limit);
      }
    }
  }

  /** One step of the two visits: they agree when the two recursive results do. */
  lemma VisitStepAgrees(nodes: Nodes, names: seq<string>, traveled: seq<char>, path: seq<string>, limit: nat)
    requires limit > 0 && names != []
    requires !InTraveled(names[0], traveled) && names[0] !in path && names[0] in nodes
    requires DetectFrom(nodes, nodes[names[0]], traveled + names[0], path + [names[0]], limit - 1)
             == DetectNames(nodes, nodes[names[0]], path + [names[0]])
    requires VisitAll(nodes, names[1..], traveled, path, limit) == VisitNames(nodes, names[1..], path)
    ensures VisitAll(nodes, names, traveled, path, limit) == VisitNames(nodes, names, path)
  {
  }

  /** The two visits raise alike when the checks on the first name agree and one of them fails. */
  lemma VisitStopAgrees(nodes: Nodes, names: seq<string>, traveled: seq<char>, path: seq<string>, limit: nat)
    requires limit > 0 && names != []
    requires InTraveled(names[0], traveled) <==> names[0] in path
    requires names[0] in path || names[0] !in nodes
    ensures VisitAll(nodes, names, traveled, path, limit) == VisitNames(nodes, names, path)
  {
  }

  /**
   * When every name is one character long and the recursion limit exceeds
   * the number of services, the search as written is the corrected search.
   */
  lemma SingleCharacterNamesAgree(nodes: Nodes, limit: nat)
    requires SingleCharacterNames(nodes) && limit > |nodes.Keys|
    ensures DetectCircle(nodes, limit) == DetectCircleNames(nodes)
  {
    AgreeFrom(nodes, nodes.Keys, [], [], limit);
  }

  /**
   * So for one-character names, `detect_circle` succeeds exactly on closed,
   * acyclic graphs.
   */
  lemma SingleCharacterSearchFindsEveryCycle(nodes: Nodes, limit: nat)
    requires SingleCharacterNames(nodes) && limit > |nodes.Keys|
    ensures DetectCircle(nodes, limit).Ok? <==> Closed(nodes) && !HasCycle(nodes)
  {
    SingleCharacterNamesAgree(nodes, limit);
    NamesFindEveryCycle(nodes);
  }

  /**
   * On a closed graph with a cycle the corrected search raises
   * `CircularDependencyException`, and its path is a walk that comes back
   * to a service already on it.
   */
  lemma NamesReportCycles(nodes: Nodes)
    requires Closed(nodes) && HasCycle(nodes)
    ensures var r := DetectCircleNames(nodes);
            r.Err? && r.error.CircularDependency? && IsWalk(nodes, r.error.path) && FirstReturn(r.error.path)
  {
    var top := DetectNames(nodes, nodes.Keys, []);
    if top.Ok? {
      NamesOkIsAcyclic(nodes);
      assert false;
    }
    NamesErrors(nodes, nodes.Keys, []);
    assert DetectCircleNames(nodes) == Err(top.error);
  }

  /** The same for `detect_circle` as written, when every name is one character long. */
  lemma SingleCharacterCyclesReported(nodes: Nodes, limit: nat)
    requires SingleCharacterNames(nodes) && limit > |nodes.Keys|
    requires Closed(nodes) && HasCycle(nodes)
    ensures var r := DetectCircle(nodes, limit);
            r.Err? && r.error.CircularDependency? && IsWalk(nodes, r.error.path) && FirstReturn(r.error.path)
  {
    SingleCharacterNamesAgree(nodes, limit);
    NamesReportCycles(nodes);
  }

  // ---------------------------------------------------------------- examples

  /** `a` and `b` depend on each other. */
  const TwoCycle: Nodes := map["a" := {"b"}, "b" := {"a"}]

  /** `a` on `b`, `b` on `c` and `c` on `a`. */
  const ThreeCycle: Nodes := map["a" := {"b"}, "b" := {"c"}, "c" := {"a"}]

  /**
   * Both raise `CircularDependencyException` once the interpreter allows a
   * few nested calls. Which service the search starts from follows the dict
   * order, so the path is `a->b->a` or `b->a->b`.
   */
  lemma TwoCycleReported(limit: nat)
    requires limit > 2
    ensures var r := DetectCircle(TwoCycle, limit);
            && r.Err? && r.error.CircularDependency?
            && (|| (r.error.path == ["a", "b", "a"] && NodePath(r.error.path) == "a->b->a")
                || (r.error.path == ["b", "a", "b"] && NodePath(r.error.path) == "b->a->b"))
  {
    assert TwoCycle.Keys == {"a", "b"};
    assert SingleCharacterNames(TwoCycle) && Closed(TwoCycle);
    var w := ["a", "b", "a"];
    assert IsWalk(TwoCycle, w) && w[0] == w[|w| - 1];
    SingleCharacterCyclesReported(TwoCycle, limit);
    TwoCycleReportedPath(DetectCircle(TwoCycle, limit).error.path);
  }

  lemma TwoCycleReportedPath(p: seq<string>)
    requires IsWalk(TwoCycle, p) && FirstReturn(p)
    ensures || (p == ["a", "b", "a"] && NodePath(p) == "a->b->a")
            || (p == ["b", "a", "b"] && NodePath(p) == "b->a->b")
  {
    TwoCyclePaths(p);
    NodePathOfThree("a", "b", "a");
    NodePathOfThree("b", "a", "b");
  }

  /** The paths `a->b->c->a`, `b->c->a->b` or `c->a->b->c`. */
  lemma ThreeCycleReported(limit: nat)
    requires limit > 3
    ensures var r := DetectCircle(ThreeCycle, limit);
            && r.Err? && r.error.CircularDependency?
            && (|| (r.error.path == ["a", "b", "c", "a"] && NodePath(r.error.path) == "a->b->c->a")
                || (r.error.path == ["b", "c", "a", "b"] && NodePath(r.error.path) == "b->c->a->b")
                || (r.error.path == ["c", "a", "b", "c"] && NodePath(r.error.path) == "c->a->b->c"))
  {
    assert ThreeCycle.Keys == {"a", "b", "c"};
    assert SingleCharacterNames(ThreeCycle) && Closed(ThreeCycle);
    var w := ["a", "b", "c", "a"];
    assert IsWalk(ThreeCycle, w) && w[0] == w[|w| - 1];
    SingleCharacterCyclesReported(ThreeCycle, limit);
    ThreeCycleReportedPath(DetectCircle(ThreeCycle, limit).error.path);
  }

  lemma ThreeCycleReportedPath(p: seq<string>)
    requires IsWalk(ThreeCycle, p) && FirstReturn(p)
    ensures || (p == ["a", "b", "c", "a"] && NodePath(p) == "a->b->c->a")
            || (p == ["b", "c", "a", "b"] && NodePath(p) == "b->c->a->b")
            || (p == ["c", "a", "b", "c"] && NodePath(p) == "c->a->b->c")
  {
    ThreeCyclePaths(p);
    NodePathOfFour("a", "b", "c", "a");
    NodePathOfFour("b", "c", "a", "b");
    NodePathOfFour("c", "a", "b", "c");
  }

  /** In the two-cycle, a walk that stops at its first return goes round once. */
  lemma TwoCyclePaths(p: seq<string>)
    requires IsWalk(TwoCycle, p) && FirstReturn(p)
    ensures p == ["a", "b", "a"] || p == ["b", "a", "b"]
  {
    var q := p[..|p| - 1];
    assert forall k :: 0 <= k < |q| ==> q[k] in TwoCycle.Keys;
    DistinctFitsIn(q, TwoCycle.Keys);
    assert TwoCycle.Keys == {"a", "b"};
    CycleSteps(TwoCycle, p);
    assert |p| == 3;
    assert p == [p[0], p[1], p[2]];
  }

  /** In the three-cycle, a walk that stops at its first return goes round once. */
  lemma ThreeCyclePaths(p: seq<string>)
    requires IsWalk(ThreeCycle, p) && FirstReturn(p)
    ensures p == ["a", "b", "c", "a"] || p == ["b", "c", "a", "b"] || p == ["c", "a", "b", "c"]
  {
    var q := p[..|p| - 1];
    assert forall k :: 0 <= k < |q| ==> q[k] in ThreeCycle.Keys;
    DistinctFitsIn(q, ThreeCycle.Keys);
    assert ThreeCycle.Keys == {"a", "b", "c"};
    CycleSteps(ThreeCycle, p);
    assert |p| == 4;
    assert p == [p[0], p[1], p[2], p[3]];
  }

  /** In either example, a step never stays put, and in the three-cycle two steps never come back. */
  lemma CycleSteps(nodes: Nodes, p: seq<string>)
    requires nodes == TwoCycle || nodes == ThreeCycle
    requires IsWalk(nodes, p)
    ensures forall i :: 0 <= i < |p| - 1 ==> p[i + 1] != p[i]
    ensures nodes == ThreeCycle ==> forall i :: 0 <= i < |p| - 2 ==> p[i + 2] != p[i]
  {
    forall i | 0 <= i < |p| - 1
      ensures p[i + 1] != p[i]
    {
      assert p[i + 1] in nodes[p[i]];
    }
    if nodes == ThreeCycle {
      forall i | 0 <= i < |p| - 2
        ensures p[i + 2] != p[i]
      {
        assert p[i + 1] in nodes[p[i]] && p[i + 2] in nodes[p[i + 1]];
      }
    }
  }

  /** A graph of seven services without a cycle; `e` depends on `d`. */
  const SevenNodes: Nodes := map[
    "a" := {"f", "c"}, "b" := {}, "c" := {"b"}, "d" := {},
    "e" := {"d"}, "f" := {}, "g" := {"a"}]

  const SevenKeys: set<string> := {"a", "b", "c", "d", "e", "f", "g"}

  const SevenRanks: map<string, nat> := map["a" := 2, "b" := 0, "c" := 1, "d" := 0, "e" := 1, "f" := 0, "g" := 3]

  lemma SevenKeyCount()
    ensures SevenNodes.Keys == SevenKeys && |SevenKeys| == 7
  {
  }

  lemma SevenRanked()
    ensures Ranked(SevenNodes, SevenRanks)
  {
    forall n, d | n in SevenNodes && d in SevenNodes[n]
      ensures d in SevenNodes && d in SevenRanks && SevenRanks[d] < SevenRanks[n]
    {
      assert n in SevenKeys;
    }
  }

  lemma SevenSingle()
    ensures SingleCharacterNames(SevenNodes)
  {
    forall n | n in SevenNodes
      ensures |n| == 1 && forall d :: d in SevenNodes[n] ==> |d| == 1
    {
      assert n in SevenKeys;
    }
  }

  lemma SevenAcyclic()
    ensures Closed(SevenNodes) && !HasCycle(SevenNodes)
  {
    SevenRanked();
    RankedIsAcyclic(SevenNodes, SevenRanks);
  }

  /** Its tree has seven heads, one per service. */
  lemma SevenHeads(limit: nat)
    requires limit > 7
    ensures DetectCircle(SevenNodes, limit).Ok?
    ensures HeadCount(DetectCircle(SevenNodes, limit).value) == 7
    ensures HeadValues(DetectCircle(SevenNodes, limit).value) == SevenKeys
  {
    SevenKeyCount();
    SevenSingle();
    SevenAcyclic();
    SingleCharacterSearchFindsEveryCycle(SevenNodes, limit);
    HeadsAreTheKeys(SevenNodes, limit);
  }

  /** `b` reaches `e` along two branches, through `c` and through `d`. */
  const Diamond: Nodes := map["a" := {"b"}, "b" := {"c", "d"}, "c" := {"e"}, "d" := {"e"}, "e" := {}]

  const DiamondKeys: set<string> := {"a", "b", "c", "d", "e"}

  const DiamondRanks: map<string, nat> := map["a" := 3, "b" := 2, "c" := 1, "d" := 1, "e" := 0]

  lemma DiamondShape()
    ensures Diamond.Keys == DiamondKeys && |DiamondKeys| == 5
    ensures SingleCharacterNames(Diamond)
  {
    forall n | n in Diamond
      ensures |n| == 1 && forall d :: d in Diamond[n] ==> |d| == 1
    {
      assert n in DiamondKeys;
    }
  }

  lemma DiamondRanked()
    ensures Ranked(Diamond, DiamondRanks)
  {
    forall n, d | n in Diamond && d in Diamond[n]
      ensures d in Diamond && d in DiamondRanks && DiamondRanks[d] < DiamondRanks[n]
    {
      assert n in DiamondKeys;
    }
  }

  /** Two paths to the same service are not a cycle: the search succeeds with one head per service. */
  lemma DiamondIsNoCycle(limit: nat)
    requires limit > 5
    ensures DetectCircle(Diamond, limit).Ok?
    ensures HeadValues(DetectCircle(Diamond, limit).value) == DiamondKeys
  {
    DiamondShape();
    DiamondRanked();
    RankedIsAcyclic(Diamond, DiamondRanks);
    SingleCharacterSearchFindsEveryCycle(Diamond, limit);
    HeadsAreTheKeys(Diamond, limit);
  }

  // ------------------------------------------------- where the two differ

  /** `ab` depends on `a`: no cycle. */
  const Spurious: Nodes := map["ab" := {"a"}, "a" := {}]

  lemma SpuriousAcyclic()
    ensures Closed(Spurious) && !HasCycle(Spurious)
    ensures DetectCircleNames(Spurious).Ok?
  {
    var rank: map<string, nat> := map["a" := 0, "ab" := 1];
    assert Ranked(Spurious, rank);
    RankedIsAcyclic(Spurious, rank);
    NamesFindEveryCycle(Spurious);
  }

  /** Below `ab`, the list of travelled characters holds `"a"`, so `a` is taken for a repeat. */
  lemma SpuriousBelowAb(limit: nat)
    requires limit > 0
    ensures DetectFrom(Spurious, {"a"}, "ab", ["ab"], limit) == Err(CircularDependency(["ab", "a"]))
  {
    EnumerateSingleton("a");
    assert InTraveled("a", "ab");
    assert ["ab"] + ["a"] == ["ab", "a"];
    assert VisitAll(Spurious, ["a"], "ab", ["ab"], limit) == Err(CircularDependency(["ab", "a"]));
  }

  lemma SpuriousAbFirst(limit: nat)
    requires limit > 1
    ensures VisitAll(Spurious, ["ab"], [], [], limit) == Err(CircularDependency(["ab", "a"]))
    ensures VisitAll(Spurious, ["ab", "a"], [], [], limit) == Err(CircularDependency(["ab", "a"]))
  {
    SpuriousBelowAb(limit - 1);
    assert [] + "ab" == "ab" && [] + ["ab"] == ["ab"];
  }

  lemma SpuriousAFirst(limit: nat)
    requires limit > 1
    ensures VisitAll(Spurious, ["a", "ab"], [], [], limit) == Err(CircularDependency(["ab", "a"]))
  {
    SpuriousAbFirst(limit);
    assert [] + "a" == "a" && [] + ["a"] == ["a"];
    assert DetectFrom(Spurious, {}, "a", ["a"], limit - 1) == Ok([]);
    assert ["a", "ab"][1..] == ["ab"];
  }

  lemma SpuriousTop(limit: nat)
    requires limit > 1
    ensures VisitAll(Spurious, Enumerate(Spurious.Keys), [], [], limit) == Err(CircularDependency(["ab", "a"]))
  {
    assert Spurious.Keys == {"ab", "a"};
    EnumeratePair("ab", "a");
    SpuriousAbFirst(limit);
    SpuriousAFirst(limit);
  }

  /**
   * `detect_circle` as written reports the acyclic graph `{ab: {a}, a: {}}`
   * as circular, with the path `ab->a`; the corrected search accepts it.
   */
  lemma SpuriousCycle(limit: nat)
    requires limit > 1
    ensures Closed(Spurious) && !HasCycle(Spurious)
    ensures DetectCircle(Spurious, limit) == Err(CircularDependency(["ab", "a"]))
    ensures DetectCircleNames(Spurious).Ok?
  {
    SpuriousAcyclic();
    SpuriousTop(limit);
    UnfoldTop(Spurious, limit);
  }

  lemma UnfoldTop(nodes: Nodes, limit: nat)
    requires limit > 0 && nodes != map[]
    requires VisitAll(nodes, Enumerate(nodes.Keys), [], [], limit).Err?
    ensures DetectCircle(nodes, limit) == Err(VisitAll(nodes, Enumerate(nodes.Keys), [], [], limit).error)
  {
    var k :| k in nodes;
    assert k in nodes.Keys;
    DetectFromUnfolds(nodes, nodes.Keys, [], [], limit);
    var heads := DetectFrom(nodes, nodes.Keys, [], [], limit);
    assert DetectCircle(nodes, limit) == heads.PropagateFailure();
  }

  /** One level of the corrected search. */
  lemma {:induction false} DetectNamesUnfolds(nodes: Nodes, deps: set<string>, path: seq<string>)
    requires deps != {}
    ensures DetectNames(nodes, deps, path) == VisitNames(nodes, Enumerate(deps), path)
  {
  }

  /** One call of the search as written, with some call depth left, runs its loop at that depth. */
  lemma {:induction false} DetectFromUnfolds(nodes: Nodes, deps: set<string>, traveled: seq<char>, path: seq<string>, limit: nat)
    requires limit > 0 && deps != {}
    ensures DetectFrom(nodes, deps, traveled, path, limit) == VisitAll(nodes, Enumerate(deps), traveled, path, limit)
  {
  }

  /** `ab` depends on itself. */
  const SelfLoop: Nodes := map["ab" := {"ab"}]

  lemma {:induction false} SelfLoopNeverCaught(traveled: seq<char>, path: seq<string>, limit: nat)
    ensures DetectFrom(SelfLoop, {"ab"}, traveled, path, limit) == Err(RecursionLimit)
    decreases limit
  {
    if limit > 0 {
      EnumerateSingleton("ab");
      SelfLoopNeverCaught(traveled + "ab", path + ["ab"], limit - 1);
      assert VisitAll(SelfLoop, ["ab"], traveled, path, limit) == Err(RecursionLimit);
    }
  }

  /**
   * A service with a name longer than one character that depends on itself
   * is never caught by `detect_circle` as written: the search recurses
   * until the interpreter's limit. The corrected search reports `ab->ab`.
   */
  lemma SelfLoopMissed(limit: nat)
    ensures HasCycle(SelfLoop)
    ensures DetectCircle(SelfLoop, limit) == Err(RecursionLimit)
    ensures DetectCircleNames(SelfLoop) == Err(CircularDependency(["ab", "ab"]))
  {
    assert IsWalk(SelfLoop, ["ab", "ab"]);
    assert SelfLoop.Keys == {"ab"};
    SelfLoopNeverCaught([], [], limit);
    EnumerateSingleton("ab");
    var err := Err(CircularDependency(["ab", "ab"]));
    assert [] + ["ab"] == ["ab"] && ["ab"] + ["ab"] == ["ab", "ab"];
    assert VisitNames(SelfLoop, ["ab"], ["ab"]) == err;
    assert DetectNames(SelfLoop, {"ab"}, ["ab"]) == err;
    assert VisitNames(SelfLoop, ["ab"], []) == err;
  }
}
