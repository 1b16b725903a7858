/**
 * The diagnostic tree `detect_circle` returns: nodes carrying a service
 * name, their children in insertion order and an optional parent, and a
 * tree holding the top-level nodes ("heads"), with their string renderings.
 *
 * Python nodes are mutable objects; here every mutator returns the updated
 * node. A parent is recorded by its value rather than by object identity.
 */
module Tree {
  import opened Values
  import opened Strings

  datatype Node = Node(value: string, children: seq<Node>, parent: Option<string>)

  /** An argument passed where a node is expected: a node, or some other object. */
  datatype Item = NodeItem(node: Node) | NotANode

  /** An argument passed where a list of nodes is expected. */
  datatype Items = ItemList(items: seq<Item>) | NotAList

  /** A node after a mutator that may raise half-way: what was done stays done. */
  datatype Partial = Partial(node: Node, error: Option<Error>)

  /** `DependencyNode(value)`. */
  function NewNode(value: string): (n: Node)
    ensures n.value == value && n.children == [] && n.parent == None
  {
    Node(value, [], None)
  }

  /** `child_count`: each child is one of the nodes below this one. */
  function ChildCount(n: Node): (c: nat)
    ensures c < Size(n)
  {
    SizeAllCounts(n.children);
    |n.children|
  }

  /** The `parent` setter. */
  function SetParent(n: Node, parent: Option<string>): (r: Node)
    ensures r.parent == parent
    ensures r.value == n.value && r.children == n.children
  {
    n.(parent := parent)
  }

  /** `add_child`: appends a node, or raises `TypeError` for anything else. */
  function AddChild(n: Node, child: Item): (r: Result<Node>)
    ensures r.Ok? <==> child.NodeItem?
    ensures r.Err? ==> r.error.TypeError?
    ensures r.Ok? ==> && ChildCount(r.value) == ChildCount(n) + 1
                      && r.value.children[..ChildCount(n)] == n.children
                      && r.value.children[ChildCount(n)] == child.node
                      && r.value.value == n.value && r.value.parent == n.parent
  {
    match child
    case NodeItem(c) => Ok(n.(children := n.children + [c]))
    case NotANode => Err(TypeError("child"))
  }

  /** `add_children`: `add_child` for each item in order; a bad item raises after the items before it were added. */
  function AddChildren(n: Node, children: Items): (r: Partial)
    ensures !children.ItemList? ==> r == Partial(n, Some(TypeError("children")))
  {
    match children
    case NotAList => Partial(n, Some(TypeError("children")))
    case ItemList(items) => AddEach(n, items)
  }

  function AddEach(n: Node, items: seq<Item>): (r: Partial)
    decreases |items|
  {
    if items == [] then Partial(n, None)
    else
      match AddChild(n, items[0])
      case Err(e) => Partial(n, Some(e))
      case Ok(m) => AddEach(m, items[1..])
  }

  /** The nodes at the front of `items`, up to the first item that is not a node. */
  function NodePrefix(items: seq<Item>): (r: seq<Node>)
    ensures |r| <= |items|
    ensures forall i :: 0 <= i < |r| ==> items[i] == NodeItem(r[i])
    ensures |r| < |items| ==> items[|r|] == NotANode
  {
    if items == [] || items[0].NotANode? then []
    else [items[0].node] + NodePrefix(items[1..])
  }

  /**
   * `add_children` appends, in list order, the nodes before the first
   * non-node; it raises exactly when there is a non-node, and leaves the
   * value and the parent alone.
   */
  lemma {:induction false} AddChildrenAppends(n: Node, items: seq<Item>)
    ensures var r := AddChildren(n, ItemList(items));
            && r.node.children == n.children + NodePrefix(items)
            && r.node.value == n.value && r.node.parent == n.parent
            && (r.error.Some? <==> exists i :: 0 <= i < |items| && items[i] == NotANode)
            && (r.error.Some? ==> r.error.value.TypeError?)
    decreases |items|
  {
    if items == [] {
      assert n.children + [] == n.children;
    } else if items[0].NodeItem? {
      var x := items[0].node;
      var m := n.(children := n.children + [x]);
      assert AddChild(n, items[0]) == Ok(m);
      AddChildrenAppends(m, items[1..]);
      var rest := NodePrefix(items[1..]);
      assert NodePrefix(items) == [x] + rest;
      AppendAssociates(n.children, [x], rest);
      NonNodeInTail(items);
    } else {
      assert items[0] == NotANode;
      assert n.children + [] == n.children;
    }
  }

  /** Past a leading node, a list holds a non-node exactly when its tail does. */
  lemma NonNodeInTail(items: seq<Item>)
    requires items != [] && items[0].NodeItem?
    ensures (exists i :: 0 <= i < |items| && items[i] == NotANode)
        <==> (exists i :: 0 <= i < |items[1..]| && items[1..][i] == NotANode)
  {
    if exists i :: 0 <= i < |items| && items[i] == NotANode {
      var i :| 0 <= i < |items| && items[i] == NotANode;
      assert items[1..][i - 1] == NotANode;
    }
  }

  // ------------------------------------------------------------- rendering

  /**
   * `str(node)`: `(v)` without children, otherwise `(v, [c1, c2, ...])`.
   * Either way the value follows the opening parenthesis, and only a node
   * without children renders as nothing more than that.
   */
  function NodeString(n: Node): (s: string)
    ensures |s| >= |n.value| + 2 && s[0] == '(' && s[1..|n.value| + 1] == n.value && s[|s| - 1] == ')'
    ensures n.children == [] <==> |s| == |n.value| + 2
    decreases n, 1
  {
    if n.children == [] then "(" + n.value + ")"
    else "(" + n.value + ", [" + Join(ChildStrings(n.children), ", ") + "])"
  }

  /** The renderings of `children`, in order. */
  function ChildStrings(children: seq<Node>): (r: seq<string>)
    ensures |r| == |children|
    decreases children, 0
  {
    if children == [] then []
    else [NodeString(children[0])] + ChildStrings(children[1..])
  }

  /** Each child is rendered by `str`, in the children's order. */
  lemma {:induction false} ChildStringsPointwise(children: seq<Node>)
    ensures forall i :: 0 <= i < |children| ==> ChildStrings(children)[i] == NodeString(children[i])
    decreases |children|
  {
    if children != [] {
      ChildStringsPointwise(children[1..]);
      forall i | 1 <= i < |children|
        ensures ChildStrings(children)[i] == NodeString(children[i])
      {
        assert children[1..][i - 1] == children[i];
      }
    }
  }

  /** The number of nodes in the subtree. */
  function Size(n: Node): nat
    decreases n, 1
  {
    1 + SizeAll(n.children)
  }

  function SizeAll(children: seq<Node>): nat
    decreases children, 0
  {
    if children == [] then 0 else Size(children[0]) + SizeAll(children[1..])
  }

  /** Every child brings at least itself. */
  lemma {:induction false} SizeAllCounts(children: seq<Node>)
    ensures SizeAll(children) >= |children|
    decreases |children|
  {
    if children != [] {
      SizeAllCounts(children[1..]);
    }
  }

  /** How many times `c` occurs in `s`. */
  function Occurrences(s: string, c: char): (k: nat)
    ensures k <= |s|
  {
    if s == [] then 0 else (if s[0] == c then 1 else 0) + Occurrences(s[1..], c)
  }

  lemma {:induction false} OccurrencesAppend(s: string, t: string, c: char)
    ensures Occurrences(s + t, c) == Occurrences(s, c) + Occurrences(t, c)
    decreases |s|
  {
    if s != [] {
      var st := s + t;
      assert st != [] && st[0] == s[0] && st[1..] == s[1..] + t;
      OccurrencesAppend(s[1..], t, c);
      assert Occurrences(st, c) == (if s[0] == c then 1 else 0) + Occurrences(s[1..] + t, c);
    } else {
      assert s + t == t;
    }
  }

  /** No value in the subtree contains `c`. */
  predicate ValuesAvoid(n: Node, c: char)
    decreases n, 1
  {
    c !in n.value && AllValuesAvoid(n.children, c)
  }

  predicate AllValuesAvoid(children: seq<Node>, c: char)
    decreases children, 0
  {
    children == [] || (ValuesAvoid(children[0], c) && AllValuesAvoid(children[1..], c))
  }

  lemma {:induction false} NoOccurrences(s: string, c: char)
    requires c !in s
    ensures Occurrences(s, c) == 0
    decreases |s|
  {
    if s != [] {
      NoOccurrences(s[1..], c);
    }
  }

  lemma {:induction false} JoinOccurrences(parts: seq<string>, sep: string, c: char)
    requires c !in sep
    ensures Occurrences(Join(parts, sep), c) == SumOccurrences(parts, c)
    decreases |parts|
  {
    if |parts| > 1 {
      OccurrencesAppend(parts[0] + sep, Join(parts[1..], sep), c);
      OccurrencesAppend(parts[0], sep, c);
      NoOccurrences(sep, c);
      JoinOccurrences(parts[1..], sep, c);
    } else if |parts| == 1 {
      assert parts[1..] == [];
    }
  }

  function SumOccurrences(parts: seq<string>, c: char): nat
  {
    if parts == [] then 0 else Occurrences(parts[0], c) + SumOccurrences(parts[1..], c)
  }

  /**
   * The rendering opens one parenthesis per node: when no value contains
   * `(`, the number of `(` in `str(node)` is the size of the subtree.
   */
  lemma {:induction false} OneParenPerNode(n: Node)
    requires ValuesAvoid(n, '(')
    ensures Occurrences(NodeString(n), '(') == Size(n)
    decreases n, 1
  {
    NoOccurrences(n.value, '(');
    if n.children == [] {
      OccurrencesAppend("(" + n.value, ")", '(');
      OccurrencesAppend("(", n.value, '(');
    } else {
      var inner := Join(ChildStrings(n.children), ", ");
      OneParenPerChild(n.children);
      JoinOccurrences(ChildStrings(n.children), ", ", '(');
      OccurrencesAppend("(" + n.value + ", [" + inner, "])", '(');
      OccurrencesAppend("(" + n.value + ", [", inner, '(');
      OccurrencesAppend("(" + n.value, ", [", '(');
      OccurrencesAppend("(", n.value, '(');
    }
  }

  lemma {:induction false} OneParenPerChild(children: seq<Node>)
    requires AllValuesAvoid(children, '(')
    ensures SumOccurrences(ChildStrings(children), '(') == SizeAll(children)
    decreases children, 0
  {
    if children != [] {
      OneParenPerNode(children[0]);
      OneParenPerChild(children[1..]);
    }
  }

  // ------------------------------------------------------------------ tree

  datatype DependencyTree = DependencyTree(heads: seq<Node>)

  /** What `DependencyTree(heads)` is given. */
  datatype HeadsArg = NoHeads | HeadList(items: seq<Item>) | HeadsNotAList

  /** `add_head`: appends a node, or raises `TypeError` for anything else. */
  function AddHead(t: DependencyTree, head: Item): (r: Result<DependencyTree>)
    ensures r.Ok? <==> head.NodeItem?
    ensures r.Err? ==> r.error.TypeError?
    ensures r.Ok? ==> r.value.heads == t.heads + [head.node]
  {
    match head
    case NodeItem(h) => Ok(DependencyTree(t.heads + [h]))
    case NotANode => Err(TypeError("head"))
  }

  /** `DependencyTree(heads)`: `None` gives an empty tree, a list is added head by head. */
  function NewTree(heads: HeadsArg): (r: Result<DependencyTree>)
    ensures heads == NoHeads ==> r == Ok(DependencyTree([]))
    ensures heads == HeadsNotAList ==> r == Err(TypeError("head"))
  {
    match heads
    case NoHeads => Ok(DependencyTree([]))
    case HeadsNotAList => Err(TypeError("head"))
    case HeadList(items) => AddHeads(DependencyTree([]), items)
  }

  function AddHeads(t: DependencyTree, items: seq<Item>): (r: Result<DependencyTree>)
    decreases |items|
  {
    if items == [] then Ok(t)
    else
      var t' :- AddHead(t, items[0]);
      AddHeads(t', items[1..])
  }

  /**
   * A list of nodes becomes the heads in the given order; a list with any
   * non-node raises `TypeError`.
   */
  lemma {:induction false} NewTreeKeepsOrder(items: seq<Item>)
    ensures NewTree(HeadList(items)).Ok? <==> forall i :: 0 <= i < |items| ==> items[i].NodeItem?
    ensures NewTree(HeadList(items)).Err? ==> NewTree(HeadList(items)).error.TypeError?
    ensures NewTree(HeadList(items)).Ok? ==> NewTree(HeadList(items)).value.heads == NodePrefix(items)
  {
    AddHeadsAppends(DependencyTree([]), items);
  }

  lemma AddHeadsAppends(t: DependencyTree, items: seq<Item>)
    ensures AddHeads(t, items).Ok? <==> forall i :: 0 <= i < |items| ==> items[i].NodeItem?
    ensures AddHeads(t, items).Err? ==> AddHeads(t, items).error.TypeError?
    ensures AddHeads(t, items).Ok? ==> AddHeads(t, items).value.heads == t.heads + NodePrefix(items)
  {
    if forall i :: 0 <= i < |items| ==> items[i].NodeItem? {
      AddHeadsAllNodes(t, items);
    } else {
      var k :| 0 <= k < |items| && !items[k].NodeItem?;
      AddHeadsNonNode(t, items, k);
    }
  }

  /** A list of nodes is appended whole. */
  lemma {:induction false} AddHeadsAllNodes(t: DependencyTree, items: seq<Item>)
    requires forall i :: 0 <= i < |items| ==> items[i].NodeItem?
    ensures AddHeads(t, items) == Ok(DependencyTree(t.heads + NodePrefix(items)))
    decreases |items|
  {
    if items != [] {
      var x := items[0].node;
      var t' := DependencyTree(t.heads + [x]);
      assert AddHead(t, items[0]) == Ok(t');
      assert forall i :: 0 <= i < |items[1..]| ==> items[1..][i] == items[i + 1];
      AddHeadsAllNodes(t', items[1..]);
      var rest := NodePrefix(items[1..]);
      assert NodePrefix(items) == [x] + rest;
      AppendAssociates(t.heads, [x], rest);
    } else {
      assert t.heads + [] == t.heads;
    }
  }

  lemma AppendAssociates(a: seq<Node>, b: seq<Node>, c: seq<Node>)
    ensures a + b + c == a + (b + c)
  {
  }

  /** A non-node anywhere in the list raises `TypeError`. */
  lemma {:induction false} AddHeadsNonNode(t: DependencyTree, items: seq<Item>, k: nat)
    requires k < |items| && items[k].NotANode?
    ensures AddHeads(t, items).Err? && AddHeads(t, items).error.TypeError?
    decreases |items|
  {
    if k > 0 && items[0].NodeItem? {
      var t' := DependencyTree(t.heads + [items[0].node]);
      assert AddHeads(t, items) == AddHeads(t', items[1..]);
      assert items[1..][k - 1] == items[k];
      AddHeadsNonNode(t', items[1..], k - 1);
    }
  }

  /** `head_count`: a tree has no heads exactly when it renders as the empty string. */
  function HeadCount(t: DependencyTree): (c: nat)
    ensures c == 0 <==> TreeString(t) == ""
  {
    var parts := HeadStrings(t.heads);
    assert |parts| > 0 ==> |Join(parts, ", ")| >= |parts[0]| > 0;
    |t.heads|
  }

  /** `head_values`: the set of the heads' values. */
  function HeadValues(t: DependencyTree): (r: set<string>)
    ensures forall v :: v in r <==> exists i :: 0 <= i < |t.heads| && t.heads[i].value == v
    ensures |r| <= HeadCount(t)
  {
    ValueSet(t.heads)
  }

  function ValueSet(nodes: seq<Node>): (r: set<string>)
    ensures forall v :: v in r <==> exists i :: 0 <= i < |nodes| && nodes[i].value == v
    ensures |r| <= |nodes|
  {
    if nodes == [] then {}
    else
      var rest := ValueSet(nodes[1..]);
      assert forall i :: 1 <= i < |nodes| ==> nodes[i] == nodes[1..][i - 1];
      {nodes[0].value} + rest
  }

  /** `str(tree)`: each head rendered with an `H` in front, joined by `", "`. */
  function TreeString(t: DependencyTree): (s: string)
    ensures t.heads == [] ==> s == ""
    ensures |t.heads| == 1 ==> s == "H" + NodeString(t.heads[0])
  {
    Join(HeadStrings(t.heads), ", ")
  }

  function HeadStrings(heads: seq<Node>): (r: seq<string>)
    ensures |r| == |heads|
    ensures forall i :: 0 <= i < |heads| ==> r[i] == "H" + NodeString(heads[i])
  {
    seq(|heads|, i requires 0 <= i < |heads| => "H" + NodeString(heads[i]))
  }

  /** Rendering one more child adds its rendering at the end of the list. */
  lemma {:induction false} ChildStringsAppend(children: seq<Node>, c: Node)
    ensures ChildStrings(children + [c]) == ChildStrings(children) + [NodeString(c)]
  {
    ChildStringsPointwise(children + [c]);
    ChildStringsPointwise(children);
    var longer := ChildStrings(children + [c]);
    var expected := ChildStrings(children) + [NodeString(c)];
    forall i | 0 <= i < |longer|
      ensures longer[i] == expected[i]
    {
      if i < |children| {
        assert (children + [c])[i] == children[i];
      }
    }
  }

  /** Cutting a closing suffix off a string gives back what preceded it. */
  lemma DropSuffix(a: string, suffix: string)
    ensures (a + suffix)[..|a|] == a
  {
  }

  /**
   * A leaf that gains a child `c` turns its closing `)` into `, [`, the
   * child's rendering and `])`.
   */
  lemma FirstChildString(v: string, p: Option<string>, c: Node)
    ensures var s := NodeString(Node(v, [], p));
      NodeString(Node(v, [c], p)) == s[..|s| - 1] + ", [" + NodeString(c) + "])"
  {
    DropSuffix("(" + v, ")");
    assert ChildStrings([c]) == [NodeString(c)] by {
      ChildStringsAppend([], c);
    }
  }

  /**
   * A node with children that gains one more child `c` renders as before up
   * to the closing `])`, then `", "`, the child's rendering and `])`: the
   * children appear in order, separated by `", "`.
   */
  lemma NodeStringAppend(v: string, children: seq<Node>, p: Option<string>, c: Node)
    requires children != []
    ensures var s := NodeString(Node(v, children, p));
      NodeString(Node(v, children + [c], p)) == s[..|s| - 2] + ", " + NodeString(c) + "])"
  {
    var inner := Join(ChildStrings(children), ", ");
    assert Join(ChildStrings(children + [c]), ", ") == inner + ", " + NodeString(c) by {
      ChildStringsAppend(children, c);
      JoinAppend(ChildStrings(children), NodeString(c), ", ");
    }
    ReplaceClosing("(" + v + ", [", inner, NodeString(c));
  }

  /** Text before a closing `])`, extended by `", "` and `x`, closed again. */
  lemma ReplaceClosing(prefix: string, inner: string, x: string)
    ensures var s := prefix + inner + "])";
      s[..|s| - 2] + ", " + x + "])" == prefix + (inner + ", " + x) + "])"
  {
    var s := prefix + inner + "])";
    assert s[..|s| - 2] == prefix + inner;
  }

  /** One more head adds `", "`, `H` and the head's rendering at the end. */
  lemma TreeStringAppend(heads: seq<Node>, h: Node)
    requires heads != []
    ensures TreeString(DependencyTree(heads + [h])) == TreeString(DependencyTree(heads)) + ", " + "H" + NodeString(h)
  {
    var longer := HeadStrings(heads + [h]);
    assert longer == HeadStrings(heads) + ["H" + NodeString(h)] by {
      forall i | 0 <= i < |heads|
        ensures longer[i] == HeadStrings(heads)[i]
      {
        assert (heads + [h])[i] == heads[i];
      }
    }
    JoinAppend(HeadStrings(heads), "H" + NodeString(h), ", ");
  }

  /** A leaf renders as its value in parentheses, a parent as in the resolver's output. */
  lemma RenderingExample()
    ensures NodeString(NewNode("b")) == "(b)"
    ensures NodeString(Node("c", [NewNode("b")], None)) == "(c, [(b)])"
    ensures TreeString(DependencyTree([NewNode("b"), Node("c", [NewNode("b")], None)])) == "H(b), H(c, [(b)])"
  {
    assert NodeString(NewNode("b")) == "(b)";
    assert [NewNode("b")][1..] == [];
    assert ChildStrings([NewNode("b")]) == ["(b)"];
    var heads := [NewNode("b"), Node("c", [NewNode("b")], None)];
    var hs := HeadStrings(heads);
    assert hs[0] == "H(b)";
    assert hs[1] == "H(c, [(b)])";
    assert hs == ["H(b)", "H(c, [(b)])"];
  }
}
