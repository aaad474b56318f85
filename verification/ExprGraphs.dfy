/**
 The path search of src/arith/bound_deducer.cc on expressions: an expression is the unfolding of a graph
 of objects, some of them shared, and the deducer walks the path found in that graph.
 */
module ExprGraphs {
  import opened Tir
  import opened PathFinder
  import opened BoundDeducerVisitors

  /** The children of a node in the order they are visited. */
  function Kids(n: Node): seq<Node> {
    match n
    case ENode(Bin(_, a, b)) => [ENode(a), ENode(b)]
    case ENode(Select(c, t, f)) => [CNode(c), ENode(t), ENode(f)]
    case ENode(_) => []
    case CNode(BoolImm(_)) => []
    case CNode(Cmp(_, l, r)) => [ENode(l), ENode(r)]
    case CNode(And(p, q)) => [CNode(p), CNode(q)]
    case CNode(Or(p, q)) => [CNode(p), CNode(q)]
    case CNode(Not(p)) => [CNode(p)]
  }

  /**
   The objects of the graph stand for these nodes. The variable searched for is one object; any other
   object may be shared or not.
   */
  ghost predicate Unfolds(g: Graph, nodes: seq<Node>, target: nat, name: string) {
    && g.Valid() && |nodes| == |g.kids|
    && (forall i :: 0 <= i < |nodes| ==> |g.kids[i]| == |Kids(nodes[i])|)
    && (forall i, k :: 0 <= i < |nodes| && 0 <= k < |g.kids[i]| ==> nodes[g.kids[i][k]] == Kids(nodes[i])[k])
    && (forall i :: 0 <= i < |nodes| ==> (nodes[i] == ENode(Var(name)) <==> i == target))
  }

  /** The path from a node of either kind. */
  function NodePath(n: Node, name: string): seq<Node> {
    match n
    case ENode(e) => PathTo(e, name)
    case CNode(c) => CondPathTo(c, name)
  }

  /** The first path from one of the nodes from k on. */
  function AnyPath(ns: seq<Node>, k: nat, name: string): seq<Node>
    requires k <= |ns|
    decreases |ns| - k
  {
    if k == |ns| then [] else First(NodePath(ns[k], name), AnyPath(ns, k + 1, name))
  }

  lemma PathThroughKids(n: Node, name: string)
    ensures NodePath(n, name) == if n == ENode(Var(name)) then [n] else Under(n, AnyPath(Kids(n), 0, name))
  {
    var ns := Kids(n);
    assert AnyPath(ns, |ns|, name) == [];
    if |ns| >= 1 { assert AnyPath(ns, |ns| - 1, name) == First(NodePath(ns[|ns| - 1], name), []); }
    if |ns| >= 2 { assert AnyPath(ns, |ns| - 2, name) == First(NodePath(ns[|ns| - 2], name), AnyPath(ns, |ns| - 1, name)); }
    if |ns| >= 3 { assert AnyPath(ns, |ns| - 3, name) == First(NodePath(ns[|ns| - 3], name), AnyPath(ns, |ns| - 2, name)); }
  }

  /** The nodes the objects of a path stand for. */
  ghost predicate StandsFor(nodes: seq<Node>, path: seq<nat>, labels: seq<Node>) {
    |path| == |labels| && forall i :: 0 <= i < |path| ==> path[i] < |nodes| && nodes[path[i]] == labels[i]
  }

  lemma {:induction false} SearchUnfolds(g: Graph, nodes: seq<Node>, n: nat, target: nat, name: string)
    requires Unfolds(g, nodes, target, name) && n < |nodes|
    ensures StandsFor(nodes, Search(g, n, target), NodePath(nodes[n], name))
    decreases n, 1 + |g.kids[n]|
  {
    hide NodePath, AnyPath, Kids;
    PathThroughKids(nodes[n], name);
    if n != target { KidsUnfold(g, nodes, n, 0, target, name); }
  }

  lemma {:induction false} KidsUnfold(g: Graph, nodes: seq<Node>, n: nat, k: nat, target: nat, name: string)
    requires Unfolds(g, nodes, target, name) && n < |nodes| && k <= |g.kids[n]|
    ensures StandsFor(nodes, SearchKids(g, n, k, target), AnyPath(Kids(nodes[n]), k, name))
    decreases n, |g.kids[n]| - k
  {
    hide NodePath, Kids;
    if k < |g.kids[n]| {
      SearchUnfolds(g, nodes, g.kids[n][k], target, name);
      KidsUnfold(g, nodes, n, k + 1, target, name);
    }
  }

  /** The search with its visited set finds in the graph the path that the deducer follows in the expression. */
  method FindPath(g: Graph, nodes: seq<Node>, root: nat, target: nat, name: string) returns (path: seq<Node>)
    requires Unfolds(g, nodes, target, name) && root < |nodes|
    ensures path == NodePath(nodes[root], name)
  {
    hide NodePath;
    var found := GetPath(g, target, root);
    SearchUnfolds(g, nodes, root, target, name);
    path := [];
    for i := 0 to |found|
      invariant path == NodePath(nodes[root], name)[..i]
    {
      path := path + [nodes[found[i]]];
    }
  }
}
