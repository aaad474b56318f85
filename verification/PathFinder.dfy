/**
 src/arith/bound_deducer.cc:39-69: the search for a path to the target in an
 expression graph whose nodes may be shared.
 */
module PathFinder {

  /**
   An acyclic graph: node i has its children in order, all numbered below it. Every
   finite acyclic graph can be numbered so.
   */
  datatype Graph = Graph(kids: seq<seq<nat>>) {
    ghost predicate Valid() {
      forall i, k :: 0 <= i < |kids| && 0 <= k < |kids[i]| ==> kids[i][k] < i
    }
  }

  // ---- the plain search ----

  /** The first path from n to the target in depth-first order; empty when there is none. */
  function Search(g: Graph, n: nat, target: nat): seq<nat>
    requires g.Valid() && n < |g.kids|
    decreases n, 1 + |g.kids[n]|
  {
    if n == target then [n]
    else
      var below := SearchKids(g, n, 0, target);
      if below == [] then [] else [n] + below
  }

  function SearchKids(g: Graph, n: nat, k: nat, target: nat): seq<nat>
    requires g.Valid() && n < |g.kids| && k <= |g.kids[n]|
    decreases n, |g.kids[n]| - k
  {
    if k == |g.kids[n]| then []
    else
      var p := Search(g, g.kids[n][k], target);
      if p != [] then p else SearchKids(g, n, k + 1, target)
  }

  /** A parent-to-child chain from n to the target. */
  ghost predicate IsPath(g: Graph, p: seq<nat>, n: nat, target: nat) {
    && p != [] && p[0] == n && p[|p| - 1] == target
    && forall i :: 0 <= i < |p| - 1 ==> p[i] < |g.kids| && p[i + 1] in g.kids[p[i]]
  }

  lemma {:induction false} SearchFindsPath(g: Graph, n: nat, target: nat)
    requires g.Valid() && n < |g.kids|
    ensures Search(g, n, target) != [] ==> IsPath(g, Search(g, n, target), n, target)
    decreases n, 1 + |g.kids[n]|
  {
    if n != target { SearchKidsFindsPath(g, n, 0, target); }
  }

  lemma {:induction false} SearchKidsFindsPath(g: Graph, n: nat, k: nat, target: nat)
    requires g.Valid() && n < |g.kids| && k <= |g.kids[n]|
    ensures var p := SearchKids(g, n, k, target);
            p != [] ==> p[0] in g.kids[n] && IsPath(g, p, p[0], target)
    decreases n, |g.kids[n]| - k
  {
    if k < |g.kids[n]| {
      SearchFindsPath(g, g.kids[n][k], target);
      SearchKidsFindsPath(g, n, k + 1, target);
    }
  }

  /** If there is any path, one is found. */
  lemma {:induction false} SearchIsComplete(g: Graph, p: seq<nat>, n: nat, target: nat)
    requires g.Valid() && n < |g.kids| && IsPath(g, p, n, target)
    ensures Search(g, n, target) != []
  {
    if n != target {
      assert p[1] in g.kids[p[0]];
      var k :| 0 <= k < |g.kids[n]| && g.kids[n][k] == p[1];
      var rest := p[1..];
      forall i | 0 <= i < |rest| - 1
        ensures rest[i] < |g.kids| && rest[i + 1] in g.kids[rest[i]]
      {
        assert rest[i] == p[i + 1] && rest[i + 1] == p[i + 2];
      }
      SearchIsComplete(g, rest, p[1], target);
      SomeKidFinds(g, n, 0, k, target);
    }
  }

  lemma {:induction false} SomeKidFinds(g: Graph, n: nat, from: nat, k: nat, target: nat)
    requires g.Valid() && n < |g.kids| && from <= k < |g.kids[n]|
    requires Search(g, g.kids[n][k], target) != []
    ensures SearchKids(g, n, from, target) != []
    decreases k - from
  {
    if from < k { SomeKidFinds(g, n, from + 1, k, target); }
  }

  // ---- the search with a visited set ----

  class VariablePathFinder {
    const g: Graph
    const target: nat
    var path: seq<nat>
    var found: bool
    var visited: set<nat>

    constructor (g: Graph, target: nat)
      ensures this.g == g && this.target == target && path == [] && !found && visited == {}
    {
      this.g, this.target := g, target;
      path, found, visited := [], false, {};
    }

    /** Visited nodes below a node on the way down do not lead to the target. */
    ghost predicate DeadEnds(limit: nat)
      requires g.Valid()
      reads this
    {
      forall v :: v in visited && v < limit ==> v < |g.kids| && Search(g, v, target) == []
    }

    method VisitExpr(n: nat)
      requires g.Valid() && n < |g.kids|
      requires !found ==> DeadEnds(n + 1)
      modifies this`path, this`found, this`visited
      ensures old(found) ==> found && path == old(path)
      ensures !old(found) ==> path == old(path) + Search(g, n, target)
      ensures !old(found) ==> (found <==> Search(g, n, target) != [])
      ensures visited >= old(visited)
      ensures !found ==> forall v :: v in visited && v !in old(visited) ==> v <= n && Search(g, v, target) == []
      decreases n
    {
      if n in visited { return; }
      visited := visited + {n};
      if !found { path := path + [n]; }
      if n == target { found := true; }
      ghost var start := path;
      ghost var before := visited;
      for k := 0 to |g.kids[n]|
        invariant old(found) ==> found && path == old(path)
        invariant n == target ==> found && path == start
        invariant !old(found) && n != target && !found ==>
          path == start && SearchKids(g, n, 0, target) == SearchKids(g, n, k, target)
        invariant !old(found) && n != target && found ==>
          path == start + SearchKids(g, n, 0, target) && SearchKids(g, n, 0, target) != []
        invariant visited >= before
        invariant !found ==> forall v :: v in visited && v !in before ==> v < n && Search(g, v, target) == []
      {
        assert !found ==> DeadEnds(g.kids[n][k] + 1);
        VisitExpr(g.kids[n][k]);
      }
      if !found {
        assert path[..|path| - 1] == old(path);
        path := path[..|path| - 1];
      }
    }
  }

  /** Empty exactly when the target is absent, otherwise a path; sharing makes no difference. */
  method GetPath(g: Graph, target: nat, root: nat) returns (path: seq<nat>)
    requires g.Valid() && root < |g.kids|
    ensures path == Search(g, root, target)
    ensures path != [] ==> IsPath(g, path, root, target)
    ensures path == [] ==> forall p :: !IsPath(g, p, root, target)
  {
    var v := new VariablePathFinder(g, target);
    v.VisitExpr(root);
    path := v.path;
    assert [] + Search(g, root, target) == Search(g, root, target);
    SearchFindsPath(g, root, target);
    if path == [] {
      forall p
        ensures !IsPath(g, p, root, target)
      {
        if IsPath(g, p, root, target) { SearchIsComplete(g, p, root, target); }
      }
    }
  }
}
