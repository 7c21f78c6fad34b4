/** The boundary-trimming search of `find_fischetti_separator`
    (Algorithm 1 of Fischetti et al., "Thinning out Steiner trees"): a
    breadth-first search from b that visits, but never expands, the vertices
    of the outer boundary N(T) of a component T. The visited boundary
    vertices form a vertex set whose removal cuts every b-T walk. */
module Separator {
  import opened Graphs

  /** N(T) = the vertices outside T with a neighbour in T. */
  function BoundarySet(g: Graph, T: set<nat>): set<nat> {
    set t: nat, v: nat | t in T && t < |g.adj| && v in g.adj[t] && v !in T :: v
  }

  /** The boundary as the search scans it (ascending vertex order). */
  function Boundary(g: Graph, T: set<nat>): (r: seq<nat>)
    requires Valid(g)
    ensures Elems(r) == BoundarySet(g, T) && Increasing(r)
  {
    var B := BoundarySet(g, T);
    forall v | v in B ensures v < |g.adj| {
      var t: nat :| t in T && t < |g.adj| && v in g.adj[t] && v !in T;
      assert Adj(g, t, v);
    }
    Sorted(B, |g.adj|)
  }

  /** W is closed under the search: the neighbours of every member of W that
      is not a stop vertex are in W. */
  ghost predicate ClosedFrom(g: Graph, stop: set<nat>, W: set<nat>) {
    forall x: nat, y: nat :: x in W && x !in stop && x < |g.adj| && y in g.adj[x] ==> y in W
  }

  /** Every vertex of vis outside the stop set and outside the pending set
      already has all its neighbours in vis. */
  ghost predicate ExpandedExcept(g: Graph, stop: set<nat>, vis: set<nat>, pending: set<nat>) {
    forall x: nat, y: nat :: x in vis && x !in stop && x !in pending && x < |g.adj| && y in g.adj[x] ==> y in vis
  }

  /** vis lies inside every closed set that holds b. */
  ghost predicate LeastFrom(g: Graph, stop: set<nat>, b: nat, vis: set<nat>) {
    forall W :: b in W && ClosedFrom(g, stop, W) ==> vis <= W
  }

  /** Runs the boundary-trimming search from b and returns the visited
      boundary vertices C, in boundary order. The ghost result `visited` is
      the least set holding b that is closed under expansion from non-boundary
      vertices, i.e. exactly the vertices reachable from b by a walk whose
      interior avoids N(T); `marks` lists the vertices in the order they were
      marked, each once. */
  method FischettiSeparator(g: Graph, T: set<nat>, b: nat)
    returns (C: seq<nat>, ghost visited: set<nat>, ghost marks: seq<nat>)
    requires Valid(g) && b < |g.adj|
    ensures Elems(C) == visited * BoundarySet(g, T) && Increasing(C)
    ensures b in visited && forall v :: v in visited ==> v < |g.adj|
    ensures ClosedFrom(g, BoundarySet(g, T), visited)
    ensures forall W :: b in W && ClosedFrom(g, BoundarySet(g, T), W) ==> visited <= W
    ensures Distinct(marks) && Elems(marks) == visited && marks[0] == b
  {
    var bound := Boundary(g, T);
    ghost var B := BoundarySet(g, T);
    var vis: set<nat> := {b};
    marks := [b];
    var child: seq<nat> := [b];
    while |child| > 0
      invariant b in vis && forall v :: v in vis ==> v < |g.adj|
      invariant Elems(child) <= vis
      invariant ExpandedExcept(g, B, vis, Elems(child))
      invariant LeastFrom(g, B, b, vis)
      invariant Distinct(marks) && Elems(marks) == vis && marks[0] == b
      decreases |g.adj| - |vis|, |child|
    {
      ghost var vis0 := vis;
      vis, child, marks := ExpandLevel(g, B, b, bound, child, vis, marks);
      SubsetCard(vis0, vis);
      VertexSetCard(vis, |g.adj|);
      if |child| > 0 {
        StrictSubsetCard(vis0, vis, child[0]);
      }
    }
    C := Keep(bound, vis);
    visited := vis;
  }

  /** One level of the search: expands every non-stop vertex of parent in
      turn; child collects the newly marked vertices. */
  method ExpandLevel(g: Graph, ghost B: set<nat>, ghost b: nat, bound: seq<nat>, parent: seq<nat>,
                     vis: set<nat>, ghost marks: seq<nat>)
    returns (vis': set<nat>, child: seq<nat>, ghost marks': seq<nat>)
    requires Valid(g) && Elems(bound) == B
    requires b in vis && forall v :: v in vis ==> v < |g.adj|
    requires Elems(parent) <= vis
    requires ExpandedExcept(g, B, vis, Elems(parent))
    requires LeastFrom(g, B, b, vis)
    requires Distinct(marks) && Elems(marks) == vis && marks[0] == b
    ensures b in vis' && forall v :: v in vis' ==> v < |g.adj|
    ensures vis <= vis' && Elems(child) <= vis' && forall y :: y in child ==> y !in vis
    ensures ExpandedExcept(g, B, vis', Elems(child))
    ensures LeastFrom(g, B, b, vis')
    ensures Distinct(marks') && Elems(marks') == vis' && marks'[0] == b
  {
    vis', marks' := vis, marks;
    child := [];
    var p := 0;
    while p < |parent|
      invariant p <= |parent|
      invariant b in vis' && forall v :: v in vis' ==> v < |g.adj|
      invariant vis <= vis' && Elems(parent) <= vis' && Elems(child) <= vis'
      invariant forall y :: y in child ==> y !in vis
      invariant ExpandedExcept(g, B, vis', Elems(parent[p..]) + Elems(child))
      invariant LeastFrom(g, B, b, vis')
      invariant Distinct(marks') && Elems(marks') == vis' && marks'[0] == b
    {
      var i := parent[p];
      assert i in vis';
      ghost var pending := Elems(parent[p + 1..]);
      assert Elems(parent[p..]) == {i} + pending by {
        assert parent[p..] == [i] + parent[p + 1..];
      }
      if i !in bound {
        vis', child, marks' := ExpandVertex(g, B, b, i, vis', child, marks', vis, pending);
      } else {
        assert ExpandedExcept(g, B, vis', pending + Elems(child));
      }
      p := p + 1;
    }
    assert parent[p..] == [];
  }

  /** One expansion of a non-stop vertex i: marks and queues every unvisited
      neighbour of i. */
  method ExpandVertex(g: Graph, ghost B: set<nat>, ghost b: nat, i: nat, vis: set<nat>, child: seq<nat>,
                      ghost marks: seq<nat>, ghost vis0: set<nat>, ghost pending: set<nat>)
    returns (vis': set<nat>, child': seq<nat>, ghost marks': seq<nat>)
    requires Valid(g) && i < |g.adj| && i in vis && i !in B
    requires forall v :: v in vis ==> v < |g.adj|
    requires vis0 <= vis && Elems(child) <= vis && forall y :: y in child ==> y !in vis0
    requires ExpandedExcept(g, B, vis, {i} + pending + Elems(child))
    requires LeastFrom(g, B, b, vis)
    requires Distinct(marks) && Elems(marks) == vis && |marks| > 0
    ensures forall v :: v in vis' ==> v < |g.adj|
    ensures vis <= vis' && Elems(child') <= vis' && forall y :: y in child' ==> y !in vis0
    ensures ExpandedExcept(g, B, vis', pending + Elems(child'))
    ensures LeastFrom(g, B, b, vis')
    ensures Distinct(marks') && Elems(marks') == vis' && marks'[0] == marks[0]
  {
    vis', child', marks' := vis, child, marks;
    var q := 0;
    while q < |g.adj[i]|
      invariant q <= |g.adj[i]|
      invariant forall v :: v in vis' ==> v < |g.adj|
      invariant vis <= vis' && Elems(child') <= vis' && forall y :: y in child' ==> y !in vis0
      invariant Elems(child) <= Elems(child')
      invariant forall y :: y in vis' ==> y in vis || y in child'
      invariant forall y :: y in g.adj[i][..q] ==> y in vis'
      invariant LeastFrom(g, B, b, vis')
      invariant Distinct(marks') && Elems(marks') == vis' && marks'[0] == marks[0]
    {
      var j := g.adj[i][q];
      if j !in vis' {
        assert Adj(g, i, j);
        forall W | b in W && ClosedFrom(g, B, W) ensures vis' + {j} <= W {
          assert i in W;
        }
        child' := child' + [j];
        vis' := vis' + {j};
        marks' := marks' + [j];
      }
      assert g.adj[i][..q + 1] == g.adj[i][..q] + [j];
      q := q + 1;
    }
    assert g.adj[i][..q] == g.adj[i];
  }

  /** A walk that leaves a vertex of S under the overlay blocking S's
      out-arcs has not left at all: it starts at its end. */
  lemma NearFromBlocked(g: Graph, S: set<nat>, x: nat, v: nat, k: nat)
    requires Near(g, OutArcs(g, S), x, v, k)
    ensures x in S ==> x == v
  {
  }

  lemma BoundaryMember(g: Graph, T: set<nat>, t: nat, v: nat)
    ensures t in T && Adj(g, t, v) && v !in T ==> v in BoundarySet(g, T)
  {
  }

  /** The separation guarantee: with the out-arcs of C = visited * N(T)
      blocked, a walk from u to b (u not in C) only passes vertices that the
      search visited and that lie outside T and N(T). */
  lemma {:induction false} BoundaryTrimSeparates(g: Graph, T: set<nat>, visited: set<nat>, b: nat, u: nat, k: nat)
    requires Valid(g)
    requires ClosedFrom(g, BoundarySet(g, T), visited) && b in visited
    requires b !in T && b !in BoundarySet(g, T)
    requires u !in visited * BoundarySet(g, T)
    ensures Near(g, OutArcs(g, visited * BoundarySet(g, T)), u, b, k) ==>
              u in visited && u !in T && u !in BoundarySet(g, T)
    decreases k
  {
    var B := BoundarySet(g, T);
    var C := visited * B;
    if Near(g, OutArcs(g, C), u, b, k) && u != b {
      var x :| x in g.adj[u] && (u, x) !in OutArcs(g, C) && Near(g, OutArcs(g, C), x, b, k - 1);
      NearFromBlocked(g, C, x, b, k - 1);
      BoundaryTrimSeparates(g, T, visited, b, x, k - 1);
      assert Adj(g, u, x);
      assert Adj(g, x, u);
      assert u in visited;
      BoundaryMember(g, T, u, x);
    }
  }

  /** The visited boundary cuts T off from b: no walk of any length from a
      vertex of T reaches b once the out-arcs of C are blocked. */
  lemma SeparatorCutsComponent(g: Graph, T: set<nat>, C: seq<nat>, visited: set<nat>, b: nat)
    requires Valid(g)
    requires Elems(C) == visited * BoundarySet(g, T)
    requires ClosedFrom(g, BoundarySet(g, T), visited) && b in visited
    requires b !in T && b !in BoundarySet(g, T)
    ensures forall t: nat, k: nat :: t in T ==> !Near(g, OutArcs(g, Elems(C)), t, b, k)
  {
    forall t: nat, k: nat | t in T ensures !Near(g, OutArcs(g, Elems(C)), t, b, k) {
      BoundaryTrimSeparates(g, T, visited, b, t, k);
    }
  }
}
