/** Undirected graphs over the vertices 0..n-1, bounded reachability under an
    arc-weight overlay, walks with weights, induced subgraphs and connected
    components.

    Every shortest-path question the separation oracle asks has the form
    "is dist(a, b) <= s" in a graph whose arc weights are 1 or s + 1. Such a
    distance is at most s exactly when some walk of at most s arcs uses only
    weight-1 arcs, so the weighted Dijkstra runs become the bounded
    reachability predicate `Near` (see `NearToWalk` and `WalkToNear`). */
module Graphs {

  /** Adjacency lists; vertex u has neighbours adj[u]. */
  datatype Graph = Graph(adj: seq<seq<nat>>)

  /** An arc (u, v); a set of arcs is a weight overlay: arcs in the set weigh
      s + 1 ("blocked"), all other arcs weigh 1. */
  type Arc = (nat, nat)

  function Size(g: Graph): nat { |g.adj| }

  predicate Adj(g: Graph, u: nat, v: nat) {
    u < |g.adj| && v in g.adj[u]
  }

  /** Neighbours are vertices and the adjacency relation is symmetric. */
  ghost predicate Valid(g: Graph) {
    forall u: nat, v: nat :: Adj(g, u, v) ==> Adj(g, v, u)
  }

  function Elems(xs: seq<nat>): set<nat> {
    set x | x in xs
  }

  predicate Distinct(xs: seq<nat>) {
    forall i, j :: 0 <= i < j < |xs| ==> xs[i] != xs[j]
  }

  predicate Increasing(xs: seq<nat>) {
    forall i, j :: 0 <= i < j < |xs| ==> xs[i] < xs[j]
  }

  /** xs is obtained from ys by deleting elements (order preserved). */
  predicate Subseq(xs: seq<nat>, ys: seq<nat>)
    decreases |ys|
  {
    if |xs| == 0 then true
    else if |ys| == 0 then false
    else (xs[|xs| - 1] == ys[|ys| - 1] && Subseq(xs[..|xs| - 1], ys[..|ys| - 1]))
         || Subseq(xs, ys[..|ys| - 1])
  }

  lemma {:induction false} SubseqElems(xs: seq<nat>, ys: seq<nat>)
    requires Subseq(xs, ys)
    ensures Elems(xs) <= Elems(ys)
    decreases |ys|
  {
    if |xs| == 0 {
    } else if xs[|xs| - 1] == ys[|ys| - 1] && Subseq(xs[..|xs| - 1], ys[..|ys| - 1]) {
      SubseqElems(xs[..|xs| - 1], ys[..|ys| - 1]);
      forall x | x in Elems(xs) ensures x in Elems(ys) {
        var i :| 0 <= i < |xs| && xs[i] == x;
        if i < |xs| - 1 {
          assert x in Elems(xs[..|xs| - 1]);
          assert x in ys[..|ys| - 1];
          assert x in ys;
        } else {
          assert ys[|ys| - 1] == x;
        }
      }
    } else {
      SubseqElems(xs, ys[..|ys| - 1]);
      forall x | x in Elems(xs) ensures x in Elems(ys) {
        assert x in ys[..|ys| - 1];
        assert x in ys;
      }
    }
  }

  /** Appending the next element of ys to xs, or skipping it, keeps xs a
      subsequence of the longer prefix. */
  lemma SubseqExtend(xs: seq<nat>, ys: seq<nat>, i: nat, keep: bool)
    requires i < |ys| && Subseq(xs, ys[..i])
    ensures Subseq(if keep then xs + [ys[i]] else xs, ys[..i + 1])
  {
    var p := ys[..i + 1];
    assert p[..|p| - 1] == ys[..i];
    if keep {
      var q := xs + [ys[i]];
      assert q[..|q| - 1] == xs;
    }
  }

  /** There is a walk from u to v of at most k arcs, none of them heavy. */
  predicate Near(g: Graph, heavy: set<Arc>, u: nat, v: nat, k: nat)
    decreases k
  {
    u == v ||
    (k > 0 && u < |g.adj| &&
     exists x :: x in g.adj[u] && (u, x) !in heavy && Near(g, heavy, x, v, k - 1))
  }

  lemma {:induction false} NearMonoSteps(g: Graph, heavy: set<Arc>, u: nat, v: nat, k: nat, k': nat)
    requires Near(g, heavy, u, v, k) && k <= k'
    ensures Near(g, heavy, u, v, k')
    decreases k
  {
    if u != v {
      var x :| x in g.adj[u] && (u, x) !in heavy && Near(g, heavy, x, v, k - 1);
      NearMonoSteps(g, heavy, x, v, k - 1, k' - 1);
    }
  }

  /** R is a trap: every light arc leaving a vertex of R ends in R. */
  ghost predicate Trapped(g: Graph, heavy: set<Arc>, R: set<nat>) {
    forall x: nat, y: nat :: x in R && x < |g.adj| && y in g.adj[x] && (x, y) !in heavy ==> y in R
  }

  /** No light walk leaves a trap. */
  lemma {:induction false} TrappedFar(g: Graph, heavy: set<Arc>, R: set<nat>, u: nat, v: nat, k: nat)
    requires Trapped(g, heavy, R) && u in R && v !in R
    ensures !Near(g, heavy, u, v, k)
    decreases k
  {
    if Near(g, heavy, u, v, k) {
      var x :| x in g.adj[u] && (u, x) !in heavy && Near(g, heavy, x, v, k - 1);
      TrappedFar(g, heavy, R, x, v, k - 1);
    }
  }

  /** Blocking fewer arcs never lengthens a distance. */
  lemma {:induction false} NearMonoHeavy(g: Graph, heavy: set<Arc>, light: set<Arc>, u: nat, v: nat, k: nat)
    requires Near(g, heavy, u, v, k) && light <= heavy
    ensures Near(g, light, u, v, k)
    decreases k
  {
    if u != v {
      var x :| x in g.adj[u] && (u, x) !in heavy && Near(g, heavy, x, v, k - 1);
      NearMonoHeavy(g, heavy, light, x, v, k - 1);
    }
  }

  /** A walk can be extended by one light arc at its end. */
  lemma {:induction false} NearSnoc(g: Graph, heavy: set<Arc>, u: nat, w: nat, v: nat, k: nat)
    requires Near(g, heavy, u, w, k) && Adj(g, w, v) && (w, v) !in heavy
    ensures Near(g, heavy, u, v, k + 1)
    decreases k
  {
    if u == w {
      assert Near(g, heavy, v, v, k);
    } else {
      var x :| x in g.adj[u] && (u, x) !in heavy && Near(g, heavy, x, w, k - 1);
      NearSnoc(g, heavy, x, w, v, k - 1);
    }
  }

  ghost predicate SymmetricArcs(heavy: set<Arc>) {
    forall u, v :: (u, v) in heavy ==> (v, u) in heavy
  }

  /** In an undirected graph under a symmetric overlay, walks can be reversed. */
  lemma {:induction false} NearSym(g: Graph, heavy: set<Arc>, u: nat, v: nat, k: nat)
    requires Valid(g) && SymmetricArcs(heavy) && Near(g, heavy, u, v, k)
    ensures Near(g, heavy, v, u, k)
    decreases k
  {
    if u != v {
      var x :| x in g.adj[u] && (u, x) !in heavy && Near(g, heavy, x, v, k - 1);
      NearSym(g, heavy, x, v, k - 1);
      assert (x, u) !in heavy;
      assert Adj(g, u, x);
      assert Adj(g, x, u);
      NearSnoc(g, heavy, v, x, u, k - 1);
    }
  }

  /** Weight of one arc under the overlay. */
  function ArcWeight(heavy: set<Arc>, s: nat, u: nat, v: nat): nat {
    if (u, v) in heavy then s + 1 else 1
  }

  predicate IsWalk(g: Graph, p: seq<nat>) {
    |p| >= 1 && forall i :: 0 <= i < |p| - 1 ==> Adj(g, p[i], p[i + 1])
  }

  /** Total weight of a walk; what Dijkstra minimises. */
  function WalkWeight(heavy: set<Arc>, s: nat, p: seq<nat>): nat
    decreases |p|
  {
    if |p| <= 1 then 0 else ArcWeight(heavy, s, p[0], p[1]) + WalkWeight(heavy, s, p[1..])
  }

  /** A walk of weight at most k <= s uses no heavy arc and at most k arcs. */
  lemma {:induction false} WalkToNear(g: Graph, heavy: set<Arc>, s: nat, k: nat, p: seq<nat>)
    requires IsWalk(g, p) && k <= s && WalkWeight(heavy, s, p) <= k
    ensures Near(g, heavy, p[0], p[|p| - 1], k)
    decreases |p|
  {
    if |p| > 1 {
      var q := p[1..];
      assert IsWalk(g, q) by {
        forall i | 0 <= i < |q| - 1 ensures Adj(g, q[i], q[i + 1]) {
          assert q[i] == p[i + 1] && q[i + 1] == p[i + 2];
        }
      }
      assert Adj(g, p[0], p[1]);
      WalkToNear(g, heavy, s, k - 1, q);
    }
  }

  /** Conversely a light walk of at most k arcs has weight at most k. */
  lemma {:induction false} NearToWalk(g: Graph, heavy: set<Arc>, s: nat, u: nat, v: nat, k: nat)
    returns (p: seq<nat>)
    requires Near(g, heavy, u, v, k)
    ensures IsWalk(g, p) && p[0] == u && p[|p| - 1] == v
    ensures WalkWeight(heavy, s, p) <= k
    decreases k
  {
    if u == v {
      p := [u];
    } else {
      var x :| x in g.adj[u] && (u, x) !in heavy && Near(g, heavy, x, v, k - 1);
      var q := NearToWalk(g, heavy, s, x, v, k - 1);
      p := [u] + q;
      assert p[1..] == q;
      forall i | 0 <= i < |p| - 1 ensures Adj(g, p[i], p[i + 1]) {
        if i > 0 {
          assert p[i] == q[i - 1] && p[i + 1] == q[i];
        }
      }
    }
  }

  /** Distance from a to v, capped at cap + 1 ("more than cap"). */
  function CappedDist(g: Graph, a: nat, v: nat, cap: nat): (d: nat)
    ensures d <= cap + 1
    ensures d <= cap ==> Near(g, {}, a, v, d)
    ensures forall k: nat :: k < d ==> !Near(g, {}, a, v, k)
  {
    DistFrom(g, a, v, 0, cap)
  }

  function DistFrom(g: Graph, a: nat, v: nat, k: nat, cap: nat): (d: nat)
    requires k <= cap + 1
    requires forall j: nat :: j < k ==> !Near(g, {}, a, v, j)
    ensures k <= d <= cap + 1
    ensures d <= cap ==> Near(g, {}, a, v, d)
    ensures forall j: nat :: j < d ==> !Near(g, {}, a, v, j)
    decreases cap + 1 - k
  {
    if k > cap then k
    else if Near(g, {}, a, v, k) then k
    else DistFrom(g, a, v, k + 1, cap)
  }

  lemma CappedDistAtMost(g: Graph, a: nat, v: nat, cap: nat, k: nat)
    requires Near(g, {}, a, v, k) && k <= cap
    ensures CappedDist(g, a, v, cap) <= k
  {
  }

  /** The elements of xs that lie in V, in order. */
  function Keep(xs: seq<nat>, V: set<nat>): (r: seq<nat>)
    ensures forall x :: x in r <==> x in xs && x in V
    ensures Increasing(xs) ==> Increasing(r)
    decreases |xs|
  {
    if |xs| == 0 then []
    else
      var rest := Keep(xs[1..], V);
      if xs[0] in V then
        KeepCons(xs, rest);
        [xs[0]] + rest
      else rest
  }

  /** Prepending the head of an increasing xs to a sub-collection of its
      tail keeps it increasing. */
  lemma KeepCons(xs: seq<nat>, rest: seq<nat>)
    requires |xs| > 0 && forall x :: x in rest ==> x in xs[1..]
    ensures Increasing(xs) && Increasing(rest) ==> Increasing([xs[0]] + rest)
  {
    if Increasing(xs) && Increasing(rest) {
      var r := [xs[0]] + rest;
      forall x | x in rest ensures xs[0] < x {
        var i :| 0 <= i < |xs[1..]| && xs[1..][i] == x;
        assert xs[i + 1] == x;
      }
      forall i, j | 0 <= i < j < |r| ensures r[i] < r[j] {
        assert r[j] == rest[j - 1] && r[j] in rest;
        if i > 0 {
          assert r[i] == rest[i - 1];
        }
      }
    }
  }

  /** The members of S below n, in increasing order. */
  function Sorted(S: set<nat>, n: nat): (r: seq<nat>)
    ensures forall x :: x in r <==> x < n && x in S
    ensures Increasing(r)
  {
    if n == 0 then []
    else
      var r := Sorted(S, n - 1);
      var r' := r + (if n - 1 in S then [n - 1] else []);
      assert Increasing(r') by {
        forall i, j | 0 <= i < j < |r'| ensures r'[i] < r'[j] {
          assert r'[i] == r[i] && r[i] in r;
          if j < |r| {
            assert r'[j] == r[j];
          }
        }
      }
      r'
  }

  /** A set of vertices has at most as many members as the graph. */
  lemma {:induction false} VertexSetCard(S: set<nat>, n: nat)
    requires forall v :: v in S ==> v < n
    ensures |S| <= n
  {
    if n > 0 {
      VertexSetCard(S - {n - 1}, n - 1);
    } else {
      assert S == {};
    }
  }

  /** Overlay that blocks every arc leaving a vertex of S (the directed
      view: each arc has a single owner, its tail). */
  function OutArcs(g: Graph, S: set<nat>): set<Arc> {
    set u: nat, v: nat | 0 <= u < |g.adj| && v in g.adj[u] && u in S :: (u, v)
  }

  /** Overlay that blocks every arc with an end in S (the undirected view:
      an edge is shared by its two ends). */
  function IncidentArcs(g: Graph, S: set<nat>): set<Arc> {
    set u: nat, v: nat | 0 <= u < |g.adj| && v in g.adj[u] && (u in S || v in S) :: (u, v)
  }

  /** The subgraph induced by V (vertices outside V keep no neighbours). */
  function Induced(g: Graph, V: set<nat>): (h: Graph)
    ensures |h.adj| == |g.adj|
    ensures forall u, v :: Adj(h, u, v) <==> Adj(g, u, v) && u in V && v in V
  {
    Graph(seq(|g.adj|, u requires 0 <= u < |g.adj| =>
      if u in V then Keep(g.adj[u], V) else []))
  }

  lemma InducedValid(g: Graph, V: set<nat>)
    requires Valid(g)
    ensures Valid(Induced(g, V))
  {
    ValidFromAdj(g, V, Induced(g, V));
  }

  lemma ValidFromAdj(g: Graph, V: set<nat>, h: Graph)
    requires Valid(g) && |h.adj| == |g.adj|
    requires forall u, v :: Adj(h, u, v) <==> Adj(g, u, v) && u in V && v in V
    ensures Valid(h)
  {
    forall u: nat, v: nat | u < |h.adj| && v in h.adj[u] ensures v < |h.adj| && u in h.adj[v] {
      assert Adj(h, u, v);
      assert Adj(g, u, v) && u in V && v in V;
      assert u < |g.adj| && v in g.adj[u];
      assert v < |g.adj| && u in g.adj[v];
      assert Adj(h, v, u);
    }
  }

  /** One expansion step of a search confined to V. */
  function Expand(g: Graph, V: set<nat>, S: set<nat>): set<nat> {
    S + set u, v | u in S && u < |g.adj| && v in g.adj[u] && v in V :: v
  }

  /** W contains every V-neighbour of its members. */
  predicate ClosedIn(g: Graph, V: set<nat>, W: set<nat>) {
    forall u, v :: u in W && u < |g.adj| && v in g.adj[u] && v in V ==> v in W
  }

  /** The least subset of V containing S and closed under V-neighbours: the
      union of the components of G[V] that meet S. */
  function Component(g: Graph, V: set<nat>, S: set<nat>): (r: set<nat>)
    requires S <= V
    ensures S <= r <= V
    ensures ClosedIn(g, V, r)
    ensures forall W :: S <= W && ClosedIn(g, V, W) ==> r <= W
    decreases |V - S|
  {
    var E := Expand(g, V, S);
    if E == S then S
    else
      assert E <= V;
      var x :| x in E && x !in S;
      StrictSubsetCard(V - E, V - S, x);
      Component(g, V, E)
  }

  lemma SubsetCard(A: set<nat>, B: set<nat>)
    requires A <= B
    ensures |A| <= |B|
  {
    assert B == A + (B - A);
  }

  lemma StrictSubsetCard(A: set<nat>, B: set<nat>, x: nat)
    requires A <= B && x in B && x !in A
    ensures |A| < |B|
  {
    assert B == A + (B - A);
    assert x in B - A;
  }

  /** Membership in a component is symmetric. */
  lemma ComponentSym(g: Graph, V: set<nat>, u: nat, v: nat)
    requires Valid(g) && u in V && v in Component(g, V, {u})
    ensures u in Component(g, V, {v})
  {
    var W := set x | x in V && u in Component(g, V, {x});
    forall x: nat, y: nat | x in W && x < |g.adj| && y in g.adj[x] && y in V ensures y in W {
      var Cy := Component(g, V, {y});
      assert Adj(g, x, y);
      assert y < |g.adj| && x in g.adj[y];
      assert x in Cy;
      assert Component(g, V, {x}) <= Cy;
    }
    assert {u} <= W;
  }

  /** Two vertices of one component have the same component. */
  lemma ComponentSame(g: Graph, V: set<nat>, u: nat, v: nat)
    requires Valid(g) && u in V && v in Component(g, V, {u})
    ensures Component(g, V, {v}) == Component(g, V, {u})
  {
    ComponentSym(g, V, u, v);
    assert Component(g, V, {v}) <= Component(g, V, {u});
    assert Component(g, V, {u}) <= Component(g, V, {v});
  }

  /** G[V] is connected: every vertex's component is all of V. */
  predicate Connected(g: Graph, V: set<nat>)
    requires forall v :: v in V ==> v < |g.adj|
  {
    forall v :: v in V ==> Component(g, V, {v}) == V
  }

  /** A disconnected G[V] leaves some vertex outside the component of b. */
  lemma DisconnectedWitness(g: Graph, V: set<nat>, b: nat) returns (a: nat)
    requires Valid(g) && (forall v :: v in V ==> v < |g.adj|)
    requires b in V && !Connected(g, V)
    ensures a in V && a !in Component(g, V, {b})
  {
    var u :| u in V && Component(g, V, {u}) != V;
    var w :| w in V && w !in Component(g, V, {u});
    if u in Component(g, V, {b}) {
      ComponentSame(g, V, b, u);
      a := w;
    } else {
      a := u;
    }
  }

  /** Every pair of vertices of V is within s hops inside G[V]. */
  predicate DiameterAtMost(g: Graph, V: set<nat>, s: nat) {
    var h := Induced(g, V);
    forall u, v :: u in V && v in V ==> Near(h, {}, u, v, s)
  }

  /** V is an s-club: non-empty, G[V] connected and of diameter at most s. */
  predicate IsSClub(g: Graph, V: set<nat>, s: nat)
    requires forall v :: v in V ==> v < |g.adj|
  {
    V != {} && Connected(g, V) && DiameterAtMost(g, V, s)
  }

  function Range(n: nat): (r: seq<nat>)
    ensures |r| == n && forall i :: 0 <= i < n ==> r[i] == i
  {
    seq(n, i requires 0 <= i => i)
  }
}
