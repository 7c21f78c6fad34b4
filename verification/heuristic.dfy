/** Phase II of the two upper-bound heuristics: given the vertices (even s)
    or cliques (odd s) that the covering model selected, assign every vertex
    to at most one part, breadth-first around the selection. */
module Heuristic {
  import opened Graphs

  /** Some part holds v. */
  predicate InSome(parts: seq<seq<nat>>, v: nat) {
    exists p :: 0 <= p < |parts| && v in parts[p]
  }

  /** No vertex is listed twice, within a part or across parts. */
  ghost predicate Disjoint(parts: seq<seq<nat>>) {
    (forall p :: 0 <= p < |parts| ==> Distinct(parts[p])) &&
    forall p, q, v :: 0 <= p < |parts| && 0 <= q < |parts| && p != q && v in parts[p] ==> v !in parts[q]
  }

  /** The marks are exactly the vertices placed so far, and each
      is placed once. */
  ghost predicate Tracks(parts: seq<seq<nat>>, marked: set<nat>) {
    Disjoint(parts) && forall v :: v in marked <==> InSome(parts, v)
  }

  /** Appending an unassigned vertex to one part and marking it keeps the
      marks exact. */
  lemma AppendFresh(parts: seq<seq<nat>>, marked: set<nat>, p: nat, v: nat)
    requires Tracks(parts, marked) && p < |parts| && v !in marked
    ensures Tracks(parts[p := parts[p] + [v]], marked + {v})
  {
    var parts' := parts[p := parts[p] + [v]];
    assert v !in parts[p];
    forall q | 0 <= q < |parts'| ensures Distinct(parts'[q]) {
      if q == p {
        forall i, j | 0 <= i < j < |parts'[p]| ensures parts'[p][i] != parts'[p][j] {
          assert parts'[p][i] == parts[p][i] && parts[p][i] in parts[p];
          if j < |parts[p]| {
            assert parts'[p][j] == parts[p][j];
          }
        }
      }
    }
    forall q, r, w | 0 <= q < |parts'| && 0 <= r < |parts'| && q != r && w in parts'[q] ensures w !in parts'[r] {
      if w == v {
        assert !InSome(parts, v);
        if r != p {
          assert parts'[r] == parts[r];
        }
      } else {
        assert w in parts[q];
      }
    }
    forall w ensures w in marked + {v} <==> InSome(parts', w) {
      if InSome(parts', w) {
        var q :| 0 <= q < |parts'| && w in parts'[q];
        if w != v {
          assert w in parts[q];
        }
      }
      if w in marked {
        var q :| 0 <= q < |parts| && w in parts[q];
        assert w in parts'[q];
      }
      if w == v {
        assert v in parts'[p];
      }
    }
  }

  /** A new empty part changes nothing. */
  lemma AddEmpty(parts: seq<seq<nat>>, marked: set<nat>)
    requires Tracks(parts, marked)
    ensures Tracks(parts + [[]], marked)
  {
    var parts' := parts + [[]];
    forall w ensures InSome(parts', w) <==> InSome(parts, w) {
      if InSome(parts, w) {
        var q :| 0 <= q < |parts| && w in parts[q];
        assert parts'[q] == parts[q];
      }
    }
  }

  /** The scan of a candidate list xs for part p: every unassigned
      candidate is appended to p and marked, in the order of xs. */
  method Take(parts: seq<seq<nat>>, p: nat, xs: seq<nat>, marked: set<nat>)
    returns (parts': seq<seq<nat>>, added: seq<nat>, marked': set<nat>)
    requires p < |parts| && Tracks(parts, marked)
    ensures |parts'| == |parts| && parts'[p] == parts[p] + added
    ensures forall q :: 0 <= q < |parts| && q != p ==> parts'[q] == parts[q]
    ensures forall x :: x in added <==> x in xs && x !in marked
    ensures marked' == marked + Elems(xs)
    ensures Tracks(parts', marked')
  {
    parts', added, marked' := parts, [], marked;
    var t := 0;
    while t < |xs|
      invariant t <= |xs|
      invariant |parts'| == |parts| && parts'[p] == parts[p] + added
      invariant forall q :: 0 <= q < |parts| && q != p ==> parts'[q] == parts[q]
      invariant forall x :: x in added <==> x in xs[..t] && x !in marked
      invariant marked' == marked + Elems(xs[..t])
      invariant Tracks(parts', marked')
    {
      var x := xs[t];
      assert xs[..t + 1] == xs[..t] + [x];
      if x !in marked' {
        AppendFresh(parts', marked', p, x);
        parts' := parts'[p := parts'[p] + [x]];
        added := added + [x];
        marked' := marked' + {x};
      }
      t := t + 1;
    }
    assert xs[..t] == xs;
  }

  /** h's neighbours in the k-th power of G: the other vertices within k
      hops of h, in ascending order. */
  function PowerNeighbours(g: Graph, h: nat, k: nat): (r: seq<nat>)
    ensures forall v: nat :: v in r <==> v < |g.adj| && v != h && Near(g, {}, h, v, k)
  {
    Sorted(set v: nat | v < |g.adj| && v != h && Near(g, {}, h, v, k), |g.adj|)
  }

  /** Every part is non-empty and starts with its head. */
  predicate Headed(parts: seq<seq<nat>>, heads: seq<nat>) {
    |parts| == |heads| && forall p :: 0 <= p < |parts| ==> |parts[p]| > 0 && parts[p][0] == heads[p]
  }

  /** Every entry of a part is a vertex within k hops of the part's head. */
  ghost predicate WithinOfHead(g: Graph, parts: seq<seq<nat>>, heads: seq<nat>, k: nat)
    requires |parts| == |heads|
  {
    forall p, v :: 0 <= p < |parts| && v in parts[p] ==> v < |g.adj| && Near(g, {}, heads[p], v, k)
  }

  /** Round k of the even assignment: each part in turn takes the unassigned
      neighbours of its head in the k-th power of G. Heads stay put, each
      part gains only vertices within k hops of its head, and afterwards
      every vertex within k hops of some head is assigned. */
  method Round(g: Graph, k: nat, heads: seq<nat>, parts: seq<seq<nat>>, marked: set<nat>)
    returns (parts': seq<seq<nat>>, marked': set<nat>)
    requires Headed(parts, heads) && Tracks(parts, marked)
    requires WithinOfHead(g, parts, heads, k)
    ensures Headed(parts', heads) && Tracks(parts', marked')
    ensures marked <= marked'
    ensures WithinOfHead(g, parts', heads, k)
    ensures forall p, v: nat :: 0 <= p < |heads| && v < |g.adj| && Near(g, {}, heads[p], v, k) ==> v in marked'
  {
    parts', marked' := parts, marked;
    var t := 0;
    while t < |heads|
      invariant t <= |heads|
      invariant Headed(parts', heads) && Tracks(parts', marked')
      invariant marked <= marked'
      invariant WithinOfHead(g, parts', heads, k)
      invariant forall p, v: nat :: 0 <= p < t && v < |g.adj| && Near(g, {}, heads[p], v, k) ==> v in marked'
    {
      var xs := PowerNeighbours(g, heads[t], k);
      var before := parts';
      assert heads[t] in before[t];
      var added;
      parts', added, marked' := Take(parts', t, xs, marked');
      forall p, v | 0 <= p < |parts'| && v in parts'[p] ensures v < |g.adj| && Near(g, {}, heads[p], v, k) {
        if p != t || v !in added {
          assert v in before[p];
        }
      }
      forall v: nat | v < |g.adj| && Near(g, {}, heads[t], v, k) ensures v in marked' {
        if v != heads[t] {
          assert v in xs;
        }
      }
      t := t + 1;
    }
  }

  /** Every vertex is within r hops of a selected vertex: the covering
      constraint of the dominating-set model over the r-th power of G. */
  ghost predicate Dominates(g: Graph, Z: set<nat>, r: nat) {
    forall v: nat :: v < |g.adj| ==> Reached(g, Z, v, r)
  }

  ghost predicate Reached(g: Graph, Z: set<nat>, v: nat, r: nat) {
    exists z :: z in Z && Near(g, {}, z, v, r)
  }

  /** Phase II for even s, with r = s / 2: one part per selected vertex,
      headed by it, then rounds 1, ..., r each grow every part by the
      unassigned vertices within that many hops of its head. Parts never
      share a vertex, every entry is within r hops of its head, and when the
      selection dominates the r-th power of G every vertex is placed. */
  method AssignEven(g: Graph, s: nat, Z: set<nat>) returns (parts: seq<seq<nat>>)
    ensures Headed(parts, Sorted(Z, |g.adj|))
    ensures Disjoint(parts)
    ensures WithinOfHead(g, parts, Sorted(Z, |g.adj|), s / 2)
    ensures Dominates(g, Z, s / 2) ==> forall v: nat :: v < |g.adj| ==> InSome(parts, v)
  {
    var r := s / 2;
    var heads := Sorted(Z, |g.adj|);
    parts := seq(|heads|, i requires 0 <= i < |heads| => [heads[i]]);
    var marked := Elems(heads);
    assert Tracks(parts, marked) by {
      forall v ensures v in marked <==> InSome(parts, v) {
        if v in marked {
          var i :| 0 <= i < |heads| && heads[i] == v;
          assert v in parts[i];
        }
      }
      forall p, q, v | 0 <= p < |parts| && 0 <= q < |parts| && p != q && v in parts[p] ensures v !in parts[q] {
        assert heads[p] != heads[q];
      }
    }
    assert WithinOfHead(g, parts, heads, 0) by {
      forall p, v | 0 <= p < |parts| && v in parts[p] ensures v < |g.adj| && Near(g, {}, heads[p], v, 0) {
        assert heads[p] in heads;
      }
    }
    var i := 0;
    while i < r
      invariant i <= r
      invariant Headed(parts, heads) && Tracks(parts, marked)
      invariant WithinOfHead(g, parts, heads, i)
      invariant forall v :: v in heads ==> v in marked
      invariant forall p, v: nat :: 0 <= p < |heads| && v < |g.adj| && Near(g, {}, heads[p], v, i) ==> v in marked
    {
      WithinMono(g, parts, heads, i, i + 1);
      parts, marked := Round(g, i + 1, heads, parts, marked);
      i := i + 1;
    }
    if Dominates(g, Z, r) {
      forall v: nat | v < |g.adj| ensures InSome(parts, v) {
        assert Reached(g, Z, v, r);
        var z :| z in Z && Near(g, {}, z, v, r);
        if z != v {
          assert z < |g.adj|;
          var p :| 0 <= p < |heads| && heads[p] == z;
        }
      }
    }
  }

  lemma WithinMono(g: Graph, parts: seq<seq<nat>>, heads: seq<nat>, k: nat, k': nat)
    requires |parts| == |heads| && WithinOfHead(g, parts, heads, k) && k <= k'
    ensures WithinOfHead(g, parts, heads, k')
  {
    forall p, v | 0 <= p < |parts| && v in parts[p] ensures Near(g, {}, heads[p], v, k') {
      NearMonoSteps(g, {}, heads[p], v, k, k');
    }
  }

  /** Some clique before position i lists v. */
  predicate EarlierHas(cliques: seq<seq<nat>>, i: nat, v: nat)
    requires i <= |cliques|
  {
    exists i' :: 0 <= i' < i && v in cliques[i']
  }

  /** Phase II for odd s, first step: each selected clique in turn keeps
      the vertices no earlier clique took. A cluster may come out empty. */
  method CliqueClusters(cliques: seq<seq<nat>>) returns (clusters: seq<seq<nat>>, marked: set<nat>)
    ensures |clusters| == |cliques| && Tracks(clusters, marked)
    ensures forall i, v :: 0 <= i < |cliques| ==> (v in clusters[i] <==> v in cliques[i] && !EarlierHas(cliques, i, v))
    ensures forall v :: v in marked <==> EarlierHas(cliques, |cliques|, v)
  {
    clusters, marked := [], {};
    var i := 0;
    while i < |cliques|
      invariant i <= |cliques| && |clusters| == i && Tracks(clusters, marked)
      invariant forall i', v :: 0 <= i' < i ==> (v in clusters[i'] <==> v in cliques[i'] && !EarlierHas(cliques, i', v))
      invariant forall v :: v in marked <==> EarlierHas(cliques, i, v)
    {
      AddEmpty(clusters, marked);
      var before := clusters + [[]];
      var added;
      clusters, added, marked := Take(before, i, cliques[i], marked);
      forall i', v | 0 <= i' < i + 1 ensures v in clusters[i'] <==> v in cliques[i'] && !EarlierHas(cliques, i', v) {
        if i' < i {
          assert clusters[i'] == before[i'];
        }
      }
      forall v ensures v in marked <==> EarlierHas(cliques, i + 1, v) {
        if EarlierHas(cliques, i + 1, v) && !(v in cliques[i]) {
          var i' :| 0 <= i' < i + 1 && v in cliques[i'];
          assert EarlierHas(cliques, i, v);
        }
        if EarlierHas(cliques, i, v) {
          var i' :| 0 <= i' < i && v in cliques[i'];
          assert EarlierHas(cliques, i + 1, v);
        }
        if v in cliques[i] {
          assert EarlierHas(cliques, i + 1, v);
        }
      }
      i := i + 1;
    }
  }

  /** The part P starts with its cluster C, and every later entry is a
      G-neighbour of a vertex of C. */
  ghost predicate GrownFrom(g: Graph, C: seq<nat>, P: seq<nat>) {
    |C| <= |P| && P[..|C|] == C &&
    forall j :: |C| <= j < |P| ==> exists u :: u in C && Adj(g, u, P[j])
  }

  ghost predicate AllGrown(g: Graph, clusters: seq<seq<nat>>, parts: seq<seq<nat>>)
    requires |clusters| == |parts|
  {
    forall q :: 0 <= q < |parts| ==> GrownFrom(g, clusters[q], parts[q])
  }

  lemma GrownAppend(g: Graph, C: seq<nat>, P: seq<nat>, u: nat, added: seq<nat>)
    requires GrownFrom(g, C, P) && u in C && u < |g.adj|
    requires forall x :: x in added ==> x in g.adj[u]
    ensures GrownFrom(g, C, P + added)
  {
    var P' := P + added;
    assert P'[..|C|] == P[..|C|];
    forall j | |C| <= j < |P'| ensures exists u :: u in C && Adj(g, u, P'[j]) {
      if j < |P| {
        assert P'[j] == P[j];
      } else {
        assert P'[j] == added[j - |P|] && added[j - |P|] in added;
        assert Adj(g, u, P'[j]);
      }
    }
  }

  /** Every vertex is in, or adjacent to, a selected clique: constraint
      (6b) of the clique-cover model. */
  ghost predicate CliquesCover(g: Graph, cliques: seq<seq<nat>>) {
    forall v: nat :: v < |g.adj| ==> EarlierHas(cliques, |cliques|, v) || Adjacent(g, cliques, v)
  }

  ghost predicate Adjacent(g: Graph, cliques: seq<seq<nat>>, v: nat) {
    exists i, u :: 0 <= i < |cliques| && u in cliques[i] && u < |g.adj| && v in g.adj[u]
  }

  /** One part absorbs the unassigned G-neighbours of each vertex of its
      cluster, in order. */
  method Absorb(g: Graph, clusters: seq<seq<nat>>, t: nat, parts: seq<seq<nat>>, marked: set<nat>)
    returns (parts': seq<seq<nat>>, marked': set<nat>)
    requires |clusters| == |parts| && t < |parts|
    requires Tracks(parts, marked) && AllGrown(g, clusters, parts)
    requires forall u :: u in clusters[t] ==> u < |g.adj|
    ensures |parts'| == |parts| && Tracks(parts', marked') && AllGrown(g, clusters, parts')
    ensures marked <= marked'
    ensures forall u, v :: u in clusters[t] && Adj(g, u, v) ==> v in marked'
  {
    parts', marked' := parts, marked;
    var w := 0;
    var C := clusters[t];
    while w < |C|
      invariant w <= |C|
      invariant |parts'| == |parts| && Tracks(parts', marked') && AllGrown(g, clusters, parts')
      invariant marked <= marked'
      invariant forall u, v :: u in C[..w] && Adj(g, u, v) ==> v in marked'
    {
      var u := C[w];
      assert u in clusters[t];
      var before := parts';
      var added;
      parts', added, marked' := Take(parts', t, g.adj[u], marked');
      GrownAppend(g, clusters[t], before[t], u, added);
      assert AllGrown(g, clusters, parts') by {
        forall q | 0 <= q < |parts'| ensures GrownFrom(g, clusters[q], parts'[q]) {
          if q != t {
            assert parts'[q] == before[q];
          }
        }
      }
      assert C[..w + 1] == C[..w] + [u];
      w := w + 1;
    }
    assert C[..w] == C;
  }

  /** Phase II for odd s: the clusters of the selected cliques, then each
      part absorbs the unassigned G-neighbours of its cluster. Parts never
      share a vertex, each starts with its cluster and grows only by
      neighbours of it, and under constraint (6b) every vertex is placed. */
  method AssignOdd(g: Graph, cliques: seq<seq<nat>>) returns (clusters: seq<seq<nat>>, parts: seq<seq<nat>>)
    requires forall i, u :: 0 <= i < |cliques| && u in cliques[i] ==> u < |g.adj|
    ensures |clusters| == |cliques| && |parts| == |cliques|
    ensures forall i, v :: 0 <= i < |cliques| ==> (v in clusters[i] <==> v in cliques[i] && !EarlierHas(cliques, i, v))
    ensures Disjoint(clusters) && Disjoint(parts)
    ensures AllGrown(g, clusters, parts)
    ensures CliquesCover(g, cliques) ==> forall v: nat :: v < |g.adj| ==> InSome(parts, v)
  {
    var marked;
    clusters, marked := CliqueClusters(cliques);
    var marked1 := marked;
    parts := clusters;
    assert AllGrown(g, clusters, parts) by {
      forall q | 0 <= q < |parts| ensures GrownFrom(g, clusters[q], parts[q]) {
        assert parts[q][..|parts[q]|] == parts[q];
      }
    }
    var t := 0;
    while t < |clusters|
      invariant t <= |clusters| && |parts| == |clusters|
      invariant Tracks(parts, marked) && AllGrown(g, clusters, parts)
      invariant marked1 <= marked
      invariant forall q, u, v :: 0 <= q < t && u in clusters[q] && Adj(g, u, v) ==> v in marked
    {
      forall u | u in clusters[t] ensures u < |g.adj| {
        assert u in cliques[t];
      }
      parts, marked := Absorb(g, clusters, t, parts, marked);
      t := t + 1;
    }
    if CliquesCover(g, cliques) {
      forall v: nat | v < |g.adj| ensures InSome(parts, v) {
        if !EarlierHas(cliques, |cliques|, v) {
          var i, u :| 0 <= i < |cliques| && u in cliques[i] && u < |g.adj| && v in g.adj[u];
          assert EarlierHas(cliques, |cliques|, u);
          assert InSome(clusters, u);
          var q :| 0 <= q < |clusters| && u in clusters[q];
        }
      }
    }
  }
}
