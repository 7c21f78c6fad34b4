/** The per-cluster scan shared by the four callbacks: which (a, b, C)
    records a candidate's clusters give rise to. */
module Scanner {
  import opened Graphs
  import opened Separator
  import opened Reduction
  import opened Cuts

  /** a is the least vertex of its component of G[V] and that component
      does not hold the anchor b: one representative per other component. */
  predicate IsRep(g: Graph, V: set<nat>, b: nat, a: nat)
    requires b in V
  {
    a in V && a !in Component(g, V, {b}) && forall v :: v in Component(g, V, {a}) ==> a <= v
  }

  /** The representatives in ascending order. */
  function Reps(g: Graph, V: set<nat>, b: nat): (r: seq<nat>)
    requires b in V && forall v :: v in V ==> v < |g.adj|
    ensures forall a :: a in r <==> IsRep(g, V, b, a)
    ensures Increasing(r)
  {
    Sorted(set a: nat | a in V && IsRep(g, V, b, a), |g.adj|)
  }

  /** The size of each vertex's component of G[V], in the order of xs. */
  function Sizes(g: Graph, V: set<nat>, xs: seq<nat>): (r: seq<nat>)
    requires forall x :: x in xs ==> x in V
    ensures |r| == |xs| && forall i :: 0 <= i < |xs| ==> r[i] == |Component(g, V, {xs[i]})|
  {
    seq(|xs|, i requires 0 <= i < |xs| => assert xs[i] in xs; |Component(g, V, {xs[i]})|)
  }

  /** The first position of a least entry. */
  function ArgMin(ns: seq<nat>): (i: nat)
    requires |ns| > 0
    ensures i < |ns| && forall k :: 0 <= k < |ns| ==> ns[i] <= ns[k]
  {
    if |ns| == 1 then 0
    else
      var m := ArgMin(ns[1..]);
      assert forall k :: 1 <= k < |ns| ==> ns[k] == ns[1..][k - 1];
      if ns[0] <= ns[1..][m] then 0 else m + 1
  }

  /** The vertex of xs whose component of G[V] is smallest (the first one
      on ties). */
  function SmallestIn(g: Graph, V: set<nat>, xs: seq<nat>): (b: nat)
    requires |xs| > 0 && forall x :: x in xs ==> x in V
    ensures b in xs && forall i :: 0 <= i < |xs| ==> |Component(g, V, {b})| <= |Component(g, V, {xs[i]})|
  {
    var ns := Sizes(g, V, xs);
    xs[ArgMin(ns)]
  }

  /** The anchor b of a disconnected cluster: the centre itself in the
      centring callback, otherwise a vertex of a smallest component. */
  function Anchor(mode: Mode, g: Graph, V: set<nat>, j: nat): (b: nat)
    requires V != {} && forall v :: v in V ==> v < |g.adj|
    requires mode == Centering ==> j in V
    ensures b in V
    ensures mode == Centering ==> b == j
    ensures mode != Centering ==> forall v :: v in V ==> |Component(g, V, {b})| <= |Component(g, V, {v})|
  {
    if mode == Centering then j
    else
      var xs := Sorted(V, |g.adj|);
      var v :| v in V;
      assert v in xs;
      SmallestInLeast(g, V, xs);
      SmallestIn(g, V, xs)
  }

  lemma SmallestInLeast(g: Graph, V: set<nat>, xs: seq<nat>)
    requires |xs| > 0 && forall x :: x in xs ==> x in V
    ensures forall x :: x in xs ==> |Component(g, V, {SmallestIn(g, V, xs)})| <= |Component(g, V, {x})|
  {
    forall x | x in xs ensures |Component(g, V, {SmallestIn(g, V, xs)})| <= |Component(g, V, {x})| {
      var i :| 0 <= i < |xs| && xs[i] == x;
    }
  }

  /** A component T of G[V] and a vertex b of V outside it: b is neither in
      T nor on its boundary, and the boundary lies outside V. */
  lemma ApartComponent(g: Graph, V: set<nat>, a: nat, b: nat)
    requires Valid(g) && a in V && b in V && a !in Component(g, V, {b})
    ensures b !in Component(g, V, {a})
    ensures forall v :: v in BoundarySet(g, Component(g, V, {a})) ==> v !in V
  {
    var T := Component(g, V, {a});
    if b in T {
      ComponentSym(g, V, a, b);
    }
    forall v | v in BoundarySet(g, T) ensures v !in V {
      var t: nat :| t in T && t < |g.adj| && v in g.adj[t] && v !in T;
    }
  }

  /** The record for one disconnected component: the boundary-trimming
      separator of T = component(a), reduced in the directed view. */
  method SplitCut(g: Graph, s: nat, V: set<nat>, j: nat, a: nat, b: nat) returns (cut: Cut)
    requires Valid(g) && (forall v :: v in V ==> v < |g.adj|)
    requires a in V && b in V && a !in Component(g, V, {b})
    ensures cut == Cut(Split, j, a, b, cut.sep) && Separates(g, s, V, cut)
  {
    var T := Component(g, V, {a});
    ApartComponent(g, V, a, b);
    var C, visited, marks := FischettiSeparator(g, T, b);
    SeparatorCutsComponent(g, T, C, visited, b);
    assert a in T;
    var minC := Reduce(Directed, g, s, a, b, C);
    SubseqElems(minC, C);
    cut := Cut(Split, j, a, b, minC);
    forall c | c in minC ensures c < |g.adj| && c !in V {
      assert c in Elems(C);
    }
  }

  /** The records of a disconnected cluster: split records anchored at b,
      exactly one per representative of a component without b. */
  ghost predicate ListsReps(g: Graph, V: set<nat>, b: nat, cuts: seq<Cut>)
    requires b in V
  {
    (forall i :: 0 <= i < |cuts| ==> cuts[i].kind == Split && cuts[i].b == b) &&
    (forall i, k :: 0 <= i < k < |cuts| ==> cuts[i].a != cuts[k].a) &&
    forall a :: (exists i :: 0 <= i < |cuts| && cuts[i].a == a) <==> IsRep(g, V, b, a)
  }

  /** One record per representative of a component without the anchor. */
  method SplitCuts(g: Graph, s: nat, V: set<nat>, j: nat, b: nat) returns (cuts: seq<Cut>)
    requires Valid(g) && (forall v :: v in V ==> v < |g.adj|) && b in V
    ensures forall i :: 0 <= i < |cuts| ==> cuts[i].j == j && Separates(g, s, V, cuts[i])
    ensures ListsReps(g, V, b, cuts)
  {
    var reps := Reps(g, V, b);
    cuts := [];
    var i := 0;
    while i < |reps|
      invariant i <= |reps| && |cuts| == i
      invariant forall k :: 0 <= k < i ==> cuts[k].kind == Split && cuts[k].j == j && cuts[k].b == b
      invariant forall k :: 0 <= k < i ==> cuts[k].a == reps[k] && Separates(g, s, V, cuts[k])
    {
      assert reps[i] in reps;
      var cut := SplitCut(g, s, V, j, reps[i], b);
      cuts := cuts + [cut];
      i := i + 1;
    }
    forall a ensures (exists i :: 0 <= i < |cuts| && cuts[i].a == a) <==> a in reps {
      if a in reps {
        var k :| 0 <= k < |reps| && reps[k] == a;
        assert cuts[k].a == a;
      }
    }
  }

  /** The distance table the pair loop of a connected cluster reads when it
      tests whether b is more than s from a: at first the table of G[V] from
      a; once a reduction has run a trial, the table of that reduction's
      latest trial, computed in G under the trial's weights, because the
      trial's result is stored under the same name. */
  datatype Table = ClusterTable | TrialTable(heavy: set<Arc>)

  /** The loop's test "b is more than s from a" read off table t. */
  predicate FarIn(g: Graph, V: set<nat>, s: nat, a: nat, b: nat, t: Table) {
    match t
    case ClusterTable => !Near(Induced(g, V), {}, a, b, s)
    case TrialTable(heavy) => !Near(g, heavy, a, b, s)
  }

  /** A trial table blocks no arc between two vertices of V. */
  ghost predicate TableInside(V: set<nat>, t: Table) {
    t.TrialTable? ==> LightInside(V, t.heavy)
  }

  /** A stale table can hide a far pair but never invent one: whatever it
      reports more than s apart is more than s apart in G[V]. */
  lemma {:induction false} FarInCluster(g: Graph, V: set<nat>, s: nat, a: nat, b: nat, t: Table)
    requires TableInside(V, t) && FarIn(g, V, s, a, b, t)
    ensures !Near(Induced(g, V), {}, a, b, s)
  {
    if t.TrialTable? && Near(Induced(g, V), {}, a, b, s) {
      assert ArcsWithin(g, Induced(g, V), V);
      InsideWalkLight(g, Induced(g, V), V, t.heavy, a, b, s);
    }
  }

  /** The record for a far pair (a, b) of a connected cluster as the source
      computes it: S' is prefiltered, then reduced by the shared-weight
      update. The second component is the table the pair loop reads next:
      the reduction's latest trial, or the old table when S' is empty and
      no trial ran. */
  function WideRecord(g: Graph, s: nat, V: set<nat>, j: nat, a: nat, b: nat, t: Table): (r: (Cut, Table))
    requires Valid(g) && a in V && b in V && !Near(Induced(g, V), {}, a, b, s)
    requires TableInside(V, t)
    ensures r.0.kind == Wide && r.0.j == j && r.0.a == a && r.0.b == b
    ensures Separates(g, s, V, r.0)
    ensures Subseq(r.0.sep, Prefilter(g, V, a, b, s))
    ensures TableInside(V, r.1)
    ensures Prefilter(g, V, a, b, s) == [] ==> r.1 == t
    ensures Prefilter(g, V, a, b, s) != [] ==> r.1.TrialTable? && r.1.heavy <= IncidentArcs(g, Elems(Prefilter(g, V, a, b, s)))
  {
    var S' := Prefilter(g, V, a, b, s);
    PrefilterSeparates(g, V, a, b, s);
    var red := UndirectedReduceAsWritten(g, s, a, b, S');
    SharedReduceSound(g, s, a, b, S');
    SubseqElems(red.0, S');
    forall c | c in red.0 ensures c < |g.adj| && c !in V {
      assert c in Elems(S');
    }
    forall u, x | u in V && x in V ensures (u, x) !in red.2 {
      ArcOutsideBlock(g, Elems(S'), Undirected, u, x);
    }
    (Cut(Wide, j, a, b, red.0), if S' == [] then t else TrialTable(red.2))
  }

  /** A wide record of label j for a pair a < b more than s apart in G[V]
      that it separates. */
  ghost predicate WideRec(g: Graph, s: nat, V: set<nat>, j: nat, c: Cut) {
    c.kind == Wide && c.j == j && c.a < c.b && !Near(Induced(g, V), {}, c.a, c.b, s) && Separates(g, s, V, c)
  }

  /** a has a partner b > a more than s away in G[V]. */
  ghost predicate HasFar(g: Graph, s: nat, V: set<nat>, a: nat) {
    exists b :: b in V && a < b && !Near(Induced(g, V), {}, a, b, s)
  }

  /** No pair (a, b) has two records. */
  ghost predicate PairsOnce(r: seq<Cut>) {
    forall i, k :: 0 <= i < k < |r| ==> (r[i].a, r[i].b) != (r[k].a, r[k].b)
  }

  /** The pair loop for one a, as written: keys lists the table's keys in
      its order; each key b > a that the current table reports more than s
      away gets a record, and from then on the loop reads the table that
      record's reduction left behind. Every record is a far pair of G[V]
      listed once; starting from G[V]'s own table, a gets a record when it
      has a far partner among the keys. */
  function PairsFrom(g: Graph, s: nat, V: set<nat>, j: nat, a: nat, keys: seq<nat>, t: Table): (r: seq<Cut>)
    requires Valid(g) && a in V && (forall y :: y in keys ==> y in V) && TableInside(V, t)
    ensures forall i :: 0 <= i < |r| ==> r[i].a == a && r[i].b in keys && WideRec(g, s, V, j, r[i])
    ensures Distinct(keys) ==> PairsOnce(r)
    ensures t == ClusterTable && (exists y :: y in keys && a < y && !Near(Induced(g, V), {}, a, y, s)) ==> r != []
    decreases |keys|
  {
    if keys == [] then []
    else
      var b := keys[0];
      assert forall y :: y in keys[1..] ==> y in keys;
      if a < b && FarIn(g, V, s, a, b, t) then
        FarInCluster(g, V, s, a, b, t);
        var rec := WideRecord(g, s, V, j, a, b, t);
        var rest := PairsFrom(g, s, V, j, a, keys[1..], rec.1);
        PairsFromCons(g, s, V, j, a, keys, rec.0, rest);
        [rec.0] + rest
      else
        var rest := PairsFrom(g, s, V, j, a, keys[1..], t);
        assert forall y :: y in keys && y != b ==> y in keys[1..];
        rest
  }

  lemma PairsFromCons(g: Graph, s: nat, V: set<nat>, j: nat, a: nat, keys: seq<nat>, c: Cut, rest: seq<Cut>)
    requires keys != [] && c.a == a && c.b == keys[0] && WideRec(g, s, V, j, c)
    requires forall i :: 0 <= i < |rest| ==> rest[i].a == a && rest[i].b in keys[1..] && WideRec(g, s, V, j, rest[i])
    requires Distinct(keys[1..]) ==> PairsOnce(rest)
    ensures forall i :: 0 <= i < |[c] + rest| ==> ([c] + rest)[i].a == a && ([c] + rest)[i].b in keys && WideRec(g, s, V, j, ([c] + rest)[i])
    ensures Distinct(keys) ==> PairsOnce([c] + rest)
  {
    var r := [c] + rest;
    forall i | 0 <= i < |r| ensures r[i].a == a && r[i].b in keys && WideRec(g, s, V, j, r[i]) {
      if i > 0 {
        assert r[i] == rest[i - 1] && rest[i - 1].b in keys[1..];
      }
    }
    if Distinct(keys) {
      assert Distinct(keys[1..]);
      assert keys[0] !in keys[1..];
      forall i, k | 0 <= i < k < |r| ensures (r[i].a, r[i].b) != (r[k].a, r[k].b) {
        assert r[k] == rest[k - 1];
        if i > 0 {
          assert r[i] == rest[i - 1];
        }
      }
    }
  }

  /** keys(a) lists V once, in some order, for every a of V: the key order
      of the distance table from a in G[V] (Dijkstra's order of settling;
      the model allows any order). */
  ghost predicate KeyOrders(V: set<nat>, keys: nat -> seq<nat>) {
    forall a :: a in V ==> Distinct(keys(a)) && forall y :: y in keys(a) <==> y in V
  }

  /** The records of a connected cluster as the source emits them: wide
      records of distinct far pairs a < b of G[V], and a vertex a gets one
      exactly when it has a far partner b > a. */
  ghost predicate ListsWidePairs(g: Graph, s: nat, V: set<nat>, cuts: seq<Cut>) {
    (forall i :: 0 <= i < |cuts| ==>
      cuts[i].kind == Wide && cuts[i].a < cuts[i].b && !Near(Induced(g, V), {}, cuts[i].a, cuts[i].b, s)) &&
    PairsOnce(cuts) &&
    forall a :: (exists i :: 0 <= i < |cuts| && cuts[i].a == a) <==> a in V && HasFar(g, s, V, a)
  }

  /** The loop over the vertices xs of the cluster, as written: each a
      starts from the table of G[V]. */
  function PairsOver(g: Graph, s: nat, V: set<nat>, j: nat, xs: seq<nat>, keys: nat -> seq<nat>): (r: seq<Cut>)
    requires Valid(g) && (forall x :: x in xs ==> x in V) && KeyOrders(V, keys)
    ensures forall i :: 0 <= i < |r| ==> r[i].a in xs && WideRec(g, s, V, j, r[i])
    ensures Distinct(xs) ==> PairsOnce(r)
    ensures forall a :: a in xs && HasFar(g, s, V, a) ==> exists i :: 0 <= i < |r| && r[i].a == a
    decreases |xs|
  {
    if xs == [] then []
    else
      var a := xs[0];
      assert a in xs;
      var first := PairsFrom(g, s, V, j, a, keys(a), ClusterTable);
      var rest := PairsOver(g, s, V, j, xs[1..], keys);
      assert forall x :: x in xs[1..] ==> x in xs;
      PairsOverRecords(g, s, V, j, xs, first, rest);
      PairsOverOnce(xs, first, rest);
      PairsOverReach(g, s, V, j, xs, keys, first, rest);
      first + rest
  }

  lemma PairsOverRecords(g: Graph, s: nat, V: set<nat>, j: nat, xs: seq<nat>, first: seq<Cut>, rest: seq<Cut>)
    requires xs != []
    requires forall i :: 0 <= i < |first| ==> first[i].a == xs[0] && WideRec(g, s, V, j, first[i])
    requires forall i :: 0 <= i < |rest| ==> rest[i].a in xs[1..] && WideRec(g, s, V, j, rest[i])
    ensures forall i :: 0 <= i < |first + rest| ==> (first + rest)[i].a in xs && WideRec(g, s, V, j, (first + rest)[i])
  {
    var r := first + rest;
    assert xs[0] in xs && forall x :: x in xs[1..] ==> x in xs;
    forall i | 0 <= i < |r| ensures r[i].a in xs && WideRec(g, s, V, j, r[i]) {
      if i >= |first| {
        assert r[i] == rest[i - |first|];
      }
    }
  }

  lemma PairsOverOnce(xs: seq<nat>, first: seq<Cut>, rest: seq<Cut>)
    requires xs != []
    requires forall i :: 0 <= i < |first| ==> first[i].a == xs[0]
    requires forall i :: 0 <= i < |rest| ==> rest[i].a in xs[1..]
    requires Distinct(xs) ==> PairsOnce(first)
    requires Distinct(xs[1..]) ==> PairsOnce(rest)
    ensures Distinct(xs) ==> PairsOnce(first + rest)
  {
    var r := first + rest;
    if Distinct(xs) {
      assert Distinct(xs[1..]);
      assert xs[0] !in xs[1..];
      forall i, k | 0 <= i < k < |r| ensures (r[i].a, r[i].b) != (r[k].a, r[k].b) {
        if k >= |first| {
          assert r[k] == rest[k - |first|];
          if i >= |first| {
            assert r[i] == rest[i - |first|];
          }
        }
      }
    }
  }

  lemma PairsOverReach(g: Graph, s: nat, V: set<nat>, j: nat, xs: seq<nat>, keys: nat -> seq<nat>,
                       first: seq<Cut>, rest: seq<Cut>)
    requires Valid(g) && xs != [] && xs[0] in V && KeyOrders(V, keys)
    requires first == PairsFrom(g, s, V, j, xs[0], keys(xs[0]), ClusterTable)
    requires forall a :: a in xs[1..] && HasFar(g, s, V, a) ==> exists i :: 0 <= i < |rest| && rest[i].a == a
    ensures forall a :: a in xs && HasFar(g, s, V, a) ==> exists i :: 0 <= i < |first + rest| && (first + rest)[i].a == a
  {
    var r := first + rest;
    forall a | a in xs && HasFar(g, s, V, a) ensures exists i :: 0 <= i < |r| && r[i].a == a {
      if a == xs[0] {
        var b :| b in V && a < b && !Near(Induced(g, V), {}, a, b, s);
        assert b in keys(a);
        assert first != [] && r[0] == first[0];
      } else {
        assert a in xs[1..];
        var i :| 0 <= i < |rest| && rest[i].a == a;
        assert r[|first| + i] == rest[i];
      }
    }
  }

  /** The records of a connected cluster that is too wide, as the source
      emits them: the pair loop over the ascending vertex list of V. */
  function WideCuts(g: Graph, s: nat, V: set<nat>, j: nat, keys: nat -> seq<nat>): (r: seq<Cut>)
    requires Valid(g) && (forall v :: v in V ==> v < |g.adj|) && KeyOrders(V, keys)
    ensures forall i :: 0 <= i < |r| ==> r[i].j == j && Separates(g, s, V, r[i])
    ensures ListsWidePairs(g, s, V, r)
  {
    var xs := Sorted(V, |g.adj|);
    var r := PairsOver(g, s, V, j, xs, keys);
    forall a | (exists i :: 0 <= i < |r| && r[i].a == a) ensures a in V && HasFar(g, s, V, a) {
      var i :| 0 <= i < |r| && r[i].a == a;
      assert WideRec(g, s, V, j, r[i]) && r[i].a in xs;
    }
    r
  }

  // The evidently intended wide records: one minimal record per far pair.

  /** The pairs (a, b) of xs x ys with a < b that are more than s apart in h. */
  function FarFrom(h: Graph, s: nat, a: nat, ys: seq<nat>): (r: seq<(nat, nat)>)
    ensures forall p :: p in r <==> p.0 == a && p.1 in ys && a < p.1 && !Near(h, {}, a, p.1, s)
    ensures Distinct(ys) ==> forall i, k :: 0 <= i < k < |r| ==> r[i] != r[k]
  {
    if ys == [] then []
    else
      var rest := FarFrom(h, s, a, ys[1..]);
      assert forall y :: y in ys <==> y == ys[0] || y in ys[1..];
      if a < ys[0] && !Near(h, {}, a, ys[0], s) then
        assert Distinct(ys) ==> (a, ys[0]) !in rest;
        [(a, ys[0])] + rest
      else rest
  }

  function FarPairs(h: Graph, s: nat, xs: seq<nat>, ys: seq<nat>): (r: seq<(nat, nat)>)
    ensures forall p :: p in r <==> p.0 in xs && p.1 in ys && p.0 < p.1 && !Near(h, {}, p.0, p.1, s)
    ensures Distinct(xs) && Distinct(ys) ==> forall i, k :: 0 <= i < k < |r| ==> r[i] != r[k]
  {
    if xs == [] then []
    else
      assert forall x :: x in xs <==> x == xs[0] || x in xs[1..];
      var first := FarFrom(h, s, xs[0], ys);
      var rest := FarPairs(h, s, xs[1..], ys);
      DisjointConcat(first, rest, Distinct(xs) && Distinct(ys));
      first + rest
  }

  lemma DisjointConcat(first: seq<(nat, nat)>, rest: seq<(nat, nat)>, both: bool)
    requires both ==> forall i, k :: 0 <= i < k < |first| ==> first[i] != first[k]
    requires both ==> forall i, k :: 0 <= i < k < |rest| ==> rest[i] != rest[k]
    requires both ==> forall p :: p in first ==> p !in rest
    ensures both ==> forall i, k :: 0 <= i < k < |first + rest| ==> (first + rest)[i] != (first + rest)[k]
  {
    if both {
      var r := first + rest;
      forall i, k | 0 <= i < k < |r| ensures r[i] != r[k] {
        if k >= |first| {
          assert r[k] == rest[k - |first|] && r[k] in rest;
          if i >= |first| {
            assert r[i] == rest[i - |first|];
          } else {
            assert r[i] in first;
          }
        }
      }
    }
  }

  /** The records list the pairs in order. */
  lemma PairsListed(cuts: seq<Cut>, pairs: seq<(nat, nat)>)
    requires |cuts| == |pairs| && forall k :: 0 <= k < |cuts| ==> cuts[k].a == pairs[k].0 && cuts[k].b == pairs[k].1
    ensures forall a, b :: (exists i :: 0 <= i < |cuts| && cuts[i].a == a && cuts[i].b == b) <==> (a, b) in pairs
  {
    forall a, b ensures (exists i :: 0 <= i < |cuts| && cuts[i].a == a && cuts[i].b == b) <==> (a, b) in pairs {
      if (a, b) in pairs {
        var k :| 0 <= k < |pairs| && pairs[k] == (a, b);
        assert cuts[k].a == a && cuts[k].b == b;
      }
    }
  }

  /** The far pairs of G[V], read off the ascending vertex list of V, each
      once. */
  function FarPairsOf(g: Graph, V: set<nat>, s: nat): (r: seq<(nat, nat)>)
    requires forall v :: v in V ==> v < |g.adj|
    ensures forall a, b :: (a, b) in r <==> a in V && b in V && a < b && !Near(Induced(g, V), {}, a, b, s)
    ensures forall i, k :: 0 <= i < k < |r| ==> r[i] != r[k]
  {
    var vs := Sorted(V, |g.adj|);
    FarPairs(Induced(g, V), s, vs, vs)
  }

  /** The intended record for one far pair: the prefiltered S', reduced
      against the pure undirected overlay, so every kept vertex is needed. */
  method WideCutMinimal(g: Graph, s: nat, V: set<nat>, j: nat, a: nat, b: nat) returns (cut: Cut)
    requires Valid(g) && a in V && b in V && !Near(Induced(g, V), {}, a, b, s)
    ensures cut == Cut(Wide, j, a, b, cut.sep) && Separates(g, s, V, cut) && Minimal(g, s, cut)
  {
    var S' := Prefilter(g, V, a, b, s);
    PrefilterSeparates(g, V, a, b, s);
    var minC := Reduce(Undirected, g, s, a, b, S');
    SubseqElems(minC, S');
    cut := Cut(Wide, j, a, b, minC);
    forall c | c in minC ensures c < |g.adj| && c !in V {
      assert c in Elems(S');
    }
  }

  /** One minimal wide record per listed pair, in order. */
  method CutsForPairs(g: Graph, s: nat, V: set<nat>, j: nat, pairs: seq<(nat, nat)>) returns (cuts: seq<Cut>)
    requires Valid(g)
    requires forall p :: p in pairs ==> p.0 in V && p.1 in V && !Near(Induced(g, V), {}, p.0, p.1, s)
    ensures |cuts| == |pairs|
    ensures forall k :: 0 <= k < |cuts| ==> cuts[k].kind == Wide && cuts[k].j == j
    ensures forall k :: 0 <= k < |cuts| ==> cuts[k].a == pairs[k].0 && cuts[k].b == pairs[k].1
    ensures forall k :: 0 <= k < |cuts| ==> Separates(g, s, V, cuts[k]) && Minimal(g, s, cuts[k])
  {
    cuts := [];
    var i := 0;
    while i < |pairs|
      invariant i <= |pairs| && |cuts| == i
      invariant forall k :: 0 <= k < i ==> cuts[k].kind == Wide && cuts[k].j == j
      invariant forall k :: 0 <= k < i ==> cuts[k].a == pairs[k].0 && cuts[k].b == pairs[k].1
      invariant forall k :: 0 <= k < i ==> Separates(g, s, V, cuts[k]) && Minimal(g, s, cuts[k])
    {
      var p := pairs[i];
      assert p in pairs;
      var cut := WideCutMinimal(g, s, V, j, p.0, p.1);
      assert forall k :: 0 <= k < i ==> (cuts + [cut])[k] == cuts[k];
      cuts := cuts + [cut];
      i := i + 1;
    }
  }

  /** The evidently intended records of a wide connected cluster: wide
      records, exactly one per pair a < b more than s apart in G[V]. */
  ghost predicate ListsFarPairs(g: Graph, s: nat, V: set<nat>, cuts: seq<Cut>) {
    (forall i :: 0 <= i < |cuts| ==> cuts[i].kind == Wide) &&
    (forall i, k :: 0 <= i < k < |cuts| ==> (cuts[i].a, cuts[i].b) != (cuts[k].a, cuts[k].b)) &&
    forall a, b :: (exists i :: 0 <= i < |cuts| && cuts[i].a == a && cuts[i].b == b) <==>
      a in V && b in V && a < b && !Near(Induced(g, V), {}, a, b, s)
  }

  /** One minimal record for every pair a < b of the cluster more than s
      apart in G[V]. */
  method AllFarPairCuts(g: Graph, s: nat, V: set<nat>, j: nat) returns (cuts: seq<Cut>)
    requires Valid(g) && forall v :: v in V ==> v < |g.adj|
    ensures forall i :: 0 <= i < |cuts| ==> cuts[i].j == j && Separates(g, s, V, cuts[i]) && Minimal(g, s, cuts[i])
    ensures ListsFarPairs(g, s, V, cuts)
  {
    var pairs := FarPairsOf(g, V, s);
    cuts := CutsForPairs(g, s, V, j, pairs);
    PairsListed(cuts, pairs);
    forall i, k | 0 <= i < k < |cuts| ensures (cuts[i].a, cuts[i].b) != (cuts[k].a, cuts[k].b) {
      assert pairs[i] != pairs[k];
    }
  }

  /** A graph on which the stale table hides a far pair: the cluster
      {0, 1, 2, 3, 4} is the path 0-1-2 with 3 and 4 hanging off 2, and
      outside it 0-5-3 and 0-6-4 are shortcuts. */
  function StaleGraph(): Graph {
    Graph([[1, 5, 6], [0, 2], [1, 3, 4], [2, 5], [2, 6], [0, 3], [0, 4]])
  }

  function StaleCluster(): set<nat> {
    {0, 1, 2, 3, 4}
  }

  lemma StaleGraphValid()
    ensures Valid(StaleGraph())
  {
    var g := StaleGraph();
    forall u: nat, v: nat | Adj(g, u, v) ensures Adj(g, v, u) {
      assert u < 7;
      if u == 0 { assert v == 1 || v == 5 || v == 6; }
      else if u == 1 { assert v == 0 || v == 2; }
      else if u == 2 { assert v == 1 || v == 3 || v == 4; }
      else if u == 3 { assert v == 2 || v == 5; }
      else if u == 4 { assert v == 2 || v == 6; }
      else if u == 5 { assert v == 0 || v == 3; }
      else { assert v == 0 || v == 4; }
    }
  }

  /** In G[V], 1 and 2 are within 2 of 0, while 3 and 4 are 3 away. */
  lemma StaleClusterDistances()
    ensures var h := Induced(StaleGraph(), StaleCluster());
      Near(h, {}, 0, 1, 2) && Near(h, {}, 0, 2, 2) && !Near(h, {}, 0, 3, 2) && !Near(h, {}, 0, 4, 2)
  {
    var h := Induced(StaleGraph(), StaleCluster());
    assert Adj(h, 0, 1) && Adj(h, 1, 2);
    assert Near(h, {}, 2, 2, 0) && Near(h, {}, 1, 2, 1);
    StaleClusterFar(3);
    StaleClusterFar(4);
  }

  /** Inside V, 0's only neighbour is 1, and 1 is not adjacent to 3 or 4. */
  lemma StaleClusterFar(v: nat)
    requires v == 3 || v == 4
    ensures !Near(Induced(StaleGraph(), StaleCluster()), {}, 0, v, 2)
  {
    var h := Induced(StaleGraph(), StaleCluster());
    forall x | x in h.adj[0] ensures x == 1 {
      assert Adj(h, 0, x);
    }
    assert !Adj(h, 1, v);
    assert !Near(h, {}, 1, v, 1);
  }

  /** S' for the pair (0, 3) holds 5 (on the shortcut 0-5-3) but not 6. */
  lemma StalePrefilter()
    ensures var P := Prefilter(StaleGraph(), StaleCluster(), 0, 3, 2);
      5 in P && 6 !in P && 0 !in P && 4 !in P
  {
    var g := StaleGraph();
    assert 5 in g.adj[0] && 5 in g.adj[3] && Near(g, {}, 5, 5, 0);
    assert Near(g, {}, 0, 5, 1) && Near(g, {}, 3, 5, 1);
    CappedDistAtMost(g, 0, 5, 2, 1);
    CappedDistAtMost(g, 3, 5, 2, 1);
    assert !Near(g, {}, 0, 6, 0) && !Near(g, {}, 3, 6, 0);
    assert !Near(g, {}, 3, 6, 1);
  }

  /** The pair loop for a = 0 on the stale graph, as written: (0, 3) gets a
      record, the reduction's trial then leaves 0-6-4 light, so the loop
      reads 4 as within 2 of 0 and emits nothing for (0, 4), although 4 is
      3 away in G[V] and the corrected list of far pairs holds (0, 4). */
  lemma StaleTableSkipsPair()
    ensures var g := StaleGraph(); var V := StaleCluster();
      Valid(g) && !Near(Induced(g, V), {}, 0, 4, 2) && (0, 4) in FarPairsOf(g, V, 2) &&
      var r := PairsFrom(g, 2, V, 0, 0, [0, 1, 2, 3, 4], ClusterTable);
      |r| == 1 && r[0].a == 0 && r[0].b == 3
  {
    var g := StaleGraph();
    var V := StaleCluster();
    StaleGraphValid();
    StaleClusterDistances();
    StaleCloseKeys();
    var rec := WideRecord(g, 2, V, 0, 0, 3, ClusterTable);
    StaleTrialTable();
    assert PairsFrom(g, 2, V, 0, 0, [3, 4], ClusterTable) == [rec.0] + PairsFrom(g, 2, V, 0, 0, [4], rec.1);
  }

  /** Keys 0, 1 and 2 get no record: 0 is not above a, 1 and 2 are close. */
  lemma StaleCloseKeys()
    requires Valid(StaleGraph())
    ensures PairsFrom(StaleGraph(), 2, StaleCluster(), 0, 0, [0, 1, 2, 3, 4], ClusterTable) ==
            PairsFrom(StaleGraph(), 2, StaleCluster(), 0, 0, [3, 4], ClusterTable)
  {
    StaleClusterDistances();
    StaleCloseKey(2, [3, 4]);
    StaleCloseKey(1, [2, 3, 4]);
    StaleCloseKey(0, [1, 2, 3, 4]);
  }

  lemma StaleCloseKey(b: nat, rest: seq<nat>)
    requires Valid(StaleGraph()) && b <= 2 && forall y :: y in rest ==> y in StaleCluster()
    requires b > 0 ==> Near(Induced(StaleGraph(), StaleCluster()), {}, 0, b, 2)
    ensures PairsFrom(StaleGraph(), 2, StaleCluster(), 0, 0, [b] + rest, ClusterTable) ==
            PairsFrom(StaleGraph(), 2, StaleCluster(), 0, 0, rest, ClusterTable)
  {
    assert ([b] + rest)[0] == b && ([b] + rest)[1..] == rest;
  }

  /** After the record for (0, 3) the loop reads the trial's table, in which
      0-6-4 is light, so key 4 gets no record. */
  lemma StaleTrialTable()
    requires Valid(StaleGraph())
    ensures var g := StaleGraph(); var V := StaleCluster();
      !Near(Induced(g, V), {}, 0, 3, 2) &&
      PairsFrom(g, 2, V, 0, 0, [4], WideRecord(g, 2, V, 0, 0, 3, ClusterTable).1) == []
  {
    var g := StaleGraph();
    var V := StaleCluster();
    StaleClusterDistances();
    StalePrefilter();
    var t := WideRecord(g, 2, V, 0, 0, 3, ClusterTable).1;
    StaleShortcutLight(t.heavy);
    StaleLastKey(t);
  }

  /** Any overlay within the arcs at S' for (0, 3) leaves 0-6-4 light. */
  lemma StaleShortcutLight(H: set<Arc>)
    requires H <= IncidentArcs(StaleGraph(), Elems(Prefilter(StaleGraph(), StaleCluster(), 0, 3, 2)))
    ensures Near(StaleGraph(), H, 0, 4, 2)
  {
    var g := StaleGraph();
    var P := Prefilter(g, StaleCluster(), 0, 3, 2);
    StalePrefilter();
    assert 0 !in Elems(P) && 6 !in Elems(P) && 4 !in Elems(P);
    assert (0, 6) !in H && (6, 4) !in H;
    assert 6 in g.adj[0] && 4 in g.adj[6];
    assert Near(g, H, 4, 4, 0) && Near(g, H, 6, 4, 1);
  }

  lemma StaleLastKey(t: Table)
    requires Valid(StaleGraph()) && TableInside(StaleCluster(), t)
    requires t.TrialTable? && Near(StaleGraph(), t.heavy, 0, 4, 2)
    ensures PairsFrom(StaleGraph(), 2, StaleCluster(), 0, 0, [4], t) == []
  {
    assert [4][0] == 4 && [4][1..] == [];
  }

  /** Label j is flagged when the callback looks at it and its cluster is
      non-empty but not an s-club. */
  predicate Flagged(mode: Mode, g: Graph, s: nat, cand: Candidate, j: nat) {
    var V := Cluster(g, cand, j);
    Active(mode, cand, j) && V != {} && !IsSClub(g, V, s)
  }

  /** A disconnected cluster has a component without the anchor, and that
      component's least vertex represents it. */
  lemma RepExists(g: Graph, V: set<nat>, b: nat) returns (m: nat)
    requires Valid(g) && (forall v :: v in V ==> v < |g.adj|) && b in V && !Connected(g, V)
    ensures IsRep(g, V, b, m)
  {
    var a := DisconnectedWitness(g, V, b);
    var T := Component(g, V, {a});
    var xs := Sorted(T, |g.adj|);
    assert a in xs;
    m := xs[0];
    ComponentSame(g, V, a, m);
    forall v | v in Component(g, V, {m}) ensures m <= v {
      var k :| 0 <= k < |xs| && xs[k] == v;
      assert k == 0 || xs[0] < xs[k];
    }
    if m in Component(g, V, {b}) {
      ComponentSame(g, V, b, m);
    }
  }

  /** A connected cluster that is not an s-club has a pair a < b more than
      s apart. */
  lemma FarPairExists(g: Graph, V: set<nat>, s: nat) returns (a: nat, b: nat)
    requires Valid(g) && !DiameterAtMost(g, V, s)
    ensures a in V && b in V && a < b && !Near(Induced(g, V), {}, a, b, s)
  {
    var h := Induced(g, V);
    var u, v :| u in V && v in V && !Near(h, {}, u, v, s);
    InducedValid(g, V);
    if u < v {
      a, b := u, v;
    } else {
      assert u != v;
      if Near(h, {}, v, u, s) {
        NearSym(h, {}, v, u, s);
      }
      a, b := v, u;
    }
  }

  /** A wide cluster's records are not empty. */
  lemma WideNonEmpty(g: Graph, s: nat, V: set<nat>, cuts: seq<Cut>)
    requires Valid(g) && !DiameterAtMost(g, V, s) && ListsWidePairs(g, s, V, cuts)
    ensures cuts != []
  {
    var a, b := FarPairExists(g, V, s);
    assert a in V && HasFar(g, s, V, a);
  }

  lemma AllViolated(mode: Mode, g: Graph, s: nat, cand: Candidate, j: nat, cuts: seq<Cut>)
    requires Active(mode, cand, j)
    requires forall i :: 0 <= i < |cuts| ==> cuts[i].j == j && Separates(g, s, Cluster(g, cand, j), cuts[i])
    ensures forall i :: 0 <= i < |cuts| ==> Violated(cand, ToInequality(mode, cuts[i]))
  {
    forall i | 0 <= i < |cuts| ensures Violated(cand, ToInequality(mode, cuts[i])) {
      CutViolated(mode, g, s, cand, cuts[i]);
    }
  }

  /** The records for label j. Every record is violated by the candidate and
      separates its pair outside the cluster; the scan emits nothing exactly
      when j is not flagged. A disconnected cluster gets one record per
      component without the anchor; a connected one, one per far pair the
      pair loop reaches, in the key order keys gives. */
  method ScanCluster(mode: Mode, g: Graph, s: nat, cand: Candidate, j: nat, keys: nat -> seq<nat>) returns (cuts: seq<Cut>)
    requires Valid(g) && j in Domain(mode, g, cand) && KeyOrders(Cluster(g, cand, j), keys)
    ensures forall i :: 0 <= i < |cuts| ==> cuts[i].j == j && Separates(g, s, Cluster(g, cand, j), cuts[i])
    ensures forall i :: 0 <= i < |cuts| ==> Violated(cand, ToInequality(mode, cuts[i]))
    ensures cuts == [] <==> !Flagged(mode, g, s, cand, j)
    ensures var V := Cluster(g, cand, j);
      Flagged(mode, g, s, cand, j) && !Connected(g, V) ==>
        ListsReps(g, V, Anchor(mode, g, V, j), cuts)
    ensures var V := Cluster(g, cand, j);
      Flagged(mode, g, s, cand, j) && Connected(g, V) ==>
        ListsWidePairs(g, s, V, cuts)
  {
    var V := Cluster(g, cand, j);
    if !Active(mode, cand, j) || V == {} {
      return [];
    }
    if !Connected(g, V) {
      assert mode == Centering ==> j in V;
      var b := Anchor(mode, g, V, j);
      cuts := SplitCuts(g, s, V, j, b);
      var m := RepExists(g, V, b);
      assert exists i :: 0 <= i < |cuts| && cuts[i].a == m;
    } else if DiameterAtMost(g, V, s) {
      return [];
    } else {
      cuts := WideCuts(g, s, V, j, keys);
      WideNonEmpty(g, s, V, cuts);
    }
    AllViolated(mode, g, s, cand, j, cuts);
  }

  /** Every record is about a label of J, violated, and separating. */
  ghost predicate AllSound(mode: Mode, g: Graph, s: nat, cand: Candidate, J: seq<nat>, cuts: seq<Cut>) {
    forall i :: 0 <= i < |cuts| ==>
      cuts[i].j in J && Separates(g, s, Cluster(g, cand, cuts[i].j), cuts[i]) &&
      Violated(cand, ToInequality(mode, cuts[i]))
  }

  /** Every label of J has records exactly when it is flagged. */
  ghost predicate Covers(mode: Mode, g: Graph, s: nat, cand: Candidate, J: seq<nat>, cuts: seq<Cut>) {
    forall j :: j in J ==> (HasLabel(cuts, j) <==> Flagged(mode, g, s, cand, j))
  }

  lemma SoundStep(mode: Mode, g: Graph, s: nat, cand: Candidate, J: seq<nat>, cuts: seq<Cut>, j: nat, more: seq<Cut>)
    requires AllSound(mode, g, s, cand, J, cuts)
    requires forall i :: 0 <= i < |more| ==> more[i].j == j && Separates(g, s, Cluster(g, cand, j), more[i])
    requires forall i :: 0 <= i < |more| ==> Violated(cand, ToInequality(mode, more[i]))
    ensures AllSound(mode, g, s, cand, J + [j], cuts + more)
  {
    forall i | 0 <= i < |cuts + more|
      ensures (cuts + more)[i].j in J + [j] && Separates(g, s, Cluster(g, cand, (cuts + more)[i].j), (cuts + more)[i]) &&
              Violated(cand, ToInequality(mode, (cuts + more)[i]))
    {
      if i < |cuts| {
        assert (cuts + more)[i] == cuts[i];
      } else {
        assert (cuts + more)[i] == more[i - |cuts|];
      }
    }
  }

  predicate HasLabel(cuts: seq<Cut>, j: nat) {
    exists i :: 0 <= i < |cuts| && cuts[i].j == j
  }

  lemma HasLabelAppend(cuts: seq<Cut>, more: seq<Cut>, j: nat)
    ensures HasLabel(cuts + more, j) <==> HasLabel(cuts, j) || HasLabel(more, j)
  {
    if HasLabel(cuts + more, j) {
      var i :| 0 <= i < |cuts + more| && (cuts + more)[i].j == j;
      if i >= |cuts| {
        assert more[i - |cuts|].j == j;
      }
    }
    if HasLabel(cuts, j) {
      var i :| 0 <= i < |cuts| && cuts[i].j == j;
      assert (cuts + more)[i].j == j;
    }
    if HasLabel(more, j) {
      var i :| 0 <= i < |more| && more[i].j == j;
      assert (cuts + more)[|cuts| + i].j == j;
    }
  }

  lemma CoverStep(mode: Mode, g: Graph, s: nat, cand: Candidate, J: seq<nat>, cuts: seq<Cut>, j: nat, more: seq<Cut>)
    requires Covers(mode, g, s, cand, J, cuts) && forall i :: 0 <= i < |cuts| ==> cuts[i].j in J
    requires forall i :: 0 <= i < |more| ==> more[i].j == j
    requires more == [] <==> !Flagged(mode, g, s, cand, j)
    ensures Covers(mode, g, s, cand, J + [j], cuts + more)
  {
    forall j' | j' in J + [j] ensures HasLabel(cuts + more, j') <==> Flagged(mode, g, s, cand, j') {
      HasLabelAppend(cuts, more, j');
      if more != [] && j' == j {
        assert more[0].j == j;
      }
      assert HasLabel(more, j') <==> more != [] && j' == j;
      assert j' !in J ==> !HasLabel(cuts, j');
    }
  }

  /** One label of the scan: the records of dom[t] extend soundness and
      coverage from dom[..t] to dom[..t + 1]. */
  lemma ScanStep(mode: Mode, g: Graph, s: nat, cand: Candidate, dom: seq<nat>, t: nat, cuts: seq<Cut>, more: seq<Cut>)
    requires t < |dom|
    requires AllSound(mode, g, s, cand, dom[..t], cuts) && Covers(mode, g, s, cand, dom[..t], cuts)
    requires forall i :: 0 <= i < |more| ==> more[i].j == dom[t] && Separates(g, s, Cluster(g, cand, dom[t]), more[i])
    requires forall i :: 0 <= i < |more| ==> Violated(cand, ToInequality(mode, more[i]))
    requires more == [] <==> !Flagged(mode, g, s, cand, dom[t])
    ensures AllSound(mode, g, s, cand, dom[..t + 1], cuts + more)
    ensures Covers(mode, g, s, cand, dom[..t + 1], cuts + more)
  {
    assert dom[..t + 1] == dom[..t] + [dom[t]];
    SoundStep(mode, g, s, cand, dom[..t], cuts, dom[t], more);
    CoverStep(mode, g, s, cand, dom[..t], cuts, dom[t], more);
  }

  /** The whole callback: the records of every label of the domain, label by
      label. Each record is violated and separates; a label gets records
      exactly when it is flagged. keys(j) is the key order of the distance
      tables of label j's cluster. */
  method Scan(mode: Mode, g: Graph, s: nat, cand: Candidate, keys: nat -> nat -> seq<nat>) returns (cuts: seq<Cut>)
    requires Valid(g) && forall j :: KeyOrders(Cluster(g, cand, j), keys(j))
    ensures AllSound(mode, g, s, cand, Domain(mode, g, cand), cuts)
    ensures Covers(mode, g, s, cand, Domain(mode, g, cand), cuts)
  {
    var dom := Domain(mode, g, cand);
    cuts := [];
    var t := 0;
    while t < |dom|
      invariant t <= |dom|
      invariant AllSound(mode, g, s, cand, dom[..t], cuts)
      invariant Covers(mode, g, s, cand, dom[..t], cuts)
    {
      var more := ScanCluster(mode, g, s, cand, dom[t], keys(dom[t]));
      ScanStep(mode, g, s, cand, dom, t, cuts, more);
      cuts := cuts + more;
      t := t + 1;
    }
    assert dom[..t] == dom;
  }
}
