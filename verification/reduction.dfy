/** The greedy length-s minimality reduction of the separation oracle, and
    the S' prefilter used when a cluster is connected but too wide.

    All of C starts blocked; each c in turn is unblocked and the distance
    from a to b is recomputed: if it still exceeds s, c is dropped, otherwise
    c is blocked again. Two weight states occur:
    - the directed view (arcs out of c carry c's weight; each arc has one
      owner), where the in-place update equals the pure overlay of the
      vertices still blocked (`DirectedUnblockExact`);
    - the undirected view (an edge carries the weight of either end), where
      the in-place update of shared edges unblocks edges of still-blocked
      neighbours. `SharedReduce` models that update as written; `Reduce`
      tests every candidate against the pure overlay instead. */
module Reduction {
  import opened Graphs

  datatype View = Directed | Undirected

  /** The pure overlay that blocks the vertices of S in the given view. */
  function Block(view: View, g: Graph, S: set<nat>): set<Arc> {
    match view
    case Directed => OutArcs(g, S)
    case Undirected => IncidentArcs(g, S)
  }

  lemma BlockMono(view: View, g: Graph, A: set<nat>, B: set<nat>)
    requires A <= B
    ensures Block(view, g, A) <= Block(view, g, B)
  {
  }

  /** Blocking more vertices keeps a and b far apart. */
  lemma FarMono(view: View, g: Graph, A: set<nat>, B: set<nat>, a: nat, b: nat, s: nat)
    requires A <= B && !Near(g, Block(view, g, A), a, b, s)
    ensures !Near(g, Block(view, g, B), a, b, s)
  {
    BlockMono(view, g, A, B);
    if Near(g, Block(view, g, B), a, b, s) {
      NearMonoHeavy(g, Block(view, g, B), Block(view, g, A), a, b, s);
    }
  }

  /** Unblocking fewer vertices keeps a and b near. */
  lemma NearBlockMono(view: View, g: Graph, A: set<nat>, B: set<nat>, a: nat, b: nat, s: nat)
    requires A <= B && Near(g, Block(view, g, B), a, b, s)
    ensures Near(g, Block(view, g, A), a, b, s)
  {
    BlockMono(view, g, A, B);
    NearMonoHeavy(g, Block(view, g, B), Block(view, g, A), a, b, s);
  }

  /** In the directed view, resetting the arcs out of c to weight 1 yields
      exactly the overlay of the other blocked vertices. */
  lemma DirectedUnblockExact(g: Graph, S: set<nat>, c: nat)
    ensures OutArcs(g, S) - OutArcs(g, {c}) == OutArcs(g, S - {c})
  {
  }

  /** In the undirected view the in-place reset never blocks more than the
      overlay of the other blocked vertices. */
  lemma UndirectedUnblockWithin(g: Graph, S: set<nat>, c: nat)
    ensures IncidentArcs(g, S) - IncidentArcs(g, {c}) <= IncidentArcs(g, S - {c})
  {
  }

  /** The greedy reduction against the pure overlay: candidate c is kept iff
      blocking the kept vertices and the untested ones, but not c, leaves
      a within s of b. The result is an order-preserving sub-list of C; if C
      separated a from b then so does the result; and each kept vertex is
      needed: unblocking it alone brings a within s of b. */
  method Reduce(view: View, g: Graph, s: nat, a: nat, b: nat, C: seq<nat>) returns (minC: seq<nat>)
    ensures Subseq(minC, C)
    ensures !Near(g, Block(view, g, Elems(C)), a, b, s) ==> !Near(g, Block(view, g, Elems(minC)), a, b, s)
    ensures forall c :: c in minC ==> Near(g, Block(view, g, Elems(minC) - {c}), a, b, s)
  {
    ghost var far0 := !Near(g, Block(view, g, Elems(C)), a, b, s);
    minC := [];
    var i := 0;
    assert C[i..] == C;
    assert Elems(minC) + Elems(C[i..]) == Elems(C);
    while i < |C|
      invariant i <= |C|
      invariant Subseq(minC, C[..i])
      invariant far0 ==> !Near(g, Block(view, g, Elems(minC) + Elems(C[i..])), a, b, s)
      invariant forall c :: c in minC ==> Near(g, Block(view, g, (Elems(minC) + Elems(C[i..])) - {c}), a, b, s)
    {
      var c := C[i];
      ghost var S := Elems(minC) + Elems(C[i..]);
      ghost var rest := Elems(minC) + Elems(C[i + 1..]);
      assert C[i..] == [c] + C[i + 1..];
      assert S == rest + {c};
      var trial := Block(view, g, Elems(minC) + Elems(C[i + 1..]));
      SubseqExtend(minC, C, i, Near(g, trial, a, b, s));
      if Near(g, trial, a, b, s) {
        assert Elems(minC + [c]) + Elems(C[i + 1..]) == S;
        forall c' | c' in minC + [c] ensures Near(g, Block(view, g, S - {c'}), a, b, s) {
          if c' == c {
            NearBlockMono(view, g, S - {c}, rest, a, b, s);
          }
        }
        minC := minC + [c];
      } else {
        forall c' | c' in minC ensures Near(g, Block(view, g, rest - {c'}), a, b, s) {
          NearBlockMono(view, g, rest - {c'}, S - {c'}, a, b, s);
        }
      }
      i := i + 1;
    }
    assert C[i..] == [] && C[..i] == C;
    assert Elems(minC) + Elems(C[i..]) == Elems(minC);
  }

  /** The undirected reduction as the source writes it: the weight state
      `heavy` is one set of blocked arcs shared by both ends of each edge.
      Unblocking c resets every edge at c, including edges to neighbours that
      stay blocked; re-blocking c restores them all. The result holds the
      kept vertices, the final weight state and the weight state of the
      latest trial (the one the latest distance table was computed under;
      `trial` until a trial has run). */
  function SharedReduce(g: Graph, s: nat, a: nat, b: nat, C: seq<nat>, i: nat,
                        heavy: set<Arc>, kept: seq<nat>, trial: set<Arc>): (r: (seq<nat>, set<Arc>, set<Arc>))
    requires i <= |C|
    ensures heavy <= IncidentArcs(g, Elems(kept) + Elems(C[i..])) ==> r.1 <= IncidentArcs(g, Elems(r.0))
    ensures !Near(g, heavy, a, b, s) ==> !Near(g, r.1, a, b, s)
    ensures Subseq(kept, C[..i]) ==> Subseq(r.0, C)
    ensures heavy <= IncidentArcs(g, Elems(C)) && trial <= IncidentArcs(g, Elems(C)) ==>
              r.2 <= IncidentArcs(g, Elems(C))
    decreases |C| - i
  {
    if i == |C| then
      assert C[..i] == C && C[i..] == [];
      assert Elems(kept) + Elems(C[i..]) == Elems(kept);
      (kept, heavy, trial)
    else
      var c := C[i];
      var unblocked := heavy - IncidentArcs(g, {c});
      var keep := Near(g, unblocked, a, b, s);
      var heavy' := if keep then unblocked + IncidentArcs(g, {c}) else unblocked;
      var kept' := if keep then kept + [c] else kept;
      SharedStepFacts(g, s, a, b, C, i, heavy, kept, keep, heavy', kept');
      SharedReduce(g, s, a, b, C, i + 1, heavy', kept', unblocked)
  }

  lemma SharedStepFacts(g: Graph, s: nat, a: nat, b: nat, C: seq<nat>, i: nat, heavy: set<Arc>,
                        kept: seq<nat>, keep: bool, heavy': set<Arc>, kept': seq<nat>)
    requires i < |C|
    requires keep == Near(g, heavy - IncidentArcs(g, {C[i]}), a, b, s)
    requires heavy' == if keep then (heavy - IncidentArcs(g, {C[i]})) + IncidentArcs(g, {C[i]})
                       else heavy - IncidentArcs(g, {C[i]})
    requires kept' == if keep then kept + [C[i]] else kept
    ensures heavy <= IncidentArcs(g, Elems(kept) + Elems(C[i..])) ==>
              heavy' <= IncidentArcs(g, Elems(kept') + Elems(C[i + 1..]))
    ensures !Near(g, heavy, a, b, s) ==> !Near(g, heavy', a, b, s)
    ensures Subseq(kept, C[..i]) ==> Subseq(kept', C[..i + 1])
    ensures heavy <= IncidentArcs(g, Elems(C)) ==> heavy' <= IncidentArcs(g, Elems(C))
  {
    var c := C[i];
    assert C[i] in Elems(C);
    BlockMono(Undirected, g, {c}, Elems(C));
    assert C[i..] == [c] + C[i + 1..];
    var S := Elems(kept) + Elems(C[i..]);
    var S' := Elems(kept') + Elems(C[i + 1..]);
    if keep {
      assert Elems(kept') == Elems(kept) + {c};
      assert S' == S;
      if Near(g, heavy', a, b, s) {
        NearMonoHeavy(g, heavy', heavy, a, b, s);
      }
    } else {
      assert S - {c} <= S';
      UndirectedUnblockWithin(g, S, c);
      BlockMono(Undirected, g, S - {c}, S');
    }
    if Subseq(kept, C[..i]) {
      SubseqExtend(kept, C, i, keep);
    }
  }

  /** The source's undirected reduction from the all-blocked start. */
  function UndirectedReduceAsWritten(g: Graph, s: nat, a: nat, b: nat, C: seq<nat>): (r: (seq<nat>, set<Arc>, set<Arc>))
    ensures Subseq(r.0, C)
    ensures r.1 <= IncidentArcs(g, Elems(r.0))
    ensures r.2 <= IncidentArcs(g, Elems(C))
    ensures !Near(g, IncidentArcs(g, Elems(C)), a, b, s) ==> !Near(g, r.1, a, b, s)
  {
    assert C[..0] == [] && C[0..] == C;
    assert Elems([]) + Elems(C) == Elems(C);
    SharedReduce(g, s, a, b, C, 0, IncidentArcs(g, Elems(C)), [], IncidentArcs(g, Elems(C)))
  }

  /** Soundness survives the shared update: the weights it ends with are
      pointwise at most the pure overlay of the kept vertices, so that
      overlay also keeps a and b more than s apart. */
  lemma SharedReduceSound(g: Graph, s: nat, a: nat, b: nat, C: seq<nat>)
    requires !Near(g, IncidentArcs(g, Elems(C)), a, b, s)
    ensures !Near(g, IncidentArcs(g, Elems(UndirectedReduceAsWritten(g, s, a, b, C).0)), a, b, s)
  {
    var r := UndirectedReduceAsWritten(g, s, a, b, C);
    if Near(g, IncidentArcs(g, Elems(r.0)), a, b, s) {
      NearMonoHeavy(g, IncidentArcs(g, Elems(r.0)), r.1, a, b, s);
    }
  }

  /** The S' prefilter: the vertices outside the cluster V that lie on some
      a-b walk of at most s edges in G, i.e. d(a, v) + d(b, v) <= s, in
      ascending order. */
  function Prefilter(g: Graph, V: set<nat>, a: nat, b: nat, s: nat): (r: seq<nat>)
    ensures Increasing(r)
    ensures forall v: nat :: v in r <==>
      v < |g.adj| && v !in V && CappedDist(g, a, v, s) + CappedDist(g, b, v, s) <= s
  {
    Sorted(set v: nat | v < |g.adj| && v !in V && CappedDist(g, a, v, s) + CappedDist(g, b, v, s) <= s, |g.adj|)
  }

  /** Blocking S' forces dist(a, b) > s whenever a and b are more than s
      apart inside G[V]: every short a-b walk that leaves V meets S'. */
  lemma PrefilterSeparates(g: Graph, V: set<nat>, a: nat, b: nat, s: nat)
    requires Valid(g) && a in V && b in V
    requires !Near(Induced(g, V), {}, a, b, s)
    ensures !Near(g, IncidentArcs(g, Elems(Prefilter(g, V, a, b, s))), a, b, s)
  {
    var H := IncidentArcs(g, Elems(Prefilter(g, V, a, b, s)));
    assert Near(g, {}, a, a, 0);
    PrefilterStaysInside(g, V, a, b, s, a, 0, s);
  }

  lemma PrefilterMember(g: Graph, V: set<nat>, a: nat, b: nat, s: nat, u: nat, x: nat)
    requires Adj(g, u, x) && x < |g.adj|
    ensures x !in V && CappedDist(g, a, x, s) + CappedDist(g, b, x, s) <= s ==>
              (u, x) in IncidentArcs(g, Elems(Prefilter(g, V, a, b, s)))
  {
  }

  lemma {:induction false} PrefilterStaysInside(g: Graph, V: set<nat>, a: nat, b: nat, s: nat, u: nat, i: nat, k: nat)
    requires Valid(g) && u in V && i + k <= s
    requires Near(g, {}, a, u, i)
    ensures Near(g, IncidentArcs(g, Elems(Prefilter(g, V, a, b, s))), u, b, k) ==> Near(Induced(g, V), {}, u, b, k)
    decreases k
  {
    var H := IncidentArcs(g, Elems(Prefilter(g, V, a, b, s)));
    if Near(g, H, u, b, k) && u != b {
      var x :| x in g.adj[u] && (u, x) !in H && Near(g, H, x, b, k - 1);
      assert Adj(g, u, x);
      assert Adj(g, x, u);
      NearSnoc(g, {}, a, u, x, i);
      NearMonoHeavy(g, H, {}, x, b, k - 1);
      NearSym(g, {}, x, b, k - 1);
      CappedDistAtMost(g, a, x, s, i + 1);
      CappedDistAtMost(g, b, x, s, k - 1);
      PrefilterMember(g, V, a, b, s, u, x);
      PrefilterStaysInside(g, V, a, b, s, x, i + 1, k - 1);
      var h := Induced(g, V);
      assert Adj(h, u, x);
    }
  }

  /** Six vertices: a = 0, b = 1, x = 2, d1 = 3, d2 = 4, y = 5, with the
      edges a-x, x-b (the short route through x) and a-y, y-d1, d1-x, x-d2,
      d2-b (a route of five edges through x). */
  function SharedCounterGraph(): Graph {
    Graph([[2, 5], [2, 4], [0, 1, 3, 4], [5, 2], [2, 1], [0, 3]])
  }

  /** One step of the shared update that keeps C[i]. */
  lemma SharedKeepStep(g: Graph, s: nat, a: nat, b: nat, C: seq<nat>, i: nat, heavy: set<Arc>, kept: seq<nat>,
                        trial: set<Arc>, heavy': set<Arc>, kept': seq<nat>)
    requires i < |C| && Near(g, heavy - IncidentArcs(g, {C[i]}), a, b, s)
    requires heavy' == (heavy - IncidentArcs(g, {C[i]})) + IncidentArcs(g, {C[i]}) && kept' == kept + [C[i]]
    ensures SharedReduce(g, s, a, b, C, i, heavy, kept, trial) ==
            SharedReduce(g, s, a, b, C, i + 1, heavy', kept', heavy - IncidentArcs(g, {C[i]}))
  {
  }

  /** One step of the shared update that drops C[i]. */
  lemma SharedDropStep(g: Graph, s: nat, a: nat, b: nat, C: seq<nat>, i: nat, heavy: set<Arc>, kept: seq<nat>,
                        trial: set<Arc>, heavy': set<Arc>)
    requires i < |C| && !Near(g, heavy - IncidentArcs(g, {C[i]}), a, b, s)
    requires heavy' == heavy - IncidentArcs(g, {C[i]})
    ensures SharedReduce(g, s, a, b, C, i, heavy, kept, trial) == SharedReduce(g, s, a, b, C, i + 1, heavy', kept, heavy')
  {
  }

  /** A vertex whose every arc is blocked reaches nothing else. */
  lemma IsolatedFar(g: Graph, heavy: set<Arc>, u: nat, v: nat, k: nat)
    requires u != v && u < |g.adj| && forall x :: x in g.adj[u] ==> (u, x) in heavy
    ensures !Near(g, heavy, u, v, k)
  {
  }

  lemma CounterArcs()
    ensures var g := SharedCounterGraph();
      (0, 2) in IncidentArcs(g, {2}) && (2, 1) in IncidentArcs(g, {2}) && (3, 2) in IncidentArcs(g, {2}) &&
      (0, 2) !in IncidentArcs(g, {3}) && (0, 5) !in IncidentArcs(g, {3}) &&
      (0, 2) !in IncidentArcs(g, {4}) && (0, 5) !in IncidentArcs(g, {4}) &&
      (0, 5) in IncidentArcs(g, {2, 3, 4, 5}) &&
      (3, 2) in IncidentArcs(g, {3}) && (2, 4) in IncidentArcs(g, {4}) && (4, 1) in IncidentArcs(g, {4}) &&
      (0, 5) in IncidentArcs(g, {5}) && (5, 3) in IncidentArcs(g, {5})
  {
    var g := SharedCounterGraph();
    assert 2 in g.adj[0] && 1 in g.adj[2] && 2 in g.adj[3] && 5 in g.adj[0] && 4 in g.adj[2] && 1 in g.adj[4] && 3 in g.adj[5];
  }

  /** Unblocking x alone opens a-x-b. */
  lemma CounterKeepsX(H: set<Arc>)
    ensures Near(SharedCounterGraph(), H - IncidentArcs(SharedCounterGraph(), {2}), 0, 1, 5)
  {
    var g := SharedCounterGraph();
    CounterArcs();
    var U := H - IncidentArcs(g, {2});
    assert Near(g, U, 1, 1, 3);
    assert Near(g, U, 2, 1, 4);
  }

  /** After x was kept and d1, d2 were dropped, unblocking y opens
      a-y-d1-x-d2-b: the edges at x that d1 and d2 reset stay light. */
  lemma CounterKeepsY(H: set<Arc>)
    ensures var g := SharedCounterGraph();
      Near(g, H - IncidentArcs(g, {3}) - IncidentArcs(g, {4}) - IncidentArcs(g, {5}), 0, 1, 5)
  {
    var g := SharedCounterGraph();
    CounterArcs();
    var U := H - IncidentArcs(g, {3}) - IncidentArcs(g, {4}) - IncidentArcs(g, {5});
    assert Near(g, U, 1, 1, 0);
    assert Near(g, U, 4, 1, 1);
    assert Near(g, U, 2, 1, 2);
    assert Near(g, U, 3, 1, 3);
    assert Near(g, U, 5, 1, 4);
  }

  /** Blocking x alone separates: from a only {a, y, d1} is reachable. */
  lemma CounterXSeparates()
    ensures !Near(SharedCounterGraph(), IncidentArcs(SharedCounterGraph(), {2}), 0, 1, 5)
  {
    var g := SharedCounterGraph();
    CounterArcs();
    assert Trapped(g, IncidentArcs(g, {2}), {0, 5, 3});
    TrappedFar(g, IncidentArcs(g, {2}), {0, 5, 3}, 0, 1, 5);
  }

  /** The weight states of the run: all of C blocked; after x was kept;
      after d1 was dropped; after d2 was dropped. */
  function CounterStart(g: Graph): set<Arc> {
    IncidentArcs(g, {2, 3, 4, 5})
  }

  function CounterAfterX(g: Graph): set<Arc> {
    (CounterStart(g) - IncidentArcs(g, {2})) + IncidentArcs(g, {2})
  }

  function CounterAfterD1(g: Graph): set<Arc> {
    CounterAfterX(g) - IncidentArcs(g, {3})
  }

  function CounterMidState(g: Graph): set<Arc> {
    CounterAfterD1(g) - IncidentArcs(g, {4})
  }

  lemma CounterBegin(g: Graph, C: seq<nat>)
    requires C == [2, 3, 4, 5]
    ensures UndirectedReduceAsWritten(g, 5, 0, 1, C) == SharedReduce(g, 5, 0, 1, C, 0, CounterStart(g), [], CounterStart(g))
  {
    assert Elems(C) == {2, 3, 4, 5};
  }

  /** x is kept: unblocking it opens a-x-b. */
  lemma CounterStepX(g: Graph, C: seq<nat>)
    requires g == SharedCounterGraph() && C == [2, 3, 4, 5]
    ensures SharedReduce(g, 5, 0, 1, C, 0, CounterStart(g), [], CounterStart(g)) ==
            SharedReduce(g, 5, 0, 1, C, 1, CounterAfterX(g), [2], CounterStart(g) - IncidentArcs(g, {2}))
  {
    CounterKeepsX(CounterStart(g));
    SharedKeepStep(g, 5, 0, 1, C, 0, CounterStart(g), [], CounterStart(g), CounterAfterX(g), [2]);
  }

  /** d1 and d2 are dropped: both edges at a stay blocked. */
  lemma CounterStepD1(g: Graph, C: seq<nat>)
    requires g == SharedCounterGraph() && C == [2, 3, 4, 5]
    ensures SharedReduce(g, 5, 0, 1, C, 1, CounterAfterX(g), [2], CounterStart(g) - IncidentArcs(g, {2})) ==
            SharedReduce(g, 5, 0, 1, C, 2, CounterAfterD1(g), [2], CounterAfterD1(g))
  {
    CounterArcs();
    IsolatedFar(g, CounterAfterD1(g), 0, 1, 5);
    SharedDropStep(g, 5, 0, 1, C, 1, CounterAfterX(g), [2], CounterStart(g) - IncidentArcs(g, {2}), CounterAfterD1(g));
  }

  lemma CounterStepD2(g: Graph, C: seq<nat>)
    requires g == SharedCounterGraph() && C == [2, 3, 4, 5]
    ensures SharedReduce(g, 5, 0, 1, C, 2, CounterAfterD1(g), [2], CounterAfterD1(g)) ==
            SharedReduce(g, 5, 0, 1, C, 3, CounterMidState(g), [2], CounterMidState(g))
  {
    CounterArcs();
    IsolatedFar(g, CounterMidState(g), 0, 1, 5);
    SharedDropStep(g, 5, 0, 1, C, 2, CounterAfterD1(g), [2], CounterAfterD1(g), CounterMidState(g));
  }

  /** y is kept, which ends the run with [x, y]. */
  lemma CounterStepY(g: Graph, C: seq<nat>)
    requires g == SharedCounterGraph() && C == [2, 3, 4, 5]
    ensures SharedReduce(g, 5, 0, 1, C, 3, CounterMidState(g), [2], CounterMidState(g)).0 == [2, 5]
  {
    CounterKeepsY(CounterAfterX(g));
    SharedKeepStep(g, 5, 0, 1, C, 3, CounterMidState(g), [2], CounterMidState(g),
                   (CounterMidState(g) - IncidentArcs(g, {5})) + IncidentArcs(g, {5}), [2, 5]);
    assert C[4..] == [];
  }

  /** With s = 5 and C = [x, d1, d2, y], the shared update keeps y: once d1
      and d2 are dropped, the edges x-d1 and x-d2 are light although x stays
      blocked, so unblocking y opens the route through x. Under the overlay
      of the kept vertices without y, a and b are still more than s apart,
      so the returned cut is not minimal. */
  lemma SharedReduceNotMinimal(g: Graph, C: seq<nat>)
    requires g == SharedCounterGraph() && C == [2, 3, 4, 5]
    ensures var r := UndirectedReduceAsWritten(g, 5, 0, 1, C);
            r.0 == [2, 5] && !Near(g, IncidentArcs(g, Elems(r.0) - {5}), 0, 1, 5)
  {
    CounterRun(g, C);
    assert Elems([2, 5]) - {5} == {2};
    CounterXSeparates();
  }

  /** The whole run on the counterexample keeps x and y. */
  lemma CounterRun(g: Graph, C: seq<nat>)
    requires g == SharedCounterGraph() && C == [2, 3, 4, 5]
    ensures UndirectedReduceAsWritten(g, 5, 0, 1, C).0 == [2, 5]
  {
    CounterBegin(g, C);
    CounterStepX(g, C);
    CounterStepD1(g, C);
    CounterStepD2(g, C);
    CounterStepY(g, C);
  }
}
