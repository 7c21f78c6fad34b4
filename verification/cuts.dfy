/** Cut records emitted by the separation oracle, the linear inequality each
    one stands for in the four formulations, and its evaluation at a 0/1
    assignment of the solver's variables. */
module Cuts {
  import opened Graphs
  import opened Reduction

  /** The four callbacks: labelling with active-label variables y, the
      restricted labelling without them, the centre-based formulation whose
      labels are vertices, and the Benders formulation over labels T*. */
  datatype Mode = Labeling | Restricted | Centering | Benders

  /** A 0/1 candidate: x holds the pairs (v, j) with x[v, j] = 1, y the
      labels j with y[j] = 1; k is the number of labels and tstar the label
      set of the Benders formulation. */
  datatype Candidate = Candidate(x: set<(nat, nat)>, y: set<nat>, k: nat, tstar: seq<nat>)

  /** The labels a callback scans. */
  function Domain(mode: Mode, g: Graph, cand: Candidate): seq<nat> {
    match mode
    case Labeling => Range(cand.k)
    case Restricted => Range(cand.k)
    case Centering => Range(|g.adj|)
    case Benders => cand.tstar
  }

  /** V_j: the vertices the candidate puts in cluster j. */
  function Cluster(g: Graph, cand: Candidate, j: nat): (V: set<nat>)
    ensures forall v :: v in V <==> v < |g.adj| && (v, j) in cand.x
  {
    set v: nat | v < |g.adj| && (v, j) in cand.x
  }

  /** Whether the callback looks at label j at all: the labelling callback
      needs y[j] = 1, the centring callback needs j to be its own centre. */
  predicate Active(mode: Mode, cand: Candidate, j: nat) {
    match mode
    case Labeling => j in cand.y
    case Centering => (j, j) in cand.x
    case Restricted => true
    case Benders => true
  }

  /** The linking constraints of each formulation that the cuts rely on:
      a vertex can only join an active label, resp. a chosen centre. */
  ghost predicate Linked(mode: Mode, cand: Candidate, j: nat) {
    match mode
    case Labeling => forall v: nat :: (v, j) in cand.x ==> j in cand.y
    case Centering => forall v: nat :: (v, j) in cand.x ==> (j, j) in cand.x
    case Restricted => true
    case Benders => true
  }

  /** Split: G[V_j] is disconnected and the separator comes from the
      boundary-trimming search (directed weights). Wide: G[V_j] is connected
      with a pair more than s apart (undirected weights). */
  datatype Kind = Split | Wide

  datatype Cut = Cut(kind: Kind, j: nat, a: nat, b: nat, sep: seq<nat>)

  function ViewOf(kind: Kind): View {
    match kind
    case Split => Directed
    case Wide => Undirected
  }

  datatype Var = X(v: nat, j: nat) | Y(j: nat)

  /** sum(lhs) <= rhsConst + sum(rhs) */
  datatype Inequality = Inequality(lhs: seq<Var>, rhsConst: nat, rhs: seq<Var>)

  function SepVars(sep: seq<nat>, j: nat): (r: seq<Var>)
    ensures |r| == |sep| && forall i :: 0 <= i < |sep| ==> r[i] == X(sep[i], j)
  {
    seq(|sep|, i requires 0 <= i < |sep| => X(sep[i], j))
  }

  /** The lazy constraint a cut record stands for in each formulation. */
  function ToInequality(mode: Mode, cut: Cut): Inequality {
    var sep := SepVars(cut.sep, cut.j);
    match mode
    case Labeling => Inequality([X(cut.a, cut.j), X(cut.b, cut.j)], 0, [Y(cut.j)] + sep)
    case Restricted => Inequality([X(cut.a, cut.j), X(cut.b, cut.j)], 1, sep)
    case Benders => Inequality([X(cut.a, cut.j), X(cut.b, cut.j)], 1, sep)
    case Centering =>
      if cut.kind == Split then Inequality([X(cut.a, cut.j)], 0, sep)
      else Inequality([X(cut.a, cut.j), X(cut.b, cut.j)], 0, [X(cut.j, cut.j)] + sep)
  }

  function Value(cand: Candidate, v: Var): nat {
    match v
    case X(u, j) => if (u, j) in cand.x then 1 else 0
    case Y(j) => if j in cand.y then 1 else 0
  }

  function Sum(cand: Candidate, vs: seq<Var>): nat {
    if vs == [] then 0 else Value(cand, vs[0]) + Sum(cand, vs[1..])
  }

  predicate Violated(cand: Candidate, e: Inequality) {
    Sum(cand, e.lhs) > e.rhsConst + Sum(cand, e.rhs)
  }

  lemma {:induction false} SumAppend(cand: Candidate, A: seq<Var>, B: seq<Var>)
    ensures Sum(cand, A + B) == Sum(cand, A) + Sum(cand, B)
  {
    if A != [] {
      assert (A + B)[1..] == A[1..] + B;
      SumAppend(cand, A[1..], B);
    } else {
      assert A + B == B;
    }
  }

  lemma SumOne(cand: Candidate, p: Var)
    ensures Sum(cand, [p]) == Value(cand, p)
  {
    assert [p][1..] == [];
  }

  lemma SumTwo(cand: Candidate, p: Var, q: Var)
    ensures Sum(cand, [p, q]) == Value(cand, p) + Value(cand, q)
  {
    assert [p, q][1..] == [q];
    SumOne(cand, q);
  }

  /** The sum with one leading variable. */
  lemma SumCons(cand: Candidate, p: Var, rest: seq<Var>)
    ensures Sum(cand, [p] + rest) == Value(cand, p) + Sum(cand, rest)
  {
    SumAppend(cand, [p], rest);
    SumOne(cand, p);
  }

  /** The separator's variables sum to the number of separator entries in
      the cluster: zero when none is in it, positive when one is. */
  lemma {:induction false} SepSum(g: Graph, cand: Candidate, sep: seq<nat>, j: nat)
    requires forall c :: c in sep ==> c < |g.adj|
    ensures Sum(cand, SepVars(sep, j)) == 0 <==> forall c :: c in sep ==> c !in Cluster(g, cand, j)
  {
    if sep != [] {
      var vs := SepVars(sep, j);
      assert vs[1..] == SepVars(sep[1..], j);
      assert forall c :: c in sep <==> c == sep[0] || c in sep[1..];
      SepSum(g, cand, sep[1..], j);
      assert Sum(cand, vs) == Value(cand, X(sep[0], j)) + Sum(cand, SepVars(sep[1..], j));
      assert sep[0] in sep;
      assert Value(cand, X(sep[0], j)) == 0 <==> sep[0] !in Cluster(g, cand, j);
    } else {
      assert SepVars(sep, j) == [];
    }
  }

  /** Each separator vertex of the record is needed: unblocking it alone
      brings a within s of b. */
  ghost predicate Minimal(g: Graph, s: nat, cut: Cut) {
    forall c :: c in cut.sep ==> Near(g, Block(ViewOf(cut.kind), g, Elems(cut.sep) - {c}), cut.a, cut.b, s)
  }

  /** What a record promises about the graph: a and b lie in the cluster V,
      the separator lies outside it, and blocking the separator in the
      record's view keeps a more than s from b. A split record is also
      minimal; a wide one need not be, since the shared-weight reduction
      that produces it can keep a vertex that is not needed. */
  ghost predicate Separates(g: Graph, s: nat, V: set<nat>, cut: Cut) {
    var view := ViewOf(cut.kind);
    cut.a in V && cut.b in V && (forall c :: c in cut.sep ==> c < |g.adj| && c !in V) &&
    !Near(g, Block(view, g, Elems(cut.sep)), cut.a, cut.b, s) &&
    (cut.kind == Split ==> Minimal(g, s, cut))
  }

  /** Every record the scan emits for label j is violated by the candidate
      that produced it, whatever the formulation. */
  lemma CutViolated(mode: Mode, g: Graph, s: nat, cand: Candidate, cut: Cut)
    requires Active(mode, cand, cut.j) && Separates(g, s, Cluster(g, cand, cut.j), cut)
    ensures Violated(cand, ToInequality(mode, cut))
  {
    var V := Cluster(g, cand, cut.j);
    var sep := SepVars(cut.sep, cut.j);
    SepSum(g, cand, cut.sep, cut.j);
    assert Sum(cand, sep) == 0;
    SumTwo(cand, X(cut.a, cut.j), X(cut.b, cut.j));
    SumOne(cand, X(cut.a, cut.j));
    SumCons(cand, Y(cut.j), sep);
    SumCons(cand, X(cut.j, cut.j), sep);
  }

  /** Every arc of h is an arc of G between members of W. */
  ghost predicate ArcsWithin(g: Graph, h: Graph, W: set<nat>) {
    forall u, x :: Adj(h, u, x) ==> Adj(g, u, x) && u in W && x in W
  }

  /** No arc between members of W is heavy. */
  ghost predicate LightInside(W: set<nat>, B: set<Arc>) {
    forall u, x :: u in W && x in W ==> (u, x) !in B
  }

  /** A walk of h, whose arcs are light arcs of G, is a light walk of G. */
  lemma {:induction false} InsideWalkLight(g: Graph, h: Graph, W: set<nat>, B: set<Arc>, u: nat, v: nat, k: nat)
    requires ArcsWithin(g, h, W) && LightInside(W, B)
    requires Near(h, {}, u, v, k)
    ensures Near(g, B, u, v, k)
    decreases k
  {
    if u != v {
      var x :| x in h.adj[u] && Near(h, {}, x, v, k - 1);
      assert Adj(h, u, x);
      InsideWalkLight(g, h, W, B, x, v, k - 1);
      LightStep(g, B, u, x, v, k);
    }
  }

  /** A light first arc followed by a short light walk. */
  lemma LightStep(g: Graph, B: set<Arc>, u: nat, x: nat, v: nat, k: nat)
    requires k > 0 && u < |g.adj| && x in g.adj[u] && (u, x) !in B && Near(g, B, x, v, k - 1)
    ensures Near(g, B, u, v, k)
  {
  }

  lemma ArcOutsideBlock(g: Graph, S: set<nat>, view: View, u: nat, x: nat)
    requires u !in S && x !in S
    ensures (u, x) !in Block(view, g, S)
  {
  }

  /** A length-s separator of a and b meets every s-club holding both. */
  lemma SeparatorMeetsClub(g: Graph, s: nat, W: set<nat>, cut: Cut)
    requires forall v :: v in W ==> v < |g.adj|
    requires !Near(g, Block(ViewOf(cut.kind), g, Elems(cut.sep)), cut.a, cut.b, s)
    requires cut.a in W && cut.b in W && IsSClub(g, W, s)
    ensures exists c :: c in cut.sep && c in W
  {
    if forall c :: c in cut.sep ==> c !in W {
      var B := Block(ViewOf(cut.kind), g, Elems(cut.sep));
      forall u, x | u in W && x in W ensures (u, x) !in B {
        ArcOutsideBlock(g, Elems(cut.sep), ViewOf(cut.kind), u, x);
      }
      InsideWalkLight(g, Induced(g, W), W, B, cut.a, cut.b, s);
    }
  }

  /** If a and b are both in an s-club cluster, a separator entry is too. */
  lemma ClubSepPositive(g: Graph, s: nat, cut: Cut, other: Candidate)
    requires forall c :: c in cut.sep ==> c < |g.adj|
    requires !Near(g, Block(ViewOf(cut.kind), g, Elems(cut.sep)), cut.a, cut.b, s)
    requires var W := Cluster(g, other, cut.j); W == {} || IsSClub(g, W, s)
    ensures cut.a in Cluster(g, other, cut.j) && cut.b in Cluster(g, other, cut.j) ==>
              Sum(other, SepVars(cut.sep, cut.j)) >= 1
  {
    var W := Cluster(g, other, cut.j);
    if cut.a in W && cut.b in W {
      SeparatorMeetsClub(g, s, W, cut);
    }
    SepSum(g, other, cut.sep, cut.j);
  }

  /** Validity: a record's inequality is satisfied by every candidate whose
      cluster j is empty or an s-club and that meets the formulation's
      linking constraint; the lazy cuts never remove a feasible clustering.
      A split record of the centring formulation needs b to be the centre. */
  lemma CutValid(mode: Mode, g: Graph, s: nat, cut: Cut, other: Candidate)
    requires cut.a < |g.adj| && cut.b < |g.adj| && forall c :: c in cut.sep ==> c < |g.adj|
    requires !Near(g, Block(ViewOf(cut.kind), g, Elems(cut.sep)), cut.a, cut.b, s)
    requires mode == Centering && cut.kind == Split ==> cut.b == cut.j
    requires Linked(mode, other, cut.j)
    requires var W := Cluster(g, other, cut.j); W == {} || IsSClub(g, W, s)
    ensures !Violated(other, ToInequality(mode, cut))
  {
    var sep := SepVars(cut.sep, cut.j);
    ClubSepPositive(g, s, cut, other);
    var va := Value(other, X(cut.a, cut.j));
    var vb := Value(other, X(cut.b, cut.j));
    assert va == 1 <==> cut.a in Cluster(g, other, cut.j);
    assert vb == 1 <==> cut.b in Cluster(g, other, cut.j);
    SumTwo(other, X(cut.a, cut.j), X(cut.b, cut.j));
    SumOne(other, X(cut.a, cut.j));
    SumCons(other, Y(cut.j), sep);
    SumCons(other, X(cut.j, cut.j), sep);
    match mode {
      case Labeling =>
        assert va + vb > 0 ==> cut.j in other.y;
      case Restricted =>
      case Benders =>
      case Centering =>
        assert va + vb > 0 ==> (cut.j, cut.j) in other.x;
    }
  }
}
