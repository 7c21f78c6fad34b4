/** The solution check run on every clustering the heuristics and models
    produce: the partition (or cover) test, then per cluster connectivity
    and diameter. */
module Validation {
  import opened Graphs
  import opened Outcomes

  /** The problem variant: a partition of the vertices, or (any other name)
      a cover in which clusters may overlap. */
  datatype Problem = Partitioning | Covering

  /** The exceptions that end the check early: connectivity of the null
      graph is undefined, and a disconnected graph has no finite diameter. */
  datatype CheckError = NullGraph | InfiniteDiameter

  /** Every entry of c is a vertex of a graph with n vertices. */
  predicate InRange(n: nat, c: seq<nat>) {
    forall v :: v in c ==> v < n
  }

  /** All cluster entries, cluster after cluster. */
  function Flat(cs: seq<seq<nat>>): (r: seq<nat>)
    ensures forall v :: v in r <==> exists c :: c in cs && v in c
  {
    if cs == [] then []
    else
      var rest := Flat(cs[1..]);
      assert forall c :: c in cs <==> c == cs[0] || c in cs[1..];
      cs[0] + rest
  }

  lemma {:induction false} FlatAppend(A: seq<seq<nat>>, B: seq<seq<nat>>)
    ensures Flat(A + B) == Flat(A) + Flat(B)
  {
    if A == [] {
      assert A + B == B;
    } else {
      assert (A + B)[1..] == A[1..] + B;
      FlatAppend(A[1..], B);
    }
  }

  /** Taking the same cluster out of two reorderings leaves reorderings. */
  lemma RemoveMatching(cs: seq<seq<nat>>, ds: seq<seq<nat>>, k: nat)
    requires multiset(cs) == multiset(ds) && cs != [] && k < |ds| && ds[k] == cs[0]
    ensures multiset(cs[1..]) == multiset(ds[..k] + ds[k + 1..])
  {
    assert cs == [cs[0]] + cs[1..];
    assert ds == ds[..k] + [ds[k]] + ds[k + 1..];
    assert multiset(cs[1..]) == multiset(cs) - multiset{cs[0]};
    assert multiset(ds[..k] + ds[k + 1..]) == multiset(ds) - multiset{ds[k]};
  }

  /** The entries of a clustering split around cluster k. */
  lemma FlatAround(ds: seq<seq<nat>>, k: nat)
    requires k < |ds|
    ensures multiset(Flat(ds)) == multiset(Flat(ds[..k] + ds[k + 1..])) + multiset(ds[k])
  {
    var pre, d, post := ds[..k], ds[k], ds[k + 1..];
    assert ds == pre + ([d] + post);
    FlatAppend(pre, [d] + post);
    FlatAppend(pre, post);
    assert ([d] + post)[1..] == post;
    assert Flat([d] + post) == d + Flat(post);
    var A, B := Flat(pre), Flat(post);
    assert multiset(A + (d + B)) == multiset(A) + multiset(d) + multiset(B);
    assert multiset(A + B) == multiset(A) + multiset(B);
  }

  /** Reordering the clusters reorders their entries. */
  lemma {:induction false} FlatMultiset(cs: seq<seq<nat>>, ds: seq<seq<nat>>)
    requires multiset(cs) == multiset(ds)
    ensures multiset(Flat(cs)) == multiset(Flat(ds))
    decreases |cs|
  {
    if cs == [] {
      assert |ds| == |multiset(ds)| == 0;
    } else {
      assert cs[0] in multiset(ds);
      var k :| 0 <= k < |ds| && ds[k] == cs[0];
      RemoveMatching(cs, ds, k);
      FlatMultiset(cs[1..], ds[..k] + ds[k + 1..]);
      FlatAround(ds, k);
    }
  }

  /** The vertex set {0, ..., n - 1}. */
  function Vertices(n: nat): (N: set<nat>)
    ensures forall v: nat :: v in N <==> v < n
    ensures |N| == n
  {
    if n == 0 then {}
    else
      var M := Vertices(n - 1);
      assert n - 1 !in M;
      M + {n - 1}
  }

  /** The partition test as networkx states it: the vertices of G met in the
      clusters number n, and so do all cluster entries together. */
  predicate PartitionTest(n: nat, cs: seq<seq<nat>>) {
    var flat := Flat(cs);
    |Met(n, flat)| == n && |flat| == n
  }

  /** The vertices of a graph with n vertices that the list mentions. */
  function Met(n: nat, xs: seq<nat>): (r: set<nat>)
    ensures forall v :: v in r <==> v in xs && v < n
  {
    set v | v in xs && v < n
  }

  /** The cover test: the clusters' union is the vertex set. */
  predicate CoverTest(n: nat, cs: seq<seq<nat>>) {
    Elems(Flat(cs)) == Vertices(n)
  }

  function Test(problem: Problem, n: nat, cs: seq<seq<nat>>): bool {
    match problem
    case Partitioning => PartitionTest(n, cs)
    case Covering => CoverTest(n, cs)
  }

  /** A partition, said directly: every entry is a vertex, no vertex is
      listed twice (within or across clusters) and every vertex is listed. */
  predicate IsPartition(n: nat, cs: seq<seq<nat>>) {
    var flat := Flat(cs);
    (forall v :: v in flat ==> v < n) && Distinct(flat) && forall v: nat :: v < n ==> v in flat
  }

  /** A list has at least as many entries as members, as many exactly when
      no entry repeats. */
  lemma {:induction false} ElemsCard(xs: seq<nat>)
    ensures |Elems(xs)| <= |xs|
    ensures |Elems(xs)| == |xs| <==> Distinct(xs)
  {
    if xs != [] {
      var t := xs[1..];
      ElemsCard(t);
      assert Elems(xs) == {xs[0]} + Elems(t);
      if xs[0] in t {
        var k :| 0 <= k < |t| && t[k] == xs[0];
        assert xs[k + 1] == xs[0];
        assert Elems(xs) == Elems(t);
      } else {
        assert Distinct(xs) <==> Distinct(t) by {
          if Distinct(t) {
            forall i, j | 0 <= i < j < |xs| ensures xs[i] != xs[j] {
              if i == 0 {
                assert xs[j] == t[j - 1];
              } else {
                assert xs[i] == t[i - 1] && xs[j] == t[j - 1];
              }
            }
          }
          if Distinct(xs) {
            forall i, j | 0 <= i < j < |t| ensures t[i] != t[j] {
              assert t[i] == xs[i + 1] && t[j] == xs[j + 1];
            }
          }
        }
      }
    } else {
      assert Elems(xs) == {};
    }
  }

  /** A subset as large as its superset is all of it. */
  lemma SameCardEqual(A: set<nat>, B: set<nat>)
    requires A <= B && |A| == |B|
    ensures A == B
  {
    if x :| x in B && x !in A {
      StrictSubsetCard(A, B, x);
    }
  }

  /** The counting test accepts exactly the partitions. */
  lemma PartitionTestMeaning(n: nat, cs: seq<seq<nat>>)
    ensures PartitionTest(n, cs) <==> IsPartition(n, cs)
  {
    var flat := Flat(cs);
    var C := Met(n, flat);
    var N := Vertices(n);
    ElemsCard(flat);
    assert C <= N && C <= Elems(flat);
    SubsetCard(C, Elems(flat));
    if PartitionTest(n, cs) {
      SameCardEqual(C, N);
      SameCardEqual(C, Elems(flat));
      assert Distinct(flat);
      assert forall v :: v in flat ==> v in C;
      assert forall v: nat :: v < n ==> v in N;
    }
    if IsPartition(n, cs) {
      assert forall v :: v in C <==> v in N;
      assert forall v :: v in C <==> v in Elems(flat);
      assert C == N && C == Elems(flat);
      assert |C| == n;
      assert |flat| == |Elems(flat)|;
    }
  }

  /** Some cluster lists v. */
  predicate Listed(cs: seq<seq<nat>>, v: nat) {
    exists c :: c in cs && v in c
  }

  /** A cover: every entry is a vertex and every vertex is listed. */
  lemma CoverTestMeaning(n: nat, cs: seq<seq<nat>>)
    ensures CoverTest(n, cs) <==> (forall c :: c in cs ==> InRange(n, c)) && forall v: nat :: v < n ==> Listed(cs, v)
  {
    var flat := Flat(cs);
    if (forall c :: c in cs ==> InRange(n, c)) && forall v: nat :: v < n ==> Listed(cs, v) {
      forall v: nat | v < n ensures v in flat {
        assert Listed(cs, v);
      }
      forall v | v in flat ensures v < n {
        var c :| c in cs && v in c;
      }
      assert Elems(flat) == Vertices(n);
    }
    if CoverTest(n, cs) {
      forall v: nat | v < n ensures Listed(cs, v) {
        assert v in Elems(flat);
      }
      forall c | c in cs ensures InRange(n, c) {
        forall v | v in c ensures v < n {
          assert v in Elems(flat);
        }
      }
    }
  }

  /** Every partition is a cover; a cover may list a vertex twice. */
  lemma PartitionIsCover(n: nat, cs: seq<seq<nat>>)
    requires PartitionTest(n, cs)
    ensures CoverTest(n, cs)
  {
    PartitionTestMeaning(n, cs);
    assert Elems(Flat(cs)) == Vertices(n);
  }

  /** Two clusters sharing vertex 0 of a two-vertex graph pass the cover
      test and fail the partition test. */
  lemma OverlapCovers()
    ensures CoverTest(2, [[0, 1], [0]]) && !PartitionTest(2, [[0, 1], [0]])
  {
    var cs := [[0, 1], [0]];
    assert Flat(cs) == [0, 1, 0] by {
      assert Flat(cs[1..]) == [0] + Flat([]);
    }
    assert Elems([0, 1, 0]) == Vertices(2);
  }

  lemma TestInRange(problem: Problem, n: nat, cs: seq<seq<nat>>)
    requires Test(problem, n, cs)
    ensures forall c :: c in cs ==> InRange(n, c)
  {
    if problem == Partitioning {
      PartitionTestMeaning(n, cs);
      forall c | c in cs ensures InRange(n, c) {
        forall v | v in c ensures v < n {
          assert v in Flat(cs);
        }
      }
    } else {
      CoverTestMeaning(n, cs);
    }
  }

  /** The test depends on the clusters only, not on their order. */
  lemma TestOrderFree(problem: Problem, n: nat, cs: seq<seq<nat>>, ds: seq<seq<nat>>)
    requires multiset(cs) == multiset(ds)
    ensures Test(problem, n, cs) == Test(problem, n, ds)
  {
    FlatMultiset(cs, ds);
    var F, H := Flat(cs), Flat(ds);
    assert forall v :: v in F <==> v in H by {
      forall v ensures v in F <==> v in H {
        assert v in F <==> v in multiset(F);
        assert v in H <==> v in multiset(H);
      }
    }
    assert Met(n, F) == Met(n, H);
    assert Elems(F) == Elems(H);
    assert |F| == |multiset(F)| == |multiset(H)| == |H|;
  }

  /** The verdict for one cluster: the null graph and a disconnected graph
      raise; otherwise whether the diameter is at most s. */
  function ClusterCheck(g: Graph, s: nat, c: seq<nat>): (r: Result<bool, CheckError>)
    requires InRange(|g.adj|, c)
    ensures r == Ok(true) <==> IsSClub(g, Elems(c), s)
    ensures r.Err? <==> Elems(c) == {} || !Connected(g, Elems(c))
  {
    var V := Elems(c);
    if V == {} then Err(NullGraph)
    else if !Connected(g, V) then Err(InfiniteDiameter)
    else Ok(DiameterAtMost(g, V, s))
  }

  /** Some cluster makes the check raise. */
  predicate SomeRaises(g: Graph, cs: seq<seq<nat>>) {
    exists c :: c in cs && (Elems(c) == {} || (InRange(|g.adj|, c) && !Connected(g, Elems(c))))
  }

  /** Every cluster is an s-club. */
  predicate AllClubs(g: Graph, s: nat, cs: seq<seq<nat>>) {
    forall c :: c in cs ==> InRange(|g.adj|, c) && IsSClub(g, Elems(c), s)
  }

  lemma ClustersSplit(g: Graph, s: nat, cs: seq<seq<nat>>)
    requires cs != []
    ensures SomeRaises(g, cs) <==> SomeRaises(g, [cs[0]]) || SomeRaises(g, cs[1..])
    ensures AllClubs(g, s, cs) <==> AllClubs(g, s, [cs[0]]) && AllClubs(g, s, cs[1..])
  {
    assert forall c :: c in cs <==> c == cs[0] || c in cs[1..];
  }

  /** The loop over the clusters: the first raising cluster ends it; else
      the verdict is the conjunction of the clusters' verdicts. */
  function CheckClusters(g: Graph, s: nat, cs: seq<seq<nat>>): (r: Result<bool, CheckError>)
    requires forall c :: c in cs ==> InRange(|g.adj|, c)
    ensures r.Err? <==> SomeRaises(g, cs)
    ensures r == Ok(true) <==> AllClubs(g, s, cs)
  {
    if cs == [] then Ok(true)
    else
      ClustersSplit(g, s, cs);
      match ClusterCheck(g, s, cs[0])
      case Err(e) => Err(e)
      case Ok(b) =>
        match CheckClusters(g, s, cs[1..])
        case Err(e) => Err(e)
        case Ok(rest) => Ok(b && rest)
  }

  /** The whole check. A failed partition (cover) test gives False without
      looking at any cluster; otherwise the verdict is True exactly when
      every cluster is an s-club, and the check raises exactly when some
      cluster is empty or disconnected. */
  function CheckSolution(g: Graph, s: nat, cs: seq<seq<nat>>, problem: Problem): (r: Result<bool, CheckError>)
    ensures !Test(problem, |g.adj|, cs) ==> r == Ok(false)
    ensures r == Ok(true) <==> Test(problem, |g.adj|, cs) && AllClubs(g, s, cs)
    ensures r.Err? <==> Test(problem, |g.adj|, cs) && SomeRaises(g, cs)
    ensures r == Ok(false) <==>
      !Test(problem, |g.adj|, cs) || (!SomeRaises(g, cs) && exists c :: c in cs && InRange(|g.adj|, c) && !IsSClub(g, Elems(c), s))
  {
    if !Test(problem, |g.adj|, cs) then Ok(false)
    else
      TestInRange(problem, |g.adj|, cs);
      CheckClusters(g, s, cs)
  }

  /** Whether the clustering passes, and whether the check raises, does not
      depend on the order of the clusters. */
  lemma CheckOrderFree(g: Graph, s: nat, cs: seq<seq<nat>>, ds: seq<seq<nat>>, problem: Problem)
    requires multiset(cs) == multiset(ds)
    ensures CheckSolution(g, s, cs, problem).Ok? <==> CheckSolution(g, s, ds, problem).Ok?
    ensures CheckSolution(g, s, cs, problem).Ok? ==> CheckSolution(g, s, cs, problem) == CheckSolution(g, s, ds, problem)
  {
    TestOrderFree(problem, |g.adj|, cs, ds);
    assert forall c :: c in cs <==> c in ds by {
      forall c ensures c in cs <==> c in ds {
        assert c in cs <==> c in multiset(cs);
        assert c in ds <==> c in multiset(ds);
      }
    }
    assert SomeRaises(g, cs) == SomeRaises(g, ds);
    assert AllClubs(g, s, cs) == AllClubs(g, s, ds);
  }
}
