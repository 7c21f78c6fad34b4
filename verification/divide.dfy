/** The divide-and-conquer driver of the extended labelling model: the warm
    start labels of the heuristic's clusters, the binary search over the
    number of labels, and the upper-bound fix and restore around each
    restricted solve. The solver is a parameter. */
module Divide {
  import opened Graphs
  import opened Outcomes

  // ---------------------------------------------------------------------
  // Warm start
  // ---------------------------------------------------------------------

  /** Some root lies in cluster c. */
  predicate HasRoot(roots: seq<nat>, c: seq<nat>) {
    exists j :: 0 <= j < |roots| && roots[j] in c
  }

  /** The number of clusters of cs without a root. */
  function Rootless(roots: seq<nat>, cs: seq<seq<nat>>): nat {
    if cs == [] then 0
    else Rootless(roots, cs[..|cs| - 1]) + (if HasRoot(roots, cs[|cs| - 1]) then 0 else 1)
  }

  /** The labels cluster i is started at: the index of every root it holds,
      or, without a root, the next label after the roots' labels and those
      of the root-free clusters before it. */
  function Labels(roots: seq<nat>, clusters: seq<seq<nat>>, i: nat): set<nat>
    requires i < |clusters|
  {
    if HasRoot(roots, clusters[i]) then set j: nat | j < |roots| && roots[j] in clusters[i]
    else {|roots| + Rootless(roots, clusters[..i])}
  }

  /** The start values set to 1 for cluster c under labels L. */
  function Pairs(c: seq<nat>, L: set<nat>): (r: set<(nat, nat)>)
    ensures forall v, j :: (v, j) in r <==> v in c && j in L
  {
    set v, j | v in c && j in L :: (v, j)
  }

  /** Setting a start value of a label the model has no variable for. */
  datatype WarmError = NoSuchLabel(vertex: nat, j: nat)

  /** The warm start: x[v, j].start = 1 for every vertex v of a cluster and
      every label j of that cluster. A label at or beyond maxK has no
      variable, and setting its start value raises; an empty cluster sets
      nothing but still uses up its label. */
  method WarmStart(roots: seq<nat>, clusters: seq<seq<nat>>, maxK: nat) returns (r: Result<set<(nat, nat)>, WarmError>)
    ensures r.Ok? <==> forall i, j :: 0 <= i < |clusters| && clusters[i] != [] && j in Labels(roots, clusters, i) ==> j < maxK
    ensures r.Ok? ==> forall v, j :: (v, j) in r.value <==>
              exists i :: 0 <= i < |clusters| && v in clusters[i] && j in Labels(roots, clusters, i)
  {
    var starts: set<(nat, nat)> := {};
    var next: int := |roots| - 1;
    var i := 0;
    while i < |clusters|
      invariant i <= |clusters|
      invariant next == |roots| - 1 + Rootless(roots, clusters[..i])
      invariant LabelsFit(roots, clusters, i, maxK)
      invariant StartsUpTo(roots, clusters, i, starts)
    {
      var c := clusters[i];
      assert clusters[..i + 1][..i] == clusters[..i];
      var L: set<nat>;
      if HasRoot(roots, c) {
        L := set j: nat | j < |roots| && roots[j] in c;
      } else {
        next := next + 1;
        L := {next};
      }
      assert L == Labels(roots, clusters, i);
      if c != [] {
        if j :| j in L && j >= maxK {
          return Err(NoSuchLabel(c[0], j));
        }
      }
      FitStep(roots, clusters, i, maxK);
      StartsStep(roots, clusters, i, starts);
      starts := starts + Pairs(c, L);
      i := i + 1;
    }
    return Ok(starts);
  }

  /** Every non-empty cluster before i has only labels below maxK. */
  ghost predicate LabelsFit(roots: seq<nat>, clusters: seq<seq<nat>>, i: nat, maxK: nat) {
    forall i', j :: 0 <= i' < i <= |clusters| && clusters[i'] != [] && j in Labels(roots, clusters, i') ==> j < maxK
  }

  /** starts holds the start values of the clusters before i. */
  ghost predicate StartsUpTo(roots: seq<nat>, clusters: seq<seq<nat>>, i: nat, starts: set<(nat, nat)>) {
    forall v, j :: (v, j) in starts <==> exists i' :: 0 <= i' < i <= |clusters| && v in clusters[i'] && j in Labels(roots, clusters, i')
  }

  lemma FitStep(roots: seq<nat>, clusters: seq<seq<nat>>, i: nat, maxK: nat)
    requires i < |clusters| && LabelsFit(roots, clusters, i, maxK)
    requires clusters[i] != [] ==> forall j :: j in Labels(roots, clusters, i) ==> j < maxK
    ensures LabelsFit(roots, clusters, i + 1, maxK)
  {
  }

  lemma StartsStep(roots: seq<nat>, clusters: seq<seq<nat>>, i: nat, starts: set<(nat, nat)>)
    requires i < |clusters| && StartsUpTo(roots, clusters, i, starts)
    ensures StartsUpTo(roots, clusters, i + 1, starts + Pairs(clusters[i], Labels(roots, clusters, i)))
  {
  }

  /** Root-free clusters get distinct labels, increasing with position. */
  lemma {:induction false} FreshLabelsIncrease(roots: seq<nat>, clusters: seq<seq<nat>>, i: nat, i': nat)
    requires i < i' < |clusters|
    requires !HasRoot(roots, clusters[i])
    ensures Rootless(roots, clusters[..i]) < Rootless(roots, clusters[..i'])
    decreases i'
  {
    assert clusters[..i'][..i' - 1] == clusters[..i' - 1];
    if i' - 1 == i {
      assert clusters[..i'][i' - 1] == clusters[i];
    } else {
      FreshLabelsIncrease(roots, clusters, i, i' - 1);
    }
  }

  /** Rooted clusters use the roots' labels 0..R-1, root-free ones the
      labels from R on, so the two never share a label; two root-free
      clusters never share one either. */
  lemma LabelsApart(roots: seq<nat>, clusters: seq<seq<nat>>, i: nat, i': nat)
    requires i < |clusters| && i' < |clusters| && i != i'
    requires !HasRoot(roots, clusters[i])
    ensures Labels(roots, clusters, i) !! Labels(roots, clusters, i')
  {
    if !HasRoot(roots, clusters[i']) {
      if i < i' {
        FreshLabelsIncrease(roots, clusters, i, i');
      } else {
        FreshLabelsIncrease(roots, clusters, i', i);
      }
    }
  }

  // ---------------------------------------------------------------------
  // Binary search
  // ---------------------------------------------------------------------

  /** Python's int() of the float x / 2: the quotient truncated toward
      zero, which differs from Dafny's floor division for odd negative x. */
  function TruncHalf(x: int): (r: int)
    ensures -1 <= x - 2 * r <= 1
    ensures x >= 0 ==> 0 <= x - 2 * r
    ensures x <= 0 ==> x - 2 * r <= 0
  {
    if x >= 0 then x / 2 else -((-x) / 2)
  }

  /** The probe of a bracket at least two wide lies strictly inside it. */
  lemma MiddleInside(first: int, last: int)
    requires last - first >= 2
    ensures first < TruncHalf(first + last) < last
  {
  }

  /** The probe when the first label can be -1: truncation rounds -1 / 2
      up to 0, so the narrow bracket (-1, 0) is probed at its top. */
  lemma NarrowProbe()
    ensures TruncHalf(-1 + 0) == 0 && -1 / 2 == -1
  {
  }

  /** The solver statuses the driver distinguishes; any other code leaves
      the bracket as it was. */
  datatype Status = Optimal | Infeasible | TimeLimit | OtherStatus(code: nat)

  /** One restricted solve: the partitions of its solution (none when no
      solution was found) and the final status. */
  datatype Answer = Answer(parts: seq<seq<nat>>, status: Status)

  /** The driver's state: the bracket (first, last], the number of solves
      that found a solution, and the latest solution found. */
  datatype Search = Search(first: int, last: int, counter: nat, best: seq<seq<nat>>)

  /** The update after probing middle: a found solution replaces the best
      one and is counted; INFEASIBLE raises the bottom of the bracket,
      OPTIMAL lowers the top, any other status changes neither. */
  function Step(st: Search, middle: int, ans: Answer): (r: Search)
    ensures ans.parts != [] ==> r.counter == st.counter + 1 && r.best == ans.parts
    ensures ans.parts == [] ==> r.counter == st.counter && r.best == st.best
    ensures r.first == (if ans.status == Infeasible then middle else st.first)
    ensures r.last == (if ans.status == Optimal then middle else st.last)
  {
    var found := if ans.parts != [] then st.(counter := st.counter + 1, best := ans.parts) else st;
    match ans.status
    case Infeasible => found.(first := middle)
    case Optimal => found.(last := middle)
    case TimeLimit => found
    case OtherStatus(_) => found
  }

  /** A status other than the three known ones changes the bracket not at
      all, so the loop can only end through the bracket's width: a solver
      that keeps answering so never lets it terminate. */
  lemma OtherStatusStalls(st: Search, middle: int, ans: Answer)
    requires ans.status.OtherStatus?
    ensures Step(st, middle, ans).first == st.first && Step(st, middle, ans).last == st.last
  {
  }

  predicate Known(s: Status) {
    s == Optimal || s == Infeasible || s == TimeLimit
  }

  /** The number of answers with a solution. */
  function Found(answers: seq<Answer>): nat {
    if answers == [] then 0
    else Found(answers[..|answers| - 1]) + (if answers[|answers| - 1].parts != [] then 1 else 0)
  }

  /** The solution of the latest answer that had one, or [] if none did. */
  function LatestFound(answers: seq<Answer>): seq<seq<nat>> {
    if answers == [] then []
    else if answers[|answers| - 1].parts != [] then answers[|answers| - 1].parts
    else LatestFound(answers[..|answers| - 1])
  }

  function Width(first: int, last: int): nat {
    if last - first > 0 then last - first else 0
  }

  /** From a bottom of at least -1, the probe lies inside the closed
      bracket and is a valid label count. */
  lemma MiddleWithin(first: int, last: int)
    requires -1 <= first < last
    ensures 0 <= TruncHalf(first + last) && first <= TruncHalf(first + last) <= last
  {
  }

  /** What the search has learnt: the bracket lies within [R - 1, maxK],
      its ends are the initial ones or probes with the matching answer, and
      the answers so far are on the right sides of it. */
  ghost predicate Bracketed(numRoots: nat, maxK: nat, st: Search, probes: seq<int>, answers: seq<Answer>)
    requires |probes| == |answers|
  {
    numRoots - 1 <= st.first <= st.last <= maxK &&
    (st.first == numRoots - 1 || exists i :: 0 <= i < |probes| && probes[i] == st.first && answers[i].status == Infeasible) &&
    (st.last == maxK || exists i :: 0 <= i < |probes| && probes[i] == st.last && answers[i].status == Optimal) &&
    (forall i :: 0 <= i < |probes| && answers[i].status == Infeasible ==> probes[i] <= st.first) &&
    (forall i :: 0 <= i < |probes| && answers[i].status == Optimal ==> probes[i] >= st.last) &&
    (forall i :: 0 <= i < |probes| ==> 0 <= probes[i] && numRoots - 1 <= probes[i] <= maxK)
  }

  /** One round keeps the search's knowledge. */
  lemma BracketStep(numRoots: nat, maxK: nat, st: Search, probes: seq<int>, answers: seq<Answer>, ans: Answer)
    requires |probes| == |answers| && Bracketed(numRoots, maxK, st, probes, answers)
    requires st.first < st.last
    ensures var middle := TruncHalf(st.last + st.first);
      Bracketed(numRoots, maxK, Step(st, middle, ans), probes + [middle], answers + [ans])
  {
    var middle := TruncHalf(st.last + st.first);
    MiddleWithin(st.first, st.last);
    var st' := Step(st, middle, ans);
    var probes', answers' := probes + [middle], answers + [ans];
    assert forall i :: 0 <= i < |probes| ==> probes'[i] == probes[i] && answers'[i] == answers[i];
    assert probes'[|probes|] == middle && answers'[|probes|] == ans;
    if st'.first != numRoots - 1 && st'.first != st.first {
      assert probes'[|probes|] == st'.first && answers'[|probes|].status == Infeasible;
    }
    if st'.last != maxK && st'.last != st.last {
      assert probes'[|probes|] == st'.last && answers'[|probes|].status == Optimal;
    }
    if st'.first == st.first && st.first != numRoots - 1 {
      var i :| 0 <= i < |probes| && probes[i] == st.first && answers[i].status == Infeasible;
      assert probes'[i] == st'.first && answers'[i].status == Infeasible;
    }
    if st'.last == st.last && st.last != maxK {
      var i :| 0 <= i < |probes| && probes[i] == st.last && answers[i].status == Optimal;
      assert probes'[i] == st'.last && answers'[i].status == Optimal;
    }
  }

  lemma FoundSnoc(answers: seq<Answer>, ans: Answer)
    ensures Found(answers + [ans]) == Found(answers) + (if ans.parts != [] then 1 else 0)
    ensures LatestFound(answers + [ans]) == (if ans.parts != [] then ans.parts else LatestFound(answers))
  {
    assert (answers + [ans])[..|answers|] == answers;
  }

  /** The loop invariant of the search after each round: the answers are
      the solver's, only the last may be TIME_LIMIT, counter and best
      summarise the answers, and the bracket records what was learnt. */
  ghost predicate Searching(numRoots: nat, maxK: nat, solve: (nat, int) -> Answer,
                            st: Search, probes: seq<int>, answers: seq<Answer>)
  {
    |probes| == |answers| &&
    (forall i :: 0 <= i < |answers| ==> answers[i] == solve(i, probes[i])) &&
    (forall i :: 0 <= i < |answers| - 1 ==> answers[i].status != TimeLimit) &&
    st.counter == Found(answers) && st.best == LatestFound(answers) &&
    (maxK >= numRoots ==> Bracketed(numRoots, maxK, st, probes, answers)) &&
    (maxK >= numRoots + 1 ==> forall i :: 0 <= i < |probes| ==> numRoots <= probes[i] < maxK)
  }

  /** Whether the loop goes on: no TIME_LIMIT yet and a bracket at least
      two wide (or no round yet). */
  predicate Continues(st: Search, answers: seq<Answer>) {
    answers == [] || (answers[|answers| - 1].status != TimeLimit && st.last - st.first >= 2)
  }

  /** One round of the search keeps its invariant. */
  lemma SearchStep(numRoots: nat, maxK: nat, solve: (nat, int) -> Answer,
                   st: Search, probes: seq<int>, answers: seq<Answer>)
    requires Searching(numRoots, maxK, solve, st, probes, answers) && Continues(st, answers)
    requires answers == [] ==> st == Search(numRoots - 1, maxK, 0, [])
    ensures var middle := TruncHalf(st.last + st.first);
      var ans := solve(|answers|, middle);
      Searching(numRoots, maxK, solve, Step(st, middle, ans), probes + [middle], answers + [ans])
  {
    var middle := TruncHalf(st.last + st.first);
    var ans := solve(|answers|, middle);
    if maxK >= numRoots {
      BracketStep(numRoots, maxK, st, probes, answers, ans);
    }
    if maxK >= numRoots + 1 {
      MiddleInside(st.first, st.last);
      RangeStep(numRoots, maxK, probes, middle);
    }
    FoundSnoc(answers, ans);
    TraceStep(solve, probes, answers, middle);
    NoTimeoutStep(answers, ans);
  }

  lemma TraceStep(solve: (nat, int) -> Answer, probes: seq<int>, answers: seq<Answer>, middle: int)
    requires |probes| == |answers|
    requires forall i :: 0 <= i < |answers| ==> answers[i] == solve(i, probes[i])
    ensures var probes', answers' := probes + [middle], answers + [solve(|answers|, middle)];
      forall i :: 0 <= i < |answers'| ==> answers'[i] == solve(i, probes'[i])
  {
  }

  lemma RangeStep(numRoots: nat, maxK: nat, probes: seq<int>, middle: int)
    requires forall i :: 0 <= i < |probes| ==> numRoots <= probes[i] < maxK
    requires numRoots <= middle < maxK
    ensures forall i :: 0 <= i < |probes + [middle]| ==> numRoots <= (probes + [middle])[i] < maxK
  {
  }

  lemma NoTimeoutStep(answers: seq<Answer>, ans: Answer)
    requires forall i :: 0 <= i < |answers| - 1 ==> answers[i].status != TimeLimit
    requires answers == [] || answers[|answers| - 1].status != TimeLimit
    ensures forall i :: 0 <= i < |answers + [ans]| - 1 ==> (answers + [ans])[i].status != TimeLimit
  {
  }

  /** With a known status, a round that does not end the search leaves a
      bracket no wider than before. */
  lemma StepNarrows(st: Search, ans: Answer)
    requires Known(ans.status)
    ensures var st' := Step(st, TruncHalf(st.last + st.first), ans);
      ans.status == TimeLimit || st'.last - st'.first <= 1 || Width(st'.first, st'.last) <= Width(st.first, st.last)
  {
  }

  /** The binary search over the number of labels. The bracket starts at
      (R - 1, maxK] for R roots; each round probes its truncated middle with
      the solver `solve` (given the round number and the label count) and
      updates as `Step` says, and the loop ends after a TIME_LIMIT or once
      the bracket is at most one wide. The body runs at least once. When
      maxK >= R the bracket only shrinks: its bottom is R - 1 or a probe
      answered INFEASIBLE, its top maxK or a probe answered OPTIMAL, every
      INFEASIBLE probe lies at or below the bottom and every OPTIMAL probe
      at or above the top. When maxK >= R + 1 every probe lies in
      R..maxK-1. */
  method DivideAndConquer(numRoots: nat, maxK: nat, solve: (nat, int) -> Answer)
    returns (st: Search, probes: seq<int>, answers: seq<Answer>)
    requires forall i: nat, k: int :: Known(solve(i, k).status)
    ensures |probes| == |answers| >= 1
    ensures forall i :: 0 <= i < |answers| ==> answers[i] == solve(i, probes[i])
    ensures answers[|answers| - 1].status == TimeLimit || st.last - st.first <= 1
    ensures forall i :: 0 <= i < |answers| - 1 ==> answers[i].status != TimeLimit
    ensures st.counter == Found(answers) && st.best == LatestFound(answers)
    ensures maxK >= numRoots ==> Bracketed(numRoots, maxK, st, probes, answers)
    ensures maxK >= numRoots + 1 ==> forall i :: 0 <= i < |probes| ==> numRoots <= probes[i] < maxK
  {
    st := Search(numRoots - 1, maxK, 0, []);
    probes, answers := [], [];
    var done := false;
    while !done
      invariant Searching(numRoots, maxK, solve, st, probes, answers)
      invariant done <==> !Continues(st, answers)
      invariant answers == [] ==> st == Search(numRoots - 1, maxK, 0, [])
      decreases if done then 0 else Width(st.first, st.last) + 1
    {
      var middle := TruncHalf(st.last + st.first);
      var ans := solve(|answers|, middle);
      SearchStep(numRoots, maxK, solve, st, probes, answers);
      StepNarrows(st, ans);
      probes := probes + [middle];
      answers := answers + [ans];
      st := Step(st, middle, ans);
      done := ans.status == TimeLimit || st.last - st.first <= 1;
    }
  }

  // ---------------------------------------------------------------------
  // Bound fix and restore
  // ---------------------------------------------------------------------

  /** Upper bounds of the x variables, keyed by (vertex, label). */
  type Bounds = map<(nat, nat), int>

  /** The restricted solve's fixed region: all vertices, labels k..maxK-1. */
  predicate Fixed(n: nat, k: nat, maxK: nat, key: (nat, nat)) {
    key.0 < n && k <= key.1 < maxK
  }

  /** Before the restricted solve: ub = 0 on the fixed region, all other
      bounds unchanged. */
  function FixBounds(ub: Bounds, n: nat, k: nat, maxK: nat): (r: Bounds)
    ensures r.Keys == ub.Keys
    ensures forall key :: key in ub && Fixed(n, k, maxK, key) ==> r[key] == 0
    ensures forall key :: key in ub && !Fixed(n, k, maxK, key) ==> r[key] == ub[key]
  {
    map key | key in ub :: if Fixed(n, k, maxK, key) then 0 else ub[key]
  }

  /** After it: ub = 1 on the same region, all other bounds unchanged. */
  function RestoreBounds(ub: Bounds, n: nat, k: nat, maxK: nat): (r: Bounds)
    ensures r.Keys == ub.Keys
    ensures forall key :: key in ub && Fixed(n, k, maxK, key) ==> r[key] == 1
    ensures forall key :: key in ub && !Fixed(n, k, maxK, key) ==> r[key] == ub[key]
  {
    map key | key in ub :: if Fixed(n, k, maxK, key) then 1 else ub[key]
  }

  /** The bounds of the model before any restricted solve: 0 on the
      zero-fixed pairs (a vertex more than s from root j, for labels
      j < R), 1 elsewhere. */
  function InitialBounds(g: Graph, s: nat, roots: seq<nat>, maxK: nat): (ub: Bounds)
    ensures forall v: nat, j: nat :: (v, j) in ub <==> v < |g.adj| && j < maxK
    ensures forall v: nat, j: nat :: (v, j) in ub && j >= |roots| ==> ub[(v, j)] == 1
  {
    map v: nat, j: nat | v < |g.adj| && j < maxK :: (v, j) :=
      if j < |roots| && v != roots[j] && !Near(g, {}, roots[j], v, s) then 0 else 1
  }

  /** Restoring undoes fixing exactly when every fixed bound was 1 before,
      which holds for the initial bounds whenever k >= R. */
  lemma FixRestore(ub: Bounds, n: nat, k: nat, maxK: nat)
    requires forall key :: key in ub && Fixed(n, k, maxK, key) ==> ub[key] == 1
    ensures RestoreBounds(FixBounds(ub, n, k, maxK), n, k, maxK) == ub
  {
    var r := RestoreBounds(FixBounds(ub, n, k, maxK), n, k, maxK);
    assert forall key :: key in ub ==> r[key] == ub[key];
  }

  /** Every probe of the search with maxK >= R + 1 leaves the initial bounds
      as they were once its restricted solve is over. */
  lemma ProbesRestoreInitial(g: Graph, s: nat, roots: seq<nat>, maxK: nat, k: nat)
    requires |roots| <= k
    ensures var ub := InitialBounds(g, s, roots, maxK);
      RestoreBounds(FixBounds(ub, |g.adj|, k, maxK), |g.adj|, k, maxK) == ub
  {
    FixRestore(InitialBounds(g, s, roots, maxK), |g.adj|, k, maxK);
  }
}
