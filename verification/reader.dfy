/** The two instance readers, over files already split into lines of
    whitespace-separated tokens: the adjacency-list format (header n, then
    one line of 1-based neighbours per vertex) and the edge-list format
    (header with the edge count second, then one edge per line). */
module Reader {
  import opened Outcomes

  // ---------------------------------------------------------------------
  // Integer tokens
  // ---------------------------------------------------------------------

  predicate Digit(c: char) {
    '0' <= c <= '9'
  }

  /** The digit part of an integer literal as `int()` accepts it: decimal
      digits, leading zeros allowed, single underscores only between two
      digits. */
  predicate DigitRun(s: string) {
    |s| > 0 && Digit(s[0]) && Digit(s[|s| - 1]) &&
    (forall i :: 0 <= i < |s| ==> Digit(s[i]) || s[i] == '_') &&
    (forall i :: 0 <= i < |s| - 1 && s[i] == '_' ==> s[i + 1] != '_')
  }

  /** The value of a digit run, underscores ignored. */
  function DigitsValue(s: string): nat {
    if s == [] then 0
    else if Digit(s[|s| - 1]) then DigitsValue(s[..|s| - 1]) * 10 + (s[|s| - 1] as int - '0' as int)
    else DigitsValue(s[..|s| - 1])
  }

  /** `int(t)` on one token: an optional sign, then a digit run; anything
      else raises, modelled as None. */
  function ParseInt(t: string): (r: Option<int>)
    ensures r.Some? <==> DigitRun(t) || (|t| > 0 && (t[0] == '+' || t[0] == '-') && DigitRun(t[1..]))
    ensures r.Some? && t[0] == '-' ==> r.value <= 0
    ensures r.Some? && t[0] != '-' ==> r.value >= 0
  {
    if |t| > 0 && (t[0] == '+' || t[0] == '-') then
      if DigitRun(t[1..]) then
        var v: int := DigitsValue(t[1..]);
        Some(if t[0] == '-' then -v else v)
      else None
    else if DigitRun(t) then Some(DigitsValue(t))
    else None
  }

  /** The decimal text of a natural number, without leading zeros. */
  function ShowNat(n: nat): (r: string)
    ensures |r| > 0 && forall i :: 0 <= i < |r| ==> Digit(r[i])
    decreases n
  {
    var d := ['0' + (n % 10) as char];
    if n < 10 then d else ShowNat(n / 10) + d
  }

  /** The decimal text of an integer, with a minus sign when negative. */
  function Show(i: int): string {
    if i < 0 then "-" + ShowNat(-i) else ShowNat(i)
  }

  lemma {:induction false} ShowNatValue(n: nat)
    ensures DigitRun(ShowNat(n)) && DigitsValue(ShowNat(n)) == n
    decreases n
  {
    var s := ShowNat(n);
    if n >= 10 {
      ShowNatValue(n / 10);
      assert s[..|s| - 1] == ShowNat(n / 10);
    }
  }

  /** Reading back what `Show` writes gives the integer written. */
  lemma ParseShow(i: int)
    ensures ParseInt(Show(i)) == Some(i)
  {
    if i < 0 {
      ShowNatValue(-i);
      assert Show(i)[1..] == ShowNat(-i);
    } else {
      ShowNatValue(i);
    }
  }

  /** Leading zeros, a plus sign and digit-separating underscores are
      accepted; a bare sign, doubled or trailing underscores are not. */
  lemma TokenExamples()
    ensures ParseInt("007") == Some(7) && ParseInt("+12") == Some(12) && ParseInt("1_0") == Some(10)
    ensures ParseInt("") == None && ParseInt("-") == None && ParseInt("1__0") == None && ParseInt("1_") == None
  {
    assert "007"[..2] == "00" && "00"[..1] == "0" && "0"[..0] == "";
    assert "+12"[1..] == "12" && "12"[..1] == "1" && "1"[..0] == "";
    assert "1_0"[..2] == "1_" && "1_"[..1] == "1";
    assert "-"[1..] == "";
    assert !DigitRun("1__0") by { assert "1__0"[1] == '_' && "1__0"[2] == '_'; }
  }

  // ---------------------------------------------------------------------
  // Lines
  // ---------------------------------------------------------------------

  /** The reason a read raises: a line shorter than the index read from it,
      a token that is not an integer, or a negative vertex count, which the
      empty-graph constructor rejects. Lines count from 0 (the header). */
  datatype ReadError =
    | MissingToken(line: nat, index: nat)
    | NotInteger(line: nat, index: nat)
    | NegativeCount(count: int)

  /** Line i of the file, or the empty token list past its end (reading at
      end of file gives an empty line). */
  function Line(lines: seq<seq<string>>, i: nat): seq<string> {
    if i < |lines| then lines[i] else []
  }

  /** The integer at position j of line i, raising as `int(line[j])` does. */
  function TokenAt(lines: seq<seq<string>>, i: nat, j: nat): (r: Result<int, ReadError>)
    ensures r.Ok? <==> j < |Line(lines, i)| && ParseInt(Line(lines, i)[j]).Some?
    ensures r.Ok? ==> Some(r.value) == ParseInt(Line(lines, i)[j])
    ensures r.Err? && j >= |Line(lines, i)| ==> r.error == MissingToken(i, j)
    ensures r.Err? && j < |Line(lines, i)| ==> r.error == NotInteger(i, j)
  {
    var line := Line(lines, i);
    if j >= |line| then Err(MissingToken(i, j))
    else match ParseInt(line[j])
      case None => Err(NotInteger(i, j))
      case Some(x) => Ok(x)
  }

  // ---------------------------------------------------------------------
  // Adjacency-list files
  // ---------------------------------------------------------------------

  /** A graph read from a file: its vertices and its edges in reading order. */
  datatype FileGraph = FileGraph(nodes: set<nat>, edges: seq<(nat, nat)>)

  /** Token j of line i is there and is not an integer. */
  predicate BadToken(lines: seq<seq<string>>, i: nat, j: nat) {
    j < |Line(lines, i)| && ParseInt(Line(lines, i)[j]).None?
  }

  /** Some token of the line reads as t. */
  predicate Names(line: seq<string>, t: int) {
    NamedBefore(line, |line|, t)
  }

  /** One of the first j tokens of the line reads as t. */
  predicate NamedBefore(line: seq<string>, j: nat, t: int)
    requires j <= |line|
  {
    exists j' :: 0 <= j' < j && ParseInt(line[j']) == Some(t)
  }

  lemma NamedStep(line: seq<string>, j: nat)
    requires j < |line|
    ensures forall t :: NamedBefore(line, j + 1, t) <==> NamedBefore(line, j, t) || ParseInt(line[j]) == Some(t)
  {
  }

  /** The vertices 0..n-1 of the empty graph on n vertices. */
  function Below(n: nat): (r: set<nat>)
    ensures forall v: nat :: v in r <==> v < n
  {
    if n == 0 then {} else Below(n - 1) + {n - 1}
  }

  predicate EdgesDistinct(edges: seq<(nat, nat)>) {
    forall i, j :: 0 <= i < j < |edges| ==> edges[i] != edges[j]
  }

  predicate Endpoint(edges: seq<(nat, nat)>, v: nat) {
    exists e :: e in edges && (e.0 == v || e.1 == v)
  }

  /** The edges of line i, the line of vertex k = i - 1: token t gives the
      edge (k, t - 1) when k < t - 1 and that edge is not recorded yet.
      Raises at the line's first non-integer token. */
  method ScanNeighbours(lines: seq<seq<string>>, i: nat, edges: seq<(nat, nat)>)
    returns (r: Result<seq<(nat, nat)>, ReadError>)
    requires i >= 1 && EdgesDistinct(edges)
    ensures r.Err? <==> exists j: nat :: BadToken(lines, i, j)
    ensures r.Err? ==> r.error.NotInteger? && r.error.line == i && BadToken(lines, i, r.error.index) &&
                       forall j: nat :: j < r.error.index ==> !BadToken(lines, i, j)
    ensures r.Ok? ==> EdgesDistinct(r.value)
    ensures r.Ok? ==> forall e :: e in r.value <==> e in edges || (e.0 == i - 1 && e.0 < e.1 && Names(Line(lines, i), e.1 + 1))
  {
    var k: nat := i - 1;
    var line := Line(lines, i);
    var acc := edges;
    var j := 0;
    while j < |line|
      invariant 0 <= j <= |line|
      invariant forall j': nat :: j' < j ==> !BadToken(lines, i, j')
      invariant EdgesDistinct(acc)
      invariant forall e :: e in acc <==> e in edges || (e.0 == k && k < e.1 && NamedBefore(line, j, e.1 + 1))
    {
      NamedStep(line, j);
      match ParseInt(line[j]) {
        case None =>
          assert BadToken(lines, i, j);
          return Err(NotInteger(i, j));
        case Some(t) =>
          if k < t - 1 && (k, t - 1) !in acc {
            var e: (nat, nat) := (k, t - 1);
            assert forall i :: 0 <= i < |acc| ==> acc[i] != e;
            acc := acc + [e];
          }
      }
      j := j + 1;
    }
    return Ok(acc);
  }

  /** `read_graph`: n from the first header token, then exactly n lines,
      line k + 1 listing the 1-based neighbours of vertex k (a missing line
      lists none). Only edges (k, t - 1) with k < t - 1 are kept, once each,
      so every edge is ordered and comes from its lower endpoint's line. The
      vertices are 0..n-1 (none when n < 1) together with every endpoint.
      Raises on a missing or non-integer header and at the first
      non-integer token of the n lines, in reading order; lines past the
      n-th are never looked at. */
  /** No token of lines 1 .. k is bad. */
  ghost predicate CleanUpTo(lines: seq<seq<string>>, k: int) {
    forall i: nat, j: nat :: 1 <= i <= k ==> !BadToken(lines, i, j)
  }

  /** edges holds exactly the ordered edges named on lines 1 .. k. */
  ghost predicate EdgesUpTo(lines: seq<seq<string>>, edges: seq<(nat, nat)>, k: int) {
    forall e :: e in edges <==> e.0 < e.1 && e.0 < k && Names(Line(lines, e.0 + 1), e.1 + 1)
  }

  lemma FirstBadLine(lines: seq<seq<string>>, l: nat, j: nat)
    requires l >= 1 && CleanUpTo(lines, l - 1) && BadToken(lines, l, j)
    ensures exists i: nat, j': nat :: 1 <= i <= l && BadToken(lines, i, j')
    ensures forall i: nat, j': nat :: 1 <= i < l ==> !BadToken(lines, i, j')
  {
  }

  lemma LineScanned(lines: seq<seq<string>>, l: nat, edges: seq<(nat, nat)>, next: seq<(nat, nat)>)
    requires l >= 1 && CleanUpTo(lines, l - 1) && EdgesUpTo(lines, edges, l - 1)
    requires forall j: nat :: !BadToken(lines, l, j)
    requires forall e :: e in next <==> e in edges || (e.0 == l - 1 && e.0 < e.1 && Names(Line(lines, l), e.1 + 1))
    ensures CleanUpTo(lines, l) && EdgesUpTo(lines, next, l)
  {
  }

  method ReadGraph(lines: seq<seq<string>>) returns (r: Result<FileGraph, ReadError>)
    ensures TokenAt(lines, 0, 0).Err? ==> r == Err(TokenAt(lines, 0, 0).error)
    ensures TokenAt(lines, 0, 0).Ok? && TokenAt(lines, 0, 0).value < 0 ==>
      r == Err(NegativeCount(TokenAt(lines, 0, 0).value))
    ensures TokenAt(lines, 0, 0).Ok? && TokenAt(lines, 0, 0).value >= 0 ==>
      var n := TokenAt(lines, 0, 0).value;
      (r.Err? <==> exists i: nat, j: nat :: 1 <= i <= n && BadToken(lines, i, j)) &&
      (r.Err? ==> r.error.NotInteger? && 1 <= r.error.line <= n &&
                  BadToken(lines, r.error.line, r.error.index) &&
                  (forall i: nat, j: nat :: 1 <= i < r.error.line ==> !BadToken(lines, i, j)) &&
                  (forall j: nat :: j < r.error.index ==> !BadToken(lines, r.error.line, j))) &&
      (r.Ok? ==> EdgesDistinct(r.value.edges) &&
                 (forall e :: e in r.value.edges <==> e.0 < e.1 && e.0 < n && Names(Line(lines, e.0 + 1), e.1 + 1)) &&
                 (forall v: nat :: v in r.value.nodes <==> v < n || Endpoint(r.value.edges, v)))
  {
    var header := TokenAt(lines, 0, 0);
    if header.Err? {
      return Err(header.error);
    }
    if header.value < 0 {
      return Err(NegativeCount(header.value));
    }
    var n: nat := header.value;
    var edges: seq<(nat, nat)> := [];
    var k: nat := 0;
    while k < n
      invariant k <= n
      invariant CleanUpTo(lines, k)
      invariant EdgesDistinct(edges)
      invariant EdgesUpTo(lines, edges, k)
      decreases n - k
    {
      var next := ScanNeighbours(lines, k + 1, edges);
      if next.Err? {
        FirstBadLine(lines, k + 1, next.error.index);
        r := Err(next.error);
        return;
      }
      LineScanned(lines, k + 1, edges, next.value);
      edges := next.value;
      k := k + 1;
    }
    assert forall e :: e in edges ==> e.0 < n;
    var nodes := Below(n) + (set e | e in edges :: e.0) + (set e | e in edges :: e.1);
    return Ok(FileGraph(nodes, edges));
  }

  // ---------------------------------------------------------------------
  // Edge-list files
  // ---------------------------------------------------------------------

  /** Line i as an edge: its first two tokens, read in order. */
  function EdgeLine(lines: seq<seq<string>>, i: nat): (r: Result<(int, int), ReadError>)
    ensures r.Ok? <==> TokenAt(lines, i, 0).Ok? && TokenAt(lines, i, 1).Ok?
    ensures r.Ok? ==> r.value == (TokenAt(lines, i, 0).value, TokenAt(lines, i, 1).value)
    ensures r.Err? ==> r.error == (if TokenAt(lines, i, 0).Err? then TokenAt(lines, i, 0).error else TokenAt(lines, i, 1).error)
  {
    match TokenAt(lines, i, 0)
    case Err(e) => Err(e)
    case Ok(a) =>
      match TokenAt(lines, i, 1)
      case Err(e) => Err(e)
      case Ok(b) => Ok((a, b))
  }

  /** Lines i + 1 .. m all give edges. */
  ghost predicate LinesRead(lines: seq<seq<string>>, i: nat, m: int) {
    forall l: nat :: i < l <= m ==> EdgeLine(lines, l).Ok?
  }

  /** es lists the edges of lines i + 1, i + 2, ... in order. */
  ghost predicate EdgesOf(lines: seq<seq<string>>, i: nat, es: seq<(int, int)>) {
    forall k :: 0 <= k < |es| ==> EdgeLine(lines, i + k + 1) == Ok(es[k])
  }

  /** e is the error of some line l in i + 1 .. m all of whose predecessors
      from i + 1 on give edges: the first failing line. */
  ghost predicate FirstFailure(lines: seq<seq<string>>, i: nat, m: int, e: ReadError) {
    exists l: nat :: i < l <= m && EdgeLine(lines, l) == Err(e) && LinesRead(lines, i, l - 1)
  }

  /** The edges of lines i + 1 .. m, stopping at the first line that
      raises. */
  function EdgeLines(lines: seq<seq<string>>, i: nat, m: int): (r: Result<seq<(int, int)>, ReadError>)
    ensures r.Ok? <==> LinesRead(lines, i, m)
    ensures r.Ok? ==> |r.value| == (if m > i then m - i else 0) && EdgesOf(lines, i, r.value)
    ensures r.Err? ==> FirstFailure(lines, i, m, r.error)
    decreases m - i
  {
    if i >= m then Ok([])
    else match EdgeLine(lines, i + 1)
      case Err(e) =>
        FirstLineFails(lines, i, m, e);
        Err(e)
      case Ok(edge) =>
        match EdgeLines(lines, i + 1, m)
        case Err(e) =>
          LaterLineFails(lines, i, m, e);
          Err(e)
        case Ok(rest) =>
          LinesCons(lines, i, m, edge, rest);
          Ok([edge] + rest)
  }

  lemma FirstLineFails(lines: seq<seq<string>>, i: nat, m: int, e: ReadError)
    requires i < m && EdgeLine(lines, i + 1) == Err(e)
    ensures !LinesRead(lines, i, m) && FirstFailure(lines, i, m, e)
  {
    assert LinesRead(lines, i, i);
  }

  lemma LaterLineFails(lines: seq<seq<string>>, i: nat, m: int, e: ReadError)
    requires i < m && EdgeLine(lines, i + 1).Ok?
    requires !LinesRead(lines, i + 1, m) && FirstFailure(lines, i + 1, m, e)
    ensures !LinesRead(lines, i, m) && FirstFailure(lines, i, m, e)
  {
    var l: nat :| i + 1 < l <= m && EdgeLine(lines, l) == Err(e) && LinesRead(lines, i + 1, l - 1);
    assert LinesRead(lines, i, l - 1);
  }

  lemma LinesCons(lines: seq<seq<string>>, i: nat, m: int, edge: (int, int), rest: seq<(int, int)>)
    requires i < m && EdgeLine(lines, i + 1) == Ok(edge)
    requires LinesRead(lines, i + 1, m) && EdgesOf(lines, i + 1, rest)
    ensures LinesRead(lines, i, m) && EdgesOf(lines, i, [edge] + rest)
  {
    var es := [edge] + rest;
    forall k | 0 <= k < |es| ensures EdgeLine(lines, i + k + 1) == Ok(es[k]) {
      if k > 0 {
        assert es[k] == rest[k - 1];
      }
    }
  }

  /** `read_txt`: m from the second header token, then exactly m lines,
      each giving one edge by its first two tokens. A short header or line
      raises MissingToken, a non-integer token NotInteger; the error is the
      first one in reading order. */
  function ReadTxt(lines: seq<seq<string>>): (r: Result<seq<(int, int)>, ReadError>)
    ensures TokenAt(lines, 0, 1).Err? ==> r == Err(TokenAt(lines, 0, 1).error)
    ensures TokenAt(lines, 0, 1).Ok? ==>
      var m := TokenAt(lines, 0, 1).value;
      (r.Ok? <==> LinesRead(lines, 0, m)) &&
      (r.Ok? ==> |r.value| == (if m > 0 then m else 0) && EdgesOf(lines, 0, r.value)) &&
      (r.Err? ==> FirstFailure(lines, 0, m, r.error))
  {
    match TokenAt(lines, 0, 1)
    case Err(e) => Err(e)
    case Ok(m) => EdgeLines(lines, 0, m)
  }

  /** An edge-list file for the given edges: a header naming the vertex
      count and the edge count, then one line per edge. */
  function WriteTxt(n: nat, edges: seq<(int, int)>): (r: seq<seq<string>>)
    ensures |r| == |edges| + 1
  {
    [[Show(n), Show(|edges|)]] + seq(|edges|, i requires 0 <= i < |edges| => [Show(edges[i].0), Show(edges[i].1)])
  }

  /** Reading a written edge list gives back its edges. */
  lemma ReadWriteTxt(n: nat, edges: seq<(int, int)>)
    ensures ReadTxt(WriteTxt(n, edges)) == Ok(edges)
  {
    var lines := WriteTxt(n, edges);
    ParseShow(|edges|);
    assert Line(lines, 0) == [Show(n), Show(|edges|)];
    assert TokenAt(lines, 0, 1) == Ok(|edges|);
    forall l: nat | 1 <= l <= |edges|
      ensures EdgeLine(lines, l) == Ok(edges[l - 1])
    {
      EdgeLineWritten(n, edges, l);
    }
    var r := ReadTxt(lines);
    assert LinesRead(lines, 0, |edges|);
    assert r.Ok? && |r.value| == |edges|;
    forall k | 0 <= k < |edges|
      ensures r.value[k] == edges[k]
    {
      assert EdgeLine(lines, k + 1) == Ok(edges[k]);
    }
    assert r.value == edges;
  }

  lemma EdgeLineWritten(n: nat, edges: seq<(int, int)>, l: nat)
    requires 1 <= l <= |edges|
    ensures EdgeLine(WriteTxt(n, edges), l) == Ok(edges[l - 1])
  {
    var e := edges[l - 1];
    ParseShow(e.0);
    ParseShow(e.1);
    assert Line(WriteTxt(n, edges), l) == [Show(e.0), Show(e.1)];
  }
}
