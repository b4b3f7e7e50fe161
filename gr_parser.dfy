/** `gr_to_graph_library`: the reader of a PACE `.gr` graph file. A header line
    `p tw n m` declares the vertices 1..n and the number m of edge lines to follow; each
    further line `u v` appends `v` to the adjacency list of `u`; lines that are blank or
    start with `c` are comments. */
module GrParser {
  import opened Tokens

  /** The `ValueError`s the reader raises, one per check. */
  datatype GrError =
    | SecondHeader    // a second line starting with `p`
    | HeaderArity     // a header that is not four tokens
    | NotTw           // a header whose format word is not `tw`
    | NotAnInt        // `int(...)` of a token that is not a number
    | NoHeader        // an edge line before the header
    | EdgeArity       // an edge line that is not two tokens
    | BadEdge         // an endpoint that is not a declared vertex, or an ordered pair given twice
    | WrongEdgeCount  // the number of edge lines differs from m, or there is no header

  /** The dictionary `G`: a vertex and the list of vertices its edge lines name, in file order. */
  type Graph = map<int, seq<int>>

  /** The reader's variables between two lines. `m` means nothing (`None`) while
      `firstLine` is false. */
  datatype GrState = GrState(firstLine: bool, m: int, g: Graph)

  const Start := GrState(false, 0, map[])

  /** A line the reader does not skip. */
  predicate Significant(line: Line) {
    |line| > 0 && !StartsWith(line, 'c')
  }

  /** Python's `range(lo, hi)` as a set. */
  function Range(lo: int, hi: int): (r: set<int>)
    ensures forall v :: v in r <==> lo <= v < hi
    decreases hi - lo
  {
    if hi <= lo then {} else Range(lo, hi - 1) + {hi - 1}
  }

  /** The given vertices, each with no neighbour yet. */
  function Isolated(vs: set<int>): Graph {
    map v | v in vs :: []
  }

  /** The vertices 1..n, each with no neighbour yet. */
  function EmptyAdjacency(n: int): Graph {
    Isolated(Range(1, n + 1))
  }

  /** What one line does to the reader's state. */
  function GrStep(st: GrState, line: Line): Result<GrState, GrError> {
    if !Significant(line) then Ok(st)
    else if StartsWith(line, 'p') then HeaderStep(st, line)
    else EdgeStep(st, line)
  }

  /** A `p` line. */
  function HeaderStep(st: GrState, line: Line): Result<GrState, GrError> {
    if st.firstLine then Err(SecondHeader)
    else if |line| != 4 then Err(HeaderArity)
    else if line[1] != "tw" then Err(NotTw)
    else if ParseInt(line[2]).None? || ParseInt(line[3]).None? then Err(NotAnInt)
    else Ok(GrState(true, ParseInt(line[3]).value, st.g + EmptyAdjacency(ParseInt(line[2]).value)))
  }

  /** Any other line that is not skipped. */
  function EdgeStep(st: GrState, line: Line): Result<GrState, GrError> {
    if !st.firstLine then Err(NoHeader)
    else if |line| != 2 then Err(EdgeArity)
    else if ParseInt(line[0]).None? || ParseInt(line[1]).None? then Err(NotAnInt)
    else
      var u, v := ParseInt(line[0]).value, ParseInt(line[1]).value;
      if u !in st.g || v !in st.g || v in st.g[u] then Err(BadEdge)
      else Ok(st.(m := st.m - 1, g := st.g[u := st.g[u] + [v]]))
  }

  /** The state after the given lines, or the first error. */
  function Fold(lines: seq<Line>): Result<GrState, GrError> {
    if lines == [] then Ok(Start)
    else
      match Fold(lines[..|lines| - 1])
      case Err(e) => Err(e)
      case Ok(st) => GrStep(st, lines[|lines| - 1])
  }

  /** The reader's outcome on a whole file. */
  function GrSpec(lines: seq<Line>): Result<Graph, GrError> {
    match Fold(lines)
    case Err(e) => Err(e)
    case Ok(st) => if !st.firstLine || st.m != 0 then Err(WrongEdgeCount) else Ok(st.g)
  }

  /** The reader itself: a loop over the lines with an early exit on the first error. */
  method GrToGraphLibrary(lines: seq<Line>) returns (r: Result<Graph, GrError>)
    ensures r == GrSpec(lines)
  {
    var firstLine := false;
    var m := 0;
    var g: Graph := map[];
    for i := 0 to |lines|
      invariant Fold(lines[..i]) == Ok(GrState(firstLine, m, g))
    {
      FoldSnoc(lines[..i], lines[i]);
      assert lines[..i + 1] == lines[..i] + [lines[i]];
      var next := ReadLine(firstLine, m, g, lines[i]);
      if next.Err? {
        ErrorSticks(lines, i + 1);
        return Err(next.error);
      }
      firstLine, m, g := next.value.firstLine, next.value.m, next.value.g;
    }
    assert lines[..|lines|] == lines;
    if !firstLine || m != 0 {
      return Err(WrongEdgeCount);
    }
    return Ok(g);
  }

  /** The body of the reader's loop, on one line. */
  method ReadLine(firstLine: bool, m: int, g: Graph, line: Line) returns (r: Result<GrState, GrError>)
    ensures r == GrStep(GrState(firstLine, m, g), line)
  {
    if |line| == 0 || StartsWith(line, 'c') {
      return Ok(GrState(firstLine, m, g));
    }
    if StartsWith(line, 'p') {
      if firstLine {
        return Err(SecondHeader);
      }
      if |line| != 4 {
        return Err(HeaderArity);
      }
      if line[1] != "tw" {
        return Err(NotTw);
      }
      var n, m' := ParseInt(line[2]), ParseInt(line[3]);
      if n.None? || m'.None? {
        return Err(NotAnInt);
      }
      var g' := AddVertices(g, n.value);
      return Ok(GrState(true, m'.value, g'));
    }
    if !firstLine {
      return Err(NoHeader);
    }
    if |line| != 2 {
      return Err(EdgeArity);
    }
    var pu, pv := ParseInt(line[0]), ParseInt(line[1]);
    if pu.None? || pv.None? {
      return Err(NotAnInt);
    }
    var u, v := pu.value, pv.value;
    if u !in g || v !in g || v in g[u] {
      return Err(BadEdge);
    }
    return Ok(GrState(true, m - 1, g[u := g[u] + [v]]));
  }

  /** `for v in range(1, n+1): G[v] = []`. */
  method AddVertices(g0: Graph, n: int) returns (g: Graph)
    ensures g == g0 + EmptyAdjacency(n)
  {
    g := g0;
    var v := 1;
    while v <= n
      invariant 1 <= v <= if n < 1 then 1 else n + 1
      invariant g == g0 + Isolated(Range(1, v))
    {
      g := g[v := []];
      v := v + 1;
    }
  }

  lemma FoldSnoc(lines: seq<Line>, x: Line)
    ensures Fold(lines + [x]) == match Fold(lines) case Err(e) => Err(e) case Ok(st) => GrStep(st, x)
  {
    assert (lines + [x])[..|lines|] == lines;
  }

  /** Once a prefix of the file fails, the file fails with the same error. */
  lemma {:induction false} ErrorSticks(lines: seq<Line>, k: nat)
    requires k <= |lines| && Fold(lines[..k]).Err?
    ensures GrSpec(lines) == Err(Fold(lines[..k]).error)
    decreases |lines| - k
  {
    if k < |lines| {
      FoldSnoc(lines[..k], lines[k]);
      assert lines[..k + 1] == lines[..k] + [lines[k]];
      ErrorSticks(lines, k + 1);
    } else {
      assert lines[..k] == lines;
    }
  }

  // ---- What the reader accepts, stated on the lines it does not skip ----

  /** The lines the reader does not skip, in file order. */
  function Sig(lines: seq<Line>): seq<Line> {
    if lines == [] then []
    else Sig(lines[..|lines| - 1]) + (if Significant(lines[|lines| - 1]) then [lines[|lines| - 1]] else [])
  }

  /** The vertex set a header declares. */
  function Vertices(n: int): set<int> {
    Range(1, n + 1)
  }

  /** A well-formed header `p tw n m`. */
  predicate Header(line: Line) {
    StartsWith(line, 'p') && |line| == 4 && line[1] == "tw"
    && ParseInt(line[2]).Some? && ParseInt(line[3]).Some?
  }

  function HeaderN(line: Line): int {
    if |line| == 4 && ParseInt(line[2]).Some? then ParseInt(line[2]).value else 0
  }

  function HeaderM(line: Line): int {
    if |line| == 4 && ParseInt(line[3]).Some? then ParseInt(line[3]).value else 0
  }

  /** The ordered pair of a two-number line. */
  function EdgeOf(line: Line): (int, int) {
    if |line| == 2 && ParseInt(line[0]).Some? && ParseInt(line[1]).Some? then
      (ParseInt(line[0]).value, ParseInt(line[1]).value)
    else (0, 0)
  }

  /** A well-formed edge line `u v` between two of the vertices 1..n. */
  predicate EdgeLine(line: Line, n: int) {
    !StartsWith(line, 'p') && |line| == 2 && ParseInt(line[0]).Some? && ParseInt(line[1]).Some?
    && EdgeOf(line).0 in Vertices(n) && EdgeOf(line).1 in Vertices(n)
  }

  /** The pairs of the edge lines `S[1..k]`. */
  function EdgeList(S: seq<Line>, k: nat): seq<(int, int)>
    requires k <= |S|
  {
    if k <= 1 then [] else EdgeList(S, k - 1) + [EdgeOf(S[k - 1])]
  }

  /** The second components of the pairs starting at `u`, in order. */
  function Targets(E: seq<(int, int)>, u: int): seq<int> {
    if E == [] then []
    else Targets(E[..|E| - 1], u) + (if E[|E| - 1].0 == u then [E[|E| - 1].1] else [])
  }

  /** The adjacency lists of the vertices 1..n under the pairs `E`. */
  function GraphOf(n: int, E: seq<(int, int)>): Graph {
    map u | u in Vertices(n) :: Targets(E, u)
  }

  /** The first k significant lines are a header followed by edge lines with distinct pairs. */
  predicate PrefixValid(S: seq<Line>, k: nat)
    requires 1 <= k <= |S|
  {
    Header(S[0])
    && (forall i | 1 <= i < k :: EdgeLine(S[i], HeaderN(S[0])))
    && (forall i, j | 1 <= i < j < k :: EdgeOf(S[i]) != EdgeOf(S[j]))
  }

  /** A `.gr` file the reader accepts: a header, then exactly m edge lines between declared
      vertices, no ordered pair twice. */
  predicate GrValid(lines: seq<Line>) {
    var S := Sig(lines);
    |S| > 0 && PrefixValid(S, |S|) && HeaderM(S[0]) == |S| - 1
  }

  /** The adjacency lists such a file describes. */
  function GrGraph(lines: seq<Line>): Graph
    requires |Sig(lines)| > 0
  {
    var S := Sig(lines);
    GraphOf(HeaderN(S[0]), EdgeList(S, |S|))
  }

  lemma {:induction false} FoldSig(lines: seq<Line>)
    ensures Fold(lines) == Fold(Sig(lines))
    ensures forall i | 0 <= i < |Sig(lines)| :: Significant(Sig(lines)[i])
  {
    if lines != [] {
      var p, x := lines[..|lines| - 1], lines[|lines| - 1];
      FoldSig(p);
      assert lines == p + [x];
      FoldSnoc(p, x);
      if Significant(x) {
        assert Sig(lines) == Sig(p) + [x];
        FoldSnoc(Sig(p), x);
      } else {
        assert Sig(lines) == Sig(p);
      }
    }
  }

  lemma {:induction false} TargetsMember(E: seq<(int, int)>, u: int, v: int)
    ensures v in Targets(E, u) <==> (u, v) in E
  {
    if E != [] {
      var p := E[..|E| - 1];
      TargetsMember(p, u, v);
      assert E == p + [E[|E| - 1]];
    }
  }

  lemma GraphOfSnoc(n: int, E: seq<(int, int)>, e: (int, int))
    requires e.0 in Vertices(n)
    ensures GraphOf(n, E + [e]) == GraphOf(n, E)[e.0 := GraphOf(n, E)[e.0] + [e.1]]
  {
    var g, h := GraphOf(n, E), GraphOf(n, E + [e]);
    var g' := g[e.0 := g[e.0] + [e.1]];
    forall u | u in Vertices(n)
      ensures h[u] == g'[u]
    {
      assert (E + [e])[..|E|] == E;
      if u != e.0 {
        assert Targets(E, u) + [] == Targets(E, u);
      }
    }
    assert h.Keys == g'.Keys;
  }

  lemma {:induction false} EdgeListMember(S: seq<Line>, k: nat, e: (int, int))
    requires k <= |S|
    ensures e in EdgeList(S, k) <==> exists i | 1 <= i < k :: EdgeOf(S[i]) == e
  {
    if k > 1 {
      EdgeListMember(S, k - 1, e);
    }
  }

  lemma PrefixValidStep(S: seq<Line>, k: nat)
    requires 2 <= k <= |S|
    ensures PrefixValid(S, k) <==>
      PrefixValid(S, k - 1) && EdgeLine(S[k - 1], HeaderN(S[0]))
      && forall i | 1 <= i < k - 1 :: EdgeOf(S[i]) != EdgeOf(S[k - 1])
  {
  }

  /** The reader's state after the first k significant lines. */
  lemma {:induction false} FoldPrefix(S: seq<Line>, k: nat)
    requires forall i | 0 <= i < |S| :: Significant(S[i])
    requires 1 <= k <= |S|
    ensures Fold(S[..k]).Ok? <==> PrefixValid(S, k)
    ensures PrefixValid(S, k) ==>
      Fold(S[..k]).value == GrState(true, HeaderM(S[0]) - (k - 1), GraphOf(HeaderN(S[0]), EdgeList(S, k)))
  {
    if k == 1 {
      FoldHeader(S);
    } else {
      FoldPrefix(S, k - 1);
      FoldEdge(S, k);
    }
  }

  lemma FoldHeader(S: seq<Line>)
    requires |S| > 0 && Significant(S[0])
    ensures Fold(S[..1]).Ok? <==> PrefixValid(S, 1)
    ensures PrefixValid(S, 1) ==>
      Fold(S[..1]).value == GrState(true, HeaderM(S[0]), GraphOf(HeaderN(S[0]), []))
  {
    FoldSnoc([], S[0]);
    assert S[..1] == [] + [S[0]];
    if Header(S[0]) {
      var n := HeaderN(S[0]);
      assert map[] + EmptyAdjacency(n) == GraphOf(n, []);
    }
  }

  lemma FoldEdge(S: seq<Line>, k: nat)
    requires 2 <= k <= |S| && Significant(S[k - 1])
    requires Fold(S[..k - 1]).Ok? <==> PrefixValid(S, k - 1)
    requires PrefixValid(S, k - 1) ==>
      Fold(S[..k - 1]).value == GrState(true, HeaderM(S[0]) - (k - 2), GraphOf(HeaderN(S[0]), EdgeList(S, k - 1)))
    ensures Fold(S[..k]).Ok? <==> PrefixValid(S, k)
    ensures PrefixValid(S, k) ==>
      Fold(S[..k]).value == GrState(true, HeaderM(S[0]) - (k - 1), GraphOf(HeaderN(S[0]), EdgeList(S, k)))
  {
    PrefixValidStep(S, k);
    var line := S[k - 1];
    FoldSnoc(S[..k - 1], line);
    assert S[..k] == S[..k - 1] + [line];
    if PrefixValid(S, k - 1) && !StartsWith(line, 'p') {
      var n, E := HeaderN(S[0]), EdgeList(S, k - 1);
      EdgeStepGraph(GrState(true, HeaderM(S[0]) - (k - 2), GraphOf(n, E)), n, E, line);
      EdgeListMember(S, k - 1, EdgeOf(line));
    }
  }

  /** An edge line on a state holding the graph of the pairs `E`. */
  lemma EdgeStepGraph(st: GrState, n: int, E: seq<(int, int)>, line: Line)
    requires st.firstLine && st.g == GraphOf(n, E) && !StartsWith(line, 'p')
    ensures EdgeStep(st, line).Ok? <==> EdgeLine(line, n) && EdgeOf(line) !in E
    ensures EdgeStep(st, line).Ok? ==>
      EdgeStep(st, line).value == GrState(true, st.m - 1, GraphOf(n, E + [EdgeOf(line)]))
  {
    if |line| == 2 && ParseInt(line[0]).Some? && ParseInt(line[1]).Some? {
      var u, v := ParseInt(line[0]).value, ParseInt(line[1]).value;
      assert EdgeOf(line) == (u, v);
      if u in Vertices(n) && v in Vertices(n) {
        EdgeStepAccepts(st, n, E, u, v, line);
      }
    }
  }

  lemma EdgeStepAccepts(st: GrState, n: int, E: seq<(int, int)>, u: int, v: int, line: Line)
    requires st.firstLine && st.g == GraphOf(n, E) && u in Vertices(n) && v in Vertices(n)
    requires |line| == 2 && ParseInt(line[0]) == Some(u) && ParseInt(line[1]) == Some(v)
    ensures EdgeStep(st, line) == if (u, v) in E then Err(BadEdge)
      else Ok(GrState(true, st.m - 1, GraphOf(n, E + [(u, v)])))
  {
    TargetsMember(E, u, v);
    GraphOfSnoc(n, E, (u, v));
  }

  /** The reader succeeds exactly on the files `GrValid` describes, and then returns the
      adjacency lists of their edge lines. */
  lemma GrCorrect(lines: seq<Line>)
    ensures GrSpec(lines).Ok? <==> GrValid(lines)
    ensures GrValid(lines) ==> GrSpec(lines) == Ok(GrGraph(lines))
  {
    FoldSig(lines);
    var S := Sig(lines);
    if |S| > 0 {
      FoldPrefix(S, |S|);
      assert S[..|S|] == S;
    }
  }

  // ---- The graph an accepted file yields ----

  /** The total length of the adjacency lists of the vertices 1..k. */
  function Degrees(g: Graph, k: int): int {
    if k < 1 then 0 else Degrees(g, k - 1) + (if k in g then |g[k]| else 0)
  }

  lemma {:induction false} EdgeListFacts(S: seq<Line>, k: nat)
    requires 1 <= k <= |S|
    ensures |EdgeList(S, k)| == k - 1
    ensures forall i | 0 <= i < k - 1 :: EdgeList(S, k)[i] == EdgeOf(S[i + 1])
  {
    if k > 1 {
      EdgeListFacts(S, k - 1);
    }
  }

  lemma {:induction false} TargetsDistinct(E: seq<(int, int)>, u: int)
    requires Distinct(E)
    ensures Distinct(Targets(E, u))
  {
    if E != [] {
      var p, x := E[..|E| - 1], E[|E| - 1];
      assert Distinct(p);
      TargetsDistinct(p, u);
      if x.0 == u {
        TargetsMember(p, u, x.1);
      }
    }
  }

  lemma {:induction false} DegreesUpdate(g: Graph, u: int, x: int, k: int)
    requires u in g
    ensures Degrees(g[u := g[u] + [x]], k) == Degrees(g, k) + (if 1 <= u <= k then 1 else 0)
  {
    if k >= 1 {
      DegreesUpdate(g, u, x, k - 1);
    }
  }

  lemma {:induction false} DegreesOf(n: int, E: seq<(int, int)>)
    requires forall i | 0 <= i < |E| :: E[i].0 in Vertices(n)
    ensures Degrees(GraphOf(n, E), n) == |E|
  {
    if E == [] {
      DegreesEmpty(GraphOf(n, E), n);
    } else {
      var p, x := E[..|E| - 1], E[|E| - 1];
      DegreesOf(n, p);
      assert E == p + [x];
      GraphOfSnoc(n, p, x);
      DegreesUpdate(GraphOf(n, p), x.0, x.1, n);
    }
  }

  lemma {:induction false} DegreesEmpty(g: Graph, k: int)
    requires forall u | u in g :: g[u] == []
    ensures Degrees(g, k) == 0
  {
    if k >= 1 {
      DegreesEmpty(g, k - 1);
    }
  }

  /** On an accepted file the dictionary has the keys 1..n, the header's m is the number of
      lines after the header and the total length of the lists, no list repeats a vertex,
      and `v` is in the list of `u` exactly when some edge line reads `u v`. */
  lemma GrResult(lines: seq<Line>, g: Graph)
    requires GrSpec(lines) == Ok(g)
    ensures |Sig(lines)| > 0
    ensures var S := Sig(lines); var n := HeaderN(S[0]);
      && g.Keys == Vertices(n)
      && |S| == HeaderM(S[0]) + 1
      && Degrees(g, n) == HeaderM(S[0])
      && (forall u | u in g :: Distinct(g[u]))
      && (forall u, v | u in g :: v in g[u] <==> exists i | 1 <= i < |S| :: EdgeOf(S[i]) == (u, v))
  {
    GrCorrect(lines);
    var S := Sig(lines);
    var n, E := HeaderN(S[0]), EdgeList(S, |S|);
    EdgeListFacts(S, |S|);
    assert Distinct(E);
    assert forall i | 0 <= i < |E| :: E[i].0 in Vertices(n) by {
      forall i | 0 <= i < |E| ensures E[i].0 in Vertices(n) {
        assert EdgeLine(S[i + 1], n);
      }
    }
    DegreesOf(n, E);
    forall u | u in g ensures Distinct(g[u]) {
      TargetsDistinct(E, u);
    }
    forall u, v | u in g ensures v in g[u] <==> exists i | 1 <= i < |S| :: EdgeOf(S[i]) == (u, v) {
      TargetsMember(E, u, v);
      EdgeListMember(S, |S|, (u, v));
    }
  }

  // ---- Where a line lands among the significant ones ----

  /** The index in `Sig(lines)` of the significant line `lines[i]`. */
  function Pos(lines: seq<Line>, i: nat): nat
    requires i <= |lines|
  {
    |Sig(lines[..i])|
  }

  lemma {:induction false} SigPrefix(lines: seq<Line>, i: nat, j: nat)
    requires i <= j <= |lines|
    ensures |Sig(lines[..i])| <= |Sig(lines[..j])|
    ensures Sig(lines[..j])[..|Sig(lines[..i])|] == Sig(lines[..i])
    decreases j - i
  {
    if i < j {
      SigPrefix(lines, i, j - 1);
      assert lines[..j][..j - 1] == lines[..j - 1];
    }
  }

  lemma SigAt(lines: seq<Line>, i: nat)
    requires i < |lines| && Significant(lines[i])
    ensures Pos(lines, i) < |Sig(lines)| && Sig(lines)[Pos(lines, i)] == lines[i]
  {
    assert lines[..i + 1][..i] == lines[..i];
    assert Sig(lines[..i + 1]) == Sig(lines[..i]) + [lines[i]];
    SigPrefix(lines, i + 1, |lines|);
    assert lines[..|lines|] == lines;
  }

  lemma SigOrder(lines: seq<Line>, i: nat, j: nat)
    requires i < j < |lines| && Significant(lines[i])
    ensures Pos(lines, i) < Pos(lines, j)
  {
    assert lines[..i + 1][..i] == lines[..i];
    SigPrefix(lines, i + 1, j);
  }

  lemma {:induction false} SigSubset(lines: seq<Line>)
    ensures forall x | x in Sig(lines) :: x in lines
  {
    if lines != [] {
      SigSubset(lines[..|lines| - 1]);
    }
  }

  /** Every significant line comes from the file. */
  lemma {:induction false} SigOrigin(lines: seq<Line>, a: nat) returns (i: nat)
    requires a < |Sig(lines)|
    ensures i < |lines| && lines[i] == Sig(lines)[a]
  {
    var p := lines[..|lines| - 1];
    if a < |Sig(p)| {
      i := SigOrigin(p, a);
    } else {
      i := |lines| - 1;
    }
  }

  /** Every non-skipped line of an accepted file after the header is an edge line. */
  lemma ValidShape(lines: seq<Line>, i: nat)
    requires GrValid(lines) && i < |lines| && Significant(lines[i])
    ensures Pos(lines, i) == 0 <==> StartsWith(lines[i], 'p')
    ensures Pos(lines, i) == 0 ==> Header(lines[i])
    ensures Pos(lines, i) > 0 ==> EdgeLine(lines[i], HeaderN(Sig(lines)[0]))
  {
    SigAt(lines, i);
  }

  // ---- The rejections ----

  /** A file without a `p` line is rejected. */
  lemma GrRejectsMissingHeader(lines: seq<Line>)
    requires forall i | 0 <= i < |lines| :: !StartsWith(lines[i], 'p')
    ensures GrSpec(lines).Err?
  {
    GrCorrect(lines);
    if GrValid(lines) {
      var i := SigOrigin(lines, 0);
    }
  }

  /** Two `p` lines are rejected. */
  lemma GrRejectsSecondHeader(lines: seq<Line>, i: nat, j: nat)
    requires i < j < |lines| && StartsWith(lines[i], 'p') && StartsWith(lines[j], 'p')
    ensures GrSpec(lines).Err?
  {
    GrCorrect(lines);
    if GrValid(lines) {
      SigOrder(lines, i, j);
      ValidShape(lines, j);
    }
  }

  /** A `p` line that is not `p tw <int> <int>` is rejected. */
  lemma GrRejectsBadHeader(lines: seq<Line>, i: nat)
    requires i < |lines| && StartsWith(lines[i], 'p') && !Header(lines[i])
    ensures GrSpec(lines).Err?
  {
    GrCorrect(lines);
    if GrValid(lines) {
      ValidShape(lines, i);
    }
  }

  /** A non-comment line before the header is rejected. */
  lemma GrRejectsEdgeBeforeHeader(lines: seq<Line>, i: nat, j: nat)
    requires i < j < |lines| && Significant(lines[i]) && StartsWith(lines[j], 'p')
    ensures GrSpec(lines).Err?
  {
    GrCorrect(lines);
    if GrValid(lines) {
      SigOrder(lines, i, j);
      ValidShape(lines, j);
    }
  }

  /** A line after the header that is not two numbers is rejected. */
  lemma GrRejectsBadEdgeLine(lines: seq<Line>, i: nat)
    requires i < |lines| && Significant(lines[i]) && !StartsWith(lines[i], 'p')
    requires |lines[i]| != 2 || ParseInt(lines[i][0]).None? || ParseInt(lines[i][1]).None?
    ensures GrSpec(lines).Err?
  {
    GrCorrect(lines);
    if GrValid(lines) {
      ValidShape(lines, i);
    }
  }

  /** An edge line naming a vertex outside 1..n of the header `lines[h]` is rejected. */
  lemma GrRejectsUndeclared(lines: seq<Line>, h: nat, i: nat)
    requires h < |lines| && i < |lines| && StartsWith(lines[h], 'p')
    requires Significant(lines[i]) && !StartsWith(lines[i], 'p')
    requires EdgeOf(lines[i]).0 !in Vertices(HeaderN(lines[h])) || EdgeOf(lines[i]).1 !in Vertices(HeaderN(lines[h]))
    ensures GrSpec(lines).Err?
  {
    GrCorrect(lines);
    if GrValid(lines) {
      ValidShape(lines, h);
      ValidShape(lines, i);
      SigAt(lines, h);
    }
  }

  /** The same ordered pair on two edge lines is rejected. */
  lemma GrRejectsRepeatedPair(lines: seq<Line>, i: nat, j: nat)
    requires i < j < |lines| && Significant(lines[i]) && Significant(lines[j])
    requires !StartsWith(lines[i], 'p') && !StartsWith(lines[j], 'p')
    requires EdgeOf(lines[i]) == EdgeOf(lines[j])
    ensures GrSpec(lines).Err?
  {
    GrCorrect(lines);
    if GrValid(lines) {
      SigOrder(lines, i, j);
      ValidShape(lines, i);
      ValidShape(lines, j);
      SigAt(lines, i);
      SigAt(lines, j);
    }
  }

  /** Only the ordered pair is checked: `u v` followed by `v u` is accepted, and so is a
      loop `v v`. */
  lemma GrAcceptsReversedPair()
    ensures GrSpec(ReversedPairFile) == Ok(map[1 := [2], 2 := [1, 2]])
  {
    ReversedPairValid();
    GrCorrect(ReversedPairFile);
    ReversedPairGraph();
  }

  const ReversedPairFile: seq<Line> := [["p", "tw", "2", "3"], ["1", "2"], ["2", "1"], ["2", "2"]]

  lemma ReversedPairSig()
    ensures Sig(ReversedPairFile) == ReversedPairFile
  {
    var lines := ReversedPairFile;
    assert Sig(lines[..1]) == lines[..1];
    assert Sig(lines[..2]) == lines[..2] by { assert lines[..2][..1] == lines[..1]; }
    assert Sig(lines[..3]) == lines[..3] by { assert lines[..3][..2] == lines[..2]; }
    assert lines[..3] == lines[..|lines| - 1];
  }

  lemma ReversedPairValid()
    ensures GrValid(ReversedPairFile)
  {
    SmallNumbers();
    ReversedPairSig();
  }

  lemma ReversedPairGraph()
    ensures |Sig(ReversedPairFile)| > 0 && GrGraph(ReversedPairFile) == map[1 := [2], 2 := [1, 2]]
  {
    SmallNumbers();
    ReversedPairSig();
    var lines := ReversedPairFile;
    var E := EdgeList(lines, 4);
    assert E == [(1, 2), (2, 1), (2, 2)];
    ReversedPairTargets(E);
    assert Vertices(2) == {1, 2};
    var g := GrGraph(lines);
    assert g == GraphOf(2, E);
    assert g.Keys == {1, 2} && g[1] == [2] && g[2] == [1, 2];
  }

  lemma ReversedPairTargets(E: seq<(int, int)>)
    requires E == [(1, 2), (2, 1), (2, 2)]
    ensures Targets(E, 1) == [2] && Targets(E, 2) == [1, 2]
  {
    assert E[..2] == [(1, 2), (2, 1)] && E[..2][..1] == [(1, 2)] && E[..2][..1][..0] == [];
    assert Targets([(1, 2)], 1) == [2] && Targets([(1, 2)], 2) == [];
    assert Targets(E[..2], 1) == [2] + [];
    assert Targets(E[..2], 2) == [1];
  }
}
