/** `read_td`: the reader of a PACE `.td` tree-decomposition file. A header line
    `s td <bags> <width> <vertices>`, bag lines `b <id> <v>...`, and tree-edge lines
    `<id> <id>`, each of which records the pair of the two bags' vertex sets as they are
    declared at that point. Lines that are blank or start with `c` are comments. The source
    hands the recorded pairs to Sage's `Graph`; here the reader returns the list itself. */
module TdParser {
  import opened Tokens

  /** The exceptions the reader raises. */
  datatype TdError =
    | SecondHeader  // a second line starting with `s` (ValueError)
    | HeaderArity   // a header that is not five tokens (ValueError from the unpacking)
    | NotTd         // a header whose second token is not `td` (ValueError)
    | NoHeader      // a bag line before the header (ValueError)
    | MissingId     // a bag line with no id token (IndexError)
    | NotAnInt      // a bag id that is not a number (ValueError)
    | BadVertex     // a bag vertex that is not a number (TypeError from `Integer`)
    | BadEdgeLine   // a tree-edge line that is not two numbers (ValueError)
    | UnknownBag    // a tree-edge line naming an undeclared bag id (KeyError)

  /** One tree edge: the vertex sets of its two bags. */
  type BagPair = (set<int>, set<int>)

  /** The reader's variables between two lines. */
  datatype TdState = TdState(firstLine: bool, bags: map<int, set<int>>, bagEdges: seq<BagPair>)

  const Start := TdState(false, map[], [])

  /** A line the reader does not skip. */
  predicate Significant(line: Line) {
    |line| > 0 && !StartsWith(line, 'c')
  }

  /** `Set([Integer(v) for v in tokens])`, or `None` when a token is not a number. */
  function VertexSet(tokens: seq<string>): Option<set<int>> {
    if tokens == [] then Some({})
    else
      match (VertexSet(tokens[..|tokens| - 1]), ParseInt(tokens[|tokens| - 1]))
      case (Some(s), Some(v)) => Some(s + {v})
      case _ => None
  }

  /** What one line does to the reader's state. */
  function TdStep(st: TdState, line: Line): Result<TdState, TdError> {
    if !Significant(line) then Ok(st)
    else if StartsWith(line, 's') then HeaderStep(st, line)
    else if StartsWith(line, 'b') then BagStep(st, line)
    else EdgeStep(st, line)
  }

  /** An `s` line. */
  function HeaderStep(st: TdState, line: Line): Result<TdState, TdError> {
    if st.firstLine then Err(SecondHeader)
    else if |line| != 5 then Err(HeaderArity)
    else if line[1] != "td" then Err(NotTd)
    else Ok(st.(firstLine := true))
  }

  /** A `b` line. */
  function BagStep(st: TdState, line: Line): Result<TdState, TdError> {
    if !st.firstLine then Err(NoHeader)
    else if |line| < 2 then Err(MissingId)
    else if ParseInt(line[1]).None? then Err(NotAnInt)
    else if VertexSet(line[2..]).None? then Err(BadVertex)
    else Ok(st.(bags := st.bags[ParseInt(line[1]).value := VertexSet(line[2..]).value]))
  }

  /** Any other line that is not skipped: a tree edge. */
  function EdgeStep(st: TdState, line: Line): Result<TdState, TdError> {
    if |line| != 2 || ParseInt(line[0]).None? || ParseInt(line[1]).None? then Err(BadEdgeLine)
    else
      var u, v := ParseInt(line[0]).value, ParseInt(line[1]).value;
      if u !in st.bags || v !in st.bags then Err(UnknownBag)
      else Ok(st.(bagEdges := st.bagEdges + [(st.bags[u], st.bags[v])]))
  }

  /** The state after the given lines, or the first error. */
  function Fold(lines: seq<Line>): Result<TdState, TdError> {
    if lines == [] then Ok(Start)
    else
      match Fold(lines[..|lines| - 1])
      case Err(e) => Err(e)
      case Ok(st) => TdStep(st, lines[|lines| - 1])
  }

  /** The reader's outcome on a whole file: the recorded tree edges, in file order. */
  function TdSpec(lines: seq<Line>): Result<seq<BagPair>, TdError> {
    match Fold(lines)
    case Err(e) => Err(e)
    case Ok(st) => Ok(st.bagEdges)
  }

  /** The reader itself: a loop over the lines with an early exit on the first error. */
  method ReadTd(lines: seq<Line>) returns (r: Result<seq<BagPair>, TdError>)
    ensures r == TdSpec(lines)
  {
    var firstLine := false;
    var bags: map<int, set<int>> := map[];
    var bagEdges: seq<BagPair> := [];
    for i := 0 to |lines|
      invariant Fold(lines[..i]) == Ok(TdState(firstLine, bags, bagEdges))
    {
      FoldSnoc(lines[..i], lines[i]);
      assert lines[..i + 1] == lines[..i] + [lines[i]];
      var next := ReadLine(firstLine, bags, bagEdges, lines[i]);
      if next.Err? {
        ErrorSticks(lines, i + 1);
        return Err(next.error);
      }
      firstLine, bags, bagEdges := next.value.firstLine, next.value.bags, next.value.bagEdges;
    }
    assert lines[..|lines|] == lines;
    return Ok(bagEdges);
  }

  /** The body of the reader's loop, on one line. */
  method ReadLine(firstLine: bool, bags: map<int, set<int>>, bagEdges: seq<BagPair>, line: Line)
    returns (r: Result<TdState, TdError>)
    ensures r == TdStep(TdState(firstLine, bags, bagEdges), line)
  {
    if |line| == 0 || StartsWith(line, 'c') {
      return Ok(TdState(firstLine, bags, bagEdges));
    }
    if StartsWith(line, 's') {
      if firstLine {
        return Err(SecondHeader);
      }
      if |line| != 5 {
        return Err(HeaderArity);
      }
      if line[1] != "td" {
        return Err(NotTd);
      }
      return Ok(TdState(true, bags, bagEdges));
    }
    if StartsWith(line, 'b') {
      if !firstLine {
        return Err(NoHeader);
      }
      if |line| < 2 {
        return Err(MissingId);
      }
      var bagId := ParseInt(line[1]);
      if bagId.None? {
        return Err(NotAnInt);
      }
      var vertices := ParseVertices(line[2..]);
      if vertices.None? {
        return Err(BadVertex);
      }
      return Ok(TdState(firstLine, bags[bagId.value := vertices.value], bagEdges));
    }
    if |line| != 2 || ParseInt(line[0]).None? || ParseInt(line[1]).None? {
      return Err(BadEdgeLine);
    }
    var u, v := ParseInt(line[0]).value, ParseInt(line[1]).value;
    if u !in bags || v !in bags {
      return Err(UnknownBag);
    }
    return Ok(TdState(firstLine, bags, bagEdges + [(bags[u], bags[v])]));
  }

  /** `[Integer(v) for v in tokens]`, collected into a set. */
  method ParseVertices(tokens: seq<string>) returns (r: Option<set<int>>)
    ensures r == VertexSet(tokens)
  {
    var s: set<int> := {};
    for k := 0 to |tokens|
      invariant VertexSet(tokens[..k]) == Some(s)
    {
      assert tokens[..k + 1][..k] == tokens[..k];
      var v := ParseInt(tokens[k]);
      if v.None? {
        ErrorSticksInTokens(tokens, k + 1);
        return None;
      }
      s := s + {v.value};
    }
    assert tokens[..|tokens|] == tokens;
    return Some(s);
  }

  lemma {:induction false} ErrorSticksInTokens(tokens: seq<string>, k: nat)
    requires k <= |tokens| && VertexSet(tokens[..k]).None?
    ensures VertexSet(tokens).None?
    decreases |tokens| - k
  {
    if k < |tokens| {
      assert tokens[..k + 1][..k] == tokens[..k];
      ErrorSticksInTokens(tokens, k + 1);
    } else {
      assert tokens[..k] == tokens;
    }
  }

  lemma FoldSnoc(lines: seq<Line>, x: Line)
    ensures Fold(lines + [x]) == match Fold(lines) case Err(e) => Err(e) case Ok(st) => TdStep(st, x)
  {
    assert (lines + [x])[..|lines|] == lines;
  }

  /** Once a prefix of the file fails, the file fails with the same error. */
  lemma {:induction false} ErrorSticks(lines: seq<Line>, k: nat)
    requires k <= |lines| && Fold(lines[..k]).Err?
    ensures TdSpec(lines) == Err(Fold(lines[..k]).error)
    decreases |lines| - k
  {
    if k < |lines| {
      FoldSnoc(lines[..k], lines[k]);
      assert lines[..k + 1] == lines[..k] + [lines[k]];
      ErrorSticks(lines, k + 1);
    } else {
      assert lines[..k] == lines;
    }
  }

  // ---- What the reader accepts, stated line by line ----

  predicate HeaderLine(line: Line) {
    StartsWith(line, 's')
  }

  predicate BagLine(line: Line) {
    !StartsWith(line, 's') && StartsWith(line, 'b')
  }

  /** A line the reader treats as a tree edge. */
  predicate TreeEdgeLine(line: Line) {
    Significant(line) && !StartsWith(line, 's') && !StartsWith(line, 'b')
  }

  predicate WellFormedBag(line: Line) {
    |line| >= 2 && ParseInt(line[1]).Some? && VertexSet(line[2..]).Some?
  }

  predicate WellFormedEdge(line: Line) {
    |line| == 2 && ParseInt(line[0]).Some? && ParseInt(line[1]).Some?
  }

  /** Some line is a header. */
  predicate HasHeader(lines: seq<Line>) {
    lines != [] && (HasHeader(lines[..|lines| - 1]) || HeaderLine(lines[|lines| - 1]))
  }

  /** The vertex set of the last well-formed bag line with id `x`, if any. */
  function Declared(lines: seq<Line>, x: int): Option<set<int>> {
    if lines == [] then None
    else
      var line := lines[|lines| - 1];
      if BagLine(line) && WellFormedBag(line) && ParseInt(line[1]).value == x then VertexSet(line[2..])
      else Declared(lines[..|lines| - 1], x)
  }

  function BagAt(lines: seq<Line>, x: int): set<int> {
    match Declared(lines, x)
    case Some(s) => s
    case None => {}
  }

  /** Whether the reader gets past `line` after reading `before`. */
  predicate LineAccepted(before: seq<Line>, line: Line) {
    if !Significant(line) then true
    else if HeaderLine(line) then !HasHeader(before) && |line| == 5 && line[1] == "td"
    else if BagLine(line) then HasHeader(before) && WellFormedBag(line)
    else
      WellFormedEdge(line)
      && Declared(before, ParseInt(line[0]).value).Some?
      && Declared(before, ParseInt(line[1]).value).Some?
  }

  /** A `.td` file the reader accepts. */
  predicate TdValid(lines: seq<Line>) {
    forall i | 0 <= i < |lines| :: LineAccepted(lines[..i], lines[i])
  }

  /** For each tree-edge line in order, the bags its two ids name at that line. */
  function TreeEdges(lines: seq<Line>): seq<BagPair> {
    if lines == [] then []
    else
      var before, line := lines[..|lines| - 1], lines[|lines| - 1];
      TreeEdges(before)
      + if TreeEdgeLine(line) && WellFormedEdge(line) then
          [(BagAt(before, ParseInt(line[0]).value), BagAt(before, ParseInt(line[1]).value))]
        else []
  }

  /** The reader's state describes the lines read so far. */
  ghost predicate Describes(st: TdState, lines: seq<Line>) {
    && st.firstLine == HasHeader(lines)
    && (forall x :: x in st.bags <==> Declared(lines, x).Some?)
    && (forall x | x in st.bags :: Declared(lines, x) == Some(st.bags[x]))
    && st.bagEdges == TreeEdges(lines)
  }

  lemma TdValidSnoc(lines: seq<Line>, x: Line)
    ensures TdValid(lines + [x]) <==> TdValid(lines) && LineAccepted(lines, x)
  {
    var l := lines + [x];
    assert l[..|lines|] == lines;
    forall i | 0 <= i < |lines| ensures l[..i] == lines[..i] && l[i] == lines[i] {
    }
  }

  lemma StepDescribes(st: TdState, lines: seq<Line>, x: Line)
    requires Describes(st, lines)
    ensures TdStep(st, x).Ok? <==> LineAccepted(lines, x)
    ensures TdStep(st, x).Ok? ==> Describes(TdStep(st, x).value, lines + [x])
  {
    if !Significant(x) {
      SkipDescribes(st, lines, x);
    } else if StartsWith(x, 's') {
      HeaderDescribes(st, lines, x);
    } else if StartsWith(x, 'b') {
      BagDescribes(st, lines, x);
    } else {
      EdgeDescribes(st, lines, x);
    }
  }

  lemma SkipDescribes(st: TdState, lines: seq<Line>, x: Line)
    requires Describes(st, lines) && !Significant(x)
    ensures LineAccepted(lines, x) && Describes(st, lines + [x])
  {
    var l := lines + [x];
    assert l[..|l| - 1] == lines && l[|l| - 1] == x;
  }

  lemma HeaderDescribes(st: TdState, lines: seq<Line>, x: Line)
    requires Describes(st, lines) && HeaderLine(x)
    ensures HeaderStep(st, x).Ok? <==> LineAccepted(lines, x)
    ensures HeaderStep(st, x).Ok? ==> Describes(HeaderStep(st, x).value, lines + [x])
  {
    var l := lines + [x];
    assert l[..|l| - 1] == lines && l[|l| - 1] == x;
  }

  lemma BagDescribes(st: TdState, lines: seq<Line>, x: Line)
    requires Describes(st, lines) && BagLine(x)
    ensures BagStep(st, x).Ok? <==> LineAccepted(lines, x)
    ensures BagStep(st, x).Ok? ==> Describes(BagStep(st, x).value, lines + [x])
  {
    var l := lines + [x];
    assert l[..|l| - 1] == lines && l[|l| - 1] == x;
    if BagStep(st, x).Ok? {
      var st' := BagStep(st, x).value;
      forall y ensures y in st'.bags <==> Declared(l, y).Some? {
      }
      forall y | y in st'.bags ensures Declared(l, y) == Some(st'.bags[y]) {
      }
    }
  }

  lemma EdgeDescribes(st: TdState, lines: seq<Line>, x: Line)
    requires Describes(st, lines) && TreeEdgeLine(x)
    ensures EdgeStep(st, x).Ok? <==> LineAccepted(lines, x)
    ensures EdgeStep(st, x).Ok? ==> Describes(EdgeStep(st, x).value, lines + [x])
  {
    var l := lines + [x];
    assert l[..|l| - 1] == lines && l[|l| - 1] == x;
    if EdgeStep(st, x).Ok? {
      var u, v := ParseInt(x[0]).value, ParseInt(x[1]).value;
      assert BagAt(lines, u) == st.bags[u] && BagAt(lines, v) == st.bags[v];
    }
  }

  lemma {:induction false} FoldDescribes(lines: seq<Line>)
    ensures Fold(lines).Ok? <==> TdValid(lines)
    ensures Fold(lines).Ok? ==> Describes(Fold(lines).value, lines)
  {
    if lines != [] {
      var p, x := lines[..|lines| - 1], lines[|lines| - 1];
      FoldDescribes(p);
      assert lines == p + [x];
      TdValidSnoc(p, x);
      if Fold(p).Ok? {
        StepDescribes(Fold(p).value, p, x);
      }
    }
  }

  /** The reader succeeds exactly on the files `TdValid` describes, and then returns, in
      file order, one pair per tree-edge line: the bags its ids name at that line. */
  lemma TdCorrect(lines: seq<Line>)
    ensures TdSpec(lines).Ok? <==> TdValid(lines)
    ensures TdValid(lines) ==> TdSpec(lines) == Ok(TreeEdges(lines))
  {
    FoldDescribes(lines);
  }

  // ---- Consequences ----

  lemma {:induction false} HasHeaderAt(lines: seq<Line>, i: nat)
    requires i < |lines| && HeaderLine(lines[i])
    ensures HasHeader(lines)
  {
    if i < |lines| - 1 {
      HasHeaderAt(lines[..|lines| - 1], i);
    }
  }

  lemma {:induction false} NoHeaderYet(lines: seq<Line>)
    requires forall i | 0 <= i < |lines| :: !HeaderLine(lines[i])
    ensures !HasHeader(lines)
  {
    if lines != [] {
      NoHeaderYet(lines[..|lines| - 1]);
    }
  }

  /** An id no earlier well-formed bag line declares has no bag. */
  lemma {:induction false} Undeclared(lines: seq<Line>, x: int)
    requires forall i | 0 <= i < |lines| :: !(BagLine(lines[i]) && WellFormedBag(lines[i]) && ParseInt(lines[i][1]) == Some(x))
    ensures Declared(lines, x).None?
  {
    if lines != [] {
      Undeclared(lines[..|lines| - 1], x);
    }
  }

  /** The last bag line with id `x` decides the bag of `x`: a later line replaces an earlier. */
  lemma {:induction false} LastDeclarationWins(lines: seq<Line>, i: nat, x: int)
    requires i < |lines| && BagLine(lines[i]) && WellFormedBag(lines[i]) && ParseInt(lines[i][1]) == Some(x)
    requires forall j | i < j < |lines| :: !(BagLine(lines[j]) && WellFormedBag(lines[j]) && ParseInt(lines[j][1]) == Some(x))
    ensures Declared(lines, x) == VertexSet(lines[i][2..])
  {
    if i < |lines| - 1 {
      LastDeclarationWins(lines[..|lines| - 1], i, x);
    }
  }

  /** A second `s` line is rejected. */
  lemma TdRejectsSecondHeader(lines: seq<Line>, i: nat, j: nat)
    requires i < j < |lines| && HeaderLine(lines[i]) && HeaderLine(lines[j])
    ensures TdSpec(lines).Err?
  {
    TdCorrect(lines);
    HasHeaderAt(lines[..j], i);
  }

  /** A header that is not five tokens with `td` second is rejected. */
  lemma TdRejectsBadHeader(lines: seq<Line>, i: nat)
    requires i < |lines| && HeaderLine(lines[i]) && (|lines[i]| != 5 || lines[i][1] != "td")
    ensures TdSpec(lines).Err?
  {
    TdCorrect(lines);
  }

  /** A bag line before any `s` line is rejected. */
  lemma TdRejectsBagBeforeHeader(lines: seq<Line>, j: nat)
    requires j < |lines| && BagLine(lines[j])
    requires forall i | 0 <= i < j :: !HeaderLine(lines[i])
    ensures TdSpec(lines).Err?
  {
    TdCorrect(lines);
    NoHeaderYet(lines[..j]);
  }

  /** A tree-edge line naming an id that no earlier bag line declares is rejected. */
  lemma TdRejectsUndeclared(lines: seq<Line>, j: nat, x: int)
    requires j < |lines| && TreeEdgeLine(lines[j]) && WellFormedEdge(lines[j])
    requires ParseInt(lines[j][0]) == Some(x) || ParseInt(lines[j][1]) == Some(x)
    requires forall i | 0 <= i < j :: !(BagLine(lines[i]) && WellFormedBag(lines[i]) && ParseInt(lines[i][1]) == Some(x))
    ensures TdSpec(lines).Err?
  {
    TdCorrect(lines);
    Undeclared(lines[..j], x);
  }

  /** The reader does not insist on a header: a file of comments yields no tree edges. */
  lemma TdAcceptsCommentsOnly(lines: seq<Line>)
    requires forall i | 0 <= i < |lines| :: !Significant(lines[i])
    ensures TdSpec(lines) == Ok([])
  {
    TdCorrect(lines);
    CommentsOnlyNoEdges(lines);
  }

  lemma {:induction false} CommentsOnlyNoEdges(lines: seq<Line>)
    requires forall i | 0 <= i < |lines| :: !Significant(lines[i])
    ensures TreeEdges(lines) == []
  {
    if lines != [] {
      CommentsOnlyNoEdges(lines[..|lines| - 1]);
    }
  }

  lemma {:induction false} TreeEdgesPrefix(lines: seq<Line>, i: nat, j: nat)
    requires i <= j <= |lines|
    ensures |TreeEdges(lines[..i])| <= |TreeEdges(lines[..j])|
    ensures TreeEdges(lines[..j])[..|TreeEdges(lines[..i])|] == TreeEdges(lines[..i])
    decreases j - i
  {
    if i < j {
      TreeEdgesPrefix(lines, i, j - 1);
      assert lines[..j][..j - 1] == lines[..j - 1];
    }
  }

  /** On an accepted file, the pair of the tree-edge line `lines[j]` sits at index
      `|TreeEdges(lines[..j])|` of the result, so earlier lines come first, and holds the
      bags the two ids name at that line. */
  lemma TdEdgeAt(lines: seq<Line>, j: nat)
    requires TdValid(lines) && j < |lines| && TreeEdgeLine(lines[j])
    ensures WellFormedEdge(lines[j]) && TdSpec(lines).Ok?
    ensures var k, r := |TreeEdges(lines[..j])|, TdSpec(lines).value;
      && k < |r|
      && r[k] == (BagAt(lines[..j], ParseInt(lines[j][0]).value), BagAt(lines[..j], ParseInt(lines[j][1]).value))
      && Declared(lines[..j], ParseInt(lines[j][0]).value).Some?
      && Declared(lines[..j], ParseInt(lines[j][1]).value).Some?
  {
    TdCorrect(lines);
    assert LineAccepted(lines[..j], lines[j]);
    TreeEdgeAt(lines, j);
  }

  lemma TreeEdgeAt(lines: seq<Line>, j: nat)
    requires j < |lines| && TreeEdgeLine(lines[j]) && WellFormedEdge(lines[j])
    ensures var k := |TreeEdges(lines[..j])|;
      && k < |TreeEdges(lines)|
      && TreeEdges(lines)[k] == (BagAt(lines[..j], ParseInt(lines[j][0]).value), BagAt(lines[..j], ParseInt(lines[j][1]).value))
  {
    assert lines[..j + 1][..j] == lines[..j];
    TreeEdgesPrefix(lines, j + 1, |lines|);
    assert lines[..|lines|] == lines;
  }

  lemma TdEdgeOrder(lines: seq<Line>, i: nat, j: nat)
    requires i < j <= |lines| && TreeEdgeLine(lines[i]) && WellFormedEdge(lines[i])
    ensures |TreeEdges(lines[..i])| < |TreeEdges(lines[..j])|
  {
    assert lines[..i + 1][..i] == lines[..i];
    TreeEdgesPrefix(lines, i + 1, j);
  }

  /** `b 1 1 2` followed by `b 1 3`: the tree edge `1 1` after both sees bag 1 as {3}. */
  lemma TdLaterBagReplaces()
    ensures TdSpec(ReplacedBagFile) == Ok([({3}, {3})])
  {
    var lines := ReplacedBagFile;
    SmallNumbers();
    VertexSetOne("3");
    assert VertexSet(lines[1][2..]).Some? by {
      assert lines[1][2..] == ["1", "2"] && ["1", "2"][..1] == ["1"] && ["1"][..0] == [];
    }
    assert lines[2][2..] == ["3"];
    LastDeclarationWins(lines[..3], 2, 1);
    HasHeaderAt(lines[..1], 0);
    HasHeaderAt(lines[..2], 0);
    assert TdValid(lines);
    TdCorrect(lines);
    assert lines[..3] == lines[..|lines| - 1];
    assert TreeEdges(lines[..3]) == [] by {
      CommentsOrBagsNoEdges(lines[..3]);
    }
    assert Declared(lines[..3], 1) == Some({3});
    assert BagAt(lines[..3], 1) == {3};
    assert TreeEdgeLine(lines[3]) && WellFormedEdge(lines[3]);
    assert TreeEdges(lines) == [] + [({3}, {3})];
    assert [] + [({3}, {3})] == [({3}, {3})];
    assert TdSpec(lines) == Ok([({3}, {3})]);
  }

  const ReplacedBagFile: seq<Line> := [["s", "td", "1", "2", "3"], ["b", "1", "1", "2"], ["b", "1", "3"], ["1", "1"]]

  lemma VertexSetOne(t: string)
    requires ParseInt(t).Some?
    ensures VertexSet([t]) == Some({ParseInt(t).value})
  {
    assert [t][..0] == [];
    assert VertexSet([]) == Some({});
    assert {} + {ParseInt(t).value} == {ParseInt(t).value};
  }

  lemma {:induction false} CommentsOrBagsNoEdges(lines: seq<Line>)
    requires forall i | 0 <= i < |lines| :: !TreeEdgeLine(lines[i])
    ensures TreeEdges(lines) == []
  {
    if lines != [] {
      CommentsOrBagsNoEdges(lines[..|lines| - 1]);
    }
  }
}
