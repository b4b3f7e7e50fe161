# Minimum dominating set over a nice tree decomposition

This project models the two halves of valleee/min-dominating-set in Dafny:

- `read.py` reads a PACE `.gr` graph file and a `.td` tree-decomposition file. It then
  decides, for each node of the labelled nice tree decomposition, which graph edges are
  introduced there, and checks that every edge was introduced.
- `decomp.cpp` builds one `Bag` per node. Each bag holds a table with one cost per colouring
  of its vertices: White (must be dominated), Black (in the dominating set), or Grey (need
  not be dominated). The tables are filled bottom-up by the introduce, forget, join and
  introduce-edge transitions. The root reports the least entry of its only child.

Modules, one per concern:

- `Tokens` (`tokens.dfy`): lines as token lists and `int()`.
- `GrParser` (`gr_parser.dfy`): `gr_to_graph_library`.
- `TdParser` (`td_parser.dfy`): `read_td`.
- `Scheduler` (`scheduler.dfy`): the introduce-edge loop of `read.py`.
- `Colors` (`colors.dfy`): colours, costs and `ColoringEquality`.
- `Tables` (`tables.dfy`): what the two backtrackings produce, and the specification
  function of each transition.
- `Transitions` (`transitions.dfy`): properties of the transitions.
- `Bags` (`bag.dfy`): the `Bag` class, its constructor and the in-place transitions.
- `Traversal` (`traversal.dfy`): the logic part of `main`.

## How things are represented

- A colouring is a `map<int, Color>`. The source's interned `(vertex, colour)` pair lists,
  compared in any order, are modelled as values. `Colors.SameColoringIffSameMap` justifies
  this for pair lists that repeat no vertex.
- `INT_MAX` is the `Inf` case of `Cost = Fin(n) | Inf`. `Min`, `Inc` and `Combine` spell out
  how the source saturates at infinity.
- Each parser is one `method` with a `for` loop over the input lines. It is proved equal to a
  fold of a per-line step function (`GrSpec`, `TdSpec`). That fold is then proved equal to a
  declarative description of the accepted files (`GrValid`/`GrGraph`,
  `TdValid`/`TreeEdges`).
- The `Bag` transitions are methods of a class whose table field `c` they rewrite entry by
  entry. Each method's `ensures` ties the new table to a function of the old table and the
  children's tables. The properties are proved as lemmas about those functions.

## Model

| member | source | states |
|---|---|---|
| `Tokens.ParseInt` | read.py:23-24 | `int(token)` succeeds exactly on an optional sign followed by ASCII digits |
| `Tokens.ParseIntRoundTrip` | read.py:23-24 | `int(str(n)) == n` for every integer n |
| `Tokens.ParseIntRejects` | read.py:31-32 | a token with a non-digit anywhere except a leading sign is not a number |
| `GrParser.GrToGraphLibrary` | read.py:6-41 | the line loop returns exactly the fold of the per-line rules, including the first error raised |
| `GrParser.AddVertices` | read.py:25-26 | the `range(1, n+1)` loop adds an empty adjacency list for each of 1..n and keeps the other keys |
| `GrParser.ErrorSticks` | read.py:17-39 | once a line raises, the whole parse fails with that error |
| `GrParser.GrCorrect` | read.py:6-41 | the parse succeeds if and only if the file has one `p tw n m` header first, then exactly m edge lines with declared, distinct ordered pairs; on success the result is the adjacency of those edge lines |
| `GrParser.GrResult` | read.py:25-39 | on success the keys are exactly 1..n, there are m edge lines, the lists hold m entries in total, no list repeats a vertex, and v is in G[u] exactly when some edge line reads `u v` |
| `GrParser.TargetsMember` | read.py:35 | v is appended to G[u] exactly for the edge lines `u v` |
| `GrParser.DegreesOf` | read.py:35-36 | the lists together hold one entry per edge line |
| `GrParser.GrRejectsMissingHeader` | read.py:28-39 | a file without a `p` line is rejected |
| `GrParser.GrRejectsSecondHeader` | read.py:17-18 | a second `p` line is rejected |
| `GrParser.GrRejectsBadHeader` | read.py:20-24 | a `p` line that is not four tokens `p tw n m` with numeric n and m is rejected |
| `GrParser.GrRejectsEdgeBeforeHeader` | read.py:28-29 | a non-comment line before the `p` line is rejected |
| `GrParser.GrRejectsBadEdgeLine` | read.py:30-32 | an edge line that is not two numbers is rejected |
| `GrParser.GrRejectsUndeclared` | read.py:33-34 | an edge with an endpoint outside 1..n is rejected |
| `GrParser.GrRejectsRepeatedPair` | read.py:33-34 | an ordered pair given twice is rejected |
| `GrParser.GrAcceptsReversedPair` | read.py:33-35 | `1 2`, `2 1` and the loop `2 2` are all accepted, so only the ordered pair is checked |
| `TdParser.ReadTd` | read.py:43-75 | the line loop returns exactly the fold of the per-line rules, including the first error raised |
| `TdParser.ParseVertices` | read.py:67-68 | the vertex tokens of a `b` line give their set of decimal numbers, or fail if one is not a decimal number (base prefixes: see Left out) |
| `TdParser.ErrorSticks` | read.py:55-72 | once a line raises, the whole parse fails with that error |
| `TdParser.FoldDescribes` | read.py:48-72 | after each prefix the reader's state records whether a header was seen, the last declaration of every bag id, and the tree edges so far |
| `TdParser.TdCorrect` | read.py:43-75 | the parse succeeds if and only if: there is at most one well-formed `s ... td ...` header, which comes before every `b` line; every `b` line is well formed; and every tree-edge line names two ids already declared. On success the result lists, per tree-edge line, the two bags as declared at that line |
| `TdParser.LastDeclarationWins` | read.py:68 | the bag an id names is the one on its last `b` line |
| `TdParser.TdLaterBagReplaces` | read.py:68-72 | a second `b 1 3` line replaces bag 1 for the tree edges that follow it |
| `TdParser.TdRejectsSecondHeader` | read.py:55-56 | a second `s` line is rejected |
| `TdParser.TdRejectsBadHeader` | read.py:58-60 | an `s` line that is not five tokens with `td` second is rejected |
| `TdParser.TdRejectsBagBeforeHeader` | read.py:63-64 | a `b` line before any `s` line is rejected |
| `TdParser.TdRejectsUndeclared` | read.py:71-72 | a tree edge naming an id with no earlier `b` line is rejected |
| `TdParser.TdAcceptsCommentsOnly` | read.py:48-52 | a file of blank and comment lines gives no tree edges |
| `TdParser.TdEdgeAt` | read.py:70-72 | the j-th tree-edge line gives the result's entry at its position, the pair of bags its ids name at that line |
| `TdParser.TdEdgeOrder` | read.py:72 | tree edges are recorded in file order |
| `Scheduler.ScheduleEdges` | read.py:115-126 | each node's list holds exactly its scheduled edges, each once; the count is the total length of the lists and the number of edges with both endpoints in some bag; `highestVerts` ends as the union of the bags |
| `Scheduler.ScheduleNode` | read.py:119-126 | one node's loop schedules exactly the edges from each newly seen vertex back to the vertices seen before it |
| `Scheduler.EdgesToSeen` | read.py:122-125 | walking `highestVerts` in any order finds each seen neighbour of v once and counts it |
| `Scheduler.IntroduceEdgeNodes` | read.py:115-129 | the count check passes exactly when every edge has both endpoints in some bag, and then the lists are as scheduled |
| `Scheduler.CountCheck` | read.py:128-129 | as many edges are covered as the graph has exactly when every edge is covered |
| `Scheduler.CoveredGrow` | read.py:121-126 | seeing a new vertex adds exactly the edges from it to the vertices already seen |
| `Scheduler.BirthUnique` | read.py:121 | no vertex is "first seen" twice |
| `Scheduler.ScheduledOnce` | read.py:120-126 | no undirected edge is scheduled twice, at one node or at two |
| `Scheduler.ScheduledInBag` | read.py:120-125 | a scheduled edge is a graph edge between two distinct vertices whose later endpoint is in the node's bag |
| `Scheduler.ScheduledOutsideBag` | decomp.cpp:556-579 | when the earlier endpoint of a scheduled edge is not in the node's bag, `introduceEdge` leaves the table unchanged |
| `Scheduler.ScheduleMissesBag` | read.py:118-126 | bags `[1]` then `[2]` with edge {1, 2}: the edge is scheduled at the second node, whose bag lacks 1 |
| `Colors.ConsistentColorsCases` | decomp.cpp:38-43 | the consistent rows are exactly Black→(Black, Black), White→(White, Grey) or (Grey, White), Grey→(Grey, Grey) |
| `Colors.EveryColorInOrder` | decomp.cpp:37 | `colorArr` lists every colour |
| `Colors.Min` | decomp.cpp:629 | the smaller cost, where infinity is the largest |
| `Colors.Combine` | decomp.cpp:616-626 | `c1 + c2 - k`, infinite exactly when either operand is |
| `Colors.Inc` | decomp.cpp:701-708 | one more, and infinity stays infinity |
| `Colors.ColoringEquality` | decomp.cpp:120-153 | true exactly when the lengths agree and every pair of the first list occurs in the second; false for different lengths |
| `Colors.SameColoringIffSameMap` | decomp.cpp:120-153 | for pair lists that repeat no vertex, equality holds exactly when both denote the same colouring |
| `Colors.SameColoringIgnoresOrder` | decomp.cpp:120-153 | reordering either list never changes equality |
| `Tables.InitTableSpec` | decomp.cpp:191-216 | a bag of k distinct vertices gets one entry per 3-colouring of its vertices, 3^k in all, each infinite; an empty bag gets an empty table |
| `Tables.ConsistentColoringsSpec` | decomp.cpp:219-253 | a join bag of k distinct vertices gets 4^k triples, exactly those that agree vertex by vertex with a consistent row |
| `Tables.FillMembers` | decomp.cpp:198-212 | `backtrack1` from a partial colouring reaches exactly the colourings of the bag that extend it |
| `Tables.FillCount` | decomp.cpp:198-212 | and reaches 3^(remaining vertices) of them |
| `Tables.TriplesMembers` | decomp.cpp:225-245 | `backtrack2` from a partial triple reaches exactly the consistent triples that extend it |
| `Tables.TriplesCount` | decomp.cpp:225-245 | and emits 4^(remaining vertices) of them |
| `Tables.SumDiffIsExtraVertex` | decomp.cpp:635-636 | for bags that differ by one vertex, the difference of the sums is that vertex |
| `Tables.OneMoreVertex` | decomp.cpp:651-652 | the computed vertex is the one the larger bag adds |
| `Tables.SumPermutation` | decomp.cpp:635-636 | the sum of a bag does not depend on the order of its vertices |
| `Transitions.IntroduceLeafEntries` | decomp.cpp:656-673 | below a leaf: White is infinite, Grey costs 0, Black costs 1 |
| `Transitions.IntroduceEntries` | decomp.cpp:676-708 | below a non-leaf child every lookup finds its key; a White new vertex is infinite; otherwise the entry is the child's entry without v, plus 1 when v is Black, with infinity preserved |
| `Transitions.ForgetEntries` | decomp.cpp:638-646 | every lookup finds its key, and each entry is the smaller of the child's entries with w Black and with w White |
| `Transitions.ForgetIgnoresGrey` | decomp.cpp:640-645 | the child's entries with the forgotten vertex Grey are never consulted |
| `Transitions.BestJoinIsLeast` | decomp.cpp:602-630 | the fold of the join loop is the least join value over the triples whose first colouring is f |
| `Transitions.JoinIsMinimum` | decomp.cpp:602-630 | each join entry is the minimum, over all consistent triples (f, f1, f2), of child1[f1] + child2[f2] - #Black(f), infinite when an operand is |
| `Transitions.JoinLookupsSucceed` | decomp.cpp:613-614 | every lookup of the join loop finds its key |
| `Transitions.EdgeOutsideBag` | decomp.cpp:558-578 | an edge with an endpoint outside the bag changes no entry |
| `Transitions.EdgeSymmetric` | decomp.cpp:556-595 | introducing (u, v) and (v, u) give the same table |
| `Transitions.EdgeGreyCopiesUnchanged` | decomp.cpp:561-593 | the Grey copies the edge step reads are entries that the same step leaves unchanged, so the in-place update reads original values |
| `Transitions.EdgeIdempotent` | decomp.cpp:549-596 | introducing the same edge twice equals introducing it once |
| `Transitions.EdgesKeepWellFormed` | decomp.cpp:533-536 | a list of edge steps keeps the table's keys |
| `Bags.Backtrack1` | decomp.cpp:198-212 | the recursion adds exactly the extensions of the current colouring, each at infinity |
| `Bags.Backtrack2` | decomp.cpp:225-245 | the recursion appends exactly the consistent triples extending the current three colourings, in row order |
| `Bags.CountBlack` | decomp.cpp:605-612 | `compatibleSetSize` is the number of Black vertices of the colouring |
| `Bags.RootMinimum` | decomp.cpp:509-516 | the root step returns the least entry of the child's table, infinity for an empty table, whatever order the entries are visited in |
| `Bags.IntroduceValue` | decomp.cpp:656-708 | the loop body's value for one colouring is the specified introduce entry |
| `Bags.JoinTripleValue` | decomp.cpp:613-626 | the loop body's value for one triple is child1[f1] + child2[f2] - #Black(f), or infinity |
| `Bags.Bag.constructor` | decomp.cpp:178-256 | the three assertions are the precondition; the table holds every colouring of the bag at infinity, and a join bag gets its consistent triples |
| `Bags.Bag.IntroduceVertexNode` | decomp.cpp:649-711 | the new table is the introduce specification of the old table and the child's table, at the vertex the sums name |
| `Bags.Bag.ForgetNode` | decomp.cpp:633-647 | the new table is the forget specification of the old table and the child's table, at the vertex the sums name |
| `Bags.Bag.JoinNode` | decomp.cpp:598-631 | the assertion of line 600 (there are consistent triples) is the precondition that the bag is not empty; the new table is the join specification over the bag's consistent triples |
| `Bags.Bag.IntroduceEdge` | decomp.cpp:549-596 | the new table is the edge specification of the old table; the keys are kept |
| `Traversal.LinkChildren` | decomp.cpp:465-479 | each bag's child fields are the first and the last of the bags naming it as parent, in vector order |
| `Traversal.LinksBelowAreLinked` | decomp.cpp:465-479 | visiting the bags in order gives each parent its first kid as `child1` and its last as `child2` |
| `Traversal.AtMostTwoKidsRecorded` | decomp.cpp:467-477 | a bag with a parent that has at most two kids is recorded as its `child1` or `child2` |
| `Traversal.MiddleKidsDropped` | decomp.cpp:470-477 | with three or more kids, the ones in the middle are overwritten and lost |
| `Traversal.PostorderTraversal` | decomp.cpp:482-497 | the recursion appends the post-order of the subtree of `number` |
| `Traversal.PostFacts` | decomp.cpp:482-497 | the post-order of a subtree ends with its root and holds only bags below it |
| `Traversal.PostNoDup` | decomp.cpp:482-497 | no bag is pushed twice |
| `Traversal.PostKidsFirst` | decomp.cpp:482-497 | every recorded child is pushed before its parent |
| `Traversal.RunDP` | decomp.cpp:500-537 | visiting the post-order leaves every bag with its transition followed by its edge steps, and prints one report per parentless bag |
| `Traversal.Step` | decomp.cpp:502-536 | one visit: the root reports its child's minimum, any other bag runs the transition of its kind and then its edges |
| `Traversal.IntroduceEdges` | decomp.cpp:533-536 | the edge loop applies the bag's edges in list order |
| `Traversal.PrintedOnce` | decomp.cpp:504-517 | from a parentless bag 0, exactly one line is printed: the minimum of its child's final table |
| `Traversal.Solve` | decomp.cpp:465-537 | the logic part of `main` links the children, processes every bag of the post-order, and prints exactly the root's answer |

## Left out

- File I/O: both readers take the file as a list of lines, each already stripped and split
  into tokens. `str.strip`, `str.split` and the encoding are not modelled.
- The command line and Sage calls: `make_nice_tree_decomposition`,
  `label_nice_tree_decomposition`, `is_valid_tree_decomposition`, `treewidth`,
  `width_of_tree_decomposition` and `Graph(...)` (read.py:74, 78-113). The graph reader
  returns the adjacency dictionary and the `.td` reader the list of bag pairs. The
  scheduler takes the sorted node list as its input sequence and the graph as a set of
  undirected edges. Sage's sort order is not modelled.
- `Scheduler.ScheduleEdges`: `G.num_edges()` is taken to be the size of the normalized edge
  set `E`, and `has_edge` to be membership of the normalized pair. Sage's handling of loops
  and multi-edges is not modelled.
- Printing of the results (read.py:131-147, decomp.cpp:517, 539-545), `Bag::toString` and
  `toStringState` (decomp.cpp:263-319).
- `Tokens.ParseInt` models `int()` on ASCII digits with an optional sign. Underscores,
  surrounding whitespace and non-ASCII digits are not modelled.
- `TdParser.ParseVertices` parses each bag vertex with `Tokens.ParseInt`. read.py:67 uses
  Sage's `Integer()` instead, which also accepts the base prefixes `0x`, `0o` and `0b`
  (`Integer('0x12') == 18`, `Integer('-0o12') == -10`). So the model rejects a `b` line such
  as `b 1 0x3` with `BadVertex`, which the source accepts as the bag {3}. Other
  syntax that `Integer()` accepts beyond `int()` is not modelled either.
- decomp.cpp:341-458 (the call to Python, the temporary file and its regex parsing) is not
  part of this model. `Traversal.Solve` starts from the vector of constructed bags.
- `lookup` (decomp.cpp:85-98) and the `shared_ptr` interning are modelled by comparing
  (vertex, colour) pairs by value. `ColorPairHash` and `ColoringHash` are replaced by Dafny
  maps keyed by colourings.
- `std::pow` capacity hints and `reserve` calls are allocation details.
- `INT_MAX` is the `Inf` case. Finite costs are unbounded integers, so the model does not
  capture an `int` overflow of a finite cost.
- `Bags.RootMinimum` is modelled as written. It minimises over every entry of the child's
  table, Grey ones included, and the model makes no claim that this is the size of a
  minimum dominating set.
- Set iteration order in the scheduler's `for u in highestVerts` is left open. Each node's
  list is specified up to order: its members and no repeats.
- The unused `child` argument of `introduceEdge` is not modelled.
- `Traversal.PostorderTraversal`: termination needs the parent links to form no cycle. The
  model takes a ghost rank that grows from every bag to its parent. This is a property of
  any tree decomposition that the source relies on without checking it.
- `Bags.Bag.ForgetNode` and `Bags.Bag.JoinNode` require the shape of a nice tree
  decomposition. A forget bag is its child less one vertex. A join bag has the same vertices
  as both children. The source assumes this without checking it.
- `Bags.Bag.IntroduceVertexNode` requires a non-leaf child to have at least one vertex. This
  excludes an input on which the source throws: an introduce bag over an empty non-leaf
  child, such as an empty forget bag that joins two parts of a disconnected decomposition.
  The empty child's table is empty (decomp.cpp:191-216), so for each colouring whose new
  vertex is not White, `child->c.at(copyWithoutNewVertex)` throws `std::out_of_range`
  at decomp.cpp:700. The model does not capture that throw.
- `Traversal.NiceAt` carries the same requirement for every introduce bag, so
  `Traversal.Solve`, `Traversal.RunDP`, `Traversal.Step` and `Traversal.Transition` exclude
  the throw at decomp.cpp:700 as well.
- `Traversal.Solve` promises the printed answer only for bag vectors that satisfy
  `Traversal.Nice`. Inputs on which the source stops partway are excluded:
  - the `std::out_of_range` of decomp.cpp:700 described above;
  - the failed assertions of decomp.cpp:508 (the root's child has one vertex) and
    decomp.cpp:600 (a join bag has consistent triples, so is not empty);
  - a missing `child1` or `child2` under `.value()`.
  The model does not say what happens on those inputs.
- read.py:57 assigns `true`, not `True`. The model treats it as setting the flag, because
  `from sage.all import *` makes `true` a name for `True`.
