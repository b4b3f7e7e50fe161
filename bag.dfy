/** The `Bag` of decomp.cpp: a node of the nice tree decomposition together with its cost
    table, the constructor that fills the table by backtracking, and the four transitions
    that rewrite the table in place from the children's tables. */
module Bags {
  import opened Colors
  import opened Tables
  import opened Transitions
  import opened Tokens

  /** The node kinds of a nice tree decomposition. */
  datatype BagType = Forget | Intro | Join | Leaf

  /** The join bags' consistent triples, as the constructor builds them. */
  function ExpectedTriples(kind: BagType, e: seq<int>): seq<Triple> {
    if kind == Join && |e| > 0 then ConsistentColorings(e) else []
  }

  // ---------------------------------------------------------------------------------------
  // Backtracking (decomp.cpp:198-215, 225-252)

  /** `backtrack1`: the colouring `cur` of `e[..i]` is extended by each colour of `colorArr`
      in turn; every complete colouring is entered into `acc` at infinity. The vector
      `current` with its push/pop is the value `cur`, and its length is `i`. */
  method Backtrack1(e: seq<int>, i: nat, cur: Coloring, acc: Table) returns (r: Table)
    requires i <= |e|
    ensures r == acc + InfOn(Fill(e, i, cur))
    decreases |e| - i
  {
    if i == |e| {
      r := acc[cur := Inf];
      InfOnSingleton(acc, cur);
      return;
    }
    r := acc;
    InfOnUnion(acc, {}, {});
    for k := 0 to 3
      invariant r == acc + InfOn(Branches(e, i, cur, k))
    {
      var next := cur[e[i] := ColorOrder[k]];
      r := Backtrack1(e, i + 1, next, r);
      assert r == acc + InfOn(Branches(e, i, cur, k + 1)) by {
        InfOnUnion(acc, Branches(e, i, cur, k), Fill(e, i + 1, next));
      }
    }
    assert Fill(e, i, cur) == Branches(e, i, cur, 3);
  }

  lemma InfOnSingleton(acc: Table, f: Coloring)
    ensures acc[f := Inf] == acc + InfOn({f})
  {
  }

  lemma InfOnUnion(acc: Table, a: set<Coloring>, b: set<Coloring>)
    ensures (acc + InfOn(a)) + InfOn(b) == acc + InfOn(a + b)
  {
  }

  /** `backtrack2`: the partial triple (c1, c2, c3) of `e[..i]` is extended by each row of
      `consistentColorsArr` in turn; every complete triple is appended to `acc`. */
  method Backtrack2(e: seq<int>, i: nat, c1: Coloring, c2: Coloring, c3: Coloring, acc: seq<Triple>)
    returns (r: seq<Triple>)
    requires i <= |e|
    ensures r == acc + Triples(e, i, c1, c2, c3)
    decreases |e| - i
  {
    if i == |e| {
      r := acc + [(c1, c2, c3)];
      return;
    }
    r := acc;
    for k := 0 to 4
      invariant r == acc + RowTriples(e, i, c1, c2, c3, k)
    {
      var row := ConsistentRows[k];
      var x := e[i];
      r := Backtrack2(e, i + 1, c1[x := row.0], c2[x := row.1], c3[x := row.2], r);
    }
  }

  /** The Black pairs of `f` outside `todo`. */
  function BlackOutside(f: Coloring, todo: set<Pair>): set<Pair> {
    set p | p in f.Items && p !in todo && p.1 == Black
  }

  /** The `compatibleSetSize` loop of the join step, over the pairs of the colouring: the
      number of Black vertices. */
  method CountBlack(f: Coloring) returns (n: nat)
    ensures n == BlackCount(f)
  {
    n := 0;
    var todo := f.Items;
    ghost var blacks: set<Pair> := {};
    while todo != {}
      invariant todo <= f.Items
      invariant blacks == BlackOutside(f, todo)
      invariant n == |blacks|
      decreases todo
    {
      var p :| p in todo;
      if p.1 == Black {
        n := n + 1;
        blacks := blacks + {p};
      }
      todo := todo - {p};
    }
    assert blacks == set p | p in f.Items && p.1 == Black;
  }

  /** The least entry of a table, infinity for an empty one. */
  ghost function TableMin(t: Table): Cost
    decreases |t|
  {
    if t == map[] then Inf else var f :| f in t; Min(t[f], TableMin(t - {f}))
  }

  /** `m` is an entry of `t` no larger than any other, or infinity when there is none. */
  ghost predicate IsLeast(m: Cost, t: Table) {
    (forall f | f in t :: Le(m, t[f])) && (m == Inf || exists f | f in t :: m == t[f])
  }

  lemma {:induction false} TableMinIsLeast(t: Table)
    ensures IsLeast(TableMin(t), t)
    decreases |t|
  {
    if t != map[] {
      var f :| f in t && TableMin(t) == Min(t[f], TableMin(t - {f}));
      TableMinIsLeast(t - {f});
      LeastStep(t, f, TableMin(t - {f}));
    }
  }

  lemma LeastStep(t: Table, f: Coloring, r: Cost)
    requires f in t && IsLeast(r, t - {f})
    ensures IsLeast(Min(t[f], r), t)
  {
    var m := Min(t[f], r);
    forall g | g in t ensures Le(m, t[g]) {
      if g != f {
        assert g in t - {f};
      }
    }
    if m != t[f] {
      var g :| g in t - {f} && r == (t - {f})[g];
      assert g in t && m == t[g];
    }
  }

  /** The least entry is unique, whichever order the entries are visited in. */
  lemma LeastIsTableMin(m: Cost, t: Table)
    requires IsLeast(m, t)
    ensures m == TableMin(t)
  {
    TableMinIsLeast(t);
  }

  /** The root step (decomp.cpp:509-516): the least entry of the child's table, starting from
      `INT_MAX`; infinity exactly when the table is empty or every entry is infinite. */
  method RootMinimum(t: Table) returns (m: Cost)
    ensures forall f | f in t :: Le(m, t[f])
    ensures m == Inf || exists f | f in t :: m == t[f]
    ensures m == TableMin(t)
  {
    m := Inf;
    var todo := t.Keys;
    while todo != {}
      invariant todo <= t.Keys
      invariant forall f | f in t && f !in todo :: Le(m, t[f])
      invariant m == Inf || exists f | f in t && f !in todo :: m == t[f]
      decreases todo
    {
      var f :| f in todo;
      if t[f].Fin? && (m.Inf? || m.n > t[f].n) {
        m := t[f];
      }
      todo := todo - {f};
    }
    LeastIsTableMin(m, t);
  }

  /** The body of the introduce loop for one colouring: infinity below a leaf when the only
      vertex is White, 0 when Grey, 1 when Black; otherwise infinity for a White new vertex
      and else the child's entry without it, plus one for Black, infinity absorbing. */
  method IntroduceValue(f: Coloring, leafChild: bool, front: int, v: int, child: Table) returns (value: Cost)
    requires leafChild ==> front in f
    requires !leafChild ==> v in f && f - {v} in child
    ensures value == IntroduceEntry(f, leafChild, front, v, child)
  {
    if leafChild {
      var color := f[front];
      if color == White {
        value := Inf;
      } else if color == Grey {
        value := Fin(0);
      } else {
        value := Fin(1);
      }
    } else if f[v] == White {
      value := Inf;
    } else {
      var copyWithoutNewVertex := f - {v};
      var newVertexColor := f[v];
      var childValue := child[copyWithoutNewVertex];
      if newVertexColor == Grey || childValue.Inf? {
        value := childValue;
      } else {
        value := Fin(1 + childValue.n);
      }
    }
  }

  /** The body of the join loop for one triple: child1[f1] + child2[f2] - #Black(f), or
      infinity when either child entry is. */
  method JoinTripleValue(triple: Triple, c1: Table, c2: Table) returns (res: Cost)
    requires triple.1 in c1 && triple.2 in c2
    ensures res == JoinValue(triple, c1, c2)
  {
    var compatibleSetSize := CountBlack(triple.0);
    var value1 := c1[triple.1];
    var value2 := c2[triple.2];
    if value1.Inf? || value2.Inf? {
      res := Inf;
    } else {
      res := Fin(value1.n + value2.n - compatibleSetSize);
    }
  }

  class Bag {
    const number: nat
    const kind: BagType
    const parentNumber: Option<nat>
    const bagElements: seq<int>
    const introduceEdges: seq<(int, int)>
    var child1: Option<nat>
    var child2: Option<nat>
    /** The cost of every colouring of the bag. */
    var c: Table
    /** Used only for join bags. */
    const consistentColorings: seq<Triple>

    /** A bag over distinct vertices whose table holds exactly the colourings of the bag. */
    ghost predicate Valid()
      reads this
    {
      NoDup(bagElements) && WellFormed(c, bagElements)
    }

    /** The constructor's three assertions are its precondition; a non-empty bag gets every
        colouring at infinity, and a non-empty join bag its consistent triples. */
    constructor (number: nat, kind: BagType, parentNumber: Option<nat>, vertices: seq<int>, edges: seq<(int, int)>)
      requires number == 0 || parentNumber.Some?
      requires number != 0 || |vertices| == 0
      requires |edges| == 0 || kind != Leaf
      ensures this.number == number && this.kind == kind && this.parentNumber == parentNumber
      ensures bagElements == vertices && introduceEdges == edges
      ensures child1 == None && child2 == None
      ensures c == InitTable(vertices)
      ensures consistentColorings == ExpectedTriples(kind, vertices)
      ensures NoDup(vertices) ==> Valid()
    {
      this.number := number;
      this.kind := kind;
      this.parentNumber := parentNumber;
      bagElements := vertices;
      introduceEdges := edges;
      child1 := None;
      child2 := None;
      if |vertices| > 0 {
        var m := Backtrack1(vertices, 0, map[], map[]);
        EmptyUnion(InfOn(Fill(vertices, 0, map[])));
        c := m;
        if kind == Join {
          var ccs := Backtrack2(vertices, 0, map[], map[], map[], []);
          assert ccs == Triples(vertices, 0, map[], map[], map[]);
          consistentColorings := ccs;
        } else {
          consistentColorings := [];
        }
      } else {
        c := map[];
        consistentColorings := [];
      }
      new;
      if NoDup(vertices) {
        InitTableSpec(vertices);
      }
    }

    /** `introduceVertexNode` (decomp.cpp:649-711). The new vertex is the difference of the
        two bags' sums; below a leaf the one-vertex bag gets the one-vertex costs, and
        otherwise a White new vertex gives infinity and a Grey or Black one the child's entry
        without it, plus one for Black. */
    method IntroduceVertexNode(child: Bag)
      requires child != this && Valid() && |bagElements| > 0
      requires child.kind == Leaf ==> |bagElements| == 1
      requires child.kind != Leaf ==> child.Valid() && |child.bagElements| > 0 && OneMore(bagElements, child.bagElements)
      modifies this`c
      ensures child.kind != Leaf ==> SumDiff(bagElements, child.bagElements) in Elems(bagElements)
      ensures c == IntroduceSpec(old(c), child.kind == Leaf, bagElements[0], SumDiff(bagElements, child.bagElements), child.c)
      ensures Valid()
    {
      var v := Sum(bagElements) - Sum(child.bagElements);
      if child.kind != Leaf {
        OneMoreVertex(bagElements, child.bagElements);
      }
      ghost var c0 := c;
      ghost var spec := IntroduceSpec(c0, child.kind == Leaf, bagElements[0], v, child.c);
      var todo := c.Keys;
      while todo != {}
        invariant todo <= c0.Keys && c.Keys == c0.Keys
        invariant forall f | f in c0 && f !in todo :: c[f] == spec[f]
        decreases todo
      {
        var f :| f in todo;
        ColoringOfTable(c0, bagElements, f);
        if child.kind != Leaf {
          DropVertexInChild(f, bagElements, child.c, child.bagElements, v);
        }
        var value := IntroduceValue(f, child.kind == Leaf, bagElements[0], v, child.c);
        RewriteStep(c, c0, spec, todo, f, value);
        c := c[f := value];
        todo := todo - {f};
      }
      SameKeysWellFormed(c0, c, bagElements);
      RewriteDone(c, c0, spec);
    }

    /** `forgetNode` (decomp.cpp:633-647). The forgotten vertex is the difference of the two
        bags' sums; each entry becomes the better of it being Black or White in the child. */
    method ForgetNode(child: Bag)
      requires child != this && Valid() && child.Valid()
      requires OneMore(child.bagElements, bagElements)
      modifies this`c
      ensures SumDiff(child.bagElements, bagElements) !in Elems(bagElements)
      ensures c == ForgetSpec(old(c), SumDiff(child.bagElements, bagElements), child.c)
      ensures Valid()
    {
      var w := Sum(child.bagElements) - Sum(bagElements);
      OneMoreVertex(child.bagElements, bagElements);
      ghost var c0 := c;
      ghost var spec := ForgetSpec(c0, w, child.c);
      var todo := c.Keys;
      while todo != {}
        invariant todo <= c0.Keys && c.Keys == c0.Keys
        invariant forall f | f in c0 && f !in todo :: c[f] == spec[f]
        decreases todo
      {
        var f :| f in todo;
        ColoringOfTable(c0, bagElements, f);
        ExtendInChild(f, bagElements, child.c, child.bagElements, w);
        var blackCopy := f[w := Black];
        var whiteCopy := f[w := White];
        var value := Min(child.c[blackCopy], child.c[whiteCopy]);
        RewriteStep(c, c0, spec, todo, f, value);
        c := c[f := value];
        todo := todo - {f};
      }
      SameKeysWellFormed(c0, c, bagElements);
      RewriteDone(c, c0, spec);
    }

    /** `joinNode` (decomp.cpp:598-631): every consistent triple (f, f1, f2) lowers c[f] to
        child1[f1] + child2[f2] - #Black(f) when that is smaller, infinity absorbing. The
        assertion of line 600, that there are consistent triples, is the requirement that the
        bag is not empty. */
    method JoinNode(left: Bag, right: Bag)
      requires left != this && right != this && Valid() && left.Valid() && right.Valid()
      requires kind == Join && consistentColorings == ExpectedTriples(kind, bagElements)
      requires |bagElements| > 0
      requires Elems(left.bagElements) == Elems(bagElements) == Elems(right.bagElements)
      modifies this`c
      ensures c == JoinSpec(old(c), consistentColorings, left.c, right.c)
      ensures Valid()
    {
      SameElemsWellFormed(left.c, left.bagElements, bagElements);
      SameElemsWellFormed(right.c, right.bagElements, bagElements);
      ghost var c0 := c;
      ghost var s := consistentColorings;
      for i := 0 to |consistentColorings|
        invariant c.Keys == c0.Keys
        invariant forall f | f in c0 :: c[f] == Min(c0[f], BestJoin(s[..i], f, left.c, right.c))
      {
        var triple := consistentColorings[i];
        assert |bagElements| > 0 && triple in ConsistentColorings(bagElements);
        TripleLookups(c0, bagElements, left.c, right.c, triple);
        var coloring := triple.0;
        var res := JoinTripleValue(triple, left.c, right.c);
        assert s[..i + 1] == s[..i] + [triple];
        JoinStep(c0, s, i, left.c, right.c, c, coloring, res);
        UpdateKeepsKeys(c, coloring, Min(c[coloring], res));
        c := c[coloring := Min(c[coloring], res)];
      }
      assert s[..|s|] == s;
      SameKeysWellFormed(c0, c, bagElements);
    }

    /** `introduceEdge` (decomp.cpp:549-596) for the edge (u, v): an entry with u Black and
        v White takes the entry of the same colouring with v Grey, one with u White and v
        Black the entry with u Grey; the copies it reads are never rewritten by this step. */
    method IntroduceEdge(uv: (int, int))
      requires Valid()
      modifies this`c
      ensures c == EdgeSpec(old(c), uv.0, uv.1)
      ensures Valid()
    {
      var u, v := uv.0, uv.1;
      ghost var c0 := c;
      var todo := c.Keys;
      while todo != {}
        invariant todo <= c0.Keys && c.Keys == c0.Keys
        invariant forall f | f in c0 && f !in todo :: c[f] == EdgeEntry(c0, f, u, v)
        invariant forall f | f in todo :: c[f] == c0[f]
        decreases todo
      {
        var f :| f in todo;
        EdgeGreyCopiesUnchanged(c0, bagElements, u, v, f);
        if HasColor(f, u, Black) && HasColor(f, v, White) {
          var vGreyCopy := f[v := Grey];
          UpdateKeepsKeys(c, f, c[vGreyCopy]);
          c := c[f := c[vGreyCopy]];
        } else if HasColor(f, u, White) && HasColor(f, v, Black) {
          var uGreyCopy := f[u := Grey];
          UpdateKeepsKeys(c, f, c[uGreyCopy]);
          c := c[f := c[uGreyCopy]];
        }
        todo := todo - {f};
      }
      SameKeysWellFormed(c0, c, bagElements);
      assert c == EdgeSpec(c0, u, v);
    }
  }

  lemma EmptyUnion(t: Table)
    ensures map[] + t == t
  {
  }

  /** One iteration of the join loop keeps the loop's invariant. */
  lemma JoinStep(c0: Table, s: seq<Triple>, i: nat, c1: Table, c2: Table, c: Table, coloring: Coloring, res: Cost)
    requires i < |s| && coloring == s[i].0 && res == JoinValue(s[i], c1, c2) && coloring in c
    requires c.Keys == c0.Keys
    requires forall f | f in c0 :: c[f] == Min(c0[f], BestJoin(s[..i], f, c1, c2))
    ensures forall f | f in c0 :: c[coloring := Min(c[coloring], res)][f] == Min(c0[f], BestJoin(s[..i + 1], f, c1, c2))
  {
    assert s[..i + 1][..i] == s[..i];
    forall f | f in c0 ensures c[coloring := Min(c[coloring], res)][f] == Min(c0[f], BestJoin(s[..i + 1], f, c1, c2)) {
      if f == coloring {
        MinAssoc(c0[f], BestJoin(s[..i], f, c1, c2), res);
      }
    }
  }
}
