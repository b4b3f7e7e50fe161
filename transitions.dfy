/** What the four table transitions of decomp.cpp guarantee: their lookups find their keys,
    they keep the table's colourings, and they compute the intended minima. */
module Transitions {
  import opened Colors
  import opened Tables

  // ---------------------------------------------------------------------------------------
  // introduceVertexNode (decomp.cpp:649-711)

  /** Below a non-leaf child, every lookup of the introduce step finds its key, a White new
      vertex costs infinity, and otherwise the entry is the child's entry for the colouring
      without the new vertex, plus one when the new vertex is Black. */
  lemma IntroduceEntries(t: Table, e: seq<int>, child: Table, ce: seq<int>, v: int, front: int)
    requires NoDup(e) && NoDup(ce) && |ce| > 0 && v !in Elems(ce) && Elems(e) == Elems(ce) + {v}
    requires WellFormed(t, e) && WellFormed(child, ce)
    ensures IntroduceSpec(t, false, front, v, child).Keys == t.Keys
    ensures forall f | f in t :: v in f && f - {v} in child
    ensures forall f | f in t ::
      IntroduceSpec(t, false, front, v, child)[f] ==
        match f[v]
        case White => Inf
        case Grey => child[f - {v}]
        case Black => Inc(child[f - {v}])
  {
    forall f | f in t
      ensures v in f && f - {v} in child
      ensures IntroduceSpec(t, false, front, v, child)[f] ==
        match f[v]
        case White => Inf
        case Grey => child[f - {v}]
        case Black => Inc(child[f - {v}])
    {
      ColoringOfTable(t, e, f);
      DropVertexInChild(f, e, child, ce, v);
    }
  }

  lemma DropVertex(f: Coloring, e: seq<int>, ce: seq<int>, v: int)
    requires IsColoringOf(f, e) && v !in Elems(ce) && Elems(e) == Elems(ce) + {v}
    ensures v in f && IsColoringOf(f - {v}, ce)
  {
  }

  /** The child entry that the introduce step reads for one colouring exists. */
  lemma DropVertexInChild(f: Coloring, e: seq<int>, child: Table, ce: seq<int>, v: int)
    requires IsColoringOf(f, e) && v !in Elems(ce) && Elems(e) == Elems(ce) + {v}
    requires NoDup(ce) && |ce| > 0 && WellFormed(child, ce)
    ensures v in f && f - {v} in child
  {
    DropVertex(f, e, ce, v);
    WellFormedMembers(child, ce);
  }

  /** Below a leaf, the one-vertex bag's entries are the costs of the one-vertex solutions. */
  lemma IntroduceLeafEntries(t: Table, x: int, v: int, child: Table)
    requires WellFormed(t, [x])
    ensures IntroduceSpec(t, true, x, v, child).Keys == t.Keys == {map[x := White], map[x := Black], map[x := Grey]}
    ensures IntroduceSpec(t, true, x, v, child)[map[x := White]] == Inf
    ensures IntroduceSpec(t, true, x, v, child)[map[x := Grey]] == Fin(0)
    ensures IntroduceSpec(t, true, x, v, child)[map[x := Black]] == Fin(1)
  {
    assert Elems([x]) == {x};
    assert IsColoringOf(map[x := White], [x]) && IsColoringOf(map[x := Black], [x]) && IsColoringOf(map[x := Grey], [x]);
    assert Has(t, map[x := White]) && Has(t, map[x := Black]) && Has(t, map[x := Grey]);
    forall f | f in t ensures f == map[x := White] || f == map[x := Black] || f == map[x := Grey] {
      ColoringOfTable(t, [x], f);
      assert f.Keys == {x};
      match f[x]
      case White => assert f == map[x := White];
      case Black => assert f == map[x := Black];
      case Grey => assert f == map[x := Grey];
    }
  }

  // ---------------------------------------------------------------------------------------
  // forgetNode (decomp.cpp:633-647)

  /** Every lookup of the forget step finds its key, and each entry is the better of the
      forgotten vertex being Black or White in the child. */
  lemma ForgetEntries(t: Table, e: seq<int>, child: Table, ce: seq<int>, w: int)
    requires NoDup(e) && NoDup(ce) && w !in Elems(e) && Elems(ce) == Elems(e) + {w}
    requires WellFormed(t, e) && WellFormed(child, ce)
    ensures ForgetSpec(t, w, child).Keys == t.Keys
    ensures forall f | f in t :: f[w := Black] in child && f[w := White] in child
    ensures forall f | f in t :: ForgetSpec(t, w, child)[f] == Min(child[f[w := Black]], child[f[w := White]])
  {
    WellFormedMembers(t, e);
    WellFormedMembers(child, ce);
    assert w in ce;
    forall f | f in t ensures f[w := Black] in child && f[w := White] in child {
      assert IsColoringOf(f[w := Black], ce) && IsColoringOf(f[w := White], ce);
    }
  }

  /** The lookups of the forget step for one colouring find their keys. */
  lemma ExtendInChild(f: Coloring, e: seq<int>, child: Table, ce: seq<int>, w: int)
    requires IsColoringOf(f, e) && w !in Elems(e) && Elems(ce) == Elems(e) + {w}
    requires NoDup(ce) && WellFormed(child, ce)
    ensures f[w := Black] in child && f[w := White] in child
  {
    WellFormedMembers(child, ce);
    assert w in ce;
    assert IsColoringOf(f[w := Black], ce) && IsColoringOf(f[w := White], ce);
  }

  /** The forget step never consults the child's entries in which the forgotten vertex is Grey. */
  lemma ForgetIgnoresGrey(t: Table, w: int, child: Table, child': Table)
    requires forall g :: g in child && w in g && g[w] != Grey ==> g in child' && child'[g] == child[g]
    requires forall g :: g in child' && w in g && g[w] != Grey ==> g in child
    ensures ForgetSpec(t, w, child) == ForgetSpec(t, w, child')
  {
    forall f | f in t ensures Lookup(child, f[w := Black]) == Lookup(child', f[w := Black])
      && Lookup(child, f[w := White]) == Lookup(child', f[w := White])
    {
      assert f[w := Black][w] == Black && f[w := White][w] == White;
    }
  }

  // ---------------------------------------------------------------------------------------
  // joinNode (decomp.cpp:598-631)

  /** The fold that the join loop performs is the least join value over the list's triples
      for `f`, attained by one of them unless it is infinity. */
  lemma {:induction false} BestJoinIsLeast(s: seq<Triple>, f: Coloring, c1: Table, c2: Table)
    ensures forall tr | tr in s && tr.0 == f :: Le(BestJoin(s, f, c1, c2), JoinValue(tr, c1, c2))
    ensures BestJoin(s, f, c1, c2) == Inf ||
      exists tr :: tr in s && tr.0 == f && BestJoin(s, f, c1, c2) == JoinValue(tr, c1, c2)
  {
    if s != [] {
      var init := s[..|s| - 1];
      var last := s[|s| - 1];
      BestJoinIsLeast(init, f, c1, c2);
      assert s == init + [last];
      var b := BestJoin(s, f, c1, c2);
      if last.0 == f {
        forall tr | tr in s && tr.0 == f ensures Le(b, JoinValue(tr, c1, c2)) {
          if tr in init {
            assert Le(BestJoin(init, f, c1, c2), JoinValue(tr, c1, c2));
          }
        }
        if b != Inf && b != BestJoin(init, f, c1, c2) {
          assert b == JoinValue(last, c1, c2);
        }
      }
    }
  }

  /** A join entry is the minimum, over all consistent triples (f, f1, f2) of the bag, of
      child1[f1] + child2[f2] - #Black(f); it starts from infinity. */
  lemma JoinIsMinimum(t: Table, e: seq<int>, f: Coloring, c1: Table, c2: Table)
    requires NoDup(e) && |e| > 0 && f in t && t[f] == Inf
    requires IsColoringOf(f, e)
    ensures var r := JoinSpec(t, ConsistentColorings(e), c1, c2)[f];
      (forall f1, f2 :: ConsistentTriple((f, f1, f2), e) ==>
         Le(r, Combine(Lookup(c1, f1), Lookup(c2, f2), BlackCount(f)))) &&
      (r == Inf ||
       exists f1, f2 :: ConsistentTriple((f, f1, f2), e) && r == Combine(Lookup(c1, f1), Lookup(c2, f2), BlackCount(f)))
  {
    var s := ConsistentColorings(e);
    ConsistentColoringsSpec(e);
    BestJoinIsLeast(s, f, c1, c2);
    var r := JoinSpec(t, s, c1, c2)[f];
    assert r == BestJoin(s, f, c1, c2);
    forall f1, f2 | ConsistentTriple((f, f1, f2), e)
      ensures Le(r, Combine(Lookup(c1, f1), Lookup(c2, f2), BlackCount(f)))
    {
      assert (f, f1, f2) in s;
      assert JoinValue((f, f1, f2), c1, c2) == Combine(Lookup(c1, f1), Lookup(c2, f2), BlackCount(f));
    }
    if r != Inf {
      var tr :| tr in s && tr.0 == f && r == JoinValue(tr, c1, c2);
      assert ConsistentTriple((f, tr.1, tr.2), e);
    }
  }

  /** The lookups of the join loop for one triple find their keys. */
  lemma TripleLookups(t: Table, e: seq<int>, c1: Table, c2: Table, tr: Triple)
    requires NoDup(e) && |e| > 0
    requires WellFormed(t, e) && WellFormed(c1, e) && WellFormed(c2, e)
    requires tr in ConsistentColorings(e)
    ensures tr.0 in t && tr.1 in c1 && tr.2 in c2
  {
    JoinLookupsSucceed(t, e, c1, c2);
  }

  /** Every lookup of the join loop finds its key. */
  lemma JoinLookupsSucceed(t: Table, e: seq<int>, c1: Table, c2: Table)
    requires NoDup(e) && |e| > 0
    requires WellFormed(t, e) && WellFormed(c1, e) && WellFormed(c2, e)
    ensures forall tr | tr in ConsistentColorings(e) :: tr.0 in t && tr.1 in c1 && tr.2 in c2
    ensures JoinSpec(t, ConsistentColorings(e), c1, c2).Keys == t.Keys
  {
    WellFormedMembers(t, e);
    WellFormedMembers(c1, e);
    WellFormedMembers(c2, e);
    ConsistentColoringsSpec(e);
  }

  // ---------------------------------------------------------------------------------------
  // introduceEdge (decomp.cpp:549-596)

  /** In a table of bag `e`, every colouring can be recoloured at any of its vertices. */
  lemma RecolorStaysInTable(t: Table, e: seq<int>, f: Coloring, x: int, c: Color)
    requires NoDup(e) && WellFormed(t, e) && f in t && x in f
    ensures f[x := c] in t
  {
    WellFormedMembers(t, e);
    assert IsColoringOf(f[x := c], e);
  }

  /** Introducing an edge with an endpoint outside the bag leaves every entry as it was: no
      colouring contains a pair of the missing endpoint. */
  lemma EdgeOutsideBag(t: Table, e: seq<int>, u: int, v: int)
    requires NoDup(e) && WellFormed(t, e)
    requires u !in Elems(e) || v !in Elems(e)
    ensures EdgeSpec(t, u, v) == t
  {
    WellFormedMembers(t, e);
  }

  /** The orientation of an edge does not matter. */
  lemma EdgeSymmetric(t: Table, u: int, v: int)
    ensures EdgeSpec(t, u, v) == EdgeSpec(t, v, u)
  {
  }

  /** The Grey copies that an edge step reads are entries the same step does not rewrite,
      so reading them from the table being updated gives the old values. */
  lemma EdgeGreyCopiesUnchanged(t: Table, e: seq<int>, u: int, v: int, f: Coloring)
    requires NoDup(e) && WellFormed(t, e) && f in t
    ensures HasColor(f, u, Black) && HasColor(f, v, White) ==>
      f[v := Grey] in t && EdgeSpec(t, u, v)[f[v := Grey]] == t[f[v := Grey]]
    ensures HasColor(f, u, White) && HasColor(f, v, Black) ==>
      f[u := Grey] in t && EdgeSpec(t, u, v)[f[u := Grey]] == t[f[u := Grey]]
  {
    if HasColor(f, u, Black) && HasColor(f, v, White) {
      RecolorStaysInTable(t, e, f, v, Grey);
    }
    if HasColor(f, u, White) && HasColor(f, v, Black) {
      RecolorStaysInTable(t, e, f, u, Grey);
    }
  }

  /** Introducing the same edge twice is the same as introducing it once. */
  lemma EdgeIdempotent(t: Table, e: seq<int>, u: int, v: int)
    requires NoDup(e) && WellFormed(t, e)
    ensures EdgeSpec(EdgeSpec(t, u, v), u, v) == EdgeSpec(t, u, v)
  {
    var t1 := EdgeSpec(t, u, v);
    forall f | f in t ensures EdgeEntry(t1, f, u, v) == t1[f] {
      EdgeGreyCopiesUnchanged(t, e, u, v, f);
    }
  }

  /** An edge step keeps the table well formed, and so does a list of them. */
  lemma {:induction false} EdgesKeepWellFormed(t: Table, e: seq<int>, edges: seq<(int, int)>)
    requires WellFormed(t, e)
    ensures EdgesSpec(t, edges).Keys == t.Keys
    ensures WellFormed(EdgesSpec(t, edges), e)
    decreases |edges|
  {
    if edges != [] {
      var t1 := EdgesSpec(t, edges[..|edges| - 1]);
      EdgesKeepWellFormed(t, e, edges[..|edges| - 1]);
      assert EdgeSpec(t1, edges[|edges| - 1].0, edges[|edges| - 1].1).Keys == t1.Keys;
      SameKeysWellFormed(t, EdgesSpec(t, edges), e);
    }
  }
}
