/** The cost tables of the dynamic programme: which colourings a bag's table holds, the
    consistent triples of a join bag, and what each transition makes of a table. */
module Tables {
  import opened Colors

  /** The table `c` of a bag: one cost per colouring of the bag. */
  type Table = map<Coloring, Cost>

  /** A (join colouring, child-1 colouring, child-2 colouring) entry of `consistentColorings`. */
  type Triple = (Coloring, Coloring, Coloring)

  predicate NoDup(s: seq<int>) {
    forall i, j :: 0 <= i < j < |s| ==> s[i] != s[j]
  }

  function Elems(s: seq<int>): set<int> {
    set x | x in s
  }

  /** `f` colours exactly the vertices of the bag `e`. */
  predicate IsColoringOf(f: Coloring, e: seq<int>) {
    f.Keys == Elems(e)
  }

  /** `f` agrees with the partial colouring `cur` wherever `cur` is defined. */
  predicate Extends(f: Coloring, cur: Coloring) {
    forall x | x in cur :: x in f && f[x] == cur[x]
  }


  /** `child->c.at(k)`; the default is never reached where the model calls it on a
      well-formed table with a colouring of its bag. */
  function Lookup(t: Table, k: Coloring): Cost {
    if k in t then t[k] else Inf
  }

  /** Every cost of `s` set to infinity. */
  function InfOn(s: set<Coloring>): (t: Table)
    ensures t.Keys == s
  {
    map f | f in s :: Inf
  }

  // ---------------------------------------------------------------------------------------
  // The colourings produced by the first backtracking (decomp.cpp:198-215)

  /** All colourings reached from `current` after colouring `e[i..]`, one colour of
      `ColorOrder` at a time. */
  function Fill(e: seq<int>, i: nat, cur: Coloring): set<Coloring>
    requires i <= |e|
    decreases |e| - i, 4
  {
    if i == |e| then {cur} else Branches(e, i, cur, 3)
  }

  /** The colourings reached by the first `k` iterations of the colour loop at depth `i`. */
  function Branches(e: seq<int>, i: nat, cur: Coloring, k: nat): set<Coloring>
    requires i < |e| && k <= 3
    decreases |e| - i, k
  {
    if k == 0 then {} else Branches(e, i, cur, k - 1) + Fill(e, i + 1, cur[e[i] := ColorOrder[k - 1]])
  }

  lemma PrefixElems(e: seq<int>, i: nat)
    requires i < |e|
    ensures Elems(e[..i + 1]) == Elems(e[..i]) + {e[i]}
  {
    assert e[..i + 1] == e[..i] + [e[i]];
  }

  lemma NoDupNotBefore(e: seq<int>, i: nat)
    requires NoDup(e) && i < |e|
    ensures e[i] !in Elems(e[..i])
  {
  }

  /** Extending a partial colouring by one new vertex. */
  lemma ExtendsUpdate(f: Coloring, cur: Coloring, x: int, col: Color)
    requires x !in cur
    ensures Extends(f, cur[x := col]) <==> Extends(f, cur) && x in f && f[x] == col
  {
    if Extends(f, cur) && x in f && f[x] == col {
      forall y | y in cur[x := col] ensures y in f && f[y] == cur[x := col][y] {
        if y != x {
          assert y in cur;
        }
      }
    }
  }

  /** A colouring that extends a partial colouring with the same vertices is that colouring. */
  lemma ExtendsSameKeys(f: Coloring, cur: Coloring)
    requires Extends(f, cur) && f.Keys == cur.Keys
    ensures f == cur
  {
    assert forall x | x in f :: f[x] == cur[x];
  }

  lemma {:induction false} FillMembers(e: seq<int>, i: nat, cur: Coloring)
    requires NoDup(e) && i <= |e| && cur.Keys == Elems(e[..i])
    ensures forall f :: f in Fill(e, i, cur) <==> IsColoringOf(f, e) && Extends(f, cur)
    decreases |e| - i, 4
  {
    if i == |e| {
      assert e[..i] == e;
      forall f | IsColoringOf(f, e) && Extends(f, cur) ensures f == cur {
        ExtendsSameKeys(f, cur);
      }
    } else {
      BranchesMembers(e, i, cur, 3);
      assert ColorOrder[..3] == ColorOrder;
      EveryColorInOrder();
    }
  }

  lemma {:induction false} BranchesMembers(e: seq<int>, i: nat, cur: Coloring, k: nat)
    requires NoDup(e) && i < |e| && k <= 3 && cur.Keys == Elems(e[..i])
    ensures forall f :: f in Branches(e, i, cur, k) <==>
      IsColoringOf(f, e) && Extends(f, cur) && f[e[i]] in ColorOrder[..k]
    decreases |e| - i, k
  {
    if k > 0 {
      BranchesMembers(e, i, cur, k - 1);
      var x, col := e[i], ColorOrder[k - 1];
      var cur' := cur[x := col];
      PrefixElems(e, i);
      NoDupNotBefore(e, i);
      FillMembers(e, i + 1, cur');
      assert ColorOrder[..k] == ColorOrder[..k - 1] + [col];
      forall f
        ensures f in Branches(e, i, cur, k) <==> IsColoringOf(f, e) && Extends(f, cur) && f[x] in ColorOrder[..k]
      {
        ExtendsUpdate(f, cur, x, col);
      }
    }
  }

  lemma {:induction false} FillCount(e: seq<int>, i: nat, cur: Coloring)
    requires NoDup(e) && i <= |e| && cur.Keys == Elems(e[..i])
    ensures |Fill(e, i, cur)| == Pow(3, |e| - i)
    decreases |e| - i, 4
  {
    if i < |e| {
      BranchesCount(e, i, cur, 3);
      assert Pow(3, |e| - i) == 3 * Pow(3, |e| - i - 1);
    }
  }

  lemma {:induction false} BranchesCount(e: seq<int>, i: nat, cur: Coloring, k: nat)
    requires NoDup(e) && i < |e| && k <= 3 && cur.Keys == Elems(e[..i])
    ensures |Branches(e, i, cur, k)| == k * Pow(3, |e| - i - 1)
    decreases |e| - i, k
  {
    if k > 0 {
      BranchesCount(e, i, cur, k - 1);
      BranchesCountStep(e, i, cur, k, Pow(3, |e| - i - 1));
    }
  }

  lemma {:induction false} BranchesCountStep(e: seq<int>, i: nat, cur: Coloring, k: nat, p: nat)
    requires NoDup(e) && i < |e| && 0 < k <= 3 && cur.Keys == Elems(e[..i])
    requires p == Pow(3, |e| - i - 1)
    requires |Branches(e, i, cur, k - 1)| == (k - 1) * p
    ensures |Branches(e, i, cur, k)| == k * p
    decreases |e| - i, 0
  {
    var cur' := cur[e[i] := ColorOrder[k - 1]];
    var a, b := Branches(e, i, cur, k - 1), Fill(e, i + 1, cur');
    assert |b| == p by {
      PrefixElems(e, i);
      FillCount(e, i + 1, cur');
    }
    assert a !! b by {
      BranchDisjoint(e, i, cur, k);
    }
    DisjointUnionCount(a, b, k, p);
  }

  lemma DisjointUnionCount<T>(a: set<T>, b: set<T>, k: nat, p: nat)
    requires a !! b && k > 0 && |a| == (k - 1) * p && |b| == p
    ensures |a + b| == k * p
  {
    assert |a + b| == |a| + |b|;
    assert (k - 1) * p + p == k * p;
  }

  lemma BranchDisjoint(e: seq<int>, i: nat, cur: Coloring, k: nat)
    requires NoDup(e) && i < |e| && 0 < k <= 3 && cur.Keys == Elems(e[..i])
    ensures Branches(e, i, cur, k - 1) !! Fill(e, i + 1, cur[e[i] := ColorOrder[k - 1]])
  {
    var cur' := cur[e[i] := ColorOrder[k - 1]];
    PrefixElems(e, i);
    BranchesMembers(e, i, cur, k - 1);
    FillMembers(e, i + 1, cur');
    var a := Branches(e, i, cur, k - 1);
    forall f | f in a ensures f !in Fill(e, i + 1, cur') {
      assert f[e[i]] in ColorOrder[..k - 1];
      assert ColorOrder[k - 1] !in ColorOrder[..k - 1];
    }
  }

  /** The colourings the first backtracking produces for bag `e`; none for an empty bag. */
  function ColoringsOf(e: seq<int>): set<Coloring> {
    if |e| == 0 then {} else Fill(e, 0, map[])
  }

  /** `f` is a key of `t`: the term on which `WellFormed`'s quantifier is instantiated. */
  predicate Has(t: Table, f: Coloring) {
    f in t
  }

  /** A table of bag `e` holds an entry for every colouring of `e`, and nothing else; an empty
      bag has an empty table. */
  ghost predicate WellFormed(t: Table, e: seq<int>) {
    forall f {:trigger Has(t, f)} :: Has(t, f) <==> |e| > 0 && IsColoringOf(f, e)
  }

  /** For a bag of distinct vertices, the backtracking produces every colouring of the bag
      and nothing else, 3^k of them for k vertices. */
  lemma ColoringsOfSpec(e: seq<int>)
    requires NoDup(e)
    ensures forall f :: f in ColoringsOf(e) <==> |e| > 0 && IsColoringOf(f, e)
    ensures |ColoringsOf(e)| == if |e| == 0 then 0 else Pow(3, |e|)
  {
    if |e| > 0 {
      assert e[..0] == [];
      FillMembers(e, 0, map[]);
      FillCount(e, 0, map[]);
    }
  }

  /** A well-formed table holds exactly the colourings of its bag. */
  lemma WellFormedMembers(t: Table, e: seq<int>)
    requires WellFormed(t, e)
    ensures forall f :: f in t <==> |e| > 0 && IsColoringOf(f, e)
  {
    forall f ensures f in t <==> |e| > 0 && IsColoringOf(f, e) {
      assert Has(t, f) <==> |e| > 0 && IsColoringOf(f, e);
    }
  }

  lemma UpdateKeepsKeys(t: Table, f: Coloring, x: Cost)
    requires f in t
    ensures t[f := x].Keys == t.Keys
  {
  }

  /** One step of a loop that rewrites the entries of `c0` one key at a time into those of
      `spec`: after rewriting `f`, the rewritten keys are those outside `todo - {f}`. */
  lemma RewriteStep(c: Table, c0: Table, spec: Table, todo: set<Coloring>, f: Coloring, x: Cost)
    requires c.Keys == c0.Keys == spec.Keys && f in todo && todo <= c0.Keys
    requires forall g | g in c0 && g !in todo :: c[g] == spec[g]
    requires x == spec[f]
    ensures c[f := x].Keys == c0.Keys
    ensures forall g | g in c0 && g !in todo - {f} :: c[f := x][g] == spec[g]
  {
  }

  /** Once no key is left to rewrite, the table is `spec`. */
  lemma RewriteDone(c: Table, c0: Table, spec: Table)
    requires c.Keys == c0.Keys == spec.Keys
    requires forall g | g in c0 && g !in {} :: c[g] == spec[g]
    ensures c == spec
  {
  }

  lemma ColoringOfTable(t: Table, e: seq<int>, f: Coloring)
    requires WellFormed(t, e) && f in t
    ensures |e| > 0 && IsColoringOf(f, e)
  {
    assert Has(t, f);
  }

  /** A table with the keys of a well-formed table is well formed. */
  lemma SameKeysWellFormed(t: Table, t': Table, e: seq<int>)
    requires WellFormed(t, e) && t'.Keys == t.Keys
    ensures WellFormed(t', e)
  {
    forall f ensures Has(t', f) <==> |e| > 0 && IsColoringOf(f, e) {
      assert Has(t', f) <==> Has(t, f);
    }
  }

  /** Well-formedness depends only on the set of the bag's vertices. */
  lemma SameElemsWellFormed(t: Table, e1: seq<int>, e2: seq<int>)
    requires WellFormed(t, e1) && Elems(e1) == Elems(e2)
    ensures WellFormed(t, e2)
  {
    assert |e1| > 0 <==> |e2| > 0 by {
      if |e1| > 0 { assert e1[0] in Elems(e2); }
      if |e2| > 0 { assert e2[0] in Elems(e1); }
    }
    forall f ensures Has(t, f) <==> |e2| > 0 && IsColoringOf(f, e2) {
      assert Has(t, f) <==> |e1| > 0 && IsColoringOf(f, e1);
    }
  }

  /** The table the bag constructor builds: every colouring of a non-empty bag at infinity. */
  function InitTable(e: seq<int>): Table {
    InfOn(ColoringsOf(e))
  }

  /** The constructor's table holds one infinite entry per colouring of the bag, 3^k in all
      for a bag of k vertices, and is empty for an empty bag. */
  lemma InitTableSpec(e: seq<int>)
    requires NoDup(e)
    ensures WellFormed(InitTable(e), e)
    ensures forall f :: f in InitTable(e) <==> |e| > 0 && IsColoringOf(f, e)
    ensures forall f | f in InitTable(e) :: InitTable(e)[f] == Inf
    ensures |InitTable(e)| == if |e| == 0 then 0 else Pow(3, |e|)
  {
    ColoringsOfSpec(e);
    assert InitTable(e).Keys == ColoringsOf(e);
    forall f ensures Has(InitTable(e), f) <==> |e| > 0 && IsColoringOf(f, e) {
    }
  }

  // ---------------------------------------------------------------------------------------
  // The consistent triples produced by the second backtracking (decomp.cpp:225-252)

  /** All triples reached from the partial triple (c1, c2, c3) after colouring `e[i..]` with
      the rows of `consistentColorsArr`, in the order the backtracking emits them. */
  function Triples(e: seq<int>, i: nat, c1: Coloring, c2: Coloring, c3: Coloring): seq<Triple>
    requires i <= |e|
    decreases |e| - i, 5
  {
    if i == |e| then [(c1, c2, c3)] else RowTriples(e, i, c1, c2, c3, 4)
  }

  /** The triples emitted by the first `k` iterations of the row loop at depth `i`. */
  function RowTriples(e: seq<int>, i: nat, c1: Coloring, c2: Coloring, c3: Coloring, k: nat): seq<Triple>
    requires i < |e| && k <= 4
    decreases |e| - i, k
  {
    if k == 0 then []
    else
      var r := ConsistentRows[k - 1];
      RowTriples(e, i, c1, c2, c3, k - 1) + Triples(e, i + 1, c1[e[i] := r.0], c2[e[i] := r.1], c3[e[i] := r.2])
  }

  /** `consistentColorings` of a bag: built only for a join bag with at least one vertex. */
  function ConsistentColorings(e: seq<int>): seq<Triple> {
    if |e| == 0 then [] else Triples(e, 0, map[], map[], map[])
  }

  /** Three colourings of bag `e` that agree vertex by vertex with a row of
      `consistentColorsArr`. */
  predicate ConsistentTriple(t: Triple, e: seq<int>) {
    IsColoringOf(t.0, e) && IsColoringOf(t.1, e) && IsColoringOf(t.2, e) &&
    forall x | x in Elems(e) :: ConsistentColors(t.0[x], t.1[x], t.2[x])
  }

  predicate PartialConsistent(c1: Coloring, c2: Coloring, c3: Coloring) {
    c1.Keys == c2.Keys == c3.Keys && forall x | x in c1 :: ConsistentColors(c1[x], c2[x], c3[x])
  }

  lemma {:induction false} TriplesCount(e: seq<int>, i: nat, c1: Coloring, c2: Coloring, c3: Coloring)
    requires i <= |e|
    ensures |Triples(e, i, c1, c2, c3)| == Pow(4, |e| - i)
    decreases |e| - i, 5
  {
    if i < |e| {
      RowTriplesCount(e, i, c1, c2, c3, 4);
    }
  }

  lemma {:induction false} RowTriplesCount(e: seq<int>, i: nat, c1: Coloring, c2: Coloring, c3: Coloring, k: nat)
    requires i < |e| && k <= 4
    ensures |RowTriples(e, i, c1, c2, c3, k)| == k * Pow(4, |e| - i - 1)
    decreases |e| - i, k
  {
    if k > 0 {
      var r := ConsistentRows[k - 1];
      RowTriplesCount(e, i, c1, c2, c3, k - 1);
      TriplesCount(e, i + 1, c1[e[i] := r.0], c2[e[i] := r.1], c3[e[i] := r.2]);
    }
  }

  lemma ExtendPartialConsistent(c1: Coloring, c2: Coloring, c3: Coloring, x: int, k: nat)
    requires PartialConsistent(c1, c2, c3) && x !in c1 && k < |ConsistentRows|
    ensures var r := ConsistentRows[k]; PartialConsistent(c1[x := r.0], c2[x := r.1], c3[x := r.2])
  {
    assert ConsistentRows[k] in ConsistentRows;
  }

  /** The partial triple (c1, c2, c3) is extended by `t`. */
  predicate ExtendsAll(t: Triple, c1: Coloring, c2: Coloring, c3: Coloring) {
    Extends(t.0, c1) && Extends(t.1, c2) && Extends(t.2, c3)
  }

  lemma {:induction false} TriplesMembers(e: seq<int>, i: nat, c1: Coloring, c2: Coloring, c3: Coloring)
    requires NoDup(e) && i <= |e| && c1.Keys == Elems(e[..i]) && PartialConsistent(c1, c2, c3)
    ensures forall t :: t in Triples(e, i, c1, c2, c3) <==> ConsistentTriple(t, e) && ExtendsAll(t, c1, c2, c3)
    decreases |e| - i, 5
  {
    if i == |e| {
      assert e[..i] == e;
      assert ConsistentTriple((c1, c2, c3), e);
      forall t | ConsistentTriple(t, e) && ExtendsAll(t, c1, c2, c3) ensures t == (c1, c2, c3) {
        ExtendsSameKeys(t.0, c1);
        ExtendsSameKeys(t.1, c2);
        ExtendsSameKeys(t.2, c3);
      }
    } else {
      RowTriplesMembers(e, i, c1, c2, c3, 4);
      assert ConsistentRows[..4] == ConsistentRows;
      forall t ensures t in Triples(e, i, c1, c2, c3) <==> ConsistentTriple(t, e) && ExtendsAll(t, c1, c2, c3) {
        assert t in RowTriples(e, i, c1, c2, c3, 4) <==> RowMember(t, e, i, c1, c2, c3, ConsistentRows);
        if ConsistentTriple(t, e) {
          assert e[i] in Elems(e);
          assert (t.0[e[i]], t.1[e[i]], t.2[e[i]]) in ConsistentRows;
        }
      }
    }
  }

  /** `t` is a consistent triple of `e` extending (c1, c2, c3) whose colours at `e[i]` form
      one of `rows`. */
  predicate RowMember(t: Triple, e: seq<int>, i: nat, c1: Coloring, c2: Coloring, c3: Coloring, rows: seq<Row>)
    requires i < |e|
  {
    ConsistentTriple(t, e) && ExtendsAll(t, c1, c2, c3) && (t.0[e[i]], t.1[e[i]], t.2[e[i]]) in rows
  }

  /** One step of the row loop, for one triple. */
  lemma RowStep(e: seq<int>, i: nat, c1: Coloring, c2: Coloring, c3: Coloring, k: nat, t: Triple)
    requires NoDup(e) && i < |e| && 0 < k <= 4 && c1.Keys == Elems(e[..i]) && PartialConsistent(c1, c2, c3)
    requires t in RowTriples(e, i, c1, c2, c3, k - 1) <==> RowMember(t, e, i, c1, c2, c3, ConsistentRows[..k - 1])
    requires var r := ConsistentRows[k - 1];
      var d1, d2, d3 := c1[e[i] := r.0], c2[e[i] := r.1], c3[e[i] := r.2];
      t in Triples(e, i + 1, d1, d2, d3) <==> ConsistentTriple(t, e) && ExtendsAll(t, d1, d2, d3)
    ensures t in RowTriples(e, i, c1, c2, c3, k) <==> RowMember(t, e, i, c1, c2, c3, ConsistentRows[..k])
  {
    var r := ConsistentRows[k - 1];
    var x := e[i];
    NoDupNotBefore(e, i);
    assert ConsistentRows[..k] == ConsistentRows[..k - 1] + [r];
    ExtendsUpdate(t.0, c1, x, r.0);
    ExtendsUpdate(t.1, c2, x, r.1);
    ExtendsUpdate(t.2, c3, x, r.2);
  }

  lemma {:induction false} RowTriplesMembers(e: seq<int>, i: nat, c1: Coloring, c2: Coloring, c3: Coloring, k: nat)
    requires NoDup(e) && i < |e| && k <= 4 && c1.Keys == Elems(e[..i]) && PartialConsistent(c1, c2, c3)
    ensures forall t :: t in RowTriples(e, i, c1, c2, c3, k) <==> RowMember(t, e, i, c1, c2, c3, ConsistentRows[..k])
    decreases |e| - i, k
  {
    if k > 0 {
      RowTriplesMembers(e, i, c1, c2, c3, k - 1);
      var r := ConsistentRows[k - 1];
      var x := e[i];
      var d1, d2, d3 := c1[x := r.0], c2[x := r.1], c3[x := r.2];
      PrefixElems(e, i);
      NoDupNotBefore(e, i);
      ExtendPartialConsistent(c1, c2, c3, x, k - 1);
      TriplesMembers(e, i + 1, d1, d2, d3);
      forall t: Triple
        ensures t in RowTriples(e, i, c1, c2, c3, k) <==> RowMember(t, e, i, c1, c2, c3, ConsistentRows[..k])
      {
        RowStep(e, i, c1, c2, c3, k, t);
      }
    }
  }

  /** The join bag's triples are exactly the consistent triples of its bag, 4^k of them. */
  lemma ConsistentColoringsSpec(e: seq<int>)
    requires NoDup(e) && |e| > 0
    ensures |ConsistentColorings(e)| == Pow(4, |e|)
    ensures forall t :: t in ConsistentColorings(e) <==> ConsistentTriple(t, e)
  {
    assert e[..0] == [];
    TriplesCount(e, 0, map[], map[], map[]);
    TriplesMembers(e, 0, map[], map[], map[]);
  }

  // ---------------------------------------------------------------------------------------
  // Transitions

  /** The vertex an introduce or forget step computes from the two bags' sums. */
  function SumDiff(big: seq<int>, small: seq<int>): int {
    Sum(big) - Sum(small)
  }

  /** `child` is `bag` less one vertex that `child` lacks. */
  ghost predicate OneMore(big: seq<int>, small: seq<int>) {
    NoDup(big) && NoDup(small) && exists v :: v !in Elems(small) && Elems(big) == Elems(small) + {v}
  }

  lemma {:induction false} SumConcat(p: seq<int>, q: seq<int>)
    ensures Sum(p + q) == Sum(p) + Sum(q)
    decreases |q|
  {
    if q != [] {
      assert (p + q)[..|p + q| - 1] == p + q[..|q| - 1];
      assert (p + q)[|p + q| - 1] == q[|q| - 1];
      SumConcat(p, q[..|q| - 1]);
    } else {
      assert p + q == p;
    }
  }

  lemma SumRemove(p: seq<int>, x: int, q: seq<int>)
    ensures Sum(p + [x] + q) == Sum(p + q) + x
  {
    SumConcat(p + [x], q);
    SumConcat(p, [x]);
    SumConcat(p, q);
    assert [x][..0] == [];
  }

  lemma MultisetRemove(p: seq<int>, x: int, q: seq<int>)
    ensures multiset(p + [x] + q) == multiset(p + q) + multiset{x}
  {
  }

  lemma MultisetCancel(m1: multiset<int>, m2: multiset<int>, x: int)
    requires m1 + multiset{x} == m2 + multiset{x}
    ensures m1 == m2
  {
    assert m1 == (m1 + multiset{x}) - multiset{x};
    assert m2 == (m2 + multiset{x}) - multiset{x};
  }

  lemma {:induction false} SumPermutation(a: seq<int>, b: seq<int>)
    requires multiset(a) == multiset(b)
    ensures Sum(a) == Sum(b)
    decreases |a|
  {
    if a != [] {
      var a', x := a[..|a| - 1], a[|a| - 1];
      assert x in multiset(b) by {
        assert a == a' + [x];
      }
      var j :| 0 <= j < |b| && b[j] == x;
      var p, q := b[..j], b[j + 1..];
      assert multiset(a') == multiset(p + q) by {
        assert a == a' + [x] + [];
        assert a' + [] == a';
        MultisetRemove(a', x, []);
        assert b == p + [x] + q;
        MultisetRemove(p, x, q);
        MultisetCancel(multiset(a'), multiset(p + q), x);
      }
      assert Sum(b) == Sum(p + q) + x by {
        assert b == p + [x] + q;
        SumRemove(p, x, q);
      }
      SumPermutation(a', p + q);
    }
  }

  lemma NoDupMultiset(s: seq<int>, x: int)
    requires NoDup(s)
    ensures multiset(s)[x] == if x in s then 1 else 0
  {
    if s != [] {
      var s' := s[..|s| - 1];
      assert s == s' + [s[|s| - 1]];
      assert NoDup(s');
      NoDupMultiset(s', x);
    }
  }

  /** For bags related by one extra vertex, the difference of the sums is that vertex: the
      `v` of `introduceVertexNode` and the `w` of `forgetNode`. */
  lemma {:induction false} SumDiffIsExtraVertex(big: seq<int>, small: seq<int>, v: int)
    requires NoDup(big) && NoDup(small) && v !in Elems(small) && Elems(big) == Elems(small) + {v}
    ensures SumDiff(big, small) == v
  {
    var t := small + [v];
    forall x ensures multiset(big)[x] == multiset(t)[x] {
      NoDupMultiset(big, x);
      NoDupMultiset(small, x);
      assert multiset(t) == multiset(small) + multiset{v};
      assert x in big <==> x in Elems(big);
      assert x in small <==> x in Elems(small);
    }
    assert multiset(big) == multiset(t);
    SumPermutation(big, t);
  }

  /** Bags that differ by one vertex: the difference of their sums names that vertex. */
  lemma OneMoreVertex(big: seq<int>, small: seq<int>)
    requires OneMore(big, small)
    ensures SumDiff(big, small) !in Elems(small) && Elems(big) == Elems(small) + {SumDiff(big, small)}
  {
    var v :| v !in Elems(small) && Elems(big) == Elems(small) + {v};
    SumDiffIsExtraVertex(big, small, v);
  }

  /** `f` gives `x` the colour `c`: the `std::find` of the pair (x, c) in a colouring. */
  predicate HasColor(f: Coloring, x: int, c: Color) {
    x in f && f[x] == c
  }

  /** The entry of an introduce bag for colouring `f` (decomp.cpp:654-709). Below a leaf the
      step reads the colour of the bag's only vertex `front`; otherwise the colour of the new
      vertex `v` and the child's entry for `f` without `v`. */
  function IntroduceEntry(f: Coloring, leafChild: bool, front: int, v: int, child: Table): Cost {
    if leafChild then
      (if HasColor(f, front, White) then Inf else if HasColor(f, front, Grey) then Fin(0) else Fin(1))
    else if HasColor(f, v, White) then Inf
    else
      var childValue := Lookup(child, f - {v});
      if HasColor(f, v, Grey) then childValue else Inc(childValue)
  }

  /** The table an introduce step leaves behind. */
  function IntroduceSpec(t: Table, leafChild: bool, front: int, v: int, child: Table): Table {
    map f | f in t :: IntroduceEntry(f, leafChild, front, v, child)
  }

  /** The table a forget step leaves behind (decomp.cpp:638-646). */
  function ForgetSpec(t: Table, w: int, child: Table): Table {
    map f | f in t :: Min(Lookup(child, f[w := Black]), Lookup(child, f[w := White]))
  }

  /** `c1 + c2 - #Black(f)` for one consistent triple. */
  function JoinValue(tr: Triple, c1: Table, c2: Table): Cost {
    Combine(Lookup(c1, tr.1), Lookup(c2, tr.2), BlackCount(tr.0))
  }

  /** The least join value over the triples of `s` whose first colouring is `f`. */
  function BestJoin(s: seq<Triple>, f: Coloring, c1: Table, c2: Table): Cost {
    if s == [] then Inf
    else
      var last := s[|s| - 1];
      var rest := BestJoin(s[..|s| - 1], f, c1, c2);
      if last.0 == f then Min(rest, JoinValue(last, c1, c2)) else rest
  }

  /** The table a join step leaves behind (decomp.cpp:602-630). */
  function JoinSpec(t: Table, s: seq<Triple>, c1: Table, c2: Table): Table {
    map f | f in t :: Min(t[f], BestJoin(s, f, c1, c2))
  }

  /** The entry of colouring `f` after introducing edge (u, v) (decomp.cpp:556-595). */
  function EdgeEntry(t: Table, f: Coloring, u: int, v: int): Cost
    requires f in t
  {
    if HasColor(f, u, Black) && HasColor(f, v, White) then Lookup(t, f[v := Grey])
    else if HasColor(f, u, White) && HasColor(f, v, Black) then Lookup(t, f[u := Grey])
    else t[f]
  }

  function EdgeSpec(t: Table, u: int, v: int): Table {
    map f | f in t :: EdgeEntry(t, f, u, v)
  }

  /** The introduce-edge steps of a bag, applied in list order. */
  function EdgesSpec(t: Table, edges: seq<(int, int)>): Table
    decreases |edges|
  {
    if edges == [] then t
    else EdgeSpec(EdgesSpec(t, edges[..|edges| - 1]), edges[|edges| - 1].0, edges[|edges| - 1].1)
  }
}
