/** Colours, costs and colourings of the dominating-set dynamic programme (decomp.cpp). */
module Colors {

  /** White: must be dominated; Black: in the dominating set; Grey: need not be dominated. */
  datatype Color = White | Black | Grey

  /** The iteration order of `colorArr`. */
  const ColorOrder: seq<Color> := [White, Black, Grey]

  lemma EveryColorInOrder()
    ensures forall c: Color :: c in ColorOrder
  {
    forall c: Color ensures c in ColorOrder {
      match c
      case White => assert ColorOrder[0] == c;
      case Black => assert ColorOrder[1] == c;
      case Grey => assert ColorOrder[2] == c;
    }
  }

  /** One row (f, f1, f2) of `consistentColorsArr`: a colour at a join node and the colours
      its two children must carry. */
  type Row = (Color, Color, Color)

  /** The rows of `consistentColorsArr`, in declaration order. */
  const ConsistentRows: seq<Row> := [(Black, Black, Black), (White, White, Grey), (White, Grey, White), (Grey, Grey, Grey)]

  /** A colour pattern for a join node and its two children is consistent when it is a row. */
  predicate ConsistentColors(c: Color, c1: Color, c2: Color) {
    (c, c1, c2) in ConsistentRows
  }

  lemma ConsistentColorsCases(c: Color, c1: Color, c2: Color)
    ensures ConsistentColors(c, c1, c2) <==>
      (c == Black && c1 == Black && c2 == Black) ||
      (c == White && ((c1 == White && c2 == Grey) || (c1 == Grey && c2 == White))) ||
      (c == Grey && c1 == Grey && c2 == Grey)
  {
  }

  /** A table entry: `Fin(n)` or infinity, which the source encodes as `INT_MAX`. */
  datatype Cost = Fin(n: int) | Inf

  /** `a` is at most `b`; infinity is the largest cost. */
  predicate Le(a: Cost, b: Cost) {
    b.Inf? || (a.Fin? && a.n <= b.n)
  }

  /** `std::min` where `INT_MAX` plays infinity. */
  function Min(a: Cost, b: Cost): (r: Cost)
    ensures Le(r, a) && Le(r, b)
    ensures r == a || r == b
  {
    if a.Inf? then b else if b.Inf? then a else Fin(if a.n <= b.n then a.n else b.n)
  }

  lemma MinAssoc(a: Cost, b: Cost, c: Cost)
    ensures Min(Min(a, b), c) == Min(a, Min(b, c))
  {
  }

  /** One more vertex in the dominating set; infinity stays infinity. */
  function Inc(a: Cost): (r: Cost)
    ensures r.Inf? <==> a.Inf?
    ensures a.Fin? ==> r.n == a.n + 1
  {
    if a.Inf? then Inf else Fin(a.n + 1)
  }

  /** `c1 + c2 - k` of the join step, infinity whenever either operand is infinity. */
  function Combine(a: Cost, b: Cost, k: int): (r: Cost)
    ensures r.Inf? <==> a.Inf? || b.Inf?
    ensures r.Fin? ==> r.n == a.n + b.n - k
  {
    if a.Inf? || b.Inf? then Inf else Fin(a.n + b.n - k)
  }

  /** An assignment of colours to the vertices of a bag. */
  type Coloring = map<int, Color>

  /** The number of (vertex, Black) pairs of a colouring: `compatibleSetSize` of the join step. */
  function BlackCount(f: Coloring): nat {
    |set p | p in f.Items && p.1 == Black|
  }

  /** An interned (vertex, colour) pair of `lookup`; the model compares pairs by value. */
  type Pair = (int, Color)

  predicate NoDupVertices(k: seq<Pair>) {
    forall i, j :: 0 <= i < j < |k| ==> k[i].0 != k[j].0
  }

  /** The colouring a list of pairs denotes. */
  function ToMap(k: seq<Pair>): Coloring {
    if k == [] then map[] else ToMap(k[..|k| - 1])[k[|k| - 1].0 := k[|k| - 1].1]
  }

  /** The relation `ColoringEquality` decides: equal lengths and every pair of the first
      occurs in the second. */
  predicate SameColoring(k1: seq<Pair>, k2: seq<Pair>) {
    |k1| == |k2| && forall p :: p in k1 ==> p in k2
  }

  /** Order-insensitive equality of two pair lists, as the nested loops of the source.
      `SameColoringIffSameMap` shows that, for lists that repeat no vertex, it is equality
      of the colourings they denote, and `SameColoringIgnoresOrder` that reordering either
      list never changes it. */
  method ColoringEquality(key1: seq<Pair>, key2: seq<Pair>) returns (eq: bool)
    ensures eq <==> SameColoring(key1, key2)
    ensures |key1| != |key2| ==> !eq
  {
    if |key1| != |key2| {
      return false;
    }
    var i := 0;
    while i < |key1|
      invariant 0 <= i <= |key1|
      invariant forall a :: 0 <= a < i ==> key1[a] in key2
    {
      var contains := false;
      var j := 0;
      while j < |key2|
        invariant 0 <= j <= |key2|
        invariant contains <==> key1[i] in key2[..j]
      {
        if key1[i] == key2[j] {
          contains := true;
          break;
        }
        j := j + 1;
      }
      if !contains {
        assert key2[..j] == key2;
        return false;
      }
      i := i + 1;
    }
    return true;
  }

  lemma {:induction false} ToMapFacts(k: seq<Pair>)
    requires NoDupVertices(k)
    ensures |ToMap(k)| == |k|
    ensures forall p :: p in k <==> p.0 in ToMap(k) && ToMap(k)[p.0] == p.1
  {
    if k != [] {
      var init := k[..|k| - 1];
      var last := k[|k| - 1];
      assert NoDupVertices(init);
      ToMapFacts(init);
      assert forall p :: p in init ==> p.0 != last.0 by {
        forall p | p in init ensures p.0 != last.0 {
          var i :| 0 <= i < |init| && init[i] == p;
          assert k[i] == p;
        }
      }
      forall x | x in ToMap(init) ensures x != last.0 {
        assert (x, ToMap(init)[x]) in init;
      }
      assert k == init + [last];
    }
  }

  lemma SubsetOfEqualSize<T>(a: set<T>, b: set<T>)
    requires a <= b && |a| == |b|
    ensures a == b
  {
    assert b == a + (b - a);
    assert |b| == |a| + |b - a|;
    assert b - a == {};
  }

  /** For pair lists without a repeated vertex, `ColoringEquality` holds exactly when both
      lists denote the same colouring; this is what lets the model key tables by maps. */
  lemma SameColoringIffSameMap(k1: seq<Pair>, k2: seq<Pair>)
    requires NoDupVertices(k1) && NoDupVertices(k2)
    ensures SameColoring(k1, k2) <==> ToMap(k1) == ToMap(k2)
  {
    ToMapFacts(k1);
    ToMapFacts(k2);
    var m1, m2 := ToMap(k1), ToMap(k2);
    if SameColoring(k1, k2) {
      assert m1.Keys <= m2.Keys by {
        forall x | x in m1 ensures x in m2 {
          assert (x, m1[x]) in k1;
        }
      }
      SubsetOfEqualSize(m1.Keys, m2.Keys);
      forall x | x in m1 ensures m1[x] == m2[x] {
        assert (x, m1[x]) in k2;
      }
    }
  }

  /** Reordering either list never changes the outcome of `ColoringEquality`. */
  lemma SameColoringIgnoresOrder(k1: seq<Pair>, k1': seq<Pair>, k2: seq<Pair>, k2': seq<Pair>)
    requires multiset(k1) == multiset(k1') && multiset(k2) == multiset(k2')
    ensures SameColoring(k1, k2) <==> SameColoring(k1', k2')
  {
    assert |k1| == |multiset(k1)| == |k1'|;
    assert |k2| == |multiset(k2)| == |k2'|;
    forall p ensures p in k1 <==> p in k1' {
      assert p in k1 <==> p in multiset(k1);
      assert p in k1' <==> p in multiset(k1');
    }
    forall p ensures p in k2 <==> p in k2' {
      assert p in k2 <==> p in multiset(k2);
      assert p in k2' <==> p in multiset(k2');
    }
  }

  function Pow(b: nat, e: nat): nat {
    if e == 0 then 1 else b * Pow(b, e - 1)
  }

  /** `std::accumulate(v.cbegin(), v.cend(), 0)` over unbounded integers. */
  function Sum(s: seq<int>): int {
    if s == [] then 0 else Sum(s[..|s| - 1]) + s[|s| - 1]
  }
}
