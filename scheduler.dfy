/** The introduce-edge scheduler of read.py: the nodes of the nice tree decomposition are
    walked in a fixed order while a set `highestVerts` of the vertices seen so far grows;
    when a vertex `v` of a node's bag is seen for the first time, every edge (u, v) to an
    already seen `u` is scheduled at that node. The total count is then checked against
    the number of graph edges. */
module Scheduler {
  import opened Tokens
  import opened Colors
  import opened Tables
  import opened Transitions

  /** An undirected edge {a, b} is stored once, as (a, b) with a <= b. */
  type Edges = set<(int, int)>

  predicate Normalized(E: Edges) {
    forall e | e in E :: e.0 <= e.1
  }

  function Norm(u: int, v: int): (int, int) {
    if u <= v then (u, v) else (v, u)
  }

  /** `G.has_edge((u, v))`: the orientation does not matter. */
  predicate HasEdge(E: Edges, u: int, v: int) {
    Norm(u, v) in E
  }

  /** The union of the bags. */
  function Vertices(nodes: seq<seq<int>>): set<int> {
    if nodes == [] then {} else Vertices(nodes[..|nodes| - 1]) + Elems(nodes[|nodes| - 1])
  }

  /** `highestVerts` just before position t of node i is looked at. */
  function SeenBefore(nodes: seq<seq<int>>, i: nat, t: nat): set<int>
    requires i < |nodes| && t <= |nodes[i]|
  {
    Vertices(nodes[..i]) + Elems(nodes[i][..t])
  }

  /** The vertex at position t of node i is seen there for the first time. */
  predicate BornAt(nodes: seq<seq<int>>, i: nat, t: nat)
    requires i < |nodes| && t < |nodes[i]|
  {
    nodes[i][t] !in SeenBefore(nodes, i, t)
  }

  /** (u, v) is scheduled at node i, by position t of its bag. */
  predicate ScheduledBy(nodes: seq<seq<int>>, E: Edges, i: nat, t: nat, e: (int, int))
    requires i < |nodes| && t < |nodes[i]|
  {
    nodes[i][t] == e.1 && BornAt(nodes, i, t) && e.0 in SeenBefore(nodes, i, t) && HasEdge(E, e.0, e.1)
  }

  /** (u, v) is in `introduceEdgeNodes[node i]`: v is first seen at node i, u was seen
      before it, and u and v are adjacent. */
  ghost predicate Scheduled(nodes: seq<seq<int>>, E: Edges, i: nat, e: (int, int))
    requires i < |nodes|
  {
    exists t | 0 <= t < |nodes[i]| :: ScheduledBy(nodes, E, i, t, e)
  }

  /** The list of node i is exactly its scheduled edges, each once. */
  ghost predicate NodeSchedule(nodes: seq<seq<int>>, E: Edges, i: nat, list: seq<(int, int)>)
    requires i < |nodes|
  {
    Distinct(list) && forall e :: e in list <==> Scheduled(nodes, E, i, e)
  }

  /** The edges between two distinct vertices of S. */
  function Covered(E: Edges, S: set<int>): Edges {
    set e | e in E && e.0 != e.1 && e.0 in S && e.1 in S
  }

  function TotalLength(intro: seq<seq<(int, int)>>): nat {
    if intro == [] then 0 else TotalLength(intro[..|intro| - 1]) + |intro[|intro| - 1]|
  }

  /** The scheduling loop of read.py: one introduce list per node, the number of scheduled
      edges, and the final `highestVerts`. */
  method ScheduleEdges(nodes: seq<seq<int>>, E: Edges) returns (intro: seq<seq<(int, int)>>, count: nat, highestVerts: set<int>)
    requires Normalized(E)
    ensures |intro| == |nodes|
    ensures forall i | 0 <= i < |nodes| :: NodeSchedule(nodes, E, i, intro[i])
    ensures count == TotalLength(intro)
    ensures count == |Covered(E, Vertices(nodes))|
    ensures highestVerts == Vertices(nodes)
  {
    intro, count, highestVerts := [], 0, {};
    for i := 0 to |nodes|
      invariant |intro| == i
      invariant forall k | 0 <= k < i :: NodeSchedule(nodes, E, k, intro[k])
      invariant highestVerts == Vertices(nodes[..i])
      invariant count == TotalLength(intro) == |Covered(E, highestVerts)|
    {
      var list;
      list, count, highestVerts := ScheduleNode(nodes, E, i, count, highestVerts);
      assert nodes[..i + 1][..i] == nodes[..i];
      assert (intro + [list])[..i] == intro;
      intro := intro + [list];
    }
    assert nodes[..|nodes|] == nodes;
  }

  /** The body of the loop for node i: `for v in node[1]: ...`. */
  method ScheduleNode(nodes: seq<seq<int>>, E: Edges, i: nat, count0: nat, seen0: set<int>)
    returns (list: seq<(int, int)>, count: nat, highestVerts: set<int>)
    requires Normalized(E) && i < |nodes|
    requires seen0 == Vertices(nodes[..i]) && count0 == |Covered(E, seen0)|
    ensures NodeSchedule(nodes, E, i, list)
    ensures highestVerts == seen0 + Elems(nodes[i])
    ensures count == count0 + |list| == |Covered(E, highestVerts)|
  {
    var bag := nodes[i];
    list, count, highestVerts := [], count0, seen0;
    for t := 0 to |bag|
      invariant highestVerts == SeenBefore(nodes, i, t)
      invariant count == count0 + |list| == |Covered(E, highestVerts)|
      invariant Distinct(list)
      invariant forall e :: e in list <==> exists s | 0 <= s < t :: ScheduledBy(nodes, E, i, s, e)
    {
      var v := bag[t];
      assert bag[..t + 1] == bag[..t] + [v];
      if v !in highestVerts {
        var found;
        found, count := EdgesToSeen(E, highestVerts, v, count);
        CoveredGrow(E, highestVerts, v, found);
        DistinctAppend(nodes, E, i, t, list, found);
        list := list + found;
        highestVerts := highestVerts + {v};
      } else {
        NothingBornAt(nodes, E, i, t);
      }
    }
    assert bag[..|bag|] == bag;
  }

  /** `for u in highestVerts: if G.has_edge((u, v)): ...`. The set is walked in no
      particular order. */
  method EdgesToSeen(E: Edges, seen: set<int>, v: int, count0: nat) returns (found: seq<(int, int)>, count: nat)
    ensures Distinct(found)
    ensures forall e :: e in found <==> e.1 == v && e.0 in seen && HasEdge(E, e.0, v)
    ensures count == count0 + |found|
  {
    var rest := seen;
    found, count := [], count0;
    while rest != {}
      invariant rest <= seen
      invariant Distinct(found)
      invariant forall e :: e in found <==> e.1 == v && e.0 in seen - rest && HasEdge(E, e.0, v)
      invariant count == count0 + |found|
      decreases |rest|
    {
      HasElement(rest);
      var u :| u in rest;
      if HasEdge(E, u, v) {
        count := count + 1;
        found := found + [(u, v)];
      }
      rest := rest - {u};
    }
  }

  lemma HasElement(s: set<int>)
    requires s != {}
    ensures exists y :: y in s
  {
    if forall y :: y !in s {
      assert false;
    }
  }

  /** A vertex seen before position t is not born there; nothing is scheduled by t. */
  lemma NothingBornAt(nodes: seq<seq<int>>, E: Edges, i: nat, t: nat)
    requires i < |nodes| && t < |nodes[i]| && nodes[i][t] in SeenBefore(nodes, i, t)
    ensures forall e :: !ScheduledBy(nodes, E, i, t, e)
  {
  }

  lemma DistinctAppend(nodes: seq<seq<int>>, E: Edges, i: nat, t: nat, list: seq<(int, int)>, found: seq<(int, int)>)
    requires i < |nodes| && t < |nodes[i]| && BornAt(nodes, i, t)
    requires Distinct(list) && Distinct(found)
    requires forall e :: e in list <==> exists s | 0 <= s < t :: ScheduledBy(nodes, E, i, s, e)
    requires forall e :: e in found <==> e.1 == nodes[i][t] && e.0 in SeenBefore(nodes, i, t) && HasEdge(E, e.0, e.1)
    ensures Distinct(list + found)
    ensures forall e :: e in list + found <==> exists s | 0 <= s < t + 1 :: ScheduledBy(nodes, E, i, s, e)
  {
    var v := nodes[i][t];
    forall a, b | 0 <= a < |list| && 0 <= b < |found| ensures list[a] != found[b] {
      assert list[a] in list;
      var s :| 0 <= s < t && ScheduledBy(nodes, E, i, s, list[a]);
      assert nodes[i][s] in Elems(nodes[i][..t]);
    }
    var l := list + found;
    forall e ensures e in l <==> exists s | 0 <= s < t + 1 :: ScheduledBy(nodes, E, i, s, e) {
      if e in found {
        assert ScheduledBy(nodes, E, i, t, e);
      }
      if exists s | 0 <= s < t + 1 :: ScheduledBy(nodes, E, i, s, e) {
        var s :| 0 <= s < t + 1 && ScheduledBy(nodes, E, i, s, e);
        if s == t {
          assert e in found;
        } else {
          assert e in list;
        }
      }
    }
    forall a, b | 0 <= a < b < |l| ensures l[a] != l[b] {
      if b < |list| {
        assert l[a] == list[a] && l[b] == list[b];
      } else if a >= |list| {
        assert l[a] == found[a - |list|] && l[b] == found[b - |list|];
      } else {
        assert l[a] == list[a] && l[b] == found[b - |list|];
      }
    }
  }

  /** Seeing a new vertex v adds exactly the edges from v to the vertices seen so far. */
  lemma CoveredGrow(E: Edges, S: set<int>, v: int, found: seq<(int, int)>)
    requires Normalized(E) && v !in S && Distinct(found)
    requires forall e :: e in found <==> e.1 == v && e.0 in S && HasEdge(E, e.0, v)
    ensures |Covered(E, S + {v})| == |Covered(E, S)| + |found|
  {
    var added := set e | e in found :: Norm(e.0, e.1);
    assert Covered(E, S + {v}) == Covered(E, S) + added by {
      forall e | e in Covered(E, S + {v}) && e !in Covered(E, S) ensures e in added {
        var u := if e.0 == v then e.1 else e.0;
        assert Norm(u, v) == e;
        assert (u, v) in found;
      }
    }
    assert Covered(E, S) * added == {};
    NormCount(found, v);
  }

  lemma {:induction false} NormCount(found: seq<(int, int)>, v: int)
    requires Distinct(found) && forall k | 0 <= k < |found| :: found[k].1 == v
    ensures |set e | e in found :: Norm(e.0, e.1)| == |found|
  {
    if found != [] {
      var p, x := found[..|found| - 1], found[|found| - 1];
      assert Distinct(p);
      NormCount(p, v);
      assert found == p + [x];
      NormSetSnoc(p, x);
    }
  }

  lemma NormSetSnoc(p: seq<(int, int)>, x: (int, int))
    ensures (set e | e in p + [x] :: Norm(e.0, e.1)) == (set e | e in p :: Norm(e.0, e.1)) + {Norm(x.0, x.1)}
  {
  }

  // ---- The count check ----

  datatype ScheduleError = WrongEdgeCount

  /** Every edge joins two distinct vertices of S. */
  predicate AllCovered(E: Edges, S: set<int>) {
    forall e | e in E :: e.0 != e.1 && e.0 in S && e.1 in S
  }

  /** The scheduling loop followed by `if edge_insert_count != G.num_edges(): raise`: the
      check fails exactly when some edge is a loop or has an endpoint in no bag. */
  method IntroduceEdgeNodes(nodes: seq<seq<int>>, E: Edges) returns (r: Result<seq<seq<(int, int)>>, ScheduleError>)
    requires Normalized(E)
    ensures r.Ok? <==> AllCovered(E, Vertices(nodes))
    ensures r.Ok? ==> |r.value| == |nodes| && forall i | 0 <= i < |nodes| :: NodeSchedule(nodes, E, i, r.value[i])
  {
    var intro, count, highestVerts := ScheduleEdges(nodes, E);
    CountCheck(E, highestVerts);
    if count != |E| {
      return Err(WrongEdgeCount);
    }
    return Ok(intro);
  }

  /** The covered edges are all the edges exactly when there are as many of them. */
  lemma CountCheck(E: Edges, S: set<int>)
    ensures |Covered(E, S)| == |E| <==> AllCovered(E, S)
  {
    var c := Covered(E, S);
    assert c <= E;
    if |c| == |E| && !AllCovered(E, S) {
      var e :| e in E && !(e.0 != e.1 && e.0 in S && e.1 in S);
      SubsetSize(c + {e}, E);
    }
    if AllCovered(E, S) {
      assert c == E;
    }
  }

  lemma SubsetSize(a: Edges, b: Edges)
    requires a <= b
    ensures |a| <= |b|
  {
    assert b == a + (b - a);
  }

  // ---- Each vertex is first seen once, each edge scheduled once ----

  lemma {:induction false} VerticesHas(nodes: seq<seq<int>>, n: nat, k: nat, s: nat)
    requires k < n <= |nodes| && s < |nodes[k]|
    ensures nodes[k][s] in Vertices(nodes[..n])
  {
    assert nodes[..n][..n - 1] == nodes[..n - 1];
    if k < n - 1 {
      VerticesHas(nodes, n - 1, k, s);
    } else {
      assert nodes[..n][n - 1] == nodes[k];
    }
  }

  lemma {:induction false} VerticesWitness(nodes: seq<seq<int>>, n: nat, x: int) returns (k: nat, s: nat)
    requires n <= |nodes| && x in Vertices(nodes[..n])
    ensures k < n && s < |nodes[k]| && nodes[k][s] == x
  {
    assert nodes[..n][..n - 1] == nodes[..n - 1];
    if x in Vertices(nodes[..n - 1]) {
      k, s := VerticesWitness(nodes, n - 1, x);
    } else {
      assert x in nodes[n - 1];
      k := n - 1;
      s :| s < |nodes[k]| && nodes[k][s] == x;
    }
  }

  /** A vertex first seen at (k, s) and already seen at (i, t) was first seen earlier. */
  lemma BornBefore(nodes: seq<seq<int>>, i: nat, t: nat, k: nat, s: nat)
    requires i < |nodes| && t <= |nodes[i]| && k < |nodes| && s < |nodes[k]|
    requires BornAt(nodes, k, s) && nodes[k][s] in SeenBefore(nodes, i, t)
    ensures k < i || (k == i && s < t)
  {
    var x := nodes[k][s];
    if x in Vertices(nodes[..i]) {
      var k', s' := VerticesWitness(nodes, i, x);
      if k' < k {
        VerticesHas(nodes, k, k', s');
      }
    } else {
      var s' :| 0 <= s' < t && nodes[i][..t][s'] == x;
      if k > i {
        VerticesHas(nodes, k, i, s');
      }
    }
  }

  /** No vertex is first seen twice. */
  lemma BirthUnique(nodes: seq<seq<int>>, i: nat, t: nat, k: nat, s: nat)
    requires i < |nodes| && t < |nodes[i]| && k < |nodes| && s < |nodes[k]|
    requires BornAt(nodes, i, t) && BornAt(nodes, k, s) && nodes[i][t] == nodes[k][s]
    ensures i == k && t == s
  {
    if i < k {
      VerticesHas(nodes, k, i, t);
    } else if k < i {
      VerticesHas(nodes, i, k, s);
    }
  }

  /** No undirected edge is scheduled twice, at the same node or at two nodes. */
  lemma ScheduledOnce(nodes: seq<seq<int>>, E: Edges, i: nat, k: nat, e: (int, int), e': (int, int))
    requires i < |nodes| && k < |nodes|
    requires Scheduled(nodes, E, i, e) && Scheduled(nodes, E, k, e')
    requires Norm(e.0, e.1) == Norm(e'.0, e'.1)
    ensures i == k && e == e'
  {
    var t :| 0 <= t < |nodes[i]| && ScheduledBy(nodes, E, i, t, e);
    var s :| 0 <= s < |nodes[k]| && ScheduledBy(nodes, E, k, s, e');
    if e.1 == e'.1 {
      BirthUnique(nodes, i, t, k, s);
    } else {
      // e' is e reversed: each endpoint would have been seen before the other.
      assert e.0 == e'.1 && e.1 == e'.0;
      BornBefore(nodes, i, t, k, s);
      BornBefore(nodes, k, s, i, t);
    }
  }

  /** A scheduled edge always has its later endpoint in the node's bag. */
  lemma ScheduledInBag(nodes: seq<seq<int>>, E: Edges, i: nat, e: (int, int))
    requires i < |nodes| && Scheduled(nodes, E, i, e)
    ensures e.1 in Elems(nodes[i]) && HasEdge(E, e.0, e.1) && e.0 != e.1
  {
  }

  /** But its earlier endpoint need not be: when it is missing from the bag, the
      introduce-edge step of that bag leaves the table as it was. */
  lemma ScheduledOutsideBag(nodes: seq<seq<int>>, E: Edges, i: nat, e: (int, int), t: Table)
    requires i < |nodes| && Scheduled(nodes, E, i, e) && e.0 !in Elems(nodes[i])
    requires NoDup(nodes[i]) && WellFormed(t, nodes[i])
    ensures EdgeSpec(t, e.0, e.1) == t
  {
    EdgeOutsideBag(t, nodes[i], e.0, e.1);
  }

  /** Bags [1] then [2] with the edge {1, 2}: the edge is scheduled at the second node,
      whose bag lacks 1. */
  lemma ScheduleMissesBag()
    ensures Scheduled([[1], [2]], {(1, 2)}, 1, (1, 2)) && 1 !in Elems([2])
  {
    var nodes: seq<seq<int>> := [[1], [2]];
    assert nodes[..1] == [[1]] && nodes[..1][..0] == [];
    assert Vertices(nodes[..1]) == {1};
    assert ScheduledBy(nodes, {(1, 2)}, 1, 0, (1, 2));
  }
}
