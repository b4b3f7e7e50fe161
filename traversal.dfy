/** The logic part of `main` in decomp.cpp (lines 465-537): linking every bag to its parent,
    the post-order traversal from the root, and the loop that runs the table transitions
    bottom-up and reports the root's minimum. */
module Traversal {
  import opened Colors
  import opened Tables
  import opened Bags
  import opened Tokens

  // ---------------------------------------------------------------------------------------
  // The tree as the bags' fixed fields describe it

  /** `bags[number]` is the bag numbered `number`, as `main` assumes when it indexes the
      vector by bag number. */
  predicate Indexed(bags: seq<Bag>) {
    forall i | 0 <= i < |bags| :: bags[i].number == i
  }

  /** Every parent number names a bag. */
  predicate ParentsInRange(bags: seq<Bag>) {
    forall i | 0 <= i < |bags| && bags[i].parentNumber.Some? :: bags[i].parentNumber.value < |bags|
  }

  // ---------------------------------------------------------------------------------------
  // Child linking (decomp.cpp:465-479)

  /** The bags among the first `n` whose parent is `p`, in the order the linking loop meets
      them. */
  function KidsBelow(bags: seq<Bag>, p: nat, n: nat): seq<nat>
    requires n <= |bags|
  {
    if n == 0 then []
    else KidsBelow(bags, p, n - 1) + (if bags[n - 1].parentNumber == Some(p) then [n - 1] else [])
  }

  function Kids(bags: seq<Bag>, p: nat): seq<nat> {
    KidsBelow(bags, p, |bags|)
  }

  /** What the linking loop records for a parent whose kids are `ks`: the first kid fills
      `child1`, and every later kid overwrites `child2`. */
  function Linked(ks: seq<nat>): (Option<nat>, Option<nat>) {
    if |ks| == 0 then (None, None)
    else if |ks| == 1 then (Some(ks[0]), None)
    else (Some(ks[0]), Some(ks[|ks| - 1]))
  }

  function Children(bags: seq<Bag>, p: nat): (Option<nat>, Option<nat>) {
    Linked(Kids(bags, p))
  }

  /** The child fields of bag `p` are those the linking loop records. */
  ghost predicate LinkedAt(bags: seq<Bag>, p: nat)
    requires p < |bags|
    reads (bags[p] as Bag)`child1, (bags[p] as Bag)`child2
  {
    (bags[p].child1, bags[p].child2) == Children(bags, p)
  }

  ghost predicate LinkedAll(bags: seq<Bag>)
    reads (set b | b in bags)`child1, (set b | b in bags)`child2
  {
    forall p | 0 <= p < |bags| :: LinkedAt(bags, p)
  }

  /** One more kid: it fills `child1` when that is still empty, and `child2` otherwise. */
  lemma LinkedStep(ks: seq<nat>, k: nat)
    ensures Linked(ks).0.None? <==> ks == []
    ensures Linked(ks + [k]) == if Linked(ks).0.None? then (Some(k), None) else (Linked(ks).0, Some(k))
  {
  }

  lemma {:induction false} KidsBelowFacts(bags: seq<Bag>, p: nat, n: nat)
    requires n <= |bags|
    ensures forall j | 0 <= j < |KidsBelow(bags, p, n)| :: KidsBelow(bags, p, n)[j] < n
    ensures forall k: nat :: k in KidsBelow(bags, p, n) <==> k < n && bags[k].parentNumber == Some(p)
    ensures forall j1, j2 | 0 <= j1 < j2 < |KidsBelow(bags, p, n)| ::
      KidsBelow(bags, p, n)[j1] < KidsBelow(bags, p, n)[j2]
  {
    if n > 0 {
      KidsBelowFacts(bags, p, n - 1);
    }
  }

  /** The children the linking loop records for `p` are bags whose parent is `p`, and two
      recorded children are different bags. */
  lemma ChildrenFacts(bags: seq<Bag>, p: nat)
    ensures Children(bags, p).0.Some? ==>
      Children(bags, p).0.value < |bags| && bags[Children(bags, p).0.value].parentNumber == Some(p)
    ensures Children(bags, p).1.Some? ==>
      Children(bags, p).0.Some? && Children(bags, p).1.value < |bags| &&
      bags[Children(bags, p).1.value].parentNumber == Some(p) &&
      Children(bags, p).0.value != Children(bags, p).1.value
  {
    KidsBelowFacts(bags, p, |bags|);
    var ks := Kids(bags, p);
    if |ks| > 0 {
      assert ks[0] in ks;
      assert ks[|ks| - 1] in ks;
    }
  }

  /** The child fields of all bags after the linking loop has visited the first `n` bags. */
  function LinksBelow(bags: seq<Bag>, n: nat): (links: seq<(Option<nat>, Option<nat>)>)
    requires n <= |bags| && ParentsInRange(bags)
    ensures |links| == |bags|
  {
    if n == 0 then seq(|bags|, p => (None, None))
    else
      var links := LinksBelow(bags, n - 1);
      var nd := bags[n - 1];
      if nd.parentNumber.None? then links
      else
        var q, k: nat := nd.parentNumber.value, n - 1;
        var entry: (Option<nat>, Option<nat>) := if links[q].0.None? then (Some(k), links[q].1) else (links[q].0, Some(k));
        links[q := entry]
  }

  /** Visiting the bags in order gives each parent its first kid as `child1` and its last
      later kid as `child2`. */
  lemma {:induction false} LinksBelowAreLinked(bags: seq<Bag>, n: nat)
    requires n <= |bags| && ParentsInRange(bags)
    ensures forall p | 0 <= p < |bags| :: LinksBelow(bags, n)[p] == Linked(KidsBelow(bags, p, n))
  {
    if n > 0 {
      LinksBelowAreLinked(bags, n - 1);
      forall p | 0 <= p < |bags| ensures LinksBelow(bags, n)[p] == Linked(KidsBelow(bags, p, n)) {
        LinkedStep(KidsBelow(bags, p, n - 1), n - 1);
        assert KidsBelow(bags, p, n - 1) + [] == KidsBelow(bags, p, n - 1);
      }
    }
  }

  /** The linking loop: each bag with a parent is entered into that parent's `child1` if it
      is still empty, and into `child2` otherwise; no table changes. */
  method LinkChildren(bags: seq<Bag>)
    requires Indexed(bags) && ParentsInRange(bags)
    requires forall i | 0 <= i < |bags| :: bags[i].child1 == None && bags[i].child2 == None
    modifies (set b | b in bags)`child1, (set b | b in bags)`child2
    ensures LinkedAll(bags)
  {
    for i := 0 to |bags|
      invariant forall p | 0 <= p < |bags| :: (bags[p].child1, bags[p].child2) == LinksBelow(bags, i)[p]
    {
      var bag := bags[i];
      if bag.parentNumber.Some? {
        var parentNumber := bag.parentNumber.value;
        DistinctBags(bags, parentNumber);
        RecordChild(bags[parentNumber], bag.number);
      }
    }
    LinksBelowAreLinked(bags, |bags|);
  }

  /** The body of the linking loop for one bag with a parent. */
  method RecordChild(parent: Bag, number: nat)
    modifies parent`child1, parent`child2
    ensures (parent.child1, parent.child2) ==
      if old(parent.child1).None? then (Some(number), old(parent.child2)) else (old(parent.child1), Some(number))
  {
    if parent.child1.None? {
      parent.child1 := Some(number);
    } else {
      parent.child2 := Some(number);
    }
  }

  /** Bags with different numbers are different objects. */
  lemma DistinctBags(bags: seq<Bag>, q: nat)
    requires Indexed(bags) && q < |bags|
    ensures forall p | 0 <= p < |bags| && p != q :: bags[p] != bags[q]
  {
  }

  /** A parent with at most two kids has each of them recorded as `child1` or `child2`. */
  lemma AtMostTwoKidsRecorded(bags: seq<Bag>, p: nat, k: nat)
    requires |Kids(bags, p)| <= 2 && k < |bags| && bags[k].parentNumber == Some(p)
    ensures Children(bags, p).0 == Some(k) || Children(bags, p).1 == Some(k)
  {
    KidsBelowFacts(bags, p, |bags|);
    var ks := Kids(bags, p);
    assert k in ks;
  }

  /** A parent with three or more kids keeps only the first and the last: the kids in
      between are linked to no bag. */
  lemma MiddleKidsDropped(bags: seq<Bag>, p: nat, j: nat)
    requires 0 < j < |Kids(bags, p)| - 1
    ensures Children(bags, p).0 != Some(Kids(bags, p)[j]) && Children(bags, p).1 != Some(Kids(bags, p)[j])
  {
    KidsBelowFacts(bags, p, |bags|);
  }

  // ---------------------------------------------------------------------------------------
  // Post-order traversal (decomp.cpp:480-497)

  /** `rank` strictly grows from every bag to its parent: the parent links form no cycle,
      which the recursive traversal needs to terminate. */
  predicate Ranked(bags: seq<Bag>, rank: seq<nat>) {
    |rank| == |bags| && ParentsInRange(bags) &&
    forall i | 0 <= i < |bags| && bags[i].parentNumber.Some? :: rank[i] < rank[bags[i].parentNumber.value]
  }

  /** The order in which `postorderTraversal(n)` pushes bag numbers: the subtree of the
      recorded first child, then that of the recorded second child, then `n`. */
  function Post(bags: seq<Bag>, rank: seq<nat>, n: nat): seq<nat>
    requires Ranked(bags, rank) && n < |bags|
    decreases rank[n], 1
  {
    SubPost(bags, rank, n, Children(bags, n).0) + SubPost(bags, rank, n, Children(bags, n).1) + [n]
  }

  /** The pushes for a recorded child `k` of `n`; the guard always holds (`ChildrenFacts`). */
  function SubPost(bags: seq<Bag>, rank: seq<nat>, n: nat, k: Option<nat>): seq<nat>
    requires Ranked(bags, rank) && n < |bags|
    decreases rank[n], 0
  {
    if k.Some? && k.value < |bags| && rank[k.value] < rank[n] then Post(bags, rank, k.value) else []
  }

  /** The recursive lambda `postorderTraversal`, with the vector it appends to passed in and
      returned. */
  method PostorderTraversal(bags: seq<Bag>, ghost rank: seq<nat>, number: nat, postorder: seq<nat>)
    returns (r: seq<nat>)
    requires Indexed(bags) && Ranked(bags, rank) && LinkedAll(bags) && number < |bags|
    ensures r == postorder + Post(bags, rank, number)
    decreases rank[number]
  {
    ChildrenFacts(bags, number);
    var bag := bags[number];
    assert LinkedAt(bags, number);
    r := postorder;
    if bag.child1.Some? {
      r := PostorderTraversal(bags, rank, bag.child1.value, r);
    }
    ghost var r1 := r;
    if bag.child2.Some? {
      r := PostorderTraversal(bags, rank, bag.child2.value, r);
    }
    ghost var r2 := r;
    r := r + [bag.number];
    PostUnfold(bags, rank, number, postorder, r1, r2);
  }

  /** The three pushes of one call put `Post(n)` after what the vector held before. */
  lemma PostUnfold(bags: seq<Bag>, rank: seq<nat>, n: nat, p: seq<nat>, r1: seq<nat>, r2: seq<nat>)
    requires Ranked(bags, rank) && n < |bags|
    requires r1 == p + SubPost(bags, rank, n, Children(bags, n).0)
    requires r2 == r1 + SubPost(bags, rank, n, Children(bags, n).1)
    ensures r2 + [n] == p + Post(bags, rank, n)
  {
  }

  /** The bags of `Post(n)`: `n` comes last, every other one lies strictly below `n` and has
      its parent in `Post(n)` too. */
  lemma {:induction false} PostFacts(bags: seq<Bag>, rank: seq<nat>, n: nat)
    requires Ranked(bags, rank) && n < |bags|
    ensures |Post(bags, rank, n)| > 0 && Post(bags, rank, n)[|Post(bags, rank, n)| - 1] == n
    ensures forall y | y in Post(bags, rank, n) :: y < |bags| && rank[y] <= rank[n]
    ensures forall y | y in Post(bags, rank, n) && y != n ::
      rank[y] < rank[n] && bags[y].parentNumber.Some? && bags[y].parentNumber.value in Post(bags, rank, n)
    decreases rank[n]
  {
    ChildrenFacts(bags, n);
    var (k1, k2) := Children(bags, n);
    var a := SubPost(bags, rank, n, k1);
    var b := SubPost(bags, rank, n, k2);
    var p := Post(bags, rank, n);
    assert p == a + b + [n];
    forall y | y in p && y != n
      ensures y < |bags| && rank[y] < rank[n] && bags[y].parentNumber.Some? && bags[y].parentNumber.value in p
    {
      if y in a {
        PostFacts(bags, rank, k1.value);
      } else {
        assert y in b;
        PostFacts(bags, rank, k2.value);
      }
    }
  }

  /** Two subtrees that share a bag are nested. */
  lemma {:induction false} PostNested(bags: seq<Bag>, rank: seq<nat>, a: nat, b: nat, y: nat)
    requires Ranked(bags, rank) && a < |bags| && b < |bags|
    requires y in Post(bags, rank, a) && y in Post(bags, rank, b) && y < |bags| && rank[y] <= rank[a]
    ensures a in Post(bags, rank, b) || b in Post(bags, rank, a)
    decreases rank[a] - rank[y]
  {
    PostFacts(bags, rank, a);
    PostFacts(bags, rank, b);
    if y != a && y != b {
      PostNested(bags, rank, a, b, bags[y].parentNumber.value);
    }
  }

  /** No bag is pushed twice. */
  lemma {:induction false} PostNoDup(bags: seq<Bag>, rank: seq<nat>, n: nat)
    requires Ranked(bags, rank) && n < |bags|
    ensures NoDup(Post(bags, rank, n))
    decreases rank[n]
  {
    ChildrenFacts(bags, n);
    var (k1, k2) := Children(bags, n);
    var a := SubPost(bags, rank, n, k1);
    var b := SubPost(bags, rank, n, k2);
    assert Post(bags, rank, n) == a + b + [n];
    if k1.Some? {
      PostNoDup(bags, rank, k1.value);
      PostFacts(bags, rank, k1.value);
    }
    if k2.Some? {
      PostNoDup(bags, rank, k2.value);
      PostFacts(bags, rank, k2.value);
    }
    if k1.Some? && k2.Some? {
      forall y | y in a && y in b ensures false {
        PostFacts(bags, rank, k1.value);
        PostFacts(bags, rank, k2.value);
        PostNested(bags, rank, k1.value, k2.value, y);
      }
    }
    NoDupConcat(a, b, n);
  }

  lemma NoDupConcat(a: seq<nat>, b: seq<nat>, n: nat)
    requires NoDup(a) && NoDup(b) && n !in a && n !in b
    requires forall y | y in a :: y !in b
    ensures NoDup(a + b + [n])
  {
    var s := a + b + [n];
    forall i, j | 0 <= i < j < |s| ensures s[i] != s[j] {
      if j < |a| {
        assert s[i] == a[i] && s[j] == a[j];
      } else if j < |a| + |b| {
        assert s[j] == b[j - |a|] && s[j] in b;
        if i < |a| {
          assert s[i] == a[i] && s[i] in a;
        } else {
          assert s[i] == b[i - |a|];
        }
      } else {
        assert s[j] == n;
        assert s[i] in a || s[i] in b;
      }
    }
  }

  /** The recorded children of the `i`th bag of `s` occur in `s` before it. */
  predicate KidsFirst(bags: seq<Bag>, s: seq<nat>, i: nat)
    requires i < |s|
  {
    var (k1, k2) := Children(bags, s[i]);
    (k1.Some? ==> k1.value in s[..i]) && (k2.Some? ==> k2.value in s[..i])
  }

  /** Children before their parent. */
  lemma {:induction false} PostKidsFirst(bags: seq<Bag>, rank: seq<nat>, n: nat)
    requires Ranked(bags, rank) && n < |bags|
    ensures forall i | 0 <= i < |Post(bags, rank, n)| :: KidsFirst(bags, Post(bags, rank, n), i)
    decreases rank[n]
  {
    ChildrenFacts(bags, n);
    var (k1, k2) := Children(bags, n);
    var a := SubPost(bags, rank, n, k1);
    var b := SubPost(bags, rank, n, k2);
    var p := Post(bags, rank, n);
    assert p == a + b + [n];
    if k1.Some? {
      PostKidsFirst(bags, rank, k1.value);
      PostFacts(bags, rank, k1.value);
    }
    if k2.Some? {
      PostKidsFirst(bags, rank, k2.value);
      PostFacts(bags, rank, k2.value);
    }
    if k1.Some? {
      assert a[|a| - 1] in a;
    }
    if k2.Some? {
      assert b[|b| - 1] in b;
    }
    KidsFirstConcat(bags, a, b, n);
  }

  lemma KidsFirstConcat(bags: seq<Bag>, a: seq<nat>, b: seq<nat>, n: nat)
    requires forall i | 0 <= i < |a| :: KidsFirst(bags, a, i)
    requires forall i | 0 <= i < |b| :: KidsFirst(bags, b, i)
    requires Children(bags, n).0.Some? ==> Children(bags, n).0.value in a
    requires Children(bags, n).1.Some? ==> Children(bags, n).1.value in b
    ensures forall i | 0 <= i < |a + b + [n]| :: KidsFirst(bags, a + b + [n], i)
  {
    var p := a + b + [n];
    forall i | 0 <= i < |p| ensures KidsFirst(bags, p, i) {
      if i < |a| {
        assert p[i] == a[i] && p[..i] == a[..i];
        assert KidsFirst(bags, a, i);
      } else if i < |a| + |b| {
        assert p[i] == b[i - |a|] && p[..i] == a + b[..i - |a|];
        assert KidsFirst(bags, b, i - |a|);
      } else {
        assert p[i] == n && p[..i] == a + b;
      }
    }
  }

  // ---------------------------------------------------------------------------------------
  // The bottom-up loop (decomp.cpp:499-537)

  /** What `main` relies on at bag `x` of a nice tree decomposition: distinct vertices, the
      consistent triples the constructor builds, a recorded child wherever the code reads
      `child1.value()` or `child2.value()`, the root's single-vertex child (the `assert` of
      line 507), the non-empty join bag of the `assert` of line 600, and the bag sizes each
      transition expects. */
  ghost predicate NiceAt(bags: seq<Bag>, x: nat)
    requires x < |bags|
  {
    var b := bags[x];
    var (k1, k2) := Children(bags, x);
    NoDup(b.bagElements) && b.consistentColorings == ExpectedTriples(b.kind, b.bagElements) &&
    (k1.Some? ==> k1.value < |bags|) && (k2.Some? ==> k2.value < |bags|) &&
    (|b.introduceEdges| > 0 ==> k1.Some?) &&
    (b.parentNumber.None? ==> k1.Some? && |bags[k1.value].bagElements| == 1) &&
    (b.parentNumber.Some? && b.kind == Intro ==>
      k1.Some? && |b.bagElements| > 0 &&
      (bags[k1.value].kind == Leaf ==> |b.bagElements| == 1) &&
      (bags[k1.value].kind != Leaf ==>
        |bags[k1.value].bagElements| > 0 && OneMore(b.bagElements, bags[k1.value].bagElements))) &&
    (b.parentNumber.Some? && b.kind == Forget ==> k1.Some? && OneMore(bags[k1.value].bagElements, b.bagElements)) &&
    (b.parentNumber.Some? && b.kind == Join ==>
      k1.Some? && k2.Some? && |b.bagElements| > 0 &&
      Elems(bags[k1.value].bagElements) == Elems(b.bagElements) == Elems(bags[k2.value].bagElements))
  }

  ghost predicate Nice(bags: seq<Bag>) {
    forall x | 0 <= x < |bags| :: NiceAt(bags, x)
  }

  /** The table the transition of bag `x`'s kind leaves behind, computed from the children's
      final tables; the root and leaves keep their initial table. */
  ghost function Transitioned(bags: seq<Bag>, rank: seq<nat>, x: nat): Table
    requires Ranked(bags, rank) && Nice(bags) && x < |bags|
    decreases rank[x], 0
  {
    ChildrenFacts(bags, x);
    assert NiceAt(bags, x);
    var b := bags[x];
    var (k1, k2) := Children(bags, x);
    var init := InitTable(b.bagElements);
    if b.parentNumber.None? then init
    else if b.kind == Intro then
      IntroduceSpec(init, bags[k1.value].kind == Leaf, b.bagElements[0],
                    SumDiff(b.bagElements, bags[k1.value].bagElements), Final(bags, rank, k1.value))
    else if b.kind == Forget then
      ForgetSpec(init, SumDiff(bags[k1.value].bagElements, b.bagElements), Final(bags, rank, k1.value))
    else if b.kind == Join then
      JoinSpec(init, b.consistentColorings, Final(bags, rank, k1.value), Final(bags, rank, k2.value))
    else init
  }

  /** The table bag `x` holds once the loop has processed it: its transition followed by
      its introduce-edge steps. */
  ghost function Final(bags: seq<Bag>, rank: seq<nat>, x: nat): Table
    requires Ranked(bags, rank) && Nice(bags) && x < |bags|
    decreases rank[x], 1
  {
    EdgesSpec(Transitioned(bags, rank, x), bags[x].introduceEdges)
  }

  /** Bag `y` holds its final table. */
  ghost predicate Done(bags: seq<Bag>, rank: seq<nat>, y: nat)
    requires Ranked(bags, rank) && Nice(bags) && y < |bags|
    reads bags[y]
  {
    bags[y].c == Final(bags, rank, y) && bags[y].Valid()
  }

  /** The root's report: the least entry of its only child's final table. */
  ghost function RootAnswer(bags: seq<Bag>, rank: seq<nat>, x: nat): Cost
    requires Ranked(bags, rank) && Nice(bags) && x < |bags| && bags[x].parentNumber.None?
  {
    assert NiceAt(bags, x);
    TableMin(Final(bags, rank, Children(bags, x).0.value))
  }

  /** The reports printed while the loop visits the bags of `s`, one per parentless bag. */
  ghost function Printed(bags: seq<Bag>, rank: seq<nat>, s: seq<nat>): seq<Cost>
    requires Ranked(bags, rank) && Nice(bags) && forall i | 0 <= i < |s| :: s[i] < |bags|
  {
    if s == [] then []
    else
      var y := s[|s| - 1];
      Printed(bags, rank, s[..|s| - 1]) + (if bags[y].parentNumber.None? then [RootAnswer(bags, rank, y)] else [])
  }

  /** One iteration of the loop: the root prints its child's minimum, any other bag runs
      the transition of its kind, and then every bag runs its introduce-edge steps. */
  method Step(bags: seq<Bag>, ghost rank: seq<nat>, x: nat) returns (report: Option<Cost>)
    requires Indexed(bags) && Ranked(bags, rank) && Nice(bags) && LinkedAll(bags) && x < |bags|
    requires Untouched(bags[x])
    requires Children(bags, x).0.Some? ==> Children(bags, x).0.value < |bags| && Done(bags, rank, Children(bags, x).0.value)
    requires Children(bags, x).1.Some? ==> Children(bags, x).1.value < |bags| && Done(bags, rank, Children(bags, x).1.value)
    modifies (bags[x] as Bag)`c
    ensures Done(bags, rank, x)
    ensures report == if bags[x].parentNumber.None? then Some(RootAnswer(bags, rank, x)) else None
  {
    ChildrenFacts(bags, x);
    assert NiceAt(bags, x) && LinkedAt(bags, x);
    var bag := bags[x];
    report := None;
    if bag.parentNumber.None? {
      var m := RootMinimum(bags[bag.child1.value].c);
      report := Some(m);
      InitTableSpec(bag.bagElements);
    } else {
      Transition(bags, rank, x);
    }
    IntroduceEdges(bag);
  }

  /** The transition of a non-root bag, chosen by its kind. */
  method Transition(bags: seq<Bag>, ghost rank: seq<nat>, x: nat)
    requires Indexed(bags) && Ranked(bags, rank) && Nice(bags) && LinkedAll(bags) && x < |bags|
    requires bags[x].parentNumber.Some? && Untouched(bags[x])
    requires Children(bags, x).0.Some? ==> Children(bags, x).0.value < |bags| && Done(bags, rank, Children(bags, x).0.value)
    requires Children(bags, x).1.Some? ==> Children(bags, x).1.value < |bags| && Done(bags, rank, Children(bags, x).1.value)
    modifies (bags[x] as Bag)`c
    ensures bags[x].c == Transitioned(bags, rank, x) && bags[x].Valid()
  {
    ChildrenFacts(bags, x);
    assert NiceAt(bags, x) && LinkedAt(bags, x);
    DistinctBags(bags, x);
    var bag := bags[x];
    InitTableSpec(bag.bagElements);
    if bag.kind == Intro {
      bag.IntroduceVertexNode(bags[bag.child1.value]);
    } else if bag.kind == Forget {
      bag.ForgetNode(bags[bag.child1.value]);
    } else if bag.kind == Join {
      bag.JoinNode(bags[bag.child1.value], bags[bag.child2.value]);
    }
  }

  /** The introduce-edge loop of one bag, in list order. */
  method IntroduceEdges(bag: Bag)
    requires bag.Valid()
    modifies bag`c
    ensures bag.c == EdgesSpec(old(bag.c), bag.introduceEdges) && bag.Valid()
  {
    for j := 0 to |bag.introduceEdges|
      invariant bag.c == EdgesSpec(old(bag.c), bag.introduceEdges[..j]) && bag.Valid()
    {
      assert bag.introduceEdges[..j + 1][..j] == bag.introduceEdges[..j];
      bag.IntroduceEdge(bag.introduceEdges[j]);
    }
    assert bag.introduceEdges[..|bag.introduceEdges|] == bag.introduceEdges;
  }

  /** Bag `b` still holds the table its constructor built. */
  ghost predicate Untouched(b: Bag)
    reads b
  {
    b.c == InitTable(b.bagElements)
  }

  /** The state of the loop after it has visited `postorder[..i]`: those bags are done and
      all others are untouched. */
  ghost predicate Processed(bags: seq<Bag>, rank: seq<nat>, postorder: seq<nat>, i: nat)
    requires Ranked(bags, rank) && Nice(bags) && i <= |postorder|
    requires forall j | 0 <= j < |postorder| :: postorder[j] < |bags|
    reads set b | b in bags
  {
    (forall j | 0 <= j < i :: Done(bags, rank, postorder[j])) &&
    (forall y | 0 <= y < |bags| && y !in postorder[..i] :: Untouched(bags[y]))
  }

  /** The loop over `postorder`: each bag is processed after its recorded children, so
      every visited bag ends with its final table, and the reports are those of the
      parentless bags visited. */
  method RunDP(bags: seq<Bag>, ghost rank: seq<nat>, postorder: seq<nat>) returns (out: seq<Cost>)
    requires Indexed(bags) && Ranked(bags, rank) && Nice(bags) && LinkedAll(bags) && |bags| > 0
    requires postorder == Post(bags, rank, 0)
    requires forall y | 0 <= y < |bags| :: Untouched(bags[y])
    modifies (set b | b in bags)`c
    ensures forall i | 0 <= i < |postorder| :: postorder[i] < |bags| && Done(bags, rank, postorder[i])
    ensures out == Printed(bags, rank, postorder)
  {
    PostFacts(bags, rank, 0);
    PostNoDup(bags, rank, 0);
    PostKidsFirst(bags, rank, 0);
    assert forall j | 0 <= j < |postorder| :: postorder[j] < |bags| by {
      forall j | 0 <= j < |postorder| ensures postorder[j] < |bags| {
        assert postorder[j] in postorder;
      }
    }
    out := [];
    for i := 0 to |postorder|
      invariant Processed(bags, rank, postorder, i)
      invariant out == Printed(bags, rank, postorder[..i])
    {
      var report := Visit(bags, rank, postorder, i);
      PrintedStep(bags, rank, postorder, i);
      if report.Some? {
        out := out + [report.value];
      }
    }
    PrefixWhole(postorder);
  }

  lemma PrefixWhole(s: seq<nat>)
    ensures s[..|s|] == s
  {
  }

  /** Visiting one more bag adds its report, if it has one. */
  lemma PrintedStep(bags: seq<Bag>, rank: seq<nat>, s: seq<nat>, i: nat)
    requires Ranked(bags, rank) && Nice(bags) && i < |s| && forall j | 0 <= j < |s| :: s[j] < |bags|
    ensures Printed(bags, rank, s[..i + 1]) ==
      Printed(bags, rank, s[..i]) + if bags[s[i]].parentNumber.None? then [RootAnswer(bags, rank, s[i])] else []
  {
    assert s[..i + 1][..i] == s[..i];
  }

  /** One turn of the loop, with the bookkeeping of which bags are done. */
  method Visit(bags: seq<Bag>, ghost rank: seq<nat>, postorder: seq<nat>, i: nat) returns (report: Option<Cost>)
    requires Indexed(bags) && Ranked(bags, rank) && Nice(bags) && LinkedAll(bags) && i < |postorder|
    requires forall j | 0 <= j < |postorder| :: postorder[j] < |bags|
    requires NoDup(postorder) && KidsFirst(bags, postorder, i) && Processed(bags, rank, postorder, i)
    modifies (bags[postorder[i]] as Bag)`c
    ensures Processed(bags, rank, postorder, i + 1)
    ensures report == if bags[postorder[i]].parentNumber.None? then Some(RootAnswer(bags, rank, postorder[i])) else None
  {
    var x := postorder[i];
    ProcessedKids(bags, rank, postorder, i);
    DistinctBags(bags, x);
    assert Untouched(bags[x]);
    report := Step(bags, rank, x);
    PrefixStep(postorder, i);
    forall j | 0 <= j < i ensures Done(bags, rank, postorder[j]) {
      assert postorder[j] in postorder[..i];
    }
    forall y | 0 <= y < |bags| && y !in postorder[..i + 1] ensures Untouched(bags[y]) {
      assert y != x && y !in postorder[..i];
    }
  }

  lemma PrefixStep(s: seq<nat>, i: nat)
    requires i < |s|
    ensures s[..i + 1] == s[..i] + [s[i]]
  {
  }

  /** Before the loop reaches `postorder[i]`, that bag is untouched and its recorded
      children are done. */
  lemma ProcessedKids(bags: seq<Bag>, rank: seq<nat>, postorder: seq<nat>, i: nat)
    requires Ranked(bags, rank) && Nice(bags) && i < |postorder| && NoDup(postorder)
    requires forall j | 0 <= j < |postorder| :: postorder[j] < |bags|
    requires KidsFirst(bags, postorder, i)
    ensures postorder[i] !in postorder[..i]
    ensures var (k1, k2) := Children(bags, postorder[i]);
      (k1.Some? ==> exists j | 0 <= j < i :: postorder[j] == k1.value) &&
      (k2.Some? ==> exists j | 0 <= j < i :: postorder[j] == k2.value)
  {
  }

  /** A visit of bags that all have a parent prints nothing. */
  lemma {:induction false} PrintedNothing(bags: seq<Bag>, rank: seq<nat>, s: seq<nat>)
    requires Ranked(bags, rank) && Nice(bags) && forall j | 0 <= j < |s| :: s[j] < |bags|
    requires forall j | 0 <= j < |s| :: bags[s[j]].parentNumber.Some?
    ensures Printed(bags, rank, s) == []
  {
    if s != [] {
      PrintedNothing(bags, rank, s[..|s| - 1]);
    }
  }

  /** Traversing from a parentless bag 0 prints exactly one line: the minimum of bag 0's
      only child. */
  lemma PrintedOnce(bags: seq<Bag>, rank: seq<nat>)
    requires Ranked(bags, rank) && Nice(bags) && |bags| > 0 && bags[0].parentNumber.None?
    ensures forall j | 0 <= j < |Post(bags, rank, 0)| :: Post(bags, rank, 0)[j] < |bags|
    ensures Printed(bags, rank, Post(bags, rank, 0)) == [RootAnswer(bags, rank, 0)]
  {
    var p := Post(bags, rank, 0);
    assert forall j | 0 <= j < |p| :: p[j] < |bags| && (j < |p| - 1 ==> bags[p[j]].parentNumber.Some?) && p[|p| - 1] == 0 by {
      PostFacts(bags, rank, 0);
      PostNoDup(bags, rank, 0);
      forall j | 0 <= j < |p| ensures p[j] < |bags| && (j < |p| - 1 ==> bags[p[j]].parentNumber.Some?) {
        assert p[j] in p;
        assert j < |p| - 1 ==> p[j] != p[|p| - 1];
      }
    }
    PrintedLast(bags, rank, p);
  }

  /** When only the last bag of `s` can lack a parent, the loop prints at most its report. */
  lemma PrintedLast(bags: seq<Bag>, rank: seq<nat>, s: seq<nat>)
    requires Ranked(bags, rank) && Nice(bags) && |s| > 0
    requires forall j | 0 <= j < |s| :: s[j] < |bags| && (j < |s| - 1 ==> bags[s[j]].parentNumber.Some?)
    ensures Printed(bags, rank, s) ==
      if bags[s[|s| - 1]].parentNumber.None? then [RootAnswer(bags, rank, s[|s| - 1])] else []
  {
    var n := |s| - 1;
    forall j | 0 <= j < n ensures s[..n][j] < |bags| && bags[s[..n][j]].parentNumber.Some? {
      assert s[..n][j] == s[j];
    }
    PrintedNothing(bags, rank, s[..n]);
  }

  /** The logic part of `main`: link the children, list the bags in post-order from bag 0,
      and run the loop. It prints one line, the least entry of the root's child's final
      table, and leaves every bag reachable from 0 with its final table. */
  method Solve(bags: seq<Bag>, ghost rank: seq<nat>) returns (out: seq<Cost>)
    requires Indexed(bags) && Ranked(bags, rank) && Nice(bags) && |bags| > 0 && bags[0].parentNumber.None?
    requires forall i | 0 <= i < |bags| :: bags[i].child1 == None && bags[i].child2 == None
    requires forall y | 0 <= y < |bags| :: Untouched(bags[y])
    modifies (set b | b in bags)`child1, (set b | b in bags)`child2, (set b | b in bags)`c
    ensures LinkedAll(bags)
    ensures out == [RootAnswer(bags, rank, 0)]
    ensures forall y | y in Post(bags, rank, 0) :: y < |bags| && Done(bags, rank, y)
  {
    LinkChildren(bags);
    var postorder := PostorderTraversal(bags, rank, 0, []);
    assert postorder == Post(bags, rank, 0);
    out := RunDP(bags, rank, postorder);
    PrintedOnce(bags, rank);
    forall y | y in postorder ensures y < |bags| && Done(bags, rank, y) {
      var j :| 0 <= j < |postorder| && postorder[j] == y;
    }
  }
}
