/** Stack distances computed with a splay tree of access times, and the LRU profile made from them. */
module StackDistance {
  import opened Lists
  import opened KeyTrees
  import opened Recency
  import SplayTree

  /** The distance reported for a request for o after tr. An object last requested at time 0 looks
      like one that was never requested. */
  ghost function Reported(tr: seq<Obj>, o: Obj): int {
    if LastAccess(tr, o) <= 0 then -1 else |Since(tr, o)|
  }

  /** The keys of the tree: the times of the last accesses, and time 0, which is never removed. */
  ghost function TreeKeys(tr: seq<Obj>): set<int> {
    (set o | o in tr :: LastAccess(tr, o)) + if tr == [] then {} else {0}
  }

  lemma TreeKeysSnoc(tr: seq<Obj>, o: Obj)
    ensures TreeKeys(tr + [o]) ==
      (if LastAccess(tr, o) <= 0 then TreeKeys(tr) else TreeKeys(tr) - {LastAccess(tr, o)}) + {|tr|}
  {
    hide LastAccess;
    var t := tr + [o];
    forall x {
      LastAccessSnoc(tr, o, x);
    }
    if tr == [] {
      assert LastAccess(t, o) == 0;
    }
    forall k | k in TreeKeys(t)
      ensures k in TreeKeys(tr) + {|tr|} && (LastAccess(tr, o) > 0 ==> k != LastAccess(tr, o))
    {
      if k != 0 {
        var x :| x in t && LastAccess(t, x) == k;
        assert x != o ==> x in tr;
      }
    }
    forall k | k in TreeKeys(tr) && (LastAccess(tr, o) <= 0 || k != LastAccess(tr, o)) ensures k in TreeKeys(t) {
      if k != 0 {
        var x :| x in tr && LastAccess(tr, x) == k;
        assert x in t && x != o;
      }
    }
    assert o in t;
  }

  /** The last access times of the objects of s, in order. */
  ghost function Times(tr: seq<Obj>, s: seq<Obj>): (r: seq<int>)
    ensures |r| == |s| && forall q :: 0 <= q < |s| ==> r[q] == LastAccess(tr, s[q])
  {
    seq(|s|, q requires 0 <= q < |s| => LastAccess(tr, s[q]))
  }

  lemma TimesDistinct(tr: seq<Obj>, s: seq<Obj>)
    requires ByRecency(tr, s)
    ensures NoDup(Times(tr, s))
  {
    hide LastAccess;
  }

  lemma TimesAbove(tr: seq<Obj>, p: nat)
    requires p < |Stack(tr)| && LastAccess(tr, Stack(tr)[p]) > 0
    ensures Elems(Times(tr, Stack(tr)[..p])) == set k | k in TreeKeys(tr) && k > LastAccess(tr, Stack(tr)[p])
  {
    hide LastAccess, Stack;
    var s := Stack(tr);
    var times := Times(tr, s[..p]);
    StackOrder(tr);
    forall k | k in TreeKeys(tr) && k > LastAccess(tr, s[p]) ensures k in times {
      var x :| x in tr && LastAccess(tr, x) == k;
      var q :| 0 <= q < |s| && s[q] == x;
      assert q < p;
      assert times[q] == k;
    }
    forall k | k in times ensures k in TreeKeys(tr) && k > LastAccess(tr, s[p]) {
      var q :| 0 <= q < p && times[q] == k;
      assert s[q] in s && s[q] in tr;
      assert s[..p][q] == s[q];
    }
  }

  /** As many access times lie above o's as there are objects requested since. */
  lemma KeysAbove(tr: seq<Obj>, o: Obj)
    requires LastAccess(tr, o) > 0
    ensures |set k | k in TreeKeys(tr) && k > LastAccess(tr, o)| == |Since(tr, o)|
  {
    hide LastAccess, Stack, TreeKeys, Since;
    StackOrder(tr);
    var s := Stack(tr);
    AccessedIn(tr, o);
    var p :| 0 <= p < |s| && s[p] == o;
    StackPosition(tr, p);
    TimesDistinct(tr, s[..p]);
    DistinctCount(Times(tr, s[..p]));
    TimesAbove(tr, p);
  }

  lemma AccessedIn(tr: seq<Obj>, o: Obj)
    ensures o in tr <==> LastAccess(tr, o) >= 0
  {
    if o in tr {
      var j :| 0 <= j < |tr| && tr[j] == o;
    }
  }

  /** The root of a tree splayed for a key it holds tells how many keys are larger. */
  method Rank(i: int, t0: SplayTree.Node?, ghost S: set<SplayTree.Node>, ghost K: set<int>)
      returns (t: SplayTree.Node, rank: int)
    requires SplayTree.IsTree(t0, S, K) && i in K
    modifies S
    ensures SplayTree.IsTree(t, S, K) && t.key == i
    ensures rank == |set k | k in K && k > i|
  {
    hide SplayTree.WellFormed, Inorder, Increasing, LastOnPath;
    HoldsKey(i, t0, S, K);
    SplayTree.RootFacts(t0, S);
    LastOnPathNeighbour(t0.tree, i);
    t := SplayTree.Splay(i, t0, S);
    SplayTree.RootRank(t, S, K);
    rank := SplayTree.NodeValue(t.right);
  }

  lemma HoldsKey(i: int, t: SplayTree.Node?, S: set<SplayTree.Node>, K: set<int>)
    requires SplayTree.IsTree(t, S, K) && i in K
    ensures t != null && i in Inorder(t.tree)
  {
    SplayTree.RootFacts(t, S);
  }

  /** The state that get_stack_dist_add_req works on: the tree and the table of last accesses. */
  class Tracker {
    var root: SplayTree.Node?
    var table: map<Obj, int>
    ghost var nodes: set<SplayTree.Node>
    ghost var past: seq<Obj>

    ghost predicate Valid()
      reads this, nodes, root, set m | m in nodes :: m.left, set m | m in nodes :: m.right
    {
      SplayTree.IsTree(root, nodes, TreeKeys(past)) && TableOk(table, past)
    }

    constructor ()
      ensures Valid() && past == [] && nodes == {}
    {
      root, table, nodes, past := null, map[], {}, [];
      new;
      EmptyTracker();
    }

    /** The request for o at time ts: its stack distance and its last access time. */
    method AddReq(o: Obj, ts: int) returns (dist: int, last: int)
      requires Valid() && ts == |past|
      modifies this, nodes
      ensures Valid() && past == old(past) + [o] && fresh(nodes - old(nodes))
      ensures dist == Reported(old(past), o)
      ensures last == (if LastAccess(old(past), o) <= 0 then -1 else LastAccess(old(past), o))
    {
      hide SplayTree.IsTree, TreeKeys, Since, LastAccess;
      ghost var K := TreeKeys(past);
      TreeKeysSnoc(past, o);
      TableLookup(table, past, o);
      TableUpdate(table, past, o);
      var oldTs := if o in table then table[o] else 0;
      var t: SplayTree.Node?;
      ghost var U;
      if oldTs == 0 {
        dist, last := -1, -1;
        t, U := SplayTree.Insert(ts, root, nodes, K);
      } else {
        KeysAbove(past, o);
        last := oldTs;
        t, dist := Rank(oldTs, root, nodes, K);
        t, U := SplayTree.Delete(oldTs, t, nodes, K);
        t, U := SplayTree.Insert(ts, t, U, K - {oldTs});
      }
      table := table[o := ts];
      root, nodes, past := t, U, past + [o];
    }
  }

  ghost predicate TableOk(table: map<Obj, int>, past: seq<Obj>) {
    forall o :: (o in table <==> o in past) && (o in table ==> table[o] == LastAccess(past, o))
  }

  lemma EmptyTracker()
    ensures SplayTree.IsTree(null, {}, TreeKeys([])) && TableOk(map[], [])
  {
  }

  lemma TableLookup(table: map<Obj, int>, past: seq<Obj>, o: Obj)
    requires TableOk(table, past)
    ensures o in table <==> LastAccess(past, o) >= 0
    ensures o in table ==> table[o] == LastAccess(past, o) && table[o] in TreeKeys(past)
  {
    AccessedIn(past, o);
  }

  lemma TableUpdate(table: map<Obj, int>, past: seq<Obj>, o: Obj)
    requires TableOk(table, past)
    ensures TableOk(table[o := |past|], past + [o])
  {
    forall x {
      LastAccessSnoc(past, o, x);
    }
  }

  // ---- the distances of a whole trace ------------------------------------------------------------

  /** What get_stack_dist stores for request i: how many distinct objects lie between the request
      and the previous one for the object, or -1. */
  ghost function PastDistance(tr: seq<Obj>, i: nat): int
    requires i < |tr|
  {
    var last := LastAccess(tr[..i], tr[i]);
    if last <= 0 then -1 else |Elems(tr[last + 1..i])|
  }

  /** The same for the next request for the object, as far as it comes before time n. */
  ghost function FutureDistance(tr: seq<Obj>, i: nat, n: nat): int
    requires i < |tr|
  {
    var next := NextFrom(tr, tr[i], i + 1);
    if i == 0 || next < 0 || n <= next then -1 else |Elems(tr[i + 1..next])|
  }

  lemma SinceBetween(tr: seq<Obj>, i: nat)
    requires i < |tr|
    ensures Reported(tr[..i], tr[i]) == PastDistance(tr, i)
  {
    var last := LastAccess(tr[..i], tr[i]);
    assert Since(tr[..i], tr[i]) == Elems(tr[last + 1..i]) by {
      var between := tr[last + 1..i];
      forall x | x in Since(tr[..i], tr[i]) ensures x in between {
        var j :| last < j < i && tr[j] == x;
        assert between[j - last - 1] == x;
      }
      forall x | x in between ensures x in Since(tr[..i], tr[i]) {
        var j :| 0 <= j < |between| && between[j] == x;
        assert tr[..i][last + 1 + j] == x;
      }
    }
  }

  /** Request ts settles the future distance of the previous request for its object, and no other. */
  lemma FutureStep(tr: seq<Obj>, ts: nat, i: nat)
    requires ts < |tr| && i < |tr|
    ensures var last := LastAccess(tr[..ts], tr[ts]);
      FutureDistance(tr, i, ts + 1) ==
        if i == last && last > 0 then PastDistance(tr, ts) else FutureDistance(tr, i, ts)
  {
    var next := NextFrom(tr, tr[i], i + 1);
    var last := LastAccess(tr[..ts], tr[ts]);
    assert forall j :: last < j < ts ==> tr[..ts][j] == tr[j];
    if next == ts {
      assert tr[..ts][i] == tr[ts];
    }
  }

  ghost predicate FutureUpTo(s: seq<int>, tr: seq<Obj>, n: nat) {
    |s| == |tr| && forall i :: 0 <= i < |tr| ==> s[i] == ToInt32(FutureDistance(tr, i, n))
  }

  lemma FutureSteps(s: seq<int>, tr: seq<Obj>, ts: nat)
    requires ts < |tr| && FutureUpTo(s, tr, ts)
    ensures var last := LastAccess(tr[..ts], tr[ts]);
      FutureUpTo(if last > 0 then s[last := ToInt32(PastDistance(tr, ts))] else s, tr, ts + 1)
  {
    hide ToInt32, PastDistance;
    var last := LastAccess(tr[..ts], tr[ts]);
    var s' := if last > 0 then s[last := ToInt32(PastDistance(tr, ts))] else s;
    forall i | 0 <= i < |tr| ensures s'[i] == ToInt32(FutureDistance(tr, i, ts + 1)) {
      assert s[i] == ToInt32(FutureDistance(tr, i, ts));
      FutureStep(tr, ts, i);
    }
  }

  const UINT32_MAX: int := 0xffff_ffff
  const INT32_MAX: int := 0x7fff_ffff

  /** What is left of an integer that is stored in 32 bits with a sign. */
  function ToInt32(x: int): int {
    var low := x % 0x1_0000_0000;
    if low <= INT32_MAX then low else low - 0x1_0000_0000
  }

  /** The abort spares the array neither negative numbers nor a false "never requested before": what is
      stored is right exactly for distances of 31 bits. */
  lemma StoredExactIff(d: int)
    requires -1 <= d <= UINT32_MAX
    ensures ToInt32(d) == d <==> d <= INT32_MAX
    ensures ToInt32(d) == -1 <==> d == -1 || d == UINT32_MAX
  {
  }

  /** A distance counts distinct objects, so a short trace has short distances. */
  lemma DistanceBound(tr: seq<Obj>, i: nat)
    requires i < |tr|
    ensures -1 <= PastDistance(tr, i) < |tr| && -1 <= FutureDistance(tr, i, |tr|) < |tr|
  {
    var last, next := LastAccess(tr[..i], tr[i]), NextFrom(tr, tr[i], i + 1);
    if last > 0 {
      ElemsSize(tr[last + 1..i]);
    }
    if next >= 0 {
      ElemsSize(tr[i + 1..next]);
    }
  }

  /** For up to 2^31 requests nothing is lost. */
  lemma ShortTraceExact(tr: seq<Obj>, i: nat)
    requires i < |tr| <= INT32_MAX + 1
    ensures PastDistance(tr, i) <= UINT32_MAX && ToInt32(PastDistance(tr, i)) == PastDistance(tr, i)
    ensures ToInt32(FutureDistance(tr, i, |tr|)) == FutureDistance(tr, i, |tr|)
  {
    DistanceBound(tr, i);
  }

  datatype DistType = StackDist | FutureStackDist

  /** The distances of all requests, in 32 bits. False if the code aborts: a distance needs more. */
  method GetStackDist(tr: seq<Obj>, distType: DistType) returns (ok: bool, a: array<int>)
    ensures fresh(a) && a.Length == |tr|
    ensures ok <==> forall i :: 0 <= i < |tr| ==> PastDistance(tr, i) <= UINT32_MAX
    ensures ok && distType == StackDist ==> forall i :: 0 <= i < |tr| ==> a[i] == ToInt32(PastDistance(tr, i))
    ensures ok && distType == FutureStackDist ==>
      forall i :: 0 <= i < |tr| ==> a[i] == ToInt32(FutureDistance(tr, i, |tr|))
  {
    hide LastAccess, Reported, PastDistance, FutureDistance, SplayTree.IsTree, Tracker.Valid, ToInt32;
    a := new int[|tr|];
    if distType == FutureStackDist {
      FutureStart(tr);
      for i := 0 to |tr|
        invariant forall k :: 0 <= k < i ==> a[k] == -1
      {
        a[i] := -1;
      }
    }
    var tracker := new Tracker();
    for ts := 0 to |tr|
      invariant tracker.Valid() && tracker.past == tr[..ts] && fresh(tracker.nodes)
      invariant forall i :: 0 <= i < ts ==> PastDistance(tr, i) <= UINT32_MAX
      invariant distType == StackDist ==> forall i :: 0 <= i < ts ==> a[i] == ToInt32(PastDistance(tr, i))
      invariant distType == FutureStackDist ==> FutureUpTo(a[..], tr, ts)
    {
      SinceBetween(tr, ts);
      if distType == FutureStackDist {
        FutureSteps(a[..], tr, ts);
      }
      assert tr[..ts + 1] == tr[..ts] + [tr[ts]];
      var dist, last := tracker.AddReq(tr[ts], ts);
      if dist > UINT32_MAX {
        return false, a;
      }
      if distType == StackDist {
        a[ts] := ToInt32(dist);
      } else if last != -1 {
        a[last] := ToInt32(dist);
      }
    }
    assert tr[..|tr|] == tr;
    ok := true;
  }

  lemma FutureStart(tr: seq<Obj>)
    ensures forall i :: 0 <= i < |tr| ==> ToInt32(FutureDistance(tr, i, 0)) == -1
  {
    assert ToInt32(-1) == -1;
    assert forall i :: 0 <= i < |tr| ==> FutureDistance(tr, i, 0) == -1;
  }

  // ---- the LRU profile -----------------------------------------------------------------------------

  /** The requests of tr whose reported distance is below c. */
  ghost function Below(c: int, tr: seq<Obj>): nat {
    if tr == [] then 0
    else
      var past, o := tr[..|tr| - 1], tr[|tr| - 1];
      Below(c, past) + if 0 <= Reported(past, o) < c then 1 else 0
  }

  /** The requests of tr whose reported distance is d. */
  ghost function At(d: int, tr: seq<Obj>): nat {
    if tr == [] then 0
    else
      var past, o := tr[..|tr| - 1], tr[|tr| - 1];
      At(d, past) + if 0 <= d == Reported(past, o) then 1 else 0
  }

  lemma {:induction false} BelowSum(c: int, tr: seq<Obj>)
    ensures Below(c + 1, tr) == Below(c, tr) + At(c, tr)
  {
    if tr != [] {
      BelowSum(c, tr[..|tr| - 1]);
    }
  }

  lemma {:induction false} BelowZero(tr: seq<Obj>)
    ensures Below(0, tr) == 0
  {
    if tr != [] {
      BelowZero(tr[..|tr| - 1]);
    }
  }

  /** The hit that the profile does not see at size c: the first repeated request for the object
      requested at time 0, if the cache still holds it. */
  function Lost(c: nat, tr: seq<Obj>): nat {
    if tr == [] then 0
    else
      var again := NextFrom(tr, tr[0], 1);
      if again >= 0 && tr[0] in LruRun(c, tr[..again]) then 1 else 0
  }

  lemma LostSnoc(c: nat, tr: seq<Obj>, o: Obj)
    ensures Lost(c, tr + [o]) == Lost(c, tr) + if LastAccess(tr, o) == 0 && o in LruRun(c, tr) then 1 else 0
  {
    hide LruRun;
    var t := tr + [o];
    if tr == [] {
      assert LastAccess(tr, o) == -1;
    } else {
      var again, before := NextFrom(t, t[0], 1), NextFrom(tr, tr[0], 1);
      if before >= 0 {
        assert t[before] == t[0];
        assert again == before;
        assert t[..again] == tr[..again];
        assert o == tr[0] ==> LastAccess(tr, o) >= before;
      } else if o == tr[0] {
        assert t[|tr|] == o;
        assert forall j :: 1 <= j < |tr| ==> t[j] == tr[j];
        assert again == |tr| && t[..again] == tr;
        assert LastAccess(tr, o) == 0;
      } else {
        assert forall j :: 1 <= j < |tr| ==> t[j] == tr[j];
        assert again == -1;
      }
    }
  }

  /** The profile agrees with a plain LRU list of every size, but for the one lost hit. */
  lemma {:induction false} ProfileIsLru(c: nat, tr: seq<Obj>)
    ensures Below(c, tr) == LruHits(c, tr) - Lost(c, tr)
  {
    if tr != [] {
      var past, o := tr[..|tr| - 1], tr[|tr| - 1];
      ProfileIsLru(c, past);
      LostSnoc(c, past, o);
      assert tr == past + [o];
      LruHitIff(c, past, o);
    }
  }

  lemma AtSnoc(tr: seq<Obj>, o: Obj)
    ensures Reported(tr, o) >= -1
    ensures forall d :: d >= 0 ==> At(d, tr + [o]) == At(d, tr) + if d == Reported(tr, o) then 1 else 0
  {
    assert (tr + [o])[..|tr|] == tr;
  }

  lemma AtStart(size: int)
    ensures forall d :: 0 <= d <= size ==> At(d, []) == 0
  {
  }

  lemma BetweenFirst(tr: seq<Obj>, again: nat)
    requires 0 < again <= |tr| && tr[0] !in tr[1..again]
    ensures LastAccess(tr[..again], tr[0]) == 0 && Since(tr[..again], tr[0]) == Elems(tr[1..again])
  {
    var p, between := tr[..again], tr[1..again];
    var last := LastAccess(p, tr[0]);
    assert p[0] == tr[0];
    assert forall j :: 0 < j < |p| ==> p[j] == between[j - 1];
    forall x | x in between ensures x in Since(p, tr[0]) {
      var j :| 0 <= j < |between| && between[j] == x;
      assert p[j + 1] == x;
    }
    forall x | x in Since(p, tr[0]) ensures x in between {
      var j :| 0 < j < |p| && p[j] == x;
      assert between[j - 1] == x;
    }
  }

  /** The profile is right at size c unless the first object comes back while fewer than c distinct
      others came in between. */
  lemma ProfileExactIff(c: nat, tr: seq<Obj>)
    ensures Below(c, tr) != LruHits(c, tr) <==>
      && tr != [] && NextFrom(tr, tr[0], 1) >= 0
      && |Elems(tr[1..NextFrom(tr, tr[0], 1)])| < c
  {
    hide Below, LruHits, LruRun, LastAccess, Since;
    ProfileIsLru(c, tr);
    if tr != [] && NextFrom(tr, tr[0], 1) >= 0 {
      var again := NextFrom(tr, tr[0], 1);
      BetweenFirst(tr, again);
      LruHitIff(c, tr[..again], tr[0]);
    }
  }

  /** One object requested twice: an LRU list hits once, the profile reports no hit. */
  lemma ProfileMissesAHit(o: Obj, c: nat)
    requires c > 0
    ensures Below(c, [o, o]) == 0 && LruHits(c, [o, o]) == 1
  {
    var tr := [o, o];
    assert tr[..1] == [o] && [o][..0] == [];
    assert LruRun(c, [o]) == [o];
    assert Below(c, [o]) == 0 && LruHits(c, [o]) == 0;
  }

  /** a[d + 1] counts the requests whose distance is d. */
  method CountDistances(tr: seq<Obj>, size: int, a: array<int>)
    requires size >= -1 && a.Length == size + 1 && forall c :: 0 <= c <= size ==> a[c] == 0
    modifies a
    ensures forall c :: 1 <= c <= size ==> a[c] == At(c - 1, tr)
    ensures size >= 0 ==> a[0] == 0
  {
    hide Reported, SplayTree.IsTree, At, LastAccess, Tracker.Valid;
    AtStart(size);
    var tracker := new Tracker();
    for ts := 0 to |tr|
      invariant tracker.Valid() && tracker.past == tr[..ts] && fresh(tracker.nodes)
      invariant forall c :: 1 <= c <= size ==> a[c] == At(c - 1, tr[..ts])
      invariant size >= 0 ==> a[0] == 0
    {
      var dist, _ := tracker.AddReq(tr[ts], ts);
      assert tr[..ts + 1] == tr[..ts] + [tr[ts]];
      AtSnoc(tr[..ts], tr[ts]);
      if dist != -1 && dist + 1 <= size {
        a[dist + 1] := a[dist + 1] + 1;
      }
    }
    assert tr[..|tr|] == tr;
  }

  /** The hits of LRU lists of all sizes up to size. With size -1 there is nothing to return. */
  method LruHitCounts(tr: seq<Obj>, size: int) returns (a: array<int>)
    requires size >= -1
    ensures fresh(a) && a.Length == size + 1
    ensures forall c :: 0 <= c <= size ==> a[c] == LruHits(c, tr) - Lost(c, tr)
  {
    hide LruHits, Lost, At, Below;
    a := new int[size + 1](_ => 0);
    CountDistances(tr, size, a);
    BelowZero(tr);
    var i := 1;
    while i < size + 1
      invariant 1 <= i && (size >= 0 ==> i <= size + 1)
      invariant forall c :: 0 <= c < i && c <= size ==> a[c] == Below(c, tr)
      invariant forall c :: i <= c <= size ==> a[c] == At(c - 1, tr)
    {
      BelowSum(i - 1, tr);
      a[i] := a[i] + a[i - 1];
      i := i + 1;
    }
    forall c | 0 <= c <= size {
      ProfileIsLru(c, tr);
    }
  }

  method LruMissCounts(tr: seq<Obj>, size: int) returns (a: array<int>)
    requires size >= -1
    ensures fresh(a) && a.Length == size + 1
    ensures forall c :: 0 <= c <= size ==> a[c] == |tr| - LruHits(c, tr) + Lost(c, tr)
  {
    hide LruHits, Lost;
    a := LruHitCounts(tr, size);
    for i := 0 to size + 1
      invariant forall c :: 0 <= c < i ==> a[c] == |tr| - LruHits(c, tr) + Lost(c, tr)
      invariant forall c :: i <= c <= size ==> a[c] == LruHits(c, tr) - Lost(c, tr)
    {
      a[i] := |tr| - a[i];
    }
  }
}
