/** The consistent-hash ring: looking up the point that follows a hash, and the walk that collects servers. */
module ConsistentHash {
  import opened Lists

  datatype Vnode = Vnode(point: nat, server: nat)

  ghost predicate SortedRing(vnodes: seq<Vnode>) {
    forall i, j :: 0 <= i < j < |vnodes| ==> vnodes[i].point <= vnodes[j].point
  }

  /** The first position from i on whose point is not below h; the end of the ring if there is none. */
  ghost function Following(vnodes: seq<Vnode>, h: nat, i: nat): (p: nat)
    requires i <= |vnodes|
    ensures i <= p <= |vnodes| && (p < |vnodes| ==> vnodes[p].point >= h)
    ensures forall j :: i <= j < p ==> vnodes[j].point < h
    decreases |vnodes| - i
  {
    if i == |vnodes| || vnodes[i].point >= h then i else Following(vnodes, h, i + 1)
  }

  /** ch_ring_get_vnode_idx, for the hash h of the key: the position of the least point that is not below h;
      the ring wraps round to its first point. */
  method GetVnodeIdx(h: nat, vnodes: seq<Vnode>) returns (idx: int)
    requires SortedRing(vnodes)
    ensures (exists i :: 0 <= i < |vnodes| && vnodes[i].point >= h) ==>
      && 0 <= idx < |vnodes| && vnodes[idx].point >= h
      && forall j :: 0 <= j < idx ==> vnodes[j].point < h
    ensures (forall i :: 0 <= i < |vnodes| ==> vnodes[i].point < h) ==> idx == 0
  {
    var lowp, highp := 0, |vnodes|;
    ghost var p := Following(vnodes, h, 0);
    while true
      invariant 0 <= lowp <= p <= highp <= |vnodes|
      decreases highp - lowp
    {
      var midp := (lowp + highp) / 2;
      if midp == |vnodes| {
        return 0;
      }
      var midval := vnodes[midp].point;
      var midval1 := if midp == 0 then 0 else vnodes[midp - 1].point;
      if h <= midval && h > midval1 {
        return midp;
      }
      if midval < h {
        lowp := midp + 1;
      } else {
        highp := midp - 1;
      }
      if lowp > highp {
        return 0;
      }
    }
  }

  // ---- collecting servers --------------------------------------------------------------------------

  /** The servers of n points of the ring, from position start on. */
  ghost function RoundTo(vnodes: seq<Vnode>, start: nat, n: nat): (s: seq<nat>)
    requires vnodes != []
    ensures |s| == n && forall v :: 0 <= v < n ==> s[v] == vnodes[(start + v) % |vnodes|].server
  {
    if n == 0 then [] else RoundTo(vnodes, start, n - 1) + [vnodes[(start + n - 1) % |vnodes|].server]
  }

  /** Once round the ring. */
  ghost function Round(vnodes: seq<Vnode>, start: nat): seq<nat>
    requires start < |vnodes|
  {
    RoundTo(vnodes, start, |vnodes|)
  }

  /** The servers of s in the order in which they first appear, without those in skip. */
  ghost function FirstSeen(s: seq<nat>, skip: set<nat>): seq<nat> {
    if s == [] then []
    else
      var front, x := FirstSeen(s[..|s| - 1], skip), s[|s| - 1];
      if x in skip || x in s[..|s| - 1] then front else front + [x]
  }

  ghost function Keep(s: seq<nat>, skip: set<nat>): seq<nat> {
    if s == [] then []
    else if s[|s| - 1] in skip then Keep(s[..|s| - 1], skip)
    else Keep(s[..|s| - 1], skip) + [s[|s| - 1]]
  }

  /** Each element listed is the first of s that is neither skipped nor listed before. */
  lemma {:induction false} FirstSeenOrder(s: seq<nat>, skip: set<nat>, i: nat) returns (p: nat)
    requires i < |FirstSeen(s, skip)|
    ensures var r := FirstSeen(s, skip);
      && p < |s| && s[p] == r[i] && r[i] !in skip && r[i] !in r[..i]
      && forall q :: 0 <= q < p ==> s[q] in skip || s[q] in r[..i]
  {
    var r, front := FirstSeen(s, skip), s[..|s| - 1];
    var r' := FirstSeen(front, skip);
    FirstSeenMembers(front, skip);
    assert forall q :: 0 <= q < |front| ==> s[q] == front[q] && s[q] in front;
    if i < |r'| {
      p := FirstSeenOrder(front, skip, i);
      assert r[..i] == r'[..i];
    } else {
      p := |s| - 1;
      assert r[..i] == r';
    }
  }

  lemma FirstSeenSnoc(s: seq<nat>, x: nat, skip: set<nat>)
    ensures FirstSeen(s + [x], skip) == FirstSeen(s, skip) + if x in skip || x in s then [] else [x]
  {
    assert (s + [x])[..|s|] == s;
  }

  lemma {:induction false} FirstSeenPrefix(s: seq<nat>, skip: set<nat>, v: nat)
    requires v <= |s|
    ensures FirstSeen(s[..v], skip) <= FirstSeen(s, skip)
  {
    if v < |s| {
      FirstSeenPrefix(s[..|s| - 1], skip, v);
      assert s[..|s| - 1][..v] == s[..v];
    } else {
      assert s[..v] == s;
    }
  }

  /** Every server is listed once, and exactly the servers that are met and not skipped are listed. */
  lemma {:induction false} FirstSeenMembers(s: seq<nat>, skip: set<nat>)
    ensures NoDup(FirstSeen(s, skip))
    ensures forall x :: x in FirstSeen(s, skip) <==> x in s && x !in skip
  {
    if s != [] {
      var front, x := s[..|s| - 1], s[|s| - 1];
      FirstSeenMembers(front, skip);
      assert s == front + [x];
    }
  }

  /** Skipping unavailable servers on the way gives the plain order with those servers deleted. */
  lemma {:induction false} FirstSeenSkips(s: seq<nat>, skip: set<nat>)
    ensures FirstSeen(s, skip) == Keep(FirstSeen(s, {}), skip)
  {
    if s != [] {
      var front, x := s[..|s| - 1], s[|s| - 1];
      FirstSeenSkips(front, skip);
      var t := FirstSeen(front, {});
      if x !in front {
        assert (t + [x])[..|t|] == t;
      }
    }
  }

  ghost function Unavailable(chosen: seq<int>): set<nat> {
    set x: nat | x < |chosen| && chosen[x] != 0
  }

  lemma RoundIs(vnodes: seq<Vnode>, start: nat)
    requires start < |vnodes|
    ensures var s := Round(vnodes, start);
      |s| == |vnodes| && forall v :: 0 <= v < |s| ==> s[v] == vnodes[(start + v) % |vnodes|].server
  {
  }

  lemma NoneSeen(skip: set<nat>)
    ensures FirstSeen([], skip) == []
  {
  }

  /** The walk over the ring: chosen marks what must not be taken (any more). False if it aborts. */
  method Walk(vnodes: seq<Vnode>, start: nat, n: nat, idxs: array<nat>, chosen: array<int>) returns (ok: bool)
    requires start < |vnodes| && n <= idxs.Length
    requires forall v :: 0 <= v < |vnodes| ==> vnodes[v].server < chosen.Length
    modifies idxs, chosen
    ensures var all := FirstSeen(Round(vnodes, start), Unavailable(old(chosen[..])));
      && ok == (|all| >= n) && (ok ==> idxs[..n] == all[..n])
    ensures idxs[n..] == old(idxs[n..])
  {
    hide Round, FirstSeen;
    ghost var s, skip := Round(vnodes, start), Unavailable(chosen[..]);
    RoundIs(vnodes, start);
    NoneSeen(skip);
    var i, pos := 0, 0;
    while i < n
      invariant 0 <= i <= n && 0 <= pos <= |s| && i == |FirstSeen(s[..pos], skip)|
      invariant idxs[..i] == FirstSeen(s[..pos], skip) && idxs[n..] == old(idxs[n..])
      invariant forall x :: 0 <= x < chosen.Length ==> (chosen[x] != 0 <==> x in skip || x in s[..pos])
      decreases |s| - pos + 1, n - i
    {
      var server := vnodes[(start + pos) % |vnodes|].server;
      if pos < |s| {
        assert s[..pos + 1] == s[..pos] + [s[pos]];
        FirstSeenSnoc(s[..pos], s[pos], skip);
      } else {
        Wrapped(vnodes, start);
      }
      if chosen[server] == 0 {
        idxs[i] := server;
        chosen[server] := 1;
        i := i + 1;
      }
      pos := pos + 1;
      if pos > |vnodes| {
        assert s[..|s|] == s;
        return false;
      }
    }
    FirstSeenPrefix(s, skip, pos);
    ok := true;
  }

  lemma Wrapped(vnodes: seq<Vnode>, start: nat)
    requires start < |vnodes|
    ensures vnodes[(start + |vnodes|) % |vnodes|].server == Round(vnodes, start)[0]
  {
    hide RoundTo;
    ModWrap(start, |vnodes|);
  }

  lemma ModWrap(s: nat, n: nat)
    requires s < n
    ensures (s + n) % n == s && (s + 0) % n == s
  {
    assert (s + n) / n == 1 + s / n;
  }

  /** The servers that the ring knows and that are not skipped. */
  ghost function Servers(vnodes: seq<Vnode>, skip: set<nat>): (all: set<nat>)
    ensures forall x :: x in all <==> x !in skip && exists v :: 0 <= v < |vnodes| && vnodes[v].server == x
  {
    set v | 0 <= v < |vnodes| && vnodes[v].server !in skip :: vnodes[v].server
  }

  /** There are as many servers to list as the ring knows, wherever the round starts. */
  lemma ListedAll(vnodes: seq<Vnode>, start: nat, skip: set<nat>)
    requires start < |vnodes|
    ensures |FirstSeen(Round(vnodes, start), skip)| == |Servers(vnodes, skip)|
  {
    var s := Round(vnodes, start);
    var r := FirstSeen(s, skip);
    FirstSeenMembers(s, skip);
    DistinctCount(r);
    forall v | 0 <= v < |vnodes| ensures vnodes[v].server in s {
      RoundMeets(vnodes, start, v);
    }
    assert Elems(r) == Servers(vnodes, skip);
  }

  lemma RoundMeets(vnodes: seq<Vnode>, start: nat, v: nat)
    requires start < |vnodes| && v < |vnodes|
    ensures vnodes[v].server in Round(vnodes, start)
  {
    hide RoundTo;
    var n := |vnodes|;
    var p := if v >= start then v - start else v + n - start;
    ModWrap(v, n);
    assert (start + p) % n == v;
    assert Round(vnodes, start)[p] == vnodes[v].server;
  }

  /** ch_ring_get_available_servers, for a key with hash h. The ghost result is where the round starts. */
  method GetAvailableServers(h: nat, vnodes: seq<Vnode>, n: nat, idxs: array<nat>, unavailability: seq<int>)
      returns (ok: bool, ghost start: nat)
    requires SortedRing(vnodes) && |vnodes| > 0 && n <= idxs.Length
    requires forall v :: 0 <= v < |vnodes| ==> vnodes[v].server < |unavailability|
    modifies idxs
    ensures start < |vnodes| && forall j :: 0 <= j < start ==> vnodes[j].point < h
    ensures vnodes[start].point >= h || (start == 0 && forall j :: 0 <= j < |vnodes| ==> vnodes[j].point < h)
    ensures ok == (|Servers(vnodes, Unavailable(unavailability))| >= n)
    ensures ok && n >= 1 ==>
      exists p :: && 0 <= p < |vnodes| && Round(vnodes, start)[p] == idxs[0]
        && idxs[0] < |unavailability| && unavailability[idxs[0]] == 0
        && forall q :: 0 <= q < p ==>
             var x := Round(vnodes, start)[q]; x < |unavailability| && unavailability[x] != 0
    ensures var order := Keep(FirstSeen(Round(vnodes, start), {}), Unavailable(unavailability));
      ok ==> n <= |order| && idxs[..n] == order[..n]
  {
    var idx := GetVnodeIdx(h, vnodes);
    start := idx;
    var chosen := new int[|unavailability|](k requires 0 <= k < |unavailability| => unavailability[k]);
    assert chosen[..] == unavailability;
    ghost var skip := Unavailable(unavailability);
    FirstSeenSkips(Round(vnodes, start), skip);
    ListedAll(vnodes, start, skip);
    ok := Walk(vnodes, idx, n, idxs, chosen);
    if ok && n >= 1 {
      ghost var p := FirstSeenOrder(Round(vnodes, start), skip, 0);
      assert idxs[..n][0] == idxs[0] && Round(vnodes, start)[p] == idxs[0];
    }
  }

  lemma FirstListed(vnodes: seq<Vnode>, start: nat)
    requires start < |vnodes| && FirstSeen(Round(vnodes, start), {}) != []
    ensures FirstSeen(Round(vnodes, start), {})[0] == vnodes[start].server
  {
    hide RoundTo, FirstSeen;
    var s := Round(vnodes, start);
    var first := s[0];
    var p := FirstSeenOrder(s, {}, 0);
    ModWrap(start, |vnodes|);
  }

  /** ch_ring_get_servers. */
  method GetServers(h: nat, vnodes: seq<Vnode>, nServer: nat, n: nat, idxs: array<nat>)
      returns (ok: bool, ghost start: nat)
    requires SortedRing(vnodes) && |vnodes| > 0 && n <= idxs.Length
    requires forall v :: 0 <= v < |vnodes| ==> vnodes[v].server < nServer
    modifies idxs
    ensures start < |vnodes| && forall j :: 0 <= j < start ==> vnodes[j].point < h
    ensures vnodes[start].point >= h || (start == 0 && forall j :: 0 <= j < |vnodes| ==> vnodes[j].point < h)
    ensures ok == (|Servers(vnodes, {})| >= n)
    ensures ok && n >= 1 ==> idxs[0] == vnodes[start].server
    ensures var order := FirstSeen(Round(vnodes, start), {}); ok ==> n <= |order| && idxs[..n] == order[..n]
  {
    hide Round, FirstSeen, Servers;
    var idx := GetVnodeIdx(h, vnodes);
    start := idx;
    var chosen := new int[nServer](_ => 0);
    assert Unavailable(chosen[..]) == {};
    ListedAll(vnodes, start, {});
    ok := Walk(vnodes, idx, n, idxs, chosen);
    if ok && n >= 1 {
      FirstListed(vnodes, start);
      assert idxs[..n][0] == idxs[0];
    }
  }
}
