/** Request traces, last accesses, the LRU stack, and the plain LRU cache. */
module Recency {
  import opened Lists

  type Obj = nat

  /** A request for an object of some size, its metadata included. */
  datatype Request = Request(obj: Obj, size: nat)

  /** A request as a reader delivers it. The next access time means something in traces with an oracle only. */
  datatype TimedRequest = TimedRequest(clock: nat, obj: Obj, size: nat, nextAccess: int)

  ghost function Objects(reqs: seq<TimedRequest>): (tr: seq<Obj>)
    ensures |tr| == |reqs| && forall i :: 0 <= i < |reqs| ==> tr[i] == reqs[i].obj
  {
    seq(|reqs|, i requires 0 <= i < |reqs| => reqs[i].obj)
  }

  /** The position of the last request for o in the trace, or -1. */
  function LastAccess(tr: seq<Obj>, o: Obj): (p: int)
    ensures -1 <= p < |tr|
    ensures p >= 0 ==> tr[p] == o
    ensures forall j :: p < j < |tr| ==> tr[j] != o
  {
    if tr == [] then -1
    else if tr[|tr| - 1] == o then |tr| - 1
    else LastAccess(tr[..|tr| - 1], o)
  }

  /** The position of the first request for o from position i on, or -1. */
  function NextFrom(tr: seq<Obj>, o: Obj, i: nat): (p: int)
    requires i <= |tr|
    ensures p == -1 || i <= p < |tr|
    ensures p >= 0 ==> tr[p] == o && forall j :: i <= j < p ==> tr[j] != o
    ensures p == -1 ==> forall j :: i <= j < |tr| ==> tr[j] != o
    decreases |tr| - i
  {
    if i == |tr| then -1 else if tr[i] == o then i else NextFrom(tr, o, i + 1)
  }

  /** The objects requested since the last request for o. */
  ghost function Since(tr: seq<Obj>, o: Obj): set<Obj> {
    set j | LastAccess(tr, o) < j < |tr| :: tr[j]
  }

  function Without(s: seq<Obj>, o: Obj): (r: seq<Obj>)
    ensures o !in r
    ensures forall x :: x in r <==> x in s && x != o
  {
    if s == [] then [] else if s[0] == o then Without(s[1..], o) else [s[0]] + Without(s[1..], o)
  }

  /** All objects requested so far, most recent first. */
  function Stack(tr: seq<Obj>): seq<Obj> {
    if tr == [] then []
    else [tr[|tr| - 1]] + Without(Stack(tr[..|tr| - 1]), tr[|tr| - 1])
  }

  function Take(s: seq<Obj>, c: nat): seq<Obj> {
    if c <= |s| then s[..c] else s
  }

  /** One request to an LRU list with c slots: a hit moves to the front, a miss is put there. */
  function LruAccess(c: nat, s: seq<Obj>, o: Obj): seq<Obj> {
    if o in s then [o] + Without(s, o) else Take([o] + s, c)
  }

  function LruRun(c: nat, tr: seq<Obj>): seq<Obj> {
    if tr == [] then [] else LruAccess(c, LruRun(c, tr[..|tr| - 1]), tr[|tr| - 1])
  }

  function LruHits(c: nat, tr: seq<Obj>): nat {
    if tr == [] then 0
    else
      var past, o := tr[..|tr| - 1], tr[|tr| - 1];
      LruHits(c, past) + if o in LruRun(c, past) then 1 else 0
  }

  lemma {:induction false} WithoutAbsent(s: seq<Obj>, o: Obj)
    requires o !in s
    ensures Without(s, o) == s
  {
    if s != [] {
      WithoutAbsent(s[1..], o);
    }
  }

  lemma {:induction false} WithoutAt(s: seq<Obj>, p: nat)
    requires NoDup(s) && p < |s|
    ensures Without(s, s[p]) == s[..p] + s[p + 1..]
  {
    if p == 0 {
      WithoutAbsent(s[1..], s[0]);
    } else {
      WithoutAt(s[1..], p - 1);
      assert s[1..][..p - 1] == s[1..p] && s[1..][p..] == s[p + 1..];
      assert s[..p] == [s[0]] + s[1..p];
    }
  }

  lemma WithoutNoDup(s: seq<Obj>, o: Obj)
    requires NoDup(s)
    ensures NoDup(Without(s, o))
  {
    if o in s {
      var p :| 0 <= p < |s| && s[p] == o;
      WithoutAt(s, p);
    } else {
      WithoutAbsent(s, o);
    }
  }

  lemma WithoutSize(s: seq<Obj>, x: Obj)
    requires NoDup(s)
    ensures |Without(s, x)| == |s| - if x in s then 1 else 0
  {
    if x in s {
      var p :| 0 <= p < |s| && s[p] == x;
      WithoutAt(s, p);
    } else {
      WithoutAbsent(s, x);
    }
  }

  lemma LastAccessSnoc(tr: seq<Obj>, o: Obj, x: Obj)
    ensures LastAccess(tr + [o], x) == if x == o then |tr| else LastAccess(tr, x)
  {
    assert (tr + [o])[..|tr|] == tr;
  }

  /** s lists objects by strictly falling time of last access. */
  ghost predicate ByRecency(tr: seq<Obj>, s: seq<Obj>) {
    forall p, q :: 0 <= p < q < |s| ==> LastAccess(tr, s[p]) > LastAccess(tr, s[q])
  }

  /** The stack holds every requested object once, in order of last access. */
  lemma {:induction false} StackOrder(tr: seq<Obj>)
    ensures NoDup(Stack(tr)) && ByRecency(tr, Stack(tr))
    ensures forall x :: x in Stack(tr) <==> x in tr
  {
    if tr != [] {
      var past, o := tr[..|tr| - 1], tr[|tr| - 1];
      assert tr == past + [o];
      StackOrder(past);
      WithoutNoDup(Stack(past), o);
      WithoutOrder(past, Stack(past), o);
      var s := Stack(tr);
      forall p, q | 0 <= p < q < |s| ensures LastAccess(tr, s[p]) > LastAccess(tr, s[q]) {
        LastAccessSnoc(past, o, s[p]);
        LastAccessSnoc(past, o, s[q]);
      }
    }
  }

  lemma ByRecencyCons(tr: seq<Obj>, x: Obj, s: seq<Obj>)
    requires ByRecency(tr, s) && forall y :: y in s ==> LastAccess(tr, x) > LastAccess(tr, y)
    ensures ByRecency(tr, [x] + s)
  {
    hide LastAccess;
  }

  lemma {:induction false} WithoutOrder(tr: seq<Obj>, s: seq<Obj>, o: Obj)
    requires ByRecency(tr, s)
    ensures ByRecency(tr, Without(s, o))
  {
    hide LastAccess;
    if s != [] {
      WithoutOrder(tr, s[1..], o);
      if s[0] != o {
        ByRecencyCons(tr, s[0], Without(s[1..], o));
      }
    }
  }

  lemma LruStep(c: nat, s: seq<Obj>, o: Obj)
    requires NoDup(s)
    ensures LruAccess(c, Take(s, c), o) == Take([o] + Without(s, o), c)
  {
    var l := Take(s, c);
    if o in s {
      var p :| 0 <= p < |s| && s[p] == o;
      WithoutAt(s, p);
      if p < c {
        assert l[p] == o;
        WithoutAt(l, p);
        TakeWithout(s, c, p);
      } else {
        assert o !in l;
        TakeBefore(s, c, p);
      }
    } else {
      WithoutAbsent(s, o);
      assert Take([o] + l, c) == Take([o] + s, c);
    }
  }

  lemma TakeWithout(s: seq<Obj>, c: nat, p: nat)
    requires p < |s| && p < c
    ensures var l := Take(s, c); [s[p]] + (l[..p] + l[p + 1..]) == Take([s[p]] + (s[..p] + s[p + 1..]), c)
  {
  }

  lemma TakeBefore(s: seq<Obj>, c: nat, p: nat)
    requires c <= p < |s|
    ensures Take([s[p]] + Take(s, c), c) == Take([s[p]] + (s[..p] + s[p + 1..]), c)
  {
  }

  /** A list with c slots holds the top c of the stack: small caches are included in large ones. */
  lemma {:induction false} LruIsStackPrefix(c: nat, tr: seq<Obj>)
    ensures LruRun(c, tr) == Take(Stack(tr), c)
  {
    if tr != [] {
      var past, o := tr[..|tr| - 1], tr[|tr| - 1];
      LruIsStackPrefix(c, past);
      StackOrder(past);
      LruStep(c, Stack(past), o);
    }
  }

  /** The position of o in the stack is the number of distinct other objects requested since. */
  lemma StackPosition(tr: seq<Obj>, p: nat)
    requires p < |Stack(tr)|
    ensures Since(tr, Stack(tr)[p]) == Elems(Stack(tr)[..p])
    ensures |Since(tr, Stack(tr)[p])| == p
  {
    var s := Stack(tr);
    var o := s[p];
    StackOrder(tr);
    forall x | x in Since(tr, o) ensures x in Elems(s[..p]) {
      assert x in tr;
      var q :| 0 <= q < |s| && s[q] == x;
      assert LastAccess(tr, x) > LastAccess(tr, o);
      assert q < p;
    }
    forall x | x in Elems(s[..p]) ensures x in Since(tr, o) {
      var q :| 0 <= q < p && s[q] == x;
      assert LastAccess(tr, x) > LastAccess(tr, o);
      assert x == tr[LastAccess(tr, x)];
    }
    DistinctCount(s[..p]);
  }

  /** An LRU list with c slots hits o just if fewer than c distinct objects came since. */
  lemma LruHitIff(c: nat, tr: seq<Obj>, o: Obj)
    ensures o in LruRun(c, tr) <==> LastAccess(tr, o) >= 0 && |Since(tr, o)| < c
  {
    LruIsStackPrefix(c, tr);
    StackOrder(tr);
    var s := Stack(tr);
    if o in s {
      var p :| 0 <= p < |s| && s[p] == o;
      StackPosition(tr, p);
      assert o in Take(s, c) <==> p < c by {
        if p < c {
          assert Take(s, c)[p] == o;
        }
      }
    }
  }
}
