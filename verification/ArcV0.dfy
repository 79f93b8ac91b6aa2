/** ARC built from smaller caches: ARCv0 has four Clock queues; ARC_FR keeps its ghosts in LRU lists, which
    are never asked to update and so are first in, first out, as Clock queues with idle counters are. The
    two also differ in the order in which T2's victim is evicted and copied. Every object has size one. */
module ArcV0 {
  import opened Lists
  import opened Recency
  import opened ArcPolicy
  import Clock

  ghost function Held(k: Clock.Cache): set<Obj>
    reads k`q
  {
    Elems(k.q)
  }

  /** Which objects the two directories T1 with B1 and T2 with B2 know, as DBL(2c) has it. */
  ghost predicate DirectoryStep(c: nat, l1: set<Obj>, l2: set<Obj>, o: Obj, l1': set<Obj>, l2': set<Obj>) {
    if o in l1 || o in l2 then l1' == l1 - {o} && l2' == l2 + {o}
    else if |l1| == c then l2' == l2 && exists v :: v in l1 && l1' == l1 - {v} + {o}
    else if |l1| + |l2| == 2 * c then l1' == l1 + {o} && exists v :: v in l2 && l2' == l2 - {v}
    else l1' == l1 + {o} && l2' == l2
  }

  /** The victim of a Clock queue has left it and is at the front of the ghost queue. */
  ghost predicate HandedOver(q: seq<Obj>, freq: map<Obj, int>, ghosts: seq<Obj>, q': seq<Obj>, ghosts': seq<Obj>)
  {
    && (forall o :: o in q ==> o in freq)
    && exists v ::
         0 <= v < |q| && Clock.IsVictim(q, freq, v) && ghosts' == [q[v]] + ghosts && q' == q[v + 1..] + q[..v]
  }

  lemma LastOver(q: seq<Obj>, ghosts: seq<Obj>)
    requires q != []
    ensures var v := |q| - 1; (q[v + 1..] + q[..v]) + ([q[v]] + ghosts) == q + ghosts
  {
  }

  lemma LastOut(q: seq<Obj>)
    requires q != []
    ensures q[|q|..] + q[..|q| - 1] == Front(q) && [q[|q| - 1]] == Back(q)
  {
  }

  /** How T1 with its ghosts, as one list, moves: exactly as the first list of DBL(2c). */
  ghost predicate FirstListStep(c: nat, known: bool, l: seq<Obj>, o: Obj, l': seq<Obj>) {
    l' == if known then Without(l, o) else if |l| == c then [o] + Front(l) else [o] + l
  }

  lemma HandElems(q: seq<Obj>, v: nat, ghosts: seq<Obj>)
    requires NoDup(q) && v < |q|
    ensures q[v] in Elems(q) && (q[v] in Elems(ghosts) <==> q[v] in ghosts)
    ensures Elems(q[v + 1..] + q[..v]) == Elems(q) - {q[v]} && Elems([q[v]] + ghosts) == Elems(ghosts) + {q[v]}
  {
    Clock.VictimOut(q, v);
  }

  /** One of the four queues: every object has size one, and the counters of three of them stay at zero. */
  ghost predicate Ready(k: Clock.Cache, idle: bool)
    reads k
  {
    k.Valid() && k.Unit() && (idle ==> k.Idle())
  }

  method Empty(cacheSize: nat) returns (k: Clock.Cache)
    ensures fresh(k) && Ready(k, true) && Ready(k, false) && k.q == [] && k.cacheSize == cacheSize
    ensures k.freq == map[] && k.maxFreq == 1
  {
    hide NoDup, Clock.Cache.Valid;
    k := new Clock.Cache(cacheSize, 1);
  }

  lemma ReadyFacts(k: Clock.Cache, idle: bool)
    requires Ready(k, idle)
    ensures k.Valid() && NoDup(k.q) && (forall o :: o in k.freq <==> o in k.q) && k.occupied == |k.q| <= k.cacheSize
    ensures Elems(k.q) == Held(k)
  {
    k.Facts();
  }

  /** The get of a queue that lacks the object and has room for it: no eviction happens inside. */
  method Push(k: Clock.Cache, o: Obj, ghost idle: bool)
    requires Ready(k, idle) && o !in k.q && |k.q| < k.cacheSize
    modifies k
    ensures Ready(k, idle) && k.q == [o] + old(k.q) && k.freq == old(k.freq)[o := 0]
  {
    hide Clock.Cache.Valid, NoDup;
    k.Facts();
    var hit, _ := k.Get(Request(o, 1));
    assert !hit;
  }

  method PushFront(k: Clock.Cache, o: Obj, ghost idle: bool)
    requires Ready(k, idle) && o !in k.q && |k.q| < k.cacheSize
    modifies k
    ensures Ready(k, idle) && k.q == [o] + old(k.q) && k.freq == old(k.freq)[o := 0]
  {
    hide Clock.Cache.Valid, NoDup;
    k.Facts();
    k.Insert(Request(o, 1));
  }

  method Pop(k: Clock.Cache, ghost idle: bool) returns (ghost v: nat)
    requires Ready(k, idle) && k.q != []
    modifies k
    ensures Ready(k, idle) && v < |old(k.q)| && IsVictimOf(old(k.q), old(k.freq), v)
    ensures k.q == old(k.q[v + 1..] + k.q[..v]) && (idle ==> v == |old(k.q)| - 1)
    ensures k.Now() == Clock.AfterEviction(old(k.Now())) && old(k.q)[v] == VictimIn(old(k.q), old(k.freq))
  {
    hide Clock.Cache.Valid, NoDup, Clock.IsVictim, Clock.AfterEviction, VictimIn;
    k.Facts();
    v := k.EvictOne();
    NamesVictim(old(k.q), old(k.freq), v);
  }

  method LookIn(k: Clock.Cache, o: Obj, update: bool, ghost idle: bool) returns (hit: bool)
    requires Ready(k, idle) && (update ==> !idle)
    modifies k
    ensures Ready(k, idle) && k.q == old(k.q) && hit == (o in k.q)
    ensures !update ==> k.freq == old(k.freq)
    ensures hit && update ==>
      && o in old(k.freq)
      && k.freq == old(k.freq)[o := if old(k.freq)[o] < k.maxFreq then old(k.freq)[o] + 1 else old(k.freq)[o]]
  {
    hide Clock.Cache.Valid, NoDup;
    k.Facts();
    hit := k.Find(o, update);
  }

  method TakeOut(k: Clock.Cache, o: Obj, ghost idle: bool)
    requires Ready(k, idle)
    modifies k
    ensures Ready(k, idle) && k.q == Without(old(k.q), o)
  {
    hide Clock.Cache.Valid, NoDup;
    var _ := k.Remove(o);
  }

  ghost predicate IsVictimOf(q: seq<Obj>, freq: map<Obj, int>, v: nat) {
    (forall o :: o in q ==> o in freq) && Clock.IsVictim(q, freq, v)
  }

  lemma InHeld(k: Clock.Cache)
    ensures forall x :: x in k.q <==> x in Held(k)
  {
  }

  /** The object that a queue would evict. */
  ghost function VictimIn(q: seq<Obj>, freq: map<Obj, int>): Obj {
    if q != [] && forall o :: o in q ==> o in freq then q[Clock.VictimOf(q, freq)] else 0
  }

  /** A queue without its victim. */
  ghost predicate Out(q: seq<Obj>, freq: map<Obj, int>, q': seq<Obj>) {
    exists v :: 0 <= v < |q| && IsVictimOf(q, freq, v) && q' == q[v + 1..] + q[..v]
  }

  lemma OutIs(q: seq<Obj>, freq: map<Obj, int>, q': seq<Obj>)
    requires NoDup(q) && Out(q, freq, q')
    ensures VictimIn(q, freq) in q && forall o :: o in q' <==> o in q && o != VictimIn(q, freq)
  {
    hide NoDup, Clock.IsVictim;
    var v :| 0 <= v < |q| && IsVictimOf(q, freq, v) && q' == q[v + 1..] + q[..v];
    NamesVictim(q, freq, v);
    Clock.VictimOut(q, v);
  }

  lemma NamesVictim(q: seq<Obj>, freq: map<Obj, int>, v: nat)
    requires v < |q| && (forall o :: o in q ==> o in freq) && Clock.IsVictim(q, freq, v)
    ensures q[v] == VictimIn(q, freq)
  {
    Clock.VictimUnique(q, freq, v, Clock.VictimOf(q, freq));
  }

  lemma OverOut(q: seq<Obj>, freq: map<Obj, int>, ghosts: seq<Obj>, q': seq<Obj>, ghosts': seq<Obj>)
    requires HandedOver(q, freq, ghosts, q', ghosts')
    ensures Out(q, freq, q')
  {
    hide Clock.IsVictim;
    var v :|
      0 <= v < |q| && Clock.IsVictim(q, freq, v) && ghosts' == [q[v]] + ghosts && q' == q[v + 1..] + q[..v];
    assert IsVictimOf(q, freq, v);
  }

  // ---- the four queues as a function of the trace ----------------------------------------------------

  /** T1 and the ghosts are first in, first out; T2 is a ring with counters. */
  datatype Queues = Queues(t1: seq<Obj>, b1: seq<Obj>, t2: Clock.Ring, b2: seq<Obj>, p: real)

  /** REPLACE. */
  ghost function Freed(s: Queues, inB2: bool): Queues {
    if (|s.t1| > 0 && (|s.t1| as real > s.p || (|s.t1| as real == s.p && inB2))) || s.t2.q == [] then
      s.(t1 := Front(s.t1), b1 := Back(s.t1) + s.b1)
    else
      s.(t2 := Clock.AfterEviction(s.t2), b2 := [VictimIn(s.t2.q, s.t2.freq)] + s.b2)
  }

  /** Case IV, for a full cache. */
  ghost function Vacated4(c: nat, s: Queues): Queues {
    if |s.t1| + |s.b1| >= c then
      if s.b1 != [] then Freed(s.(b1 := Front(s.b1)), false) else s.(t1 := Front(s.t1))
    else if |s.t1| + |s.b1| + |s.t2.q| + |s.b2| >= 2 * c then Freed(s.(b2 := Front(s.b2)), false)
    else Freed(s, false)
  }

  /** Room for one object. */
  ghost function RoomFor(c: nat, s: Queues, seen: bool, inB2: bool): Queues {
    if |s.t1| + |s.t2.q| < c then s else if seen then Freed(s, inB2) else Vacated4(c, s)
  }

  lemma RoomAlready(c: nat, s: Queues, seen: bool, inB2: bool)
    requires |s.t1| + |s.t2.q| < c
    ensures RoomFor(c, s, seen, inB2) == s
  {
  }

  ghost function WithT1(s: Queues, x: Obj): Queues {
    s.(t1 := [x] + s.t1)
  }

  ghost function WithT2(s: Queues, x: Obj): Queues {
    s.(t2 := Clock.Ring([x] + s.t2.q, s.t2.freq[x := 0]))
  }

  /** The look-up of a cached object. */
  ghost function Touched(m: nat, s: Queues, x: Obj): Queues {
    if x in s.t1 then WithT2(s.(t1 := Without(s.t1, x)), x)
    else if x in s.t2.freq then
      var f := s.t2.freq[x];
      s.(t2 := Clock.Ring(s.t2.q, s.t2.freq[x := if f < m then f + 1 else f]))
    else s
  }

  /** The look-up of an object that is not cached: p moves, and the ghost is gone. */
  ghost function LookedUp(c: nat, s: Queues, x: Obj): Queues {
    if x in s.b1 then s.(b1 := Without(s.b1, x), p := Min(s.p + Delta(|s.b1|, |s.b2|), c as real))
    else if x in s.b2 then s.(b2 := Without(s.b2, x), p := Max(s.p - Delta(|s.b2|, |s.b1|), 0.0))
    else s
  }

  /** One request to a cache of c objects, with counters up to m in T2. */
  ghost function Served(c: nat, m: nat, s: Queues, x: Obj): Queues {
    if x in s.t1 || x in s.t2.q then Touched(m, s, x)
    else
      var seen := x in s.b1 || x in s.b2;
      var r := RoomFor(c, LookedUp(c, s, x), seen, x in s.b2);
      if seen then WithT2(r, x) else WithT1(r, x)
  }

  ghost function QueuesAfter(c: nat, m: nat, tr: seq<Obj>): Queues {
    if tr == [] then Queues([], [], Clock.Ring([], map[]), [], 0.0)
    else Served(c, m, QueuesAfter(c, m, tr[..|tr| - 1]), tr[|tr| - 1])
  }

  ghost function Hits(c: nat, m: nat, tr: seq<Obj>): nat {
    if tr == [] then 0
    else
      var s, x := QueuesAfter(c, m, tr[..|tr| - 1]), tr[|tr| - 1];
      Hits(c, m, tr[..|tr| - 1]) + if x in s.t1 || x in s.t2.q then 1 else 0
  }

  class Cache {
    const cacheSize: nat
    const t1: Clock.Cache
    const b1: Clock.Cache
    const t2: Clock.Cache
    const b2: Clock.Cache
    const ghostFirst: bool   // ARC_FR: T2's victim is copied to B2 before it is evicted
    var p: real
    var inB1: bool
    var inB2: bool
    var ghostTime: int
    var nReq: int

    ghost predicate Parts()
      reads this`p, t1, b1, t2, b2
    {
      && t1 != b1 && t1 != t2 && t1 != b2 && b1 != t2 && b1 != b2 && t2 != b2
      && Ready(t1, true) && Ready(b1, true) && Ready(t2, false) && Ready(b2, true) && cacheSize >= 1
      && t1.cacheSize == cacheSize && b1.cacheSize == cacheSize
      && t2.cacheSize == cacheSize && b2.cacheSize == cacheSize
      && 0.0 <= p <= cacheSize as real
    }

    /** No object is in two places. */
    ghost predicate Apart()
      reads t1`q, b1`q, t2`q, b2`q
    {
      && Held(t1) !! Held(b1) && Held(t1) !! Held(t2) && Held(t1) !! Held(b2)
      && Held(b1) !! Held(t2) && Held(b1) !! Held(b2) && Held(t2) !! Held(b2)
    }

    /** The bounds of the ARC paper. */
    ghost predicate Bounds()
      reads this`p, t1`q, b1`q, t2`q, b2`q
    {
      && |t1.q| + |t2.q| <= cacheSize && |t1.q| + |b1.q| <= cacheSize
      && |t1.q| + |b1.q| + |t2.q| + |b2.q| <= 2 * cacheSize
      && (|t1.q| + |t2.q| < cacheSize ==> b1.q == [] && b2.q == [] && p == 0.0)
    }

    ghost predicate Valid()
      reads this, t1, b1, t2, b2
    {
      Parts() && Apart() && Bounds() && !inB1 && !inB2 && ghostTime <= nReq && nReq >= 0
    }

    ghost function Now(): Queues
      reads this`p, t1`q, b1`q, t2`q, t2`freq, b2`q
    {
      Queues(t1.q, b1.q, t2.Now(), b2.q, p)
    }

    /** T1 and its ghosts, in the order in which they came in. */
    ghost function List1(): seq<Obj>
      reads t1`q, b1`q
    {
      t1.q + b1.q
    }

    ghost function L1(): set<Obj>
      reads t1`q, b1`q
    {
      Held(t1) + Held(b1)
    }

    ghost function L2(): set<Obj>
      reads t2`q, b2`q
    {
      Held(t2) + Held(b2)
    }

    constructor (cacheSize: nat, ghostFirst: bool)
      requires cacheSize >= 1
      ensures Valid() && List1() == [] && L2() == {} && this.cacheSize == cacheSize
      ensures Now() == Queues([], [], Clock.Ring([], map[]), [], 0.0) && t2.maxFreq == 1
      ensures fresh(t1) && fresh(b1) && fresh(t2) && fresh(b2)
    {
      hide Ready;
      var q1 := Empty(cacheSize);
      var g1 := Empty(cacheSize);
      var q2 := Empty(cacheSize);
      var g2 := Empty(cacheSize);
      this.cacheSize, this.ghostFirst := cacheSize, ghostFirst;
      t1, b1, t2, b2 := q1, g1, q2, g2;
      p, inB1, inB2, ghostTime, nReq := 0.0, false, false, -1, 0;
      new;
      assert Held(t1) == {} && Held(b1) == {} && Held(t2) == {} && Held(b2) == {};
    }

    /** The predicted victim of T1 is copied to B1, and then T1 evicts the very same object. */
    method DemoteT1()
      requires Parts() && Apart() && t1.q != [] && |b1.q| < cacheSize
      modifies t1, b1
      ensures Parts() && Apart() && L1() == old(L1()) && |t1.q| == |old(t1.q)| - 1 && |b1.q| == |old(b1.q)| + 1
      ensures HandedOver(old(t1.q), old(t1.freq), old(b1.q), t1.q, b1.q) && List1() == old(List1())
      ensures t1.q == Front(old(t1.q)) && b1.q == Back(old(t1.q)) + old(b1.q)
    {
      hide NoDup, Clock.IsVictim, Elems, Ready, VictimIn, Clock.AfterEviction, Front, Back;
      ReadyFacts(t1, true);
      var obj, v := t1.ToEvict();
      HandElems(t1.q, v, b1.q);
      assert obj in Held(t1) && obj !in Held(b1);
      Push(b1, obj, true);
      ghost var w := Pop(t1, true);
      Clock.VictimUnique(old(t1.q), old(t1.freq), v, w);
      LastOver(old(t1.q), old(b1.q));
      LastOut(old(t1.q));
    }

    method DemoteT2()
      requires Parts() && Apart() && t2.q != [] && |b2.q| < cacheSize
      modifies t2, b2
      ensures Parts() && Apart() && L2() == old(L2()) && |t2.q| == |old(t2.q)| - 1 && |b2.q| == |old(b2.q)| + 1
      ensures HandedOver(old(t2.q), old(t2.freq), old(b2.q), t2.q, b2.q)
      ensures t2.Now() == Clock.AfterEviction(old(t2.Now()))
      ensures b2.q == [VictimIn(old(t2.q), old(t2.freq))] + old(b2.q)
    {
      hide Clock.IsVictim, Ready, HandedOver, VictimIn, Clock.AfterEviction;
      ReadyFacts(t2, false);
      var obj, v := t2.ToEvict();
      if ghostFirst {
        CopyThenEvict(obj, v);
      } else {
        EvictThenCopy(obj, v);
      }
    }

    /** The order of ARC_FR. */
    method CopyThenEvict(obj: Obj, ghost v: nat)
      requires Parts() && Apart() && |b2.q| < cacheSize
      requires v < |t2.q| && obj == t2.q[v] && (forall o :: o in t2.q ==> o in t2.freq)
      requires Clock.IsVictim(t2.q, t2.freq, v)
      modifies t2, b2
      ensures Parts() && Apart() && L2() == old(L2()) && |t2.q| == |old(t2.q)| - 1 && |b2.q| == |old(b2.q)| + 1
      ensures HandedOver(old(t2.q), old(t2.freq), old(b2.q), t2.q, b2.q)
      ensures t2.Now() == Clock.AfterEviction(old(t2.Now()))
      ensures b2.q == [VictimIn(old(t2.q), old(t2.freq))] + old(b2.q)
    {
      hide NoDup, Clock.IsVictim, Elems, Ready, VictimIn, Clock.AfterEviction;
      ReadyFacts(t2, false);
      HandElems(t2.q, v, b2.q);
      assert obj in Held(t2) && obj !in Held(b2);
      Push(b2, obj, true);
      ghost var w := Pop(t2, false);
      Clock.VictimUnique(old(t2.q), old(t2.freq), v, w);
    }

    /** The order of ARCv0. */
    method EvictThenCopy(obj: Obj, ghost v: nat)
      requires Parts() && Apart() && |b2.q| < cacheSize
      requires v < |t2.q| && obj == t2.q[v] && (forall o :: o in t2.q ==> o in t2.freq)
      requires Clock.IsVictim(t2.q, t2.freq, v)
      modifies t2, b2
      ensures Parts() && Apart() && L2() == old(L2()) && |t2.q| == |old(t2.q)| - 1 && |b2.q| == |old(b2.q)| + 1
      ensures HandedOver(old(t2.q), old(t2.freq), old(b2.q), t2.q, b2.q)
      ensures t2.Now() == Clock.AfterEviction(old(t2.Now()))
      ensures b2.q == [VictimIn(old(t2.q), old(t2.freq))] + old(b2.q)
    {
      hide NoDup, Clock.IsVictim, Elems, Ready, VictimIn, Clock.AfterEviction;
      ReadyFacts(t2, false);
      HandElems(t2.q, v, b2.q);
      assert obj in Held(t2) && obj !in Held(b2);
      ghost var w := Pop(t2, false);
      Clock.VictimUnique(old(t2.q), old(t2.freq), v, w);
      Push(b2, obj, true);
    }

    predicate PicksT1()
      reads this, t1, t2
    {
      || (t1.occupied > 0 && (t1.occupied as real > p || (t1.occupied as real == p && inB2)))
      || t2.occupied == 0
    }

    lemma Sizes()
      requires Parts()
      ensures t1.occupied == |t1.q| <= cacheSize && b1.occupied == |b1.q| <= cacheSize
      ensures t2.occupied == |t2.q| <= cacheSize && b2.occupied == |b2.q| <= cacheSize
      ensures NoDup(t1.q) && NoDup(b1.q) && NoDup(t2.q) && NoDup(b2.q)
      ensures |Held(t1)| == |t1.q| && |Held(b1)| == |b1.q| && |Held(t2)| == |t2.q| && |Held(b2)| == |b2.q|
      ensures Apart() ==> |L1()| == |t1.q| + |b1.q| && |L2()| == |t2.q| + |b2.q|
    {
      ReadyFacts(t1, true);
      ReadyFacts(b1, true);
      ReadyFacts(t2, false);
      ReadyFacts(b2, true);
      DistinctCount(t1.q);
      DistinctCount(b1.q);
      DistinctCount(t2.q);
      DistinctCount(b2.q);
    }

    /** REPLACE. One slot of a full cache becomes free, and no directory forgets anything. */
    method Replace()
      requires Parts() && Apart() && |t1.q| + |t2.q| == cacheSize
      requires |t1.q| + |b1.q| <= cacheSize && |b2.q| < cacheSize
      modifies t1, b1, t2, b2
      ensures Parts() && Apart() && L1() == old(L1()) && L2() == old(L2())
      ensures Now() == Freed(old(Now()), inB2)
      ensures old(PicksT1()) ==>
        HandedOver(old(t1.q), old(t1.freq), old(b1.q), t1.q, b1.q) && t2.q == old(t2.q) && b2.q == old(b2.q)
      ensures !old(PicksT1()) ==>
        HandedOver(old(t2.q), old(t2.freq), old(b2.q), t2.q, b2.q) && t1.q == old(t1.q) && b1.q == old(b1.q)
      ensures |t1.q| + |t2.q| == cacheSize - 1 && List1() == old(List1())
      ensures |t1.q| + |b1.q| == old(|t1.q| + |b1.q|) && |t2.q| + |b2.q| == old(|t2.q| + |b2.q|)
      ensures if old(PicksT1()) then Out(old(t1.q), old(t1.freq), t1.q) && t2.q == old(t2.q)
        else Out(old(t2.q), old(t2.freq), t2.q) && t1.q == old(t1.q)
    {
      hide Ready, Apart, Elems, HandedOver, Out, VictimIn, Clock.AfterEviction, Front, Back;
      Sizes();
      var cond1 := t1.occupied > 0;
      var cond2 := t1.occupied as real > p;
      var cond3 := t1.occupied as real == p && inB2;
      var cond4 := t2.occupied == 0;
      if (cond1 && (cond2 || cond3)) || cond4 {
        DemoteT1();
        OverOut(old(t1.q), old(t1.freq), old(b1.q), t1.q, b1.q);
      } else {
        DemoteT2();
        OverOut(old(t2.q), old(t2.freq), old(b2.q), t2.q, b2.q);
      }
    }

    method DropT1()
      requires Parts() && Apart() && t1.q != []
      modifies t1
      ensures Parts() && Apart() && t1.q == Front(old(t1.q)) && Out(old(t1.q), old(t1.freq), t1.q) && L2() == old(L2())
      ensures exists v :: v in old(L1()) && L1() == old(L1()) - {v}
    {
      hide NoDup, Clock.IsVictim, Elems, Ready;
      ReadyFacts(t1, true);
      ghost var w := Pop(t1, true);
      HandElems(old(t1.q), w, []);
    }

    method DropB1()
      requires Parts() && Apart() && b1.q != []
      modifies b1
      ensures Parts() && Apart() && b1.q == Front(old(b1.q)) && L2() == old(L2())
      ensures exists v :: v in old(L1()) && L1() == old(L1()) - {v}
    {
      hide NoDup, Clock.IsVictim, Elems, Ready;
      ReadyFacts(b1, true);
      ghost var w := Pop(b1, true);
      HandElems(old(b1.q), w, []);
    }

    method DropB2()
      requires Parts() && Apart() && b2.q != []
      modifies b2
      ensures Parts() && Apart() && b2.q == Front(old(b2.q)) && L1() == old(L1())
      ensures exists v :: v in old(L2()) && L2() == old(L2()) - {v}
    {
      hide NoDup, Clock.IsVictim, Elems, Ready;
      ReadyFacts(b2, true);
      ghost var w := Pop(b2, true);
      HandElems(old(b2.q), w, []);
    }

    /** On a miss, T1 also gives up an object if it fills the first directory alone. */
    predicate MissPicksT1()
      reads this, t1, b1, t2
    {
      if t1.occupied + b1.occupied + 1 > cacheSize && b1.occupied <= 0 then true else PicksT1()
    }

    /** Case IV A with ghosts. */
    method EvictMissA()
      requires Parts() && Apart() && Bounds() && |t1.q| + |t2.q| == cacheSize
      requires b1.q != [] && |t1.q| + |b1.q| == cacheSize
      modifies t1, b1, t2, b2
      ensures Parts() && Apart() && |t1.q| + |t2.q| == cacheSize - 1
      ensures |t1.q| + |b1.q| < cacheSize && |t1.q| + |b1.q| + |t2.q| + |b2.q| < 2 * cacheSize
      ensures L2() == old(L2()) && exists v :: v in old(L1()) && L1() == old(L1()) - {v}
      ensures List1() == Front(old(List1()))
      ensures if old(PicksT1()) then Out(old(t1.q), old(t1.freq), t1.q) && t2.q == old(t2.q)
        else Out(old(t2.q), old(t2.freq), t2.q) && t1.q == old(t1.q)
      ensures Now() == Freed(old(Now()).(b1 := Front(old(b1.q))), inB2)
    {
      hide Ready, Apart, Elems, HandedOver, Out, Freed;
      DropB1();
      Replace();
    }

    /** Case IV B. The loop runs at most once. */
    method EvictMissB()
      requires Parts() && Apart() && Bounds() && |t1.q| + |t2.q| == cacheSize && |t1.q| + |b1.q| < cacheSize
      modifies t1, b1, t2, b2
      ensures Parts() && Apart() && |t1.q| + |t2.q| == cacheSize - 1
      ensures |t1.q| + |b1.q| < cacheSize && |t1.q| + |b1.q| + |t2.q| + |b2.q| < 2 * cacheSize
      ensures L1() == old(L1()) && List1() == old(List1())
      ensures if |old(L1())| + |old(L2())| == 2 * cacheSize then exists v :: v in old(L2()) && L2() == old(L2()) - {v}
        else L2() == old(L2())
      ensures if old(PicksT1()) then Out(old(t1.q), old(t1.freq), t1.q) && t2.q == old(t2.q)
        else Out(old(t2.q), old(t2.freq), t2.q) && t1.q == old(t1.q)
      ensures var full := |old(L1())| + |old(L2())| == 2 * cacheSize;
        Now() == Freed(if full then old(Now()).(b2 := Front(old(b2.q))) else old(Now()), inB2)
    {
      hide Ready, Apart, Elems, HandedOver, Out, Freed;
      Sizes();
      while t1.occupied + b1.occupied + t2.occupied + b2.occupied >= cacheSize * 2
        invariant Parts() && Apart() && Bounds()
        invariant t1.q == old(t1.q) && b1.q == old(b1.q) && t2.q == old(t2.q)
        invariant b2.q == old(b2.q) || (|old(b2.q)| == |b2.q| + 1 && |old(L1())| + |old(L2())| == 2 * cacheSize)
        invariant b2.q != old(b2.q) ==> b2.q == Front(old(b2.q))
        invariant b2.q == old(b2.q) ==> L2() == old(L2())
        invariant b2.q != old(b2.q) ==> exists v :: v in old(L2()) && L2() == old(L2()) - {v}
        invariant t1.occupied == |t1.q| && b1.occupied == |b1.q| && t2.occupied == |t2.q| && b2.occupied == |b2.q|
        decreases |b2.q|
        modifies b2
      {
        DropB2();
        Sizes();
      }
      Replace();
    }

    /** The object is in no queue: case IV of the paper. */
    method EvictMissOnAll()
      requires Parts() && Apart() && Bounds() && |t1.q| + |t2.q| == cacheSize
      modifies t1, b1, t2, b2
      ensures Parts() && Apart() && |t1.q| + |t2.q| == cacheSize - 1
      ensures |t1.q| + |b1.q| < cacheSize && |t1.q| + |b1.q| + |t2.q| + |b2.q| < 2 * cacheSize
      ensures Vacated(old(L1()), old(L2()), L1(), L2())
      ensures List1() == if |old(L1())| == cacheSize then Front(old(List1())) else old(List1())
      ensures if old(MissPicksT1()) then Out(old(t1.q), old(t1.freq), t1.q) && t2.q == old(t2.q)
        else Out(old(t2.q), old(t2.freq), t2.q) && t1.q == old(t1.q)
      ensures !inB2 ==> Now() == Vacated4(cacheSize, old(Now()))
    {
      hide Ready, Apart, Elems, HandedOver, Out, Freed;
      Sizes();
      if t1.occupied + b1.occupied + 1 > cacheSize {
        if b1.occupied > 0 {
          EvictMissA();
        } else {
          DropT1();
        }
      } else {
        EvictMissB();
      }
    }

    /** What the directories lose when room is made for an unknown object. */
    ghost predicate Vacated(l1: set<Obj>, l2: set<Obj>, l1': set<Obj>, l2': set<Obj>) {
      if |l1| == cacheSize then l2' == l2 && exists v :: v in l1 && l1' == l1 - {v}
      else if |l1| + |l2| == 2 * cacheSize then l1' == l1 && exists v :: v in l2 && l2' == l2 - {v}
      else l1' == l1 && l2' == l2
    }

    // ---- the look-up -----------------------------------------------------------------------------

    /** A hit in T1: the object moves to T2, which has room for it. */
    method HitInT1(o: Obj)
      requires Parts() && Apart() && Bounds() && o in t1.q
      modifies t1, t2
      ensures Parts() && Apart() && Bounds() && t1.q == Without(old(t1.q), o) && t2.q == [o] + old(t2.q)
      ensures L1() == old(L1()) - {o} && L2() == old(L2()) + {o} && b1.q == old(b1.q)
      ensures t2.freq == old(t2.freq)[o := 0]
      ensures o !in old(t2.q) && o !in b1.q && o !in b2.q
    {
      hide NoDup, Elems, Ready;
      Sizes();
      OneQueue(o);
      WithoutElems(t1.q, o);
      HandElems([o], 0, t2.q);
      assert o in Held(t1);
      TakeOut(t1, o, true);
      Push(t2, o, false);
    }

    /** A hit in T2 raises the counter. */
    method HitInT2(o: Obj)
      requires Parts() && Apart() && Bounds() && o in t2.q
      modifies t2
      ensures Parts() && Apart() && Bounds() && t2.q == old(t2.q) && L1() == old(L1()) && L2() == old(L2()) + {o}
      ensures L1() == old(L1()) - {o}
      ensures t2.freq ==
        old(t2.freq)[o := if old(t2.freq)[o] < t2.maxFreq then old(t2.freq)[o] + 1 else old(t2.freq)[o]]
      ensures o in old(t2.freq) && o !in t1.q && o !in b1.q && o !in b2.q
    {
      hide NoDup, Ready;
      OneQueue(o);
      var found := LookIn(t2, o, true, false);
      assert found;
    }

    /** A ghost hit in B1. */
    method HitInB1(o: Obj)
      requires Parts() && Apart() && o in b1.q
      modifies this`p, b1
      ensures Parts() && Apart() && b1.q == Without(old(b1.q), o) && |b1.q| == |old(b1.q)| - 1
      ensures p == Min(old(p) + Delta(|old(b1.q)|, |b2.q|), cacheSize as real)
      ensures RaisedBy(old(p), p, |old(b1.q)|, |b2.q|, cacheSize)
      ensures L1() == old(L1()) - {o}
    {
      hide NoDup, Elems, Ready, Delta, Min, Max, RaisedBy, LoweredBy;
      Sizes();
      WithoutElems(b1.q, o);
      p := Raise(p, b1.occupied, b2.occupied, cacheSize);
      assert o in Held(b1);
      TakeOut(b1, o, true);
    }

    method HitInB2(o: Obj)
      requires Parts() && Apart() && o in b2.q
      modifies this`p, b2
      ensures Parts() && Apart() && b2.q == Without(old(b2.q), o) && |b2.q| == |old(b2.q)| - 1
      ensures p == Max(old(p) - Delta(|old(b2.q)|, |b1.q|), 0.0) < cacheSize as real
      ensures LoweredBy(old(p), p, |old(b2.q)|, |b1.q|)
      ensures L2() == old(L2()) - {o}
    {
      hide NoDup, Elems, Ready, Delta, Min, Max, RaisedBy, LoweredBy;
      Sizes();
      WithoutElems(b2.q, o);
      LoweredBelow(p, b2.occupied, b1.occupied, cacheSize);
      p := Lower(p, b2.occupied, b1.occupied, cacheSize);
      assert o in Held(b2);
      TakeOut(b2, o, true);
    }

    predicate GhostHit()
      reads this`ghostTime, this`nReq, this`inB1, this`inB2
    {
      ghostTime == nReq && (inB1 || inB2)
    }

    /** After the look-up: the directories without o, and whether a ghost was hit. */
    ghost predicate Looked(l1: set<Obj>, l2: set<Obj>, o: Obj, l: seq<Obj>)
      reads this, t1, b1, t2, b2
    {
      && List1() == Without(l, o) && (o !in l1 ==> List1() == l) && |l| == |l1|
      && Parts() && Apart() && Bounds() && L1() == l1 - {o} && L2() == l2 - {o} && o !in l1 - {o}
      && o !in Held(t1) && o !in Held(t2) && o !in Held(b1) && o !in Held(b2)
      && (o in l1 || o in l2 <==> GhostHit()) && (!GhostHit() ==> !inB1 && !inB2)
      && (GhostHit() ==>
            && |t1.q| + |t2.q| == cacheSize && |b2.q| < cacheSize
            && |t1.q| + |b1.q| + |t2.q| + |b2.q| < 2 * cacheSize
            && (o in l1 || inB1 ==> |t1.q| + |b1.q| < cacheSize) && (inB2 ==> p < cacheSize as real))
      && ghostTime <= nReq && nReq >= 0
    }

    /** The four look-ups that change nothing. */
    method LookUp(o: Obj) returns (inT1: bool, inT2: bool, ghostB1: bool, ghostB2: bool)
      requires Parts()
      modifies t1, t2, b1, b2
      ensures Parts() && t1.q == old(t1.q) && b1.q == old(b1.q) && t2.q == old(t2.q) && b2.q == old(b2.q)
      ensures inT1 == (o in t1.q) && inT2 == (o in t2.q) && ghostB1 == (o in b1.q) && ghostB2 == (o in b2.q)
      ensures t2.freq == old(t2.freq) && Now() == old(Now())
    {
      hide Ready;
      inT1 := LookIn(t1, o, false, true);
      inT2 := LookIn(t2, o, false, false);
      ghostB1 := LookIn(b1, o, false, true);
      ghostB2 := LookIn(b2, o, false, true);
    }

    method FindInB1(o: Obj)
      requires Parts() && Apart() && Bounds() && !inB1 && !inB2 && nReq >= 0 && o in b1.q
      modifies this`p, this`inB1, this`ghostTime, b1
      ensures Looked(old(L1()), old(L2()), o, old(List1()))
      ensures Now() == LookedUp(cacheSize, old(Now()), o) && GhostHit() && !inB2
      ensures RaisedBy(old(p), p, |old(b1.q)|, |old(b2.q)|, cacheSize)
    {
      hide NoDup, Ready, Delta, Max, Min, Elems, RaisedBy, LoweredBy;
      OneQueue(o);
      ListOut(o);
      ghostTime := nReq;
      inB1 := true;
      HitInB1(o);
      OneQueue(o);
    }

    method FindInB2(o: Obj)
      requires Parts() && Apart() && Bounds() && !inB1 && !inB2 && nReq >= 0 && o in b2.q
      modifies this`p, this`inB2, this`ghostTime, b2
      ensures Looked(old(L1()), old(L2()), o, old(List1()))
      ensures Now() == LookedUp(cacheSize, old(Now()), o) && GhostHit() && inB2
      ensures LoweredBy(old(p), p, |old(b2.q)|, |old(b1.q)|)
    {
      hide NoDup, Ready, Delta, Max, Min, Elems, RaisedBy, LoweredBy;
      OneQueue(o);
      ListOut(o);
      ghostTime := nReq;
      inB2 := true;
      HitInB2(o);
      OneQueue(o);
    }

    /** Taking o out of T1 and its ghosts. */
    lemma ListOut(o: Obj)
      requires Parts() && Apart()
      ensures |List1()| == |L1()|
      ensures o in t1.q ==> Without(t1.q, o) + b1.q == Without(List1(), o)
      ensures o in b1.q ==> t1.q + Without(b1.q, o) == Without(List1(), o)
      ensures o !in t1.q && o !in b1.q ==> Without(List1(), o) == List1()
    {
      hide Ready;
      Sizes();
      OneQueue(o);
      WithoutConcat(t1.q, b1.q, o);
      if o !in t1.q {
        WithoutAbsent(t1.q, o);
      }
      if o !in b1.q {
        WithoutAbsent(b1.q, o);
      }
    }

    lemma NotFound(o: Obj)
      requires Parts() && Apart() && Bounds() && !inB1 && !inB2 && ghostTime < nReq && nReq >= 0
      requires o !in t1.q && o !in t2.q && o !in b1.q && o !in b2.q
      ensures Looked(L1(), L2(), o, List1())
    {
      hide Ready, Elems, Apart, Without;
      ListOut(o);
      OneQueue(o);
      assert L1() - {o} == L1() && L2() - {o} == L2();
    }

    method Find(o: Obj) returns (hit: bool)
      requires Parts() && Apart() && Bounds() && !inB1 && !inB2 && ghostTime < nReq && nReq >= 0
      modifies this`p, this`inB1, this`inB2, this`ghostTime, t1, b1, t2, b2
      ensures hit == (o in old(t1.q) || o in old(t2.q))
      ensures hit ==> Parts() && Apart() && Bounds() && !inB1 && !inB2 && ghostTime == old(ghostTime)
      ensures hit ==>
        L1() == old(L1()) - {o} && L2() == old(L2()) + {o} && (o in old(L1()) || o in old(L2())) && o in t2.q
      ensures !hit ==> Looked(old(L1()), old(L2()), o, old(List1()))
      ensures hit ==> List1() == Without(old(List1()), o)
      ensures hit ==> Now() == Touched(t2.maxFreq, old(Now()), o)
      ensures !hit ==> Now() == LookedUp(cacheSize, old(Now()), o) && inB2 == (o in old(b2.q))
      ensures !hit ==> (GhostHit() <==> o in old(b1.q) || o in old(b2.q))
      ensures o in old(b1.q) ==> !hit && RaisedBy(old(p), p, |old(b1.q)|, |old(b2.q)|, cacheSize)
      ensures o in old(b2.q) ==> !hit && LoweredBy(old(p), p, |old(b2.q)|, |old(b1.q)|)
      ensures o !in old(b1.q) && o !in old(b2.q) ==> p == old(p)
      ensures o in old(t1.q) ==> t2.q == [o] + old(t2.q) && t2.freq == old(t2.freq)[o := 0]
      ensures o in old(t2.q) ==>
        && t2.q == old(t2.q) && o in old(t2.freq)
        && var f := old(t2.freq)[o]; t2.freq == old(t2.freq)[o := if f < t2.maxFreq then f + 1 else f]
    {
      hide Parts, Apart, Bounds, Looked, Elems, RaisedBy, LoweredBy, Delta, Min, Max, Without;
      OneQueue(o);
      ListOut(o);
      Distinct();
      var inT1, inT2, ghostB1, ghostB2 := LookUp(o);
      hit := inT1 || inT2;
      if !hit && !ghostB1 && !ghostB2 {
        NotFound(o);
        return;
      }
      inB1, inB2 := false, false;
      if ghostB1 || ghostB2 {
        if ghostB1 {
          FindInB1(o);
        } else {
          FindInB2(o);
        }
      } else if inT1 {
        HitInT1(o);
      } else {
        HitInT2(o);
      }
    }

    lemma Distinct()
      requires Parts()
      ensures t1 != b1 && t1 != t2 && t1 != b2 && b1 != t2 && b1 != b2 && t2 != b2
    {
    }

    lemma OneQueue(o: Obj)
      requires Parts() && Apart()
      ensures (o in t1.q <==> o in Held(t1)) && (o in t2.q <==> o in Held(t2))
      ensures (o in b1.q <==> o in Held(b1)) && (o in b2.q <==> o in Held(b2))
      ensures o in L1() <==> o in t1.q || o in b1.q
      ensures o in L2() <==> o in t2.q || o in b2.q
      ensures o in t1.q || o in t2.q ==> o !in b1.q && o !in b2.q
      ensures o in b1.q ==> L2() == L2() - {o}
      ensures o in b2.q ==> L1() == L1() - {o}
    {
    }

    /** Whether an eviction takes an object from T1. */
    predicate Loses()
      reads this, t1, b1, t2
    {
      if GhostHit() then PicksT1() else MissPicksT1()
    }

    // ---- the prediction --------------------------------------------------------------------------

    /** The choice of the predictor: it does not look whether T2 has anything to give. */
    predicate AsksT1()
      reads this, t1
    {
      t1.occupied > 0 && (t1.occupied as real > p || (t1.occupied as real == p && inB2))
    }

    /** The victim of the queue asked, unless that is T2 and empty. */
    method ToReplace() returns (found: bool, o: Obj)
      requires Parts()
      ensures found == (AsksT1() || t2.q != [])
      ensures found ==> AsksT1() == PicksT1()
      ensures found ==> o == if PicksT1() then VictimIn(t1.q, t1.freq) else VictimIn(t2.q, t2.freq)
    {
      hide Ready, Clock.IsVictim, Clock.VictimOf, Clock.Cache.Valid;
      ReadyFacts(t1, true);
      ReadyFacts(t2, false);
      if t1.occupied > 0 && (t1.occupied as real > p || (t1.occupied as real == p && inB2)) {
        ghost var v;
        o, v := t1.ToEvict();
        NamesVictim(t1.q, t1.freq, v);
        return true, o;
      }
      if t2.occupied == 0 {
        return false, 0;
      }
      ghost var v;
      o, v := t2.ToEvict();
      NamesVictim(t2.q, t2.freq, v);
      return true, o;
    }

    /** Whether the predictor finds an object: not if it asks an empty T2. */
    ghost predicate Predicts()
      reads this, t1, b1, t2
    {
      (!GhostHit() && t1.occupied + b1.occupied + 1 > cacheSize && b1.occupied <= 0) || AsksT1() || t2.q != []
    }

    method ToEvict() returns (found: bool, o: Obj)
      requires Parts()
      ensures found == Predicts()
      ensures found ==> o == if Loses() then VictimIn(t1.q, t1.freq) else VictimIn(t2.q, t2.freq)
    {
      hide Ready, Clock.IsVictim, Clock.VictimOf, Clock.Cache.Valid;
      if ghostTime == nReq && (inB1 || inB2) {
        found, o := ToReplace();
      } else if t1.occupied + b1.occupied + 1 > cacheSize && b1.occupied <= 0 {
        ReadyFacts(t1, true);
        ReadyFacts(b1, true);
        ghost var v;
        o, v := t1.ToEvict();
        NamesVictim(t1.q, t1.freq, v);
        return true, o;
      } else {
        found, o := ToReplace();
      }
    }

    /** When the cache holds an object and yet none is predicted: T2 is empty and T1 has not outgrown its target. */
    lemma NotPredictedIff()
      requires Parts() && (t1.q != [] || t2.q != [])
      ensures !Predicts() <==>
        && t2.q == [] && (|t1.q| as real < p || (|t1.q| as real == p && !inB2))
        && (GhostHit() || |t1.q| + |b1.q| < cacheSize || b1.q != [])
      ensures !Predicts() ==> Loses()
    {
      Sizes();
    }

    /** Between two requests, and after the look-up of a request that missed, the predictor finds an object
        whenever there is one. */
    lemma ValidPredicts()
      requires Valid() && (t1.q != [] || t2.q != [])
      ensures Predicts()
    {
      Sizes();
    }

    lemma LookedPredicts(l1: set<Obj>, l2: set<Obj>, o: Obj, l: seq<Obj>)
      requires Looked(l1, l2, o, l) && (t1.q != [] || t2.q != [])
      ensures Predicts()
    {
      hide Ready, Apart, Elems;
      Sizes();
    }

    /** The object named is the one that the next eviction takes, and the only one. */
    method EvictPredicted(ghost l1: set<Obj>, ghost l2: set<Obj>, ghost o: Obj, ghost l: seq<Obj>)
      returns (victim: Obj)
      requires Looked(l1, l2, o, l) && |t1.q| + |t2.q| == cacheSize
      modifies t1, b1, t2, b2
      ensures Roomy(l1, l2, o, l)
      ensures victim in old(t1.q) || victim in old(t2.q)
      ensures forall x :: x in t1.q || x in t2.q <==> (x in old(t1.q) || x in old(t2.q)) && x != victim
    {
      hide Ready, Looked, Roomy, Out, Loses, Predicts, VictimIn, NoDup;
      LookedQueues(l1, l2, o, l);
      LookedPredicts(l1, l2, o, l);
      var found;
      found, victim := ToEvict();
      assert found;
      ghost var fromT1 := Loses();
      Evict(l1, l2, o, l);
      if fromT1 {
        OutIs(old(t1.q), old(t1.freq), t1.q);
      } else {
        OutIs(old(t2.q), old(t2.freq), t2.q);
      }
    }

    lemma LookedQueues(l1: set<Obj>, l2: set<Obj>, o: Obj, l: seq<Obj>)
      requires Looked(l1, l2, o, l)
      ensures Parts() && cacheSize >= 1 && NoDup(t1.q) && NoDup(t2.q) && forall x :: x in t1.q ==> x !in t2.q
    {
      hide Ready, Elems;
      Sizes();
      assert forall x :: (x in t1.q <==> x in Held(t1)) && (x in t2.q <==> x in Held(t2)) by {
        InHeld(t1);
        InHeld(t2);
      }
    }

    /** REPLACE on a ghost hit, else case IV. */
    method Evict(ghost l1: set<Obj>, ghost l2: set<Obj>, ghost o: Obj, ghost l: seq<Obj>)
      requires Looked(l1, l2, o, l) && |t1.q| + |t2.q| == cacheSize
      modifies t1, b1, t2, b2
      ensures Roomy(l1, l2, o, l)
      ensures if old(Loses()) then Out(old(t1.q), old(t1.freq), t1.q) && t2.q == old(t2.q)
        else Out(old(t2.q), old(t2.freq), t2.q) && t1.q == old(t1.q)
      ensures Now() == RoomFor(cacheSize, old(Now()), GhostHit(), inB2)
    {
      hide Ready, Apart, Elems, Out, Freed, Vacated4;
      if ghostTime == nReq && (inB1 || inB2) {
        Replace();
      } else {
        EvictMissOnAll();
      }
    }

    /** There is room for o, which no queue holds. */
    ghost predicate Roomy(l1: set<Obj>, l2: set<Obj>, o: Obj, l: seq<Obj>)
      reads this, t1, b1, t2, b2
    {
      && List1() == (if GhostHit() then Without(l, o) else if |l| == cacheSize then Front(l) else l)
      && Parts() && Apart() && |t1.q| + |t2.q| < cacheSize
      && o !in L1() && o !in L2()
      && (|t1.q| + |t2.q| == cacheSize - 1 || (b1.q == [] && b2.q == [] && p == 0.0))
      && |t1.q| + |b1.q| + |t2.q| + |b2.q| < 2 * cacheSize && |t1.q| + |b1.q| <= cacheSize
      && (!GhostHit() ==> |t1.q| + |b1.q| < cacheSize)
      && (o in l1 || o in l2 <==> GhostHit()) && (!GhostHit() ==> !inB1 && !inB2)
      && (GhostHit() ==> L1() == l1 - {o} && L2() == l2 - {o})
      && (!GhostHit() ==> Vacated(l1, l2, L1(), L2()))
    }

    lemma AlreadyRoomy(l1: set<Obj>, l2: set<Obj>, o: Obj, l: seq<Obj>)
      requires Looked(l1, l2, o, l) && |t1.q| + |t2.q| < cacheSize
      ensures Roomy(l1, l2, o, l)
    {
      hide Ready, Elems, NoDup, Apart, Without;
      Sizes();
      OneQueue(o);
      assert l1 - {o} == l1 && l2 - {o} == l2;
    }

    /** Evicts until there is room: at most once. */
    method MakeRoom(ghost l1: set<Obj>, ghost l2: set<Obj>, ghost o: Obj, ghost l: seq<Obj>)
      requires Looked(l1, l2, o, l)
      modifies t1, b1, t2, b2
      ensures Roomy(l1, l2, o, l)
      ensures Now() == RoomFor(cacheSize, old(Now()), GhostHit(), inB2)
    {
      hide Looked, Roomy, Parts, Apart, Ready, RoomFor;
      LookedSizes(l1, l2, o, l);
      if t1.occupied + t2.occupied < cacheSize {
        AlreadyRoomy(l1, l2, o, l);
        RoomAlready(cacheSize, Now(), GhostHit(), inB2);
      }
      while t1.occupied + t2.occupied + 1 > cacheSize
        invariant t1.occupied + t2.occupied < cacheSize ==> Roomy(l1, l2, o, l)
        invariant t1.occupied + t2.occupied >= cacheSize ==> Looked(l1, l2, o, l) && Now() == old(Now())
        invariant t1.occupied + t2.occupied < cacheSize ==> Now() == RoomFor(cacheSize, old(Now()), GhostHit(), inB2)
        decreases t1.occupied + t2.occupied
      {
        LookedSizes(l1, l2, o, l);
        Evict(l1, l2, o, l);
        RoomySizes(l1, l2, o, l);
      }
    }

    lemma LookedSizes(l1: set<Obj>, l2: set<Obj>, o: Obj, l: seq<Obj>)
      requires Looked(l1, l2, o, l)
      ensures t1.occupied == |t1.q| && t2.occupied == |t2.q| && |t1.q| + |t2.q| <= cacheSize
    {
      Sizes();
    }

    lemma RoomySizes(l1: set<Obj>, l2: set<Obj>, o: Obj, l: seq<Obj>)
      requires Roomy(l1, l2, o, l)
      ensures t1.occupied == |t1.q| && t2.occupied == |t2.q| && |t1.q| + |t2.q| < cacheSize
    {
      Sizes();
    }

    method InsertT2(o: Obj)
      requires Parts() && Apart() && o !in L1() && o !in L2() && |t2.q| < cacheSize
      modifies t2
      ensures Parts() && Apart() && L1() == old(L1()) && L2() == old(L2()) + {o} && t2.q == [o] + old(t2.q)
      ensures Now() == WithT2(old(Now()), o)
    {
      hide Ready, Elems, NoDup;
      OneQueue(o);
      HandElems([o], 0, t2.q);
      PushFront(t2, o, false);
    }

    method InsertT1(o: Obj)
      requires Parts() && Apart() && o !in L1() && o !in L2() && |t1.q| < cacheSize
      modifies t1
      ensures Parts() && Apart() && L1() == old(L1()) + {o} && L2() == old(L2()) && t1.q == [o] + old(t1.q)
      ensures Now() == WithT1(old(Now()), o)
    {
      hide Ready, Elems, NoDup;
      OneQueue(o);
      HandElems([o], 0, t1.q);
      PushFront(t1, o, true);
    }

    method Insert(o: Obj, ghost l1: set<Obj>, ghost l2: set<Obj>, ghost l: seq<Obj>)
      requires Roomy(l1, l2, o, l) && ghostTime <= nReq && nReq >= 0
      modifies this`inB1, this`inB2, this`ghostTime, t1, t2
      ensures Valid() && DirectoryStep(cacheSize, l1, l2, o, L1(), L2()) && (o in t1.q || o in t2.q)
      ensures FirstListStep(cacheSize, o in l1 || o in l2, l, o, List1())
      ensures Now() == if old(GhostHit()) then WithT2(old(Now()), o) else WithT1(old(Now()), o)
    {
      hide Ready, Apart, WithT1, WithT2;
      if ghostTime == nReq && (inB1 || inB2) {
        InsertT2(o);
        inB1, inB2 := false, false;
        ghostTime := -1;
      } else {
        InsertT1(o);
      }
    }

    /** One request. */
    method Get(o: Obj) returns (hit: bool)
      requires Valid()
      modifies this, t1, b1, t2, b2
      ensures Valid() && hit == (o in old(t1.q) || o in old(t2.q)) && (o in t1.q || o in t2.q)
      ensures DirectoryStep(cacheSize, old(L1()), old(L2()), o, L1(), L2())
      ensures FirstListStep(cacheSize, o in old(L1()) || o in old(L2()), old(List1()), o, List1())
      ensures Now() == Served(cacheSize, t2.maxFreq, old(Now()), o)
      ensures o in old(b1.q) ==> !hit && RaisedBy(old(p), p, |old(b1.q)|, |old(b2.q)|, cacheSize)
      ensures o in old(b2.q) ==> !hit && LoweredBy(old(p), p, |old(b2.q)|, |old(b1.q)|)
      ensures o !in old(b1.q) && o !in old(b2.q) ==> p == old(p)
      ensures o in old(t1.q) ==> t2.q == [o] + old(t2.q) && t2.freq == old(t2.freq)[o := 0]
      ensures o in old(t2.q) ==>
        && t2.q == old(t2.q) && o in old(t2.freq)
        && var f := old(t2.freq)[o]; t2.freq == old(t2.freq)[o := if f < t2.maxFreq then f + 1 else f]
    {
      hide Parts, Apart, Looked, Roomy, Bounds, Ready, RaisedBy, LoweredBy, RoomFor, LookedUp, Touched, WithT1, WithT2;
      nReq := nReq + 1;
      hit := Find(o);
      if !hit {
        ghost var l1, l2, l := old(L1()), old(L2()), old(List1());
        TimeKept(l1, l2, o, l);
        MakeRoom(l1, l2, o, l);
        Insert(o, l1, l2, l);
      }
    }

    lemma TimeKept(l1: set<Obj>, l2: set<Obj>, o: Obj, l: seq<Obj>)
      requires Looked(l1, l2, o, l)
      ensures ghostTime <= nReq && nReq >= 0
    {
    }
  }

  lemma WithoutElems(q: seq<Obj>, o: Obj)
    requires NoDup(q) && o in q
    ensures Elems(Without(q, o)) == Elems(q) - {o} && o in Elems(q) && |Without(q, o)| == |q| - 1
  {
    WithoutSize(q, o);
  }

  // ---- the model in numbers ----------------------------------------------------------------------------

  /** How p moves: by the ghosts in B1 and B2 before the request. */
  lemma ServedTarget(c: nat, m: nat, s: Queues, x: Obj)
    requires 0.0 <= s.p <= c as real && x !in s.t1 && x !in s.t2.q && (x in s.b2 ==> x !in s.b1)
    ensures var q, n1, n2 := Served(c, m, s, x).p, |s.b1|, |s.b2|;
      && (x !in s.b1 && x !in s.b2 ==> q == s.p)
      && (x in s.b1 ==>
            var larger := if n2 > n1 then n2 else n1;
            && s.p <= q <= c as real && (q - s.p) * n1 as real <= larger as real
            && (q == c as real || (q - s.p) * n1 as real == larger as real))
      && (x in s.b2 ==>
            var larger := if n1 > n2 then n1 else n2;
            && 0.0 <= q <= s.p && (s.p - q) * n2 as real <= larger as real
            && (q == 0.0 || (s.p - q) * n2 as real == larger as real))
  {
    hide Served, Delta, Min, Max;
    ServedIsTarget(c, m, s, x);
    if x in s.b1 {
      RaisedTarget(s.p, |s.b1|, |s.b2|, c);
    } else if x in s.b2 {
      LoweredTarget(s.p, |s.b2|, |s.b1|, c);
    }
  }

  lemma ServedIsTarget(c: nat, m: nat, s: Queues, x: Obj)
    requires x !in s.t1 && x !in s.t2.q
    ensures Served(c, m, s, x).p ==
      if x in s.b1 then Min(s.p + Delta(|s.b1|, |s.b2|), c as real)
      else if x in s.b2 then Max(s.p - Delta(|s.b2|, |s.b1|), 0.0)
      else s.p
  {
    hide Delta, Min, Max, Clock.AfterEviction, VictimIn;
  }

  /** The ghosts once the object requested, or an end that there is no room for, is gone. */
  ghost function GhostsLeft(c: nat, s: Queues, x: Obj): (seq<Obj>, seq<Obj>) {
    if x in s.b1 then (Without(s.b1, x), s.b2)
    else if x in s.b2 then (s.b1, Without(s.b2, x))
    else if |s.t1| + |s.b1| >= c then (if s.b1 == [] then [] else s.b1[..|s.b1| - 1], s.b2)
    else if |s.t1| + |s.b1| + |s.t2.q| + |s.b2| >= 2 * c then (s.b1, if s.b2 == [] then [] else s.b2[..|s.b2| - 1])
    else (s.b1, s.b2)
  }

  /** A miss in a full cache: T1 gives up its last object if it fills its directory alone, or is larger than p, or
      as large as p and the object came from B2, or if T2 is empty. Otherwise T2 gives up the object that the hand
      would stop at. */
  lemma ServedEvicts(c: nat, m: nat, s: Queues, x: Obj) returns (v: nat)
    requires c >= 1 && |s.t1| + |s.t2.q| == c && forall o :: o in s.t2.q ==> o in s.t2.freq
    requires x !in s.t1 && x !in s.t2.q && (x in s.b2 ==> x !in s.b1)
    ensures var r, n, q, known := Served(c, m, s, x), |s.t1|, s.t2.q, x in s.b1 || x in s.b2;
      var new1, new2, left := if known then [] else [x], if known then [x] else [], GhostsLeft(c, s, x);
      if !known && n + |s.b1| >= c && s.b1 == [] then
        n >= 1 && r == Queues([x] + s.t1[..n - 1], [], s.t2, s.b2, s.p)
      else if q == [] || (n >= 1 && (n as real > r.p || (n as real == r.p && x in s.b2))) then
        && n >= 1 && r.t1 == new1 + s.t1[..n - 1] && r.b1 == [s.t1[n - 1]] + left.0
        && r.t2.q == new2 + q && r.b2 == left.1
      else
        && v < |q| && Clock.IsVictim(q, s.t2.freq, v)
        && r.t1 == new1 + s.t1 && r.b1 == left.0
        && r.t2.q == new2 + (q[v + 1..] + q[..v]) && r.b2 == [q[v]] + left.1
  {
    hide Delta, Min, Max, Clock.IsVictim, Without, Freed, LookedUp;
    v := if s.t2.q == [] then 0 else Clock.VictimOf(s.t2.q, s.t2.freq);
    LookedUpKeeps(c, s, x);
    if x in s.b1 || x in s.b2 {
      FreedPlain(LookedUp(c, s, x), x in s.b2, v);
    } else {
      FreedPlain(s, false, v);
      FreedPlain(s.(b1 := Front(s.b1)), false, v);
      FreedPlain(s.(b2 := Front(s.b2)), false, v);
    }
  }

  lemma LookedUpKeeps(c: nat, s: Queues, x: Obj)
    ensures var r := LookedUp(c, s, x);
      && r.t1 == s.t1 && r.t2 == s.t2 && (x !in s.b1 && x !in s.b2 ==> r == s)
      && (x in s.b1 || x in s.b2 ==> (r.b1, r.b2) == GhostsLeft(c, s, x))
  {
    hide Delta, Min, Max, Without;
  }

  lemma FreedPlain(s: Queues, inB2: bool, v: nat)
    requires forall o :: o in s.t2.q ==> o in s.t2.freq
    requires s.t2.q != [] ==> v == Clock.VictimOf(s.t2.q, s.t2.freq)
    ensures var r, n, q := Freed(s, inB2), |s.t1|, s.t2.q;
      && (q != [] ==> v < |q| && Clock.IsVictim(q, s.t2.freq, v))
      && if q == [] || (n >= 1 && (n as real > s.p || (n as real == s.p && inB2))) then
           n >= 1 ==> r == Queues(s.t1[..n - 1], [s.t1[n - 1]] + s.b1, s.t2, s.b2, s.p)
         else
           && r.t1 == s.t1 && r.b1 == s.b1 && r.p == s.p
           && r.t2.q == q[v + 1..] + q[..v] && r.b2 == [q[v]] + s.b2
  {
    hide Clock.VictimOf;
    if s.t2.q != [] {
      assert Clock.IsVictim(s.t2.q, s.t2.freq, v);
    }
  }

  /** Hits, and misses while there is room. */
  lemma ServedWithoutEviction(c: nat, m: nat, s: Queues, x: Obj)
    requires forall o :: o in s.t2.freq <==> o in s.t2.q
    ensures x in s.t1 ==>
      Served(c, m, s, x) == Queues(Without(s.t1, x), s.b1, Clock.Ring([x] + s.t2.q, s.t2.freq[x := 0]), s.b2, s.p)
    ensures x !in s.t1 && x in s.t2.q ==>
      var f := s.t2.freq[x];
      Served(c, m, s, x) == s.(t2 := Clock.Ring(s.t2.q, s.t2.freq[x := if f < m then f + 1 else f]))
    ensures x !in s.t1 && x !in s.t2.q && x !in s.b1 && x !in s.b2 && |s.t1| + |s.t2.q| < c ==>
      Served(c, m, s, x) == s.(t1 := [x] + s.t1)
  {
  }

  lemma RunSnoc(c: nat, m: nat, tr: seq<Obj>, i: nat)
    requires i < |tr|
    ensures var s := QueuesAfter(c, m, tr[..i]);
      && QueuesAfter(c, m, tr[..i + 1]) == Served(c, m, s, tr[i])
      && Hits(c, m, tr[..i + 1]) == Hits(c, m, tr[..i]) + if tr[i] in s.t1 || tr[i] in s.t2.q then 1 else 0
  {
    assert tr[..i + 1][..i] == tr[..i];
  }

  /** A whole trace of objects of size one: queues, counters of T2 and hits are those of the model. */
  method Run(cacheSize: nat, ghostFirst: bool, tr: seq<Obj>) returns (cache: Cache, nHit: nat)
    requires cacheSize >= 1
    ensures cache.Valid() && cache.cacheSize == cacheSize && cache.Now() == QueuesAfter(cacheSize, 1, tr)
    ensures nHit == Hits(cacheSize, 1, tr)
  {
    hide Cache.Valid, Served, DirectoryStep, FirstListStep, RaisedBy, LoweredBy;
    cache := new Cache(cacheSize, ghostFirst);
    nHit := 0;
    for i := 0 to |tr|
      invariant cache.Valid() && cache.cacheSize == cacheSize && cache.t2.maxFreq == 1
      invariant fresh(cache) && fresh(cache.t1) && fresh(cache.b1) && fresh(cache.t2) && fresh(cache.b2)
      invariant cache.Now() == QueuesAfter(cacheSize, 1, tr[..i]) && nHit == Hits(cacheSize, 1, tr[..i])
    {
      RunSnoc(cacheSize, 1, tr, i);
      var hit := cache.Get(tr[i]);
      if hit {
        nHit := nHit + 1;
      }
    }
    assert tr[..|tr|] == tr;
  }
}
