/** The Clock cache: a queue of objects with small counters. An eviction rotates the queue. */
module Clock {
  import opened Lists
  import opened Recency

  // ---- what an eviction does --------------------------------------------------------------------

  /** Position v holds the smallest counter, and no object nearer the tail does. */
  ghost predicate IsVictim(q: seq<Obj>, freq: map<Obj, int>, v: nat)
    requires forall o :: o in q ==> o in freq
  {
    && v < |q|
    && (forall i :: 0 <= i < |q| ==> freq[q[v]] <= freq[q[i]])
    && (forall i :: v < i < |q| ==> freq[q[v]] < freq[q[i]])
  }

  lemma VictimUnique(q: seq<Obj>, freq: map<Obj, int>, v: nat, w: nat)
    requires forall o :: o in q ==> o in freq
    requires IsVictim(q, freq, v) && IsVictim(q, freq, w)
    ensures v == w
  {
    assert freq[q[v]] <= freq[q[w]] && freq[q[w]] <= freq[q[v]];
  }

  /** The queue after r rounds of the hand and j more steps. */
  ghost function Turned(q: seq<Obj>, j: nat): seq<Obj>
    requires j <= |q|
  {
    q[|q| - j..] + q[..|q| - j]
  }

  /** The counter of the object at position i then. */
  ghost function Lowered(q: seq<Obj>, freq: map<Obj, int>, r: nat, j: nat, i: nat): int
    requires i < |q| && q[i] in freq && j <= |q|
  {
    freq[q[i]] - r - if i >= |q| - j then 1 else 0
  }

  ghost predicate LoweredTo(q: seq<Obj>, freq: map<Obj, int>, freq': map<Obj, int>, r: nat, j: nat)
    requires j <= |q|
  {
    && freq'.Keys == freq.Keys && (forall o :: o in q ==> o in freq)
    && (forall o :: o in freq && o !in q ==> freq'[o] == freq[o])
    && (forall i :: 0 <= i < |q| ==> freq'[q[i]] == Lowered(q, freq, r, j, i) >= 0)
  }

  ghost function Sum(q: seq<Obj>, freq: map<Obj, int>): int {
    if q == [] then 0 else (if q[0] in freq then freq[q[0]] else 0) + Sum(q[1..], freq)
  }

  lemma {:induction false} SumConcat(a: seq<Obj>, b: seq<Obj>, freq: map<Obj, int>)
    ensures Sum(a + b, freq) == Sum(a, freq) + Sum(b, freq)
  {
    if a == [] {
      assert a + b == b;
    } else {
      assert (a + b)[1..] == a[1..] + b;
      SumConcat(a[1..], b, freq);
    }
  }

  lemma SumSnoc(q: seq<Obj>, freq: map<Obj, int>)
    requires q != [] && q[|q| - 1] in freq
    ensures Sum(q, freq) == Sum(q[..|q| - 1], freq) + freq[q[|q| - 1]]
  {
    assert q == q[..|q| - 1] + [q[|q| - 1]] && [q[|q| - 1]][1..] == [];
    SumConcat(q[..|q| - 1], [q[|q| - 1]], freq);
  }

  lemma {:induction false} SumSame(q: seq<Obj>, freq: map<Obj, int>, freq': map<Obj, int>)
    requires forall o :: o in q ==> (o in freq <==> o in freq') && (o in freq ==> freq[o] == freq'[o])
    ensures Sum(q, freq) == Sum(q, freq')
  {
    if q != [] {
      SumSame(q[1..], freq, freq');
    }
  }

  /** The last object, once lowered, goes to the front. */
  lemma SumStep(q: seq<Obj>, freq: map<Obj, int>, d: int)
    requires NoDup(q) && q != [] && q[|q| - 1] in freq
    ensures var o := q[|q| - 1];
      Sum([o] + q[..|q| - 1], freq[o := freq[o] - d]) == Sum(q, freq) - d
  {
    var o, front := q[|q| - 1], q[..|q| - 1];
    var freq' := freq[o := freq[o] - d];
    assert q == front + [o];
    SumConcat(front, [o], freq);
    SumSame(front, freq, freq');
    assert ([o] + front)[1..] == front && [o][1..] == [];
  }

  /** One step of the hand. */
  lemma TurnStep(q: seq<Obj>, freq: map<Obj, int>, freq': map<Obj, int>, r: nat, j: nat)
    requires NoDup(q) && j < |q| && LoweredTo(q, freq, freq', r, j)
    ensures var o := q[|q| - 1 - j];
      && Turned(q, j) != [] && Turned(q, j)[|q| - 1] == o && o in freq'
      && [o] + Turned(q, j)[..|q| - 1] == Turned(q, j + 1)
      && freq'[o] == freq[o] - r
      && (freq'[o] >= 1 ==> LoweredTo(q, freq, freq'[o := freq'[o] - 1], r, j + 1))
  {
    hide NoDup;
    var o := q[|q| - 1 - j];
    assert forall i :: 0 <= i < |q| && i != |q| - 1 - j ==> q[i] != o by {
      OnlyPlace(q, |q| - 1 - j);
    }
  }

  /** A full turn. */
  lemma TurnRound(q: seq<Obj>, freq: map<Obj, int>, freq': map<Obj, int>, r: nat)
    requires LoweredTo(q, freq, freq', r, |q|)
    ensures Turned(q, |q|) == Turned(q, 0) == q && LoweredTo(q, freq, freq', r + 1, 0)
  {
    forall i | 0 <= i < |q| ensures freq'[q[i]] == Lowered(q, freq, r + 1, 0, i) >= 0 {
      assert freq'[q[i]] == Lowered(q, freq, r, |q|, i);
    }
  }

  /** The objects behind the victim are at the front now, and have paid once more than the others. */
  ghost predicate Evicted(q: seq<Obj>, freq: map<Obj, int>, v: nat, q': seq<Obj>, freq': map<Obj, int>)
    requires v < |q| && forall o :: o in q ==> o in freq
  {
    && q' == q[v + 1..] + q[..v]
    && forall i :: 0 <= i < |q| && i != v ==>
         q[i] in freq' && freq'[q[i]] == freq[q[i]] - freq[q[v]] - if i > v then 1 else 0
  }

  /** The hand stops at the victim. */
  lemma TurnStop(q: seq<Obj>, freq: map<Obj, int>, freq': map<Obj, int>, r: nat, j: nat)
    requires j < |q| && LoweredTo(q, freq, freq', r, j) && freq'[q[|q| - 1 - j]] < 1
    ensures IsVictim(q, freq, |q| - 1 - j) && freq[q[|q| - 1 - j]] == r
  {
    var v := |q| - 1 - j;
    assert freq'[q[v]] == Lowered(q, freq, r, j, v) == 0;
    forall i | 0 <= i < |q| ensures freq[q[v]] <= freq[q[i]] && (v < i ==> freq[q[v]] < freq[q[i]]) {
      assert freq'[q[i]] == Lowered(q, freq, r, j, i) >= 0;
    }
  }

  // ---- evictions as a function of the queue ---------------------------------------------------------

  datatype Ring = Ring(q: seq<Obj>, freq: map<Obj, int>)

  ghost predicate Sound(r: Ring) {
    NoDup(r.q) && forall o :: o in r.freq <==> o in r.q
  }

  ghost function VictimOf(q: seq<Obj>, freq: map<Obj, int>): (v: nat)
    requires q != [] && forall o :: o in q ==> o in freq
    ensures IsVictim(q, freq, v)
  {
    if |q| == 1 then 0
    else
      var w := VictimOf(q[1..], freq) + 1;
      if freq[q[0]] < freq[q[w]] then 0 else w
  }

  /** What one eviction makes of the queue and the counters. */
  ghost function AfterEviction(r: Ring): Ring {
    if r.q == [] || exists o :: o in r.q && o !in r.freq then r
    else
      var v := VictimOf(r.q, r.freq);
      Ring(r.q[v + 1..] + r.q[..v],
           map o | o in r.freq && o != r.q[v] :: r.freq[o] - r.freq[r.q[v]] - if o in r.q[v + 1..] then 1 else 0)
  }

  ghost function AfterEvictions(r: Ring, n: nat): Ring {
    if n == 0 then r else AfterEviction(AfterEvictions(r, n - 1))
  }

  lemma EvictedIs(q: seq<Obj>, freq: map<Obj, int>, v: nat, q': seq<Obj>, freq': map<Obj, int>)
    requires Sound(Ring(q, freq)) && q != [] && IsVictim(q, freq, v)
    requires Evicted(q, freq, v, q', freq') && forall o :: o in freq' <==> o in q'
    ensures Ring(q', freq') == AfterEviction(Ring(q, freq))
  {
    hide NoDup, IsVictim;
    InRange(q, freq, v);
    VictimUnique(q, freq, v, VictimOf(q, freq));
    VictimOut(q, v);
    var m := map o | o in freq && o != q[v] :: freq[o] - freq[q[v]] - if o in q[v + 1..] then 1 else 0;
    assert AfterEviction(Ring(q, freq)) == Ring(q[v + 1..] + q[..v], m);
    forall o | o in freq' ensures freq'[o] == m[o] {
      var i :| 0 <= i < |q| && q[i] == o;
      BehindVictim(q, v, i);
    }
    assert freq' == m;
  }

  lemma InRange(q: seq<Obj>, freq: map<Obj, int>, v: nat)
    requires (forall o :: o in q ==> o in freq) && IsVictim(q, freq, v)
    ensures v < |q|
  {
  }

  lemma BehindVictim(q: seq<Obj>, v: nat, i: nat)
    requires NoDup(q) && v < |q| && i < |q|
    ensures q[i] in q[v + 1..] <==> i > v
  {
    if i > v {
      assert q[v + 1..][i - v - 1] == q[i];
    }
  }

  // ---- runs as functions of the trace ----------------------------------------------------------------

  datatype State = State(ring: Ring, size: map<Obj, int>)

  /** One eviction, sizes included. */
  ghost function Fewer(s: State): State {
    var r := AfterEviction(s.ring);
    State(r, map o | o in s.size && o in r.q :: s.size[o])
  }

  /** Evictions until so many bytes fit. */
  ghost function RoomFor(c: nat, s: State, bytes: nat): State
    decreases |s.ring.q|
  {
    if Sum(s.ring.q, s.size) + bytes <= c || |AfterEviction(s.ring).q| >= |s.ring.q| then s
    else RoomFor(c, Fewer(s), bytes)
  }

  /** What one request makes of a cache of c bytes whose counters go up to m. */
  ghost function Served(c: nat, m: nat, s: State, req: Request): State {
    var o := req.obj;
    if o in s.ring.freq then
      var f := s.ring.freq[o];
      State(Ring(s.ring.q, s.ring.freq[o := if f < m then f + 1 else f]), s.size)
    else if req.size > c then s
    else
      var r := RoomFor(c, s, req.size);
      State(Ring([o] + r.ring.q, r.ring.freq[o := 0]), r.size[o := req.size])
  }

  /** The cache after a whole trace. */
  ghost function StateAfter(c: nat, m: nat, tr: seq<Request>): State {
    if tr == [] then State(Ring([], map[]), map[])
    else Served(c, m, StateAfter(c, m, tr[..|tr| - 1]), tr[|tr| - 1])
  }

  /** The requests of a trace that find their object. */
  ghost function Hits(c: nat, m: nat, tr: seq<Request>): nat {
    if tr == [] then 0
    else
      var past, o := tr[..|tr| - 1], tr[|tr| - 1].obj;
      Hits(c, m, past) + if o in StateAfter(c, m, past).ring.freq then 1 else 0
  }

  /** Those among them that find a full counter. */
  ghost function FullHits(c: nat, m: nat, tr: seq<Request>): nat {
    if tr == [] then 0
    else
      var past, o := tr[..|tr| - 1], tr[|tr| - 1].obj;
      var freq := StateAfter(c, m, past).ring.freq;
      FullHits(c, m, past) + if o in freq && freq[o] >= m then 1 else 0
  }

  lemma RunSnoc(c: nat, m: nat, tr: seq<Request>, i: nat)
    requires i < |tr|
    ensures var s, o := StateAfter(c, m, tr[..i]), tr[i].obj;
      && StateAfter(c, m, tr[..i + 1]) == Served(c, m, s, tr[i])
      && Hits(c, m, tr[..i + 1]) == Hits(c, m, tr[..i]) + (if o in s.ring.freq then 1 else 0)
      && FullHits(c, m, tr[..i + 1])
         == FullHits(c, m, tr[..i]) + if o in s.ring.freq && s.ring.freq[o] >= m then 1 else 0
  {
    assert tr[..i + 1][..i] == tr[..i];
  }

  lemma RoomStep(c: nat, s: State, bytes: nat)
    ensures Sum(s.ring.q, s.size) + bytes <= c ==> RoomFor(c, s, bytes) == s
    ensures Sum(s.ring.q, s.size) + bytes > c && |AfterEviction(s.ring).q| < |s.ring.q| ==>
      RoomFor(c, s, bytes) == RoomFor(c, Fewer(s), bytes)
  {
  }

  lemma FewerIs(s: State, size: map<Obj, int>)
    requires forall o :: o in size <==> o in s.size && o in AfterEviction(s.ring).q
    requires forall o :: o in size ==> size[o] == s.size[o]
    ensures Fewer(s) == State(AfterEviction(s.ring), size)
  {
    assert Fewer(s).size == size;
  }

  /** Objects of any size; the counters fall by one when the hand passes. */
  class Cache {
    const cacheSize: nat
    const maxFreq: nat
    var q: seq<Obj>            // the head first
    var freq: map<Obj, int>
    var size: map<Obj, int>
    var occupied: int
    var nObj: int
    var nReq: nat
    var nInsert: nat
    var nPromotion: nat
    ghost var hits: nat        // look-ups of a real request that found their object
    ghost var saturated: nat   // those among them that found a full counter
    ghost var removed: int     // what the counters of removed objects were worth

    ghost predicate Valid()
      reads this`q, this`freq, this`size, this`occupied, this`nObj
      reads this`nPromotion, this`saturated, this`removed, this`hits
    {
      && NoDup(q) && (forall o :: o in freq <==> o in q) && size.Keys == freq.Keys
      && (forall o :: o in freq ==> 0 <= freq[o] <= maxFreq && size[o] >= 0)
      && occupied == Sum(q, size) <= cacheSize && nObj == |q|
      && Paid()
    }

    /** Promotions are paid for by hits. */
    ghost predicate Paid()
      reads this`nPromotion, this`q, this`freq, this`saturated, this`removed, this`hits
    {
      nPromotion + Sum(q, freq) + saturated + removed == hits
    }

    ghost function Now(): Ring
      reads this`q, this`freq
    {
      Ring(q, freq)
    }

    ghost function Snap(): State
      reads this`q, this`freq, this`size
    {
      State(Now(), size)
    }

    /** No counter was ever raised: the queue is first in, first out. */
    ghost predicate Idle()
      reads this`freq
    {
      forall o :: o in freq ==> freq[o] == 0
    }

    /** Every object has size one. */
    ghost predicate Unit()
      reads this`size
    {
      forall o :: o in size ==> size[o] == 1
    }

    lemma Facts()
      requires Valid()
      ensures NoDup(q) && (forall o :: o in freq <==> o in q) && Sound(Now())
      ensures 0 <= occupied <= cacheSize && nObj == |q| && (Unit() ==> occupied == |q|)
    {
      SumPositive(q, size);
      if Unit() {
        SumOnes(q, size);
      }
    }

    constructor (cacheSize: nat, maxFreq: nat)
      ensures Valid() && q == [] && freq == map[] && size == map[]
      ensures hits == 0 && saturated == 0 && removed == 0 && nPromotion == 0 && nReq == 0 && nInsert == 0
      ensures this.cacheSize == cacheSize && this.maxFreq == maxFreq
    {
      this.cacheSize, this.maxFreq := cacheSize, maxFreq;
      q, freq, size := [], map[], map[];
      occupied, nObj, nReq, nInsert, nPromotion := 0, 0, 0, 0, 0;
      hits, saturated, removed := 0, 0, 0;
    }

    method Find(o: Obj, update: bool) returns (hit: bool)
      requires Valid()
      modifies this`freq, this`hits, this`saturated
      ensures Valid() && hit == (o in q)
      ensures !hit || !update ==> freq == old(freq) && hits == old(hits) && saturated == old(saturated)
      ensures !hit || !update ==> Idle() == old(Idle())
      ensures hit && update ==>
        && hits == old(hits) + 1
        && freq == old(freq)[o := if old(freq)[o] < maxFreq then old(freq)[o] + 1 else old(freq)[o]]
        && saturated == old(saturated) + if old(freq)[o] < maxFreq then 0 else 1
    {
      hide NoDup, Sum;
      hit := o in freq;
      if hit && update {
        hits := hits + 1;
        if freq[o] < maxFreq {
          SumRaise(q, freq, o);
          freq := freq[o := freq[o] + 1];
        } else {
          assert freq[o := freq[o]] == freq;
          saturated := saturated + 1;
        }
      }
    }

    method Insert(req: Request)
      requires Valid() && req.obj !in q && occupied + req.size <= cacheSize
      modifies this`q, this`freq, this`size, this`occupied, this`nObj
      ensures Valid() && q == [req.obj] + old(q) && freq == old(freq)[req.obj := 0]
      ensures size == old(size)[req.obj := req.size] && occupied == old(occupied) + req.size
      ensures old(Idle()) ==> Idle()
      ensures old(Unit()) && req.size == 1 ==> Unit()
    {
      hide NoDup, Sum;
      var o := req.obj;
      occupied, nObj := occupied + req.size, nObj + 1;
      SumFront(q, freq, o, 0);
      SumFront(q, size, o, req.size);
      FrontNoDup(q, o);
      q := [o] + q;
      freq := freq[o := 0];
      size := size[o := req.size];
    }

    /** The object that Evict would remove. Nothing changes. */
    method ToEvict() returns (o: Obj, ghost v: nat)
      requires Valid() && q != []
      ensures v < |q| && IsVictim(q, freq, v) && o == q[v]
    {
      ghost var m :| m in q;
      var nRound := 0;
      var i := |q| - 1;
      while freq[q[i]] - nRound >= 1
        invariant 0 <= i < |q| && 0 <= nRound <= freq[m]
        invariant forall k :: 0 <= k < |q| ==> freq[q[k]] >= nRound
        invariant forall k :: i < k < |q| ==> freq[q[k]] >= nRound + 1
        decreases freq[m] - nRound, i
      {
        i := i - 1;
        if i < 0 {
          i := |q| - 1;
          nRound := nRound + 1;
        }
      }
      return q[i], i;
    }

    /** The hand turns until it meets a counter of zero. */
    method Turn() returns (ghost r: nat, ghost j: nat)
      requires NoDup(q) && q != [] && Paid() && forall o :: o in q ==> o in freq && freq[o] >= 0
      modifies this`q, this`freq, this`nPromotion
      ensures j < |old(q)| && q == Turned(old(q), j) && LoweredTo(old(q), old(freq), freq, r, j)
      ensures freq[old(q)[|old(q)| - 1 - j]] < 1
      ensures nPromotion == old(nPromotion) + Steps(r, |old(q)|, j) && Paid()
    {
      hide NoDup, LoweredTo, Turned, Sum, Steps;
      ghost var q0, freq0 := q, freq;
      var obj := q[|q| - 1];
      r, j := 0, 0;
      TurnStart(q, freq);
      StepsCount(0, |q|, 0);
      TurnFacts(q0, freq0, freq, r, j);
      while freq[obj] >= 1
        invariant 0 <= j < |q0| && 0 <= r && q == Turned(q0, j) && LoweredTo(q0, freq0, freq, r, j)
        invariant |q| == |q0| && obj == q[|q| - 1] && obj == q0[|q0| - 1 - j] && obj in freq && r <= freq0[q0[0]]
        invariant nPromotion == old(nPromotion) + Steps(r, |q0|, j) && Paid() && NoDup(q)
        decreases freq0[q0[0]] - r, |q0| - j
      {
        TurnStep(q0, freq0, freq, r, j);
        SumStep(q, freq, 1);
        freq := freq[obj := freq[obj] - 1];
        q := [obj] + q[..|q| - 1];
        nPromotion := nPromotion + 1;
        TurnNoDup(q0, j + 1);
        StepsCount(r, |q0|, j);
        j := j + 1;
        if j == |q0| {
          TurnRound(q0, freq0, freq, r);
          r, j := r + 1, 0;
        }
        obj := q[|q| - 1];
        TurnFacts(q0, freq0, freq, r, j);
      }
    }

    /** The hand turns, and the object it stops at goes. */
    method Evict() returns (ghost v: nat)
      requires Valid() && q != []
      modifies this`q, this`freq, this`size, this`occupied, this`nObj, this`nPromotion
      ensures Valid() && v < |old(q)| && IsVictim(old(q), old(freq), v)
      ensures Evicted(old(q), old(freq), v, q, freq) && size == old(size) - {old(q)[v]}
      ensures nPromotion == old(nPromotion) + Steps(old(freq[q[v]]), |old(q)|, |old(q)| - 1 - v)
    {
      hide NoDup, LoweredTo, Turned, Sum, Steps, IsVictim, Evicted;
      ghost var q0, freq0 := q, freq;
      ghost var r, j := Turn();
      v := |q0| - 1 - j;
      TurnedOut(q0, freq0, freq, size, r, j);
      DropLast();
    }

    /** The last object goes. Its counter is zero, so nothing is lost. */
    method DropLast()
      requires q != [] && NoDup(q[..|q| - 1]) && Paid() && occupied <= cacheSize && nObj == |q|
      requires var o := q[|q| - 1];
        && o in size && size[o] >= 0 && (forall x :: x in freq - {o} <==> x in q[..|q| - 1])
        && (size - {o}).Keys == (freq - {o}).Keys
        && Sum(q[..|q| - 1], freq - {o}) == Sum(q, freq) && Sum(q[..|q| - 1], size - {o}) == occupied - size[o]
        && forall x :: x in freq - {o} ==> 0 <= freq[x] <= maxFreq && size[x] >= 0
      modifies this`q, this`freq, this`size, this`occupied, this`nObj
      ensures Valid() && q == old(q[..|q| - 1])
      ensures freq == old(freq) - {old(q[|q| - 1])} && size == old(size) - {old(q[|q| - 1])}
    {
      hide NoDup, Sum;
      var obj := q[|q| - 1];
      occupied, nObj := occupied - size[obj], nObj - 1;
      q := q[..|q| - 1];
      freq := freq - {obj};
      size := size - {obj};
    }

    /** An eviction, as a function of the queue and the counters. */
    method EvictOne() returns (ghost v: nat)
      requires Valid() && q != []
      modifies this`q, this`freq, this`size, this`occupied, this`nObj, this`nPromotion
      ensures Valid() && Now() == AfterEviction(old(Now())) && Snap() == Fewer(old(Snap()))
      ensures v < |old(q)| && IsVictim(old(q), old(freq), v) && q == old(q[v + 1..] + q[..v])
      ensures size == old(size) - {old(q)[v]}
      ensures |q| == |old(q)| - 1 && forall o :: o in q <==> o in old(q) && o != old(q)[v]
      ensures old(Idle()) ==> Idle() && v == |old(q)| - 1
      ensures old(Unit()) ==> Unit()
    {
      hide NoDup, Sum, AfterEviction, Fewer;
      ghost var q0, freq0 := q, freq;
      v := Evict();
      VictimOut(q0, v);
      EvictedIs(q0, freq0, v, q, freq);
      FewerIs(old(Snap()), size);
      if old(Idle()) {
        IdleVictim(q0, freq0, v, q, freq);
      }
    }

    method Remove(o: Obj) returns (found: bool)
      requires Valid()
      modifies this`q, this`freq, this`size, this`occupied, this`nObj, this`removed
      ensures Valid() && found == (o in old(q)) && q == Without(old(q), o) && freq == old(freq) - {o}
      ensures size == old(size) - {o} && removed == old(removed) + if found then old(freq)[o] else 0
      ensures occupied == old(occupied) - if found then old(size)[o] else 0
      ensures old(Idle()) ==> Idle()
      ensures old(Unit()) ==> Unit()
    {
      hide NoDup, Sum, Without;
      if o !in freq {
        WithoutAbsent(q, o);
        assert freq - {o} == freq && size - {o} == size;
        return false;
      }
      WithoutNoDup(q, o);
      WithoutSize(q, o);
      SumWithout(q, freq, o);
      SumWithout(q, size, o);
      q := Without(q, o);
      removed := removed + freq[o];
      occupied, nObj := occupied - size[o], nObj - 1;
      freq := freq - {o};
      size := size - {o};
      return true;
    }

    /** One request, as every cache serves it: a missing object that is not too large is put in, after as
        many evictions as it takes, and no more. */
    method Get(req: Request) returns (hit: bool, ghost n: nat)
      requires Valid()
      modifies this
      ensures Valid() && hit == (req.obj in old(q)) && removed == old(removed) && n <= |old(q)|
      ensures hit ==> q == old(q) && size == old(size) && hits == old(hits) + 1
      ensures hit ==>
        && req.obj in old(freq) && nPromotion == old(nPromotion)
        && var f := old(freq)[req.obj]; freq == old(freq)[req.obj := if f < maxFreq then f + 1 else f]
      ensures !hit ==> hits == old(hits)
      ensures saturated == old(saturated) + if hit && old(freq)[req.obj] >= maxFreq then 1 else 0
      ensures hit == (req.obj in old(freq)) && Snap() == Served(cacheSize, maxFreq, old(Snap()), req)
      ensures nReq == old(nReq) + 1 && nInsert == old(nInsert) + if hit || req.size > cacheSize then 0 else 1
      ensures !hit && req.size > cacheSize ==> Now() == old(Now()) && size == old(size) && n == 0
      ensures !hit && req.size <= cacheSize ==> Brought(old(Now()), old(size), req, n)
      ensures !hit && old(occupied) + req.size <= cacheSize ==>
        && n == 0 && Now() == Ring([req.obj] + old(q), old(freq)[req.obj := 0])
        && size == old(size)[req.obj := req.size] && nPromotion == old(nPromotion)
        && (old(Idle()) ==> Idle()) && (old(Unit()) && req.size == 1 ==> Unit())
    {
      hide Valid, Sum, AfterEvictions, NeededEvictions, Idle, Unit, RoomFor;
      nReq := nReq + 1;
      n := 0;
      Facts();
      hit := Find(req.obj, true);
      if !hit && req.size <= cacheSize {
        nInsert := nInsert + 1;
        n := MakeRoom(req);
        Insert(req);
        Counts();
      }
    }

    /** After n evictions, which were all needed, the object is at the head. */
    ghost predicate Brought(before: Ring, sizes: map<Obj, int>, req: Request, n: nat)
      reads this`q, this`freq, this`size
    {
      && NeededEvictions(cacheSize, before, sizes, req.size, n)
      && Now() == (var r := AfterEvictions(before, n); Ring([req.obj] + r.q, r.freq[req.obj := 0]))
      && req.obj in size && size[req.obj] == req.size
      && forall o :: o in q && o != req.obj ==> o in size && o in sizes && size[o] == sizes[o]
    }

    /** The eviction loop of cache_get_base. */
    method MakeRoom(req: Request) returns (ghost n: nat)
      requires Valid() && req.size <= cacheSize && req.obj !in q
      modifies this`q, this`freq, this`size, this`occupied, this`nObj, this`nPromotion
      ensures Valid() && occupied + req.size <= cacheSize && req.obj !in q
      ensures NeededEvictions(cacheSize, old(Now()), old(size), req.size, n)
      ensures Now() == AfterEvictions(old(Now()), n) && n <= |old(q)|
      ensures forall o :: o in size ==> o in old(size) && size[o] == old(size)[o]
      ensures Snap() == RoomFor(cacheSize, old(Snap()), req.size)
      ensures old(occupied) + req.size <= cacheSize ==>
        n == 0 && Now() == old(Now()) && size == old(size) && nPromotion == old(nPromotion)
    {
      hide NoDup, Sum, IsVictim, AfterEviction, AfterEvictions, NeededEvictions, NeededToo, Idle, Unit, Valid, Sound,
        RoomFor, Fewer;
      ghost var before, sizes := Now(), size;
      n := 0;
      Facts();
      Counts();
      AfterMore(cacheSize, before, sizes, req.size, 0);
      while occupied + req.size > cacheSize
        invariant Valid() && req.obj !in q && n + |q| == |before.q| && Now() == AfterEvictions(before, n)
        invariant forall o :: o in size ==> o in sizes && size[o] == sizes[o]
        invariant RoomFor(cacheSize, Snap(), req.size) == RoomFor(cacheSize, old(Snap()), req.size)
        invariant n > 0 ==> NeededToo(cacheSize, before, sizes, req.size, n)
        invariant n > 0 ==> old(occupied) + req.size > cacheSize
        invariant n == 0 ==> Now() == before && size == sizes && nPromotion == old(nPromotion)
        decreases |q|
      {
        HasObjects(req.size);
        Counts();
        SumSame(q, size, sizes);
        AfterMore(cacheSize, before, sizes, req.size, n);
        RoomStep(cacheSize, Snap(), req.size);
        var _ := EvictOne();
        Facts();
        n := n + 1;
      }
      Counts();
      SumSame(q, size, sizes);
      EnoughEvictions(cacheSize, before, sizes, req.size, n);
      RoomStep(cacheSize, Snap(), req.size);
    }

    lemma Counts()
      requires Valid()
      ensures occupied == Sum(q, size) && forall o :: o in size <==> o in q
    {
    }

    lemma HasObjects(s: nat)
      requires Valid() && occupied + s > cacheSize >= s
      ensures q != []
    {
    }
  }

  /** n evictions are enough for s more bytes, and one less would not do. */
  ghost predicate NeededEvictions(c: nat, r: Ring, sizes: map<Obj, int>, s: nat, n: nat) {
    n <= |r.q| && Sum(AfterEvictions(r, n).q, sizes) + s <= c && (n > 0 ==> NeededToo(c, r, sizes, s, n))
  }

  /** One eviction less than n would not do. */
  ghost predicate NeededToo(c: nat, r: Ring, sizes: map<Obj, int>, s: nat, n: nat)
    requires n > 0
  {
    Sum(AfterEvictions(r, n - 1).q, sizes) + s > c
  }

  lemma AfterMore(c: nat, r: Ring, sizes: map<Obj, int>, s: nat, n: nat)
    ensures AfterEvictions(r, 0) == r && AfterEvictions(r, n + 1) == AfterEviction(AfterEvictions(r, n))
    ensures Sum(AfterEvictions(r, n).q, sizes) + s > c ==> NeededToo(c, r, sizes, s, n + 1)
  {
  }

  lemma EnoughEvictions(c: nat, r: Ring, sizes: map<Obj, int>, s: nat, n: nat)
    requires n <= |r.q| && Sum(AfterEvictions(r, n).q, sizes) + s <= c && (n > 0 ==> NeededToo(c, r, sizes, s, n))
    ensures NeededEvictions(c, r, sizes, s, n)
  {
  }

  /** All that is to be known when the hand has stopped and the object before it goes. */
  lemma TurnedOut(q: seq<Obj>, freq: map<Obj, int>, freq': map<Obj, int>, size: map<Obj, int>, r: nat, j: nat)
    requires NoDup(q) && j < |q| && LoweredTo(q, freq, freq', r, j) && freq'[q[|q| - 1 - j]] < 1
    requires (forall o :: o in freq <==> o in q) && size.Keys == freq.Keys
    ensures var t, v := Turned(q, j), |q| - 1 - j;
      && |t| == |q| && t[|q| - 1] == q[v] && IsVictim(q, freq, v) && freq[q[v]] == r
    ensures var v := |q| - 1 - j;
      var end, left := Turned(q, j)[..|q| - 1], freq' - {q[v]};
      && Evicted(q, freq, v, end, left) && NoDup(end) && |end| == |q| - 1
      && (forall o :: o in left <==> o in end) && (size - {q[v]}).Keys == left.Keys
      && (forall o :: o in left ==> o in freq && 0 <= left[o] <= freq[o])
      && Sum(end, left) == Sum(Turned(q, j), freq') && Sum(end, size - {q[v]}) == Sum(q, size) - size[q[v]]
  {
    hide NoDup, LoweredTo, Turned, Sum, IsVictim, Evicted;
    TurnFacts(q, freq, freq', r, j);
    TurnStop(q, freq, freq', r, j);
    TurnEnd(q, freq, freq', r, j);
    TurnEndSum(q, freq, freq', r, j);
    TurnSizes(q, size, j);
    TurnMembers(q, j, |q| - 1 - j);
  }

  lemma IdleVictim(q: seq<Obj>, freq: map<Obj, int>, v: nat, q': seq<Obj>, freq': map<Obj, int>)
    requires (forall o :: o in freq <==> o in q) && (forall o :: o in freq ==> freq[o] == 0)
    requires IsVictim(q, freq, v) && Evicted(q, freq, v, q', freq') && forall o :: o in freq' <==> o in q'
    ensures v == |q| - 1 && forall o :: o in freq' ==> freq'[o] == 0
  {
    assert freq[q[|q| - 1]] == 0;
    forall o | o in freq' ensures freq'[o] == 0 {
      var i :| 0 <= i < |q| - 1 && q[i] == o;
    }
  }

  lemma VictimOut(q: seq<Obj>, v: nat)
    requires NoDup(q) && v < |q|
    ensures forall o :: o in q[v + 1..] + q[..v] <==> o in q && o != q[v]
  {
    TurnMembers(q, |q| - 1 - v, v);
  }

  lemma SumWithout(q: seq<Obj>, freq: map<Obj, int>, o: Obj)
    requires NoDup(q) && o in q && o in freq
    ensures Sum(Without(q, o), freq - {o}) == Sum(q, freq) - freq[o]
  {
    var k :| 0 <= k < |q| && q[k] == o;
    WithoutAt(q, k);
    assert q == q[..k] + ([o] + q[k + 1..]);
    SumConcat(q[..k], [o] + q[k + 1..], freq);
    assert ([o] + q[k + 1..])[1..] == q[k + 1..];
    SumConcat(q[..k], q[k + 1..], freq);
    SumSame(Without(q, o), freq, freq - {o});
  }

  /** A whole trace of objects of any size, without removals: every promotion was paid for by a hit. */
  method Run(cacheSize: nat, maxFreq: nat, tr: seq<Request>) returns (cache: Cache, nHit: nat)
    ensures fresh(cache) && cache.Valid() && cache.Snap() == StateAfter(cacheSize, maxFreq, tr)
    ensures nHit == Hits(cacheSize, maxFreq, tr) && cache.nReq == |tr|
    ensures cache.nPromotion + Sum(cache.q, cache.freq) + FullHits(cacheSize, maxFreq, tr) == nHit
    ensures cache.nPromotion <= nHit
  {
    hide Served, Cache.Brought, Cache.Idle, Cache.Unit;
    cache := new Cache(cacheSize, maxFreq);
    nHit := 0;
    for i := 0 to |tr|
      invariant fresh(cache) && cache.Valid() && cache.removed == 0 && cache.hits == nHit && cache.nReq == i
      invariant cache.cacheSize == cacheSize && cache.maxFreq == maxFreq
      invariant cache.Snap() == StateAfter(cacheSize, maxFreq, tr[..i])
      invariant nHit == Hits(cacheSize, maxFreq, tr[..i]) && cache.saturated == FullHits(cacheSize, maxFreq, tr[..i])
    {
      RunSnoc(cacheSize, maxFreq, tr, i);
      var hit, _ := cache.Get(tr[i]);
      nHit := if hit then nHit + 1 else nHit;
    }
    assert tr[..|tr|] == tr;
    SumPositive(cache.q, cache.freq);
  }

  lemma SumFront(q: seq<Obj>, m: map<Obj, int>, o: Obj, d: int)
    requires o !in q
    ensures Sum([o] + q, m[o := d]) == Sum(q, m) + d
  {
    assert ([o] + q)[1..] == q;
    SumSame(q, m, m[o := d]);
  }

  lemma {:induction false} SumOnes(q: seq<Obj>, m: map<Obj, int>)
    requires forall o :: o in q ==> o in m && m[o] == 1
    ensures Sum(q, m) == |q|
  {
    if q != [] {
      SumOnes(q[1..], m);
    }
  }

  /** The bytes that are left once the hand has turned and the object it stops at is gone. */
  lemma TurnSizes(q: seq<Obj>, m: map<Obj, int>, j: nat)
    requires NoDup(q) && j < |q| && forall o :: o in q ==> o in m
    ensures var o, end := q[|q| - 1 - j], Turned(q, j)[..|q| - 1];
      Sum(end, m - {o}) == Sum(q, m) - m[o]
  {
    hide NoDup;
    var v := |q| - 1 - j;
    var t := Turned(q, j);
    var end := t[..|q| - 1];
    TurnMembers(q, j, v);
    assert t == end + [q[v]] && [q[v]][1..] == [];
    assert q == q[..|q| - j] + q[|q| - j..];
    SumConcat(q[..|q| - j], q[|q| - j..], m);
    SumConcat(q[|q| - j..], q[..|q| - j], m);
    SumConcat(end, [q[v]], m);
    SumSame(end, m, m - {q[v]});
  }

  lemma {:induction false} SumPositive(q: seq<Obj>, freq: map<Obj, int>)
    requires forall o :: o in q && o in freq ==> freq[o] >= 0
    ensures Sum(q, freq) >= 0
  {
    if q != [] {
      SumPositive(q[1..], freq);
    }
  }

  /** The steps of the hand in r rounds and j more. */
  ghost function Steps(r: nat, n: nat, j: nat): nat {
    r * n + j
  }

  lemma StepsCount(r: nat, n: nat, j: nat)
    ensures Steps(0, n, 0) == 0
    ensures Steps(r, n, j + 1) == Steps(r, n, j) + 1
    ensures Steps(r, n, n) == Steps(r + 1, n, 0)
  {
    assert (r + 1) * n == r * n + n;
  }

  lemma TurnStart(q: seq<Obj>, freq: map<Obj, int>)
    requires forall o :: o in q ==> o in freq && freq[o] >= 0
    ensures Turned(q, 0) == q && LoweredTo(q, freq, freq, 0, 0)
  {
  }

  lemma TurnFacts(q: seq<Obj>, freq: map<Obj, int>, freq': map<Obj, int>, r: nat, j: nat)
    requires j < |q| && LoweredTo(q, freq, freq', r, j)
    ensures var o := q[|q| - 1 - j];
      o in freq' && |Turned(q, j)| == |q| && Turned(q, j)[|q| - 1] == o && q[0] in freq && r <= freq[q[0]]
  {
    assert freq'[q[0]] == Lowered(q, freq, r, j, 0);
    assert q[|q| - 1 - j] in q;
  }

  lemma TurnNoDup(q: seq<Obj>, j: nat)
    requires NoDup(q) && j <= |q|
    ensures NoDup(Turned(q, j))
  {
    var t := Turned(q, j);
    assert forall k :: 0 <= k < |q| ==> t[k] == if k < j then q[|q| - j + k] else q[k - j];
  }

  /** The queue and the counters once the victim has left. */
  lemma TurnEnd(q: seq<Obj>, freq: map<Obj, int>, freq': map<Obj, int>, r: nat, j: nat)
    requires NoDup(q) && j < |q| && LoweredTo(q, freq, freq', r, j) && freq[q[|q| - 1 - j]] == r
    requires forall o :: o in freq <==> o in q
    ensures var v := |q| - 1 - j;
      var end, left := Turned(q, j)[..|q| - 1], freq' - {q[v]};
      && Evicted(q, freq, v, end, left) && NoDup(end) && |end| == |q| - 1
      && (forall o :: o in left <==> o in end) && (forall o :: o in left ==> o in freq && 0 <= left[o] <= freq[o])
  {
    hide NoDup, Turned;
    var v := |q| - 1 - j;
    TurnMembers(q, j, v);
    OnlyPlace(q, v);
    forall i | 0 <= i < |q| ensures freq'[q[i]] == Lowered(q, freq, r, j, i) >= 0 {
    }
  }

  /** A counter of zero leaves, so nothing is lost. */
  lemma TurnEndSum(q: seq<Obj>, freq: map<Obj, int>, freq': map<Obj, int>, r: nat, j: nat)
    requires NoDup(q) && j < |q| && LoweredTo(q, freq, freq', r, j) && freq[q[|q| - 1 - j]] == r
    ensures var v := |q| - 1 - j;
      Sum(Turned(q, j)[..|q| - 1], freq' - {q[v]}) == Sum(Turned(q, j), freq')
  {
    hide NoDup;
    var v := |q| - 1 - j;
    var t := Turned(q, j);
    var end := t[..|q| - 1];
    TurnMembers(q, j, v);
    assert t == end + [q[v]] && [q[v]][1..] == [];
    assert freq'[q[v]] == Lowered(q, freq, r, j, v) == 0;
    SumConcat(end, [q[v]], freq');
    SumSame(end, freq', freq' - {q[v]});
  }

  lemma TurnMembers(q: seq<Obj>, j: nat, v: nat)
    requires NoDup(q) && j < |q| && v == |q| - 1 - j
    ensures var end := Turned(q, j)[..|q| - 1];
      && end == q[v + 1..] + q[..v] && NoDup(end) && |end| == |q| - 1
      && forall o :: o in end <==> o in q && o != q[v]
  {
    TurnNoDup(q, j);
    var end := Turned(q, j)[..|q| - 1];
    assert end == q[v + 1..] + q[..v];
    forall o | o in q && o != q[v] ensures o in end {
      var i :| 0 <= i < |q| && q[i] == o;
      assert end[if i > v then i - v - 1 else j + i] == o;
    }
  }

  lemma {:induction false} SumRaise(q: seq<Obj>, freq: map<Obj, int>, o: Obj)
    requires NoDup(q) && o in q && o in freq
    ensures Sum(q, freq[o := freq[o] + 1]) == Sum(q, freq) + 1
  {
    if q[0] == o {
      SumSame(q[1..], freq, freq[o := freq[o] + 1]);
    } else {
      SumRaise(q[1..], freq, o);
    }
  }
}
