/** The AGE cache: like Clock, but an object gets another round only while its reuse looks near, and at
    most once per request. */
module Age {
  import opened Lists
  import opened Recency
  import Clock

  /** An object that waited for age requests is held to be requested again soon, given the expected reuse
      distance, the size over the miss ratio. */
  function Near(cacheSize: nat, scaler: real, vtime: nat, miss: nat, age: int): bool {
    if vtime == 0 || miss == 0 then false
    else
      var missRatio := miss as real / vtime as real;
      age as real < cacheSize as real / missRatio * scaler
  }

  /** The same without divisions. */
  lemma NearIff(cacheSize: nat, scaler: real, vtime: nat, miss: nat, age: int)
    ensures Near(cacheSize, scaler, vtime, miss, age) <==>
      miss > 0 && vtime > 0 && (age * miss) as real < (cacheSize * vtime) as real * scaler
  {
    if vtime > 0 && miss > 0 {
      var c, m, v, a := cacheSize as real, miss as real, vtime as real, age as real;
      assert c / (m / v) == c * v / m;
      var x := c * v / m * scaler;
      assert x * m == c * v * scaler;
      assert a < x <==> a * m < x * m;
    }
  }

  /** The queue, head first, and what is known of each object. */
  datatype State = State(q: seq<Obj>, freq: map<Obj, int>, check: map<Obj, int>, last: map<Obj, int>,
                         size: map<Obj, int>)

  ghost predicate Sound(s: State, maxFreq: nat) {
    && NoDup(s.q) && Keyed(s)
    && (forall o :: o in s.freq ==> 0 <= s.freq[o] <= maxFreq) && (forall o :: o in s.size ==> s.size[o] >= 0)
  }

  ghost predicate Keyed(s: State) {
    && (forall o :: o in s.freq <==> o in s.q) && s.check.Keys == s.freq.Keys
    && s.last.Keys == s.freq.Keys && s.size.Keys == s.freq.Keys
  }

  /** Points not spent, and bytes. */
  ghost function Points(s: State): int {
    Clock.Sum(s.q, s.freq)
  }

  ghost function Bytes(s: State): int {
    Clock.Sum(s.q, s.size)
  }

  // ---- what an eviction does --------------------------------------------------------------------------

  /** An object that may still be promoted for this request. */
  ghost predicate Waits(s: State, vtime: nat, o: Obj) {
    o in s.freq && o in s.check && s.freq[o] > 0 && s.check[o] != vtime
  }

  /** j objects, counted from the tail, could be promoted. */
  ghost predicate Passed(s: State, vtime: nat, retained: bool, j: nat) {
    j <= |s.q| && forall i :: |s.q| - j <= i < |s.q| ==> retained && Waits(s, vtime, s.q[i])
  }

  /** They could, and the next one could not. */
  ghost predicate IsRun(s: State, vtime: nat, retained: bool, j: nat) {
    Passed(s, vtime, retained, j) && (j < |s.q| ==> !retained || !Waits(s, vtime, s.q[|s.q| - 1 - j]))
  }

  /** The last j objects have each been promoted once. */
  ghost function PassedBy(s: State, vtime: nat, j: nat): State
    requires j <= |s.q|
  {
    var moved := s.q[|s.q| - j..];
    State(Clock.Turned(s.q, j),
          map o | o in s.freq :: s.freq[o] - if o in moved then 1 else 0,
          map o | o in s.check :: if o in moved then vtime else s.check[o],
          s.last, s.size)
  }

  /** The length of that run, of which j objects are known. */
  ghost function RunLength(s: State, vtime: nat, retained: bool, j: nat): (r: nat)
    requires Passed(s, vtime, retained, j)
    ensures IsRun(s, vtime, retained, r)
    decreases |s.q| - j
  {
    if j < |s.q| && retained && Waits(s, vtime, s.q[|s.q| - 1 - j]) then RunLength(s, vtime, retained, j + 1) else j
  }

  lemma RunUnique(s: State, vtime: nat, retained: bool, j: nat, r: nat)
    requires IsRun(s, vtime, retained, j) && IsRun(s, vtime, retained, r)
    ensures j == r
  {
    hide Waits;
    RunStops(s, vtime, retained, j, r);
    RunStops(s, vtime, retained, r, j);
  }

  lemma RunStops(s: State, vtime: nat, retained: bool, j: nat, r: nat)
    requires IsRun(s, vtime, retained, j) && Passed(s, vtime, retained, r)
    ensures r <= j
  {
    hide Waits;
    var o := if j < |s.q| then s.q[|s.q| - 1 - j] else 0;
    assert j < r ==> retained && Waits(s, vtime, o);
  }

  /** The object at the tail is gone. */
  ghost function Dropped(s: State): State
    requires s.q != []
  {
    var o := s.q[|s.q| - 1];
    State(s.q[..|s.q| - 1], s.freq - {o}, s.check - {o}, s.last - {o}, s.size - {o})
  }

  /** The object at the tail has been promoted. */
  ghost function Promoted(s: State, vtime: nat): State
    requires s.q != [] && s.q[|s.q| - 1] in s.freq
  {
    var o := s.q[|s.q| - 1];
    State([o] + s.q[..|s.q| - 1], s.freq[o := s.freq[o] - 1], s.check[o := vtime], s.last, s.size)
  }

  /** What a cache is made with. */
  datatype Config = Config(cacheSize: nat, maxFreq: nat, scaler: real)

  /** Whether the object at the tail is to be kept. */
  predicate Retained(c: Config, s: State, vtime: nat, miss: nat) {
    && s.q != []
    && var o := s.q[|s.q| - 1];
    && o in s.freq && o in s.last && s.freq[o] != 0
    && Near(c.cacheSize, c.scaler, vtime, miss, vtime - s.last[o])
  }

  /** One eviction. */
  ghost function AfterEviction(c: Config, s: State, vtime: nat, miss: nat): State {
    var j := RunLength(s, vtime, Retained(c, s, vtime, miss), 0);
    if s.q == [] then s else Dropped(PassedBy(s, vtime, j))
  }

  /** Evictions until so many bytes fit. */
  ghost function RoomFor(c: Config, s: State, vtime: nat, miss: nat, bytes: nat): State
    decreases |s.q|
  {
    if Bytes(s) + bytes <= c.cacheSize || s.q == [] then s
    else RoomFor(c, AfterEviction(c, s, vtime, miss), vtime, miss, bytes)
  }

  lemma RoomStep(c: Config, s: State, vtime: nat, miss: nat, bytes: nat)
    ensures Bytes(s) + bytes <= c.cacheSize ==> RoomFor(c, s, vtime, miss, bytes) == s
    ensures Bytes(s) + bytes > c.cacheSize && s.q != [] ==>
      RoomFor(c, s, vtime, miss, bytes) == RoomFor(c, AfterEviction(c, s, vtime, miss), vtime, miss, bytes)
  {
  }

  /** What one request, at this time and after so many misses, makes of the cache. */
  ghost function Served(c: Config, s: State, vtime: nat, miss: nat, req: Request): State {
    if req.obj in s.freq then Found(s, req.obj, c.maxFreq, vtime)
    else if req.size > c.cacheSize then s
    else Inserted(RoomFor(c, s, vtime, miss, req.size), req, vtime)
  }

  /** The cache and the misses that were put in, after a whole trace. Request i comes at time i + 1. */
  ghost function StateAfter(c: Config, tr: seq<Request>): State {
    if tr == [] then State([], map[], map[], map[], map[])
    else
      var past := tr[..|tr| - 1];
      Served(c, StateAfter(c, past), |tr|, Misses(c, past), tr[|tr| - 1])
  }

  ghost function Misses(c: Config, tr: seq<Request>): nat {
    if tr == [] then 0
    else
      var past, req := tr[..|tr| - 1], tr[|tr| - 1];
      Misses(c, past) + if req.obj in StateAfter(c, past).freq || req.size > c.cacheSize then 0 else 1
  }

  /** The requests of a trace that find their object. */
  ghost function Hits(c: Config, tr: seq<Request>): nat {
    if tr == [] then 0
    else
      var past := tr[..|tr| - 1];
      Hits(c, past) + if tr[|tr| - 1].obj in StateAfter(c, past).freq then 1 else 0
  }

  lemma RunSnoc(c: Config, tr: seq<Request>, i: nat)
    requires i < |tr|
    ensures var s, now := StateAfter(c, tr[..i]), tr[..i + 1];
      && StateAfter(c, now) == Served(c, s, i + 1, Misses(c, tr[..i]), tr[i])
      && Hits(c, now) == Hits(c, tr[..i]) + (if tr[i].obj in s.freq then 1 else 0)
      && Misses(c, now) == Misses(c, tr[..i]) + if tr[i].obj in s.freq || tr[i].size > c.cacheSize then 0 else 1
  {
    assert tr[..i + 1][..i] == tr[..i];
  }

  lemma PassNone(s: State, vtime: nat, retained: bool)
    ensures PassedBy(s, vtime, 0) == s && Passed(s, vtime, retained, 0)
  {
    assert Clock.Turned(s.q, 0) == s.q;
    assert PassedBy(s, vtime, 0).freq == s.freq && PassedBy(s, vtime, 0).check == s.check;
  }

  lemma PassOne(s: State, vtime: nat, j: nat)
    requires NoDup(s.q) && Keyed(s) && j < |s.q|
    ensures var p := PassedBy(s, vtime, j);
      && p.q != [] && p.q[|p.q| - 1] in p.freq && PassedBy(s, vtime, j + 1) == Promoted(p, vtime)
  {
    hide NoDup;
    var p, p', o := PassedBy(s, vtime, j), PassedBy(s, vtime, j + 1), s.q[|s.q| - 1 - j];
    assert p.q[|p.q| - 1] == o && o in s.q;
    assert s.q[|s.q| - (j + 1)..] == [o] + s.q[|s.q| - j..];
    assert p'.q == [o] + p.q[..|p.q| - 1];
    NotBehind(s.q, |s.q| - 1 - j);
    assert p'.freq == p.freq[o := p.freq[o] - 1];
    assert p'.check == p.check[o := vtime];
  }

  lemma PassMore(s: State, vtime: nat, retained: bool, j: nat)
    requires Passed(s, vtime, retained, j) && j < |s.q| && retained
    requires var o := s.q[|s.q| - 1 - j]; o in s.freq && o in s.check && s.freq[o] > 0 && s.check[o] != vtime
    ensures Passed(s, vtime, retained, j + 1)
  {
  }

  lemma PassEnds(s: State, vtime: nat, retained: bool, j: nat)
    requires Passed(s, vtime, retained, j)
    requires j < |s.q| ==>
      var o := s.q[|s.q| - 1 - j]; o in s.freq && o in s.check && !(s.freq[o] > 0 && retained && s.check[o] != vtime)
    ensures IsRun(s, vtime, retained, j)
  {
  }

  lemma NotBehind(q: seq<Obj>, i: nat)
    requires NoDup(q) && i < |q|
    ensures q[i] !in q[i + 1..]
  {
  }

  /** The object at the tail after j promotions. */
  lemma AtHand(s: State, vtime: nat, j: nat, maxFreq: nat)
    requires Sound(s, maxFreq) && j <= |s.q| && s.q != []
    ensures var p := PassedBy(s, vtime, j);
      && |p.q| == |s.q| && p.q[|p.q| - 1] in p.freq && p.q[|p.q| - 1] in p.check
      && (j < |s.q| ==>
        var o := s.q[|s.q| - 1 - j];
        && p.q[|p.q| - 1] == o && o in s.freq && o in s.check && p.freq[o] == s.freq[o] && p.check[o] == s.check[o])
      && (j == |s.q| ==> p.check[p.q[|p.q| - 1]] == vtime)
  {
    hide NoDup;
    var p := PassedBy(s, vtime, j);
    if j < |s.q| {
      NotBehind(s.q, |s.q| - 1 - j);
      assert s.q[|s.q| - 1 - j] in s.q;
    } else {
      assert p.q == s.q && s.q[0..] == s.q && s.q[|s.q| - 1] in s.q;
    }
  }

  // ---- how the operations change the state -------------------------------------------------------------

  ghost function Found(s: State, o: Obj, maxFreq: nat, vtime: nat): State
    requires o in s.freq
  {
    s.(freq := s.freq[o := if s.freq[o] < maxFreq then s.freq[o] + 1 else s.freq[o]], last := s.last[o := vtime])
  }

  lemma FoundSound(s: State, o: Obj, maxFreq: nat, vtime: nat)
    requires Sound(s, maxFreq) && o in s.freq
    ensures var p := Found(s, o, maxFreq, vtime);
      Sound(p, maxFreq) && Points(p) <= Points(s) + 1 && Bytes(p) == Bytes(s)
  {
    hide NoDup, Clock.Sum;
    Clock.SumRaise(s.q, s.freq, o);
    assert s.freq[o := s.freq[o]] == s.freq;
  }

  ghost function Inserted(s: State, req: Request, vtime: nat): State {
    var o := req.obj;
    State([o] + s.q, s.freq[o := 0], s.check[o := 0], s.last[o := vtime], s.size[o := req.size])
  }

  lemma InsertedSound(s: State, req: Request, maxFreq: nat, vtime: nat)
    requires Sound(s, maxFreq) && req.obj !in s.q
    ensures var p := Inserted(s, req, vtime);
      Sound(p, maxFreq) && Points(p) == Points(s) && Bytes(p) == Bytes(s) + req.size
  {
    hide NoDup, Clock.Sum;
    Clock.SumFront(s.q, s.freq, req.obj, 0);
    Clock.SumFront(s.q, s.size, req.obj, req.size);
    FrontNoDup(s.q, req.obj);
  }

  /** A promotion costs one point. */
  lemma PromotedSound(s: State, maxFreq: nat, vtime: nat)
    requires Sound(s, maxFreq) && s.q != [] && s.q[|s.q| - 1] in s.freq && s.freq[s.q[|s.q| - 1]] > 0
    ensures var p := Promoted(s, vtime);
      Sound(p, maxFreq) && Points(p) == Points(s) - 1 && Bytes(p) == Bytes(s)
  {
    hide NoDup, Points, Bytes, Keyed;
    PromotedSums(s, vtime);
    PromotedKeys(s, vtime);
  }

  lemma PromotedKeys(s: State, vtime: nat)
    requires NoDup(s.q) && Keyed(s) && s.q != [] && s.q[|s.q| - 1] in s.freq
    ensures var p := Promoted(s, vtime);
      NoDup(p.q) && Keyed(p) && s.q[|s.q| - 1] in s.size
  {
    hide NoDup;
    LastFirst(s.q);
    var p := Promoted(s, vtime);
    assert p.freq.Keys == s.freq.Keys && p.check.Keys == s.check.Keys;
  }

  lemma PromotedSums(s: State, vtime: nat)
    requires NoDup(s.q) && Keyed(s) && s.q != [] && s.q[|s.q| - 1] in s.freq
    ensures var p := Promoted(s, vtime);
      Points(p) == Points(s) - 1 && Bytes(p) == Bytes(s)
  {
    hide NoDup, Clock.Sum;
    var o := s.q[|s.q| - 1];
    Clock.SumStep(s.q, s.freq, 1);
    Clock.SumStep(s.q, s.size, 0);
    assert s.size[o := s.size[o] - 0] == s.size;
  }

  lemma LastFirst(q: seq<Obj>)
    requires NoDup(q) && q != []
    ensures var p := [q[|q| - 1]] + q[..|q| - 1]; NoDup(p) && forall x :: x in p <==> x in q
  {
    var p := [q[|q| - 1]] + q[..|q| - 1];
    Clock.TurnNoDup(q, 1);
    assert Clock.Turned(q, 1) == p && q == q[..|q| - 1] + [q[|q| - 1]];
  }

  /** The object at the tail leaves: no more than its own counter is lost. */
  lemma DroppedSound(s: State, maxFreq: nat)
    requires Sound(s, maxFreq) && s.q != []
    ensures var o, p := s.q[|s.q| - 1], Dropped(s);
      && Sound(p, maxFreq) && o in s.size && s.size[o] >= 0 && (forall x :: x in p.q <==> x in s.q && x != o)
      && Points(p) <= Points(s) && Bytes(p) == Bytes(s) - s.size[o]
  {
    hide NoDup, Clock.Sum;
    var o, front := s.q[|s.q| - 1], s.q[..|s.q| - 1];
    FrontOnly(s.q);
    Clock.SumSnoc(s.q, s.freq);
    Clock.SumSnoc(s.q, s.size);
    Clock.SumSame(front, s.freq, s.freq - {o});
    Clock.SumSame(front, s.size, s.size - {o});
  }

  lemma FrontOnly(q: seq<Obj>)
    requires NoDup(q) && q != []
    ensures NoDup(q[..|q| - 1]) && forall x :: x in q[..|q| - 1] <==> x in q && x != q[|q| - 1]
  {
    assert q == q[..|q| - 1] + [q[|q| - 1]];
  }

  ghost function Removed(s: State, o: Obj): State {
    State(Without(s.q, o), s.freq - {o}, s.check - {o}, s.last - {o}, s.size - {o})
  }

  lemma RemovedSound(s: State, o: Obj, maxFreq: nat)
    requires Sound(s, maxFreq)
    ensures var p := Removed(s, o);
      && Sound(p, maxFreq) && Points(p) <= Points(s) && (o !in s.freq ==> p == s)
      && (o in s.freq ==> o in s.size && Bytes(p) == Bytes(s) - s.size[o])
  {
    hide NoDup, Clock.Sum, Without;
    if o in s.freq {
      WithoutNoDup(s.q, o);
      Clock.SumWithout(s.q, s.freq, o);
      Clock.SumWithout(s.q, s.size, o);
    } else {
      WithoutAbsent(s.q, o);
      assert s.freq - {o} == s.freq && s.size - {o} == s.size && s.check - {o} == s.check && s.last - {o} == s.last;
    }
  }

  /** Objects of any size. */
  class Cache {
    const cacheSize: nat
    const maxFreq: nat
    const scaler: real
    var q: seq<Obj>                 // the head first
    var freq: map<Obj, int>
    var checkTime: map<Obj, int>    // when the object was last promoted
    var lastAccess: map<Obj, int>   // when it was last requested
    var size: map<Obj, int>
    var occupied: int
    var vtime: nat
    var miss: nat
    var nPromotion: nat
    ghost var hits: nat

    /** Every promotion, and every point of a counter, goes back to a hit of its own. */
    ghost predicate Valid()
      reads this`q, this`freq, this`checkTime, this`lastAccess, this`size, this`occupied
      reads this`nPromotion, this`hits
    {
      && Sound(Now(), maxFreq) && occupied == Bytes(Now()) <= cacheSize
      && nPromotion + Points(Now()) <= hits
    }

    function Now(): State
      reads this`q, this`freq, this`checkTime, this`lastAccess, this`size
    {
      State(q, freq, checkTime, lastAccess, size)
    }

    lemma Facts()
      requires Valid()
      ensures Sound(Now(), maxFreq) && NoDup(q) && Keyed(Now()) && (forall o :: o in freq <==> o in q)
      ensures (q == [] ==> occupied == 0) && occupied >= 0
      ensures occupied == Bytes(Now()) && nPromotion <= hits && nPromotion + Points(Now()) <= hits
    {
      Clock.SumPositive(q, freq);
      Clock.SumPositive(q, size);
    }

    constructor (cacheSize: nat, maxFreq: nat, scaler: real)
      ensures Valid() && Now() == State([], map[], map[], map[], map[])
      ensures hits == 0 && nPromotion == 0 && vtime == 0 && miss == 0
      ensures this.cacheSize == cacheSize && this.maxFreq == maxFreq && this.scaler == scaler
    {
      this.cacheSize, this.maxFreq, this.scaler := cacheSize, maxFreq, scaler;
      q, freq, checkTime, lastAccess, size := [], map[], map[], map[], map[];
      occupied, vtime, miss, nPromotion, hits := 0, 0, 0, 0, 0;
    }

    method Find(o: Obj, update: bool) returns (hit: bool)
      requires Valid()
      modifies this`freq, this`lastAccess, this`vtime, this`hits
      ensures Valid() && hit == (o in q) && hit == (o in old(freq)) && vtime == old(vtime) + 1
      ensures hits == old(hits) + if hit && update then 1 else 0
      ensures Now() == if hit && update then Found(old(Now()), o, maxFreq, vtime) else old(Now())
      ensures hit && update ==>
        && lastAccess == old(lastAccess)[o := vtime]
        && var f := old(freq)[o]; freq == old(freq)[o := if f < maxFreq then f + 1 else f]
    {
      hide Sound, Keyed, NoDup, Points, Bytes;
      Facts();
      vtime := vtime + 1;
      hit := o in freq;
      if hit && update {
        hits := hits + 1;
        FoundSound(Now(), o, maxFreq, vtime);
        freq := freq[o := if freq[o] < maxFreq then freq[o] + 1 else freq[o]];
        lastAccess := lastAccess[o := vtime];
      }
    }

    method Insert(req: Request)
      requires Valid() && req.obj !in q && occupied + req.size <= cacheSize
      modifies this`q, this`freq, this`checkTime, this`lastAccess, this`size, this`occupied, this`miss
      ensures Valid() && Now() == Inserted(old(Now()), req, vtime) && miss == old(miss) + 1
      ensures occupied == old(occupied) + req.size
      ensures q == [req.obj] + old(q) && freq == old(freq)[req.obj := 0] && checkTime == old(checkTime)[req.obj := 0]
      ensures lastAccess == old(lastAccess)[req.obj := vtime] && size == old(size)[req.obj := req.size]
    {
      hide Sound, Points, Bytes;
      InsertedSound(Now(), req, maxFreq, vtime);
      var o := req.obj;
      miss, occupied := miss + 1, occupied + req.size;
      q := [o] + q;
      freq := freq[o := 0];
      checkTime := checkTime[o := 0];
      lastAccess := lastAccess[o := vtime];
      size := size[o := req.size];
    }

    function Conf(): Config {
      Config(cacheSize, maxFreq, scaler)
    }

    /** The object at the tail gives a point for another round. */
    method Promote()
      requires Valid() && q != [] && q[|q| - 1] in freq && freq[q[|q| - 1]] > 0
      modifies this`q, this`freq, this`checkTime, this`nPromotion
      ensures Valid() && Now() == Promoted(old(Now()), vtime) && nPromotion == old(nPromotion) + 1
    {
      hide Sound, Points, Bytes;
      PromotedSound(Now(), maxFreq, vtime);
      var o := q[|q| - 1];
      freq := freq[o := freq[o] - 1];
      q := [o] + q[..|q| - 1];
      nPromotion := nPromotion + 1;
      checkTime := checkTime[o := vtime];
    }

    /** The promotions before an eviction: from the tail on, until an object must not be promoted. */
    method PromoteAll(retained: bool) returns (ghost j: nat)
      requires Valid() && q != []
      modifies this`q, this`freq, this`checkTime, this`nPromotion
      ensures Valid() && IsRun(old(Now()), vtime, retained, j) && nPromotion == old(nPromotion) + j
      ensures j <= |old(q)| && Now() == PassedBy(old(Now()), vtime, j) && |q| == |old(q)|
    {
      hide Sound, Keyed, Points, Bytes, NoDup, PassedBy, Passed, Waits, IsRun;
      ghost var s := Now();
      Facts();
      j := 0;
      PassNone(s, vtime, retained);
      AtHand(s, vtime, 0, maxFreq);
      var obj := q[|q| - 1];
      while freq[obj] > 0 && retained && checkTime[obj] != vtime
        invariant Valid() && j <= |s.q| && Now() == PassedBy(s, vtime, j) && |q| == |s.q|
        invariant q != [] && obj == q[|q| - 1] && obj in freq && obj in checkTime
        invariant Passed(s, vtime, retained, j) && nPromotion == old(nPromotion) + j
        decreases |s.q| - j
      {
        AtHand(s, vtime, j, maxFreq);
        PassOne(s, vtime, j);
        PassMore(s, vtime, retained, j);
        Promote();
        j := j + 1;
        AtHand(s, vtime, j, maxFreq);
        obj := q[|q| - 1];
      }
      AtHand(s, vtime, j, maxFreq);
      PassEnds(s, vtime, retained, j);
    }

    /** The hand passes the longest run of objects that may be promoted, once each, and the object it
        stops at goes; if it passes all, the one that was at the tail. */
    method Evict() returns (ghost j: nat)
      requires Valid() && q != []
      modifies this`q, this`freq, this`checkTime, this`lastAccess, this`size, this`occupied, this`nPromotion
      ensures Valid() && nPromotion == old(nPromotion) + j
      ensures IsRun(old(Now()), vtime, Retained(Conf(), old(Now()), vtime, miss), j)
      ensures PassedBy(old(Now()), vtime, j).q != [] && Now() == Dropped(PassedBy(old(Now()), vtime, j))
      ensures Now() == AfterEviction(Conf(), old(Now()), vtime, miss)
      ensures |q| == |old(q)| - 1 && forall o :: o in q ==> o in old(q)
      ensures var o := old(q)[|old(q)| - 1];
        && o in old(freq) && o in old(checkTime) && o in old(lastAccess)
        && if old(freq)[o] > 0 && old(checkTime)[o] != vtime && miss > 0 && vtime > 0
              && ((vtime - old(lastAccess)[o]) * miss) as real < (cacheSize * vtime) as real * scaler
           then
             && j >= 1
             && ((exists x :: x in old(q) && (old(freq)[x] == 0 || old(checkTime)[x] == vtime)) ==> o in q)
           else j == 0 && Now() == Dropped(old(Now())) && q == old(q)[..|old(q)| - 1] && freq == old(freq) - {o}
    {
      hide Sound, Keyed, NoDup, Points, Bytes, PassedBy, IsRun, Near, Dropped, Retained;
      ghost var s := Now();
      Facts();
      var retained := Retained(Conf(), Now(), vtime, miss);
      j := PromoteAll(retained);
      RemoveLast();
      SameObjects(s, vtime, j);
      RunUnique(s, vtime, retained, j, RunLength(s, vtime, retained, 0));
      TailFate(Conf(), s, vtime, miss, j);
    }

    method RemoveLast()
      requires Valid() && q != []
      modifies this`q, this`freq, this`checkTime, this`lastAccess, this`size, this`occupied
      ensures Valid() && Now() == Dropped(old(Now())) && q == old(q[..|q| - 1])
    {
      hide Sound, Keyed, Points, Bytes;
      DroppedSound(Now(), maxFreq);
      var obj := q[|q| - 1];
      q := q[..|q| - 1];
      freq := freq - {obj};
      checkTime := checkTime - {obj};
      lastAccess := lastAccess - {obj};
      occupied := occupied - size[obj];
      size := size - {obj};
    }

    method Remove(o: Obj) returns (found: bool)
      requires Valid()
      modifies this`q, this`freq, this`checkTime, this`lastAccess, this`size, this`occupied
      ensures Valid() && found == (o in old(q)) && Now() == Removed(old(Now()), o)
      ensures occupied == old(occupied) - if found then old(size)[o] else 0
    {
      hide Sound, Keyed, Points, Bytes, NoDup, Without;
      Facts();
      RemovedSound(Now(), o, maxFreq);
      found := o in freq;
      if found {
        occupied := occupied - size[o];
        q := Without(q, o);
        freq, checkTime, lastAccess, size := freq - {o}, checkTime - {o}, lastAccess - {o}, size - {o};
      }
    }

    /** One request, as every cache serves it. */
    method Get(req: Request) returns (hit: bool)
      requires Valid()
      modifies this
      ensures Valid() && hit == (req.obj in old(freq)) && hit == (req.obj in old(q)) && vtime == old(vtime) + 1
      ensures hits == old(hits) + if hit then 1 else 0
      ensures miss == old(miss) + if hit || req.size > cacheSize then 0 else 1
      ensures Now() == Served(Conf(), old(Now()), vtime, old(miss), req)
      ensures hit ==>
        && q == old(q) && checkTime == old(checkTime) && size == old(size)
        && lastAccess == old(lastAccess)[req.obj := vtime]
        && var f := old(freq)[req.obj]; freq == old(freq)[req.obj := if f < maxFreq then f + 1 else f]
      ensures !hit && req.size > cacheSize ==> Now() == old(Now())
      ensures !hit && req.size <= cacheSize ==>
        && |q| >= 1 && q[0] == req.obj && req.obj in freq && freq[req.obj] == 0
        && req.obj in size && size[req.obj] == req.size && req.obj in lastAccess && lastAccess[req.obj] == vtime
      ensures !hit && old(occupied) + req.size <= cacheSize ==>
        && q == [req.obj] + old(q) && freq == old(freq)[req.obj := 0] && size == old(size)[req.obj := req.size]
      ensures hit || old(occupied) + req.size <= cacheSize ==> nPromotion == old(nPromotion)
    {
      hide Valid, Sound, NoDup, RoomFor, Found, Inserted;
      Facts();
      hit := Find(req.obj, true);
      if !hit && req.size <= cacheSize {
        MakeRoom(req);
        Insert(req);
      }
    }

    /** The eviction loop of cache_get_base. */
    method MakeRoom(req: Request)
      requires Valid() && req.size <= cacheSize && req.obj !in q
      modifies this`q, this`freq, this`checkTime, this`lastAccess, this`size, this`occupied, this`nPromotion
      ensures Valid() && occupied + req.size <= cacheSize && req.obj !in q
      ensures Now() == RoomFor(Conf(), old(Now()), vtime, miss, req.size)
      ensures old(occupied) + req.size <= cacheSize ==> nPromotion == old(nPromotion) && Now() == old(Now())
    {
      hide Valid, Sound, RoomFor, AfterEviction, Bytes, Inserted, IsRun, Dropped, PassedBy, Retained;
      Facts();
      while occupied + req.size > cacheSize
        invariant Valid() && req.obj !in q && occupied == Bytes(Now())
        invariant RoomFor(Conf(), Now(), vtime, miss, req.size) == RoomFor(Conf(), old(Now()), vtime, miss, req.size)
        invariant old(occupied) + req.size <= cacheSize ==>
          nPromotion == old(nPromotion) && occupied == old(occupied) && Now() == old(Now())
        decreases |q|
      {
        Facts();
        RoomStep(Conf(), Now(), vtime, miss, req.size);
        var _ := Evict();
        Facts();
      }
      RoomStep(Conf(), Now(), vtime, miss, req.size);
    }
  }

  /** What an eviction does with the object at the tail, in numbers: it is promoted if it has a point, was not
      promoted for this request, and its age times the misses is less than the size times the requests, scaled;
      then it stays, if some object may not be promoted. Otherwise it goes. */
  lemma TailFate(c: Config, s: State, vtime: nat, miss: nat, j: nat)
    requires NoDup(s.q) && Keyed(s) && s.q != [] && IsRun(s, vtime, Retained(c, s, vtime, miss), j)
    requires forall o :: o in s.freq ==> s.freq[o] >= 0
    ensures var o, p := s.q[|s.q| - 1], PassedBy(s, vtime, j);
      && o in s.freq && o in s.check && o in s.last && p.q != []
      && if s.freq[o] > 0 && s.check[o] != vtime && miss > 0 && vtime > 0
            && ((vtime - s.last[o]) * miss) as real < (c.cacheSize * vtime) as real * c.scaler
         then
           && j >= 1
           && ((exists x :: x in s.q && x in s.freq && x in s.check && (s.freq[x] == 0 || s.check[x] == vtime)) ==>
                 o in Dropped(p).q)
         else j == 0 && p == s && Dropped(p).q == s.q[..|s.q| - 1] && Dropped(p).freq == s.freq - {o}
  {
    hide NoDup, Near, IsRun, PassedBy, Retained, Clock.Turned;
    var o, retained := s.q[|s.q| - 1], Retained(c, s, vtime, miss);
    RetainedIff(c, s, vtime, miss);
    TailRun(s, vtime, retained, j);
    PassNone(s, vtime, retained);
    PassedQueue(s, vtime, j);
    if 1 <= j < |s.q| {
      TailStays(s.q, j);
    }
  }

  /** Whether the object at the tail is kept, in numbers. */
  lemma RetainedIff(c: Config, s: State, vtime: nat, miss: nat)
    requires Keyed(s) && s.q != []
    ensures var o := s.q[|s.q| - 1];
      && o in s.freq && o in s.check && o in s.last
      && (Retained(c, s, vtime, miss) <==>
            s.freq[o] != 0 && miss > 0 && vtime > 0
            && ((vtime - s.last[o]) * miss) as real < (c.cacheSize * vtime) as real * c.scaler)
  {
    hide Near;
    var o := s.q[|s.q| - 1];
    assert o in s.q;
    NearIff(c.cacheSize, c.scaler, vtime, miss, vtime - s.last[o]);
  }

  lemma TailRun(s: State, vtime: nat, retained: bool, j: nat)
    requires s.q != [] && IsRun(s, vtime, retained, j)
    ensures j >= 1 <==> retained && Waits(s, vtime, s.q[|s.q| - 1])
    ensures j <= |s.q| && forall x :: x in s.q && !Waits(s, vtime, x) && j >= 1 ==> j < |s.q|
  {
    hide Waits;
    var o := s.q[|s.q| - 1];
    forall x | x in s.q && !Waits(s, vtime, x) && j >= 1 ensures j < |s.q| {
      var i :| 0 <= i < |s.q| && s.q[i] == x;
    }
  }

  lemma PassedQueue(s: State, vtime: nat, j: nat)
    requires j <= |s.q|
    ensures PassedBy(s, vtime, j).q == Clock.Turned(s.q, j) && |PassedBy(s, vtime, j).q| == |s.q|
  {
  }

  lemma TailStays(q: seq<Obj>, j: nat)
    requires 1 <= j < |q|
    ensures q[|q| - 1] in Clock.Turned(q, j)[..|q| - 1]
  {
    assert Clock.Turned(q, j)[j - 1] == q[|q| - 1];
  }

  lemma SameObjects(s: State, vtime: nat, j: nat)
    requires j <= |s.q|
    ensures forall o :: o in PassedBy(s, vtime, j).q ==> o in s.q
  {
  }

  /** A whole trace of objects of any size: there are no more promotions than hits. */
  method Run(c: Config, tr: seq<Request>) returns (cache: Cache, nHit: nat)
    ensures fresh(cache) && cache.Valid() && cache.Now() == StateAfter(c, tr)
    ensures nHit == Hits(c, tr) && cache.miss == Misses(c, tr)
    ensures cache.nPromotion + Points(StateAfter(c, tr)) <= Hits(c, tr) && cache.nPromotion <= Hits(c, tr)
  {
    hide Served, Points, Cache.Valid;
    cache := new Cache(c.cacheSize, c.maxFreq, c.scaler);
    nHit := 0;
    for i := 0 to |tr|
      invariant fresh(cache) && cache.Valid() && cache.hits == nHit && cache.vtime == i && cache.Conf() == c
      invariant cache.Now() == StateAfter(c, tr[..i]) && nHit == Hits(c, tr[..i])
      invariant cache.miss == Misses(c, tr[..i])
    {
      RunSnoc(c, tr, i);
      var hit := cache.Get(tr[i]);
      nHit := if hit then nHit + 1 else nHit;
    }
    assert tr[..|tr|] == tr;
    cache.Facts();
  }
}
