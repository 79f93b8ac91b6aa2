/** The Belady cache over the priority queue, driven by an exact next-access oracle. Objects may have any
    size; the optimality of the rule is about objects of size one. */
module Belady {
  import opened Lists
  import opened Recency
  import opened Optimality
  import PQueue

  /** What the cache keeps for an object. */
  datatype CacheObj = CacheObj(pqNode: PQueue.PqNode, nextAccess: int, freq: nat, kind: int, size: nat)

  /** Every request carries the time of the next request for its object, or NEVER. */
  ghost predicate Exact(reqs: seq<TimedRequest>) {
    forall i :: 0 <= i < |reqs| ==> reqs[i].nextAccess == NextTime(Objects(reqs), reqs[i].obj, i + 1)
  }

  /** The reuse distance that a cache of size c expects: c / (misses / requests). */
  function ExpectedReuse(c: nat, miss: nat, vtime: nat): real
    requires miss >= 1 && vtime >= 1
  {
    c as real / (miss as real / vtime as real)
  }

  /** The code keeps it in a 64-bit integer, which is too small for it exactly if c * vtime is too large. */
  lemma ExpectedRange(c: nat, miss: nat, vtime: nat)
    requires 1 <= miss && 1 <= vtime
    ensures 0.0 <= ExpectedReuse(c, miss, vtime)
    ensures ExpectedReuse(c, miss, vtime) <= NEVER as real <==> InRange(c, miss, vtime)
  {
    Reuse(c, miss, vtime);
    var x, m := ExpectedReuse(c, miss, vtime), miss as real;
    Scaled(x, NEVER as real, m);
    Scaled(0.0, x, m);
    assert NEVER as real * m == (NEVER * miss) as real;
  }

  lemma Scaled(x: real, y: real, m: real)
    requires m > 0.0
    ensures x <= y <==> x * m <= y * m
  {
    if x <= y {
      assert (y - x) * m >= 0.0;
    } else {
      assert (x - y) * m > 0.0;
    }
  }

  lemma Reuse(c: nat, miss: nat, vtime: nat)
    requires 1 <= miss && 1 <= vtime
    ensures ExpectedReuse(c, miss, vtime) * miss as real == (c * vtime) as real
  {
    var q, v, m := miss as real / vtime as real, vtime as real, miss as real;
    var x := c as real / q;
    assert q * v == m && x * q == c as real;
    assert x * m == x * (q * v) == (x * q) * v;
  }

  predicate InRange(c: nat, miss: nat, vtime: nat) {
    c * vtime <= NEVER * miss
  }

  /** For n requests a cache this small is never out of range. */
  lemma FitsInRange(c: nat, n: nat, miss: nat, vtime: nat)
    requires c * n <= NEVER && vtime <= n && 1 <= miss
    ensures InRange(c, miss, vtime)
  {
    assert c * vtime <= c * n;
    assert NEVER <= NEVER * miss;
  }

  /** A conversion to a 64-bit integer. Out of range it has no defined value; x86-64 yields the least one. */
  function ToInt64(x: real): int {
    if x < NEVER as real + 1.0 then x.Floor else -NEVER - 1
  }

  /** The next access lies further ahead than the cache can expect to bridge. */
  predicate Far(c: nat, miss: nat, vtime: nat, next: int) {
    miss >= 1 && vtime >= 1 && ToInt64(ExpectedReuse(c, miss, vtime)) < next - vtime
  }

  lemma FarIff(c: nat, miss: nat, vtime: nat, next: int)
    requires miss >= 1 && vtime >= 1 && InRange(c, miss, vtime)
    ensures Far(c, miss, vtime, next) <==> c * vtime < (next - vtime) * miss
  {
    ExpectedRange(c, miss, vtime);
    Reuse(c, miss, vtime);
    var x, m, k := ExpectedReuse(c, miss, vtime), miss as real, next - vtime;
    assert x.Floor < k <==> x < k as real;
    Scaled(k as real, x, m);
    assert k as real * m == (k * miss) as real;
  }

  // ---- bytes ------------------------------------------------------------------------------------------

  ghost function Bytes(table: map<Obj, CacheObj>): nat {
    if table == map[] then 0
    else
      var o :| o in table;
      table[o].size + Bytes(table - {o})
  }

  lemma {:induction false} BytesRemove(table: map<Obj, CacheObj>, o: Obj)
    requires o in table
    ensures Bytes(table) == table[o].size + Bytes(table - {o})
    decreases |table|
  {
    var p :| p in table && Bytes(table) == table[p].size + Bytes(table - {p});
    if p != o {
      var rest := table - {p};
      assert |rest| < |table| by {
        MapLess(table, p);
      }
      BytesRemove(rest, o);
      assert rest - {o} == table - {o} - {p};
      MapLess(table, o);
      BytesRemove(table - {o}, p);
    }
  }

  lemma MapLess(table: map<Obj, CacheObj>, o: Obj)
    requires o in table
    ensures |table - {o}| == |table| - 1 && (table - {o}).Keys == table.Keys - {o}
  {
    assert (table - {o}).Keys == table.Keys - {o};
    assert |table.Keys - {o}| == |table.Keys| - 1;
    assert |table| == |table.Keys| && |table - {o}| == |(table - {o}).Keys|;
  }

  lemma BytesAdd(table: map<Obj, CacheObj>, o: Obj, e: CacheObj)
    requires o !in table
    ensures Bytes(table[o := e]) == Bytes(table) + e.size && |table[o := e]| == |table| + 1
  {
    var t := table[o := e];
    assert t - {o} == table;
    BytesRemove(t, o);
    MapLess(t, o);
  }

  /** A new entry of the same size. */
  lemma BytesUpdate(table: map<Obj, CacheObj>, o: Obj, e: CacheObj)
    requires o in table && e.size == table[o].size
    ensures Bytes(table[o := e]) == Bytes(table)
  {
    var t := table[o := e];
    assert t - {o} == table - {o};
    BytesRemove(t, o);
    BytesRemove(table, o);
  }

  ghost predicate Unit(table: map<Obj, CacheObj>) {
    forall o :: o in table ==> table[o].size == 1
  }

  lemma {:induction false} UnitBytes(table: map<Obj, CacheObj>)
    requires Unit(table)
    ensures Bytes(table) == |table| == |table.Keys|
    decreases |table|
  {
    if table != map[] {
      var o :| o in table;
      BytesRemove(table, o);
      MapLess(table, o);
      UnitBytes(table - {o});
    }
  }

  // ---- what evictions drop ------------------------------------------------------------------------------

  /** The victims left one after the other, each of them farthest among those that were left, and none of
      them needlessly: s more bytes did not fit before. */
  ghost predicate Dropped(c: nat, tr: seq<Obj>, i: nat, before: map<Obj, CacheObj>, victims: seq<Obj>, s: nat)
    requires i <= |tr|
  {
    forall k :: 0 <= k < |victims| ==>
      && IsFarthest(tr, i, Left(before, victims[..k]).Keys, victims[k])
      && Bytes(Left(before, victims[..k])) + s > c
  }

  ghost function Left(before: map<Obj, CacheObj>, victims: seq<Obj>): map<Obj, CacheObj> {
    before - Elems(victims)
  }

  lemma DroppedNone(c: nat, tr: seq<Obj>, i: nat, before: map<Obj, CacheObj>, s: nat)
    requires i <= |tr|
    ensures Dropped(c, tr, i, before, [], s) && Left(before, []) == before
  {
  }

  lemma LeftFew(before: map<Obj, CacheObj>, victims: seq<Obj>)
    ensures Left(before, victims[..0]) == before && (victims == [] ==> Left(before, victims) == before)
    ensures |victims| == 1 ==> Left(before, victims) == before - {victims[0]}
  {
  }

  lemma UnitVictims(c: nat, tr: seq<Obj>, i: nat, before: map<Obj, CacheObj>, victims: seq<Obj>)
    requires i <= |tr| && Unit(before) && Bytes(before) <= c && c >= 1
    requires Dropped(c, tr, i, before, victims, 1)
    requires Bytes(Left(before, victims)) + 1 <= c
    ensures |victims| == if |before| < c then 0 else 1
    ensures |victims| == 1 ==> victims[0] in before && IsFarthest(tr, i, before.Keys, victims[0])
  {
    hide IsFarthest, Bytes, Left;
    UnitBytes(before);
    LeftFew(before, victims[..0]);
    LeftFew(before, victims);
    if |victims| > 0 {
      var v := victims[0];
      assert IsFarthest(tr, i, Left(before, victims[..0]).Keys, v);
      assert v in before by {
        FarthestIn(tr, i, before.Keys, v);
      }
      MapLess(before, v);
      UnitBytes(before - {v});
      if |victims| > 1 {
        LeftFew(before, victims[..1]);
        assert false;
      }
    }
  }

  /** With objects of size one no more than one eviction is needed. */
  lemma RoomIsBelady(c: nat, tr: seq<Obj>, i: nat, before: map<Obj, CacheObj>, after: set<Obj>, victims: seq<Obj>)
    requires i < |tr| && tr[i] !in before && Unit(before) && c >= 1
    requires Bytes(before) <= c && Bytes(Left(before, victims)) + 1 <= c
    requires Dropped(c, tr, i + 1, before, victims, 1) && after == Left(before, victims).Keys + {tr[i]}
    ensures BeladyStep(tr, c, i, before.Keys, after)
  {
    hide IsFarthest, Bytes, Left, Dropped, Unit, BeladyStep;
    UnitBytes(before);
    UnitVictims(c, tr, i + 1, before, victims);
    LeftFew(before, victims);
    if |before| < c {
      StepFree(tr, c, i, before.Keys);
    } else {
      MapLess(before, victims[0]);
      StepFull(tr, c, i, before.Keys, victims[0]);
    }
  }

  lemma StepFree(tr: seq<Obj>, c: nat, i: nat, before: set<Obj>)
    requires i < |tr| && tr[i] !in before && |before| < c
    ensures BeladyStep(tr, c, i, before, before + {tr[i]})
  {
  }

  lemma StepFull(tr: seq<Obj>, c: nat, i: nat, before: set<Obj>, v: Obj)
    requires i < |tr| && tr[i] !in before && |before| >= c && IsFarthest(tr, i + 1, before, v)
    ensures BeladyStep(tr, c, i, before, before - {v} + {tr[i]})
  {
    hide IsFarthest;
    FarthestBack(before, tr, i, v);
  }

  lemma StepHit(tr: seq<Obj>, c: nat, i: nat, before: set<Obj>)
    requires i < |tr| && tr[i] in before
    ensures BeladyStep(tr, c, i, before, before)
  {
  }

  lemma FarthestIn(tr: seq<Obj>, i: nat, s: set<Obj>, v: Obj)
    requires i <= |tr| && IsFarthest(tr, i, s, v)
    ensures v in s
  {
  }

  lemma DroppedMore(c: nat, tr: seq<Obj>, i: nat, before: map<Obj, CacheObj>, victims: seq<Obj>, s: nat, v: Obj)
    requires i <= |tr| && Dropped(c, tr, i, before, victims, s)
    requires IsFarthest(tr, i, Left(before, victims).Keys, v) && Bytes(Left(before, victims)) + s > c
    ensures Dropped(c, tr, i, before, victims + [v], s)
    ensures Left(before, victims + [v]) == Left(before, victims) - {v}
  {
    hide IsFarthest;
    var more := victims + [v];
    assert forall k :: 0 <= k < |victims| ==> more[..k] == victims[..k];
    assert more[..|victims|] == victims;
    ElemsSnoc(victims, v);
  }

  /** The queue holds one node for every cached object, under its next access time. */
  ghost predicate Mirrors(nodes: set<PQueue.PqNode>, table: map<Obj, CacheObj>)
    reads nodes`pri
  {
    && (forall o :: o in table ==>
          && table[o].pqNode in nodes && table[o].pqNode.objId == o
          && table[o].pqNode.pri == table[o].nextAccess as real)
    && (forall n :: n in nodes ==> n.objId in table && table[n.objId].pqNode == n)
  }

  /** What the table says about o is true of the trace from position i on. */
  ghost predicate EntryExact(e: CacheObj, o: Obj, tr: seq<Obj>, i: nat)
    requires i <= |tr|
  {
    e.nextAccess == NextTime(tr, o, i) && 1 <= e.kind <= 5 && (e.kind <= 2 <==> e.nextAccess == NEVER)
  }

  ghost predicate TableExact(table: map<Obj, CacheObj>, tr: seq<Obj>, i: nat)
    requires i <= |tr|
  {
    forall o :: o in table ==> EntryExact(table[o], o, tr, i)
  }

  /** Request i is being served: only the entry of its object is out of date. */
  lemma TableAdvance(table: map<Obj, CacheObj>, tr: seq<Obj>, i: nat)
    requires i < |tr| < NEVER && TableExact(table, tr, i)
    ensures TableExact(table - {tr[i]}, tr, i + 1)
    ensures tr[i] in table ==> 3 <= table[tr[i]].kind <= 5
  {
    forall o | o in table {
      NextTimeStep(tr, i, o);
    }
    forall o | o in table - {tr[i]} ensures EntryExact(table[o], o, tr, i + 1) {
      assert EntryExact(table[o], o, tr, i);
    }
    if tr[i] in table {
      assert EntryExact(table[tr[i]], tr[i], tr, i);
    }
  }

  lemma TableServed(table: map<Obj, CacheObj>, tr: seq<Obj>, i: nat, o: Obj)
    requires i <= |tr| && TableExact(table - {o}, tr, i)
    ensures o !in table ==> TableExact(table, tr, i)
  {
    assert forall x :: x in table && x != o ==> x in table - {o};
  }

  lemma TableWith(table: map<Obj, CacheObj>, tr: seq<Obj>, i: nat, o: Obj, e: CacheObj)
    requires i <= |tr| && TableExact(table - {o}, tr, i) && EntryExact(e, o, tr, i)
    ensures TableExact(table[o := e], tr, i)
  {
    assert forall x :: x in table && x != o ==> x in table - {o};
  }

  lemma HitEntry(e: CacheObj, o: Obj, tr: seq<Obj>, i: nat)
    requires i <= |tr| && e.nextAccess == NextTime(tr, o, i)
    requires 1 <= e.kind <= 5 && (e.kind <= 2 <==> e.nextAccess == NEVER)
    ensures EntryExact(e, o, tr, i)
  {
  }

  lemma MirrorsWith(nodes: set<PQueue.PqNode>, table: map<Obj, CacheObj>, n: PQueue.PqNode, e: CacheObj)
    requires Mirrors(nodes, table) && n.objId !in table && e.pqNode == n && n.pri == e.nextAccess as real
    ensures Mirrors(nodes + {n}, table[n.objId := e])
  {
  }

  lemma MirrorsWithout(nodes: set<PQueue.PqNode>, table: map<Obj, CacheObj>, n: PQueue.PqNode)
    requires Mirrors(nodes, table) && n in nodes
    ensures Mirrors(nodes - {n}, table - {n.objId})
  {
  }

  lemma FarthestNode(nodes: set<PQueue.PqNode>, table: map<Obj, CacheObj>, tr: seq<Obj>, i: nat, n: PQueue.PqNode)
    requires i <= |tr| && Mirrors(nodes, table) && TableExact(table, tr, i)
    requires n in nodes && forall m :: m in nodes ==> m.pri <= n.pri
    ensures IsFarthest(tr, i, table.Keys, n.objId)
  {
    forall x | x in table ensures NextTime(tr, x, i) <= NextTime(tr, n.objId, i) {
      assert EntryExact(table[x], x, tr, i) && EntryExact(table[n.objId], n.objId, tr, i);
      assert table[x].pqNode.pri <= n.pri;
    }
  }

  lemma TableWithout(table: map<Obj, CacheObj>, tr: seq<Obj>, i: nat, o: Obj)
    requires i <= |tr| && TableExact(table, tr, i)
    ensures TableExact(table - {o}, tr, i)
    ensures o in table ==> 1 <= table[o].kind <= 5
  {
    assert o in table ==> EntryExact(table[o], o, tr, i);
  }

  lemma FarthestBack(objects: set<Obj>, tr: seq<Obj>, i: nat, v: Obj)
    requires i < |tr| && tr[i] !in objects && IsFarthest(tr, i + 1, objects, v)
    ensures IsFarthest(tr, i, objects, v)
  {
    forall o | o in objects {
      NextTimeStep(tr, i, o);
    }
  }

  /** One more eviction of this kind. */
  ghost function OneMore(evicted: map<int, nat>, kind: int): map<int, nat> {
    if kind in evicted then evicted[kind := evicted[kind] + 1] else evicted
  }

  class Cache {
    const cacheSize: nat
    const pq: PQueue.Queue
    var table: map<Obj, CacheObj>
    var vtime: nat
    var miss: nat
    var nReq: nat
    var nInsert: nat
    var nObj: int
    var occupied: int
    var evicted: map<int, nat>   // the counters type1 to type5
    ghost var nRemoved: nat
    ghost const tr: seq<Obj>     // the trace the cache is made for

    /** The queue mirrors the table, and the counters tell the truth. */
    ghost predicate Consistent()
      reads this`table, this`nObj, this`occupied, this`evicted, this`miss, this`vtime, this`nRemoved
      reads pq, pq.d, pq.Members()
    {
      pq.Valid() && Mirrors(pq.Members(), table) && Counters(|table|, Bytes(table)) && vtime <= |tr| < NEVER
    }

    /** The counters are right for a cache that holds n objects of so many bytes. */
    ghost predicate Counters(n: nat, bytes: nat)
      reads this`nObj, this`occupied, this`evicted, this`miss, this`vtime, this`nRemoved
    {
      && nObj == n && occupied == bytes <= cacheSize
      && evicted.Keys == {1, 2, 3, 4, 5}
      && evicted[1] + evicted[2] + evicted[3] + evicted[4] + evicted[5] + nRemoved + n == miss
      && miss <= vtime
    }

    lemma Parts()
      ensures Consistent() <==>
        pq.Valid() && Mirrors(pq.Members(), table) && Counters(|table|, Bytes(table)) && vtime <= |tr| < NEVER
    {
    }

    lemma HoldingMissed(o: Obj)
      requires Counters(|table|, Bytes(table)) && o in table
      ensures miss >= 1 && vtime >= 1
    {
      MapLess(table, o);
    }

    /** o gets a new entry and its node a new priority. */
    method Update(o: Obj, e: CacheObj)
      requires pq.Valid() && Mirrors(pq.Members(), table) && o in table && e.pqNode == table[o].pqNode
      modifies this`table, pq.d, pq.Members()
      ensures pq.Valid() && Mirrors(pq.Members(), table) && pq.Members() == old(pq.Members())
      ensures table == old(table)[o := e]
    {
      hide PQueue.Queue.Valid;
      pq.ChangePriority(e.pqNode, e.nextAccess as real);
      table := table[o := e];
    }

    ghost predicate Valid()
      reads this, pq, pq.d, pq.Members()
    {
      Consistent() && nReq == vtime && nInsert == miss && TableExact(table, tr, vtime)
    }

    constructor (cacheSize: nat, n: nat, ghost tr: seq<Obj>)
      requires |tr| < NEVER
      ensures Valid() && table == map[] && vtime == 0 && miss == 0 && nRemoved == 0
      ensures this.cacheSize == cacheSize && this.tr == tr && fresh(pq) && fresh(pq.d) && pq.Members() == {}
    {
      this.cacheSize := cacheSize;
      this.tr := tr;
      pq := new PQueue.Queue(n);
      table, vtime, miss, nReq, nInsert, nObj, occupied := map[], 0, 0, 0, 0, 0, 0;
      evicted := map[1 := 0, 2 := 0, 3 := 0, 4 := 0, 5 := 0];
      nRemoved := 0;
    }

    /** How a hit changes the kind of an object. The source asserts that it is not of the first kind. */
    method NewKind(kind0: int, next: int) returns (kind: int)
      requires miss >= 1 && vtime >= 1 && 2 <= kind0 <= 5
      ensures kind == if next == NEVER && kind0 != 2 then 2 else if Far(cacheSize, miss, vtime, next) then 4 else 5
    {
      var expected := ToInt64(ExpectedReuse(cacheSize, miss, vtime));
      kind := kind0;
      if kind0 == 1 {
        assert false;
      } else if kind0 == 2 {
        if expected < next - vtime {
          kind := 4;
        } else {
          kind := 5;
        }
      } else if kind0 == 3 {
        if next == NEVER {
          kind := 2;
        } else if expected < next - vtime {
          kind := 4;
        } else {
          kind := 5;
        }
      } else if kind0 == 4 {
        if next == NEVER {
          kind := 2;
        } else if expected >= next - vtime {
          kind := 5;
        }
      } else if kind0 == 5 {
        if next == NEVER {
          kind := 2;
        } else if expected < next - vtime {
          kind := 4;
        }
      }
    }

    /** How an object starts out. False if the expected reuse distance does not fit into 64 bits: the source
        asserts that it does. It also asserts that the next access lies ahead. */
    method FirstKind(next: int) returns (ok: bool, kind: int)
      requires 1 <= miss <= vtime && vtime <= next
      ensures ok == InRange(cacheSize, miss, vtime)
      ensures ok ==> kind == if next == NEVER then 1 else if Far(cacheSize, miss, vtime, next) then 3 else 5
    {
      var exact := ExpectedReuse(cacheSize, miss, vtime);
      ExpectedRange(cacheSize, miss, vtime);
      if !(exact >= 0.0 && exact <= NEVER as real) {
        return false, 0;
      }
      var expected := ToInt64(exact);
      var reuse := next - vtime;
      assert reuse >= 0;
      var freq := 0;
      ok := true;
      if next == NEVER && freq == 0 {
        kind := 1;
      } else if next == NEVER && freq > 0 {
        kind := 2;
      } else if expected < reuse && freq == 0 {
        kind := 3;
      } else if expected < reuse && freq > 0 {
        kind := 4;
      } else {
        assert expected >= reuse;
        kind := 5;
      }
    }

    /** What a hit makes of an entry. */
    ghost predicate Refreshed(before: CacheObj, after: CacheObj, next: int)
      reads this`miss, this`vtime
    {
      && after.pqNode == before.pqNode && after.size == before.size
      && after.freq == before.freq + 1 && after.nextAccess == next
      && miss >= 1 && vtime >= 1
      && after.kind == if next == NEVER then 2 else if Far(cacheSize, miss, vtime, next) then 4 else 5
    }

    /** Looks req up, with an update while request vtime - 1 is being served. */
    method Find(req: TimedRequest, update: bool) returns (hit: bool)
      requires Consistent()
      requires update ==> Serving(req)
      modifies this`table, pq.d, pq.Members()
      ensures hit == (req.obj in table) && table.Keys == old(table.Keys)
      ensures Consistent() && pq.Members() == old(pq.Members()) && pq.d == old(pq.d)
      ensures !update || !hit ==> table == old(table)
      ensures update ==> TableExact(table, tr, vtime)
      ensures update && hit ==> Refreshed(old(table)[req.obj], table[req.obj], req.nextAccess)
      ensures forall o :: o in table && o != req.obj ==> table[o] == old(table)[o]
    {
      hide PQueue.Queue.Valid, TableExact, EntryExact, Mirrors, Counters;
      hit := req.obj in table;
      if !update {
        return;
      }
      TableServed(table, tr, vtime, req.obj);
      if !hit {
        return;
      }
      var e := table[req.obj];
      HoldingMissed(req.obj);
      var kind := NewKind(e.kind, req.nextAccess);
      var e' := e.(nextAccess := req.nextAccess, kind := kind, freq := e.freq + 1);
      HitEntry(e', req.obj, tr, vtime);
      TableWith(table, tr, vtime, req.obj, e');
      BytesUpdate(table, req.obj, e');
      Update(req.obj, e');
      assert |table| == |table.Keys|;
      assert table.Keys == old(table.Keys);
    }

    /** req is request vtime - 1 of the trace, with its true next access time; the rest of the table is
        up to date. */
    ghost predicate Serving(req: TimedRequest)
      requires vtime <= |tr|
      reads this`vtime, this`table
    {
      && 1 <= vtime && req.obj == tr[vtime - 1] && req.nextAccess == NextTime(tr, req.obj, vtime)
      && TableExact(table - {req.obj}, tr, vtime)
      && (req.obj in table ==> 3 <= table[req.obj].kind <= 5)
    }

    lemma ServingAhead(req: TimedRequest)
      requires vtime <= |tr| < NEVER && Serving(req)
      ensures 1 <= vtime <= req.nextAccess
    {
    }

    /** The accounts of a cache that takes an object in. */
    method CountIn(size: nat, ghost n: nat, ghost bytes: nat)
      requires Counters(n, bytes) && bytes + size <= cacheSize && miss < vtime
      modifies this`miss, this`nObj, this`occupied
      ensures Counters(n + 1, bytes + size) && miss == old(miss) + 1
    {
      miss := miss + 1;
      occupied := occupied + size;
      nObj := nObj + 1;
    }

    /** The accounts of a cache that evicts an object. */
    method CountOut(size: nat, kind: int, ghost n: nat, ghost bytes: nat)
      requires Counters(n, bytes) && n >= 1 && bytes >= size && 1 <= kind <= 5
      modifies this`evicted, this`nObj, this`occupied
      ensures Counters(n - 1, bytes - size) && evicted == OneMore(old(evicted), kind)
    {
      evicted := evicted[kind := evicted[kind] + 1];
      occupied, nObj := occupied - size, nObj - 1;
    }

    /** The first entry of an object. */
    ghost predicate IsNew(e: CacheObj, next: int, size: nat)
      reads this`miss, this`vtime
    {
      && e.freq == 0 && e.nextAccess == next && e.size == size
      && miss >= 1 && vtime >= 1
      && e.kind == if next == NEVER then 1 else if Far(cacheSize, miss, vtime, next) then 3 else 5
    }

    /** Puts the object of req, which is missing, into the table; there is room for it. False if the code
        aborts, which depends on the cache size and two counters alone. */
    method Insert(req: TimedRequest) returns (ok: bool)
      requires Consistent() && Serving(req) && req.obj !in table && Bytes(table) + req.size <= cacheSize && miss < vtime
      modifies this`miss, this`table, this`nObj, this`occupied, pq, pq.d, pq.Members()
      ensures ok == InRange(cacheSize, old(miss) + 1, vtime) && miss == old(miss) + 1
      ensures ok ==> Consistent() && TableExact(table, tr, vtime)
      ensures ok ==> table.Keys == old(table.Keys) + {req.obj} && IsNew(table[req.obj], req.nextAccess, req.size)
      ensures forall o :: o in old(table) ==> o in table && table[o] == old(table)[o]
      ensures fresh(pq.Members() - old(pq.Members())) && (pq.d == old(pq.d) || fresh(pq.d))
    {
      hide PQueue.Queue.Valid, TableExact, EntryExact, Mirrors, Counters, Consistent, InRange, Bytes, Far, Serving;
      Parts();
      ServingAhead(req);
      CountIn(req.size, |table|, Bytes(table));
      var node := Enqueue(req);
      var kind;
      ok, kind := FirstKind(req.nextAccess);
      if !ok {
        return;
      }
      Enter(req, CacheObj(node, req.nextAccess, 0, kind, req.size), old(pq.Members()));
    }

    /** The table takes the entry; its node is in the queue and counted already. */
    method Enter(req: TimedRequest, e: CacheObj, ghost nodes: set<PQueue.PqNode>)
      requires pq.Valid() && pq.Members() == nodes + {e.pqNode} && Mirrors(nodes, table) && vtime <= |tr| < NEVER
      requires Counters(|table| + 1, Bytes(table) + req.size) && e.size == req.size && Serving(req)
      requires e.pqNode.objId == req.obj && e.pqNode.pri == e.nextAccess as real && req.obj !in table
      requires e.nextAccess == req.nextAccess && IsNew(e, req.nextAccess, req.size)
      modifies this`table
      ensures Consistent() && TableExact(table, tr, vtime) && table == old(table)[req.obj := e]
    {
      hide PQueue.Queue.Valid, TableExact, EntryExact, Mirrors, Counters, Consistent, Bytes, Far;
      HitEntry(e, req.obj, tr, vtime);
      TableWith(table, tr, vtime, req.obj, e);
      MirrorsWith(nodes, table, e.pqNode, e);
      BytesAdd(table, req.obj, e);
      table := table[req.obj := e];
      Parts();
    }

    method Enqueue(req: TimedRequest) returns (node: PQueue.PqNode)
      requires pq.Valid() && Mirrors(pq.Members(), table) && req.obj !in table
      modifies pq, pq.d, pq.Members()`pos
      ensures pq.Valid() && pq.Members() == old(pq.Members()) + {node} && fresh(node)
      ensures node.objId == req.obj && node.pri == req.nextAccess as real
      ensures pq.d == old(pq.d) || fresh(pq.d)
    {
      hide PQueue.Queue.Valid;
      node := new PQueue.PqNode(req.obj, req.nextAccess as real);
      pq.Insert(node);
    }

    /** Takes the node with the largest priority out of the queue. */
    method Dequeue() returns (node: PQueue.PqNode)
      requires pq.Valid() && Mirrors(pq.Members(), table) && table != map[]
      requires vtime <= |tr| && TableExact(table, tr, vtime)
      modifies pq`size, pq.d, pq.Members()`pos
      ensures pq.Valid() && pq.Members() == old(pq.Members()) - {node} && node in old(pq.Members())
      ensures node.objId in table && table[node.objId].pqNode == node
      ensures IsFarthest(tr, vtime, table.Keys, node.objId) && Mirrors(pq.Members(), table - {node.objId})
    {
      hide PQueue.Queue.Valid;
      ghost var o :| o in table;
      assert table[o].pqNode in pq.Members();
      node := pq.Pop();
      FarthestNode(old(pq.Members()), table, tr, vtime, node);
      MirrorsWithout(old(pq.Members()), table, node);
    }

    /** Drops the object with the largest next access time. */
    method Evict() returns (ghost v: Obj)
      requires Consistent() && TableExact(table, tr, vtime) && table != map[]
      modifies this`table, this`nObj, this`occupied, this`evicted, pq`size, pq.d, pq.Members()`pos
      ensures Consistent() && TableExact(table, tr, vtime)
      ensures v in old(table) && table == old(table) - {v} && IsFarthest(tr, vtime, old(table.Keys), v)
      ensures evicted == OneMore(old(evicted), old(table)[v].kind)
      ensures pq.Members() <= old(pq.Members()) && pq.d == old(pq.d)
    {
      hide PQueue.Queue.Valid, Mirrors, Counters, IsFarthest, TableExact, Consistent, OneMore;
      Parts();
      var node := Dequeue();
      v := node.objId;
      DropEntry(node.objId);
    }

    /** The rest of an eviction, once the node has left the queue. */
    method DropEntry(obj: Obj)
      requires vtime <= |tr| < NEVER && pq.Valid() && Mirrors(pq.Members(), table - {obj})
      requires Counters(|table|, Bytes(table)) && TableExact(table, tr, vtime) && obj in table
      modifies this`table, this`nObj, this`occupied, this`evicted
      ensures Consistent() && TableExact(table, tr, vtime) && table == old(table) - {obj}
      ensures evicted == OneMore(old(evicted), old(table)[obj].kind)
    {
      hide PQueue.Queue.Valid, Mirrors, Counters, TableExact, Consistent, OneMore, Bytes;
      TableWithout(table, tr, vtime, obj);
      MapLess(table, obj);
      BytesRemove(table, obj);
      CountOut(table[obj].size, table[obj].kind, |table|, Bytes(table));
      table := table - {obj};
      Parts();
    }

    /** Request vtime of the trace comes in. */
    method Tick(ghost req: TimedRequest)
      requires Valid() && vtime < |tr| && req.obj == tr[vtime]
      requires req.nextAccess == NextTime(tr, req.obj, vtime + 1)
      modifies this`vtime, this`nReq
      ensures vtime == old(vtime) + 1 && nReq == old(nReq) + 1 && vtime <= |tr| && miss < vtime
      ensures Consistent() && Serving(req)
    {
      hide PQueue.Queue.Valid, Mirrors, TableExact;
      TableAdvance(table, tr, vtime);
      vtime := vtime + 1;
      nReq := nReq + 1;
    }

    lemma CountersSay()
      requires Counters(|table|, Bytes(table))
      ensures occupied == Bytes(table) <= cacheSize && (occupied > 0 ==> table != map[])
    {
    }

    /** Evicts until the object fits. The victims are listed in order. */
    method MakeRoom(req: TimedRequest) returns (ghost victims: seq<Obj>)
      requires Consistent() && TableExact(table, tr, vtime) && req.obj !in table && req.size <= cacheSize
      modifies this`table, this`nObj, this`occupied, this`evicted, pq`size, pq.d, pq.Members()`pos
      ensures Consistent() && TableExact(table, tr, vtime) && req.obj !in table && Bytes(table) + req.size <= cacheSize
      ensures table == Left(old(table), victims)
      ensures Dropped(cacheSize, tr, vtime, old(table), victims, req.size)
      ensures pq.Members() <= old(pq.Members()) && pq.d == old(pq.d)
    {
      hide PQueue.Queue.Valid, Mirrors, Counters, IsFarthest, TableExact, Bytes, Left, Dropped;
      victims := [];
      DroppedNone(cacheSize, tr, vtime, table, req.size);
      CountersSay();
      while occupied + req.size > cacheSize
        invariant Consistent() && TableExact(table, tr, vtime) && req.obj !in table && occupied == Bytes(table)
        invariant occupied > 0 ==> table != map[]
        invariant table == Left(old(table), victims)
        invariant Dropped(cacheSize, tr, vtime, old(table), victims, req.size)
        invariant pq.Members() <= old(pq.Members()) && pq.d == old(pq.d)
        decreases |table|
      {
        ghost var before := table;
        ghost var v := Evict();
        MapLess(before, v);
        DroppedMore(cacheSize, tr, vtime, old(table), victims, req.size, v);
        victims := victims + [v];
        CountersSay();
      }
    }

    lemma StillServing(req: TimedRequest)
      requires 1 <= vtime <= |tr| && req.obj == tr[vtime - 1] && TableExact(table, tr, vtime)
      requires req.nextAccess == NextTime(tr, req.obj, vtime) && req.obj !in table
      ensures Serving(req)
    {
      TableWithout(table, tr, vtime, req.obj);
    }

    /** The miss path of a request. */
    method Admit(req: TimedRequest) returns (ok: bool, ghost victims: seq<Obj>)
      requires 1 <= vtime <= |tr| && req.obj == tr[vtime - 1] && Consistent() && TableExact(table, tr, vtime)
      requires req.nextAccess == NextTime(tr, req.obj, vtime)
      requires req.obj !in table && req.size <= cacheSize && miss < vtime
      modifies this`miss, this`table, this`nObj, this`occupied, this`evicted, pq, pq.d, pq.Members()
      ensures ok == InRange(cacheSize, old(miss) + 1, vtime) && miss == old(miss) + 1
      ensures ok ==> Consistent() && TableExact(table, tr, vtime)
      ensures Dropped(cacheSize, tr, vtime, old(table), victims, req.size)
      ensures Bytes(Left(old(table), victims)) + req.size <= cacheSize
      ensures ok ==> Joined(Left(old(table), victims), req)
      ensures fresh(pq.Members() - old(pq.Members())) && (pq.d == old(pq.d) || fresh(pq.d))
    {
      hide PQueue.Queue.Valid, IsFarthest, TableExact, Dropped, Left, Bytes, Consistent, Serving, InRange, IsNew;
      victims := MakeRoom(req);
      StillServing(req);
      ghost var left := table;
      ok := Insert(req);
      if ok {
        NewIs(req);
      }
    }

    /** The object has joined those that were left. */
    ghost predicate Joined(left: map<Obj, CacheObj>, req: TimedRequest)
      reads this`table
    {
      && table.Keys == left.Keys + {req.obj} && table[req.obj].size == req.size && table[req.obj].freq == 0
      && forall o :: o in left ==> o in table && table[o] == left[o]
    }

    lemma NewIs(req: TimedRequest)
      requires req.obj in table && IsNew(table[req.obj], req.nextAccess, req.size)
      ensures table[req.obj].size == req.size && table[req.obj].freq == 0
    {
    }

    lemma UnitStep(before: map<Obj, CacheObj>, victims: seq<Obj>, req: TimedRequest)
      requires 1 <= vtime <= |tr| && tr[vtime - 1] == req.obj && req.obj !in before && Unit(before) && req.size == 1
      requires Bytes(before) <= cacheSize && Bytes(Left(before, victims)) + 1 <= cacheSize
      requires Dropped(cacheSize, tr, vtime, before, victims, 1) && Joined(Left(before, victims), req)
      ensures Unit(table) && BeladyStep(tr, cacheSize, vtime - 1, before.Keys, table.Keys)
    {
      hide Bytes, IsFarthest, Dropped, BeladyStep;
      RoomIsBelady(cacheSize, tr, vtime - 1, before, table.Keys, victims);
    }

    /** One request. The object is found, brought in after as many evictions as it takes, or too large. */
    method Get(req: TimedRequest) returns (ok: bool, hit: bool, ghost victims: seq<Obj>)
      requires Valid() && vtime < |tr| && req.obj == tr[vtime]
      requires req.nextAccess == NextTime(tr, req.obj, vtime + 1)
      modifies this, pq, pq.d, pq.Members()
      ensures vtime == old(vtime) + 1 && hit == (req.obj in old(table)) && nRemoved == old(nRemoved)
      ensures miss == old(miss) + if hit || req.size > cacheSize then 0 else 1
      ensures ok == (hit || req.size > cacheSize || InRange(cacheSize, miss, vtime))
      ensures ok ==> Valid()
      ensures hit || req.size > cacheSize ==> table.Keys == old(table.Keys)
      ensures hit ==> Refreshed(old(table)[req.obj], table[req.obj], req.nextAccess)
      ensures ok && !hit && req.size <= cacheSize ==>
        Dropped(cacheSize, tr, vtime, old(table), victims, req.size) && Joined(Left(old(table), victims), req)
      ensures ok && old(Unit(table)) && req.size == 1 && cacheSize >= 1 ==>
        Unit(table) && BeladyStep(tr, cacheSize, old(vtime), old(table.Keys), table.Keys)
      ensures fresh(pq.Members() - old(pq.Members())) && (pq.d == old(pq.d) || fresh(pq.d))
    {
      hide PQueue.Queue.Valid, Consistent, TableExact, Serving, Dropped, Left, Bytes, InRange, Joined, Refreshed, Unit,
        BeladyStep, Far, NextTime;
      Tick(req);
      victims := [];
      hit := Find(req, true);
      if hit {
        HitUnit(old(table), req);
        StepHit(tr, cacheSize, vtime - 1, table.Keys);
      }
      if hit || req.size > cacheSize {
        return true, hit, [];
      }
      nInsert := nInsert + 1;
      Held();
      ghost var before := table;
      ok, victims := Admit(req);
      if ok && Unit(before) && req.size == 1 {
        UnitStep(before, victims, req);
      }
    }

    lemma HitUnit(before: map<Obj, CacheObj>, req: TimedRequest)
      requires table.Keys == before.Keys && req.obj in before
      requires Refreshed(before[req.obj], table[req.obj], req.nextAccess)
      requires forall o :: o in table && o != req.obj ==> table[o] == before[o]
      ensures Unit(before) ==> Unit(table)
    {
    }

    lemma Held()
      requires Consistent()
      ensures Bytes(table) <= cacheSize
    {
    }

    method CountRemoved(size: nat, ghost n: nat, ghost bytes: nat)
      requires Counters(n, bytes) && n >= 1 && bytes >= size
      modifies this`nRemoved, this`nObj, this`occupied
      ensures Counters(n - 1, bytes - size)
    {
      occupied, nObj := occupied - size, nObj - 1;
      nRemoved := nRemoved + 1;
    }

    /** Takes o out, wherever its node stands in the queue. */
    method Remove(o: Obj) returns (found: bool)
      requires Valid()
      modifies this`table, this`nObj, this`occupied, this`nRemoved, pq`size, pq.d, pq.Members()`pos
      ensures Valid() && found == (o in old(table)) && table == old(table) - {o}
    {
      hide PQueue.Queue.Valid, Mirrors, Counters, TableExact, Consistent, Bytes;
      Parts();
      if o !in table {
        return false;
      }
      RemoveObj(o);
      return true;
    }

    method RemoveObj(o: Obj)
      requires vtime <= |tr| && Consistent() && TableExact(table, tr, vtime) && o in table
      modifies this`table, this`nObj, this`occupied, this`nRemoved, pq`size, pq.d, pq.Members()`pos
      ensures Consistent() && TableExact(table, tr, vtime) && table == old(table) - {o}
    {
      hide PQueue.Queue.Valid, Mirrors, Counters, TableExact, EntryExact, Consistent, Bytes;
      Parts();
      var node := table[o].pqNode;
      NodeOf(o);
      MirrorsWithout(pq.Members(), table, node);
      pq.Remove(node);
      Forget(o);
    }

    /** The rest of a removal, once the node has left the queue. */
    method Forget(o: Obj)
      requires vtime <= |tr| < NEVER && pq.Valid() && Mirrors(pq.Members(), table - {o})
      requires Counters(|table|, Bytes(table)) && TableExact(table, tr, vtime) && o in table
      modifies this`table, this`nObj, this`occupied, this`nRemoved
      ensures Consistent() && TableExact(table, tr, vtime) && table == old(table) - {o}
    {
      hide PQueue.Queue.Valid, Mirrors, Counters, TableExact, EntryExact, Consistent, Bytes;
      TableWithout(table, tr, vtime, o);
      MapLess(table, o);
      BytesRemove(table, o);
      CountRemoved(table[o].size, |table|, Bytes(table));
      table := table - {o};
      Parts();
    }

    lemma NodeOf(o: Obj)
      requires Mirrors(pq.Members(), table) && o in table
      ensures table[o].pqNode in pq.Members() && table[o].pqNode.objId == o
    {
    }

    /** The object that would be evicted next. */
    method ToEvict() returns (v: Obj)
      requires Valid() && table != map[]
      ensures IsFarthest(tr, vtime, table.Keys, v)
    {
      hide PQueue.Queue.Valid;
      ghost var o :| o in table;
      assert table[o].pqNode in pq.Members();
      var node := pq.Peek();
      FarthestNode(pq.Members(), table, tr, vtime, node);
      return node.objId;
    }
  }

  /** A whole trace of objects of size one. Unless the code aborts, no cache of the same size that puts
      missed objects in misses fewer requests. Whether it aborts, and when, depends on the trace and the
      capacity alone: all runs of the rule say the same. */
  method Simulate(reqs: seq<TimedRequest>, cacheSize: nat, n: nat)
    returns (ok: bool, misses: nat, ghost run: seq<set<Obj>>)
    requires Exact(reqs) && cacheSize >= 1 && |reqs| < NEVER && forall i :: 0 <= i < |reqs| ==> reqs[i].size == 1
    ensures ok <==> Survives(Objects(reqs), cacheSize)
    ensures ok ==> IsBeladyRun(Objects(reqs), cacheSize, run) && misses == Misses(Objects(reqs), run, |reqs|)
    ensures ok ==> forall d :: IsRun(Objects(reqs), cacheSize, d) ==> misses <= Misses(Objects(reqs), d, |reqs|)
    ensures !ok ==> AbortsAt(Objects(reqs), cacheSize, run)
  {
    hide Cache.Valid, BeladyStep, Exact, RunUpTo, Outgrows, InRange, IsBeladyPrefix, Survives, AbortsAt;
    ghost var tr := Objects(reqs);
    var cache := new Cache(cacheSize, n, tr);
    run := [{}];
    RunStart(tr, cacheSize);
    assert cache.table.Keys == {};
    for i := 0 to |reqs|
      invariant cache.Valid() && cache.vtime == i && cache.tr == tr && cache.cacheSize == cacheSize && Unit(cache.table)
      invariant fresh(cache) && fresh(cache.pq) && fresh(cache.pq.d) && fresh(cache.pq.Members())
      invariant RunUpTo(tr, cacheSize, run, i, cache.table.Keys, cache.miss) && |run| == i + 1
      invariant forall k :: 0 <= k < i ==> !Outgrows(tr, cacheSize, run, k)
    {
      ExactAt(reqs, i);
      ghost var before, missed := cache.table.Keys, cache.miss;
      var fine, hit, _ := cache.Get(reqs[i]);
      OutgrowsIff(tr, cacheSize, run, i, before, missed);
      if !fine {
        RunSoFar(tr, cacheSize, run, i, before, missed);
        Aborted(tr, cacheSize, run);
        return false, 0, run;
      }
      RunStep(tr, cacheSize, run, i, before, cache.table.Keys, missed);
      StillFine(tr, cacheSize, run, run + [cache.table.Keys], i);
      run := run + [cache.table.Keys];
    }
    ok, misses := true, cache.miss;
    RunEnd(tr, cacheSize, run, cache.table.Keys, misses);
    Survived(tr, cacheSize, run);
    forall d | IsRun(tr, cacheSize, d) ensures misses <= Misses(tr, d, |reqs|) {
      BeladyIsOptimal(tr, cacheSize, run, d);
    }
  }

  // ---- when the simulation aborts -------------------------------------------------------------------------

  /** No run of the rule gets out of range. */
  ghost predicate Survives(tr: seq<Obj>, c: nat) {
    forall b, k :: IsBeladyRun(tr, c, b) && 0 <= k < |tr| ==> !Outgrows(tr, c, b, k)
  }

  /** The last of these states is the first in which the next request is out of range, in every run of the
      rule. */
  ghost predicate AbortsAt(tr: seq<Obj>, c: nat, run: seq<set<Obj>>) {
    && 1 <= |run| <= |tr| && IsBeladyPrefix(tr, c, run)
    && forall b, k :: IsBeladyRun(tr, c, b) && 0 <= k < |run| ==> (Outgrows(tr, c, b, k) <==> k == |run| - 1)
  }

  /** Request k is missed, and too few requests were missed so far for the size of the cache. */
  ghost predicate Outgrows(tr: seq<Obj>, c: nat, run: seq<set<Obj>>, k: nat)
    requires k < |tr| && k < |run|
  {
    tr[k] !in run[k] && c * (k + 1) > NEVER * (Misses(tr, run, k) + 1)
  }

  lemma OutgrowsIff(tr: seq<Obj>, c: nat, run: seq<set<Obj>>, k: nat, now: set<Obj>, misses: nat)
    requires k < |tr| && RunUpTo(tr, c, run, k, now, misses)
    ensures k < |run| && (Outgrows(tr, c, run, k) <==> tr[k] !in now && !InRange(c, misses + 1, k + 1))
  {
    hide BeladyStep;
  }

  /** All runs of the rule get out of range at the same requests. */
  lemma OutgrowsAlike(tr: seq<Obj>, c: nat, b: seq<set<Obj>>, d: seq<set<Obj>>, k: nat)
    requires k < |tr| < NEVER && c >= 1 && IsBeladyRun(tr, c, b) && IsBeladyRun(tr, c, d)
    ensures Outgrows(tr, c, b, k) <==> Outgrows(tr, c, d, k)
  {
    SameMisses(tr, c, b, d, k);
  }

  lemma Survived(tr: seq<Obj>, c: nat, run: seq<set<Obj>>)
    requires |tr| < NEVER && c >= 1 && IsBeladyRun(tr, c, run)
    requires forall k :: 0 <= k < |tr| ==> !Outgrows(tr, c, run, k)
    ensures Survives(tr, c)
  {
    hide Outgrows, BeladyStep;
    forall b, k | IsBeladyRun(tr, c, b) && 0 <= k < |tr| ensures !Outgrows(tr, c, b, k) {
      OutgrowsAlike(tr, c, run, b, k);
    }
  }

  lemma Aborted(tr: seq<Obj>, c: nat, run: seq<set<Obj>>)
    requires |tr| < NEVER && c >= 1 && IsBeladyPrefix(tr, c, run) && |run| <= |tr|
    requires forall k :: 0 <= k < |run| - 1 ==> !Outgrows(tr, c, run, k)
    requires Outgrows(tr, c, run, |run| - 1)
    ensures AbortsAt(tr, c, run) && !Survives(tr, c)
  {
    hide Outgrows, BeladyStep;
    var whole := Extend(tr, c, run);
    forall b, k | IsBeladyRun(tr, c, b) && 0 <= k < |run| ensures Outgrows(tr, c, b, k) <==> k == |run| - 1 {
      OutgrowsPrefix(tr, c, run, whole, k);
      OutgrowsAlike(tr, c, whole, b, k);
    }
    OutgrowsPrefix(tr, c, run, whole, |run| - 1);
  }

  lemma OutgrowsPrefix(tr: seq<Obj>, c: nat, run: seq<set<Obj>>, whole: seq<set<Obj>>, k: nat)
    requires k < |run| <= |tr| && |run| <= |whole| && whole[..|run|] == run
    ensures Outgrows(tr, c, run, k) <==> Outgrows(tr, c, whole, k)
  {
    MissesPrefix(tr, run, whole, k);
    assert whole[..|run|][k] == whole[k];
  }

  /** A caller can tell from the trace: the first requests for its objects decide. */
  ghost predicate FirstsInRange(tr: seq<Obj>, c: nat) {
    forall k :: 0 <= k < |tr| && tr[k] !in tr[..k] ==> InRange(c, |Elems(tr[..k])| + 1, k + 1)
  }

  /** This holds for a cache that has room for all objects of the trace, and for one that is small enough for
      its length. */
  lemma SurvivesIff(tr: seq<Obj>, c: nat)
    requires |tr| < NEVER && c >= 1 && (c >= |Elems(tr)| || c * |tr| <= NEVER)
    ensures Survives(tr, c) <==> FirstsInRange(tr, c)
  {
    hide InRange, BeladyStep;
    var run := Extend(tr, c, [{}]);
    if c * |tr| <= NEVER {
      forall k | 0 <= k < |tr| ensures InRange(c, |Elems(tr[..k])| + 1, k + 1) {
        FitsInRange(c, |tr|, |Elems(tr[..k])| + 1, k + 1);
      }
      forall b, k | IsBeladyRun(tr, c, b) && 0 <= k < |tr| ensures !Outgrows(tr, c, b, k) {
        OutgrowsMeans(tr, c, b, k);
        FitsInRange(c, |tr|, Misses(tr, b, k) + 1, k + 1);
      }
    } else {
      forall b, k | IsBeladyRun(tr, c, b) && 0 <= k < |tr|
        ensures !Outgrows(tr, c, b, k) <==> (tr[k] !in tr[..k] ==> InRange(c, |Elems(tr[..k])| + 1, k + 1))
      {
        OutgrowsMeans(tr, c, b, k);
        RoomyRun(tr, c, b, k);
      }
    }
  }

  lemma OutgrowsMeans(tr: seq<Obj>, c: nat, run: seq<set<Obj>>, k: nat)
    requires k < |tr| && k < |run|
    ensures Outgrows(tr, c, run, k) <==> tr[k] !in run[k] && !InRange(c, Misses(tr, run, k) + 1, k + 1)
  {
  }

  /** For up to three thousand million requests one of the two is the case. */
  lemma SurvivesIffShort(tr: seq<Obj>, c: nat)
    requires |tr| * |tr| <= NEVER && c >= 1
    ensures Survives(tr, c) <==> FirstsInRange(tr, c)
  {
    ElemsSize(tr);
    if c < |tr| {
      assert c * |tr| <= |tr| * |tr|;
    }
    assert |tr| >= 2 ==> |tr| < |tr| * |tr|;
    SurvivesIff(tr, c);
  }

  /** Two requests for one object and one for another abort in the largest cache. */
  lemma LargestCacheAborts(x: Obj, y: Obj)
    requires x != y
    ensures !Survives([x, x, y], NEVER)
  {
    var tr := [x, x, y];
    assert tr[..2] == [x, x];
    assert Elems([x, x]) == {x} && Elems(tr) == {x, y};
    assert tr[2] !in tr[..2];
    SurvivesIffShort(tr, NEVER);
  }

  lemma StillFine(tr: seq<Obj>, c: nat, run: seq<set<Obj>>, run': seq<set<Obj>>, n: nat)
    requires n < |tr| && |run| == n + 1 && |run'| == n + 2 && run == run'[..n + 1]
    requires forall k :: 0 <= k <= n ==> !Outgrows(tr, c, run, k)
    ensures forall k :: 0 <= k <= n ==> !Outgrows(tr, c, run', k)
  {
    forall k | 0 <= k <= n ensures !Outgrows(tr, c, run', k) {
      assert !Outgrows(tr, c, run, k);
      MissesPrefix(tr, run, run', k);
    }
  }

  /** The first n steps of a Belady run, which end with these contents and so many misses. */
  ghost predicate RunUpTo(tr: seq<Obj>, c: nat, run: seq<set<Obj>>, n: nat, now: set<Obj>, misses: nat)
    requires n <= |tr|
  {
    && |run| == n + 1 && run[0] == {} && run[n] == now && misses == Misses(tr, run, n)
    && forall k :: 0 <= k < n ==> BeladyStep(tr, c, k, run[k], run[k + 1])
  }

  lemma RunSoFar(tr: seq<Obj>, c: nat, run: seq<set<Obj>>, n: nat, now: set<Obj>, misses: nat)
    requires n <= |tr| && RunUpTo(tr, c, run, n, now, misses)
    ensures IsBeladyPrefix(tr, c, run)
  {
    hide BeladyStep;
  }

  lemma RunStart(tr: seq<Obj>, c: nat)
    ensures RunUpTo(tr, c, [{}], 0, {}, 0)
  {
  }

  lemma RunStep(tr: seq<Obj>, c: nat, run: seq<set<Obj>>, n: nat, before: set<Obj>, after: set<Obj>, misses: nat)
    requires n < |tr| && RunUpTo(tr, c, run, n, before, misses) && BeladyStep(tr, c, n, before, after)
    ensures RunUpTo(tr, c, run + [after], n + 1, after, misses + if tr[n] in before then 0 else 1)
  {
    hide BeladyStep;
    MissesPrefix(tr, run, run + [after], n);
  }

  lemma RunEnd(tr: seq<Obj>, c: nat, run: seq<set<Obj>>, now: set<Obj>, misses: nat)
    requires RunUpTo(tr, c, run, |tr|, now, misses)
    ensures IsBeladyRun(tr, c, run) && misses == Misses(tr, run, |tr|)
  {
  }

  lemma ExactAt(reqs: seq<TimedRequest>, i: nat)
    requires Exact(reqs) && i < |reqs|
    ensures reqs[i].nextAccess == NextTime(Objects(reqs), reqs[i].obj, i + 1)
  {
  }

  lemma {:induction false} MissesPrefix(tr: seq<Obj>, a: seq<set<Obj>>, b: seq<set<Obj>>, n: nat)
    requires n <= |tr| && n < |a| <= |b| && a == b[..|a|]
    ensures Misses(tr, a, n) == Misses(tr, b, n)
  {
    if n > 0 {
      MissesPrefix(tr, a, b, n - 1);
    }
  }
}
