/** The ARC cache as it is coded: four lists, their byte counts, the target p, and objects of any size. */
module ArcCache {
  import opened Lists
  import opened Recency
  import opened ArcPolicy

  datatype Entry = Entry(size: nat, lruId: int, isGhost: bool)

  // ---- bytes -----------------------------------------------------------------------------------

  ghost function SizeOf(table: map<Obj, Entry>, o: Obj): nat {
    if o in table then table[o].size else 0
  }

  ghost function Bytes(table: map<Obj, Entry>, s: seq<Obj>): nat {
    if s == [] then 0 else SizeOf(table, s[0]) + Bytes(table, s[1..])
  }

  lemma {:induction false} BytesConcat(table: map<Obj, Entry>, a: seq<Obj>, b: seq<Obj>)
    ensures Bytes(table, a + b) == Bytes(table, a) + Bytes(table, b)
  {
    if a == [] {
      assert a + b == b;
    } else {
      assert (a + b)[1..] == a[1..] + b;
      BytesConcat(table, a[1..], b);
    }
  }

  lemma {:induction false} BytesSame(table: map<Obj, Entry>, table': map<Obj, Entry>, s: seq<Obj>)
    requires forall o :: o in s ==> SizeOf(table, o) == SizeOf(table', o)
    ensures Bytes(table, s) == Bytes(table', s)
  {
    if s != [] {
      BytesSame(table, table', s[1..]);
    }
  }

  lemma {:induction false} BytesWithout(table: map<Obj, Entry>, s: seq<Obj>, o: Obj)
    requires NoDup(s) && o in s
    ensures Bytes(table, Without(s, o)) == Bytes(table, s) - SizeOf(table, o)
  {
    if s[0] == o {
      WithoutAbsent(s[1..], o);
    } else {
      BytesWithout(table, s[1..], o);
      assert Without(s, o)[1..] == Without(s[1..], o);
    }
  }

  lemma {:induction false} BytesPositive(table: map<Obj, Entry>, s: seq<Obj>)
    requires forall o :: o in s ==> SizeOf(table, o) >= 1
    ensures Bytes(table, s) >= |s|
    ensures (forall o :: o in s ==> SizeOf(table, o) == 1) ==> Bytes(table, s) == |s|
  {
    if s != [] {
      BytesPositive(table, s[1..]);
    }
  }

  // ---- the table and the lists ---------------------------------------------------------------------

  ghost predicate Lists1(table: map<Obj, Entry>, s: seq<Obj>, lruId: int, isGhost: bool) {
    && NoDup(s)
    && forall o :: o in s <==> o in table && table[o].lruId == lruId && table[o].isGhost == isGhost
  }

  /** Every known object is in the list that its entry names, once. */
  ghost predicate Placed(table: map<Obj, Entry>, s: State) {
    && Lists1(table, s.t1, 1, false) && Lists1(table, s.b1, 1, true)
    && Lists1(table, s.t2, 2, false) && Lists1(table, s.b2, 2, true)
    && forall o :: o in table ==> table[o].size >= 1 && 1 <= table[o].lruId <= 2
  }

  ghost predicate SameSizes(table: map<Obj, Entry>, table': map<Obj, Entry>) {
    table.Keys == table'.Keys && forall o :: o in table ==> table[o].size == table'[o].size
  }

  /** The last object of one list goes to the front of another, and its entry says so. */
  lemma Moved(table: map<Obj, Entry>, a: seq<Obj>, b: seq<Obj>, lruId: int, isGhost: bool, lruId': int, isGhost': bool,
              o: Obj)
    requires Lists1(table, a, lruId, isGhost) && Lists1(table, b, lruId', isGhost')
    requires o in a && (lruId != lruId' || isGhost != isGhost')
    ensures var table' := table[o := table[o].(lruId := lruId', isGhost := isGhost')];
      && Lists1(table', Without(a, o), lruId, isGhost) && Lists1(table', [o] + b, lruId', isGhost')
      && Bytes(table', Without(a, o)) == Bytes(table, a) - table[o].size
      && Bytes(table', [o] + b) == Bytes(table, b) + table[o].size
  {
    var table' := table[o := table[o].(lruId := lruId', isGhost := isGhost')];
    WithoutNoDup(a, o);
    BytesWithout(table, a, o);
    BytesSame(table, table', Without(a, o));
    assert ([o] + b)[1..] == b;
    BytesSame(table, table', b);
  }

  lemma Unmoved(table: map<Obj, Entry>, table': map<Obj, Entry>, s: seq<Obj>, lruId: int, isGhost: bool, o: Obj)
    requires Lists1(table, s, lruId, isGhost)
    requires forall x :: x != o ==> (x in table <==> x in table') && (x in table ==> table[x] == table'[x])
    requires o in table ==> table[o].lruId != lruId || table[o].isGhost != isGhost
    requires o in table' ==> table'[o].lruId != lruId || table'[o].isGhost != isGhost
    ensures Lists1(table', s, lruId, isGhost)
    ensures Bytes(table', s) == Bytes(table, s)
  {
    BytesSame(table, table', s);
  }

  lemma Dropped(table: map<Obj, Entry>, s: seq<Obj>, lruId: int, isGhost: bool, o: Obj)
    requires Lists1(table, s, lruId, isGhost) && o in s
    ensures Lists1(table - {o}, Without(s, o), lruId, isGhost)
    ensures Bytes(table - {o}, Without(s, o)) == Bytes(table, s) - table[o].size
  {
    WithoutNoDup(s, o);
    BytesWithout(table, s, o);
    BytesSame(table, table - {o}, Without(s, o));
  }

  lemma Added(table: map<Obj, Entry>, s: seq<Obj>, o: Obj, e: Entry)
    requires Lists1(table, s, e.lruId, e.isGhost) && o !in table
    ensures Lists1(table[o := e], [o] + s, e.lruId, e.isGhost)
    ensures Bytes(table[o := e], [o] + s) == Bytes(table, s) + e.size
  {
    assert ([o] + s)[1..] == s;
    BytesSame(table, table[o := e], s);
  }

  lemma FrontIsWithout(s: seq<Obj>)
    requires NoDup(s) && s != []
    ensures Front(s) == Without(s, s[|s| - 1]) && Back(s) == [s[|s| - 1]]
  {
    hide NoDup, Without;
    WithoutAt(s, |s| - 1);
    assert s[..|s| - 1] + s[|s|..] == s[..|s| - 1];
  }

  datatype Sizes = Sizes(t1: int, b1: int, t2: int, b2: int)

  ghost function SizesOf(table: map<Obj, Entry>, s: State): Sizes {
    Sizes(Bytes(table, s.t1), Bytes(table, s.b1), Bytes(table, s.t2), Bytes(table, s.b2))
  }

  ghost predicate Unit(table: map<Obj, Entry>) {
    forall o :: o in table ==> table[o].size == 1
  }

  lemma SizesTell(table: map<Obj, Entry>, s: State)
    requires Placed(table, s)
    ensures var z := SizesOf(table, s);
      && z.t1 >= |s.t1| && z.b1 >= |s.b1| && z.t2 >= |s.t2| && z.b2 >= |s.b2|
      && (s.t1 == [] ==> z.t1 == 0) && (s.b1 == [] ==> z.b1 == 0)
      && (s.t2 == [] ==> z.t2 == 0) && (s.b2 == [] ==> z.b2 == 0)
      && (Unit(table) ==> z == Sizes(|s.t1|, |s.b1|, |s.t2|, |s.b2|))
  {
    BytesPositive(table, s.t1);
    BytesPositive(table, s.b1);
    BytesPositive(table, s.t2);
    BytesPositive(table, s.b2);
  }

  lemma LastIn(table: map<Obj, Entry>, s: seq<Obj>, lruId: int, isGhost: bool)
    requires Lists1(table, s, lruId, isGhost) && s != []
    ensures var o := s[|s| - 1];
      && o in s && o in table && table[o].lruId == lruId && table[o].isGhost == isGhost
      && Front(s) == Without(s, o) && Back(s) == [o]
  {
    FrontIsWithout(s);
  }

  // ---- what each step does to the table and the byte counts ------------------------------------------

  ghost function Ghosted(table: map<Obj, Entry>, o: Obj): map<Obj, Entry> {
    if o in table then table[o := table[o].(isGhost := true)] else table
  }

  ghost function DemotedT1(s: State): State {
    s.(t1 := Front(s.t1), b1 := Back(s.t1) + s.b1)
  }

  ghost function DemotedT2(s: State): State {
    s.(t2 := Front(s.t2), b2 := Back(s.t2) + s.b2)
  }

  /** The list that REPLACE takes from, by bytes. */
  predicate FromT1(t1Size: int, t2Size: int, p: real, inB2: bool) {
    || (t1Size > 0 && (t1Size as real > p || (t1Size as real == p && inB2)))
    || t2Size == 0
  }

  ghost function Demoted(s: State, fromT1: bool): State {
    if fromT1 then DemotedT1(s) else DemotedT2(s)
  }

  /** One eviction for size more bytes; seen says whether the object was a ghost. */
  ghost function EvictedFor(c: nat, table: map<Obj, Entry>, s: State, seen: bool, inB2: bool, size: nat): State {
    var z := SizesOf(table, s);
    var fromT1 := FromT1(z.t1, z.t2, s.p, inB2);
    if seen then Demoted(s, fromT1)
    else if z.t1 + z.b1 + size > c then
      if z.b1 > 0 then Demoted(s.(b1 := Front(s.b1)), fromT1) else s.(t1 := Front(s.t1))
    else if z.t1 + z.b1 + z.t2 + z.b2 >= 2 * c && z.b2 > 0 then Demoted(s.(b2 := Front(s.b2)), fromT1)
    else Demoted(s, fromT1)
  }

  /** Evictions until so many bytes fit. */
  ghost function RoomFor(c: nat, table: map<Obj, Entry>, s: State, seen: bool, inB2: bool, size: nat): State
    decreases |s.t1| + |s.t2|
  {
    var z, s' := SizesOf(table, s), EvictedFor(c, table, s, seen, inB2, size);
    if z.t1 + z.t2 + size <= c || |s'.t1| + |s'.t2| >= |s.t1| + |s.t2| then s
    else RoomFor(c, table, s', seen, inB2, size)
  }

  /** The object is at the front of T2 if it was a ghost, else of T1, once there is room. */
  ghost function BroughtIn(c: nat, table: map<Obj, Entry>, s: State, seen: bool, inB2: bool, req: Request): State {
    var r := RoomFor(c, table, s, seen, inB2, req.size);
    if seen then WithT2(r, req.obj) else WithT1(r, req.obj)
  }

  /** p after a look-up. */
  ghost function TargetAfter(c: nat, z: Sizes, s: State, x: Obj): real {
    if x in s.b1 && z.b1 > 0 && z.b2 >= 0 then Min(s.p + Delta(z.b1, z.b2), c as real)
    else if x in s.b2 && z.b2 > 0 && z.b1 >= 0 then Max(s.p - Delta(z.b2, z.b1), 0.0)
    else s.p
  }

  /** What a request for an object of any size makes of the lists, if it is not cached. The flag inB2 may be
      left over from an earlier request. */
  ghost function Missed(c: nat, table: map<Obj, Entry>, s: State, inB2: bool, req: Request): State {
    var x := req.obj;
    var seen := x in s.b1 || x in s.b2;
    var s' := State(s.t1, Without(s.b1, x), s.t2, Without(s.b2, x), TargetAfter(c, SizesOf(table, s), s, x));
    if req.size > c then s'
    else BroughtIn(c, table - {x}, s', seen, if seen then x in s.b2 else inB2, req)
  }

  /** Every known object has a size, as far as the lists go. */
  ghost predicate Sized(table: map<Obj, Entry>, s: State) {
    forall o :: o in s.L1() || o in s.L2() ==> SizeOf(table, o) >= 1
  }

  /** An eviction takes nothing but the end of a directory or two. */
  lemma EvictedCut(c: nat, table: map<Obj, Entry>, s: State, seen: bool, inB2: bool, size: nat)
    requires Sized(table, s)
    ensures var s' := EvictedFor(c, table, s, seen, inB2, size); Cut(s', s) && Sized(table, s')
  {
    hide Cut, Sized, Demoted, Front, Bytes, FromT1;
    FrontCuts(s);
    SomeBytes(table, s);
    DemotedCut(s, s);
    DemotedCut(s.(b1 := Front(s.b1)), s);
    DemotedCut(s.(b2 := Front(s.b2)), s);
    CutSized(table, EvictedFor(c, table, s, seen, inB2, size), s);
  }

  lemma FrontCuts(s: State)
    ensures Cut(s, s) && Cut(s.(b1 := Front(s.b1)), s) && Cut(s.(b2 := Front(s.b2)), s)
    ensures s.b1 == [] ==> Cut(s.(t1 := Front(s.t1)), s)
  {
  }

  lemma SomeBytes(table: map<Obj, Entry>, s: State)
    requires Sized(table, s)
    ensures Bytes(table, s.b1) == 0 ==> s.b1 == []
  {
    hide SizeOf;
    assert forall o :: o in s.b1 ==> o in s.L1();
    BytesPositive(table, s.b1);
  }

  lemma CutSized(table: map<Obj, Entry>, s: State, old_: State)
    requires Cut(s, old_) && Sized(table, old_)
    ensures Sized(table, s)
  {
    hide SizeOf;
    assert forall o :: o in s.L1() ==> o in old_.L1();
    assert forall o :: o in s.L2() ==> o in old_.L2();
  }

  lemma DemotedCut(s: State, old_: State)
    requires Cut(s, old_)
    ensures Cut(Demoted(s, true), old_) && Cut(Demoted(s, false), old_)
  {
    assert DemotedT1(s).L1() == s.L1() && DemotedT2(s).L2() == s.L2();
  }

  /** Nor do all the evictions for one object, and they take nothing if it fits. */
  lemma {:induction false} RoomCut(c: nat, table: map<Obj, Entry>, s: State, seen: bool, inB2: bool, size: nat)
    requires Sized(table, s)
    ensures Cut(RoomFor(c, table, s, seen, inB2, size), s)
    ensures SizesOf(table, s).t1 + SizesOf(table, s).t2 + size <= c ==> RoomFor(c, table, s, seen, inB2, size) == s
    decreases |s.t1| + |s.t2|
  {
    hide EvictedFor, SizesOf, Sized;
    var s' := EvictedFor(c, table, s, seen, inB2, size);
    RoomStep(c, table, s, seen, inB2, size);
    EvictedCut(c, table, s, seen, inB2, size);
    if |s'.t1| + |s'.t2| < |s.t1| + |s.t2| {
      RoomCut(c, table, s', seen, inB2, size);
    }
  }

  /** An eviction, by the bytes of the lists: T1 gives up its last object if T2 is empty or T1 has outgrown p, or
      as large as p if the object requested came from B2; also if it fills its directory alone. Otherwise T2 does. */
  lemma EvictionChoice(c: nat, table: map<Obj, Entry>, s: State, seen: bool, inB2: bool, size: nat)
    ensures var r := EvictedFor(c, table, s, seen, inB2, size);
      var n1, n2, g1, g2 := Bytes(table, s.t1), Bytes(table, s.t2), Bytes(table, s.b1), Bytes(table, s.b2);
      var last1, last2 := |s.t1| - 1, |s.t2| - 1;
      if !seen && n1 + g1 + size > c && g1 == 0 then
        s.t1 != [] ==> r == s.(t1 := s.t1[..last1])
      else
        var b1 := if !seen && n1 + g1 + size > c then Front(s.b1) else s.b1;
        var b2 := if !seen && n1 + g1 + size <= c && n1 + g1 + n2 + g2 >= 2 * c && g2 > 0 then Front(s.b2) else s.b2;
        if n2 == 0 || (n1 > 0 && (n1 as real > s.p || (n1 as real == s.p && inB2))) then
          s.t1 != [] ==> r == State(s.t1[..last1], [s.t1[last1]] + b1, s.t2, b2, s.p)
        else
          s.t2 != [] ==> r == State(s.t1, b1, s.t2[..last2], [s.t2[last2]] + b2, s.p)
  {
    hide Bytes, Demoted;
    DemotedPlain(s);
    DemotedPlain(s.(b1 := Front(s.b1)));
    DemotedPlain(s.(b2 := Front(s.b2)));
  }

  lemma DemotedPlain(s: State)
    ensures s.t1 != [] ==>
      Demoted(s, true) == State(s.t1[..|s.t1| - 1], [s.t1[|s.t1| - 1]] + s.b1, s.t2, s.b2, s.p)
    ensures s.t2 != [] ==>
      Demoted(s, false) == State(s.t1, s.b1, s.t2[..|s.t2| - 1], [s.t2[|s.t2| - 1]] + s.b2, s.p)
  {
  }

  /** How p moves on a request that is not a hit: by the bytes of the ghosts before it. */
  lemma MissedTarget(c: nat, table: map<Obj, Entry>, s: State, inB2: bool, req: Request)
    requires Placed(table, s) && 0.0 <= s.p <= c as real && req.obj !in s.t1 && req.obj !in s.t2
    ensures var q, g1, g2 := Missed(c, table, s, inB2, req).p, Bytes(table, s.b1), Bytes(table, s.b2);
      && (req.obj !in s.b1 && req.obj !in s.b2 ==> q == s.p)
      && (req.obj in s.b1 ==>
            var larger := if g2 > g1 then g2 else g1;
            && s.p <= q <= c as real && (q - s.p) * g1 as real <= larger as real
            && (q == c as real || (q - s.p) * g1 as real == larger as real))
      && (req.obj in s.b2 ==>
            var larger := if g1 > g2 then g1 else g2;
            && 0.0 <= q <= s.p && (s.p - q) * g2 as real <= larger as real
            && (q == 0.0 || (s.p - q) * g2 as real == larger as real))
  {
    hide Placed, Bytes, Delta, Max, Min, Missed;
    var q, g1, g2 := Missed(c, table, s, inB2, req).p, Bytes(table, s.b1), Bytes(table, s.b2);
    MissedIsTarget(c, table, s, inB2, req);
    SizesTell(table, s);
    WhereIs(table, s, req.obj);
    if req.obj in s.b1 {
      assert q == Min(s.p + Delta(g1, g2), c as real);
      RaisedTarget(s.p, g1, g2, c);
    } else if req.obj in s.b2 {
      assert q == Max(s.p - Delta(g2, g1), 0.0);
      LoweredTarget(s.p, g2, g1, c);
    }
  }

  /** Evictions leave p alone. */
  lemma MissedIsTarget(c: nat, table: map<Obj, Entry>, s: State, inB2: bool, req: Request)
    requires Placed(table, s) && req.obj !in s.t1 && req.obj !in s.t2
    ensures Missed(c, table, s, inB2, req).p == TargetAfter(c, SizesOf(table, s), s, req.obj)
  {
    hide Placed, SizesOf, TargetAfter, RoomFor, Without, Sized;
    LookedSized(table, s, req.obj);
    var x := req.obj;
    var q := TargetAfter(c, SizesOf(table, s), s, x);
    var s', seen := State(s.t1, Without(s.b1, x), s.t2, Without(s.b2, x), q), x in s.b1 || x in s.b2;
    RoomCut(c, table - {x}, s', seen, if seen then x in s.b2 else inB2, req.size);
  }

  lemma LookedSized(table: map<Obj, Entry>, s: State, x: Obj)
    requires Placed(table, s) && x !in s.t1 && x !in s.t2
    ensures forall q :: Sized(table - {x}, State(s.t1, Without(s.b1, x), s.t2, Without(s.b2, x), q))
  {
    hide Without;
  }

  lemma RoomStep(c: nat, table: map<Obj, Entry>, s: State, seen: bool, inB2: bool, size: nat)
    ensures var z, s' := SizesOf(table, s), EvictedFor(c, table, s, seen, inB2, size);
      && (z.t1 + z.t2 + size <= c ==> RoomFor(c, table, s, seen, inB2, size) == s)
      && (z.t1 + z.t2 + size > c && |s'.t1| + |s'.t2| < |s.t1| + |s.t2| ==>
            RoomFor(c, table, s, seen, inB2, size) == RoomFor(c, table, s', seen, inB2, size))
  {
    hide EvictedFor, SizesOf;
  }

  /** Objects that are still known have the size they had. */
  lemma SizesKept(table: map<Obj, Entry>, table0: map<Obj, Entry>, s: State)
    requires Placed(table, s) && Fewer(table, table0)
    ensures SizesOf(table, s) == SizesOf(table0, s)
  {
    BytesSame(table, table0, s.t1);
    BytesSame(table, table0, s.b1);
    BytesSame(table, table0, s.t2);
    BytesSame(table, table0, s.b2);
  }

  lemma EvictedAlike(c: nat, table: map<Obj, Entry>, table0: map<Obj, Entry>, s: State, seen: bool, inB2: bool,
                     size: nat)
    requires SizesOf(table, s) == SizesOf(table0, s)
    ensures EvictedFor(c, table, s, seen, inB2, size) == EvictedFor(c, table0, s, seen, inB2, size)
  {
  }

  lemma DemoteT1(table: map<Obj, Entry>, s: State)
    requires Placed(table, s) && s.t1 != []
    ensures var o := s.t1[|s.t1| - 1]; Back(s.t1) == [o] && o in table && table[o].size >= 1
    ensures var o := s.t1[|s.t1| - 1];
      var table', s', n := Ghosted(table, o), DemotedT1(s), SizeOf(table, o);
      && Placed(table', s') && SameSizes(table, table')
      && SizesOf(table', s') == SizesOf(table, s).(t1 := Bytes(table, s.t1) - n, b1 := Bytes(table, s.b1) + n)
  {
    hide Lists1, Bytes, Front, Back;
    var o := s.t1[|s.t1| - 1];
    LastIn(table, s.t1, 1, false);
    Moved(table, s.t1, s.b1, 1, false, 1, true, o);
    var table' := table[o := table[o].(lruId := 1, isGhost := true)];
    Unmoved(table, table', s.t2, 2, false, o);
    Unmoved(table, table', s.b2, 2, true, o);
  }

  lemma DemoteT2(table: map<Obj, Entry>, s: State)
    requires Placed(table, s) && s.t2 != []
    ensures var o := s.t2[|s.t2| - 1]; Back(s.t2) == [o] && o in table && table[o].size >= 1
    ensures var o := s.t2[|s.t2| - 1];
      var table', s', n := Ghosted(table, o), DemotedT2(s), SizeOf(table, o);
      && Placed(table', s') && SameSizes(table, table')
      && SizesOf(table', s') == SizesOf(table, s).(t2 := Bytes(table, s.t2) - n, b2 := Bytes(table, s.b2) + n)
  {
    hide Lists1, Bytes, Front, Back;
    var o := s.t2[|s.t2| - 1];
    LastIn(table, s.t2, 2, false);
    Moved(table, s.t2, s.b2, 2, false, 2, true, o);
    var table' := table[o := table[o].(lruId := 2, isGhost := true)];
    Unmoved(table, table', s.t1, 1, false, o);
    Unmoved(table, table', s.b1, 1, true, o);
  }

  /** o, known to the table, is forgotten. */
  lemma Forget(table: map<Obj, Entry>, s: State, o: Obj)
    requires Placed(table, s) && o in table
    ensures var s' := State(Without(s.t1, o), Without(s.b1, o), Without(s.t2, o), Without(s.b2, o), s.p);
      && Placed(table - {o}, s') && table[o].size >= 1
      && SizesOf(table - {o}, s') ==
           (var z, e := SizesOf(table, s), table[o];
            if e.lruId == 1 then if e.isGhost then z.(b1 := z.b1 - e.size) else z.(t1 := z.t1 - e.size)
            else if e.isGhost then z.(b2 := z.b2 - e.size) else z.(t2 := z.t2 - e.size))
    ensures OnlyListHolds(table, s, o)
  {
    hide Lists1, Bytes;
    ForgetList(table, s.t1, 1, false, o);
    ForgetList(table, s.b1, 1, true, o);
    ForgetList(table, s.t2, 2, false, o);
    ForgetList(table, s.b2, 2, true, o);
  }

  /** Taking o out of the lists that do not hold it changes nothing. */
  ghost predicate OnlyListHolds(table: map<Obj, Entry>, s: State, o: Obj)
    requires o in table
  {
    var e := table[o];
    && (e.lruId == 1 && !e.isGhost ==> o in s.t1)
    && (e.lruId != 1 || e.isGhost ==> o !in s.t1 && Without(s.t1, o) == s.t1)
    && (e.lruId == 1 && e.isGhost ==> o in s.b1)
    && (e.lruId != 1 || !e.isGhost ==> o !in s.b1 && Without(s.b1, o) == s.b1)
    && (e.lruId == 2 && !e.isGhost ==> o in s.t2)
    && (e.lruId != 2 || e.isGhost ==> o !in s.t2 && Without(s.t2, o) == s.t2)
    && (e.lruId == 2 && e.isGhost ==> o in s.b2)
    && (e.lruId != 2 || !e.isGhost ==> o !in s.b2 && Without(s.b2, o) == s.b2)
  }

  lemma ForgetList(table: map<Obj, Entry>, s: seq<Obj>, lruId: int, isGhost: bool, o: Obj)
    requires Lists1(table, s, lruId, isGhost) && o in table
    ensures Lists1(table - {o}, Without(s, o), lruId, isGhost)
    ensures var here := table[o].lruId == lruId && table[o].isGhost == isGhost;
      && here == (o in s) && (!here ==> Without(s, o) == s)
      && Bytes(table - {o}, Without(s, o)) == Bytes(table, s) - if here then table[o].size else 0
  {
    if o in s {
      Dropped(table, s, lruId, isGhost, o);
    } else {
      WithoutAbsent(s, o);
      Unmoved(table, table - {o}, s, lruId, isGhost, o);
    }
  }

  lemma ForgetInT1(table: map<Obj, Entry>, s: State, o: Obj)
    requires Placed(table, s) && o in s.t1
    ensures o in table && table[o].size >= 1 && Placed(table - {o}, s.(t1 := Without(s.t1, o)))
    ensures SizesOf(table - {o}, s.(t1 := Without(s.t1, o))) ==
      SizesOf(table, s).(t1 := SizesOf(table, s).t1 - table[o].size)
  {
    hide Placed, Bytes;
    WhereIs(table, s, o);
    Forget(table, s, o);
  }

  lemma ForgetInB1(table: map<Obj, Entry>, s: State, o: Obj)
    requires Placed(table, s) && o in s.b1
    ensures o in table && table[o].size >= 1 && Placed(table - {o}, s.(b1 := Without(s.b1, o)))
    ensures SizesOf(table - {o}, s.(b1 := Without(s.b1, o))) ==
      SizesOf(table, s).(b1 := SizesOf(table, s).b1 - table[o].size)
  {
    hide Placed, Bytes;
    WhereIs(table, s, o);
    Forget(table, s, o);
  }

  lemma ForgetInB2(table: map<Obj, Entry>, s: State, o: Obj)
    requires Placed(table, s) && o in s.b2
    ensures o in table && table[o].size >= 1 && Placed(table - {o}, s.(b2 := Without(s.b2, o)))
    ensures SizesOf(table - {o}, s.(b2 := Without(s.b2, o))) ==
      SizesOf(table, s).(b2 := SizesOf(table, s).b2 - table[o].size)
  {
    hide Placed, Bytes;
    WhereIs(table, s, o);
    Forget(table, s, o);
  }

  /** A new object at the front of T1 or T2. */
  lemma Admit(table: map<Obj, Entry>, s: State, o: Obj, e: Entry)
    requires Placed(table, s) && o !in table && e.size >= 1 && !e.isGhost && 1 <= e.lruId <= 2
    ensures var table' := table[o := e];
      var s' := if e.lruId == 1 then s.(t1 := [o] + s.t1) else s.(t2 := [o] + s.t2);
      && Placed(table', s')
      && SizesOf(table', s') ==
           (var z := SizesOf(table, s); if e.lruId == 1 then z.(t1 := z.t1 + e.size) else z.(t2 := z.t2 + e.size))
  {
    hide Lists1, Bytes;
    var table' := table[o := e];
    Unmoved(table, table', s.b1, 1, true, o);
    Unmoved(table, table', s.b2, 2, true, o);
    if e.lruId == 1 {
      Added(table, s.t1, o, e);
      Unmoved(table, table', s.t2, 2, false, o);
    } else {
      Added(table, s.t2, o, e);
      Unmoved(table, table', s.t1, 1, false, o);
    }
  }

  /** A hit: o goes to the front of T2. */
  lemma Promote(table: map<Obj, Entry>, s: State, o: Obj)
    requires Placed(table, s) && o in table && !table[o].isGhost
    ensures OnlyListHolds(table, s, o)
    ensures var e := table[o];
      var table' := table[o := e.(lruId := 2)];
      && Placed(table', Hit(s, o)) && SameSizes(table, table')
      && SizesOf(table', Hit(s, o)) ==
           (var z := SizesOf(table, s); if e.lruId == 1 then z.(t1 := z.t1 - e.size, t2 := z.t2 + e.size) else z)
  {
    hide Lists1, Bytes;
    Forget(table, s, o);
    var rest := State(Without(s.t1, o), Without(s.b1, o), Without(s.t2, o), Without(s.b2, o), s.p);
    Admit(table - {o}, rest, o, table[o].(lruId := 2));
    assert table[o := table[o].(lruId := 2)] == (table - {o})[o := table[o].(lruId := 2)];
  }

  class Cache {
    const cacheSize: nat
    var nReq: int
    var occupied: int
    var nObj: int
    var t1: seq<Obj>
    var b1: seq<Obj>
    var t2: seq<Obj>
    var b2: seq<Obj>
    var t1Size: int
    var b1Size: int
    var t2Size: int
    var b2Size: int
    var p: real
    var inB1: bool
    var inB2: bool
    var ghostTime: int    // the number of the last request that hit a ghost, until its object is inserted
    var table: map<Obj, Entry>
    ghost var past: seq<Obj>

    ghost function St(): State
      reads this`t1, this`b1, this`t2, this`b2, this`p
    {
      State(t1, b1, t2, b2, p)
    }

    /** The size fields are the byte counts of the lists; occupied is what T1 and T2 hold. */
    ghost predicate Consistent()
      reads this`t1, this`b1, this`t2, this`b2, this`p, this`table
      reads this`t1Size, this`b1Size, this`t2Size, this`b2Size, this`occupied, this`nObj
    {
      && Placed(table, St()) && SizesOf(table, St()) == Sizes(t1Size, b1Size, t2Size, b2Size)
      && occupied == t1Size + t2Size && nObj == |t1| + |t2|
    }

    constructor (cacheSize: nat)
      ensures Consistent() && St() == State([], [], [], [], 0.0) && table == map[] && nReq == 0
      ensures this.cacheSize == cacheSize && occupied == 0 && !inB1 && !inB2 && ghostTime == -1 && past == []
    {
      this.cacheSize := cacheSize;
      nReq, occupied, nObj := 0, 0, 0;
      t1, b1, t2, b2 := [], [], [], [];
      t1Size, b1Size, t2Size, b2Size := 0, 0, 0, 0;
      p, inB1, inB2, ghostTime, table, past := 0.0, false, false, -1, map[], [];
    }

    // ---- the ways to evict -----------------------------------------------------------------------

    method EvictT1()
      requires Consistent() && t1 != []
      modifies this`t1, this`b1, this`t1Size, this`b1Size, this`occupied, this`nObj, this`table
      ensures Consistent() && St() == DemotedT1(old(St()))
      ensures occupied < old(occupied) && SameSizes(old(table), table)
    {
      hide Placed, Bytes, SameSizes;
      DemoteT1(table, St());
      var obj := t1[|t1| - 1];
      var size := table[obj].size;
      occupied, nObj := occupied - size, nObj - 1;
      t1Size := t1Size - size;
      b1Size := b1Size + size;
      t1, b1 := t1[..|t1| - 1], [obj] + b1;
      table := table[obj := table[obj].(isGhost := true)];
    }

    method EvictT2()
      requires Consistent() && t2 != []
      modifies this`t2, this`b2, this`t2Size, this`b2Size, this`occupied, this`nObj, this`table
      ensures Consistent() && St() == DemotedT2(old(St()))
      ensures occupied < old(occupied) && SameSizes(old(table), table)
    {
      hide Placed, Bytes, SameSizes;
      DemoteT2(table, St());
      var obj := t2[|t2| - 1];
      var size := table[obj].size;
      t2Size := t2Size - size;
      b2Size := b2Size + size;
      t2, b2 := t2[..|t2| - 1], [obj] + b2;
      table := table[obj := table[obj].(isGhost := true)];
      occupied, nObj := occupied - size, nObj - 1;
    }

    method EvictT1NoGhost()
      requires Consistent() && t1 != []
      modifies this`t1, this`t1Size, this`occupied, this`nObj, this`table
      ensures Consistent() && t1 == old(Front(t1)) && occupied < old(occupied)
      ensures table == old(table) - {old(t1[|t1| - 1])}
    {
      hide Placed, Bytes, SizesOf, Front, Without;
      var obj := t1[|t1| - 1];
      LastKnown(table, St());
      ForgetInT1(table, St(), obj);
      FrontCount(t1);
      var size := table[obj].size;
      t1 := t1[..|t1| - 1];
      t1Size := t1Size - size;
      occupied, nObj := occupied - size, nObj - 1;
      table := table - {obj};
    }

    method EvictB1()
      requires Consistent() && b1 != []
      modifies this`b1, this`b1Size, this`table
      ensures Consistent() && b1 == old(Front(b1)) && table == old(table) - {old(b1[|b1| - 1])}
    {
      hide Placed, Bytes, SizesOf, Front, Without;
      var obj := b1[|b1| - 1];
      FrontCount(b1);
      LastKnown(table, St());
      ForgetInB1(table, St(), obj);
      b1Size := b1Size - table[obj].size;
      b1 := b1[..|b1| - 1];
      table := table - {obj};
    }

    method EvictB2()
      requires Consistent() && b2 != []
      modifies this`b2, this`b2Size, this`table
      ensures Consistent() && b2 == old(Front(b2)) && table == old(table) - {old(b2[|b2| - 1])}
    {
      hide Placed, Bytes, SizesOf, Front, Without;
      var obj := b2[|b2| - 1];
      FrontCount(b2);
      LastKnown(table, St());
      ForgetInB2(table, St(), obj);
      b2Size := b2Size - table[obj].size;
      b2 := b2[..|b2| - 1];
      table := table - {obj};
    }

    // ---- which way -----------------------------------------------------------------------------------

    predicate PicksT1()
      reads this`t1Size, this`t2Size, this`p, this`inB2
    {
      FromT1(t1Size, t2Size, p, inB2)
    }

    /** REPLACE. Something is cached, so the list it picks is not empty. */
    method Replace()
      requires Consistent() && occupied > 0
      modifies this`t1, this`b1, this`t2, this`b2, this`t1Size, this`b1Size, this`t2Size, this`b2Size
      modifies this`occupied, this`nObj, this`table
      ensures Consistent() && occupied < old(occupied) && SameSizes(old(table), table)
      ensures St() == if old(PicksT1()) then DemotedT1(old(St())) else DemotedT2(old(St()))
      ensures if old(PicksT1()) then old(t1) != [] else old(t2) != []
      ensures St().L1() == old(St().L1()) && St().L2() == old(St().L2())
      ensures old(Replacing()) ==> St() == ArcPolicy.Replace(old(St()), inB2)
    {
      hide Consistent;
      NotEmpty();
      PicksAsPaper();
      var cond1 := t1Size > 0;
      var cond2 := t1Size as real > p;
      var cond3 := t1Size as real == p && inB2;
      var cond4 := t2Size == 0;
      if (cond1 && (cond2 || cond3)) || cond4 {
        EvictT1();
      } else {
        EvictT2();
      }
    }

    lemma ByteCounts()
      requires Consistent()
      ensures SizesOf(table, St()) == Sizes(t1Size, b1Size, t2Size, b2Size)
    {
    }

    lemma NotEmpty()
      requires Consistent()
      ensures occupied == t1Size + t2Size && nObj == |t1| + |t2|
      ensures t1Size >= 0 && t2Size >= 0 && b1Size >= 0 && b2Size >= 0
      ensures (t1Size > 0 <==> t1 != []) && (t2Size > 0 <==> t2 != [])
      ensures (b1Size > 0 <==> b1 != []) && (b2Size > 0 <==> b2 != [])
      ensures Unit(table) ==> t1Size == |t1| && t2Size == |t2| && b1Size == |b1| && b2Size == |b2|
    {
      SizesTell(table, St());
    }

    /** A full cache of objects of size one, in which REPLACE finds what it is after. */
    ghost predicate Replacing()
      reads this`table, this`t1, this`t2, this`p
    {
      Unit(table) && |t1| + |t2| == cacheSize && (|t1| == cacheSize ==> p < cacheSize as real)
    }

    lemma PicksAsPaper()
      requires Consistent() && occupied > 0
      ensures Replacing() ==>
        (if PicksT1() then DemotedT1(St()) else DemotedT2(St())) == ArcPolicy.Replace(St(), inB2)
      ensures PicksT1() ==> DemotedT1(St()).L1() == St().L1()
      ensures !PicksT1() ==> DemotedT2(St()).L2() == St().L2()
    {
      NotEmpty();
    }

    /** The cached object that goes next is the last of T1 (or else of T2). */
    predicate VictimInT1(size: nat)
      reads this`t1Size, this`b1Size, this`t2Size, this`p, this`ghostTime, this`nReq, this`inB1, this`inB2
    {
      || PicksT1()
      || (!GhostHit() && t1Size + b1Size + size > cacheSize && b1Size == 0)
    }

    /** The last object of T1 or T2 has left the cache. */
    twostate predicate Gone(fromT1: bool)
      reads this`t1, this`t2
    {
      if fromT1 then old(t1) != [] && t1 == Front(old(t1)) && t2 == old(t2)
      else old(t2) != [] && t2 == Front(old(t2)) && t1 == old(t1)
    }

    /** Case IV A with ghosts: B1 loses its last, then REPLACE. */
    method EvictB1AndReplace()
      requires Consistent() && b1 != [] && occupied > 0
      modifies this`t1, this`b1, this`t2, this`b2, this`t1Size, this`b1Size, this`t2Size, this`b2Size
      modifies this`occupied, this`nObj, this`table
      ensures Consistent() && occupied < old(occupied) && Fewer(table, old(table)) && Cut(St(), old(St()))
      ensures Gone(old(PicksT1())) && St() == Demoted(old(St().(b1 := Front(b1))), old(PicksT1()))
      ensures old(Unit(table) && |t1| + |t2| == cacheSize && |t1| < cacheSize) ==>
        St() == ArcPolicy.Replace(old(St().(b1 := Front(b1))), inB2)
    {
      hide Consistent, SameSizes;
      ghost var table0, s0 := table, St();
      EvictB1();
      ghost var o, table1 := s0.b1[|s0.b1| - 1], table;
      assert St() == s0.(b1 := Front(s0.b1));
      Replace();
      FewerAfter(table0, o, table1, table);
    }

    lemma FewerAfter(table0: map<Obj, Entry>, o: Obj, table1: map<Obj, Entry>, table2: map<Obj, Entry>)
      requires (table1 == table0 - {o} || table1 == table0) && SameSizes(table1, table2)
      ensures Fewer(table2, table0) && (Unit(table0) ==> Unit(table1))
    {
    }

    /** Case IV B: B2 loses its last if the lists are full, then REPLACE. */
    method EvictB2AndReplace(drop: bool)
      requires Consistent() && (drop ==> b2 != []) && occupied > 0
      modifies this`t1, this`b1, this`t2, this`b2, this`t1Size, this`b1Size, this`t2Size, this`b2Size
      modifies this`occupied, this`nObj, this`table
      ensures Consistent() && occupied < old(occupied) && Fewer(table, old(table)) && Cut(St(), old(St()))
      ensures Gone(old(PicksT1()))
      ensures St() == Demoted(old(if drop then St().(b2 := Front(b2)) else St()), old(PicksT1()))
      ensures old(Unit(table) && |t1| + |t2| == cacheSize && |t1| < cacheSize) ==>
        St() == ArcPolicy.Replace(old(if drop then St().(b2 := Front(b2)) else St()), inB2)
    {
      hide Consistent, SameSizes;
      ghost var table0, s0 := table, St();
      ghost var o := if drop then s0.b2[|s0.b2| - 1] else 0;
      if drop {
        EvictB2();
      }
      ghost var table1 := table;
      Replace();
      FewerAfter(table0, o, table1, table);
    }

    /** Case IV A without ghosts: T1 loses its last. */
    method EvictFullT1()
      requires Consistent() && b1 == [] && t1 != []
      modifies this`t1, this`t1Size, this`occupied, this`nObj, this`table
      ensures Consistent() && occupied < old(occupied) && Fewer(table, old(table)) && Cut(St(), old(St()))
      ensures St() == old(St().(t1 := Front(t1)))
    {
      hide Consistent;
      EvictT1NoGhost();
    }

    /** The request is in no list: case IV of the paper. */
    method EvictMissOnAll(size: nat)
      requires Consistent() && 1 <= size <= cacheSize && occupied + size > cacheSize
      modifies this`t1, this`b1, this`t2, this`b2, this`t1Size, this`b1Size, this`t2Size, this`b2Size
      modifies this`occupied, this`nObj, this`table
      ensures Consistent() && occupied < old(occupied) && Fewer(table, old(table)) && Cut(St(), old(St()))
      ensures !GhostHit() ==> Gone(old(VictimInT1(size)))
      ensures St() == EvictedFor(cacheSize, old(table), old(St()), false, inB2, size)
      ensures size == 1 && !inB2 && Full(cacheSize, old(table), old(St())) ==> St() == Vacate(cacheSize, old(St()))
    {
      hide Consistent, Fewer, Cut, Vacate, Full, ArcPolicy.Replace;
      NotEmpty();
      ByteCounts();
      VacateCases(cacheSize, table, St());
      if t1Size + b1Size + size > cacheSize {
        if b1Size > 0 {
          EvictB1AndReplace();
        } else {
          EvictFullT1();
        }
      } else {
        EvictB2AndReplace(t1Size + b1Size + t2Size + b2Size >= cacheSize * 2 && b2Size > 0);
      }
    }

    /** The request being served was found among the ghosts. */
    predicate GhostHit()
      reads this`ghostTime, this`nReq, this`inB1, this`inB2
    {
      ghostTime == nReq && (inB1 || inB2)
    }

    method Evict(size: nat)
      requires Consistent() && 1 <= size <= cacheSize && occupied + size > cacheSize
      modifies this`t1, this`b1, this`t2, this`b2, this`t1Size, this`b1Size, this`t2Size, this`b2Size
      modifies this`occupied, this`nObj, this`table
      ensures Consistent() && occupied < old(occupied) && Fewer(table, old(table)) && Cut(St(), old(St()))
      ensures Gone(old(VictimInT1(size)))
      ensures St() == EvictedFor(cacheSize, old(table), old(St()), GhostHit(), inB2, size)
      ensures GhostHit() && old(Replacing()) ==> St() == ArcPolicy.Replace(old(St()), inB2)
      ensures !GhostHit() && size == 1 && !inB2 && Full(cacheSize, old(table), old(St())) ==>
        St() == Vacate(cacheSize, old(St()))
    {
      hide Consistent, Replacing, Full, Vacate, ArcPolicy.Replace;
      ByteCounts();
      if ghostTime == nReq && (inB1 || inB2) {
        ghost var table0 := table;
        Replace();
        FewerAfter(table0, 0, table0, table);
      } else {
        EvictMissOnAll(size);
      }
    }

    /** The object that Evict would take out of the cache. */
    method ToEvict(size: nat) returns (o: Obj)
      requires Consistent() && 1 <= size <= cacheSize && occupied + size > cacheSize
      ensures if VictimInT1(size) then t1 != [] && o == t1[|t1| - 1] else t2 != [] && o == t2[|t2| - 1]
    {
      NotEmpty();
      if ghostTime == nReq && (inB1 || inB2) {
        o := ToReplace();
      } else if t1Size + b1Size + size > cacheSize {
        if b1Size > 0 {
          o := ToReplace();
        } else {
          o := t1[|t1| - 1];
        }
      } else {
        o := ToReplace();
      }
    }

    method ToReplace() returns (o: Obj)
      requires Consistent() && occupied > 0
      ensures if PicksT1() then t1 != [] && o == t1[|t1| - 1] else t2 != [] && o == t2[|t2| - 1]
    {
      NotEmpty();
      if (t1Size > 0 && (t1Size as real > p || (t1Size as real == p && inB2))) || t2Size == 0 {
        o := t1[|t1| - 1];
      } else {
        o := t2[|t2| - 1];
      }
    }

    /** The eviction loop of cache_get_base. It ends, as every round frees bytes. */
    method MakeRoom(size: nat)
      requires Consistent() && 1 <= size <= cacheSize && occupied <= cacheSize
      modifies this`t1, this`b1, this`t2, this`b2, this`t1Size, this`b1Size, this`t2Size, this`b2Size
      modifies this`occupied, this`nObj, this`table
      ensures Consistent() && occupied + size <= cacheSize && Fewer(table, old(table)) && Cut(St(), old(St()))
      ensures old(occupied) + size <= cacheSize ==> St() == old(St()) && table == old(table)
      ensures St() == RoomFor(cacheSize, old(table), old(St()), GhostHit(), inB2, size)
      ensures size == 1 && old(occupied) == cacheSize && GhostHit() && old(Replacing()) ==>
        St() == ArcPolicy.Replace(old(St()), inB2)
      ensures
        size == 1 && old(occupied) == cacheSize && !GhostHit() && !inB2 && Full(cacheSize, old(table), old(St())) ==>
        St() == Vacate(cacheSize, old(St()))
    {
      hide Consistent, Replacing, Full, Vacate, ArcPolicy.Replace, Cut, Fewer, RoomFor, EvictedFor;
      ghost var rounds := 0;
      CutSelf(table, St());
      while occupied + size > cacheSize
        invariant Consistent() && Fewer(table, old(table)) && Cut(St(), old(St()))
        invariant occupied <= old(occupied) - rounds && rounds >= 0
        invariant rounds == 0 ==> St() == old(St()) && table == old(table) && occupied == old(occupied)
        invariant rounds == 1 && size == 1 && GhostHit() && old(Replacing()) ==>
          St() == ArcPolicy.Replace(old(St()), inB2)
        invariant rounds == 1 && size == 1 && !GhostHit() && !inB2 && Full(cacheSize, old(table), old(St())) ==>
          St() == Vacate(cacheSize, old(St()))
        invariant rounds >= 1 ==> old(occupied) + size > cacheSize + rounds - 1
        invariant RoomFor(cacheSize, old(table), St(), GhostHit(), inB2, size)
          == RoomFor(cacheSize, old(table), old(St()), GhostHit(), inB2, size)
        decreases occupied + size - cacheSize
      {
        ghost var table1, s1 := table, St();
        RoomGoesOn(old(table), size);
        Evict(size);
        CutTwice(table, table1, old(table), St(), s1, old(St()));
        rounds := rounds + 1;
      }
      RoomGoesOn(old(table), size);
    }

    /** Whether there is room yet, by the sizes at the start. */
    lemma RoomGoesOn(table0: map<Obj, Entry>, size: nat)
      requires Consistent() && Fewer(table, table0)
      ensures var s, seen := St(), GhostHit();
        var s' := EvictedFor(cacheSize, table, s, seen, inB2, size);
        && (occupied + size <= cacheSize ==> RoomFor(cacheSize, table0, s, seen, inB2, size) == s)
        && (occupied + size > cacheSize && |s'.t1| + |s'.t2| < |t1| + |t2| ==>
              RoomFor(cacheSize, table0, s, seen, inB2, size) == RoomFor(cacheSize, table0, s', seen, inB2, size))
    {
      hide EvictedFor, RoomFor, Placed, Fewer;
      SizesKept(table, table0, St());
      EvictedAlike(cacheSize, table, table0, St(), GhostHit(), inB2, size);
      RoomStep(cacheSize, table0, St(), GhostHit(), inB2, size);
    }

    /** A ghost hit in B1: p grows, and the ghost is gone. */
    method FindInB1(o: Obj)
      requires Consistent() && 0.0 <= p <= cacheSize as real && o in b1
      modifies this`b1, this`b1Size, this`table, this`p, this`inB1, this`ghostTime
      ensures Consistent() && 0.0 <= p <= cacheSize as real && table == old(table) - {o}
      ensures inB1 && ghostTime == nReq && old(b1Size) > 0 && b2Size >= 0
      ensures RaisedBy(old(p), p, old(b1Size), b2Size, cacheSize)
      ensures b1 == Without(old(b1), o) && p == Min(old(p) + Delta(old(b1Size), b2Size), cacheSize as real)
    {
      hide Placed, Bytes, SizesOf, Delta, Max, Min, RaisedBy, LoweredBy;
      NotEmpty();
      ForgetInB1(table, St(), o);
      ghostTime := nReq;
      inB1 := true;
      p := Raise(p, b1Size, b2Size, cacheSize);
      b1Size := b1Size - table[o].size;
      b1 := Without(b1, o);
      PlacedAnyP(table - {o}, State(t1, b1, t2, b2, old(p)), p);
      table := table - {o};
    }

    method FindInB2(o: Obj)
      requires Consistent() && 0.0 <= p <= cacheSize as real && o in b2
      modifies this`b2, this`b2Size, this`table, this`p, this`inB2, this`ghostTime
      ensures Consistent() && 0.0 <= p <= cacheSize as real && table == old(table) - {o}
      ensures inB2 && ghostTime == nReq && old(b2Size) > 0 && b1Size >= 0
      ensures LoweredBy(old(p), p, old(b2Size), b1Size)
      ensures b2 == Without(old(b2), o) && p == Max(old(p) - Delta(old(b2Size), b1Size), 0.0)
    {
      hide Placed, Bytes, SizesOf, Delta, Max, Min, RaisedBy, LoweredBy;
      NotEmpty();
      ForgetInB2(table, St(), o);
      inB2 := true;
      ghostTime := nReq;
      p := Lower(p, b2Size, b1Size, cacheSize);
      b2Size := b2Size - table[o].size;
      b2 := Without(b2, o);
      PlacedAnyP(table - {o}, State(t1, b1, t2, b2, old(p)), p);
      table := table - {o};
    }

    /** A hit: the object goes to the front of T2. */
    method FindInCache(o: Obj)
      requires Consistent() && (o in t1 || o in t2)
      modifies this`t1, this`t2, this`t1Size, this`t2Size, this`table
      ensures Consistent() && occupied == old(occupied) && SameSizes(old(table), table)
      ensures St() == Hit(old(St()), o)
    {
      hide Placed, Bytes, OnlyListHolds, SameSizes, SizesOf, Without;
      WhereIs(table, St(), o);
      Promote(table, St(), o);
      OnlyHere(table, St(), o);
      var e := table[o];
      HitCount(table, St(), o);
      if e.lruId == 1 {
        table := table[o := e.(lruId := 2)];
        t1, t2 := Without(t1, o), [o] + t2;
        t1Size, t2Size := t1Size - e.size, t2Size + e.size;
      } else {
        assert table == table[o := e.(lruId := 2)];
        t2 := [o] + Without(t2, o);
      }
    }

    /** Looks the object of the request up, as a real request does. */
    method Find(req: Request) returns (hit: bool)
      requires Consistent() && 0.0 <= p <= cacheSize as real
      modifies this`t1, this`b1, this`t2, this`b2, this`t1Size, this`b1Size, this`t2Size, this`b2Size
      modifies this`table, this`p, this`inB1, this`inB2, this`ghostTime
      ensures Consistent() && 0.0 <= p <= cacheSize as real && occupied == old(occupied)
      ensures hit == (req.obj in old(t1) || req.obj in old(t2))
      ensures hit ==> St() == Hit(old(St()), req.obj) && SameSizes(old(table), table) && p == old(p)
      ensures hit ==> !inB1 && !inB2 && ghostTime == old(ghostTime)
      ensures !hit ==> req.obj !in table && table == old(table) - {req.obj}
      ensures !hit && req.obj in old(b1) ==>
        && inB1 && !inB2 && ghostTime == nReq && old(b1Size) > 0 && old(b2Size) >= 0
        && St() == old(St()).(b1 := Without(old(b1), req.obj),
                              p := Min(old(p) + Delta(old(b1Size), old(b2Size)), cacheSize as real))
        && RaisedBy(old(p), p, old(b1Size), old(b2Size), cacheSize)
      ensures !hit && req.obj in old(b2) ==>
        && inB2 && !inB1 && ghostTime == nReq && old(b2Size) > 0 && old(b1Size) >= 0
        && St() == old(St()).(b2 := Without(old(b2), req.obj),
                              p := Max(old(p) - Delta(old(b2Size), old(b1Size)), 0.0))
        && LoweredBy(old(p), p, old(b2Size), old(b1Size))
      ensures !hit && req.obj !in old(b1) && req.obj !in old(b2) ==>
        St() == old(St()) && inB1 == old(inB1) && inB2 == old(inB2) && ghostTime == old(ghostTime)
      ensures !hit ==> St() == State(old(t1), Without(old(b1), req.obj), old(t2), Without(old(b2), req.obj), p)
    {
      hide Consistent, RaisedBy, LoweredBy, Delta, Min, Max;
      NotTwice(req.obj);
      WhereItIs(req.obj);
      if req.obj !in table {
        assert table - {req.obj} == table;
        return false;
      }
      inB1, inB2 := false, false;
      var e := table[req.obj];
      if e.isGhost {
        hit := false;
        if e.lruId == 1 {
          FindInB1(req.obj);
        } else {
          FindInB2(req.obj);
        }
      } else {
        hit := true;
        FindInCache(req.obj);
      }
    }

    lemma NotTwice(o: Obj)
      requires Consistent()
      ensures o !in b1 ==> Without(b1, o) == b1
      ensures o !in b2 ==> Without(b2, o) == b2
      ensures o in b1 ==> o !in b2
    {
      WhereIs(table, St(), o);
      if o !in b1 {
        WithoutAbsent(b1, o);
      }
      if o !in b2 {
        WithoutAbsent(b2, o);
      }
    }

    lemma WhereItIs(o: Obj)
      requires Consistent()
      ensures o in table ==> 1 <= table[o].lruId <= 2
      ensures o in t1 <==> o in table && table[o].lruId == 1 && !table[o].isGhost
      ensures o in b1 <==> o in table && table[o].lruId == 1 && table[o].isGhost
      ensures o in t2 <==> o in table && table[o].lruId == 2 && !table[o].isGhost
      ensures o in b2 <==> o in table && table[o].lruId == 2 && table[o].isGhost
    {
      WhereIs(table, St(), o);
    }

    method InsertT1(o: Obj, size: nat)
      requires Consistent() && o !in table && size >= 1
      modifies this`t1, this`t1Size, this`table, this`occupied, this`nObj
      ensures Consistent() && occupied == old(occupied) + size && t1 == [o] + old(t1)
      ensures table == old(table)[o := Entry(size, 1, false)]
    {
      hide Placed, Bytes, SizesOf;
      var e := Entry(size, 1, false);
      Admit(table, St(), o, e);
      occupied, nObj := occupied + size, nObj + 1;
      table := table[o := e];
      t1 := [o] + t1;
      t1Size := t1Size + size;
    }

    method InsertT2(o: Obj, size: nat)
      requires Consistent() && o !in table && size >= 1
      modifies this`t2, this`t2Size, this`table, this`occupied, this`nObj
      ensures Consistent() && occupied == old(occupied) + size && t2 == [o] + old(t2)
      ensures table == old(table)[o := Entry(size, 2, false)]
    {
      hide Placed, Bytes, SizesOf;
      var e := Entry(size, 2, false);
      Admit(table, St(), o, e);
      occupied, nObj := occupied + size, nObj + 1;
      table := table[o := e];
      t2 := [o] + t2;
      t2Size := t2Size + size;
    }

    /** Puts the object in: into T2 if a ghost of it was hit, else into T1. */
    method Insert(req: Request)
      requires Consistent() && req.obj !in table && req.size >= 1
      modifies this`t1, this`t2, this`t1Size, this`t2Size, this`table, this`occupied, this`nObj
      modifies this`inB1, this`inB2, this`ghostTime
      ensures Consistent() && occupied == old(occupied) + req.size
      ensures table == old(table)[req.obj := Entry(req.size, if old(GhostHit()) then 2 else 1, false)]
      ensures old(GhostHit()) ==> t2 == [req.obj] + old(t2) && t1 == old(t1) && !inB1 && !inB2 && ghostTime == -1
      ensures !old(GhostHit()) ==>
        && t1 == [req.obj] + old(t1) && t2 == old(t2)
        && inB1 == old(inB1) && inB2 == old(inB2) && ghostTime == old(ghostTime)
    {
      hide Consistent;
      if ghostTime == nReq && (inB1 || inB2) {
        InsertT2(req.obj, req.size);
        inB1, inB2 := false, false;
        ghostTime := -1;
      } else {
        InsertT1(req.obj, req.size);
      }
    }

    // ---- a whole request ---------------------------------------------------------------------------

    /** Between requests. The bytes fit, and each list with its ghosts is in order of last access. */
    ghost predicate Valid()
      reads this
    {
      && Consistent() && occupied <= cacheSize && 0.0 <= p <= cacheSize as real && ghostTime <= nReq && nReq >= 0
      && Ordered(past, St().L1()) && Ordered(past, St().L2())
    }

    /** Every object has size one, and the bounds of the paper hold. */
    ghost predicate UnitValid()
      reads this
    {
      Valid() && cacheSize >= 1 && Unit(table) && !inB1 && !inB2 && Reachable(cacheSize, St())
    }

    ghost predicate IsFull()
      reads this`table, this`t1, this`b1, this`t2, this`b2, this`p
    {
      Full(cacheSize, table, St())
    }

    /** The miss path: room is made, and the object brought in. */
    method Bring(req: Request)
      requires Consistent() && occupied <= cacheSize && 1 <= req.size <= cacheSize && req.obj !in table
      modifies this`t1, this`b1, this`t2, this`b2, this`t1Size, this`b1Size, this`t2Size, this`b2Size
      modifies this`occupied, this`nObj, this`table, this`inB1, this`inB2, this`ghostTime
      ensures Consistent() && occupied <= cacheSize && p == old(p)
      ensures if old(GhostHit()) then BroughtT2(old(St()), req.obj) else BroughtT1(old(St()), req.obj)
      ensures St() == BroughtIn(cacheSize, old(table), old(St()), old(GhostHit()), old(inB2), req)
      ensures FewerBut(table, old(table), req.obj) && req.obj in table && table[req.obj].size == req.size
      ensures old(GhostHit()) ==> !inB1 && !inB2 && ghostTime == -1
      ensures !old(GhostHit()) ==> inB1 == old(inB1) && inB2 == old(inB2) && ghostTime == old(ghostTime)
      ensures req.size == 1 && old(occupied) == cacheSize && old(GhostHit()) && old(Replacing()) ==>
        St() == WithT2(ArcPolicy.Replace(old(St()), old(inB2)), req.obj)
      ensures req.size == 1 && old(occupied) == cacheSize && !old(GhostHit() || inB2) && old(IsFull()) ==>
        St() == WithT1(Vacate(cacheSize, old(St())), req.obj)
      ensures old(occupied) + req.size <= cacheSize && !old(GhostHit()) ==> St() == WithT1(old(St()), req.obj)
    {
      hide Consistent, Replacing, Full, Vacate, ArcPolicy.Replace, Fewer, RoomFor;
      MakeRoom(req.size);
      FewerStill(table, old(table), req.obj, Entry(req.size, if GhostHit() then 2 else 1, false));
      ghost var s := St();
      Insert(req);
      assert St() == if old(GhostHit()) then WithT2(s, req.obj) else WithT1(s, req.obj);
    }

    /** The object is at the front of T2, after a cut of the rest. */
    ghost predicate BroughtT2(before: State, o: Obj)
      reads this`t1, this`b1, this`t2, this`b2, this`p
    {
      exists s :: Cut(s, before) && St() == WithT2(s, o)
    }

    ghost predicate BroughtT1(before: State, o: Obj)
      reads this`t1, this`b1, this`t2, this`b2, this`p
    {
      exists s :: Cut(s, before) && St() == WithT1(s, o)
    }

    /** The part of a request that follows a miss: x has been taken out of the ghosts. */
    method ServeMiss(req: Request)
      requires Consistent() && occupied <= cacheSize && req.size >= 1 && req.obj !in table
      requires Ordered(past, St().L1()) && Ordered(past, St().L2()) && req.obj !in St().L1() && req.obj !in St().L2()
      requires ghostTime <= nReq && nReq >= 0
      modifies this`t1, this`b1, this`t2, this`b2, this`t1Size, this`b1Size, this`t2Size, this`b2Size
      modifies this`occupied, this`nObj, this`table, this`inB1, this`inB2, this`ghostTime
      ensures Consistent() && occupied <= cacheSize && p == old(p) && ghostTime <= nReq
      ensures Ordered(past + [req.obj], St().L1()) && Ordered(past + [req.obj], St().L2())
      ensures req.size <= cacheSize ==> req.obj in t1 || req.obj in t2
      ensures FewerBut(table, old(table), req.obj)
      ensures req.obj in table ==> table[req.obj].size == req.size
      ensures if req.size > cacheSize then St() == old(St()) && inB2 == old(inB2)
        else
          && St() == BroughtIn(cacheSize, old(table), old(St()), old(GhostHit()), old(inB2), req)
          && req.obj in table && inB2 == (old(inB2) && !old(GhostHit()))
      ensures req.size <= cacheSize && (old(GhostHit()) || !old(inB1 || inB2)) ==> !inB1 && !inB2
      ensures 1 == req.size <= cacheSize && old(occupied) == cacheSize && old(GhostHit()) && old(Replacing()) ==>
        St() == WithT2(ArcPolicy.Replace(old(St()), old(inB2)), req.obj)
      ensures 1 == req.size <= cacheSize && old(occupied) == cacheSize && !old(GhostHit() || inB2) && old(IsFull()) ==>
        St() == WithT1(Vacate(cacheSize, old(St())), req.obj)
      ensures old(occupied) + req.size <= cacheSize && !old(GhostHit()) ==> St() == WithT1(old(St()), req.obj)
    {
      hide Consistent, Ordered, Replacing, IsFull, Vacate, ArcPolicy.Replace, BroughtT1, BroughtT2, BroughtIn;
      NotEmpty();
      if req.size > cacheSize {
        OrderedSnoc(past, req.obj, St().L1());
        OrderedSnoc(past, req.obj, St().L2());
        return;
      }
      ghost var s := St();
      ghost var seen := GhostHit();
      Bring(req);
      BroughtOrdered(s, req.obj, seen);
    }

    lemma BroughtOrdered(s: State, x: Obj, seen: bool)
      requires Ordered(past, s.L1()) && Ordered(past, s.L2()) && x !in s.L1() && x !in s.L2()
      requires if seen then BroughtT2(s, x) else BroughtT1(s, x)
      ensures Ordered(past + [x], St().L1()) && Ordered(past + [x], St().L2())
      ensures x in t1 || x in t2
    {
      hide Ordered;
      var c :| Cut(c, s) && St() == if seen then WithT2(c, x) else WithT1(c, x);
      CutOrdered(past, c.L1(), s.L1(), x);
      CutOrdered(past, c.L2(), s.L2(), x);
      assert [x] + c.t1 + c.b1 == [x] + c.L1() && [x] + c.t2 + c.b2 == [x] + c.L2();
    }

    lemma PlacedNow()
      requires Consistent()
      ensures Placed(table, St())
    {
    }

    /** The state after the look-up of an object that is not cached. */
    ghost predicate LookedUp(table0: map<Obj, Entry>, s0: State, x: Obj)
      reads this
    {
      && Consistent() && Placed(table0, s0) && table == table0 - {x} && x !in s0.t1 && x !in s0.t2
      && St() == State(s0.t1, Without(s0.b1, x), s0.t2, Without(s0.b2, x), p)
      && occupied <= cacheSize && 0.0 <= p <= cacheSize as real && ghostTime <= nReq && nReq >= 0
    }

    /** More about it, if every object has size one. */
    ghost predicate UnitLookedUp(table0: map<Obj, Entry>, s0: State, x: Obj)
      reads this
    {
      && Unit(table0) && Reachable(cacheSize, s0) && cacheSize >= 1
      && (x in s0.b1 ==>
            && inB1 && !inB2 && GhostHit()
            && St() == s0.(b1 := Without(s0.b1, x), p := Min(s0.p + Delta(|s0.b1|, |s0.b2|), cacheSize as real)))
      && (x in s0.b2 ==>
            && inB2 && !inB1 && GhostHit()
            && St() == s0.(b2 := Without(s0.b2, x), p := Max(s0.p - Delta(|s0.b2|, |s0.b1|), 0.0)))
      && (x !in s0.b1 && x !in s0.b2 ==> !inB1 && !inB2 && St() == s0)
    }

    /** The rest of a request for an object that is not cached. */
    method AfterLookUp(req: Request, ghost table0: map<Obj, Entry>, ghost s0: State)
      requires LookedUp(table0, s0, req.obj) && req.size >= 1
      requires Ordered(past, s0.L1()) && Ordered(past, s0.L2())
      modifies this`t1, this`b1, this`t2, this`b2, this`t1Size, this`b1Size, this`t2Size, this`b2Size
      modifies this`occupied, this`nObj, this`table, this`inB1, this`inB2, this`ghostTime
      ensures Consistent() && occupied <= cacheSize && p == old(p) && ghostTime <= nReq
      ensures Ordered(past + [req.obj], St().L1()) && Ordered(past + [req.obj], St().L2())
      ensures req.size <= cacheSize ==> req.obj in t1 || req.obj in t2
      ensures FewerBut(table, table0, req.obj) && (req.size <= cacheSize ==> req.obj in table)
      ensures req.obj in table ==> table[req.obj].size == req.size
      ensures if req.size > cacheSize then St() == old(St()) && inB2 == old(inB2)
        else
          && St() == BroughtIn(cacheSize, table0 - {req.obj}, old(St()), old(GhostHit()), old(inB2), req)
          && inB2 == (old(inB2) && !old(GhostHit()))
      ensures old(UnitLookedUp(table0, s0, req.obj)) && req.size == 1 ==>
        && Unit(table) && !inB1 && !inB2 && Reachable(cacheSize, St()) && St() == Arc(cacheSize, s0, req.obj)
    {
      hide Consistent, Ordered, Reachable, Arc, Unit, Replacing, IsFull, Vacate, ArcPolicy.Replace, Hit, Without, Delta,
           Max, Min, BroughtIn;
      MissServed(table0, s0, St(), past, req.obj);
      if UnitLookedUp(table0, s0, req.obj) {
        UnitFound(table0, s0, req.obj);
      }
      NotHere(table0, req.obj);
      ghost var table1 := table;
      ServeMiss(req);
      if old(UnitLookedUp(table0, s0, req.obj)) && req.size == 1 {
        UnitServed(cacheSize, table0, table1, table, s0, req.obj);
      }
    }

    lemma NotHere(table0: map<Obj, Entry>, x: Obj)
      requires table == table0 - {x}
      ensures x !in table
    {
    }

    /** One request. */
    method Get(req: Request) returns (hit: bool)
      requires Valid() && req.size >= 1
      modifies this
      ensures Valid() && past == old(past) + [req.obj]
      ensures hit == (req.obj in old(t1) || req.obj in old(t2))
      ensures hit || req.size <= cacheSize ==> req.obj in t1 || req.obj in t2
      ensures hit ==> St() == Hit(old(St()), req.obj) && SameSizes(old(table), table)
      ensures !hit ==> St() == Missed(cacheSize, old(table), old(St()), old(inB2), req)
      ensures !hit ==> FewerBut(table, old(table), req.obj) && (req.obj in table ==> table[req.obj].size == req.size)
      ensures !hit && req.size <= cacheSize ==> req.obj in table
      ensures req.obj in old(b1) ==> !hit && RaisedBy(old(p), p, old(b1Size), old(b2Size), cacheSize)
      ensures req.obj in old(b2) ==> !hit && LoweredBy(old(p), p, old(b2Size), old(b1Size))
      ensures req.obj !in old(b1) && req.obj !in old(b2) ==> p == old(p)
      ensures inB2 == if hit || req.obj in old(b1) then false
        else if req.obj in old(b2) then req.size > cacheSize else old(inB2)
      ensures old(UnitValid()) && req.size == 1 ==> UnitValid() && St() == Arc(cacheSize, old(St()), req.obj)
    {
      hide Consistent, Ordered, Reachable, Arc, Unit, Without, Delta, Max, Min, Hit, BroughtIn, SizesOf, TargetAfter,
           SameSizes, FewerBut, Missed, RaisedBy, LoweredBy;
      ghost var s0, table0 := St(), table;
      PlacedNow();
      NotEmpty();
      ByteCounts();
      nReq := nReq + 1;
      hit := Find(req);
      if hit {
        HitServed(table0, s0, past, req.obj);
        if old(UnitValid()) && req.size == 1 {
          UnitHit(cacheSize, table0, table, s0, req.obj);
        }
      } else {
        Target(table0, s0, req.obj, old(b1Size), old(b2Size));
        ghost var s1, seen, late := St(), GhostHit(), inB2;
        AfterLookUp(req, table0, s0);
        MissedIs(cacheSize, table0, s0, old(inB2), req, s1, seen, late, St());
      }
      past := past + [req.obj];
    }

    lemma Target(table0: map<Obj, Entry>, s0: State, x: Obj, n1: int, n2: int)
      requires var z := SizesOf(table0, s0); z.b1 == n1 && z.b2 == n2
      requires x in s0.b1 ==> n1 > 0 && n2 >= 0 && p == Min(s0.p + Delta(n1, n2), cacheSize as real)
      requires x in s0.b2 ==>
        x !in s0.b1 && n2 > 0 && n1 >= 0 && p == Max(s0.p - Delta(n2, n1), 0.0)
      requires x !in s0.b1 && x !in s0.b2 ==> p == s0.p
      ensures p == TargetAfter(cacheSize, SizesOf(table0, s0), s0, x)
    {
    }

    /** Objects of size one: the state after the look-up of an object that is not cached. */
    lemma UnitFound(table0: map<Obj, Entry>, s0: State, x: Obj)
      requires LookedUp(table0, s0, x) && UnitLookedUp(table0, s0, x)
      ensures occupied <= cacheSize
      ensures x in s0.b1 ==>
        occupied == cacheSize && Replacing() && WithT2(ArcPolicy.Replace(St(), false), x) == Arc(cacheSize, s0, x)
      ensures x in s0.b2 ==>
        occupied == cacheSize && Replacing() && WithT2(ArcPolicy.Replace(St(), true), x) == Arc(cacheSize, s0, x)
      ensures x !in s0.b1 && x !in s0.b2 ==>
        && (occupied == cacheSize ==> IsFull() && WithT1(Vacate(cacheSize, St()), x) == Arc(cacheSize, s0, x))
        && (occupied < cacheSize ==> WithT1(St(), x) == Arc(cacheSize, s0, x))
    {
      hide Vacate, ArcPolicy.Replace, Without, Delta, Max, Min, Reachable, Arc, Unit, Consistent, Placed, NoDup;
      UnitLess(table0, x);
      NotEmpty();
      OnePlace(cacheSize, s0, x);
      if x in s0.b1 {
        UnitGhostB1(cacheSize, s0, x);
      } else if x in s0.b2 {
        UnitGhostB2(cacheSize, s0, x);
      } else {
        UnitMiss(cacheSize, s0, x);
        WhereIs(table0, s0, x);
        assert table == table0;
      }
    }
  }

  lemma MissedIs(c: nat, table0: map<Obj, Entry>, s0: State, inB2: bool, req: Request, s1: State, seen: bool,
                 late: bool, after: State)
    requires var x := req.obj;
      && s1 == State(s0.t1, Without(s0.b1, x), s0.t2, Without(s0.b2, x), s1.p)
      && s1.p == TargetAfter(c, SizesOf(table0, s0), s0, x)
      && seen == (x in s0.b1 || x in s0.b2) && late == if seen then x in s0.b2 else inB2
    requires after == if req.size > c then s1 else BroughtIn(c, table0 - {req.obj}, s1, seen, late, req)
    ensures after == Missed(c, table0, s0, inB2, req)
  {
  }

  lemma UnitLess(table: map<Obj, Entry>, x: Obj)
    requires Unit(table)
    ensures Unit(table - {x})
  {
  }

  lemma UnitHit(c: nat, table0: map<Obj, Entry>, table: map<Obj, Entry>, s: State, x: Obj)
    requires c >= 1 && Reachable(c, s) && Unit(table0) && SameSizes(table0, table) && (x in s.t1 || x in s.t2)
    ensures Unit(table) && Arc(c, s, x) == Hit(s, x) && Reachable(c, Hit(s, x))
  {
    ArcKeepsReachable(c, s, x);
  }

  lemma UnitServed(c: nat, table0: map<Obj, Entry>, table1: map<Obj, Entry>, table: map<Obj, Entry>, s: State, x: Obj)
    requires c >= 1 && Reachable(c, s) && Unit(table0) && table1 == table0 - {x} && FewerBut(table, table1, x)
    requires x in table ==> table[x].size == 1
    ensures Unit(table) && Reachable(c, Arc(c, s, x))
  {
    ArcKeepsReachable(c, s, x);
  }

  lemma GhostMakesFull(c: nat, s: State)
    requires Reachable(c, s) && (s.b1 != [] || s.b2 != [])
    ensures |s.t1| + |s.t2| == c && (s.b1 != [] ==> |s.t1| < c)
  {
  }

  /** REPLACE first and the ghost out afterwards, or the other way round. */
  lemma GhostOutFirst(s: State, inB2: bool, x: Obj)
    requires x !in s.t1 && x !in s.t2
    ensures var r := ArcPolicy.Replace(s, inB2);
      && ArcPolicy.Replace(s.(b1 := Without(s.b1, x)), inB2) == r.(b1 := Without(r.b1, x))
      && ArcPolicy.Replace(s.(b2 := Without(s.b2, x)), inB2) == r.(b2 := Without(r.b2, x))
  {
    WithoutConcat(Back(s.t1), s.b1, x);
    WithoutConcat(Back(s.t2), s.b2, x);
    WithoutAbsent(Back(s.t1), x);
    WithoutAbsent(Back(s.t2), x);
  }

  lemma UnitGhostB1(c: nat, s: State, x: Obj)
    requires c >= 1 && Reachable(c, s) && x in s.b1 && x !in s.t1 && x !in s.t2
    ensures |s.t1| + |s.t2| == c && |s.t1| < c
    ensures var q := s.(p := Min(s.p + Delta(|s.b1|, |s.b2|), c as real));
      WithT2(ArcPolicy.Replace(q.(b1 := Without(s.b1, x)), false), x) == Arc(c, s, x)
  {
    hide Reachable, ArcPolicy.Replace, Delta, Min, Without;
    GhostMakesFull(c, s);
    GhostOutFirst(s.(p := Min(s.p + Delta(|s.b1|, |s.b2|), c as real)), false, x);
  }

  lemma UnitGhostB2(c: nat, s: State, x: Obj)
    requires c >= 1 && Reachable(c, s) && x in s.b2 && x !in s.b1 && x !in s.t1 && x !in s.t2
    ensures |s.t1| + |s.t2| == c
    ensures var q := s.(p := Max(s.p - Delta(|s.b2|, |s.b1|), 0.0));
      q.p < c as real && WithT2(ArcPolicy.Replace(q.(b2 := Without(s.b2, x)), true), x) == Arc(c, s, x)
  {
    hide ArcPolicy.Replace, Delta, Max, Without;
    GhostMakesFull(c, s);
    TargetRange(s.p, Delta(|s.b2|, |s.b1|), |s.b2|, |s.b1|, c);
    GhostOutFirst(s.(p := Max(s.p - Delta(|s.b2|, |s.b1|), 0.0)), true, x);
  }

  lemma UnitMiss(c: nat, s: State, x: Obj)
    requires c >= 1 && Reachable(c, s) && x !in s.t1 && x !in s.t2 && x !in s.b1 && x !in s.b2
    ensures |s.t1| + |s.t2| <= c
    ensures WithT1(Vacate(c, s), x) == Arc(c, s, x)
    ensures |s.t1| + |s.t2| < c ==> Vacate(c, s) == s
  {
    hide ArcPolicy.Replace;
  }

  /** A hit leaves the lists in order. */
  lemma HitServed(table: map<Obj, Entry>, s: State, past: seq<Obj>, x: Obj)
    requires Placed(table, s) && (x in s.t1 || x in s.t2) && Ordered(past, s.L1()) && Ordered(past, s.L2())
    ensures var h := Hit(s, x); Ordered(past + [x], h.L1()) && Ordered(past + [x], h.L2()) && x in h.t2
  {
    hide Ordered, Placed;
    WhereIs(table, s, x);
    Forget(table, s, x);
    WithoutConcat(s.t1, s.b1, x);
    WithoutConcat(s.t2, s.b2, x);
    OrderedParts(past, s.L1(), x);
    OrderedParts(past, s.L2(), x);
    OrderedSnoc(past, x, Without(s.L1(), x));
    OrderedSnoc(past, x, Without(s.L2(), x));
    assert [x] + Without(s.t2, x) + s.b2 == [x] + Without(s.L2(), x);
  }

  /** So does the look-up of a ghost or of an unknown object. */
  lemma MissServed(table: map<Obj, Entry>, s: State, f: State, past: seq<Obj>, x: Obj)
    requires Placed(table, s) && x !in s.t1 && x !in s.t2 && Ordered(past, s.L1()) && Ordered(past, s.L2())
    requires f == State(s.t1, Without(s.b1, x), s.t2, Without(s.b2, x), f.p)
    ensures Ordered(past, f.L1()) && Ordered(past, f.L2()) && x !in f.L1() && x !in f.L2()
  {
    hide Ordered, Placed;
    WithoutConcat(s.t1, s.b1, x);
    WithoutConcat(s.t2, s.b2, x);
    WithoutAbsent(s.t1, x);
    WithoutAbsent(s.t2, x);
    OrderedParts(past, s.L1(), x);
    OrderedParts(past, s.L2(), x);
  }

  lemma CutOrdered(past: seq<Obj>, c: seq<Obj>, s: seq<Obj>, x: Obj)
    requires c <= s && Ordered(past, s) && x !in s
    ensures Ordered(past + [x], c) && Ordered(past + [x], [x] + c)
  {
    hide LastAccess;
    assert forall i :: 0 <= i < |c| ==> c[i] == s[i];
    OrderedSnoc(past, x, c);
  }

  ghost predicate FewerBut(table: map<Obj, Entry>, old_: map<Obj, Entry>, o: Obj) {
    forall x :: x in table && x != o ==> x in old_ && table[x].size == old_[x].size
  }

  ghost function WithT1(s: State, o: Obj): State {
    s.(t1 := [o] + s.t1)
  }

  ghost function WithT2(s: State, o: Obj): State {
    s.(t2 := [o] + s.t2)
  }

  lemma FewerStill(table: map<Obj, Entry>, old_: map<Obj, Entry>, o: Obj, e: Entry)
    requires Fewer(table, old_) && o !in old_
    ensures o !in table && FewerBut(table[o := e], old_, o)
  {
  }

  /** p stays between 0 and the cache size. */
  lemma TargetRange(p: real, delta: real, own: nat, other: nat, c: nat)
    requires own > 0 && delta == Delta(own, other) && 0.0 <= p <= c as real
    ensures delta >= 1.0 && 0.0 <= Min(p + delta, c as real) <= c as real && 0.0 <= Max(p - delta, 0.0) <= c as real
    ensures c >= 1 ==> Max(p - delta, 0.0) < c as real
  {
    assert Max(other as real / own as real, 1.0) >= 1.0;
  }

  lemma PlacedAnyP(table: map<Obj, Entry>, s: State, p: real)
    ensures Placed(table, s) == Placed(table, s.(p := p)) && SizesOf(table, s) == SizesOf(table, s.(p := p))
  {
  }

  /** A hit does not change how many objects T1 and T2 hold. */
  lemma HitCount(table: map<Obj, Entry>, s: State, o: Obj)
    requires Placed(table, s) && (o in s.t1 || o in s.t2)
    ensures |Hit(s, o).t1| + |Hit(s, o).t2| == |s.t1| + |s.t2|
  {
    WithoutSize(s.t1, o);
    WithoutSize(s.t2, o);
  }

  lemma CutSelf(table: map<Obj, Entry>, s: State)
    ensures Fewer(table, table) && Cut(s, s)
  {
  }

  lemma CutTwice(t2: map<Obj, Entry>, t1: map<Obj, Entry>, t0: map<Obj, Entry>, s2: State, s1: State, s0: State)
    requires Fewer(t2, t1) && Fewer(t1, t0) && Cut(s2, s1) && Cut(s1, s0)
    ensures Fewer(t2, t0) && Cut(s2, s0)
  {
  }

  lemma WhereIs(table: map<Obj, Entry>, s: State, o: Obj)
    requires Placed(table, s)
    ensures o in table ==> 1 <= table[o].lruId <= 2 && table[o].size >= 1
    ensures o in s.t1 <==> o in table && table[o].lruId == 1 && !table[o].isGhost
    ensures o in s.b1 <==> o in table && table[o].lruId == 1 && table[o].isGhost
    ensures o in s.t2 <==> o in table && table[o].lruId == 2 && !table[o].isGhost
    ensures o in s.b2 <==> o in table && table[o].lruId == 2 && table[o].isGhost
  {
  }

  /** The branches of case IV, when every object has size one. */
  lemma VacateCases(c: nat, table: map<Obj, Entry>, s: State)
    requires c >= 1
    ensures Full(c, table, s) ==>
      && Unit(table) && |s.t1| + |s.t2| == c
      && (|s.t1| + |s.b1| + 1 > c && |s.b1| > 0 ==>
            |s.t1| < c && Vacate(c, s) == ArcPolicy.Replace(s.(b1 := Front(s.b1)), false))
      && (|s.t1| + |s.b1| + 1 > c && |s.b1| == 0 ==> Vacate(c, s) == s.(t1 := Front(s.t1)))
      && (|s.t1| + |s.b1| + 1 <= c ==>
            var drop := |s.t1| + |s.b1| + |s.t2| + |s.b2| >= c * 2 && |s.b2| > 0;
            |s.t1| < c && Vacate(c, s) == ArcPolicy.Replace(if drop then s.(b2 := Front(s.b2)) else s, false))
  {
    hide NoDup, ArcPolicy.Replace, Unit, Front;
  }

  /** What is still known has the size it had. */
  ghost predicate Fewer(table: map<Obj, Entry>, old_: map<Obj, Entry>) {
    forall o :: o in table ==> o in old_ && table[o].size == old_[o].size
  }

  /** Only the ends of T1 with B1 and of T2 with B2 are gone. */
  ghost predicate Cut(s: State, old_: State) {
    s.L1() <= old_.L1() && s.L2() <= old_.L2() && s.p == old_.p
  }

  ghost predicate Full(c: nat, table: map<Obj, Entry>, s: State) {
    Unit(table) && Reachable(c, s) && |s.t1| + |s.t2| == c
  }

  lemma FrontCount(s: seq<Obj>)
    ensures s != [] ==> |Front(s)| == |s| - 1 && Front(s) == s[..|s| - 1] && s[|s| - 1] in s
  {
  }

  /** The last objects of the lists, and where the table says they are. */
  lemma LastKnown(table: map<Obj, Entry>, s: State)
    requires Placed(table, s)
    ensures s.t1 != [] ==>
      var o := s.t1[|s.t1| - 1];
      o in table && table[o].lruId == 1 && !table[o].isGhost && Front(s.t1) == Without(s.t1, o)
    ensures s.b1 != [] ==>
      var o := s.b1[|s.b1| - 1];
      o in table && table[o].lruId == 1 && table[o].isGhost && Front(s.b1) == Without(s.b1, o)
    ensures s.b2 != [] ==>
      var o := s.b2[|s.b2| - 1];
      o in table && table[o].lruId == 2 && table[o].isGhost && Front(s.b2) == Without(s.b2, o)
  {
    hide Lists1;
    if s.t1 != [] {
      LastIn(table, s.t1, 1, false);
    }
    if s.b1 != [] {
      LastIn(table, s.b1, 1, true);
    }
    if s.b2 != [] {
      LastIn(table, s.b2, 2, true);
    }
  }

  lemma OnlyHere(table: map<Obj, Entry>, s: State, o: Obj)
    requires o in table && OnlyListHolds(table, s, o)
    ensures table[o].lruId != 1 || table[o].isGhost ==> Without(s.t1, o) == s.t1
    ensures table[o].lruId != 1 || !table[o].isGhost ==> Without(s.b1, o) == s.b1
    ensures table[o].lruId != 2 || table[o].isGhost ==> Without(s.t2, o) == s.t2
    ensures table[o].lruId != 2 || !table[o].isGhost ==> Without(s.b2, o) == s.b2
  {
  }

  /** Requests for objects of size one: the cache is ARC(c) of the paper at every moment. */
  method RunUnit(cacheSize: nat, tr: seq<Obj>) returns (hits: nat, cache: Cache)
    requires cacheSize >= 1
    ensures cache.UnitValid() && cache.cacheSize == cacheSize && cache.St() == ArcRun(cacheSize, tr)
    ensures DblOf(cache.St()) == DblRun(cacheSize, tr)
    ensures hits == ArcHits(cacheSize, tr)
  {
    hide Cache.Valid, Reachable, Arc, DblRun;
    cache := new Cache(cacheSize);
    StartValid(cache);
    hits := 0;
    for i := 0 to |tr|
      invariant cache.UnitValid() && cache.cacheSize == cacheSize && fresh(cache)
      invariant cache.St() == ArcRun(cacheSize, tr[..i]) && hits == ArcHits(cacheSize, tr[..i])
    {
      HitsSnoc(cacheSize, tr, i);
      var hit := cache.Get(Request(tr[i], 1));
      if hit {
        hits := hits + 1;
      }
    }
    assert tr[..|tr|] == tr;
    ArcRunFollowsDbl(cacheSize, tr);
  }

  ghost function ArcHits(c: nat, tr: seq<Obj>): nat {
    if tr == [] then 0
    else
      var s, x := ArcRun(c, tr[..|tr| - 1]), tr[|tr| - 1];
      ArcHits(c, tr[..|tr| - 1]) + if x in s.t1 || x in s.t2 then 1 else 0
  }

  lemma HitsSnoc(c: nat, tr: seq<Obj>, i: nat)
    requires i < |tr|
    ensures var s := ArcRun(c, tr[..i]);
      && ArcRun(c, tr[..i + 1]) == Arc(c, s, tr[i])
      && ArcHits(c, tr[..i + 1]) == ArcHits(c, tr[..i]) + if tr[i] in s.t1 || tr[i] in s.t2 then 1 else 0
  {
    assert tr[..i + 1][..i] == tr[..i];
  }

  lemma StartValid(cache: Cache)
    requires cache.Consistent() && cache.St() == State([], [], [], [], 0.0) && cache.table == map[] && cache.nReq == 0
    requires cache.cacheSize >= 1 && cache.occupied == 0 && !cache.inB1 && !cache.inB2 && cache.ghostTime == -1
    requires cache.past == []
    ensures cache.UnitValid()
  {
  }
}
