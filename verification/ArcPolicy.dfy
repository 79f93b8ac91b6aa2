/** The ARC policy of Megiddo and Modha on lists of unit-size objects, and the policy DBL(2c) below it. */
module ArcPolicy {
  import opened Lists
  import opened Recency

  /** Most recent first: T1, B1, T2, B2 and the target size of T1. */
  datatype State = State(t1: seq<Obj>, b1: seq<Obj>, t2: seq<Obj>, b2: seq<Obj>, p: real) {
    function L1(): seq<Obj> { t1 + b1 }
    function L2(): seq<Obj> { t2 + b2 }
  }

  function Front(s: seq<Obj>): seq<Obj> {
    if s == [] then [] else s[..|s| - 1]
  }

  function Back(s: seq<Obj>): seq<Obj> {
    if s == [] then [] else s[|s| - 1..]
  }

  function Max(a: real, b: real): real {
    if a > b then a else b
  }

  function Min(a: real, b: real): real {
    if a < b then a else b
  }

  /** REPLACE: demotes the least recent object of T1 or of T2 to the ghosts. */
  function Replace(s: State, inB2: bool): State {
    if |s.t1| >= 1 && (|s.t1| as real > s.p || (inB2 && |s.t1| as real == s.p)) then
      s.(t1 := Front(s.t1), b1 := Back(s.t1) + s.b1)
    else
      s.(t2 := Front(s.t2), b2 := Back(s.t2) + s.b2)
  }

  /** How far p moves when a ghost is hit: by the other ghost list's size over its own, at least one. */
  function Delta(own: nat, other: nat): real
    requires own > 0
  {
    Max(other as real / own as real, 1.0)
  }

  /** A hit moves the object to the front of T2. */
  function Hit(s: State, x: Obj): State {
    s.(t1 := Without(s.t1, x), t2 := [x] + Without(s.t2, x))
  }

  /** A request for an object that B1 or B2 remembers. */
  function GhostB1(c: nat, s: State, x: Obj): State
    requires x in s.b1
  {
    var r := Replace(s.(p := Min(s.p + Delta(|s.b1|, |s.b2|), c as real)), false);
    r.(b1 := Without(r.b1, x), t2 := [x] + r.t2)
  }

  function GhostB2(s: State, x: Obj): State
    requires x in s.b2
  {
    var r := Replace(s.(p := Max(s.p - Delta(|s.b2|, |s.b1|), 0.0)), true);
    r.(b2 := Without(r.b2, x), t2 := [x] + r.t2)
  }

  /** Room for an object that no list knows. */
  function Vacate(c: nat, s: State): State {
    if |s.L1()| == c then
      if |s.t1| < c then Replace(s.(b1 := Front(s.b1)), false) else s.(t1 := Front(s.t1))
    else if |s.L1()| + |s.L2()| == 2 * c then Replace(s.(b2 := Front(s.b2)), false)
    else if |s.L1()| + |s.L2()| >= c then Replace(s, false)
    else s
  }

  function Miss(c: nat, s: State, x: Obj): State {
    var r := Vacate(c, s);
    r.(t1 := [x] + r.t1)
  }

  function Arc(c: nat, s: State, x: Obj): State {
    if x in s.t1 || x in s.t2 then Hit(s, x)
    else if x in s.b1 then GhostB1(c, s, x)
    else if x in s.b2 then GhostB2(s, x)
    else Miss(c, s, x)
  }

  /** What holds in every state that can be reached. */
  ghost predicate Reachable(c: nat, s: State) {
    Bounded(c, s) && NoDup(s.L1() + s.L2())
  }

  ghost predicate Bounded(c: nat, s: State) {
    && |s.t1| + |s.t2| <= c && |s.t1| + |s.b1| <= c && |s.t1| + |s.b1| + |s.t2| + |s.b2| <= 2 * c
    && (|s.t1| + |s.t2| < c ==> s.b1 == [] && s.b2 == [])
    && 0.0 <= s.p <= c as real
  }

  // ---- DBL(2c) --------------------------------------------------------------------------------

  datatype Dbl = Dbl(l1: seq<Obj>, l2: seq<Obj>)

  function DblStep(c: nat, d: Dbl, x: Obj): Dbl {
    if x in d.l1 || x in d.l2 then Dbl(Without(d.l1, x), [x] + Without(d.l2, x))
    else if |d.l1| == c then Dbl([x] + Front(d.l1), d.l2)
    else if |d.l1| + |d.l2| == 2 * c then Dbl([x] + d.l1, Front(d.l2))
    else Dbl([x] + d.l1, d.l2)
  }

  function DblOf(s: State): Dbl {
    Dbl(s.L1(), s.L2())
  }

  function DblRun(c: nat, tr: seq<Obj>): Dbl {
    if tr == [] then Dbl([], []) else DblStep(c, DblRun(c, tr[..|tr| - 1]), tr[|tr| - 1])
  }

  // ---- ARC follows DBL(2c) -----------------------------------------------------------------------

  lemma {:induction false} WithoutConcat(a: seq<Obj>, b: seq<Obj>, x: Obj)
    ensures Without(a + b, x) == Without(a, x) + Without(b, x)
  {
    if a == [] {
      assert a + b == b;
    } else {
      assert (a + b)[1..] == a[1..] + b;
      WithoutConcat(a[1..], b, x);
    }
  }

  lemma NoDupParts(a: seq<Obj>, b: seq<Obj>)
    requires NoDup(a + b)
    ensures NoDup(a) && NoDup(b)
    ensures forall x :: x in a ==> x !in b
  {
    var s := a + b;
    assert forall i :: 0 <= i < |a| ==> s[i] == a[i];
    assert forall i :: 0 <= i < |b| ==> s[|a| + i] == b[i];
  }

  lemma NoDupJoin(a: seq<Obj>, b: seq<Obj>)
    requires NoDup(a) && NoDup(b) && forall x :: x in a ==> x !in b
    ensures NoDup(a + b)
  {
    var s := a + b;
    forall i, j | 0 <= i < j < |s| ensures s[i] != s[j] {
      if i < |a| && j >= |a| {
        assert a[i] in a && b[j - |a|] in b;
      }
    }
  }

  lemma ReplaceKeepsLists(s: State, inB2: bool)
    ensures var r := Replace(s, inB2); r.L1() == s.L1() && r.L2() == s.L2() && r.p == s.p
    ensures var r := Replace(s, inB2);
      || (|r.t1| == |s.t1| - 1 && r.t2 == s.t2)
      || (|r.t2| == |s.t2| - 1 && r.t1 == s.t1)
      || (r.t1 == s.t1 && r.t2 == [] && s.t2 == [])
  {
  }

  /** In a reachable state every object stands in one place. */
  lemma OnePlace(c: nat, s: State, x: Obj)
    requires Reachable(c, s)
    ensures x in s.L1() <==> x in s.t1 || x in s.b1
    ensures x in s.L2() <==> x in s.t2 || x in s.b2
    ensures x !in s.t1 ==> Without(s.t1, x) == s.t1
    ensures x !in s.b1 ==> Without(s.b1, x) == s.b1
    ensures x !in s.t2 ==> Without(s.t2, x) == s.t2
    ensures x !in s.b2 ==> Without(s.b2, x) == s.b2
    ensures x in s.t1 ==> x !in s.b1 && x !in s.t2 && x !in s.b2
    ensures x in s.b1 ==> x !in s.t2 && x !in s.b2
    ensures x in s.t2 ==> x !in s.b2
    ensures NoDup(s.t1) && NoDup(s.b1) && NoDup(s.t2) && NoDup(s.b2)
  {
    hide NoDup;
    NoDupParts(s.L1(), s.L2());
    NoDupParts(s.t1, s.b1);
    NoDupParts(s.t2, s.b2);
    if x !in s.t1 {
      WithoutAbsent(s.t1, x);
    }
    if x !in s.b1 {
      WithoutAbsent(s.b1, x);
    }
    if x !in s.t2 {
      WithoutAbsent(s.t2, x);
    }
    if x !in s.b2 {
      WithoutAbsent(s.b2, x);
    }
  }

  lemma HitFollows(c: nat, s: State, x: Obj)
    requires c >= 1 && Reachable(c, s) && (x in s.t1 || x in s.t2)
    ensures DblOf(Hit(s, x)) == DblStep(c, DblOf(s), x)
  {
    hide NoDup, Reachable, Without;
    OnePlace(c, s, x);
    WithoutConcat(s.t1, s.b1, x);
    WithoutConcat(s.t2, s.b2, x);
    var h := Hit(s, x);
    assert h.L1() == Without(s.L1(), x);
    assert h.L2() == [x] + Without(s.L2(), x);
  }

  lemma GhostFollows(c: nat, s: State, q: State, inB2: bool, x: Obj)
    requires Reachable(c, s) && q == s.(p := q.p) && x !in s.t1 && x !in s.t2
    ensures var r := Replace(q, inB2);
      && Dbl(r.t1 + Without(r.b1, x), [x] + r.t2 + Without(r.b2, x))
         == Dbl(Without(s.L1(), x), [x] + Without(s.L2(), x))
      && (x !in s.b1 ==> Without(r.b1, x) == r.b1) && (x !in s.b2 ==> Without(r.b2, x) == r.b2)
  {
    hide NoDup, Replace, Reachable;
    var r := Replace(q, inB2);
    ReplaceKeepsLists(q, inB2);
    ReplaceHides(q, inB2, x);
    WithoutConcat(r.t1, r.b1, x);
    WithoutConcat(r.t2, r.b2, x);
  }

  /** REPLACE does not touch a ghost. */
  lemma ReplaceHides(s: State, inB2: bool, x: Obj)
    requires x !in s.t1 && x !in s.t2
    ensures var r := Replace(s, inB2);
      && x !in r.t1 && x !in r.t2 && Without(r.t1, x) == r.t1 && Without(r.t2, x) == r.t2
      && (x !in s.b1 ==> x !in r.b1 && Without(r.b1, x) == r.b1)
      && (x !in s.b2 ==> x !in r.b2 && Without(r.b2, x) == r.b2)
  {
    var r := Replace(s, inB2);
    WithoutAbsent(r.t1, x);
    WithoutAbsent(r.t2, x);
    if x !in s.b1 {
      WithoutAbsent(r.b1, x);
    }
    if x !in s.b2 {
      WithoutAbsent(r.b2, x);
    }
  }

  lemma GhostB1Follows(c: nat, s: State, x: Obj)
    requires c >= 1 && Reachable(c, s) && x in s.b1
    ensures DblOf(GhostB1(c, s, x)) == DblStep(c, DblOf(s), x)
  {
    hide NoDup, Replace, Reachable;
    OnePlace(c, s, x);
    GhostFollows(c, s, s.(p := Min(s.p + Delta(|s.b1|, |s.b2|), c as real)), false, x);
  }

  lemma GhostB2Follows(c: nat, s: State, x: Obj)
    requires c >= 1 && Reachable(c, s) && x in s.b2
    ensures DblOf(GhostB2(s, x)) == DblStep(c, DblOf(s), x)
  {
    hide NoDup, Replace, Reachable;
    OnePlace(c, s, x);
    GhostFollows(c, s, s.(p := Max(s.p - Delta(|s.b2|, |s.b1|), 0.0)), true, x);
  }

  lemma FrontConcat(a: seq<Obj>, b: seq<Obj>)
    ensures b != [] ==> Front(a + b) == a + Front(b)
    ensures b == [] ==> Front(a + b) == Front(a)
  {
    assert b == [] ==> a + b == a;
  }

  lemma VacateFollows(c: nat, s: State)
    requires c >= 1 && Reachable(c, s)
    ensures var r := Vacate(c, s);
      && r.L1() == (if |s.L1()| == c then Front(s.L1()) else s.L1())
      && r.L2() == (if |s.L1()| < c && |s.L1()| + |s.L2()| == 2 * c then Front(s.L2()) else s.L2())
  {
    hide NoDup, Replace, Front;
    FrontConcat(s.t1, s.b1);
    FrontConcat(s.t2, s.b2);
    ReplaceKeepsLists(s.(b1 := Front(s.b1)), false);
    ReplaceKeepsLists(s.(b2 := Front(s.b2)), false);
    ReplaceKeepsLists(s, false);
  }

  lemma MissFollows(c: nat, s: State, x: Obj)
    requires c >= 1 && Reachable(c, s) && x !in s.L1() && x !in s.L2()
    ensures DblOf(Miss(c, s, x)) == DblStep(c, DblOf(s), x)
  {
    hide NoDup, Vacate;
    VacateFollows(c, s);
    var r := Vacate(c, s);
    assert [x] + r.t1 + r.b1 == [x] + r.L1();
  }

  /** Whatever p is and whichever side REPLACE picks, T1 with B1 and T2 with B2 move as DBL(2c) does. */
  lemma ArcFollowsDbl(c: nat, s: State, x: Obj)
    requires c >= 1 && Reachable(c, s)
    ensures DblOf(Arc(c, s, x)) == DblStep(c, DblOf(s), x)
  {
    hide Hit, GhostB1, GhostB2, Miss, DblStep, Reachable;
    OnePlace(c, s, x);
    if x in s.t1 || x in s.t2 {
      HitFollows(c, s, x);
    } else if x in s.b1 {
      GhostB1Follows(c, s, x);
    } else if x in s.b2 {
      GhostB2Follows(c, s, x);
    } else {
      MissFollows(c, s, x);
    }
  }

  // ---- what every reachable state keeps ----------------------------------------------------------

  lemma ArcStart(c: nat)
    ensures Reachable(c, State([], [], [], [], 0.0))
  {
  }

  lemma DblKeepsNoDup(c: nat, d: Dbl, x: Obj)
    requires c >= 1 && NoDup(d.l1 + d.l2)
    ensures var e := DblStep(c, d, x); NoDup(e.l1 + e.l2)
  {
    hide NoDup, DblStep;
    DblParts(c, d, x);
    var e := DblStep(c, d, x);
    NoDupJoin(e.l1, e.l2);
  }

  lemma FrontOfNoDup(s: seq<Obj>, x: Obj)
    requires NoDup(s)
    ensures NoDup(Front(s)) && (forall y :: y in Front(s) ==> y in s)
    ensures x !in s ==> NoDup([x] + s) && NoDup([x] + Front(s))
  {
  }

  lemma DblParts(c: nat, d: Dbl, x: Obj)
    requires NoDup(d.l1 + d.l2)
    ensures var e := DblStep(c, d, x);
      NoDup(e.l1) && NoDup(e.l2) && forall y :: y in e.l1 ==> y !in e.l2
  {
    hide NoDup, Front;
    NoDupParts(d.l1, d.l2);
    FrontOfNoDup(d.l1, x);
    FrontOfNoDup(d.l2, x);
    WithoutNoDup(d.l1, x);
    WithoutNoDup(d.l2, x);
    FrontOfNoDup(Without(d.l2, x), x);
  }

  /** REPLACE makes exactly one slot free. */
  lemma ReplaceFrees(c: nat, s: State, inB2: bool)
    requires |s.t1| + |s.t2| == c && c >= 1
    requires |s.t1| == c ==> s.p < c as real
    ensures var r := Replace(s, inB2);
      && |r.t1| + |r.t2| == c - 1 && |r.t1| + |r.b1| == |s.t1| + |s.b1| && |r.t2| + |r.b2| == |s.t2| + |s.b2|
      && r.p == s.p
  {
  }

  lemma HitBounded(c: nat, s: State, x: Obj)
    requires Reachable(c, s) && (x in s.t1 || x in s.t2)
    ensures Bounded(c, Hit(s, x))
  {
    hide NoDup;
    OnePlace(c, s, x);
    WithoutSize(s.t1, x);
    WithoutSize(s.t2, x);
  }

  lemma GhostB1Bounded(c: nat, s: State, x: Obj)
    requires c >= 1 && Reachable(c, s) && x in s.b1
    ensures Bounded(c, GhostB1(c, s, x))
  {
    hide NoDup, Replace;
    OnePlace(c, s, x);
    var q := s.(p := Min(s.p + Delta(|s.b1|, |s.b2|), c as real));
    GhostReplaced(c, s, q, false, x);
  }

  lemma GhostB2Bounded(c: nat, s: State, x: Obj)
    requires c >= 1 && Reachable(c, s) && x in s.b2
    ensures Bounded(c, GhostB2(s, x))
  {
    hide NoDup, Replace;
    OnePlace(c, s, x);
    var q := s.(p := Max(s.p - Delta(|s.b2|, |s.b1|), 0.0));
    GhostReplaced(c, s, q, true, x);
  }

  /** The sizes after a ghost hit, before the object is put into T2. */
  lemma GhostReplaced(c: nat, s: State, q: State, inB2: bool, x: Obj)
    requires c >= 1 && Reachable(c, s) && q == s.(p := q.p) && 0.0 <= q.p <= c as real
    requires x in s.b1 || (x in s.b2 && q.p < c as real)
    ensures var r := Replace(q, inB2);
      && |r.t1| + |r.t2| == c - 1 && r.p == q.p
      && |r.t1| + |Without(r.b1, x)| == |s.t1| + |s.b1| - (if x in s.b1 then 1 else 0)
      && |r.t2| + |Without(r.b2, x)| == |s.t2| + |s.b2| - (if x in s.b2 then 1 else 0)
      && (x !in s.b1 ==> Without(r.b1, x) == r.b1) && (x !in s.b2 ==> Without(r.b2, x) == r.b2)
  {
    hide NoDup, Replace;
    OnePlace(c, s, x);
    ReplaceFrees(c, q, inB2);
    GhostFollows(c, s, q, inB2, x);
    NoDupParts(s.L1(), s.L2());
    WithoutSize(s.L1(), x);
    WithoutSize(s.L2(), x);
    var r := Replace(q, inB2);
    assert |r.t1 + Without(r.b1, x)| == |Without(s.L1(), x)|;
    assert |[x] + r.t2 + Without(r.b2, x)| == |[x] + Without(s.L2(), x)|;
  }

  lemma MissBounded(c: nat, s: State, x: Obj)
    requires c >= 1 && Reachable(c, s) && x !in s.L1() && x !in s.L2()
    ensures Bounded(c, Miss(c, s, x))
  {
    hide NoDup, Replace;
    if |s.L1()| == c && |s.t1| < c {
      ReplaceFrees(c, s.(b1 := Front(s.b1)), false);
    } else if |s.L1()| < c && |s.L1()| + |s.L2()| == 2 * c {
      ReplaceFrees(c, s.(b2 := Front(s.b2)), false);
    } else if |s.L1()| < c && |s.L1()| + |s.L2()| >= c {
      ReplaceFrees(c, s, false);
    }
  }

  /** The bounds of the ARC paper are kept. */
  lemma ArcKeepsReachable(c: nat, s: State, x: Obj)
    requires c >= 1 && Reachable(c, s)
    ensures Reachable(c, Arc(c, s, x))
  {
    hide Hit, GhostB1, GhostB2, Miss, DblStep, Bounded, NoDup;
    OnePlace(c, s, x);
    if x in s.t1 || x in s.t2 {
      HitBounded(c, s, x);
    } else if x in s.b1 {
      GhostB1Bounded(c, s, x);
    } else if x in s.b2 {
      GhostB2Bounded(c, s, x);
    } else {
      MissBounded(c, s, x);
    }
    ArcFollowsDbl(c, s, x);
    DblKeepsNoDup(c, DblOf(s), x);
  }

  // ---- whole runs ----------------------------------------------------------------------------------

  function ArcRun(c: nat, tr: seq<Obj>): State {
    if tr == [] then State([], [], [], [], 0.0) else Arc(c, ArcRun(c, tr[..|tr| - 1]), tr[|tr| - 1])
  }

  lemma {:induction false} ArcRunFollowsDbl(c: nat, tr: seq<Obj>)
    requires c >= 1
    ensures Reachable(c, ArcRun(c, tr)) && DblOf(ArcRun(c, tr)) == DblRun(c, tr)
  {
    hide Reachable, Arc, DblStep;
    if tr == [] {
      ArcStart(c);
    } else {
      var past, x := tr[..|tr| - 1], tr[|tr| - 1];
      ArcRunFollowsDbl(c, past);
      ArcFollowsDbl(c, ArcRun(c, past), x);
      ArcKeepsReachable(c, ArcRun(c, past), x);
    }
  }

  /** s lists requested objects, by strictly falling time of last access. */
  ghost predicate Ordered(tr: seq<Obj>, s: seq<Obj>) {
    ByRecency(tr, s) && forall x :: x in s ==> x in tr
  }

  lemma OrderedSnoc(tr: seq<Obj>, x: Obj, s: seq<Obj>)
    requires Ordered(tr, s) && x !in s
    ensures Ordered(tr + [x], s) && Ordered(tr + [x], [x] + s)
  {
    hide LastAccess;
    LastAccessSnoc(tr, x, x);
    forall y | y in s ensures LastAccess(tr + [x], y) == LastAccess(tr, y) < LastAccess(tr + [x], x) {
      LastAccessSnoc(tr, x, y);
    }
    ByRecencyCons(tr + [x], x, s);
  }

  lemma OrderedParts(tr: seq<Obj>, s: seq<Obj>, x: Obj)
    requires Ordered(tr, s)
    ensures Ordered(tr, Front(s)) && Ordered(tr, Without(s, x)) && x !in Without(s, x)
    ensures x !in s ==> x !in Front(s) && Without(s, x) == s
  {
    hide LastAccess;
    WithoutOrder(tr, s, x);
    if x !in s {
      WithoutAbsent(s, x);
    }
  }

  /** Both lists of DBL(2c), and so T1 with B1 and T2 with B2, stay in order of last access. */
  lemma {:induction false} DblOrdered(c: nat, tr: seq<Obj>)
    ensures Ordered(tr, DblRun(c, tr).l1) && Ordered(tr, DblRun(c, tr).l2)
  {
    hide Ordered, Front;
    if tr == [] {
      EmptyOrdered();
    } else {
      var past, x := tr[..|tr| - 1], tr[|tr| - 1];
      assert tr == past + [x];
      DblOrdered(c, past);
      var d := DblRun(c, past);
      OrderedParts(past, d.l1, x);
      OrderedParts(past, d.l2, x);
      OrderedSnoc(past, x, Without(d.l1, x));
      OrderedSnoc(past, x, Without(d.l2, x));
      if x !in d.l1 && x !in d.l2 {
        OrderedSnoc(past, x, Front(d.l1));
        OrderedSnoc(past, x, Front(d.l2));
      }
    }
  }

  lemma EmptyOrdered()
    ensures Ordered([], [])
  {
  }

  lemma SinceSnoc(tr: seq<Obj>, x: Obj, o: Obj)
    requires x != o
    ensures Since(tr + [x], o) == Since(tr, o) + {x}
  {
    LastAccessSnoc(tr, x, o);
    var t := tr + [x];
    forall y | y in Since(t, o) ensures y in Since(tr, o) + {x} {
      var j :| LastAccess(t, o) < j < |t| && t[j] == y;
      assert j < |tr| ==> tr[j] == y;
    }
    forall y | y in Since(tr, o) + {x} ensures y in Since(t, o) {
      if y in Since(tr, o) {
        var j :| LastAccess(tr, o) < j < |tr| && tr[j] == y;
        assert t[j] == y;
      } else {
        assert t[|tr|] == y;
      }
    }
  }

  /** Everything before the last element of an ordered list was requested since that element. */
  lemma SinceLast(tr: seq<Obj>, s: seq<Obj>)
    requires Ordered(tr, s) && s != []
    ensures Elems(Front(s)) <= Since(tr, s[|s| - 1]) && |Elems(Front(s))| == |s| - 1
    ensures s[|s| - 1] !in Front(s)
  {
    var o := s[|s| - 1];
    forall y | y in Front(s) ensures y in Since(tr, o) {
      var q :| 0 <= q < |s| - 1 && s[q] == y;
      assert LastAccess(tr, y) > LastAccess(tr, o);
      assert y in s && y in tr && tr[LastAccess(tr, y)] == y;
    }
    DistinctCount(Front(s));
  }

  /** What DBL(2c) forgets was followed by at least c other objects. */
  lemma {:induction false} DblForgets(c: nat, tr: seq<Obj>, o: Obj)
    requires c >= 1 && o in tr && o !in DblRun(c, tr).l1 && o !in DblRun(c, tr).l2
    ensures |Since(tr, o)| >= c
  {
    hide Since, Ordered, NoDup;
    var past, x := tr[..|tr| - 1], tr[|tr| - 1];
    assert tr == past + [x];
    var d := DblRun(c, past);
    DblInStep(c, d, x, o);
    assert o != x && o in past;
    SinceSnoc(past, x, o);
    SubsetSize(Since(past, o), Since(tr, o));
    if o !in d.l1 && o !in d.l2 {
      DblForgets(c, past, o);
    } else {
      ForgottenNow(c, past, x, o);
    }
  }

  lemma ForgottenNow(c: nat, past: seq<Obj>, x: Obj, o: Obj)
    requires c >= 1 && x != o
    requires x !in DblRun(c, past).l1 && x !in DblRun(c, past).l2
    requires var d := DblRun(c, past);
      || (|d.l1| == c && o == d.l1[c - 1])
      || (|d.l1| != c && |d.l1| + |d.l2| == 2 * c && d.l2 != [] && o == d.l2[|d.l2| - 1])
    ensures |Since(past + [x], o)| >= c
  {
    hide Since, Ordered, NoDup, DblRun;
    DblOrdered(c, past);
    DblRunNoDup(c, past);
    var d := DblRun(c, past);
    var l := if |d.l1| == c then d.l1 else d.l2;
    SinceLast(past, l);
    SinceSnoc(past, x, o);
    assert x !in Front(l);
    SubsetSize(Elems(Front(l)) + {x}, Since(past + [x], o));
  }

  /** Only the last object of a full list is forgotten. */
  lemma DblInStep(c: nat, d: Dbl, x: Obj, o: Obj)
    ensures var e := DblStep(c, d, x);
      && (x in e.l1 || x in e.l2)
      && (o !in e.l1 && o !in e.l2 ==>
            || (o !in d.l1 && o !in d.l2)
            || (x !in d.l1 && x !in d.l2 && |d.l1| == c && c > 0 && o == d.l1[c - 1])
            || (x !in d.l1 && x !in d.l2 && |d.l1| != c && |d.l1| + |d.l2| == 2 * c
                && d.l2 != [] && o == d.l2[|d.l2| - 1]))
  {
  }

  lemma {:induction false} DblRunNoDup(c: nat, tr: seq<Obj>)
    requires c >= 1
    ensures var d := DblRun(c, tr); NoDup(d.l1 + d.l2) && |d.l1| <= c && |d.l1| + |d.l2| <= 2 * c
    ensures forall x :: x in DblRun(c, tr).l1 ==> x !in DblRun(c, tr).l2
  {
    ArcRunFollowsDbl(c, tr);
    NoDupParts(DblRun(c, tr).l1, DblRun(c, tr).l2);
  }

  /** ARC knows, in its cache or as a ghost, every object that an LRU list of the same size holds. */
  lemma ArcRemembersLru(c: nat, tr: seq<Obj>, o: Obj)
    requires c >= 1 && o in LruRun(c, tr)
    ensures o in ArcRun(c, tr).L1() || o in ArcRun(c, tr).L2()
  {
    LruHitIff(c, tr, o);
    ArcRunFollowsDbl(c, tr);
    if o !in DblRun(c, tr).l1 && o !in DblRun(c, tr).l2 {
      assert o == tr[LastAccess(tr, o)];
      DblForgets(c, tr, o);
    }
  }

  /** The lists of ARC are ordered by last access. */
  lemma ArcOrdered(c: nat, tr: seq<Obj>)
    requires c >= 1
    ensures ByRecency(tr, ArcRun(c, tr).L1()) && ByRecency(tr, ArcRun(c, tr).L2())
  {
    ArcRunFollowsDbl(c, tr);
    DblOrdered(c, tr);
  }

  // ---- the policy in numbers -------------------------------------------------------------------------

  /** p plus the ratio of other to own, which is at least one, but no more than c. */
  lemma RaisedTarget(p: real, own: nat, other: nat, c: nat)
    requires own > 0 && 0.0 <= p <= c as real
    ensures var q, larger := Min(p + Delta(own, other), c as real), if other > own then other else own;
      && p <= q <= c as real && (q - p) * own as real <= larger as real
      && (q == c as real || (q - p) * own as real == larger as real)
  {
    DeltaTimes(own, other);
    var d, q := Delta(own, other), Min(p + Delta(own, other), c as real);
    assert (d - (q - p)) * own as real >= 0.0;
    assert (d - (q - p)) * own as real == d * own as real - (q - p) * own as real;
  }

  /** p less that ratio, but no less than nothing. */
  lemma LoweredTarget(p: real, own: nat, other: nat, c: nat)
    requires own > 0 && 0.0 <= p <= c as real
    ensures var q, larger := Max(p - Delta(own, other), 0.0), if other > own then other else own;
      && 0.0 <= q <= p && (p - q) * own as real <= larger as real
      && (q == 0.0 || (p - q) * own as real == larger as real)
  {
    DeltaTimes(own, other);
    var d, q := Delta(own, other), Max(p - Delta(own, other), 0.0);
    assert (d - (p - q)) * own as real >= 0.0;
    assert (d - (p - q)) * own as real == d * own as real - (p - q) * own as real;
  }

  /** p has grown to q so. */
  ghost predicate RaisedBy(p: real, q: real, own: int, other: int, c: nat) {
    var larger := if other > own then other else own;
    && p <= q <= c as real && (q - p) * own as real <= larger as real
    && (q == c as real || (q - p) * own as real == larger as real)
  }

  ghost predicate LoweredBy(p: real, q: real, own: int, other: int) {
    var larger := if other > own then other else own;
    && 0.0 <= q <= p && (p - q) * own as real <= larger as real
    && (q == 0.0 || (p - q) * own as real == larger as real)
  }

  lemma DeltaTimes(own: nat, other: nat)
    requires own > 0
    ensures Delta(own, other) >= 1.0
    ensures Delta(own, other) * own as real == if other > own then other as real else own as real
  {
    var ratio := other as real / own as real;
    assert ratio * own as real == other as real;
    assert ratio > 1.0 <==> other > own by {
      assert (ratio - 1.0) * own as real == other as real - own as real;
    }
  }

  /** p after a hit in B1. */
  method Raise(p: real, own: nat, other: nat, c: nat) returns (q: real)
    requires own > 0 && 0.0 <= p <= c as real
    ensures q == Min(p + Delta(own, other), c as real) && p <= q <= c as real
    ensures var larger := if other > own then other else own;
      (q - p) * own as real <= larger as real && (q == c as real || (q - p) * own as real == larger as real)
    ensures RaisedBy(p, q, own, other, c)
  {
    hide Delta, Min;
    var delta := Delta(own, other);
    RaisedTarget(p, own, other, c);
    q := Min(p + delta, c as real);
  }

  /** p after a hit in B2. */
  method Lower(p: real, own: nat, other: nat, c: nat) returns (q: real)
    requires own > 0 && 0.0 <= p <= c as real
    ensures q == Max(p - Delta(own, other), 0.0) && 0.0 <= q <= p
    ensures var larger := if other > own then other else own;
      (p - q) * own as real <= larger as real && (q == 0.0 || (p - q) * own as real == larger as real)
    ensures LoweredBy(p, q, own, other)
  {
    hide Delta, Max;
    var delta := Delta(own, other);
    LoweredTarget(p, own, other, c);
    q := Max(p - delta, 0.0);
  }

  /** How p moves: by the ghosts in B1 and B2 before the request. */
  lemma ArcTarget(c: nat, s: State, x: Obj)
    requires c >= 1 && Reachable(c, s)
    ensures var r, n1, n2 := Arc(c, s, x), |s.b1|, |s.b2|;
      && (x !in s.b1 && x !in s.b2 ==> r.p == s.p)
      && (x in s.b1 ==>
            var larger := if n2 > n1 then n2 else n1;
            && s.p <= r.p <= c as real && (r.p - s.p) * n1 as real <= larger as real
            && (r.p == c as real || (r.p - s.p) * n1 as real == larger as real))
      && (x in s.b2 ==>
            var larger := if n1 > n2 then n1 else n2;
            && 0.0 <= r.p <= s.p && (s.p - r.p) * n2 as real <= larger as real
            && (r.p == 0.0 || (s.p - r.p) * n2 as real == larger as real))
  {
    hide Delta, Max, Min, NoDup, Without, Replace, Vacate, Reachable;
    OnePlace(c, s, x);
    TargetKept(c, s, x);
    if x in s.b1 {
      RaisedTarget(s.p, |s.b1|, |s.b2|, c);
    }
    if x in s.b2 {
      LoweredTarget(s.p, |s.b2|, |s.b1|, c);
    }
  }

  lemma TargetKept(c: nat, s: State, x: Obj)
    requires Reachable(c, s)
    ensures 0.0 <= s.p <= c as real && Vacate(c, s).p == s.p
    ensures forall q: State, inB2: bool :: Replace(q, inB2).p == q.p
  {
    hide NoDup;
  }

  /** A hit, and a miss while there is room. */
  lemma ArcWithoutEviction(c: nat, s: State, x: Obj)
    requires c >= 1 && Reachable(c, s)
    ensures x in s.t1 || x in s.t2 ==>
      Arc(c, s, x) == State(Without(s.t1, x), s.b1, [x] + Without(s.t2, x), s.b2, s.p)
    ensures x !in s.t1 && x !in s.t2 && |s.t1| + |s.t2| < c ==>
      s.b1 == [] && s.b2 == [] && Arc(c, s, x) == State([x] + s.t1, [], s.t2, [], s.p)
  {
    hide NoDup, Without;
  }

  /** The lists of ghosts once the object requested, or an end that there is no room for, is gone. */
  ghost function GhostsLeft1(c: nat, s: State, x: Obj): seq<Obj> {
    if x in s.b1 then Without(s.b1, x)
    else if x !in s.b2 && |s.t1| + |s.b1| == c && s.b1 != [] then s.b1[..|s.b1| - 1]
    else s.b1
  }

  ghost function GhostsLeft2(c: nat, s: State, x: Obj): seq<Obj> {
    if x in s.b2 then Without(s.b2, x)
    else if x !in s.b1 && |s.t1| + |s.b1| < c && |s.t1| + |s.b1| + |s.t2| + |s.b2| == 2 * c && s.b2 != [] then
      s.b2[..|s.b2| - 1]
    else s.b2
  }

  /** A miss in a full cache: T1 gives up its last object exactly if it is alone, or larger than p, or as large
      as p and the object came from B2; otherwise T2 does. */
  lemma ArcEvicts(c: nat, s: State, x: Obj)
    requires c >= 1 && Reachable(c, s) && x !in s.t1 && x !in s.t2 && |s.t1| + |s.t2| == c
    ensures var r, n1, n2, known := Arc(c, s, x), |s.t1|, |s.t2|, x in s.b1 || x in s.b2;
      var new1, new2 := if known then [] else [x], if known then [x] else [];
      if !known && n1 == c then r == State([x] + s.t1[..n1 - 1], [], [], s.b2, s.p)
      else if n1 >= 1 && (n1 as real > r.p || (n1 as real == r.p && x in s.b2)) then
        && r.t1 == new1 + s.t1[..n1 - 1] && r.b1 == [s.t1[n1 - 1]] + GhostsLeft1(c, s, x)
        && r.t2 == new2 + s.t2 && r.b2 == GhostsLeft2(c, s, x)
      else
        && n2 >= 1 && r.t1 == new1 + s.t1 && r.b1 == GhostsLeft1(c, s, x)
        && r.t2 == new2 + s.t2[..n2 - 1] && r.b2 == [s.t2[n2 - 1]] + GhostsLeft2(c, s, x)
  {
    hide NoDup, Delta, GhostB1, GhostB2, Miss, Reachable, Without, GhostsLeft1, GhostsLeft2, Min, Max;
    OnePlace(c, s, x);
    if x in s.b1 {
      EvictsForB1(c, s, x);
    } else if x in s.b2 {
      EvictsForB2(c, s, x);
    } else {
      EvictsForMiss(c, s, x);
    }
  }

  lemma Bounds(c: nat, s: State)
    requires Reachable(c, s)
    ensures |s.t1| + |s.t2| <= c && |s.t1| + |s.b1| <= c && 0.0 <= s.p <= c as real
  {
  }

  lemma EvictsForB1(c: nat, s: State, x: Obj)
    requires c >= 1 && Reachable(c, s) && x in s.b1 && |s.t1| + |s.t2| == c
    ensures var r, n1, n2 := GhostB1(c, s, x), |s.t1|, |s.t2|;
      && n1 < c
      && (if n1 >= 1 && n1 as real > r.p then
            && r.t1 == s.t1[..n1 - 1] && r.b1 == [s.t1[n1 - 1]] + GhostsLeft1(c, s, x)
            && r.t2 == [x] + s.t2 && r.b2 == GhostsLeft2(c, s, x)
          else
            && n2 >= 1 && r.t1 == s.t1 && r.b1 == GhostsLeft1(c, s, x)
            && r.t2 == [x] + s.t2[..n2 - 1] && r.b2 == [s.t2[n2 - 1]] + GhostsLeft2(c, s, x))
  {
    hide NoDup, Delta, Min, Reachable, Without;
    OnePlace(c, s, x);
    Bounds(c, s);
    if s.t1 != [] {
      assert Back(s.t1) == [s.t1[|s.t1| - 1]] && s.t1[|s.t1| - 1] in s.t1;
      WithoutBehind(s.t1[|s.t1| - 1], s.b1, x);
    }
  }

  lemma WithoutBehind(o: Obj, s: seq<Obj>, x: Obj)
    ensures o != x ==> Without([o] + s, x) == [o] + Without(s, x)
  {
    assert ([o] + s)[1..] == s;
  }

  lemma LoweredBelow(p: real, own: nat, other: nat, c: nat)
    requires own > 0 && 0.0 <= p <= c as real && c >= 1
    ensures Max(p - Delta(own, other), 0.0) < c as real
  {
  }

  lemma EvictsForB2(c: nat, s: State, x: Obj)
    requires c >= 1 && Reachable(c, s) && x in s.b2 && |s.t1| + |s.t2| == c
    ensures var r, n1, n2 := GhostB2(s, x), |s.t1|, |s.t2|;
      if n1 >= 1 && n1 as real >= r.p then
        && r.t1 == s.t1[..n1 - 1] && r.b1 == [s.t1[n1 - 1]] + GhostsLeft1(c, s, x)
        && r.t2 == [x] + s.t2 && r.b2 == GhostsLeft2(c, s, x)
      else
        && n2 >= 1 && r.t1 == s.t1 && r.b1 == GhostsLeft1(c, s, x)
        && r.t2 == [x] + s.t2[..n2 - 1] && r.b2 == [s.t2[n2 - 1]] + GhostsLeft2(c, s, x)
  {
    hide NoDup, Delta, Max, Reachable, Without;
    OnePlace(c, s, x);
    Bounds(c, s);
    LoweredBelow(s.p, |s.b2|, |s.b1|, c);
    if s.t2 != [] {
      assert Back(s.t2) == [s.t2[|s.t2| - 1]] && s.t2[|s.t2| - 1] in s.t2;
      WithoutBehind(s.t2[|s.t2| - 1], s.b2, x);
    }
  }

  lemma EvictsForMiss(c: nat, s: State, x: Obj)
    requires c >= 1 && Reachable(c, s) && x !in s.L1() && x !in s.L2() && |s.t1| + |s.t2| == c
    ensures var r, n1, n2 := Miss(c, s, x), |s.t1|, |s.t2|;
      if n1 == c then r == State([x] + s.t1[..n1 - 1], [], [], s.b2, s.p)
      else if n1 >= 1 && n1 as real > r.p then
        && r.t1 == [x] + s.t1[..n1 - 1] && r.b1 == [s.t1[n1 - 1]] + GhostsLeft1(c, s, x)
        && r.t2 == s.t2 && r.b2 == GhostsLeft2(c, s, x)
      else
        && n2 >= 1 && r.t1 == [x] + s.t1 && r.b1 == GhostsLeft1(c, s, x)
        && r.t2 == s.t2[..n2 - 1] && r.b2 == [s.t2[n2 - 1]] + GhostsLeft2(c, s, x)
  {
    hide NoDup;
  }
}
