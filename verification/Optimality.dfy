/** Belady's rule on sets of objects: evicting the object whose next request is farthest away loses no
    more requests than any other way to choose. */
module Optimality {
  import opened Lists
  import opened Recency

  /** The largest 64-bit integer: the next access time of an object that is not requested again. */
  const NEVER: int := 0x7fff_ffff_ffff_ffff

  /** The time (counted from 1) of the first request for o at position i or later. */
  function NextTime(tr: seq<Obj>, o: Obj, i: nat): (t: int)
    requires i <= |tr|
    ensures t == NEVER || i < t <= |tr|
  {
    var p := NextFrom(tr, o, i);
    if p < 0 then NEVER else p + 1
  }

  lemma NextTimeStep(tr: seq<Obj>, i: nat, o: Obj)
    requires i < |tr|
    ensures NextTime(tr, o, i) == if o == tr[i] then i + 1 else NextTime(tr, o, i + 1)
  {
  }

  // ---- runs ------------------------------------------------------------------------------------

  /** What a cache of c objects may do on a request: put a missed object in, and drop others. */
  ghost predicate Allowed(c: nat, before: set<Obj>, o: Obj, after: set<Obj>) {
    after <= before + {o} && |after| <= c && (o !in before ==> o in after)
  }

  /** The contents of a cache before each request, and at the end. */
  ghost predicate IsRun(tr: seq<Obj>, c: nat, run: seq<set<Obj>>) {
    && |run| == |tr| + 1 && run[0] == {}
    && forall i :: 0 <= i < |tr| ==> Allowed(c, run[i], tr[i], run[i + 1])
  }

  ghost predicate IsFarthest(tr: seq<Obj>, i: nat, s: set<Obj>, v: Obj)
    requires i <= |tr|
  {
    v in s && forall o :: o in s ==> NextTime(tr, o, i) <= NextTime(tr, v, i)
  }

  /** What Belady's rule does on request i: on a miss a full cache drops an object whose next request
      is farthest away. */
  ghost predicate BeladyStep(tr: seq<Obj>, c: nat, i: nat, before: set<Obj>, after: set<Obj>)
    requires i < |tr|
  {
    if tr[i] in before then after == before
    else if |before| < c then after == before + {tr[i]}
    else exists v :: IsFarthest(tr, i, before, v) && after == before - {v} + {tr[i]}
  }

  ghost predicate IsBeladyRun(tr: seq<Obj>, c: nat, run: seq<set<Obj>>) {
    && |run| == |tr| + 1 && run[0] == {}
    && forall i :: 0 <= i < |tr| ==> BeladyStep(tr, c, i, run[i], run[i + 1])
  }

  /** The misses among the first n requests. */
  ghost function Misses(tr: seq<Obj>, run: seq<set<Obj>>, n: nat): nat
    requires n <= |tr| && n < |run|
  {
    if n == 0 then 0 else Misses(tr, run, n - 1) + if tr[n - 1] in run[n - 1] then 0 else 1
  }

  // ---- counting what is due by time t -------------------------------------------------------------

  /** The objects of s whose next request comes at time t or before. */
  ghost function Due(tr: seq<Obj>, i: nat, s: set<Obj>, t: int): set<Obj>
    requires i <= |tr|
  {
    set o | o in s && NextTime(tr, o, i) <= t
  }

  ghost function One(b: bool): nat {
    if b then 1 else 0
  }

  /** What is due of the old contents once the request is served, the object itself aside. */
  lemma DueOthers(tr: seq<Obj>, i: nat, s: set<Obj>, t: int)
    requires i < |tr| && t > i
    ensures Due(tr, i + 1, s - {tr[i]}, t) == Due(tr, i, s, t) - {tr[i]}
    ensures |Due(tr, i + 1, s - {tr[i]}, t)| == |Due(tr, i, s, t)| - One(tr[i] in s)
  {
    forall o {
      NextTimeStep(tr, i, o);
    }
    assert Due(tr, i + 1, s - {tr[i]}, t) == Due(tr, i, s, t) - {tr[i]};
  }

  lemma DueAdd(tr: seq<Obj>, i: nat, s: set<Obj>, o: Obj, t: int)
    requires i <= |tr| && o !in s
    ensures |Due(tr, i, s + {o}, t)| == |Due(tr, i, s, t)| + One(NextTime(tr, o, i) <= t)
  {
    if NextTime(tr, o, i) <= t {
      assert Due(tr, i, s + {o}, t) == Due(tr, i, s, t) + {o};
    } else {
      assert Due(tr, i, s + {o}, t) == Due(tr, i, s, t);
    }
  }

  lemma DueFewer(tr: seq<Obj>, i: nat, a: set<Obj>, b: set<Obj>, t: int)
    requires i <= |tr| && a <= b
    ensures |Due(tr, i, a, t)| <= |Due(tr, i, b, t)| && |Due(tr, i, a, t)| <= |a|
  {
    SubsetSize(Due(tr, i, a, t), Due(tr, i, b, t));
    SubsetSize(Due(tr, i, a, t), a);
  }

  /** Any cache: after the request at most as much is due as before, but for the requested object. */
  lemma AllowedDue(tr: seq<Obj>, c: nat, i: nat, before: set<Obj>, after: set<Obj>, t: int)
    requires i < |tr| && t > i && Allowed(c, before, tr[i], after) && |before| <= c
    ensures var again := One(NextTime(tr, tr[i], i + 1) <= t);
      && |Due(tr, i + 1, after, t)| <= |Due(tr, i, before, t)| - One(tr[i] in before) + again
      && |Due(tr, i + 1, after, t)| <= c - 1 + again
  {
    hide Due;
    var x := tr[i];
    var rest := after - {x};
    DueOthers(tr, i, before, t);
    DueFewer(tr, i + 1, rest, before - {x}, t);
    if x in after {
      DueAdd(tr, i + 1, rest, x, t);
      assert after == rest + {x};
    } else {
      assert after == rest;
      SubsetSize(rest, before - {x});
    }
  }

  /** If the farthest object was due, all were. */
  lemma EvictedDue(tr: seq<Obj>, i: nat, before: set<Obj>, v: Obj, t: int)
    requires i < |tr| && tr[i] !in before && IsFarthest(tr, i, before, v)
    ensures var n := |Due(tr, i + 1, before - {v}, t)|;
      n == |Due(tr, i, before, t)| || n == |before| - 1
  {
    forall o {
      NextTimeStep(tr, i, o);
    }
    if NextTime(tr, v, i) <= t {
      assert Due(tr, i + 1, before - {v}, t) == before - {v};
    } else {
      assert Due(tr, i + 1, before - {v}, t) == Due(tr, i, before, t);
    }
  }

  /** Belady's cache: as much is due as before, or everything it holds is due. */
  lemma BeladyDue(tr: seq<Obj>, c: nat, i: nat, before: set<Obj>, after: set<Obj>, t: int)
    requires i < |tr| && t > i && BeladyStep(tr, c, i, before, after) && |before| <= c && c >= 1
    ensures |after| <= c
    ensures var again := One(NextTime(tr, tr[i], i + 1) <= t);
      || |Due(tr, i + 1, after, t)| == |Due(tr, i, before, t)| - One(tr[i] in before) + again
      || (tr[i] !in before && |Due(tr, i + 1, after, t)| == c - 1 + again)
  {
    hide Due;
    var x := tr[i];
    DueOthers(tr, i, before, t);
    if x in before {
      DueAdd(tr, i + 1, before - {x}, x, t);
      assert before == before - {x} + {x};
    } else {
      assert before - {x} == before;
      if |before| < c {
        DueAdd(tr, i + 1, before, x, t);
      } else {
        var v :| IsFarthest(tr, i, before, v) && after == before - {v} + {x};
        DueAdd(tr, i + 1, before - {v}, x, t);
        EvictedDue(tr, i, before, v, t);
      }
    }
  }

  /** Only the requested object is due at the time of the request. */
  lemma DueNow(tr: seq<Obj>, i: nat, s: set<Obj>)
    requires i < |tr| < NEVER
    ensures |Due(tr, i, s, i + 1)| == One(tr[i] in s)
  {
    forall o {
      NextTimeStep(tr, i, o);
    }
    if tr[i] in s {
      assert Due(tr, i, s, i + 1) == {tr[i]};
    } else {
      assert Due(tr, i, s, i + 1) == {};
    }
  }

  /** At every moment, for every t, the other cache may hold more objects due by t than Belady's, but
      only as many as it has lost requests more. */
  ghost predicate Ahead(tr: seq<Obj>, i: nat, b: set<Obj>, d: set<Obj>, lead: int)
    requires i <= |tr|
  {
    lead >= 0 && forall t :: t < NEVER ==> AheadBy(tr, i, b, d, lead, t)
  }

  ghost predicate AheadBy(tr: seq<Obj>, i: nat, b: set<Obj>, d: set<Obj>, lead: int, t: int)
    requires i <= |tr|
  {
    |Due(tr, i, d, t)| - |Due(tr, i, b, t)| <= lead
  }

  lemma AheadStep(tr: seq<Obj>, c: nat, i: nat, b: set<Obj>, d: set<Obj>, b': set<Obj>, d': set<Obj>, lead: int)
    requires i < |tr| < NEVER && c >= 1 && |b| <= c && |d| <= c
    requires BeladyStep(tr, c, i, b, b') && Allowed(c, d, tr[i], d')
    requires Ahead(tr, i, b, d, lead)
    ensures Ahead(tr, i + 1, b', d', lead + One(tr[i] !in d) - One(tr[i] !in b))
  {
    hide Due, BeladyStep, Allowed;
    DueNow(tr, i, b);
    DueNow(tr, i, d);
    var lead' := lead + One(tr[i] !in d) - One(tr[i] !in b);
    assert AheadBy(tr, i, b, d, lead, i + 1);
    var n := i + 1;
    forall t | t < NEVER ensures AheadBy(tr, n, b', d', lead', t) {
      if t > i {
        AllowedDue(tr, c, i, d, d', t);
        BeladyDue(tr, c, i, b, b', t);
        assert AheadBy(tr, i, b, d, lead, t);
      } else {
        NothingDue(tr, i + 1, d', t);
      }
    }
  }

  lemma NothingDue(tr: seq<Obj>, i: nat, s: set<Obj>, t: int)
    requires i <= |tr| && t < NEVER && t <= i
    ensures Due(tr, i, s, t) == {}
  {
  }

  lemma {:induction false} OptimalUpTo(tr: seq<Obj>, c: nat, b: seq<set<Obj>>, d: seq<set<Obj>>, n: nat)
    requires n <= |tr| < NEVER && c >= 1 && IsBeladyRun(tr, c, b) && IsRun(tr, c, d)
    ensures |b[n]| <= c && |d[n]| <= c
    ensures Ahead(tr, n, b[n], d[n], Misses(tr, d, n) - Misses(tr, b, n))
  {
    hide BeladyStep, Ahead;
    if n == 0 {
      AheadStart(tr);
    } else {
      OptimalUpTo(tr, c, b, d, n - 1);
      BeladyDue(tr, c, n - 1, b[n - 1], b[n], n);
      AheadStep(tr, c, n - 1, b[n - 1], d[n - 1], b[n], d[n], Misses(tr, d, n - 1) - Misses(tr, b, n - 1));
    }
  }

  lemma AheadStart(tr: seq<Obj>)
    ensures Ahead(tr, 0, {}, {}, 0)
  {
  }

  /** Belady's rule is optimal. */
  lemma BeladyIsOptimal(tr: seq<Obj>, c: nat, b: seq<set<Obj>>, d: seq<set<Obj>>)
    requires |tr| < NEVER && c >= 1 && IsBeladyRun(tr, c, b) && IsRun(tr, c, d)
    ensures Misses(tr, b, |tr|) <= Misses(tr, d, |tr|)
  {
    OptimalUpTo(tr, c, b, d, |tr|);
  }

  /** And it plays by the same rules as the caches it is compared with. */
  lemma {:induction false} BeladyRunIsRun(tr: seq<Obj>, c: nat, b: seq<set<Obj>>, n: nat)
    requires n <= |tr| && c >= 1 && IsBeladyRun(tr, c, b)
    ensures |b[n]| <= c
    ensures n > 0 ==> Allowed(c, b[n - 1], tr[n - 1], b[n])
  {
    if n > 0 {
      BeladyRunIsRun(tr, c, b, n - 1);
      assert BeladyStep(tr, c, n - 1, b[n - 1], b[n]);
      BeladyDue(tr, c, n - 1, b[n - 1], b[n], n);
    }
  }

  // ---- any two runs of the rule miss the same requests -------------------------------------------------

  /** The start of a run of the rule. */
  ghost predicate IsBeladyPrefix(tr: seq<Obj>, c: nat, run: seq<set<Obj>>) {
    && 1 <= |run| <= |tr| + 1 && run[0] == {}
    && forall k :: 0 <= k < |run| - 1 ==> BeladyStep(tr, c, k, run[k], run[k + 1])
  }

  lemma {:induction false} FarthestExists(tr: seq<Obj>, i: nat, s: set<Obj>) returns (v: Obj)
    requires i <= |tr| && s != {}
    ensures IsFarthest(tr, i, s, v)
  {
    hide NextTime;
    var u :| u in s;
    v := u;
    assert forall o :: o in s ==> o == u || o in s - {u};
    if s - {u} != {} {
      var w := FarthestExists(tr, i, s - {u});
      v := if NextTime(tr, w, i) >= NextTime(tr, u, i) then w else u;
    }
  }

  lemma StepExists(tr: seq<Obj>, c: nat, i: nat, before: set<Obj>) returns (after: set<Obj>)
    requires i < |tr| && c >= 1
    ensures BeladyStep(tr, c, i, before, after)
  {
    hide IsFarthest;
    if tr[i] in before {
      after := before;
    } else if |before| < c {
      after := before + {tr[i]};
    } else {
      var v := FarthestExists(tr, i, before);
      after := before - {v} + {tr[i]};
    }
  }

  /** Every start of a run is the start of a whole one. */
  lemma {:induction false} Extend(tr: seq<Obj>, c: nat, run: seq<set<Obj>>) returns (b: seq<set<Obj>>)
    requires c >= 1 && IsBeladyPrefix(tr, c, run)
    ensures IsBeladyRun(tr, c, b) && b[..|run|] == run
    decreases |tr| - |run|
  {
    hide BeladyStep;
    b := run;
    if |run| <= |tr| {
      var after := StepExists(tr, c, |run| - 1, run[|run| - 1]);
      b := Extend(tr, c, run + [after]);
    }
  }

  /** Runs of the rule differ at most in objects that are not requested again. */
  lemma SameMisses(tr: seq<Obj>, c: nat, b: seq<set<Obj>>, d: seq<set<Obj>>, n: nat)
    requires n <= |tr| < NEVER && c >= 1 && IsBeladyRun(tr, c, b) && IsBeladyRun(tr, c, d)
    ensures Misses(tr, b, n) == Misses(tr, d, n)
    ensures n < |tr| ==> (tr[n] in b[n] <==> tr[n] in d[n])
  {
    NoFewer(tr, c, b, d, n);
    NoFewer(tr, c, d, b, n);
    if n < |tr| {
      NoFewer(tr, c, b, d, n + 1);
      NoFewer(tr, c, d, b, n + 1);
    }
  }

  lemma NoFewer(tr: seq<Obj>, c: nat, b: seq<set<Obj>>, d: seq<set<Obj>>, n: nat)
    requires n <= |tr| < NEVER && c >= 1 && IsBeladyRun(tr, c, b) && IsBeladyRun(tr, c, d)
    ensures Misses(tr, b, n) <= Misses(tr, d, n)
  {
    hide BeladyStep, Allowed;
    forall i | 0 <= i < |tr| ensures Allowed(c, d[i], tr[i], d[i + 1]) {
      BeladyRunIsRun(tr, c, d, i + 1);
    }
    OptimalUpTo(tr, c, b, d, n);
  }

  /** With room for all objects the rule never evicts. */
  lemma {:induction false} RoomyRun(tr: seq<Obj>, c: nat, b: seq<set<Obj>>, n: nat)
    requires n <= |tr| && c >= |Elems(tr)| && IsBeladyRun(tr, c, b)
    ensures b[n] == Elems(tr[..n]) && Misses(tr, b, n) == |Elems(tr[..n])|
  {
    if n > 0 {
      RoomyRun(tr, c, b, n - 1);
      var past, o := tr[..n - 1], tr[n - 1];
      assert tr[..n] == past + [o];
      ElemsSnoc(past, o);
      SubsetSize(Elems(past + [o]), Elems(tr));
      assert BeladyStep(tr, c, n - 1, b[n - 1], b[n]);
    }
  }
}
