/** The doubly linked lists that the eviction policies keep their objects in. */
module CacheList {
  import opened Lists

  class CacheObj {
    const objId: nat
    var prev: CacheObj?
    var next: CacheObj?

    constructor (objId: nat)
      ensures this.objId == objId && prev == null && next == null
    {
      this.objId, prev, next := objId, null, null;
    }
  }

  ghost function Nth(s: seq<CacheObj>, i: int): CacheObj? {
    if 0 <= i < |s| then s[i] else null
  }

  lemma FirstOf(s: seq<CacheObj>)
    ensures Nth(s, 0) == if s == [] then null else s[0]
  {
  }

  lemma Nths(s: seq<CacheObj>, k: nat)
    requires k < |s|
    ensures Nth(s, 0) == s[0] && Nth(s, |s| - 1) == s[|s| - 1] && Nth(s, k) == s[k]
    ensures Nth(s, k - 1) == if k > 0 then s[k - 1] else null
    ensures Nth(s, k + 1) == (if k + 1 < |s| then s[k + 1] else null)
    ensures Nth(s, -1) == null && Nth(s, |s|) == null
    ensures |s| > 1 ==> Nth(s, 1) == s[1] && Nth(s, |s| - 2) == s[|s| - 2]
  {
  }

  lemma RemovedEnds(s: seq<CacheObj>, k: nat)
    requires k < |s|
    ensures var r := Removed(s, k);
      && Nth(r, 0) == (if k == 0 then Nth(s, 1) else Nth(s, 0))
      && Nth(r, |r| - 1) == (if k == |s| - 1 then Nth(s, |s| - 2) else Nth(s, |s| - 1))
      && Nth([s[k]] + r, 0) == s[k] && Nth(r + [s[k]], |r|) == s[k]
      && (|s| > 1 ==> Nth([s[k]] + r, |r|) == Nth(r, |r| - 1) && Nth(r + [s[k]], 0) == Nth(r, 0))
      && (k == 0 ==> [s[k]] + r == s) && (k == |s| - 1 ==> r + [s[k]] == s)
      && forall o :: o in r ==> o in s
  {
  }

  /** The objects of s are linked in this order, both ways. */
  ghost predicate Linked(s: seq<CacheObj>)
    reads s
  {
    && NoDup(s)
    && forall i :: 0 <= i < |s| ==> s[i].prev == Nth(s, i - 1) && s[i].next == Nth(s, i + 1)
  }

  /** What moving, removing and adding mean for the sequence of objects. */
  ghost function Removed(s: seq<CacheObj>, k: nat): seq<CacheObj>
    requires k < |s|
  {
    s[..k] + s[k + 1..]
  }

  lemma RemovedAt(s: seq<CacheObj>, k: nat)
    requires NoDup(s) && k < |s|
    ensures NoDup(Removed(s, k)) && s[k] !in Removed(s, k) && |Removed(s, k)| == |s| - 1
    ensures forall o :: o in Removed(s, k) <==> o in s && o != s[k]
    ensures forall i :: 0 <= i < |s| - 1 ==> Removed(s, k)[i] == if i < k then s[i] else s[i + 1]
  {
    var r := Removed(s, k);
    forall o | o in s && o != s[k] ensures o in r {
      var i :| 0 <= i < |s| && s[i] == o;
      assert r[if i < k then i else i - 1] == o;
    }
  }

  /** Object k is bypassed: its neighbours are linked to each other. */
  ghost predicate Bypassed(s: seq<CacheObj>, k: nat, i: nat)
    requires i < |s|
    reads s[i]
  {
    && s[i].next == (if i + 1 == k then Nth(s, k + 1) else Nth(s, i + 1))
    && s[i].prev == (if i == k + 1 then Nth(s, k - 1) else Nth(s, i - 1))
  }

  lemma LinkedRemoved(s: seq<CacheObj>, k: nat)
    requires NoDup(s) && k < |s| && forall i :: 0 <= i < |s| && i != k ==> Bypassed(s, k, i)
    ensures Linked(Removed(s, k))
  {
    hide NoDup;
    var r := Removed(s, k);
    RemovedAt(s, k);
    forall i | 0 <= i < |r| ensures r[i].prev == Nth(r, i - 1) && r[i].next == Nth(r, i + 1) {
      assert Bypassed(s, k, if i < k then i else i + 1);
    }
  }

  /** Object k goes to the front: the old first object points back to it. */
  lemma LinkedToHead(s: seq<CacheObj>, k: nat)
    requires NoDup(s) && 0 < k < |s|
    requires forall i :: 0 < i < |s| && i != k ==> Bypassed(s, k, i)
    requires s[0].next == (if k == 1 then Nth(s, 2) else Nth(s, 1)) && s[0].prev == s[k]
    requires s[k].prev == null && s[k].next == s[0]
    ensures Linked([s[k]] + Removed(s, k))
  {
    hide NoDup;
    var r := Removed(s, k);
    var t := [s[k]] + r;
    RemovedAt(s, k);
    FrontNoDup(r, s[k]);
    forall i | 0 <= i < |t| ensures t[i].prev == Nth(t, i - 1) && t[i].next == Nth(t, i + 1) {
      if i > 1 {
        assert Bypassed(s, k, if i - 1 < k then i - 1 else i);
      }
    }
  }

  /** o goes before all objects. */
  lemma LinkedFront(o: CacheObj, s: seq<CacheObj>)
    requires NoDup(s) && o !in s && o.prev == null && o.next == Nth(s, 0)
    requires forall i :: 0 <= i < |s| ==>
      s[i].prev == (if i == 0 then o else Nth(s, i - 1)) && s[i].next == Nth(s, i + 1)
    ensures Linked([o] + s) && Nth([o] + s, 0) == o && Nth([o] + s, |s|) == if s == [] then o else s[|s| - 1]
  {
    hide NoDup;
    FrontNoDup(s, o);
    var t := [o] + s;
    forall i | 0 <= i < |t| ensures t[i].prev == Nth(t, i - 1) && t[i].next == Nth(t, i + 1) {
      if i > 0 {
        assert t[i] == s[i - 1];
      }
    }
  }

  /** Object k goes to the end. */
  lemma LinkedToTail(s: seq<CacheObj>, k: nat)
    requires NoDup(s) && k + 1 < |s|
    requires forall i :: 0 <= i < |s| - 1 && i != k ==> Bypassed(s, k, i)
    requires var last := |s| - 1;
      s[last].prev == (if last == k + 1 then Nth(s, k - 1) else Nth(s, last - 1)) && s[last].next == s[k]
    requires s[k].next == null && s[k].prev == s[|s| - 1]
    ensures Linked(Removed(s, k) + [s[k]])
  {
    hide NoDup;
    var r := Removed(s, k);
    var t := r + [s[k]];
    RemovedAt(s, k);
    FrontNoDup(r, s[k]);
    forall i | 0 <= i < |t| ensures t[i].prev == Nth(t, i - 1) && t[i].next == Nth(t, i + 1) {
      if i < |r| - 1 {
        assert Bypassed(s, k, if i < k then i else i + 1);
      }
    }
  }

  class List {
    var head: CacheObj?
    var tail: CacheObj?
    ghost var objs: seq<CacheObj>

    ghost predicate Valid()
      reads this, objs
    {
      Linked(objs) && head == Nth(objs, 0) && tail == Nth(objs, |objs| - 1)
    }

    /** Where object k stands, and that it stands nowhere else. */
    lemma Around(k: nat)
      requires Valid() && k < |objs|
      ensures NoDup(objs) && objs[k].prev == Nth(objs, k - 1) && objs[k].next == Nth(objs, k + 1)
      ensures head == objs[0] && tail == objs[|objs| - 1]
      ensures forall i :: 0 <= i < |objs| && i != k ==> objs[i] != objs[k]
      ensures forall i :: 0 <= i < |objs| ==> objs[i].prev == Nth(objs, i - 1) && objs[i].next == Nth(objs, i + 1)
    {
    }

    constructor ()
      ensures Valid() && objs == []
    {
      head, tail, objs := null, null, [];
    }

    /** First half of a removal: head and tail let go of object k. */
    method LetGo(o: CacheObj, ghost k: nat)
      requires Valid() && k < |objs| && o == objs[k]
      modifies this`head, this`tail, objs
      ensures o.prev == Nth(objs, k - 1) && o.next == Nth(objs, k + 1)
      ensures head == Nth(objs, if k == 0 then 1 else 0)
      ensures tail == Nth(objs, if k == |objs| - 1 then |objs| - 2 else |objs| - 1)
      ensures forall i :: 0 <= i < |objs| && i != k ==>
        && objs[i].next == (if i + 1 == k && k == |objs| - 1 then null else Nth(objs, i + 1))
        && objs[i].prev == (if i == 1 && k == 0 then null else Nth(objs, i - 1))
    {
      hide NoDup, Linked, Nth;
      Nths(objs, k);
      Around(k);
      Ends(k);
      if k > 0 {
        Around(k - 1);
      }
      if k + 1 < |objs| {
        Around(k + 1);
      }
      if o == head {
        head := o.next;
        if o.next != null {
          o.next.prev := null;
        }
      }
      if o == tail {
        tail := o.prev;
        if o.prev != null {
          o.prev.next := null;
        }
      }
    }

    lemma AllDifferent()
      requires Valid()
      ensures NoDup(objs)
    {
    }

    /** Second half: the neighbours of object k are linked to each other. */
    method Bridge(o: CacheObj, ghost k: nat)
      requires NoDup(objs) && k < |objs| && o == objs[k]
      requires o.prev == Nth(objs, k - 1) && o.next == Nth(objs, k + 1)
      requires forall i :: 0 <= i < |objs| && i != k ==>
        && objs[i].next == (if i + 1 == k && k == |objs| - 1 then null else Nth(objs, i + 1))
        && objs[i].prev == (if i == 1 && k == 0 then null else Nth(objs, i - 1))
      modifies objs
      ensures o.prev == null && o.next == null && forall i :: 0 <= i < |objs| && i != k ==> Bypassed(objs, k, i)
    {
      hide NoDup, Nth;
      Nths(objs, k);
      OnlyPlace(objs, k);
      if k > 0 {
        OnlyPlace(objs, k - 1);
      }
      if k + 1 < |objs| {
        OnlyPlace(objs, k + 1);
      }
      if o.prev != null {
        o.prev.next := o.next;
      }
      if o.next != null {
        o.next.prev := o.prev;
      }
      o.prev := null;
      o.next := null;
    }

    /** remove_obj_from_list */
    method Remove(o: CacheObj, ghost k: nat)
      requires Valid() && k < |objs| && o == objs[k]
      modifies this, objs
      ensures Valid() && objs == Removed(old(objs), k) && o.prev == null && o.next == null
    {
      hide NoDup, Linked, Nth, Bypassed, Removed;
      AllDifferent();
      RemovedEnds(objs, k);
      LetGo(o, k);
      Bridge(o, k);
      LinkedRemoved(objs, k);
      objs := Removed(objs, k);
    }

    /** prepend_obj_to_head: o is in no list. */
    method Prepend(o: CacheObj)
      requires Valid() && o !in objs
      modifies this, o, objs
      ensures Valid() && objs == [o] + old(objs)
    {
      hide NoDup, Linked, Nth;
      Before();
      FirstOf(objs);
      o.prev := null;
      o.next := head;
      if tail == null {
        tail := o;
      }
      if head != null {
        head.prev := o;
      }
      head := o;
      LinkedFront(o, objs);
      objs := [o] + objs;
    }

    lemma Before()
      requires Valid()
      ensures NoDup(objs) && (head == null <==> objs == []) && (tail == null <==> objs == [])
      ensures objs != [] ==> head == objs[0] && tail == objs[|objs| - 1]
      ensures forall i :: 0 <= i < |objs| ==> objs[i].prev == Nth(objs, i - 1) && objs[i].next == Nth(objs, i + 1)
      ensures forall i :: 0 < i < |objs| ==> objs[i] != objs[0]
    {
    }

    /** move_obj_to_head */
    method MoveToHead(o: CacheObj, ghost k: nat)
      requires Valid() && k < |objs| && o == objs[k]
      modifies this, objs
      ensures Valid() && objs == [o] + Removed(old(objs), k)
    {
      hide NoDup, Linked, Nth;
      Ends(k);
      RemovedEnds(objs, k);
      if head == tail {
        return;
      }
      if o == head {
        return;
      }
      if o == tail {
        LastToHead(o, k);
        return;
      }
      InnerToHead(o, k);
    }

    lemma Ends(k: nat)
      requires Valid() && k < |objs|
      ensures head == objs[0] && tail == objs[|objs| - 1]
      ensures (objs[k] == head <==> k == 0) && (objs[k] == tail <==> k == |objs| - 1)
      ensures head == tail ==> |objs| == 1
    {
    }

    method LastToHead(o: CacheObj, ghost k: nat)
      requires Valid() && 0 < k == |objs| - 1 && o == objs[k]
      modifies this, objs
      ensures Valid() && objs == [o] + Removed(old(objs), k)
    {
      hide NoDup, Linked, Nth;
      Nths(objs, k);
      Around(k);
      Around(k - 1);
      Around(0);
      RemovedAt(objs, k);
      RemovedEnds(objs, k);
      o.prev.next := o.next;
      tail := o.prev;
      head.prev := o;
      o.prev := null;
      o.next := head;
      LinkedToHead(objs, k);
      head := o;
      objs := [o] + Removed(objs, k);
    }

    method InnerToHead(o: CacheObj, ghost k: nat)
      requires Valid() && 0 < k < |objs| - 1 && o == objs[k]
      modifies this, objs
      ensures Valid() && objs == [o] + Removed(old(objs), k)
    {
      hide NoDup, Linked, Nth;
      Nths(objs, k);
      Around(k);
      if k > 0 {
        Around(k - 1);
      }
      if k + 1 < |objs| {
        Around(k + 1);
      }
      Around(0);
      Around(|objs| - 1);
      RemovedAt(objs, k);
      RemovedEnds(objs, k);
      o.prev.next := o.next;
      o.next.prev := o.prev;
      head.prev := o;
      o.prev := null;
      o.next := head;
      LinkedToHead(objs, k);
      head := o;
      objs := [o] + Removed(objs, k);
    }

    /** move_obj_to_tail */
    method MoveToTail(o: CacheObj, ghost k: nat)
      requires Valid() && k < |objs| && o == objs[k]
      modifies this, objs
      ensures Valid() && objs == Removed(old(objs), k) + [o]
    {
      hide NoDup, Linked, Nth;
      Ends(k);
      RemovedEnds(objs, k);
      if head == tail {
        return;
      }
      if o == head {
        FirstToTail(o, k);
        return;
      }
      if o == tail {
        return;
      }
      InnerToTail(o, k);
    }

    method FirstToTail(o: CacheObj, ghost k: nat)
      requires Valid() && 0 == k < |objs| - 1 && o == objs[k]
      modifies this, objs
      ensures Valid() && objs == Removed(old(objs), k) + [o]
    {
      hide NoDup, Linked, Nth;
      Nths(objs, k);
      Around(0);
      Around(1);
      Around(|objs| - 1);
      RemovedAt(objs, k);
      RemovedEnds(objs, k);
      head := o.next;
      o.next.prev := null;
      tail.next := o;
      o.next := null;
      o.prev := tail;
      LinkedToTail(objs, k);
      tail := o;
      objs := Removed(objs, k) + [o];
    }

    method InnerToTail(o: CacheObj, ghost k: nat)
      requires Valid() && 0 < k < |objs| - 1 && o == objs[k]
      modifies this, objs
      ensures Valid() && objs == Removed(old(objs), k) + [o]
    {
      hide NoDup, Linked, Nth;
      Nths(objs, k);
      Around(k);
      if k > 0 {
        Around(k - 1);
      }
      if k + 1 < |objs| {
        Around(k + 1);
      }
      Around(0);
      Around(|objs| - 1);
      RemovedAt(objs, k);
      RemovedEnds(objs, k);
      o.prev.next := o.next;
      o.next.prev := o.prev;
      tail.next := o;
      o.next := null;
      o.prev := tail;
      LinkedToTail(objs, k);
      tail := o;
      objs := Removed(objs, k) + [o];
    }
  }
}
