/** The indexed binary heap: slot 0 is unused, every node knows its slot, the largest priority is on top. */
module PQueue {
  class PqNode {
    var pri: real
    const objId: nat
    var pos: nat

    constructor (objId: nat, pri: real)
      ensures this.objId == objId && this.pri == pri
    {
      this.objId, this.pri, pos := objId, pri, 0;
    }
  }

  /** The source's order: does the second priority go above the first? */
  predicate CmpPri(next: real, curr: real) {
    next < curr
  }

  // ---- heap order on sequences of priorities ---------------------------------------------------

  ghost predicate HeapOrdered(s: seq<real>) {
    forall k :: 2 <= k < |s| ==> s[k] <= s[k / 2]
  }

  /** Heap order, but slot i may be too large for its parent. */
  ghost predicate TooLargeAt(s: seq<real>, i: nat) {
    && (forall k :: 2 <= k < |s| && k != i ==> s[k] <= s[k / 2])
    && (forall k :: 2 <= k < |s| && k / 2 == i && i >= 2 ==> s[k] <= s[i / 2])
  }

  /** Heap order, but slot i may be too small for its children. */
  ghost predicate TooSmallAt(s: seq<real>, i: nat) {
    && (forall k :: 2 <= k < |s| && k / 2 != i ==> s[k] <= s[k / 2])
    && (forall k :: 2 <= k < |s| && k / 2 == i && i >= 2 ==> s[k] <= s[i / 2])
  }

  ghost function Swap<T>(s: seq<T>, i: nat, j: nat): seq<T>
    requires i < |s| && j < |s|
  {
    s[i := s[j]][j := s[i]]
  }

  lemma RaiseStep(s: seq<real>, i: nat)
    requires 2 <= i < |s| && TooLargeAt(s, i) && s[i / 2] < s[i]
    ensures TooLargeAt(Swap(s, i, i / 2), i / 2)
  {
    var p, t := i / 2, Swap(s, i, i / 2);
    forall k | 2 <= k < |t| && k != p ensures t[k] <= t[k / 2] {
      assert k / 2 == p && k != i ==> s[k] <= s[p];
      assert k != i && k / 2 != p ==> t[k] == s[k];
    }
  }

  lemma RaiseDone(s: seq<real>, i: nat)
    requires 1 <= i < |s| && TooLargeAt(s, i) && (i > 1 ==> s[i] <= s[i / 2])
    ensures HeapOrdered(s)
  {
  }

  lemma LowerStep(s: seq<real>, i: nat, c: nat)
    requires 1 <= i < |s| && c < |s| && c / 2 == i && TooSmallAt(s, i) && s[i] < s[c]
    requires forall k :: 2 <= k < |s| && k / 2 == i ==> s[k] <= s[c]
    ensures TooSmallAt(Swap(s, i, c), c)
  {
    var t := Swap(s, i, c);
    forall k | 2 <= k < |t| && k / 2 != c ensures t[k] <= t[k / 2] {
      assert k / 2 == i ==> s[k] <= s[c];
      assert k == i ==> s[c] <= s[i / 2];
    }
    assert forall k :: 2 <= k < |t| && k / 2 == c ==> t[k] == s[k];
  }

  lemma LowerDone(s: seq<real>, i: nat)
    requires 1 <= i < |s| && TooSmallAt(s, i) && forall k :: 2 <= k < |s| && k / 2 == i ==> s[k] <= s[i]
    ensures HeapOrdered(s)
  {
  }

  /** A slot of a heap gets another priority. */
  lemma Reprioritise(s: seq<real>, i: nat, p: real)
    requires HeapOrdered(s) && 1 <= i < |s|
    ensures s[i] <= p ==> TooLargeAt(s[i := p], i)
    ensures p <= s[i] ==> TooSmallAt(s[i := p], i)
  {
    var t := s[i := p];
    assert forall k :: 2 <= k < |s| && k / 2 == i ==> s[k] <= s[i] && k != i;
    assert i >= 2 ==> s[i] <= s[i / 2] && i / 2 != i;
  }

  lemma HeapPrefix(s: seq<real>, n: nat)
    requires HeapOrdered(s) && n <= |s|
    ensures HeapOrdered(s[..n])
  {
  }

  lemma {:induction false} TopIsLargest(s: seq<real>, i: nat)
    requires HeapOrdered(s) && 1 <= i < |s|
    ensures s[i] <= s[1]
  {
    if i > 1 {
      TopIsLargest(s, i / 2);
    }
  }

  // ---- the queue ---------------------------------------------------------------------------------

  ghost function Pri(n: PqNode?): real
    reads (if n == null then {} else {n})`pri
  {
    if n == null then 0.0 else n.pri
  }

  ghost function Nodes(s: seq<PqNode?>): set<PqNode> {
    set n: PqNode | n in s
  }

  ghost function Pris(s: seq<PqNode?>): (r: seq<real>)
    reads Nodes(s)`pri
    ensures |r| == |s| && forall i :: 0 <= i < |s| ==> r[i] == Pri(s[i])
  {
    if s == [] then [] else Pris(s[..|s| - 1]) + [Pri(s[|s| - 1])]
  }

  /** Slots 1 and up hold nodes that know their slot, except that the node in slot i need not. */
  ghost predicate Placed(s: seq<PqNode?>, i: nat)
    reads Nodes(s)`pos
  {
    && |s| > 0 && s[0] == null
    && (forall k :: 1 <= k < |s| ==> s[k] != null)
    && (forall k :: 1 <= k < |s| && k != i ==> s[k].pos == k)
    && (forall k :: 1 <= k < |s| && k != i && 1 <= i < |s| ==> s[k] != s[i])
  }

  lemma SwapNodes(s: seq<PqNode?>, i: nat, j: nat)
    requires i < |s| && j < |s|
    ensures Nodes(Swap(s, i, j)) == Nodes(s)
  {
    var t := Swap(s, i, j);
    forall n: PqNode | n in s ensures n in t {
      var k :| 0 <= k < |s| && s[k] == n;
      assert t[if k == i then j else if k == j then i else k] == n;
    }
  }

  lemma SwapPris(s: seq<PqNode?>, i: nat, j: nat)
    requires i < |s| && j < |s|
    ensures Pris(Swap(s, i, j)) == Swap(Pris(s), i, j)
  {
    hide Pris;
    var t, p := Swap(s, i, j), Swap(Pris(s), i, j);
    assert |t| == |s|;
    assert |p| == |s|;
    forall k | 0 <= k < |s| ensures Pris(t)[k] == p[k] {
      assert Pris(t)[k] == Pri(t[k]);
      assert Pris(s)[k] == Pri(s[k]);
    }
  }

  lemma Appended(s: seq<PqNode?>, n: PqNode)
    requires Placed(s, 0) && HeapOrdered(Pris(s)) && n !in s
    ensures Placed(s + [n], |s|) && TooLargeAt(Pris(s + [n]), |s|) && Nodes(s + [n]) == Nodes(s) + {n}
  {
    hide Pris;
  }

  /** The node in slot i is replaced by the last one. */
  ghost function Removed(s: seq<PqNode?>, i: nat): seq<PqNode?>
    requires 1 <= i < |s|
  {
    s[i := s[|s| - 1]][..|s| - 1]
  }

  lemma RemovedNodes(s: seq<PqNode?>, i: nat)
    requires Placed(s, 0) && 1 <= i < |s|
    ensures Placed(Removed(s, i), i) && Nodes(Removed(s, i)) == Nodes(s) - {s[i]}
    ensures i == |s| - 1 ==> Placed(Removed(s, i), 0)
  {
    var t := Removed(s, i);
    forall n: PqNode | n in s && n != s[i] ensures n in t {
      var k :| 0 <= k < |s| && s[k] == n;
      assert t[if k == |s| - 1 then i else k] == n;
    }
  }

  ghost function LastInto(p: seq<real>, i: nat): seq<real>
    requires 1 <= i < |p|
  {
    p[i := p[|p| - 1]][..|p| - 1]
  }

  lemma RemovedPriority(p: seq<real>, i: nat)
    requires HeapOrdered(p) && 1 <= i < |p|
    ensures i == |p| - 1 ==> HeapOrdered(LastInto(p, i))
    ensures i < |p| - 1 && p[i] <= p[|p| - 1] ==> TooLargeAt(LastInto(p, i), i)
    ensures i < |p| - 1 && p[|p| - 1] <= p[i] ==> TooSmallAt(LastInto(p, i), i)
  {
    hide TooLargeAt, TooSmallAt, HeapOrdered;
    var n := |p| - 1;
    HeapPrefix(p, n);
    if i < n {
      Reprioritise(p[..n], i, p[n]);
      assert LastInto(p, i) == p[..n][i := p[n]];
    } else {
      assert LastInto(p, i) == p[..n];
    }
  }

  lemma PrisRemoved(s: seq<PqNode?>, i: nat)
    requires 1 <= i < |s|
    ensures Pris(Removed(s, i)) == LastInto(Pris(s), i)
  {
    hide Pris;
    var t, p := Removed(s, i), Pris(s);
    assert |t| == |s| - 1;
    assert |LastInto(p, i)| == |s| - 1;
    forall k | 0 <= k < |t| ensures Pris(t)[k] == LastInto(p, i)[k] {
      assert Pris(t)[k] == Pri(t[k]);
      assert p[k] == Pri(s[k]);
    }
  }

  /** The node in slot 1 has the largest priority. */
  lemma Topmost(s: seq<PqNode?>)
    requires Placed(s, 0) && HeapOrdered(Pris(s))
    ensures |s| == 1 <==> Nodes(s) == {}
    ensures forall n :: n in Nodes(s) ==> n.pri <= Pri(s[1])
  {
    hide Pris, HeapOrdered;
    if |s| > 1 {
      assert s[1] in s && s[1] in Nodes(s);
    } else {
      assert s == [null];
      assert Nodes(s) == {};
    }
    forall n | n in Nodes(s) ensures n.pri <= Pri(s[1]) {
      var k :| 0 <= k < |s| && s[k] == n;
      TopIsLargest(Pris(s), k);
    }
  }

  class Queue {
    var d: array<PqNode?>
    var size: nat
    var avail: nat
    const step: nat

    ghost function Slots(): seq<PqNode?>
      reads this, d
    {
      if size <= d.Length then d[..size] else []
    }

    ghost predicate Shape()
      reads this, d
    {
      1 <= size <= avail && avail == d.Length && step >= 1
    }

    ghost predicate Valid()
      reads this, d, Nodes(Slots())
    {
      Shape() && Placed(Slots(), 0) && HeapOrdered(Pris(Slots()))
    }

    ghost function Members(): set<PqNode>
      reads this, d
    {
      Nodes(Slots())
    }

    constructor (n: nat)
      ensures Valid() && Members() == {} && fresh(d)
    {
      d := new PqNode?[n + 1](_ => null);
      size, avail, step := 1, n + 1, n + 1;
    }

    /** The slots as they would be if n were put into slot i. */
    ghost function With(n: PqNode, i: nat): seq<PqNode?>
      requires i < size <= d.Length
      reads this, d
    {
      Slots()[i := n]
    }

    /** The node in slot j moves to slot i, which was kept for n; now slot j is. */
    method Shift(i: nat, j: nat, n: PqNode)
      requires Shape() && 1 <= i < size && 1 <= j < size && i != j && Placed(With(n, i), i)
      modifies d, Nodes(With(n, i))`pos
      ensures Shape() && With(n, j) == Swap(old(With(n, i)), i, j)
      ensures Placed(With(n, j), j) && Nodes(With(n, j)) == old(Nodes(With(n, i)))
      ensures Pris(With(n, j)) == Swap(old(Pris(With(n, i))), i, j)
    {
      hide Pris;
      ghost var s := With(n, i);
      SwapNodes(s, i, j);
      SwapPris(s, i, j);
      assert d[j] == s[j];
      d[i] := d[j];
      d[i].pos := i;
      assert With(n, j) == Swap(s, i, j);
    }

    method Settle(i: nat, n: PqNode)
      requires Shape() && 1 <= i < size && Placed(With(n, i), i) && HeapOrdered(Pris(With(n, i)))
      modifies d, Nodes(With(n, i))`pos
      ensures Valid() && Members() == old(Nodes(With(n, i)))
    {
      hide Pris, HeapOrdered;
      ghost var s := With(n, i);
      assert s[i] == n && n in Nodes(s);
      d[i] := n;
      n.pos := i;
      assert Slots() == s;
    }

    method BubbleUp(at: nat)
      requires Shape() && 1 <= at < size && Placed(Slots(), at) && TooLargeAt(Pris(Slots()), at)
      modifies d, Members()`pos
      ensures Valid() && Members() == old(Members())
    {
      hide Pris, HeapOrdered, TooLargeAt, Valid;
      var i := at;
      var moving := d[i];
      var movingPri := moving.pri;
      assert With(moving, i) == Slots();
      while i > 1 && CmpPri(d[i / 2].pri, movingPri)
        invariant 1 <= i < size && Shape() && Placed(With(moving, i), i)
        invariant forall k :: 1 <= k < size && k != i ==> d[k] == With(moving, i)[k]
        invariant Nodes(With(moving, i)) == old(Members())
        invariant TooLargeAt(Pris(With(moving, i)), i)
      {
        RaiseStep(Pris(With(moving, i)), i);
        Shift(i, i / 2, moving);
        i := i / 2;
      }
      RaiseDone(Pris(With(moving, i)), i);
      Settle(i, moving);
    }

    /** c is the child of slot i with the largest priority, or 0 if slot i has no child. */
    ghost predicate Greatest(i: nat, c: nat)
      reads this, d, Nodes(Slots())
    {
      && Shape()
      && (c == 0 ==> forall k :: 2 <= k < size ==> k / 2 != i)
      && (c != 0 ==> 2 <= c < size && c / 2 == i && forall k :: 2 <= k < size && k / 2 == i ==> Pri(d[k]) <= Pri(d[c]))
    }

    method MaxChild(i: nat, ghost n: PqNode) returns (c: nat)
      requires Shape() && 1 <= i < size && Placed(With(n, i), i)
      ensures Greatest(i, c) && c < size && (c != 0 ==> d[c] != null && c > i)
    {
      ghost var s := With(n, i);
      assert forall k :: 1 <= k < size && k != i ==> d[k] == s[k];
      c := i * 2;
      if c >= size {
        return 0;
      }
      if c + 1 < size && CmpPri(d[c].pri, d[c + 1].pri) {
        c := c + 1;
      }
      assert forall k :: 2 <= k < size && k / 2 == i ==> k == i * 2 || k == i * 2 + 1;
    }

    ghost function Occupant(at: nat): set<PqNode>
      reads this, d
    {
      if at < d.Length then Nodes([d[at]]) else {}
    }

    method SetPos(at: nat)
      requires Valid() && at == size < d.Length && d[at] != null && d[at] !in Members()
      modifies Occupant(at)`pos
      ensures Valid()
    {
      d[at].pos := at;
    }

    /** Slot size, just given up, may be named as well: it has no children. */
    method PercolateDown(at: nat)
      requires Shape() && 1 <= at <= size && at < d.Length && d[at] != null
      requires at < size ==> Placed(Slots(), at) && TooSmallAt(Pris(Slots()), at)
      requires at == size ==> Valid() && d[at] !in Members()
      modifies d, Members()`pos, Occupant(at)`pos
      ensures Valid() && Members() == old(Members())
    {
      if at == size {
        SetPos(at);
      } else {
        SiftDown(at);
      }
    }

    lemma GreatestPri(i: nat, c: nat, n: PqNode)
      requires Shape() && 1 <= i < size && Placed(With(n, i), i) && Greatest(i, c)
      ensures var p := Pris(With(n, i));
        && (c == 0 ==> forall k :: 2 <= k < |p| ==> k / 2 != i)
        && (c != 0 ==> 2 <= c < |p| && c / 2 == i && d[c] != null && p[c] == d[c].pri
                       && forall k :: 2 <= k < |p| && k / 2 == i ==> p[k] <= p[c])
    {
      hide Pris;
      ghost var s := With(n, i);
      assert forall k :: 1 <= k < size && k != i ==> d[k] == s[k];
    }

    /** The queue with n put into slot i, where it may be too small for its children. */
    ghost predicate Sinking(i: nat, n: PqNode)
      reads this, d, Nodes(Slots()), n
    {
      && Shape() && 1 <= i < size && Placed(With(n, i), i)
      && (forall m :: m in Nodes(With(n, i)) ==> m in Nodes(Slots()) || m == n)
      && TooSmallAt(Pris(With(n, i)), i)
    }

    method Sink(i: nat, c: nat, n: PqNode)
      requires Sinking(i, n) && Greatest(i, c) && c != 0 && c < size && d[c] != null && CmpPri(n.pri, d[c].pri)
      modifies d, Nodes(With(n, i))`pos
      ensures Sinking(c, n) && d == old(d) && size == old(size)
      ensures Nodes(With(n, c)) == old(Nodes(With(n, i)))
    {
      hide Pris, HeapOrdered, TooSmallAt, Greatest;
      GreatestPri(i, c, n);
      LowerStep(Pris(With(n, i)), i, c);
      Shift(i, c, n);
    }

    method SettleLow(i: nat, ghost c: nat, n: PqNode)
      requires Sinking(i, n) && Greatest(i, c)
      requires c == 0 || (c < size && d[c] != null && d[c].pri <= n.pri)
      modifies d, Nodes(With(n, i))`pos
      ensures Valid() && Members() == old(Nodes(With(n, i)))
    {
      hide Pris, HeapOrdered, TooSmallAt, Greatest, Valid;
      GreatestPri(i, c, n);
      LowerDone(Pris(With(n, i)), i);
      Settle(i, n);
    }

    method SiftDown(at: nat)
      requires Shape() && 1 <= at < size && Placed(Slots(), at) && TooSmallAt(Pris(Slots()), at)
      modifies d, Members()`pos
      ensures Valid() && Members() == old(Members())
    {
      hide Pris, Pri, HeapOrdered, TooSmallAt, Valid, Greatest;
      var i := at;
      var moving := d[i];
      var movingPri := moving.pri;
      assert With(moving, i) == Slots();
      var child: nat := MaxChild(i, moving);
      while child != 0 && CmpPri(movingPri, d[child].pri)
        invariant Sinking(i, moving) && Nodes(With(moving, i)) == old(Members())
        invariant Greatest(i, child) && child < size && (child != 0 ==> d[child] != null && child > i)
        decreases size - i
      {
        Sink(i, child, moving);
        i := child;
        child := MaxChild(i, moving);
      }
      SettleLow(i, child, moving);
    }

    method Grow()
      requires Shape()
      modifies this`d, this`avail
      ensures Shape() && avail == size + step && fresh(d) && Slots() == old(Slots())
    {
      var bigger := new PqNode?[size + step](_ => null);
      for k := 0 to size
        invariant d == old(d) && d[..] == old(d[..])
        invariant forall j :: 0 <= j < k ==> bigger[j] == d[j]
      {
        bigger[k] := d[k];
      }
      d := bigger;
      avail := size + step;
    }

    method Insert(n: PqNode)
      requires Valid() && n !in Members()
      modifies this, d, Members()`pos, n`pos
      ensures Valid() && Members() == old(Members()) + {n}
      ensures d == old(d) || fresh(d)
    {
      hide Pris, HeapOrdered, TooLargeAt;
      ghost var s := Slots();
      if size >= avail {
        Grow();
      }
      d[size] := n;
      size := size + 1;
      assert Slots() == s + [n];
      Appended(s, n);
      BubbleUp(size - 1);
    }

    method ChangePriority(n: PqNode, pri: real)
      requires Valid() && n in Members()
      modifies d, Members()`pos, n`pri
      ensures Valid() && Members() == old(Members()) && n.pri == pri
    {
      hide Pris, HeapOrdered, TooLargeAt, TooSmallAt;
      var oldPri := n.pri;
      var s := Slots();
      Reprioritise(Pris(s), n.pos, pri);
      ghost var p := Pris(s);
      n.pri := pri;
      assert Pris(s) == p[n.pos := pri];
      if CmpPri(oldPri, pri) {
        BubbleUp(n.pos);
      } else {
        PercolateDown(n.pos);
      }
    }

    /** n leaves the queue, wherever it stands: the last node takes its place. */
    method Remove(n: PqNode)
      requires Valid() && n in Members()
      modifies this`size, d, Members()`pos
      ensures Valid() && Members() == old(Members()) - {n}
    {
      hide Pris, HeapOrdered, TooLargeAt, TooSmallAt, LastInto;
      var posn := n.pos;
      ghost var s := Slots();
      RemovedNodes(s, posn);
      PrisRemoved(s, posn);
      RemovedPriority(Pris(s), posn);
      size := size - 1;
      d[posn] := d[size];
      assert Slots() == Removed(s, posn);
      if CmpPri(n.pri, d[posn].pri) {
        BubbleUp(posn);
      } else {
        PercolateDown(posn);
      }
    }

    /** The node with the largest priority leaves the queue; null if it is empty. */
    method Pop() returns (head: PqNode?)
      requires Valid()
      modifies this`size, d, Members()`pos
      ensures Valid()
      ensures head == null <==> old(Members()) == {}
      ensures head == null ==> Members() == {}
      ensures head != null ==> head in old(Members()) && Members() == old(Members()) - {head}
      ensures head != null ==> forall m :: m in Members() ==> m.pri <= head.pri
    {
      hide Pris, HeapOrdered, TooLargeAt, TooSmallAt, LastInto;
      ghost var s := Slots();
      Topmost(s);
      if size == 1 {
        return null;
      }
      head := d[1];
      RemovedNodes(s, 1);
      PrisRemoved(s, 1);
      RemovedPriority(Pris(s), 1);
      size := size - 1;
      d[1] := d[size];
      assert Slots() == Removed(s, 1);
      PercolateDown(1);
    }

    method Peek() returns (head: PqNode?)
      requires Valid()
      ensures head == null <==> Members() == {}
      ensures head != null ==> head in Members() && forall m :: m in Members() ==> m.pri <= head.pri
    {
      Topmost(Slots());
      if size == 1 {
        return null;
      }
      return d[1];
    }
  }
}
