/** The mathematical side of the splay tree: key trees, their in-order sequence and the
    pieces that a top-down splay cuts a tree into. */
module KeyTrees {
  import opened Lists

  datatype Tree = Leaf | Bin(left: Tree, key: int, right: Tree)

  ghost function Inorder(t: Tree): seq<int> {
    match t
    case Leaf => []
    case Bin(l, k, r) => Inorder(l) + [k] + Inorder(r)
  }

  ghost function Size(t: Tree): nat {
    match t
    case Leaf => 0
    case Bin(l, _, r) => Size(l) + Size(r) + 1
  }

  ghost predicate Increasing(s: seq<int>) {
    forall i, j :: 0 <= i < j < |s| ==> s[i] < s[j]
  }

  ghost function KeySet(t: Tree): set<int> {
    Elems(Inorder(t))
  }

  /** The key of the node at which a binary search for i stops: i itself if it is found. */
  ghost function LastOnPath(t: Tree, i: int): int
    requires t.Bin?
  {
    if i < t.key then
      if t.left.Leaf? then t.key else LastOnPath(t.left, i)
    else if i > t.key then
      if t.right.Leaf? then t.key else LastOnPath(t.right, i)
    else t.key
  }

  /** A spine node together with the subtree that hangs off it, away from the hole. */
  datatype Piece = Piece(off: Tree, key: int)

  /** The left tree of a top-down splay, its pieces linked by right pointers, ending in x. */
  ghost function LeftSpine(c: seq<Piece>, x: Tree): Tree {
    if c == [] then x else Bin(c[0].off, c[0].key, LeftSpine(c[1..], x))
  }

  ghost function RightSpine(c: seq<Piece>, x: Tree): Tree {
    if c == [] then x else Bin(RightSpine(c[1..], x), c[0].key, c[0].off)
  }

  lemma {:induction false} SizeIsLength(t: Tree)
    ensures Size(t) == |Inorder(t)|
  {
    if t.Bin? {
      SizeIsLength(t.left);
      SizeIsLength(t.right);
    }
  }

  lemma {:induction false} LeftSpineOrder(c: seq<Piece>, x: Tree)
    ensures Inorder(LeftSpine(c, x)) == Inorder(LeftSpine(c, Leaf)) + Inorder(x)
    ensures Size(LeftSpine(c, x)) == Size(LeftSpine(c, Leaf)) + Size(x)
  {
    if c != [] {
      LeftSpineOrder(c[1..], x);
    }
  }

  lemma {:induction false} RightSpineOrder(c: seq<Piece>, x: Tree)
    ensures Inorder(RightSpine(c, x)) == Inorder(x) + Inorder(RightSpine(c, Leaf))
    ensures Size(RightSpine(c, x)) == Size(RightSpine(c, Leaf)) + Size(x)
  {
    if c != [] {
      RightSpineOrder(c[1..], x);
    }
  }

  lemma {:induction false} LeftSpineSnoc(c: seq<Piece>, p: Piece, x: Tree)
    ensures LeftSpine(c + [p], x) == LeftSpine(c, Bin(p.off, p.key, x))
  {
    if c == [] {
      assert (c + [p])[1..] == [];
    } else {
      assert (c + [p])[1..] == c[1..] + [p];
      LeftSpineSnoc(c[1..], p, x);
    }
  }

  lemma {:induction false} RightSpineSnoc(c: seq<Piece>, p: Piece, x: Tree)
    ensures RightSpine(c + [p], x) == RightSpine(c, Bin(x, p.key, p.off))
  {
    if c == [] {
      assert (c + [p])[1..] == [];
    } else {
      assert (c + [p])[1..] == c[1..] + [p];
      RightSpineSnoc(c[1..], p, x);
    }
  }

  /** The sizes along a spine, from node k to the next. */
  lemma SpineSizes(c: seq<Piece>, k: nat, x: Tree)
    requires k < |c|
    ensures Size(LeftSpine(c[k..], x)) == Size(c[k].off) + 1 + Size(LeftSpine(c[k + 1..], x))
    ensures Size(RightSpine(c[k..], x)) == Size(c[k].off) + 1 + Size(RightSpine(c[k + 1..], x))
  {
    assert c[k..][1..] == c[k + 1..];
  }

  /** What is left of the search is tree x, between a left tree and a right tree. */
  ghost function Whole(lc: seq<Piece>, x: Tree, rc: seq<Piece>): seq<int> {
    Inorder(LeftSpine(lc, Leaf)) + Inorder(x) + Inorder(RightSpine(rc, Leaf))
  }

  lemma LinkLeftOrder(lc: seq<Piece>, x: Tree, rc: seq<Piece>)
    requires x.Bin?
    ensures Whole(lc + [Piece(x.left, x.key)], x.right, rc) == Whole(lc, x, rc)
    ensures Size(LeftSpine(lc + [Piece(x.left, x.key)], Leaf))
         == Size(LeftSpine(lc, Leaf)) + Size(x.left) + 1
  {
    var p := Piece(x.left, x.key);
    LeftSpineSnoc(lc, p, Leaf);
    LeftSpineOrder(lc, Bin(x.left, x.key, Leaf));
  }

  lemma LinkRightOrder(lc: seq<Piece>, x: Tree, rc: seq<Piece>)
    requires x.Bin?
    ensures Whole(lc, x.left, rc + [Piece(x.right, x.key)]) == Whole(lc, x, rc)
    ensures Size(RightSpine(rc + [Piece(x.right, x.key)], Leaf))
         == Size(RightSpine(rc, Leaf)) + Size(x.right) + 1
  {
    var p := Piece(x.right, x.key);
    RightSpineSnoc(rc, p, Leaf);
    RightSpineOrder(rc, Bin(Leaf, x.key, x.right));
    assert Inorder(RightSpine(rc + [p], Leaf))
        == [x.key] + Inorder(x.right) + Inorder(RightSpine(rc, Leaf));
  }

  /** Rotations keep the in-order sequence. */
  lemma RotateOrder(a: Tree, k: int, b: Tree, m: int, c: Tree)
    ensures Inorder(Bin(Bin(a, k, b), m, c)) == Inorder(Bin(a, k, Bin(b, m, c)))
    ensures Size(Bin(Bin(a, k, b), m, c)) == Size(Bin(a, k, Bin(b, m, c)))
  {
  }

  lemma WholeCong(lc: seq<Piece>, x: Tree, y: Tree, rc: seq<Piece>)
    requires Inorder(x) == Inorder(y)
    ensures Whole(lc, x, rc) == Whole(lc, y, rc)
  {
  }

  lemma AssembleOrder(lc: seq<Piece>, x: Tree, rc: seq<Piece>)
    requires x.Bin?
    ensures Inorder(Bin(LeftSpine(lc, x.left), x.key, RightSpine(rc, x.right))) == Whole(lc, x, rc)
    ensures Size(LeftSpine(lc, x.left)) == Size(LeftSpine(lc, Leaf)) + Size(x.left)
    ensures Size(RightSpine(rc, x.right)) == Size(RightSpine(rc, Leaf)) + Size(x.right)
  {
    LeftSpineOrder(lc, x.left);
    RightSpineOrder(rc, x.right);
  }

  /** In a search tree the search for i ends at i, or right next to the place where i would be. */
  lemma {:induction false} LastOnPathNeighbour(t: Tree, i: int)
    requires t.Bin? && Increasing(Inorder(t))
    ensures LastOnPath(t, i) in Inorder(t)
    ensures i in Inorder(t) ==> LastOnPath(t, i) == i
    ensures i < LastOnPath(t, i) ==> forall x :: x in Inorder(t) ==> x < i || LastOnPath(t, i) <= x
    ensures i > LastOnPath(t, i) ==> forall x :: x in Inorder(t) ==> x > i || x <= LastOnPath(t, i)
  {
    OrderSplit(t);
    if i < t.key && t.left.Bin? {
      LastOnPathNeighbour(t.left, i);
    } else if i > t.key && t.right.Bin? {
      LastOnPathNeighbour(t.right, i);
    }
  }

  /** An increasing sequence cut at one of its elements. */
  lemma IncreasingCut(a: seq<int>, k: int, b: seq<int>)
    requires Increasing(a + [k] + b)
    ensures Increasing(a) && Increasing(b)
    ensures (forall x :: x in a ==> x < k) && (forall x :: x in b ==> k < x)
  {
    var s := a + [k] + b;
    assert s[..|a|] == a && s[|a|] == k && s[|a| + 1..] == b;
    assert forall j :: 0 <= j < |b| ==> s[|a| + 1 + j] == b[j];
  }

  lemma IncreasingJoin(a: seq<int>, k: int, b: seq<int>)
    requires Increasing(a) && Increasing(b)
    requires (forall x :: x in a ==> x < k) && (forall x :: x in b ==> k < x)
    ensures Increasing(a + [k] + b)
  {
    var s := a + [k] + b;
    forall i, j | 0 <= i < j < |s| ensures s[i] < s[j] {
      if i < |a| {
        assert s[i] in a;
      }
      if j > |a| {
        assert s[j] in b;
      }
      if i > |a| {
        assert s[i] == b[i - |a| - 1] && s[j] == b[j - |a| - 1];
      }
    }
  }

  lemma OrderSplit(t: Tree)
    requires t.Bin? && Increasing(Inorder(t))
    ensures Increasing(Inorder(t.left)) && Increasing(Inorder(t.right))
    ensures forall x :: x in Inorder(t.left) ==> x < t.key
    ensures forall x :: x in Inorder(t.right) ==> t.key < x
    ensures forall x :: x in Inorder(t) <==> x in Inorder(t.left) || x == t.key || x in Inorder(t.right)
  {
    IncreasingCut(Inorder(t.left), t.key, Inorder(t.right));
  }

  lemma OrderJoin(a: Tree, k: int, b: Tree)
    requires Increasing(Inorder(a)) && Increasing(Inorder(b))
    requires forall x :: x in Inorder(a) ==> x < k
    requires forall x :: x in Inorder(b) ==> k < x
    ensures Increasing(Inorder(Bin(a, k, b)))
    ensures KeySet(Bin(a, k, b)) == KeySet(a) + {k} + KeySet(b)
  {
    IncreasingJoin(Inorder(a), k, Inorder(b));
  }

  /** Putting i, absent from search tree t, at the root: the larger keys go right, the smaller left.
      The root of t must be the node where the search for i ended. */
  lemma InsertBelow(t: Tree, i: int)
    requires t.Bin? && Increasing(Inorder(t))
    requires forall x :: x in Inorder(t) ==> x < i || t.key <= x
    requires i < t.key
    ensures var u := Bin(t.left, i, Bin(Leaf, t.key, t.right));
      Increasing(Inorder(u)) && KeySet(u) == KeySet(t) + {i}
  {
    OrderSplit(t);
    OrderJoin(Leaf, t.key, t.right);
    OrderJoin(t.left, i, Bin(Leaf, t.key, t.right));
  }

  lemma InsertAbove(t: Tree, i: int)
    requires t.Bin? && Increasing(Inorder(t))
    requires forall x :: x in Inorder(t) ==> x > i || t.key >= x
    requires i > t.key
    ensures var u := Bin(Bin(t.left, t.key, Leaf), i, t.right);
      Increasing(Inorder(u)) && KeySet(u) == KeySet(t) + {i}
  {
    OrderSplit(t);
    OrderJoin(t.left, t.key, Leaf);
    OrderJoin(Bin(t.left, t.key, Leaf), i, t.right);
  }

  lemma LargestAtRoot(x: Tree)
    requires x.Bin? && Increasing(Inorder(x))
    requires forall y :: y in Inorder(x) ==> y <= x.key
    ensures x.right == Leaf
  {
    OrderSplit(x);
    RootKeyIn(x.right);
  }

  lemma RootKeyIn(t: Tree)
    ensures t.Bin? ==> t.key in Inorder(t)
  {
  }

  /** Splaying the left subtree of t for t's key brings up its largest key. */
  lemma PredecessorAtRoot(t: Tree, x: Tree)
    requires t.Bin? && Increasing(Inorder(t)) && t.left.Bin? && x.Bin?
    requires Inorder(x) == Inorder(t.left) && x.key == LastOnPath(t.left, t.key)
    ensures x.right == Leaf && Size(x) == Size(t.left)
  {
    OrderSplit(t);
    LastOnPathNeighbour(t.left, t.key);
    LargestAtRoot(x);
    SizeIsLength(x);
    SizeIsLength(t.left);
  }

  lemma KeySetSplit(t: Tree)
    requires t.Bin? && Increasing(Inorder(t))
    ensures KeySet(t) == KeySet(t.left) + {t.key} + KeySet(t.right)
    ensures t.key !in KeySet(t.left) && t.key !in KeySet(t.right)
  {
    OrderSplit(t);
  }

  /** The root of t is replaced by the root of x, which has the keys of t's left subtree. */
  lemma DeleteRoot(t: Tree, x: Tree)
    requires t.Bin? && Increasing(Inorder(t)) && x.Bin? && x.right == Leaf && Inorder(x) == Inorder(t.left)
    ensures var u := Bin(x.left, x.key, t.right);
      Increasing(Inorder(u)) && KeySet(u) == KeySet(t) - {t.key}
  {
    hide Inorder, Increasing;
    OrderSplit(t);
    OrderSplit(x);
    RootKeyIn(x);
    OrderJoin(x.left, x.key, t.right);
    KeySetSplit(t);
    KeySetSplit(x);
    assert KeySet(x) == KeySet(t.left);
    EmptyKeySet();
  }

  lemma EmptyKeySet()
    ensures KeySet(Leaf) == {}
  {
  }

  lemma DeleteLeftmost(t: Tree)
    requires t.Bin? && Increasing(Inorder(t)) && t.left == Leaf
    ensures Increasing(Inorder(t.right)) && KeySet(t.right) == KeySet(t) - {t.key}
    ensures Size(t.right) + 1 == Size(t)
  {
    OrderSplit(t);
  }

  lemma RootKeysApart(t: Tree, x: Tree)
    requires t.Bin? && Increasing(Inorder(t)) && t.right.Bin? && x.Bin? && Inorder(x) == Inorder(t.left)
    ensures x.key < t.right.key
  {
    OrderSplit(t);
    assert x.key in Inorder(x) && t.right.key in Inorder(t.right);
  }

  /** In a search tree the right subtree of the root holds the keys above the root's. */
  lemma RightCount(t: Tree)
    requires t.Bin? && Increasing(Inorder(t))
    ensures Size(t.right) == |set k | k in KeySet(t) && k > t.key|
  {
    OrderSplit(t);
    SizeIsLength(t.right);
    DistinctCount(Inorder(t.right));
    assert (set k | k in KeySet(t) && k > t.key) == Elems(Inorder(t.right));
  }
}
