/** The size-augmented splay tree: nodes relinked in place by a top-down splay. */
module SplayTree {
  import opened Lists
  import opened KeyTrees

  datatype Side = L | R

  function Other(d: Side): Side {
    if d == L then R else L
  }

  /** Where a node stands while a splay is running: inside some intact subtree, on the left or right
      spine (at the given depth), or current, at the root of what is still to be searched. */
  datatype Role = Inner | On(side: Side, depth: nat) | Current

  class Node {
    var left: Node?
    var right: Node?
    const key: int
    var value: int           // number of nodes in the subtree
    ghost var tree: Tree     // the subtree, as a mathematical value
    ghost var parent: Node?  // the node an inner node hangs from
    ghost var role: Role

    constructor (key: int)
      ensures left == null && right == null && this.key == key && value == 1
      ensures tree == Bin(Leaf, key, Leaf) && parent == null && role == Inner
    {
      left, right, this.key, value := null, null, key, 1;
      tree, parent, role := Bin(Leaf, key, Leaf), null, Inner;
    }
  }

  function NodeValue(n: Node?): int
    reads (if n == null then {} else {n})`value
  {
    if n == null then 0 else n.value
  }

  ghost function Sub(n: Node, d: Side): Node?
    reads n`left, n`right
  {
    if d == L then n.left else n.right
  }

  ghost function TreeOf(n: Node?): Tree
    reads n
  {
    if n == null then Leaf else n.tree
  }

  /** c is the root of an intact subtree hanging from n. */
  ghost predicate ChildOf(c: Node?, n: Node, S: set<Node>)
    reads c
  {
    c != null ==> c in S && c.parent == n && c.role == Inner
  }

  ghost predicate Kids(n: Node, S: set<Node>)
    reads n, n.left, n.right
  {
    && ChildOf(n.left, n, S)
    && ChildOf(n.right, n, S)
    && (n.left != null ==> n.left != n.right)
  }

  ghost predicate Linked(n: Node, S: set<Node>)
    reads n, n.left, n.right
  {
    && Kids(n, S)
    && n.tree == Bin(TreeOf(n.left), n.key, TreeOf(n.right))
    && n.value == Size(n.tree)
  }

  /** Every node of S is linked to its children, and its value is the size of its subtree. */
  ghost predicate WellFormed(S: set<Node>)
    reads S, set m | m in S :: m.left, set m | m in S :: m.right
  {
    forall m :: m in S ==> m.role == Inner && Linked(m, S)
  }

  ghost predicate IsRoot(t: Node?, S: set<Node>)
    reads t
  {
    t != null ==> t in S && t.parent == null
  }

  // ---- the state in the middle of a splay -------------------------------------------------

  /** A spine inside S: its nodes from the top, the subtrees hanging from them, and what each node
      contributes. It hangs its subtrees on its own side and continues on the other. */
  datatype Spine = Spine(side: Side, S: set<Node>, nodes: seq<Node>, offs: seq<Node?>, pieces: seq<Piece>)

  /** A splay in progress: what is left to be searched hangs from t, and the spines from header. */
  datatype Cut = Cut(S: set<Node>, header: Node, t: Node, left: Spine, right: Spine) {
    ghost function At(d: Side): Spine {
      if d == L then left else right
    }

    ghost function Last(d: Side): Node {
      LastOf(header, At(d))
    }
  }

  ghost function LastOf(header: Node, c: Spine): Node {
    if c.nodes == [] then header else c.nodes[|c.nodes| - 1]
  }

  ghost function Members(c: Spine): set<Node> {
    set m | m in c.nodes
  }

  /** The spine with n, as it stands, added below. */
  ghost function Pushed(c: Spine, n: Node): Spine
    reads n, n.left, n.right
  {
    c.(nodes := c.nodes + [n], offs := c.offs + [Sub(n, c.side)],
       pieces := c.pieces + [Piece(TreeOf(Sub(n, c.side)), n.key)])
  }

  ghost predicate SpineOk(c: Spine)
    reads c.S, c.offs
  {
    && |c.nodes| == |c.pieces| && |c.nodes| == |c.offs|
    && (forall j :: 0 <= j < |c.nodes| ==>
          && c.nodes[j] in c.S && c.nodes[j].role == On(c.side, j) && c.nodes[j].key == c.pieces[j].key
          && Sub(c.nodes[j], c.side) == c.offs[j]
          && ChildOf(c.offs[j], c.nodes[j], c.S) && TreeOf(c.offs[j]) == c.pieces[j].off)
    && (forall j, k :: 0 <= j < k < |c.nodes| && k == j + 1 ==> Sub(c.nodes[j], Other(c.side)) == c.nodes[k])
  }

  ghost predicate Placed(m: Node, k: Cut)
    reads m, m.left, m.right
  {
    match m.role
    case Inner => Linked(m, k.S)
    case Current => m == k.t
    case On(d, j) => j < |k.At(d).nodes| && k.At(d).nodes[j] == m
  }

  /** t is current, the spines hang from the header, and everything else is intact. */
  ghost predicate Scaffold(k: Cut)
    reads k.S, k.header, k.t, k.t.left, k.t.right, k.left.S, k.right.S, k.left.offs, k.right.offs
    reads set m | m in k.S :: m.left, set m | m in k.S :: m.right
  {
    && k.left.side == L && k.right.side == R && k.left.S == k.S && k.right.S == k.S
    && k.header !in k.S && k.header.role == Current && k.t in k.S && k.t.role == Current && Kids(k.t, k.S)
    && (forall m :: m in k.S ==> Placed(m, k))
    && SpineOk(k.left) && SpineOk(k.right)
    && (k.left.nodes != [] ==> k.header.right == k.left.nodes[0])
    && (k.right.nodes != [] ==> k.header.left == k.right.nodes[0])
  }

  /** What a scaffold says about its current node, its children, and the lower ends of its spines. */
  lemma ScaffoldTop(k: Cut)
    requires Scaffold(k)
    ensures k.left.side == L && k.right.side == R
    ensures k.t in k.S && k.t.role == Current && Kids(k.t, k.S) && k.header !in k.S && k.header.role == Current
    ensures forall d :: Sub(k.t, d) != null ==>
      Linked(Sub(k.t, d), k.S) && Sub(k.t, d).parent == k.t && Sub(k.t, d).role == Inner
    ensures forall d :: k.Last(d) == k.header || (k.Last(d) in k.S && k.Last(d).role.On?)
  {
    forall d | Sub(k.t, d) != null
      ensures Linked(Sub(k.t, d), k.S) && Sub(k.t, d).parent == k.t && Sub(k.t, d).role == Inner
    {
      assert Placed(Sub(k.t, d), k);
    }
    assert k.Last(L) == k.header || k.Last(L).role.On?;
    assert k.Last(R) == k.header || k.Last(R).role.On?;
  }

  /** The tree that is still to be searched. */
  ghost function Rest(t: Node): Tree
    reads t, t.left, t.right
  {
    Bin(TreeOf(t.left), t.key, TreeOf(t.right))
  }

  // ---- what the steps keep -----------------------------------------------------------------

  /** The roots of other trees in S are left alone. */
  twostate predicate StrangersKept(S: set<Node>)
    reads S
  {
    forall m :: m in S && old(m.role == Inner && (m.parent == null || m.parent !in S)) ==> unchanged(m)
  }

  twostate predicate KeptShape(m: Node)
    reads m
  {
    m.tree == old(m.tree) && m.left == old(m.left) && m.right == old(m.right) && m.value == old(m.value)
  }

  /** A tree hanging off a spine node is still there, unchanged. */
  twostate predicate OffKept(m: Node, S: set<Node>)
    reads m
  {
    var hangs := old(m.role.Inner? && m.parent != null && m.parent in S && m.parent.role.On?);
    hangs ==> m.role == Inner && m.parent == old(m.parent) && m.tree == old(m.tree)
  }

  twostate lemma SpineKept(c: Spine)
    requires old(SpineOk(c))
    requires forall j :: 0 <= j < |c.nodes| ==>
      c.nodes[j].role == old(c.nodes[j].role) && Sub(c.nodes[j], c.side) == old(Sub(c.nodes[j], c.side))
    requires forall j :: 0 <= j < |c.nodes| - 1 ==>
      Sub(c.nodes[j], Other(c.side)) == old(Sub(c.nodes[j], Other(c.side)))
    requires forall m :: m in c.S ==> OffKept(m, c.S)
    ensures SpineOk(c)
  {
    forall j | 0 <= j < |c.nodes|
      ensures ChildOf(c.offs[j], c.nodes[j], c.S) && TreeOf(c.offs[j]) == c.pieces[j].off
    {
      var off := c.offs[j];
      assert old(ChildOf(off, c.nodes[j], c.S));
      if off != null {
        assert OffKept(off, c.S);
      }
    }
  }

  // ---- rotations ---------------------------------------------------------------------------

  ghost function RotatedRight(x: Tree): Tree
    requires x.Bin? && x.left.Bin?
  {
    Bin(x.left.left, x.left.key, Bin(x.left.right, x.key, x.right))
  }

  ghost function RotatedLeft(x: Tree): Tree
    requires x.Bin? && x.right.Bin?
  {
    Bin(Bin(x.left, x.key, x.right.left), x.right.key, x.right.right)
  }

  /** The child of t on side d has taken its place, and t has taken the child's inner subtree. */
  twostate predicate Rotated(d: Side, t: Node, S: set<Node>)
    reads S, t, t.left, t.right
  {
    var y := old(Sub(t, d));
    y != null && y in S && t in S && t != y &&
    var z := old(Sub(y, Other(d)));
    && (z != null ==> z in S && z != t && z != y && KeptShape(z) && z.parent == t && z.role == Inner)
    && (forall m :: m in S && m != t && m != y && m != z ==> unchanged(m))
    && y.role == Current && t.role == Inner && t.parent == y
    && Sub(t, d) == z && Sub(t, Other(d)) == old(Sub(t, Other(d)))
    && Sub(y, d) == old(Sub(y, d)) && Sub(y, Other(d)) == t
    && t.tree == Bin(TreeOf(t.left), t.key, TreeOf(t.right))
    && t.value == NodeValue(t.left) + NodeValue(t.right) + 1
  }

  /** A rotation of the current node of k, raising its child on side d. */
  datatype Turn = Turn(d: Side, k: Cut)

  twostate lemma RotateLinked(u: Turn)
    requires old(Scaffold(u.k)) && Rotated(u.d, u.k.t, u.k.S)
    ensures Linked(u.k.t, u.k.S)
  {
    hide SpineOk, Linked;
    var d, k, t := u.d, u.k, u.k.t;
    var y, w := old(Sub(t, d)), old(Sub(t, Other(d)));
    assert old(Placed(y, k));
    assert old(Kids(y, k.S)) by {
      KidsThen(u);
    }
    var z := old(Sub(y, Other(d)));
    if w != null {
      assert old(Placed(w, k));
    }
    if z != null {
      assert old(Placed(z, k));
    }
    TurnedLinked(u);
  }

  twostate lemma KidsThen(u: Turn)
    requires old(Sub(u.k.t, u.d) != null && Linked(Sub(u.k.t, u.d), u.k.S))
    ensures old(Kids(Sub(u.k.t, u.d), u.k.S))
  {
  }

  /** Only the two nodes of the rotation and their children matter. */
  twostate lemma TurnedLinked(u: Turn)
    requires Rotated(u.d, u.k.t, u.k.S)
    requires old(Kids(u.k.t, u.k.S) && Sub(u.k.t, u.d) != null && Linked(Sub(u.k.t, u.d), u.k.S))
    requires old(var w := Sub(u.k.t, Other(u.d)); w != null ==> Linked(w, u.k.S))
    requires old(var z := Sub(Sub(u.k.t, u.d), Other(u.d)); z != null ==> Linked(z, u.k.S))
    ensures Linked(u.k.t, u.k.S)
  {
  }

  twostate lemma RotatePlaced(u: Turn)
    requires old(Scaffold(u.k)) && Rotated(u.d, u.k.t, u.k.S)
    ensures forall m :: m in u.k.S && m != u.k.t ==> Placed(m, u.k.(t := old(Sub(u.k.t, u.d))))
  {
    var d, k, t := u.d, u.k, u.k.t;
    var y := old(Sub(t, d));
    var z := old(Sub(y, Other(d)));
    assert old(Placed(y, k));
    forall m | m in k.S && m != t ensures Placed(m, k.(t := y)) {
      assert old(Placed(m, k));
      if m != y && m.role == Inner {
        assert m != z ==> unchanged(m);
        assert m.left != y && m.right != y && m.left != t && m.right != t;
      }
    }
  }

  twostate lemma RotateRest(u: Turn)
    requires old(Scaffold(u.k)) && Rotated(u.d, u.k.t, u.k.S)
    ensures u.d == L ==> old(Rest(u.k.t)).left.Bin? && Rest(old(u.k.t.left)) == RotatedRight(old(Rest(u.k.t)))
    ensures u.d == R ==> old(Rest(u.k.t)).right.Bin? && Rest(old(u.k.t.right)) == RotatedLeft(old(Rest(u.k.t)))
  {
    assert old(Placed(Sub(u.k.t, u.d), u.k));
  }

  twostate lemma RotateOffs(u: Turn)
    requires old(Scaffold(u.k)) && Rotated(u.d, u.k.t, u.k.S)
    ensures forall m :: m in u.k.S ==> OffKept(m, u.k.S)
    ensures Kids(old(Sub(u.k.t, u.d)), u.k.S)
    ensures forall m :: m in u.k.S && old(m.role.On?) ==> unchanged(m)
  {
    assert old(Placed(Sub(u.k.t, u.d), u.k));
  }

  twostate lemma RotateScaffold(u: Turn)
    requires old(Scaffold(u.k)) && Rotated(u.d, u.k.t, u.k.S)
    requires forall d :: Sub(u.k.header, d) == old(Sub(u.k.header, d))
    requires u.k.header.role == old(u.k.header.role)
    ensures Scaffold(u.k.(t := old(Sub(u.k.t, u.d))))
  {
    hide Linked;
    var k := u.k;
    RotateOffs(u);
    RotateLinked(u);
    RotatePlaced(u);
    SpineKept(k.left);
    SpineKept(k.right);
    assert k.header.left == Sub(k.header, L) && k.header.right == Sub(k.header, R);
  }

  twostate lemma RotateStrangers(u: Turn)
    requires Rotated(u.d, u.k.t, u.k.S)
    requires old(u.k.t.role == Current && Kids(u.k.t, u.k.S) && Linked(Sub(u.k.t, u.d), u.k.S))
    ensures StrangersKept(u.k.S)
  {
  }

  method RelinkRight(t: Node, ghost S: set<Node>) returns (y: Node)
    requires t in S && t.role == Current && Kids(t, S) && t.left != null && Linked(t.left, S)
    modifies t, t.left, t.left.right
    ensures y == old(t.left) && Rotated(L, t, S)
  {
    y := t.left;
    t.left := y.right;
    y.right := t;
    t.value := NodeValue(t.left) + NodeValue(t.right) + 1;
    t.tree, t.parent, t.role := Bin(TreeOf(t.left), t.key, TreeOf(t.right)), y, Inner;
    y.role := Current;
    if t.left != null {
      t.left.parent := t;
    }
  }

  method RelinkLeft(t: Node, ghost S: set<Node>) returns (y: Node)
    requires t in S && t.role == Current && Kids(t, S) && t.right != null && Linked(t.right, S)
    modifies t, t.right, t.right.left
    ensures y == old(t.right) && Rotated(R, t, S)
  {
    y := t.right;
    t.right := y.left;
    y.left := t;
    t.value := NodeValue(t.left) + NodeValue(t.right) + 1;
    t.tree, t.parent, t.role := Bin(TreeOf(t.left), t.key, TreeOf(t.right)), y, Inner;
    y.role := Current;
    if t.right != null {
      t.right.parent := t;
    }
  }

  method RotateRight(t: Node, ghost k: Cut) returns (y: Node)
    requires Scaffold(k) && t == k.t && t.left != null
    modifies t, t.left, t.left.right
    ensures y == old(t.left) && Scaffold(k.(t := y)) && StrangersKept(k.S)
    ensures old(Rest(t)).left.Bin? && Rest(y) == RotatedRight(old(Rest(t)))
  {
    hide Scaffold, Placed, SpineOk, StrangersKept, Rotated, Rest;
    ScaffoldTop(k);
    assert t.left == Sub(t, L);
    y := RelinkRight(t, k.S);
    RotateScaffold(Turn(L, k));
    RotateRest(Turn(L, k));
    RotateStrangers(Turn(L, k));
  }

  method RotateLeft(t: Node, ghost k: Cut) returns (y: Node)
    requires Scaffold(k) && t == k.t && t.right != null
    modifies t, t.right, t.right.left
    ensures y == old(t.right) && Scaffold(k.(t := y)) && StrangersKept(k.S)
    ensures old(Rest(t)).right.Bin? && Rest(y) == RotatedLeft(old(Rest(t)))
  {
    hide Scaffold, Placed, SpineOk, StrangersKept, Rotated, Rest;
    ScaffoldTop(k);
    assert t.right == Sub(t, R);
    y := RelinkLeft(t, k.S);
    RotateScaffold(Turn(R, k));
    RotateRest(Turn(R, k));
    RotateStrangers(Turn(R, k));
  }

  // ---- links -------------------------------------------------------------------------------

  /** t, the current node of k, has been hung below its spine on the side other than d, and its child
      on side d is current. */
  twostate predicate Descended(u: Turn)
    reads u.k.S, u.k.t, u.k.Last(Other(u.d)), u.k.header
  {
    var d, k, t, r := u.d, u.k, u.k.t, u.k.Last(Other(u.d));
    var next := Sub(t, d);
    && next != null && t in k.S && next in k.S && t != next && r != t && r != next
    && (r in k.S || r == k.header)
    && (forall m :: m in k.S && m != t && m != next && m != r ==> unchanged(m))
    && next.role == Current && KeptShape(t) && KeptShape(next) && next.parent == old(next.parent)
    && t.role == On(Other(d), |k.At(Other(d)).nodes|)
    && r.role == old(r.role) && Sub(r, d) == t && Sub(r, Other(d)) == old(Sub(r, Other(d)))
    && k.header.role == Current && Sub(k.header, Other(d)) == old(Sub(k.header, Other(d)))
    && (r != k.header ==> Sub(k.header, d) == old(Sub(k.header, d)))
  }

  /** The splay state after the descent. */
  ghost function Below(u: Turn): Cut
    requires Sub(u.k.t, u.d) != null
    reads u.k.t, u.k.t.left, u.k.t.right
  {
    if u.d == L then u.k.(t := Sub(u.k.t, L), right := Pushed(u.k.right, u.k.t))
    else u.k.(t := Sub(u.k.t, R), left := Pushed(u.k.left, u.k.t))
  }

  twostate lemma DescendPlaced(u: Turn)
    requires old(Scaffold(u.k)) && Descended(u)
    ensures forall m :: m in u.k.S && m != u.k.t ==> Placed(m, Below(u))
  {
    var k, t, r, next := u.k, u.k.t, u.k.Last(Other(u.d)), Sub(u.k.t, u.d);
    assert old(!r.role.Inner?);
    forall m | m in k.S && m != t ensures Placed(m, Below(u)) {
      assert old(Placed(m, k));
      if m != next && m.role == Inner {
        assert m != next ==> unchanged(m);
        assert m.left != next && m.right != next && m.left != t && m.right != t;
        assert m.left != r && m.right != r;
      }
    }
  }

  /** A descent changes no tree that hangs off a spine. */
  twostate lemma DescendOffs(u: Turn)
    requires old(Scaffold(u.k)) && Descended(u)
    ensures forall m :: m in u.k.S ==> OffKept(m, u.k.S)
    ensures var w := Sub(u.k.t, Other(u.d)); w != null ==> unchanged(w)
    ensures forall m :: m in u.k.S && old(m.role.On?) && m != u.k.Last(Other(u.d)) ==> unchanged(m)
  {
    hide Linked;
  }

  lemma PushedOk(c: Spine, t: Node)
    requires SpineOk(c) && t in c.S && t.role == On(c.side, |c.nodes|) && ChildOf(Sub(t, c.side), t, c.S)
    requires c.nodes != [] ==> Sub(c.nodes[|c.nodes| - 1], Other(c.side)) == t
    ensures SpineOk(Pushed(c, t))
  {
  }

  /** The spine that t joins. */
  twostate lemma DescendJoined(u: Turn)
    requires old(SpineOk(u.k.At(Other(u.d)))) && Descended(u)
    requires old(u.k.t.role == Current && Kids(u.k.t, u.k.S)) && u.k.header !in u.k.S
    requires u.k.At(Other(u.d)).S == u.k.S && u.k.At(Other(u.d)).side == Other(u.d)
    requires forall m :: m in u.k.S ==> OffKept(m, u.k.S)
    requires var w := Sub(u.k.t, Other(u.d)); w != null ==> unchanged(w)
    ensures SpineOk(Pushed(u.k.At(Other(u.d)), u.k.t))
  {
    hide SpineOk, Linked;
    var c := u.k.At(Other(u.d));
    JoinedNodes(u);
    SpineKept(c);
    PushedOk(c, u.k.t);
  }

  twostate lemma JoinedNodes(u: Turn)
    requires old(SpineOk(u.k.At(Other(u.d)))) && Descended(u)
    requires old(u.k.t.role == Current && Kids(u.k.t, u.k.S)) && u.k.header !in u.k.S
    requires u.k.At(Other(u.d)).S == u.k.S && u.k.At(Other(u.d)).side == Other(u.d)
    ensures var c := u.k.At(Other(u.d)); forall j :: 0 <= j < |c.nodes| ==>
      c.nodes[j].role == old(c.nodes[j].role) && Sub(c.nodes[j], c.side) == old(Sub(c.nodes[j], c.side))
    ensures var c := u.k.At(Other(u.d)); forall j :: 0 <= j < |c.nodes| - 1 ==>
      Sub(c.nodes[j], Other(c.side)) == old(Sub(c.nodes[j], Other(c.side)))
  {
  }

  twostate lemma DescendRest(u: Turn)
    requires old(Scaffold(u.k)) && Descended(u)
    ensures Kids(Sub(u.k.t, u.d), u.k.S) && Rest(Sub(u.k.t, u.d)) == old(TreeOf(Sub(u.k.t, u.d)))
    ensures TreeOf(Sub(u.k.t, Other(u.d))) == old(TreeOf(Sub(u.k.t, Other(u.d))))
    ensures NodeValue(Sub(u.k.t, Other(u.d))) == Size(TreeOf(Sub(u.k.t, Other(u.d))))
  {
    var next, w := Sub(u.k.t, u.d), Sub(u.k.t, Other(u.d));
    assert old(Placed(next, u.k));
    assert w != null ==> old(Placed(w, u.k));
  }

  /** The spine that t does not join. */
  twostate lemma DescendOther(u: Turn)
    requires old(Scaffold(u.k)) && Descended(u)
    ensures SpineOk(u.k.At(u.d))
  {
    hide Linked;
    DescendOffs(u);
    SpineKept(u.k.At(u.d));
  }

  twostate lemma DescendScaffold(u: Turn)
    requires old(Scaffold(u.k)) && Descended(u)
    ensures Scaffold(Below(u))
  {
    hide Linked, Kids;
    DescendOffs(u);
    DescendJoined(u);
    DescendOther(u);
    DescendRest(u);
    DescendPlaced(u);
  }

  twostate lemma DescendStrangers(u: Turn)
    requires Descended(u)
    requires u.k.header !in u.k.S
    requires old(u.k.t.role == Current && Kids(u.k.t, u.k.S) && u.k.Last(Other(u.d)).role != Inner)
    ensures StrangersKept(u.k.S)
  {
  }

  method LinkRight(r: Node, t: Node, ghost k: Cut) returns (next: Node)
    requires Scaffold(k) && t == k.t && t.left != null && r == k.Last(R)
    modifies r`left, t`role, t.left`role
    ensures next == old(t.left) && t.left == next && t.right == old(t.right)
    ensures Scaffold(k.(t := next, right := Pushed(k.right, t))) && StrangersKept(k.S)
    ensures Rest(next) == old(TreeOf(t.left))
    ensures TreeOf(t.right) == old(TreeOf(t.right)) && NodeValue(t.right) == Size(TreeOf(t.right))
  {
    hide Scaffold, Placed, SpineOk, Linked, StrangersKept, Rest;
    ScaffoldTop(k);
    assert t.left == Sub(t, L) && t.right == Sub(t, R);
    next := t.left;
    r.left := t;
    t.role := On(R, |k.right.nodes|);
    next.role := Current;
    assert Descended(Turn(L, k));
    DescendScaffold(Turn(L, k));
    DescendRest(Turn(L, k));
    DescendStrangers(Turn(L, k));
  }

  method LinkLeft(l: Node, t: Node, ghost k: Cut) returns (next: Node)
    requires Scaffold(k) && t == k.t && t.right != null && l == k.Last(L)
    modifies l`right, t`role, t.right`role
    ensures next == old(t.right) && t.right == next && t.left == old(t.left)
    ensures Scaffold(k.(t := next, left := Pushed(k.left, t))) && StrangersKept(k.S)
    ensures Rest(next) == old(TreeOf(t.right))
    ensures TreeOf(t.left) == old(TreeOf(t.left)) && NodeValue(t.left) == Size(TreeOf(t.left))
  {
    hide Scaffold, Placed, SpineOk, Linked, StrangersKept, Rest;
    ScaffoldTop(k);
    assert t.left == Sub(t, L) && t.right == Sub(t, R);
    next := t.right;
    l.right := t;
    t.role := On(L, |k.left.nodes|);
    next.role := Current;
    assert Descended(Turn(R, k));
    DescendScaffold(Turn(R, k));
    DescendRest(Turn(R, k));
    DescendStrangers(Turn(R, k));
  }

  // ---- putting the pieces together ---------------------------------------------------------

  ghost function OffSet(c: Spine): set<Node> {
    set o: Node | o in c.offs
  }

  /** The roots of the subtrees hanging from a spine hold their sizes. */
  ghost predicate Hanging(c: Spine)
    reads OffSet(c)`value
  {
    && |c.nodes| == |c.pieces| && |c.nodes| == |c.offs|
    && (forall j :: 0 <= j < |c.nodes| ==> NodeValue(c.offs[j]) == Size(c.pieces[j].off))
  }

  /** The node below node j of the spine (its top node for j = -1), or end below the last one. */
  ghost function Follower(c: Spine, j: int, end: Node?): Node?
    requires -1 <= j
  {
    if j + 1 < |c.nodes| then c.nodes[j + 1] else end
  }

  /** The pointers of the spine, from the header to a null at its lower end. */
  ghost predicate Chained(c: Spine, header: Node)
    reads header`left, header`right, c.nodes`left, c.nodes`right
  {
    && |c.nodes| == |c.offs|
    && Sub(header, Other(c.side)) == Follower(c, -1, null)
    && (forall j :: 0 <= j < |c.nodes| ==>
          Sub(c.nodes[j], c.side) == c.offs[j] && Sub(c.nodes[j], Other(c.side)) == Follower(c, j, null))
  }

  ghost predicate Distinct(c: Spine) {
    forall i, j :: 0 <= i < j < |c.nodes| ==> c.nodes[i] != c.nodes[j]
  }

  ghost function SpineTree(d: Side, c: seq<Piece>, x: Tree): Tree {
    if d == L then LeftSpine(c, x) else RightSpine(c, x)
  }

  /** The values on the spine are right for the day when tree end closes it. */
  ghost predicate Sized(c: Spine, end: Tree)
    reads Members(c)`value
  {
    SizedTo(c, end, |c.nodes|)
  }

  ghost predicate SizedTo(c: Spine, end: Tree, k: int)
    reads Members(c)`value
  {
    && |c.nodes| == |c.pieces| && 0 <= k <= |c.nodes|
    && (forall j :: 0 <= j < k ==> c.nodes[j].value == Size(SpineTree(c.side, c.pieces[j..], end)))
  }

  lemma SizedNone(c: Spine, end: Tree)
    requires |c.nodes| == |c.pieces|
    ensures SizedTo(c, end, 0)
  {
  }

  datatype SizedStep = SizedStep(c: Spine, end: Tree, k: int)

  twostate lemma SizedOneMore(u: SizedStep)
    requires Distinct(u.c) && old(SizedTo(u.c, u.end, u.k)) && 0 <= u.k < |u.c.nodes|
    requires forall m :: m in Members(u.c) && m != u.c.nodes[u.k] ==> m.value == old(m.value)
    requires u.c.nodes[u.k].value == Size(SpineTree(u.c.side, u.c.pieces[u.k..], u.end))
    ensures SizedTo(u.c, u.end, u.k + 1)
  {
    hide SpineTree, Size;
    assert forall j :: 0 <= j < u.k ==> u.c.nodes[j] in Members(u.c) && u.c.nodes[j] != u.c.nodes[u.k];
  }

  /** What node k of a spine (the header, for k = -1) points to. */
  lemma ChainStep(c: Spine, header: Node, k: int)
    requires Hanging(c) && Chained(c, header) && -1 <= k < |c.nodes|
    ensures |c.nodes| == |c.pieces| && |c.nodes| == |c.offs|
    ensures k == -1 ==> Sub(header, Other(c.side)) == Follower(c, -1, null)
    ensures k >= 0 ==>
      && Sub(c.nodes[k], c.side) == c.offs[k] && Sub(c.nodes[k], Other(c.side)) == Follower(c, k, null)
      && NodeValue(c.offs[k]) == Size(c.pieces[k].off)
      && (c.offs[k] != null ==> c.offs[k] in OffSet(c))
  {
  }

  method FixLeftSizes(header: Node, total: int, ghost c: Spine, ghost x: Tree)
    requires c.side == L && Hanging(c) && Chained(c, header) && total == Size(LeftSpine(c.pieces, x))
    requires Members(c) !! OffSet(c) && Distinct(c)
    modifies Members(c)`value
    ensures Sized(c, x)
  {
    hide LeftSpine, RightSpine, Size, SizedTo, Hanging, Chained, Distinct;
    ChainStep(c, header, -1);
    var y, size := header.right, total;
    ghost var k := 0;
    assert c.pieces[0..] == c.pieces && SizedTo(c, x, 0) by {
      SizedNone(c, x);
    }
    while y != null
      invariant 0 <= k <= |c.nodes| && size == Size(LeftSpine(c.pieces[k..], x))
      invariant y == Follower(c, k - 1, null) && Hanging(c) && Chained(c, header)
      invariant SizedTo(c, x, k)
      decreases |c.nodes| - k
    {
      SpineSizes(c.pieces, k, x);
      ChainStep(c, header, k);
      label Before:
      y.value := size;
      size := size - (1 + NodeValue(y.left));
      y := y.right;
      SizedOneMore@Before(SizedStep(c, x, k));
      k := k + 1;
    }
  }

  method FixRightSizes(header: Node, total: int, ghost c: Spine, ghost x: Tree)
    requires c.side == R && Hanging(c) && Chained(c, header) && total == Size(RightSpine(c.pieces, x))
    requires Members(c) !! OffSet(c) && Distinct(c)
    modifies Members(c)`value
    ensures Sized(c, x)
  {
    hide LeftSpine, RightSpine, Size, SizedTo, Hanging, Chained, Distinct;
    ChainStep(c, header, -1);
    var y, size := header.left, total;
    ghost var k := 0;
    assert c.pieces[0..] == c.pieces && SizedTo(c, x, 0) by {
      SizedNone(c, x);
    }
    while y != null
      invariant 0 <= k <= |c.nodes| && size == Size(RightSpine(c.pieces[k..], x))
      invariant y == Follower(c, k - 1, null) && Hanging(c) && Chained(c, header)
      invariant SizedTo(c, x, k)
      decreases |c.nodes| - k
    {
      SpineSizes(c.pieces, k, x);
      ChainStep(c, header, k);
      label Before:
      y.value := size;
      size := size - (1 + NodeValue(y.right));
      y := y.left;
      SizedOneMore@Before(SizedStep(c, x, k));
      k := k + 1;
    }
  }

  lemma ScaffoldHanging(k: Cut)
    requires Scaffold(k)
    ensures Hanging(k.left) && Hanging(k.right)
    ensures NodeValue(k.t.left) == Size(TreeOf(k.t.left)) && NodeValue(k.t.right) == Size(TreeOf(k.t.right))
  {
    forall m: Node | m in k.S && m.role == Inner ensures m.value == Size(m.tree) {
      assert Placed(m, k);
    }
    forall j | 0 <= j < |k.left.nodes| ensures NodeValue(k.left.offs[j]) == Size(k.left.pieces[j].off) {
      assert ChildOf(k.left.offs[j], k.left.nodes[j], k.S);
    }
    forall j | 0 <= j < |k.right.nodes| ensures NodeValue(k.right.offs[j]) == Size(k.right.pieces[j].off) {
      assert ChildOf(k.right.offs[j], k.right.nodes[j], k.S);
    }
  }

  /** The nodes of the spines, the roots hanging from them and t are all different. */
  ghost predicate Apart(lc: Spine, rc: Spine, t: Node) {
    && Distinct(lc) && Distinct(rc)
    && Members(lc) + Members(rc) !! OffSet(lc) + OffSet(rc)
    && Members(lc) !! Members(rc)
    && t !in Members(lc) + Members(rc) + OffSet(lc) + OffSet(rc)
  }

  lemma SpineRoles(c: Spine)
    requires SpineOk(c)
    ensures Distinct(c)
    ensures forall m :: m in Members(c) ==> m.role.On? && m.role.side == c.side
    ensures forall m :: m in OffSet(c) ==> m.role == Inner
  {
    forall m | m in OffSet(c) ensures m.role == Inner {
      var j :| 0 <= j < |c.offs| && c.offs[j] == m;
      assert ChildOf(c.offs[j], c.nodes[j], c.S);
    }
  }

  /** What a scaffold says about the roles of its nodes. */
  lemma ScaffoldRoles(k: Cut)
    requires Scaffold(k)
    ensures SpineOk(k.left) && SpineOk(k.right) && k.left.side == L && k.right.side == R && k.t.role == Current
    ensures forall m :: m in Members(k.left) + Members(k.right) + {k.t} ==> m in k.S
  {
  }

  lemma ScaffoldApart(k: Cut)
    requires Scaffold(k)
    ensures Apart(k.left, k.right, k.t)
  {
    hide Scaffold, SpineOk, Members, OffSet, Distinct;
    ScaffoldRoles(k);
    SpineRoles(k.left);
    SpineRoles(k.right);
  }

  /** Cutting below the last spine node leaves a chain. */
  twostate lemma CutChained(u: Turn)
    requires old(SpineOk(u.k.At(u.d))) && u.k.At(u.d).S == u.k.S && u.k.At(u.d).side == u.d && u.k.header !in u.k.S
    requires u.k.At(u.d).nodes != [] ==> old(Sub(u.k.header, Other(u.d))) == u.k.At(u.d).nodes[0]
    requires Sub(u.k.Last(u.d), Other(u.d)) == null
    requires forall m :: (m in u.k.At(u.d).nodes || m == u.k.header) && m != u.k.Last(u.d) ==>
      Sub(m, Other(u.d)) == old(Sub(m, Other(u.d)))
    requires forall m :: m in u.k.At(u.d).nodes ==> Sub(m, u.d) == old(Sub(m, u.d))
    ensures Chained(u.k.At(u.d), u.k.header)
  {
    var c, last := u.k.At(u.d), u.k.Last(u.d);
    forall j | 0 <= j < |c.nodes|
      ensures Sub(c.nodes[j], c.side) == c.offs[j] && Sub(c.nodes[j], Other(c.side)) == Follower(c, j, null)
    {
      if j + 1 < |c.nodes| {
        assert old(Sub(c.nodes[j], Other(c.side))) == c.nodes[j + 1];
        assert old(c.nodes[j].role) == On(u.d, j) && old(last.role) == On(u.d, |c.nodes| - 1);
      }
    }
  }

  /** The total size is stored, and the spines are cut off below. */
  method CutSpines(t: Node, l: Node, r: Node, header: Node, lSize: int, rSize: int, ghost k: Cut)
    requires Scaffold(k) && t == k.t && header == k.header && l == k.Last(L) && r == k.Last(R)
    modifies t`value, l`right, r`left
    ensures t.value == lSize + rSize + 1
    ensures Chained(k.left, header) && Chained(k.right, header)
  {
    hide Placed, Kids, ChildOf, Chained;
    ScaffoldApart(k);
    t.value := lSize + rSize + 1;
    l.right, r.left := null, null;
    CutChained(Turn(L, k));
    CutChained(Turn(R, k));
  }

  method FixSizes(header: Node, lSize: int, rSize: int, ghost lc: Spine, ghost rc: Spine, ghost t: Node,
                  ghost x: Tree, ghost z: Tree)
    requires Hanging(lc) && Hanging(rc) && lc.side == L && rc.side == R && Apart(lc, rc, t)
    requires Chained(lc, header) && Chained(rc, header)
    requires lSize == Size(LeftSpine(lc.pieces, x)) && rSize == Size(RightSpine(rc.pieces, z))
    modifies Members(lc)`value, Members(rc)`value
    ensures Sized(lc, x) && Sized(rc, z)
  {
    hide Hanging, Chained, LeftSpine, RightSpine, Size, Sized;
    FixLeftSizes(header, lSize, lc, x);
    FixRightSizes(header, rSize, rc, z);
  }

  /** First half of reassembly: the spines are cut off below and all stale sizes are corrected. */
  method Resize(t: Node, l: Node, r: Node, header: Node, lAcc: int, rAcc: int,
                ghost k: Cut, ghost x: Tree, ghost z: Tree)
    requires Scaffold(k) && t == k.t && header == k.header && l == k.Last(L) && r == k.Last(R)
    requires x == TreeOf(t.left) && z == TreeOf(t.right)
    requires lAcc == Size(LeftSpine(k.left.pieces, Leaf)) && rAcc == Size(RightSpine(k.right.pieces, Leaf))
    modifies t`value, l`right, r`left, Members(k.left)`value, Members(k.right)`value
    ensures t.value == Size(LeftSpine(k.left.pieces, x)) + Size(RightSpine(k.right.pieces, z)) + 1
    ensures Sized(k.left, x) && Sized(k.right, z)
    ensures Chained(k.left, header) && Chained(k.right, header)
  {
    hide Scaffold, SpineOk, Hanging, LeftSpine, RightSpine, Chained, Sized;
    ScaffoldHanging(k);
    ScaffoldDistinct(k);
    ScaffoldApart(k);
    LeftSpineOrder(k.left.pieces, x);
    RightSpineOrder(k.right.pieces, z);
    var lSize := lAcc + NodeValue(t.left);
    var rSize := rAcc + NodeValue(t.right);
    CutSpines(t, l, r, header, lSize, rSize, k);
    FixSizes(header, lSize, rSize, k.left, k.right, t, x, z);
  }

  ghost function Above(c: Spine, j: nat, t: Node): Node
    requires j <= |c.nodes|
  {
    if j == 0 then t else c.nodes[j - 1]
  }

  ghost predicate InRole(c: Spine)
    reads c.nodes`role
  {
    forall j :: 0 <= j < |c.nodes| ==> c.nodes[j].role == On(c.side, j)
  }

  lemma ScaffoldDistinct(k: Cut)
    requires Scaffold(k)
    ensures k.left.side == L && k.right.side == R
    ensures InRole(k.left) && InRole(k.right) && k.t.role == Current && k.header.role == Current && k.header != k.t
    ensures |k.left.nodes| == |k.left.pieces| && |k.right.nodes| == |k.right.pieces|
    ensures {k.t, k.t.left, k.t.right} !! Members(k.left) && {k.t, k.t.left, k.t.right} !! Members(k.right)
    ensures forall d :: k.Last(d) == k.header || k.Last(d) in Members(k.At(d))
    ensures k.t.left != null ==> k.t.left.role == Inner && k.t.left != k.t.right
    ensures k.t.right != null ==> k.t.right.role == Inner
    ensures k.header !in {k.t.left, k.t.right} && k.t !in {k.t.left, k.t.right}
  {
  }

  /** What the ghost side of reassembly does to spine node j. */
  ghost predicate SettledAt(c: Spine, t: Node, end: Tree, j: nat)
    requires |c.nodes| == |c.pieces| && j < |c.nodes|
    reads c.nodes[j]
  {
    && c.nodes[j].role == Inner && c.nodes[j].parent == Above(c, j, t)
    && c.nodes[j].tree == SpineTree(c.side, c.pieces[j..], end)
  }

  /** The ghost side of reassembly: spine nodes become inner nodes of their final subtrees. */
  ghost method Settle(c: Spine, t: Node, x: Node?, end: Tree)
    requires |c.nodes| == |c.pieces| && InRole(c) && x !in c.nodes
    modifies Members(c)`tree, Members(c)`parent, Members(c)`role
    modifies (if x == null then {} else {x})`parent
    ensures forall j :: 0 <= j < |c.nodes| ==> SettledAt(c, t, end, j)
    ensures x != null ==> x.parent == Above(c, |c.nodes|, t)
  {
    forall j | 0 <= j < |c.nodes| {
      c.nodes[j].tree := SpineTree(c.side, c.pieces[j..], end);
    }
    forall j | 0 <= j < |c.nodes| {
      c.nodes[j].parent := Above(c, j, t);
    }
    forall m | m in c.nodes {
      m.role := Inner;
    }
    if x != null {
      x.parent := Above(c, |c.nodes|, t);
    }
  }

  ghost method SettleBoth(t: Node, x: Node?, z: Node?, lc: Spine, rc: Spine, left: Tree, right: Tree)
    requires |lc.nodes| == |lc.pieces| && |rc.nodes| == |rc.pieces| && lc.side == L && rc.side == R
    requires InRole(lc) && InRole(rc) && t.role == Current
    requires (x != null ==> x.role == Inner && x != z) && (z != null ==> z.role == Inner)
    modifies t`tree, t`parent, t`role
    modifies Members(lc)`tree, Members(lc)`parent, Members(lc)`role
    modifies Members(rc)`tree, Members(rc)`parent, Members(rc)`role
    modifies (if x == null then {} else {x})`parent, (if z == null then {} else {z})`parent
    ensures forall j :: 0 <= j < |lc.nodes| ==> SettledAt(lc, t, left, j)
    ensures forall j :: 0 <= j < |rc.nodes| ==> SettledAt(rc, t, right, j)
    ensures x != null ==> x.parent == Above(lc, |lc.nodes|, t)
    ensures z != null ==> z.parent == Above(rc, |rc.nodes|, t)
    ensures t.role == Inner && t.parent == null
    ensures t.tree == Bin(LeftSpine(lc.pieces, left), t.key, RightSpine(rc.pieces, right))
  {
    hide LeftSpine, RightSpine;
    assert t !in lc.nodes && t !in rc.nodes && t != x && t != z;
    assert forall m :: m in lc.nodes ==> m !in rc.nodes && m != z;
    t.role, t.parent := Inner, null;
    t.tree := Bin(LeftSpine(lc.pieces, left), t.key, RightSpine(rc.pieces, right));
    Settle(lc, t, x, left);
    Settle(rc, t, z, right);
  }

  /** The pointers of the spine, hung from t, once it ends in x. */
  ghost predicate Hooked(c: Spine, t: Node, x: Node?)
    reads t`left, t`right, c.nodes`left, c.nodes`right
  {
    && |c.nodes| == |c.offs|
    && Sub(t, c.side) == Follower(c, -1, x)
    && (forall j :: 0 <= j < |c.nodes| ==>
          Sub(c.nodes[j], c.side) == c.offs[j] && Sub(c.nodes[j], Other(c.side)) == Follower(c, j, x))
  }

  /** Spine node j has become an inner node again, below its neighbour and above the next one. */
  ghost predicate JoinedAt(c: Spine, t: Node, x: Node?, end: Tree, j: nat)
    requires |c.nodes| == |c.pieces| && |c.nodes| == |c.offs| && j < |c.nodes|
    reads c.nodes[j]
  {
    var n := c.nodes[j];
    && n.role == Inner && n.parent == Above(c, j, t)
    && Sub(n, c.side) == c.offs[j] && Sub(n, Other(c.side)) == Follower(c, j, x)
    && n.tree == SpineTree(c.side, c.pieces[j..], end)
    && n.value == Size(n.tree)
  }

  /** The spine hangs from t and ends in x, which was the subtree of t on that side. */
  ghost predicate Joined(c: Spine, t: Node, x: Node?, end: Tree)
    reads c.nodes, t`left, t`right, x
  {
    && |c.nodes| == |c.pieces| && |c.nodes| == |c.offs|
    && (forall j :: 0 <= j < |c.nodes| ==> JoinedAt(c, t, x, end, j))
    && Sub(t, c.side) == Follower(c, -1, x)
    && (x != null ==> x.role == Inner && x.parent == Above(c, |c.nodes|, t) && x.tree == end)
    && (x == null ==> end == Leaf)
  }

  lemma MakeJoined(c: Spine, t: Node, x: Node?, end: Tree)
    requires Hooked(c, t, x) && Sized(c, end)
    requires forall j :: 0 <= j < |c.nodes| ==> SettledAt(c, t, end, j)
    requires x != null ==> x.role == Inner && x.parent == Above(c, |c.nodes|, t)
    requires end == TreeOf(x)
    ensures Joined(c, t, x, end)
  {
    hide SpineTree, Size;
    forall j | 0 <= j < |c.nodes| ensures JoinedAt(c, t, x, end, j) {
      assert SettledAt(c, t, end, j);
    }
  }

  lemma RolesApart(t: Node, x: Node?, z: Node?, lc: Spine, rc: Spine)
    requires InRole(lc) && InRole(rc) && t.role == Current
    requires (x != null ==> x.role == Inner) && (z != null ==> z.role == Inner)
    ensures x !in lc.nodes && x !in rc.nodes && z !in lc.nodes && z !in rc.nodes && t != x && t != z
  {
  }

  ghost method Finish(t: Node, x: Node?, z: Node?, lc: Spine, rc: Spine, left: Tree, right: Tree)
    requires |lc.nodes| == |lc.pieces| && |rc.nodes| == |rc.pieces| && t.role == Current && lc.side == L && rc.side == R
    requires InRole(lc) && InRole(rc) && Hooked(lc, t, x) && Hooked(rc, t, z)
    requires Sized(lc, left) && Sized(rc, right)
    requires (x != null ==> x.role == Inner && x != z) && (z != null ==> z.role == Inner)
    requires left == TreeOf(x) && right == TreeOf(z)
    modifies t`tree, t`parent, t`role
    modifies Members(lc)`tree, Members(lc)`parent, Members(lc)`role
    modifies Members(rc)`tree, Members(rc)`parent, Members(rc)`role
    modifies (if x == null then {} else {x})`parent, (if z == null then {} else {z})`parent
    ensures Joined(lc, t, x, left) && Joined(rc, t, z, right)
    ensures t.role == Inner && t.parent == null
    ensures t.tree == Bin(LeftSpine(lc.pieces, left), t.key, RightSpine(rc.pieces, right))
  {
    hide Hooked, InRole, Sized, SettledAt, Joined, LeftSpine, RightSpine;
    RolesApart(t, x, z, lc, rc);
    SettleBoth(t, x, z, lc, rc, left, right);
    MakeJoined(lc, t, x, left);
    MakeJoined(rc, t, z, right);
  }

  method Hook(t: Node, l: Node, r: Node, header: Node, ghost lc: Spine, ghost rc: Spine)
    requires l == LastOf(header, lc) && r == LastOf(header, rc) && header != t && lc.side == L && rc.side == R
    requires t.role == Current && header.role == Current && InRole(lc) && InRole(rc)
    requires Chained(lc, header) && Chained(rc, header)
    modifies l`right, r`left, t`left, t`right
    ensures Hooked(lc, t, old(t.left)) && Hooked(rc, t, old(t.right))
  {
    assert t !in lc.nodes && t !in rc.nodes && header !in lc.nodes && header !in rc.nodes;
    l.right := t.left;
    r.left := t.right;
    t.left := header.right;
    t.right := header.left;
  }

  /** Second half: the pieces are hung under t. */
  method Join(t: Node, l: Node, r: Node, header: Node, ghost lc: Spine, ghost rc: Spine,
              ghost x: Node?, ghost z: Node?, ghost left: Tree, ghost right: Tree)
    requires l == LastOf(header, lc) && r == LastOf(header, rc) && header != t && lc.side == L && rc.side == R
    requires t.role == Current && header.role == Current && InRole(lc) && InRole(rc)
    requires |lc.nodes| == |lc.pieces| && |rc.nodes| == |rc.pieces|
    requires Chained(lc, header) && Chained(rc, header)
    requires Sized(lc, left) && Sized(rc, right)
    requires x == t.left && z == t.right && left == TreeOf(x) && right == TreeOf(z)
    requires (x != null ==> x.role == Inner && x != z) && (z != null ==> z.role == Inner)
    modifies l`right, r`left, t`left, t`right, t`tree, t`role, t`parent
    modifies Members(lc)`tree, Members(lc)`parent, Members(lc)`role
    modifies Members(rc)`tree, Members(rc)`parent, Members(rc)`role
    modifies (if x == null then {} else {x})`parent, (if z == null then {} else {z})`parent
    ensures Joined(lc, t, x, left) && Joined(rc, t, z, right)
    ensures t.role == Inner && t.parent == null
    ensures t.tree == Bin(LeftSpine(lc.pieces, left), t.key, RightSpine(rc.pieces, right))
  {
    hide InRole, Chained, Sized, Hooked, Joined, LeftSpine, RightSpine;
    Hook(t, l, r, header, lc, rc);
    Finish(t, x, z, lc, rc, left, right);
  }

  twostate predicate Assembled(k: Cut, x: Node?, z: Node?)
    reads k.left.nodes, k.right.nodes, k.t, x, z
  {
    var t := k.t;
    && x == old(t.left) && z == old(t.right)
    && Joined(k.left, t, x, old(TreeOf(x))) && Joined(k.right, t, z, old(TreeOf(z)))
    && (x != null ==> KeptShape(x)) && (z != null ==> KeptShape(z))
    && t.role == Inner && t.parent == null && t.value == Size(t.tree)
    && t.tree == Bin(LeftSpine(k.left.pieces, old(TreeOf(x))), t.key, RightSpine(k.right.pieces, old(TreeOf(z))))
  }

  twostate predicate OthersKept(k: Cut)
    reads k.S
  {
    forall m :: m in k.S && old(m.role.Inner?) && m != old(k.t.left) && m != old(k.t.right) ==> unchanged(m)
  }

  /** Node j of a joined spine. */
  datatype Joint = Joint(d: Side, k: Cut, j: nat)

  twostate lemma JoinedOff(u: Joint)
    requires old(Scaffold(u.k)) && Assembled(u.k, old(u.k.t.left), old(u.k.t.right)) && OthersKept(u.k)
    requires u.j < |u.k.At(u.d).nodes|
    ensures u.j < |u.k.At(u.d).offs| && u.j < |u.k.At(u.d).pieces|
    ensures ChildOf(u.k.At(u.d).offs[u.j], u.k.At(u.d).nodes[u.j], u.k.S)
    ensures TreeOf(u.k.At(u.d).offs[u.j]) == u.k.At(u.d).pieces[u.j].off
    ensures u.k.At(u.d).nodes[u.j].key == u.k.At(u.d).pieces[u.j].key
  {
    hide Placed, Joined, Linked;
    var c := u.k.At(u.d);
    assert old(ChildOf(c.offs[u.j], c.nodes[u.j], u.k.S));
    assert c.offs[u.j] != null ==> unchanged(c.offs[u.j]);
  }

  twostate lemma JoinedNext(u: Joint)
    requires old(Scaffold(u.k)) && Assembled(u.k, old(u.k.t.left), old(u.k.t.right)) && OthersKept(u.k)
    requires u.j < |u.k.At(u.d).nodes| && u.k.At(u.d).side == u.d
    ensures var x := old(Sub(u.k.t, u.d)); var c := u.k.At(u.d);
      && ChildOf(Follower(c, u.j, x), c.nodes[u.j], u.k.S)
      && |c.pieces| == |c.nodes| && TreeOf(Follower(c, u.j, x)) == SpineTree(u.d, c.pieces[u.j + 1..], old(TreeOf(x)))
  {
    hide Placed, Linked;
    var c, x := u.k.At(u.d), old(Sub(u.k.t, u.d));
    if u.j + 1 < |c.nodes| {
      assert JoinedAt(c, u.k.t, x, old(TreeOf(x)), u.j + 1);
    }
  }

  twostate lemma JoinedLinkedAt(u: Joint)
    requires old(Scaffold(u.k)) && Assembled(u.k, old(u.k.t.left), old(u.k.t.right)) && OthersKept(u.k)
    requires u.j < |u.k.At(u.d).nodes| && u.k.At(u.d).side == u.d
    ensures u.k.At(u.d).nodes[u.j].role == Inner && Linked(u.k.At(u.d).nodes[u.j], u.k.S)
  {
    hide Scaffold, OthersKept;
    JoinedOff(u);
    JoinedNext(u);
    var c, t, x := u.k.At(u.d), u.k.t, old(Sub(u.k.t, u.d));
    var end, n, off, next := old(TreeOf(x)), c.nodes[u.j], c.offs[u.j], Follower(c, u.j, x);
    assert JoinedAt(c, t, x, end, u.j);
    assert c.pieces[u.j..][1..] == c.pieces[u.j + 1..];
    assert off != null ==> off != next by {
      OffIsNotNext(u);
    }
  }

  twostate lemma OffIsNotNext(u: Joint)
    requires old(Scaffold(u.k)) && u.j < |u.k.At(u.d).nodes| && u.k.At(u.d).side == u.d
    ensures u.j < |u.k.At(u.d).offs|
    ensures var off := u.k.At(u.d).offs[u.j];
      off != null ==> off != Follower(u.k.At(u.d), u.j, old(Sub(u.k.t, u.d)))
  {
    var c := u.k.At(u.d);
    assert old(ChildOf(c.offs[u.j], c.nodes[u.j], u.k.S));
  }

  twostate lemma JoinedLinked(u: Turn)
    requires u.k.At(u.d).side == u.d
    requires old(Scaffold(u.k)) && Assembled(u.k, old(u.k.t.left), old(u.k.t.right)) && OthersKept(u.k)
    ensures forall j :: 0 <= j < |u.k.At(u.d).nodes| ==>
      u.k.At(u.d).nodes[j].role == Inner && Linked(u.k.At(u.d).nodes[j], u.k.S)
  {
    hide Scaffold, Assembled, OthersKept, Linked;
    forall j | 0 <= j < |u.k.At(u.d).nodes|
      ensures u.k.At(u.d).nodes[j].role == Inner && Linked(u.k.At(u.d).nodes[j], u.k.S)
    {
      JoinedLinkedAt(Joint(u.d, u.k, j));
    }
  }

  twostate lemma RootLinked(k: Cut)
    requires old(Scaffold(k)) && Assembled(k, old(k.t.left), old(k.t.right))
    ensures Linked(k.t, k.S)
  {
    var t, x, z := k.t, old(k.t.left), old(k.t.right);
    assert k.left.pieces[0..] == k.left.pieces && k.right.pieces[0..] == k.right.pieces;
    if k.left.nodes != [] {
      assert JoinedAt(k.left, t, x, old(TreeOf(x)), 0);
    }
    if k.right.nodes != [] {
      assert JoinedAt(k.right, t, z, old(TreeOf(z)), 0);
    }
  }

  twostate lemma InnerLinked(k: Cut)
    requires old(Scaffold(k)) && Assembled(k, old(k.t.left), old(k.t.right)) && OthersKept(k)
    ensures forall m :: m in k.S && old(m.role) == Inner ==> m.role == Inner && Linked(m, k.S)
  {
    forall m | m in k.S && old(m.role) == Inner ensures m.role == Inner && Linked(m, k.S) {
      assert old(Placed(m, k));
      assert old(Linked(m, k.S));
      assert m != old(k.t.left) && m != old(k.t.right) ==> unchanged(m);
    }
  }

  twostate lemma AssembledWellFormed(k: Cut)
    requires old(Scaffold(k)) && Assembled(k, old(k.t.left), old(k.t.right)) && OthersKept(k)
    ensures WellFormed(k.S)
  {
    hide Linked, Kids;
    RootLinked(k);
    JoinedLinked(Turn(L, k));
    JoinedLinked(Turn(R, k));
    InnerLinked(k);
    forall m | m in k.S ensures m.role == Inner && Linked(m, k.S) {
      assert old(Placed(m, k));
    }
  }

  /** The end of a splay: sizes are corrected and the pieces are put together under t. */
  method Reassemble(t: Node, l: Node, r: Node, header: Node, lAcc: int, rAcc: int, ghost k: Cut,
                    ghost x: Node?, ghost z: Node?)
    requires Scaffold(k) && t == k.t && header == k.header && l == k.Last(L) && r == k.Last(R)
    requires lAcc == Size(LeftSpine(k.left.pieces, Leaf)) && rAcc == Size(RightSpine(k.right.pieces, Leaf))
    requires x == t.left && z == t.right
    modifies header, t, Members(k.left), Members(k.right)
    modifies (if x == null then {} else {x})`parent, (if z == null then {} else {z})`parent
    ensures Assembled(k, x, z)
  {
    hide Scaffold, InRole, Chained, Sized, Joined, LeftSpine, RightSpine, Members;
    ghost var left, right := TreeOf(x), TreeOf(z);
    ScaffoldDistinct(k);
    Resize(t, l, r, header, lAcc, rAcc, k, left, right);
    Join(t, l, r, header, k.left, k.right, x, z, left, right);
  }

  twostate lemma ReassembledOthers(k: Cut)
    requires old(Scaffold(k))
    requires forall m ::
      m in k.S && m !in Members(k.left) && m !in Members(k.right) && m !in {k.t, old(k.t.left), old(k.t.right)} ==>
      unchanged(m)
    ensures OthersKept(k) && StrangersKept(k.S)
  {
  }

  // ---- the splay -----------------------------------------------------------------------------

  /** The whole tree as the thing to be searched: the state in which a splay starts. */
  ghost function Uncut(S: set<Node>, header: Node, t: Node): Cut {
    Cut(S, header, t, Spine(L, S, [], [], []), Spine(R, S, [], [], []))
  }

  twostate lemma StartScaffold(k: Cut)
    requires k == Uncut(k.S, k.header, k.t) && k.header !in k.S && k.header.role == Current
    requires old(WellFormed(k.S)) && k.t in k.S && old(k.t.parent) == null
    requires forall m :: m in k.S && m != k.t ==> unchanged(m)
    requires KeptShape(k.t) && k.t.role == Current
    ensures Scaffold(k) && Rest(k.t) == old(k.t.tree)
    ensures forall m :: m in k.S ==> old(m.role) == Inner
  {
    assert old(Linked(k.t, k.S));
    forall m | m in k.S && m != k.t ensures Linked(m, k.S) {
      assert old(Linked(m, k.S));
      assert m.left != k.t && m.right != k.t;
    }
  }

  /** The roots in S other than t0 are left alone. */
  twostate predicate OtherRootsKept(t0: Node, S: set<Node>)
    reads S
  {
    forall m :: m in S && m != t0 && old(m.parent == null || m.parent !in S) ==> unchanged(m)
  }

  /** The relation between the tree at the start, and the state in the middle of a splay for i. */
  ghost predicate Progress(i: int, tree: Tree, k: Cut)
    requires tree.Bin?
    reads k.t, k.t.left, k.t.right
  {
    && Whole(k.left.pieces, Rest(k.t), k.right.pieces) == Inorder(tree)
    && LastOnPath(Rest(k.t), i) == LastOnPath(tree, i)
  }

  /** The search goes left: one rotation if it goes left twice, then a link; or it ends at t. */
  method SearchLeft(i: int, t0: Node, r0: Node, rSize0: int, ghost k0: Cut, ghost tree: Tree)
    returns (found: bool, t: Node, r: Node, rSize: int, ghost k: Cut)
    requires Scaffold(k0) && t0 == k0.t && r0 == k0.Last(R) && i < t0.key
    requires rSize0 == Size(RightSpine(k0.right.pieces, Leaf)) && tree.Bin? && Progress(i, tree, k0)
    modifies k0.S, k0.header
    ensures k == k0.(t := t, right := k.right) && Scaffold(k) && r == k.Last(R) && StrangersKept(k0.S)
    ensures rSize == Size(RightSpine(k.right.pieces, Leaf)) && Progress(i, tree, k)
    ensures if found then t.key == LastOnPath(tree, i) else Size(Rest(t)) < old(Size(Rest(t0)))
  {
    hide Scaffold, LeftSpine, RightSpine, Inorder, Whole;
    found, t, r, rSize, k := true, t0, r0, rSize0, k0;
    ScaffoldTop(k);
    if t.left == null {
      return;
    }
    assert Linked(Sub(t, L), k.S);
    ghost var x := Rest(t);
    assert x.left.Bin? && x.left.key == t.left.key && LastOnPath(x, i) == LastOnPath(x.left, i);
    if i < t.left.key {
      t := RotateRight(t, k);
      k := k.(t := t);
      RotateOrder(x.left.left, x.left.key, x.left.right, x.key, x.right);
      WholeCong(k.left.pieces, x, Rest(t), k.right.pieces);
      if t.left == null {
        return;
      }
      ScaffoldTop(k);
    }
    x := Rest(t);
    LinkRightOrder(k.left.pieces, x, k.right.pieces);
    var below := LinkRight(r, t, k);
    k := k.(t := below, right := Pushed(k.right, t));
    r, t, found := t, below, false;
    rSize := rSize + 1 + NodeValue(r.right);
  }

  /** The search goes right: one rotation if it goes right twice, then a link; or it ends at t. */
  method SearchRight(i: int, t0: Node, l0: Node, lSize0: int, ghost k0: Cut, ghost tree: Tree)
    returns (found: bool, t: Node, l: Node, lSize: int, ghost k: Cut)
    requires Scaffold(k0) && t0 == k0.t && l0 == k0.Last(L) && i > t0.key
    requires lSize0 == Size(LeftSpine(k0.left.pieces, Leaf)) && tree.Bin? && Progress(i, tree, k0)
    modifies k0.S, k0.header
    ensures k == k0.(t := t, left := k.left) && Scaffold(k) && l == k.Last(L) && StrangersKept(k0.S)
    ensures lSize == Size(LeftSpine(k.left.pieces, Leaf)) && Progress(i, tree, k)
    ensures if found then t.key == LastOnPath(tree, i) else Size(Rest(t)) < old(Size(Rest(t0)))
  {
    hide Scaffold, LeftSpine, RightSpine, Inorder, Whole;
    found, t, l, lSize, k := true, t0, l0, lSize0, k0;
    ScaffoldTop(k);
    if t.right == null {
      return;
    }
    assert Linked(Sub(t, R), k.S);
    ghost var x := Rest(t);
    assert x.right.Bin? && x.right.key == t.right.key && LastOnPath(x, i) == LastOnPath(x.right, i);
    if i > t.right.key {
      t := RotateLeft(t, k);
      k := k.(t := t);
      RotateOrder(x.left, x.key, x.right.left, x.right.key, x.right.right);
      WholeCong(k.left.pieces, x, Rest(t), k.right.pieces);
      if t.right == null {
        return;
      }
      ScaffoldTop(k);
    }
    x := Rest(t);
    LinkLeftOrder(k.left.pieces, x, k.right.pieces);
    var below := LinkLeft(l, t, k);
    k := k.(t := below, left := Pushed(k.left, t));
    l, t, found := t, below, false;
    lSize := lSize + 1 + NodeValue(l.left);
  }

  /** The pieces become one tree again, with t at its root. */
  method Close(t: Node, l: Node, r: Node, header: Node, lSize: int, rSize: int, ghost k: Cut)
    requires Scaffold(k) && t == k.t && header == k.header && l == k.Last(L) && r == k.Last(R)
    requires lSize == Size(LeftSpine(k.left.pieces, Leaf)) && rSize == Size(RightSpine(k.right.pieces, Leaf))
    modifies k.S, header
    ensures WellFormed(k.S) && IsRoot(t, k.S) && StrangersKept(k.S)
    ensures Inorder(t.tree) == old(Whole(k.left.pieces, Rest(t), k.right.pieces))
  {
    hide Scaffold, WellFormed, LeftSpine, RightSpine, Inorder, Whole, Linked;
    AssembleOrder(k.left.pieces, Rest(t), k.right.pieces);
    ScaffoldInside(k);
    Reassemble(t, l, r, header, lSize, rSize, k, t.left, t.right);
    ReassembledOthers(k);
    AssembledWellFormed(k);
  }

  method Splay(i: int, t0: Node?, ghost S: set<Node>) returns (t: Node?)
    requires WellFormed(S) && IsRoot(t0, S)
    modifies S
    ensures (t == null <==> t0 == null) && WellFormed(S) && IsRoot(t, S)
    ensures t0 != null ==> Inorder(t.tree) == old(Inorder(t0.tree)) && t.key == old(LastOnPath(t0.tree, i))
    ensures t0 != null ==> OtherRootsKept(t0, S)
  {
    hide Scaffold, WellFormed, LeftSpine, RightSpine, Inorder, Whole, LastOnPath, Linked;
    if t0 == null {
      return null;
    }
    t := t0;
    RootTree(t, S);
    var header := new Node(0);
    header.role := Current;
    var l, r := header, header;
    var lSize, rSize := 0, 0;
    ghost var k, tree := Uncut(S, header, t), t.tree;
    label Ready:
    t.role := Current;
    StartScaffold@Ready(k);
    StartProgress(i, tree, k);
    var found := false;
    while !found
      invariant t != null && k == Cut(S, header, t, k.left, k.right) && header !in S && fresh(header)
      invariant Scaffold(k) && l == k.Last(L) && r == k.Last(R)
      invariant lSize == Size(LeftSpine(k.left.pieces, Leaf)) && rSize == Size(RightSpine(k.right.pieces, Leaf))
      invariant Progress(i, tree, k) && (found ==> t.key == LastOnPath(tree, i))
      invariant OtherRootsKept(t0, S)
      decreases !found, Size(Rest(t))
    {
      if i < t.key {
        found, t, r, rSize, k := SearchLeft(i, t, r, rSize, k, tree);
      } else if i > t.key {
        found, t, l, lSize, k := SearchRight(i, t, l, lSize, k, tree);
      } else {
        FoundProgress(i, tree, k);
        found := true;
      }
    }
    Close(t, l, r, header, lSize, rSize, k);
  }

  lemma ScaffoldInside(k: Cut)
    requires Scaffold(k)
    ensures k.t in k.S && k.header !in k.S && Members(k.left) <= k.S && Members(k.right) <= k.S
    ensures k.t.left != null ==> k.t.left in k.S && k.t.left.parent == k.t
    ensures k.t.right != null ==> k.t.right in k.S && k.t.right.parent == k.t
  {
  }

  lemma RootTree(t: Node, S: set<Node>)
    requires WellFormed(S) && t in S
    ensures t.tree.Bin? && t.tree.key == t.key
  {
    assert Linked(t, S);
  }

  lemma StartProgress(i: int, tree: Tree, k: Cut)
    requires k == Uncut(k.S, k.header, k.t) && tree == Rest(k.t)
    ensures Progress(i, tree, k)
    ensures Size(LeftSpine(k.left.pieces, Leaf)) == 0 && Size(RightSpine(k.right.pieces, Leaf)) == 0
  {
  }

  lemma FoundProgress(i: int, tree: Tree, k: Cut)
    requires tree.Bin? && Progress(i, tree, k) && i == k.t.key
    ensures k.t.key == LastOnPath(tree, i)
  {
  }

  // ---- insertion and deletion ------------------------------------------------------------------

  /** A search tree in S whose keys are K. */
  ghost predicate IsTree(t: Node?, S: set<Node>, K: set<int>)
    reads S, t, set m | m in S :: m.left, set m | m in S :: m.right
  {
    WellFormed(S) && IsRoot(t, S) && Increasing(Inorder(TreeOf(t))) && KeySet(TreeOf(t)) == K
  }

  /** A new root n above t, which gives n its subtree on side d. */
  datatype Graft = Graft(d: Side, n: Node, t: Node, S: set<Node>)

  ghost predicate Recomputed(m: Node)
    reads m, m.left, m.right
  {
    && m.role == Inner
    && m.tree == Bin(TreeOf(m.left), m.key, TreeOf(m.right))
    && m.value == 1 + NodeValue(m.left) + NodeValue(m.right)
  }

  twostate predicate Grafted(g: Graft)
    reads g.S, g.n, g.t, g.n.left, g.n.right, g.t.left, g.t.right
  {
    var d, n, t, S := g.d, g.n, g.t, g.S;
    var c := Sub(n, d);
    && t in S && n !in S
    && c == old(Sub(t, d)) && Sub(n, Other(d)) == t
    && Sub(t, d) == null && Sub(t, Other(d)) == old(Sub(t, Other(d)))
    && Recomputed(t) && Recomputed(n) && t.parent == n && n.parent == null
    && (c != null ==> c in S && c != t && KeptShape(c) && c.parent == n && c.role == Inner)
    && (forall m :: m in S && m != t && m != c ==> unchanged(m))
  }

  twostate lemma GraftLinked(g: Graft)
    requires old(WellFormed(g.S) && g.t in g.S && g.t.parent == null) && Grafted(g)
    ensures Linked(g.t, g.S + {g.n}) && Linked(g.n, g.S + {g.n})
  {
    var d, n, t, S := g.d, g.n, g.t, g.S;
    var c, w := Sub(n, d), Sub(t, Other(d));
    assert old(Linked(t, S));
    if c != null {
      assert old(Linked(c, S));
    }
    if w != null {
      assert old(Linked(w, S));
    }
  }

  twostate lemma GraftWellFormed(g: Graft)
    requires old(WellFormed(g.S) && g.t in g.S && g.t.parent == null) && Grafted(g)
    ensures WellFormed(g.S + {g.n})
  {
    GraftLinked(g);
    var c := Sub(g.n, g.d);
    assert old(Linked(g.t, g.S));
    forall m | m in g.S && m != g.t ensures m.role == Inner && Linked(m, g.S + {g.n}) {
      assert old(Linked(m, g.S));
      assert m.left != g.t && m.right != g.t;
      assert m != c ==> unchanged(m);
    }
  }

  /** n becomes the root: t, which keeps its right subtree, goes to its right. */
  method GraftOnLeft(n: Node, t: Node, ghost S: set<Node>)
    requires Linked(t, S) && t in S && t.role == Inner && n !in S && n.role == Inner && n.parent == null
    modifies n, t, t.left
    ensures Grafted(Graft(L, n, t, S))
    ensures n.tree == Bin(old(TreeOf(t.left)), n.key, Bin(Leaf, t.key, old(TreeOf(t.right))))
  {
    n.left := t.left;
    n.right := t;
    t.left := null;
    t.value := 1 + NodeValue(t.right);
    n.value := 1 + NodeValue(n.left) + NodeValue(n.right);
    t.tree, t.parent := Bin(Leaf, t.key, TreeOf(t.right)), n;
    n.tree := Bin(TreeOf(n.left), n.key, t.tree);
    if n.left != null {
      n.left.parent := n;
    }
  }

  method GraftOnRight(n: Node, t: Node, ghost S: set<Node>)
    requires Linked(t, S) && t in S && t.role == Inner && n !in S && n.role == Inner && n.parent == null
    modifies n, t, t.right
    ensures Grafted(Graft(R, n, t, S))
    ensures n.tree == Bin(Bin(old(TreeOf(t.left)), t.key, Leaf), n.key, old(TreeOf(t.right)))
  {
    n.right := t.right;
    n.left := t;
    t.right := null;
    t.value := 1 + NodeValue(t.left);
    n.value := 1 + NodeValue(n.left) + NodeValue(n.right);
    t.tree, t.parent := Bin(TreeOf(t.left), t.key, Leaf), n;
    n.tree := Bin(t.tree, n.key, TreeOf(n.right));
    if n.right != null {
      n.right.parent := n;
    }
  }

  /** A root of a search tree, seen from outside. */
  lemma RootFacts(t: Node, S: set<Node>)
    requires WellFormed(S) && t in S
    ensures Linked(t, S) && t.role == Inner && t.value == Size(t.tree)
    ensures t.tree == Bin(TreeOf(t.left), t.key, TreeOf(t.right))
    ensures NodeValue(t.left) == Size(TreeOf(t.left)) && NodeValue(t.right) == Size(TreeOf(t.right))
    ensures t.left != null ==> t.left in S && t.left != t
    ensures t.right != null ==> t.right in S && t.right != t
    ensures (t.left == null <==> TreeOf(t.left) == Leaf) && (t.right == null <==> TreeOf(t.right) == Leaf)
  {
    assert Linked(t, S);
    assert t.left != null ==> Linked(t.left, S);
    assert t.right != null ==> Linked(t.right, S);
  }

  lemma SingleTree(n: Node)
    requires n.left == null && n.right == null && n.value == 1 && n.role == Inner && n.parent == null
    requires n.tree == Bin(Leaf, n.key, Leaf)
    ensures IsTree(n, {n}, {n.key})
  {
    assert Linked(n, {n});
    assert Inorder(n.tree) == [n.key];
  }

  method Insert(i: int, t0: Node?, ghost S: set<Node>, ghost K: set<int>) returns (t: Node, ghost U: set<Node>)
    requires IsTree(t0, S, K)
    modifies S
    ensures IsTree(t, U, K + {i}) && fresh(U - S)
    ensures t.key == i
  {
    hide WellFormed, Linked, Inorder, LastOnPath, Grafted;
    var n := new Node(i);
    if t0 == null {
      EmptyTree(S, K);
      SingleTree(n);
      return n, {n};
    }
    RootFacts(t0, S);
    LastOnPathNeighbour(t0.tree, i);
    var s := Splay(i, t0, S);
    RootFacts(s, S);
    if i < s.key {
      InsertBelow(s.tree, i);
      label Left:
      GraftOnLeft(n, s, S);
      GraftWellFormed@Left(Graft(L, n, s, S));
      return n, S + {n};
    } else if i > s.key {
      InsertAbove(s.tree, i);
      label Right:
      GraftOnRight(n, s, S);
      GraftWellFormed@Right(Graft(R, n, s, S));
      return n, S + {n};
    } else {
      return s, S;
    }
  }

  lemma EmptyTree(S: set<Node>, K: set<int>)
    requires IsTree(null, S, K)
    ensures K == {}
  {
  }

  // The root t of S is taken out, and x has taken over t's right subtree z.
  datatype Removal = Removal(t: Node, x: Node?, z: Node?, S: set<Node>)

  twostate lemma DetachedWellFormed(g: Removal)
    requires old(WellFormed(g.S) && g.t in g.S && g.t.parent == null)
    requires g.x == old(g.t.left) && g.z == old(g.t.right)
    requires forall m :: m in g.S && m != g.x && m != g.z ==> unchanged(m)
    requires g.x != null ==> KeptShape(g.x) && g.x.role == Inner && g.x.parent == null
    requires g.z != null ==> KeptShape(g.z) && g.z.role == Inner && g.z.parent == null
    ensures WellFormed(g.S - {g.t}) && IsRoot(g.x, g.S - {g.t}) && IsRoot(g.z, g.S - {g.t})
    ensures g.x != null ==> g.x != g.z
  {
    assert old(Linked(g.t, g.S));
    forall m | m in g.S && m != g.t ensures m.role == Inner && Linked(m, g.S - {g.t}) {
      assert old(Linked(m, g.S));
      assert m.left != g.t && m.right != g.t;
    }
  }

  twostate predicate Merged(g: Removal)
    reads g.S, g.x, g.z
  {
    && g.x != null && g.x in g.S && (g.z != null ==> g.z in g.S) && old(g.x.right) == null
    && g.x.right == g.z && g.x.left == old(g.x.left) && g.x.parent == null && g.x.role == Inner
    && g.x.tree == Bin(old(TreeOf(g.x.left)), g.x.key, TreeOf(g.z)) && g.x.value == Size(g.x.tree)
    && (g.z != null ==> KeptShape(g.z) && g.z.role == Inner && g.z.parent == g.x)
    && (forall m :: m in g.S && m != g.x && m != g.z ==> unchanged(m))
  }

  twostate lemma MergedRoot(g: Removal)
    requires old(WellFormed(g.S) && IsRoot(g.x, g.S) && IsRoot(g.z, g.S) && g.x != g.z) && Merged(g)
    ensures Linked(g.x, g.S)
  {
    assert old(Linked(g.x, g.S));
  }

  twostate lemma MergedWellFormed(g: Removal)
    requires old(WellFormed(g.S) && IsRoot(g.x, g.S) && IsRoot(g.z, g.S) && g.x != g.z) && Merged(g)
    ensures WellFormed(g.S)
  {
    MergedRoot(g);
    forall m | m in g.S && m != g.x ensures m.role == Inner && Linked(m, g.S) {
      assert old(Linked(m, g.S));
      assert m.left != g.x && m.right != g.x && (g.z != null ==> m.left != g.z && m.right != g.z);
    }
  }

  /** t's subtrees become separate trees. */
  ghost method Detach(t: Node, S: set<Node>)
    requires WellFormed(S) && IsRoot(t, S)
    modifies (if t.left == null then {} else {t.left})`parent, (if t.right == null then {} else {t.right})`parent
    ensures WellFormed(S - {t}) && IsRoot(t.left, S - {t}) && IsRoot(t.right, S - {t})
    ensures t.left != null ==> t.left != t.right
  {
    RootFacts(t, S);
    if t.left != null {
      t.left.parent := null;
    }
    if t.right != null {
      t.right.parent := null;
    }
    DetachedWellFormed(Removal(t, t.left, t.right, S));
  }

  /** x, whose right subtree is empty, takes tree z over. */
  method Merge(x: Node, z: Node?, value: int, ghost S: set<Node>)
    requires WellFormed(S) && IsRoot(x, S) && IsRoot(z, S) && x != z && x.right == null
    requires value == Size(x.tree) + Size(TreeOf(z))
    modifies x, if z == null then {} else {z}
    ensures WellFormed(S) && IsRoot(x, S) && x.tree == Bin(old(x.tree.left), x.key, old(TreeOf(z)))
  {
    RootFacts(x, S);
    x.right := z;
    x.value := value;
    x.tree := Bin(TreeOf(x.left), x.key, TreeOf(z));
    if z != null {
      z.parent := x;
    }
    MergedWellFormed(Removal(x, x, z, S));
  }

  method Delete(i: int, t0: Node?, ghost S: set<Node>, ghost K: set<int>) returns (t: Node?, ghost U: set<Node>)
    requires IsTree(t0, S, K)
    modifies S
    ensures IsTree(t, U, K - {i}) && U <= S
  {
    hide WellFormed, Linked, Inorder, LastOnPath;
    if t0 == null {
      EmptyTree(S, K);
      return null, S;
    }
    var rootValue := t0.value;
    RootFacts(t0, S);
    SizeIsLength(t0.tree);
    LastOnPathNeighbour(t0.tree, i);
    var s := Splay(i, t0, S);
    SizeIsLength(s.tree);
    if i != s.key {
      return s, S;
    }
    RootFacts(s, S);
    ghost var tree := s.tree;
    Detach(s, S);
    if s.left == null {
      DeleteLeftmost(tree);
      t := s.right;
      if t != null {
        RootFacts(t, S - {s});
        t.value := rootValue - 1;
      }
    } else {
      ghost var z := s.right;
      t := Splay(i, s.left, S - {s});
      RootFacts(t, S - {s});
      PredecessorAtRoot(tree, t.tree);
      DeleteRoot(tree, t.tree);
      if z != null {
        RootFacts(z, S - {s});
        RootKeysApart(tree, t.tree);
      }
      Merge(t, s.right, rootValue - 1, S - {s});
    }
    return t, S - {s};
  }

  /** What a root of a search tree knows: its right subtree holds the larger keys. */
  lemma RootRank(t: Node, S: set<Node>, K: set<int>)
    requires IsTree(t, S, K)
    ensures NodeValue(t.right) == |set k | k in K && k > t.key|
  {
    hide WellFormed, Inorder;
    RootFacts(t, S);
    RightCount(t.tree);
  }
}
