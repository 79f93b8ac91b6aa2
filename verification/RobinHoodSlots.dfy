/** Robin Hood hashing on sequences: how info bytes, keys and home positions fit together. */
module RobinHoodSlots {
  import opened Lists

  type Key = nat
  type Value = int
  type Hash = (nat, Key) -> nat   // by multiplier and key

  datatype Node = Node(key: Key, value: Value)

  /** Number of buckets, the step and the shift of the info bytes, and the hash multiplier. */
  datatype Geo = Geo(n: nat, inc: nat, shift: nat, mult: nat)

  /** x shifted right by s bits. */
  function Shr(x: nat, s: nat): nat {
    if s == 0 then x else Shr(x, s - 1) / 2
  }

  ghost predicate GeoOk(g: Geo) {
    g.n >= 1 && g.shift <= 4 && g.inc == Shr(32, g.shift)
  }

  function Home(f: Hash, g: Geo, k: Key): nat
    requires g.n >= 1
  {
    (f(g.mult, k) / 32) % g.n
  }

  /** The hash bits kept in the info byte. */
  function Frac(f: Hash, g: Geo, k: Key): nat {
    Shr(f(g.mult, k) % 32, g.shift)
  }

  /** The info byte of key k in slot i. */
  ghost function Info(f: Hash, g: Geo, k: Key, i: int): int
    requires g.n >= 1
  {
    g.inc * (1 + i - Home(f, g, k)) + Frac(f, g, k)
  }

  lemma IncCases(g: Geo)
    requires GeoOk(g)
    ensures g.inc == (if g.shift == 0 then 32 else if g.shift == 1 then 16 else if g.shift == 2 then 8
                      else if g.shift == 3 then 4 else 2)
  {
    ShrCases(32);
  }

  lemma ShrCases(x: nat)
    ensures Shr(x, 0) == x && Shr(x, 1) == x / 2 && Shr(x, 2) == x / 4 && Shr(x, 3) == x / 8 && Shr(x, 4) == x / 16
  {
    assert Shr(x, 1) == Shr(x, 0) / 2 && Shr(x, 2) == Shr(x, 1) / 2;
    assert Shr(x, 3) == Shr(x, 2) / 2 && Shr(x, 4) == Shr(x, 3) / 2;
  }

  lemma FracSmall(f: Hash, g: Geo, k: Key)
    requires GeoOk(g)
    ensures Frac(f, g, k) < g.inc
  {
    IncCases(g);
    ShrCases(f(g.mult, k) % 32);
  }

  /** All that the proofs need to know about info bytes. */
  lemma InfoFacts(f: Hash, g: Geo, k: Key, i: int)
    requires GeoOk(g)
    ensures g.inc >= 2 && g.inc <= 32 && Home(f, g, k) < g.n
    ensures Info(f, g, k, i + 1) == Info(f, g, k, i) + g.inc
    ensures Info(f, g, k, Home(f, g, k)) == g.inc + Frac(f, g, k) < 2 * g.inc
    ensures i >= Home(f, g, k) ==> Info(f, g, k, i) >= g.inc && Info(f, g, k, i) >= 2 * (1 + i - Home(f, g, k))
    ensures i > Home(f, g, k) ==> Info(f, g, k, i) >= 2 * g.inc
    ensures i < Home(f, g, k) ==> Info(f, g, k, i) < g.inc
  {
    IncCases(g);
    FracSmall(f, g, k);
    var d := i - Home(f, g, k);
    assert g.inc * (1 + (i + 1) - Home(f, g, k)) == g.inc * (1 + d) + g.inc;
    if d >= 0 {
      Times(2, g.inc, 1 + d);
      Times(g.inc, g.inc, 1);
      assert g.inc * (1 + d) == g.inc * d + g.inc;
      if d > 0 {
        TimesRight(g.inc, 1, d);
      }
    } else {
      TimesRight(g.inc, 1 + d, 0);
    }
  }

  lemma Times(a: nat, b: nat, c: nat)
    requires a <= b
    ensures a * c <= b * c
  {
  }

  lemma TimesRight(a: nat, b: int, c: int)
    requires b <= c
    ensures a * b <= a * c
  {
  }

  /** The neighbour of a slot with info a may have info b. */
  predicate Next(inc: nat, a: int, b: int) {
    if a == 0 then b < 2 * inc else b <= a + inc
  }

  ghost predicate Sorted(g: Geo, info: seq<int>, w: nat)
    requires w <= |info|
  {
    forall i, j :: 0 <= i < w && j == i + 1 && j < w ==> Next(g.inc, info[i], info[j])
  }

  ghost predicate SlotOk(f: Hash, g: Geo, x: int, nd: Node, i: nat)
    requires g.n >= 1
  {
    && 0 <= x <= 255
    && (x != 0 ==> Home(f, g, nd.key) <= i && x == Info(f, g, nd.key, i))
  }

  /** The w slots are right, every key is there once, and a sentinel follows. */
  ghost predicate Slots(f: Hash, g: Geo, info: seq<int>, nodes: seq<Node>, w: nat) {
    && GeoOk(g) && g.n <= w && |info| == w + 8 && |nodes| == w
    && (forall i :: 0 <= i < w ==> SlotOk(f, g, info[i], nodes[i], i))
    && Sorted(g, info, w)
    && (forall i, j :: 0 <= i < j < w && info[i] != 0 && info[j] != 0 ==> nodes[i].key != nodes[j].key)
    && info[w] == 1 && (forall j :: w < j < w + 8 ==> info[j] == 0)
  }

  // ---- looking keys up -----------------------------------------------------------------------------

  /** A slot that is too rich for k is rich all the way back to k's home. */
  lemma {:induction false} Chain(f: Hash, g: Geo, info: seq<int>, nodes: seq<Node>, w: nat, k: Key, i: nat, j: nat)
    requires Slots(f, g, info, nodes, w)
    requires Home(f, g, k) <= i <= j < w && info[j] >= Info(f, g, k, j)
    ensures info[i] >= Info(f, g, k, i) && info[i] != 0
    decreases j - i
  {
    hide Info, Home, Frac, Shr;
    InfoFacts(f, g, k, j);
    if i < j {
      InfoFacts(f, g, k, j - 1);
      assert Next(g.inc, info[j - 1], info[j]);
      Chain(f, g, info, nodes, w, k, i, j - 1);
    }
  }

  /** If slot i is poorer than k would be there, k is neither there nor behind. */
  lemma NotBehind(f: Hash, g: Geo, info: seq<int>, nodes: seq<Node>, w: nat, k: Key, i: nat)
    requires Slots(f, g, info, nodes, w) && Home(f, g, k) <= i <= w && info[i] < Info(f, g, k, i)
    ensures forall j :: i <= j < w && info[j] != 0 ==> nodes[j].key != k
  {
    hide Info, Home, Frac, Shr;
    forall j | i <= j < w && info[j] != 0 ensures nodes[j].key != k {
      assert SlotOk(f, g, info[j], nodes[j], j);
      if nodes[j].key == k {
        Chain(f, g, info, nodes, w, k, i, j);
      }
    }
  }

  /** The slot of a key starts at its home, and its info byte is the one the search computes. */
  lemma WhereKey(f: Hash, g: Geo, info: seq<int>, nodes: seq<Node>, w: nat, i: nat)
    requires Slots(f, g, info, nodes, w) && i < w && info[i] != 0
    ensures Home(f, g, nodes[i].key) <= i && info[i] == Info(f, g, nodes[i].key, i)
  {
    assert SlotOk(f, g, info[i], nodes[i], i);
  }

  // ---- how full the table can get ----------------------------------------------------------------------

  ghost function Occupied(info: seq<int>, w: nat): set<int>
    requires w <= |info|
  {
    set i | 0 <= i < w && info[i] != 0
  }

  /** A run of occupied slots up to the end. */
  lemma {:induction false} RunCount(info: seq<int>, w: nat, home: nat)
    requires home <= w <= |info| && forall i :: home <= i < w ==> info[i] != 0
    ensures |Occupied(info, w)| >= w - home
  {
    if home < w {
      RunCount(info, w - 1, home);
      assert Occupied(info, w) == Occupied(info, w - 1) + {w - 1};
    }
  }

  /** With at most `allowed` entries the last slot of the buffer stays empty. */
  lemma LastEmpty(f: Hash, g: Geo, info: seq<int>, nodes: seq<Node>, w: nat, allowed: nat)
    requires Slots(f, g, info, nodes, w) && w >= 1
    requires w == g.n + (if allowed < 255 then allowed else 255)
    requires |Occupied(info, w)| <= allowed
    ensures info[w - 1] == 0
  {
    hide Info, Home, Frac, Shr, Occupied;
    if info[w - 1] != 0 {
      var k := nodes[w - 1].key;
      WhereKey(f, g, info, nodes, w, w - 1);
      InfoFacts(f, g, k, w - 1);
      assert SlotOk(f, g, info[w - 1], nodes[w - 1], w - 1);
      var home := Home(f, g, k);
      forall i | home <= i < w ensures info[i] != 0 {
        Chain(f, g, info, nodes, w, k, i, w - 1);
      }
      RunCount(info, w, home);
      assert false;
    }
  }

  /** With two steps of one byte left, an info byte is full only after a run of 127 entries. */
  lemma FewHaveRoom(f: Hash, g: Geo, info: seq<int>, nodes: seq<Node>, w: nat)
    requires Slots(f, g, info, nodes, w) && g.inc <= 2 && |Occupied(info, w)| <= 126
    ensures forall j :: 0 <= j < w ==> info[j] + g.inc <= 255
  {
    hide Info, Home, Frac, Shr, Occupied;
    forall j | 0 <= j < w ensures info[j] + g.inc <= 255 {
      if info[j] + g.inc > 255 {
        CrowdBefore(f, g, info, nodes, w, j);
        assert false;
      }
    }
  }

  lemma CrowdBefore(f: Hash, g: Geo, info: seq<int>, nodes: seq<Node>, w: nat, j: nat)
    requires Slots(f, g, info, nodes, w) && g.inc <= 2 && j < w && info[j] >= 254
    ensures |Occupied(info, w)| >= 127
  {
    hide Info, Home, Frac, Shr, Occupied;
    var k := nodes[j].key;
    WhereKey(f, g, info, nodes, w, j);
    SmallStep(f, g, k, j);
    var home := Home(f, g, k);
    forall i | home <= i < j + 1 ensures info[i] != 0 {
      Chain(f, g, info, nodes, w, k, i, j);
    }
    RunCount(info, j + 1, home);
    OccupiedGrows(info, j + 1, w);
  }

  lemma SmallStep(f: Hash, g: Geo, k: Key, i: nat)
    requires GeoOk(g) && g.inc <= 2 && Home(f, g, k) <= i
    ensures Info(f, g, k, i) <= 2 * (1 + i - Home(f, g, k)) + 1
  {
    IncCases(g);
    FracSmall(f, g, k);
  }

  lemma OccupiedGrows(info: seq<int>, a: nat, b: nat)
    requires a <= b <= |info|
    ensures |Occupied(info, a)| <= |Occupied(info, b)|
  {
    SubsetSize(Occupied(info, a), Occupied(info, b));
  }

  /** The keys whose homes are buckets from to until, out of n. */
  ghost function Living(f: Hash, mult: nat, n: nat, keys: set<Key>, from: int, until: int): set<Key>
    requires n >= 1
  {
    set k | k in keys && from <= f(mult, k) / 32 % n <= until
  }

  /** Some window of neighbouring buckets is home to 126 keys more than it has buckets. */
  ghost predicate Crowded(f: Hash, mult: nat, n: nat, keys: set<Key>)
    requires n >= 1
  {
    exists from, until :: 0 <= from <= until < n && |Living(f, mult, n, keys, from, until)| >= until - from + 127
  }

  lemma CrowdedMore(f: Hash, mult: nat, n: nat, keys: set<Key>, more: set<Key>)
    requires n >= 1 && Crowded(f, mult, n, keys) && keys <= more
    ensures Crowded(f, mult, n, more)
  {
    var from, until :|
      0 <= from <= until < n && |Living(f, mult, n, keys, from, until)| >= until - from + 127;
    SubsetSize(Living(f, mult, n, keys, from, until), Living(f, mult, n, more, from, until));
  }

  /** Keys with homes of their own are not crowded, and neither are 126 keys or fewer. */
  lemma SpreadIsNotCrowded(f: Hash, mult: nat, n: nat, keys: set<Key>)
    requires n >= 1
    requires
      || |keys| <= 126
      || forall k, l :: k in keys && l in keys && k != l ==> f(mult, k) / 32 % n != f(mult, l) / 32 % n
    ensures !Crowded(f, mult, n, keys)
  {
    forall from, until | 0 <= from <= until < n
      ensures |Living(f, mult, n, keys, from, until)| < until - from + 127
    {
      var some := Living(f, mult, n, keys, from, until);
      SubsetSize(some, keys);
      if |keys| > 126 {
        OneEach(f, mult, n, some, from, until - from + 1);
      }
    }
  }

  lemma {:induction false} OneEach(f: Hash, mult: nat, n: nat, keys: set<Key>, from: int, size: nat)
    requires n >= 1 && forall k :: k in keys ==> from <= f(mult, k) / 32 % n < from + size
    requires forall k, l :: k in keys && l in keys && k != l ==> f(mult, k) / 32 % n != f(mult, l) / 32 % n
    ensures |keys| <= size
    decreases size
  {
    if keys != {} {
      var last := from + size - 1;
      if k :| k in keys && f(mult, k) / 32 % n == last {
        OneEach(f, mult, n, keys - {k}, from, size - 1);
      } else {
        var k :| k in keys;
        OneEach(f, mult, n, keys, from, size - 1);
      }
    }
  }

  /** The first of the occupied slots before slot j that leave no gap. */
  ghost function RunStart(info: seq<int>, j: nat): (a: nat)
    requires j < |info| && info[j] != 0
    ensures a <= j && (forall i :: a <= i <= j ==> info[i] != 0) && (a > 0 ==> info[a - 1] == 0)
  {
    if j == 0 || info[j - 1] == 0 then j else RunStart(info, j - 1)
  }

  /** With two steps of one byte left, a full info byte tells of a crowd of homes. */
  lemma FullIsCrowded(f: Hash, g: Geo, info: seq<int>, nodes: seq<Node>, w: nat, m: map<Key, Value>, j: nat)
    requires Slots(f, g, info, nodes, w) && Holds(info, nodes, w, m) && g.inc <= 2 && j < w && info[j] >= 254
    ensures Crowded(f, g.mult, g.n, m.Keys)
  {
    hide Info, Frac, Shr, Holds, Crowded, Home, Slots;
    SlotsTell(f, g, info, nodes, w, j);
    var k, a := nodes[j].key, RunStart(info, j);
    WhereKey(f, g, info, nodes, w, j);
    SmallStep(f, g, k, j);
    InfoFacts(f, g, k, j);
    RunHolds(f, g, info, nodes, w, a, Home(f, g, k), j);
    HeldKeys(info, nodes, w, m, a, j);
    RunLives(f, g, info, nodes, w, m.Keys, a, Home(f, g, k), j);
    MakesCrowd(f, g.mult, g.n, m.Keys, a, Home(f, g, k));
  }

  lemma SlotsTell(f: Hash, g: Geo, info: seq<int>, nodes: seq<Node>, w: nat, j: nat)
    requires Slots(f, g, info, nodes, w) && j < w
    ensures GeoOk(g) && w <= |info| && |nodes| == w && info[j] <= 255
    ensures forall i, j :: 0 <= i < j < w && info[i] != 0 && info[j] != 0 ==> nodes[i].key != nodes[j].key
  {
    assert SlotOk(f, g, info[j], nodes[j], j);
  }

  /** The entries of a run live where their homes are. */
  lemma RunLives(f: Hash, g: Geo, info: seq<int>, nodes: seq<Node>, w: nat, keys: set<Key>, a: nat, h: nat, j: nat)
    requires g.n >= 1 && a <= j < w <= |info| && w <= |nodes| && forall i :: a <= i <= j ==> info[i] != 0
    requires forall i, j :: 0 <= i < j < w && info[i] != 0 && info[j] != 0 ==> nodes[i].key != nodes[j].key
    requires forall i :: a <= i <= j ==> nodes[i].key in keys && a <= Home(f, g, nodes[i].key) <= h
    ensures |Living(f, g.mult, g.n, keys, a, h)| >= j + 1 - a
  {
    DistinctKeys(info, nodes, w, a, j + 1);
    var crowd := set i | a <= i < j + 1 :: nodes[i].key;
    SubsetSize(crowd, Living(f, g.mult, g.n, keys, a, h));
  }

  lemma MakesCrowd(f: Hash, mult: nat, n: nat, keys: set<Key>, from: int, until: int)
    requires n >= 1 && 0 <= from <= until < n && |Living(f, mult, n, keys, from, until)| >= until - from + 127
    ensures Crowded(f, mult, n, keys)
  {
  }

  lemma HeldKeys(info: seq<int>, nodes: seq<Node>, w: nat, m: map<Key, Value>, a: nat, j: nat)
    requires w <= |info| && w <= |nodes| && Holds(info, nodes, w, m)
    requires j < w && forall i :: a <= i <= j ==> info[i] != 0
    ensures forall i :: a <= i <= j ==> nodes[i].key in m
  {
  }

  /** The entries from the start of the run to slot j have their homes between that start and the home of the last. */
  lemma RunHolds(f: Hash, g: Geo, info: seq<int>, nodes: seq<Node>, w: nat, a: nat, h: nat, j: nat)
    requires Slots(f, g, info, nodes, w) && j < w && info[j] != 0 && a == RunStart(info, j)
    requires h == Home(f, g, nodes[j].key)
    ensures a <= h <= j && forall i :: a <= i <= j ==> a <= Home(f, g, nodes[i].key) <= h
  {
    hide Info, Home, Frac, Shr;
    forall i | a <= i <= j ensures a <= Home(f, g, nodes[i].key) {
      NotBefore(f, g, info, nodes, w, a, i);
    }
    WhereKey(f, g, info, nodes, w, j);
    forall i | a <= i <= j ensures Home(f, g, nodes[i].key) <= h {
      WhereKey(f, g, info, nodes, w, i);
      if i >= h {
        Chain(f, g, info, nodes, w, nodes[j].key, i, j);
        NoCloser(f, g, nodes[i].key, nodes[j].key, i);
      }
    }
  }

  lemma NotBefore(f: Hash, g: Geo, info: seq<int>, nodes: seq<Node>, w: nat, a: nat, i: nat)
    requires Slots(f, g, info, nodes, w) && a <= i < w && info[i] != 0 && (a > 0 ==> info[a - 1] == 0)
    ensures a <= Home(f, g, nodes[i].key)
  {
    hide Info, Home, Frac, Shr;
    WhereKey(f, g, info, nodes, w, i);
    if Home(f, g, nodes[i].key) < a {
      Chain(f, g, info, nodes, w, nodes[i].key, a - 1, i);
    }
  }

  /** Of two keys the one with the larger info byte in a slot has its home no later. */
  lemma NoCloser(f: Hash, g: Geo, k: Key, l: Key, i: nat)
    requires GeoOk(g) && Info(f, g, k, i) >= Info(f, g, l, i)
    ensures Home(f, g, k) <= Home(f, g, l)
  {
    FracSmall(f, g, k);
    IncCases(g);
    var d := Home(f, g, k) - Home(f, g, l);
    assert Info(f, g, l, i) - Info(f, g, k, i) == g.inc * d + Frac(f, g, l) - Frac(f, g, k);
    if d >= 1 {
      TimesRight(g.inc, 1, d);
    }
  }

  lemma {:induction false} DistinctKeys(info: seq<int>, nodes: seq<Node>, w: nat, a: nat, b: nat)
    requires a <= b <= w <= |info| && w <= |nodes| && forall i :: a <= i < b ==> info[i] != 0
    requires forall i, j :: 0 <= i < j < w && info[i] != 0 && info[j] != 0 ==> nodes[i].key != nodes[j].key
    ensures |set i | a <= i < b :: nodes[i].key| == b - a
  {
    if a < b {
      DistinctKeys(info, nodes, w, a, b - 1);
      var less, more := set i | a <= i < b - 1 :: nodes[i].key, set i | a <= i < b :: nodes[i].key;
      assert more == less + {nodes[b - 1].key};
      assert nodes[b - 1].key !in less;
    }
  }

  /** If all keys have one home, no more than 127 of them can be stored. */
  lemma OneHomeCrowd(f: Hash, g: Geo, info: seq<int>, nodes: seq<Node>, w: nat)
    requires Slots(f, g, info, nodes, w) && forall k :: f(g.mult, k) == f(g.mult, 0)
    ensures |Occupied(info, w)| <= 127
  {
    hide Info, Frac, Shr;
    var home := Home(f, g, 0);
    forall i | i in Occupied(info, w) ensures home <= i < home + 127 {
      WhereKey(f, g, info, nodes, w, i);
      assert Home(f, g, nodes[i].key) == home;
      InfoFacts(f, g, nodes[i].key, i);
      assert SlotOk(f, g, info[i], nodes[i], i);
    }
    WithinBounds(Occupied(info, w), home, 127);
  }

  lemma {:induction false} WithinBounds(a: set<int>, from: int, n: nat)
    requires forall i :: i in a ==> from <= i < from + n
    ensures |a| <= n
  {
    if n == 0 {
      assert forall i :: i !in a;
    } else {
      WithinBounds(a - {from + n - 1}, from, n - 1);
    }
  }

  // ---- contents -----------------------------------------------------------------------------------------

  /** The occupied slots hold exactly the entries of m. */
  ghost predicate Holds(info: seq<int>, nodes: seq<Node>, w: nat, m: map<Key, Value>)
    requires w <= |info| && w <= |nodes|
  {
    && (forall i :: 0 <= i < w && info[i] != 0 ==> nodes[i].key in m && m[nodes[i].key] == nodes[i].value)
    && (forall k :: k in m ==> exists i :: LivesAt(info, nodes, w, k, i))
  }

  ghost predicate LivesAt(info: seq<int>, nodes: seq<Node>, w: nat, k: Key, i: int)
    requires w <= |info| && w <= |nodes|
  {
    0 <= i < w && info[i] != 0 && nodes[i].key == k
  }

  // ---- inserting: slots ins..e move up by one -----------------------------------------------------------

  ghost predicate MovedUp(info: seq<int>, nodes: seq<Node>, info': seq<int>, nodes': seq<Node>,
                          inc: nat, ins: nat, e: nat, x: int, nd: Node)
  {
    && |info'| == |info| && |nodes'| == |nodes| && ins <= e < |nodes| <= |info|
    && (forall j {:trigger info'[j]} :: 0 <= j < |info| ==>
          info'[j] == if j == ins then x else if ins < j <= e then info[j - 1] + inc else info[j])
    && (forall j {:trigger nodes'[j]} :: 0 <= j < |nodes| ==>
          nodes'[j] == if j == ins then nd else if ins < j <= e then nodes[j - 1] else nodes[j])
  }

  /** Slot ins is where k belongs, and e is the first empty slot from there. */
  ghost predicate Insertable(f: Hash, g: Geo, info: seq<int>, nodes: seq<Node>, w: nat, k: Key, ins: nat, e: nat) {
    && Slots(f, g, info, nodes, w) && Home(f, g, k) <= ins <= e < w
    && info[ins] < Info(f, g, k, ins) <= 255
    && (ins > 0 ==> Next(g.inc, info[ins - 1], Info(f, g, k, ins)))
    && info[e] == 0 && (forall j :: ins <= j < e ==> info[j] != 0)
    && (forall j :: ins <= j < e ==> info[j] + g.inc <= 255)
    && (forall j :: 0 <= j < w && info[j] != 0 ==> nodes[j].key != k)
  }

  lemma InsertSlotOk(f: Hash, g: Geo, info: seq<int>, nodes: seq<Node>, w: nat, nd: Node, ins: nat, e: nat,
                     info': seq<int>, nodes': seq<Node>)
    requires Insertable(f, g, info, nodes, w, nd.key, ins, e)
    requires MovedUp(info, nodes, info', nodes', g.inc, ins, e, Info(f, g, nd.key, ins), nd)
    ensures forall i :: 0 <= i < w ==> SlotOk(f, g, info'[i], nodes'[i], i)
  {
    hide Info, Home, Frac, Shr;
    forall i | 0 <= i < w ensures SlotOk(f, g, info'[i], nodes'[i], i) {
      if i == ins {
        InfoFacts(f, g, nd.key, ins);
      } else if ins < i <= e {
        InfoFacts(f, g, nodes[i - 1].key, i - 1);
        assert SlotOk(f, g, info[i - 1], nodes[i - 1], i - 1);
      } else {
        assert SlotOk(f, g, info[i], nodes[i], i);
      }
    }
  }

  lemma InsertSorted(f: Hash, g: Geo, info: seq<int>, nodes: seq<Node>, w: nat, nd: Node, ins: nat, e: nat,
                     info': seq<int>, nodes': seq<Node>)
    requires Insertable(f, g, info, nodes, w, nd.key, ins, e)
    requires MovedUp(info, nodes, info', nodes', g.inc, ins, e, Info(f, g, nd.key, ins), nd)
    ensures Sorted(g, info', w)
  {
    hide Info, Home, Frac, Shr;
    InfoFacts(f, g, nd.key, ins);
    forall i, j | 0 <= i < w && j == i + 1 && j < w ensures Next(g.inc, info'[i], info'[j]) {
      assert Next(g.inc, info[i], info[j]);
      assert SlotOk(f, g, info[i], nodes[i], i) && SlotOk(f, g, info[j], nodes[j], j);
      if ins < i {
        assert Next(g.inc, info[i - 1], info[i]);
        assert SlotOk(f, g, info[i - 1], nodes[i - 1], i - 1);
      }
    }
  }

  lemma InsertKeeps(f: Hash, g: Geo, info: seq<int>, nodes: seq<Node>, w: nat, nd: Node, ins: nat, e: nat,
                    info': seq<int>, nodes': seq<Node>)
    requires Insertable(f, g, info, nodes, w, nd.key, ins, e)
    requires MovedUp(info, nodes, info', nodes', g.inc, ins, e, Info(f, g, nd.key, ins), nd)
    ensures Slots(f, g, info', nodes', w)
  {
    hide Info, Home, Frac, Shr, SlotOk, Sorted;
    InsertSlotOk(f, g, info, nodes, w, nd, ins, e, info', nodes');
    InsertSorted(f, g, info, nodes, w, nd, ins, e, info', nodes');
    InsertUnique(f, g, info, nodes, w, nd, ins, e, info', nodes');
  }

  lemma InsertUnique(f: Hash, g: Geo, info: seq<int>, nodes: seq<Node>, w: nat, nd: Node, ins: nat, e: nat,
                     info': seq<int>, nodes': seq<Node>)
    requires Insertable(f, g, info, nodes, w, nd.key, ins, e)
    requires MovedUp(info, nodes, info', nodes', g.inc, ins, e, Info(f, g, nd.key, ins), nd)
    ensures forall i, j :: 0 <= i < j < w && info'[i] != 0 && info'[j] != 0 ==> nodes'[i].key != nodes'[j].key
  {
    hide Info, Home, Frac, Shr, SlotOk, Sorted;
    forall i | 0 <= i < w && i != ins && info'[i] != 0
      ensures var o := if ins < i <= e then i - 1 else i;
        info[o] != 0 && nodes'[i] == nodes[o] && nodes[o].key != nd.key
    {
    }
  }

  /** Where the entry of slot o is after slots ins..e have moved. */
  ghost function Up(ins: nat, e: nat, o: int): int {
    if ins <= o < e then o + 1 else o
  }

  lemma InsertEntries(f: Hash, g: Geo, info: seq<int>, nodes: seq<Node>, w: nat, nd: Node, ins: nat, e: nat,
                      info': seq<int>, nodes': seq<Node>)
    requires Insertable(f, g, info, nodes, w, nd.key, ins, e)
    requires MovedUp(info, nodes, info', nodes', g.inc, ins, e, Info(f, g, nd.key, ins), nd)
    ensures Carried(info, nodes, info', nodes', w, nd, ins, e)
  {
    hide Info, Home, Frac, Shr, Sorted;
    InfoFacts(f, g, nd.key, ins);
    forall o | 0 <= o < w && info[o] != 0 ensures info'[Up(ins, e, o)] != 0 && nodes'[Up(ins, e, o)] == nodes[o] {
      assert SlotOk(f, g, info[o], nodes[o], o);
    }
  }

  /** What InsertEntries says, as a predicate. */
  ghost predicate Carried(info: seq<int>, nodes: seq<Node>, info': seq<int>, nodes': seq<Node>,
                          w: nat, nd: Node, ins: nat, e: nat)
    requires w <= |info| && w <= |nodes| && ins <= e < w
  {
    && |info'| == |info| && |nodes'| == |nodes| && info'[ins] != 0 && nodes'[ins] == nd
    && (forall o :: 0 <= o < w && info[o] != 0 && o != e ==>
          info'[Up(ins, e, o)] != 0 && nodes'[Up(ins, e, o)] == nodes[o])
    && (forall i :: 0 <= i < w && i != ins && info'[i] != 0 ==>
          var o := if ins < i <= e then i - 1 else i; info[o] != 0 && nodes'[i] == nodes[o])
  }

  lemma CarriedKeys(info: seq<int>, nodes: seq<Node>, info': seq<int>, nodes': seq<Node>,
                    w: nat, nd: Node, ins: nat, e: nat, m: map<Key, Value>, k: Key)
    requires w <= |info| && w <= |nodes| && ins <= e < w && info[e] == 0
    requires Carried(info, nodes, info', nodes', w, nd, ins, e) && Holds(info, nodes, w, m) && (k in m || k == nd.key)
    ensures exists i :: LivesAt(info', nodes', w, k, i)
  {
    if k == nd.key {
      assert LivesAt(info', nodes', w, k, ins);
    } else {
      var o :| LivesAt(info, nodes, w, k, o);
      assert LivesAt(info', nodes', w, k, Up(ins, e, o));
    }
  }

  lemma CarriedValues(info: seq<int>, nodes: seq<Node>, info': seq<int>, nodes': seq<Node>,
                      w: nat, nd: Node, ins: nat, e: nat, m: map<Key, Value>)
    requires w <= |info| && w <= |nodes| && ins <= e < w && info[e] == 0
    requires Carried(info, nodes, info', nodes', w, nd, ins, e) && Holds(info, nodes, w, m)
    requires forall o :: 0 <= o < w && info[o] != 0 ==> nodes[o].key != nd.key
    ensures forall i :: 0 <= i < w && info'[i] != 0 ==>
      nodes'[i].key in m[nd.key := nd.value] && m[nd.key := nd.value][nodes'[i].key] == nodes'[i].value
  {
    forall i | 0 <= i < w && info'[i] != 0
      ensures nodes'[i].key in m[nd.key := nd.value] && m[nd.key := nd.value][nodes'[i].key] == nodes'[i].value
    {
      if i != ins {
        var o := if ins < i <= e then i - 1 else i;
        assert info[o] != 0 && nodes'[i] == nodes[o];
      }
    }
  }

  lemma NotHeld(info: seq<int>, nodes: seq<Node>, w: nat, m: map<Key, Value>, k: Key)
    requires w <= |info| && w <= |nodes| && Holds(info, nodes, w, m)
    requires forall o :: 0 <= o < w && info[o] != 0 ==> nodes[o].key != k
    ensures k !in m
  {
    assert forall o :: !LivesAt(info, nodes, w, k, o);
  }

  lemma InsertHolds(f: Hash, g: Geo, info: seq<int>, nodes: seq<Node>, w: nat, nd: Node, ins: nat, e: nat,
                    info': seq<int>, nodes': seq<Node>, m: map<Key, Value>)
    requires Insertable(f, g, info, nodes, w, nd.key, ins, e) && Holds(info, nodes, w, m)
    requires MovedUp(info, nodes, info', nodes', g.inc, ins, e, Info(f, g, nd.key, ins), nd)
    ensures Holds(info', nodes', w, m[nd.key := nd.value]) && nd.key !in m
  {
    hide Info, Home, Frac, Shr, SlotOk, Sorted, MovedUp, LivesAt;
    InsertEntries(f, g, info, nodes, w, nd, ins, e, info', nodes');
    NotHeld(info, nodes, w, m, nd.key);
    CarriedValues(info, nodes, info', nodes', w, nd, ins, e, m);
    forall k | k in m || k == nd.key ensures exists i :: LivesAt(info', nodes', w, k, i) {
      CarriedKeys(info, nodes, info', nodes', w, nd, ins, e, m, k);
    }
  }

  lemma InsertOccupied(f: Hash, g: Geo, info: seq<int>, nodes: seq<Node>, w: nat, nd: Node, ins: nat, e: nat,
                       info': seq<int>, nodes': seq<Node>)
    requires Insertable(f, g, info, nodes, w, nd.key, ins, e)
    requires MovedUp(info, nodes, info', nodes', g.inc, ins, e, Info(f, g, nd.key, ins), nd)
    ensures |Occupied(info', w)| == |Occupied(info, w)| + 1
  {
    hide Info, Home, Frac, Shr, Sorted;
    InfoFacts(f, g, nd.key, ins);
    forall i | 0 <= i < w ensures info'[i] != 0 <==> info[i] != 0 || i == e {
      if ins < i <= e {
        assert SlotOk(f, g, info[i - 1], nodes[i - 1], i - 1);
      }
    }
    assert Occupied(info', w) == Occupied(info, w) + {e};
  }

  // ---- erasing: slots i+1..e move down by one ---------------------------------------------------------------

  /** The entry in slot i goes; those behind it, as far as they are away from home, move down. */
  ghost predicate MovedDown(info: seq<int>, nodes: seq<Node>, info': seq<int>, nodes': seq<Node>,
                            inc: nat, i: nat, e: nat)
  {
    && |info'| == |info| && |nodes'| == |nodes| && i <= e < |nodes| && |nodes| + 1 < |info|
    && (forall j {:trigger info'[j]} :: 0 <= j < |info| ==>
          info'[j] == if i <= j < e then info[j + 1] - inc else if j == e then 0 else info[j])
    && (forall j {:trigger nodes'[j]} :: 0 <= j < |nodes| ==>
          nodes'[j] == if i <= j < e then nodes[j + 1] else nodes[j])
    && (forall j :: i < j <= e ==> info[j] >= 2 * inc) && info[e + 1] < 2 * inc
  }

  /** The loop that moves them is at slot e. */
  ghost predicate Slid(info0: seq<int>, nodes0: seq<Node>, info: seq<int>, nodes: seq<Node>, inc: nat, i: nat, e: nat)
  {
    && |info| == |info0| == |nodes0| + 8 && |nodes| == |nodes0| && i <= e < |nodes0|
    && (forall j :: 0 <= j <= |nodes0| ==> 0 <= info0[j] <= 255)
    && (forall j {:trigger info[j]} :: 0 <= j < |info0| ==>
          info[j] == if i <= j < e then info0[j + 1] - inc else info0[j])
    && (forall j {:trigger nodes[j]} :: 0 <= j < |nodes0| ==>
          nodes[j] == if i <= j < e then nodes0[j + 1] else nodes0[j])
    && (forall j :: i < j <= e ==> info0[j] >= 2 * inc)
    && info0[|nodes0|] == 1
  }

  lemma SlidNone(info0: seq<int>, nodes0: seq<Node>, inc: nat, i: nat)
    requires |info0| == |nodes0| + 8 && i < |nodes0| && info0[|nodes0|] == 1
    requires forall j :: 0 <= j < |nodes0| ==> 0 <= info0[j] <= 255
    ensures Slid(info0, nodes0, info0, nodes0, inc, i, i)
  {
  }

  lemma SlidStep(info0: seq<int>, nodes0: seq<Node>, info: seq<int>, nodes: seq<Node>, inc: nat, i: nat, e: nat)
    requires Slid(info0, nodes0, info, nodes, inc, i, e) && info[e + 1] >= 2 * inc && inc >= 1
    ensures e + 1 < |nodes0| && 0 <= info[e + 1] - inc <= 255
    ensures Slid(info0, nodes0, info[e := info[e + 1] - inc], nodes[e := nodes[e + 1]], inc, i, e + 1)
  {
  }

  lemma SlidDown(info0: seq<int>, nodes0: seq<Node>, info: seq<int>, nodes: seq<Node>, inc: nat, i: nat, e: nat)
    requires Slid(info0, nodes0, info, nodes, inc, i, e) && info[e + 1] < 2 * inc
    ensures MovedDown(info0, nodes0, info[e := 0], nodes, inc, i, e)
  {
  }

  lemma EraseSlotOk(f: Hash, g: Geo, info: seq<int>, nodes: seq<Node>, w: nat, i: nat, e: nat,
                    info': seq<int>, nodes': seq<Node>)
    requires Slots(f, g, info, nodes, w) && i < w && info[i] != 0 && MovedDown(info, nodes, info', nodes', g.inc, i, e)
    ensures forall j :: 0 <= j < w ==> SlotOk(f, g, info'[j], nodes'[j], j)
  {
    hide Info, Home, Frac, Shr, Sorted;
    forall j | 0 <= j < w ensures SlotOk(f, g, info'[j], nodes'[j], j) {
      if i <= j < e {
        assert SlotOk(f, g, info[j + 1], nodes[j + 1], j + 1);
        InfoFacts(f, g, nodes[j + 1].key, j);
        InfoFacts(f, g, nodes[j + 1].key, j + 1);
      } else {
        assert SlotOk(f, g, info[j], nodes[j], j);
      }
    }
  }

  lemma EraseSorted(f: Hash, g: Geo, info: seq<int>, nodes: seq<Node>, w: nat, i: nat, e: nat,
                    info': seq<int>, nodes': seq<Node>)
    requires Slots(f, g, info, nodes, w) && i < w && info[i] != 0 && MovedDown(info, nodes, info', nodes', g.inc, i, e)
    ensures Sorted(g, info', w)
  {
    hide Info, Home, Frac, Shr;
    IncCases(g);
    assert forall j :: 0 <= j < w ==> SlotOk(f, g, info[j], nodes[j], j);
    forall j, k | 0 <= j < w && k == j + 1 && k < w ensures Next(g.inc, info'[j], info'[k]) {
      assert Next(g.inc, info[j], info[k]);
      if k < e {
        assert Next(g.inc, info[k], info[k + 1]);
      }
    }
  }

  lemma EraseUnique(f: Hash, g: Geo, info: seq<int>, nodes: seq<Node>, w: nat, i: nat, e: nat,
                    info': seq<int>, nodes': seq<Node>)
    requires Slots(f, g, info, nodes, w) && i < w && info[i] != 0 && MovedDown(info, nodes, info', nodes', g.inc, i, e)
    ensures forall j, k :: 0 <= j < k < w && info'[j] != 0 && info'[k] != 0 ==> nodes'[j].key != nodes'[k].key
  {
    hide Info, Home, Frac, Shr, SlotOk, Sorted;
    EraseEntries(f, g, info, nodes, w, i, e, info', nodes');
  }

  /** Where the entry of slot j came from. */
  ghost function From(i: nat, e: nat, j: int): int {
    if i <= j < e then j + 1 else j
  }

  lemma EraseEntries(f: Hash, g: Geo, info: seq<int>, nodes: seq<Node>, w: nat, i: nat, e: nat,
                     info': seq<int>, nodes': seq<Node>)
    requires Slots(f, g, info, nodes, w) && i < w && info[i] != 0 && MovedDown(info, nodes, info', nodes', g.inc, i, e)
    ensures |info'| == |info| && |nodes'| == |nodes| && i <= e < w
    ensures forall j :: 0 <= j < w && info'[j] != 0 ==>
      From(i, e, j) != i && info[From(i, e, j)] != 0 && nodes'[j] == nodes[From(i, e, j)]
    ensures forall o :: 0 <= o < w && o != i && info[o] != 0 ==>
      var j := if i < o <= e then o - 1 else o; info'[j] != 0 && nodes'[j] == nodes[o]
  {
    hide Info, Home, Frac, Shr, SlotOk, Sorted;
    IncCases(g);
  }

  lemma EraseKeeps(f: Hash, g: Geo, info: seq<int>, nodes: seq<Node>, w: nat, i: nat, e: nat,
                   info': seq<int>, nodes': seq<Node>)
    requires Slots(f, g, info, nodes, w) && i < w && info[i] != 0 && MovedDown(info, nodes, info', nodes', g.inc, i, e)
    ensures Slots(f, g, info', nodes', w)
  {
    hide Info, Home, Frac, Shr, SlotOk, Sorted;
    EraseSlotOk(f, g, info, nodes, w, i, e, info', nodes');
    EraseSorted(f, g, info, nodes, w, i, e, info', nodes');
    EraseUnique(f, g, info, nodes, w, i, e, info', nodes');
  }

  lemma EraseHolds(f: Hash, g: Geo, info: seq<int>, nodes: seq<Node>, w: nat, i: nat, e: nat,
                   info': seq<int>, nodes': seq<Node>,
                   m: map<Key, Value>)
    requires Slots(f, g, info, nodes, w) && i < w && info[i] != 0 && MovedDown(info, nodes, info', nodes', g.inc, i, e)
    requires Holds(info, nodes, w, m)
    ensures Holds(info', nodes', w, m - {nodes[i].key})
  {
    hide Info, Home, Frac, Shr, SlotOk, Sorted, MovedDown;
    EraseEntries(f, g, info, nodes, w, i, e, info', nodes');
    var m' := m - {nodes[i].key};
    forall j | 0 <= j < w && info'[j] != 0 ensures nodes'[j].key in m' && m'[nodes'[j].key] == nodes'[j].value {
      assert info[From(i, e, j)] != 0;
    }
    forall k | k in m' ensures exists j :: LivesAt(info', nodes', w, k, j) {
      var o :| LivesAt(info, nodes, w, k, o);
      assert LivesAt(info', nodes', w, k, if i < o <= e then o - 1 else o);
    }
  }

  lemma EraseOccupied(f: Hash, g: Geo, info: seq<int>, nodes: seq<Node>, w: nat, i: nat, e: nat,
                      info': seq<int>, nodes': seq<Node>)
    requires Slots(f, g, info, nodes, w) && i < w && info[i] != 0 && MovedDown(info, nodes, info', nodes', g.inc, i, e)
    ensures |Occupied(info', w)| == |Occupied(info, w)| - 1
  {
    hide Info, Home, Frac, Shr, SlotOk, Sorted;
    IncCases(g);
    forall j | 0 <= j < w ensures info'[j] != 0 <==> info[j] != 0 && j != e {
    }
    assert info[e] != 0;
    assert Occupied(info', w) == Occupied(info, w) - {e};
  }

  // ---- giving up a hash bit ---------------------------------------------------------------------------------

  /** Every info byte of a slot is halved, and the sentinel put back. */
  ghost predicate Halved(info: seq<int>, info': seq<int>, w: nat) {
    && |info'| == |info| == w + 8 && (forall j :: 0 <= j < w ==> info'[j] == info[j] / 2)
    && info'[w] == 1 && forall j :: w < j < w + 8 ==> info'[j] == 0
  }

  lemma HalfInfo(f: Hash, g: Geo, k: Key, i: nat)
    requires GeoOk(g) && g.shift < 4
    ensures var g' := g.(inc := g.inc / 2, shift := g.shift + 1);
      && GeoOk(g') && g.inc == 2 * g'.inc && Info(f, g', k, i) == Info(f, g, k, i) / 2
  {
    IncCases(g);
    var g' := g.(inc := g.inc / 2, shift := g.shift + 1);
    var d := 1 + i - Home(f, g, k);
    assert g.inc * d == 2 * (g'.inc * d);
    assert Frac(f, g', k) == Frac(f, g, k) / 2;
  }

  lemma HalveKeeps(f: Hash, g: Geo, info: seq<int>, nodes: seq<Node>, w: nat, info': seq<int>)
    requires Slots(f, g, info, nodes, w) && g.inc > 2 && Halved(info, info', w)
    ensures var g' := g.(inc := g.inc / 2, shift := g.shift + 1);
      && Slots(f, g', info', nodes, w) && forall j :: 0 <= j < w ==> info'[j] + g'.inc <= 255
    ensures forall j :: 0 <= j < w ==> (info'[j] != 0 <==> info[j] != 0)
  {
    hide Info, Frac, Shr;
    IncCases(g);
    HalfInfo(f, g, 0, 0);
    var g' := g.(inc := g.inc / 2, shift := g.shift + 1);
    forall j | 0 <= j < w ensures SlotOk(f, g', info'[j], nodes[j], j) && (info'[j] != 0 <==> info[j] != 0) {
      assert SlotOk(f, g, info[j], nodes[j], j);
      HalfInfo(f, g, nodes[j].key, j);
      InfoFacts(f, g, nodes[j].key, j);
    }
    forall i, j | 0 <= i < w && j == i + 1 && j < w ensures Next(g'.inc, info'[i], info'[j]) {
      assert Next(g.inc, info[i], info[j]);
    }
  }

  // ---- going through all slots ------------------------------------------------------------------------------

  /** The first i slots hold m; slot i adds its entry, if it has one. */
  lemma HoldsStep(f: Hash, g: Geo, info: seq<int>, nodes: seq<Node>, w: nat, i: nat, m: map<Key, Value>)
    requires Slots(f, g, info, nodes, w) && i < w && Holds(info, nodes, i, m)
    ensures info[i] == 0 ==> Holds(info, nodes, i + 1, m)
    ensures info[i] != 0 ==> nodes[i].key !in m && Holds(info, nodes, i + 1, m[nodes[i].key := nodes[i].value])
  {
    hide Info, Home, Frac, Shr, SlotOk, Sorted;
    var k0, n := nodes[i].key, i + 1;
    if info[i] != 0 {
      assert forall j :: !LivesAt(info, nodes, i, k0, j);
      assert LivesAt(info, nodes, n, k0, i);
    }
    forall k | k in m ensures exists j :: LivesAt(info, nodes, n, k, j) {
      var j :| LivesAt(info, nodes, i, k, j);
      assert LivesAt(info, nodes, n, k, j);
    }
  }

  lemma HoldsUnique(info: seq<int>, nodes: seq<Node>, w: nat, m: map<Key, Value>, m': map<Key, Value>)
    requires w <= |info| && w <= |nodes| && Holds(info, nodes, w, m) && Holds(info, nodes, w, m')
    ensures m == m'
  {
    forall k | k in m ensures k in m' && m[k] == m'[k] {
      var j :| LivesAt(info, nodes, w, k, j);
    }
    forall k | k in m' ensures k in m {
      var j :| LivesAt(info, nodes, w, k, j);
    }
  }

  lemma OccupiedStep(info: seq<int>, w: nat, i: nat)
    requires i < w <= |info|
    ensures |Occupied(info, i + 1)| == |Occupied(info, i)| + if info[i] != 0 then 1 else 0
    ensures info[i] != 0 ==> |Occupied(info, i)| < |Occupied(info, w)|
  {
    var a, b := Occupied(info, i), Occupied(info, w);
    if info[i] != 0 {
      assert Occupied(info, i + 1) == a + {i};
      assert b == a + {i} + (b - a - {i});
    } else {
      assert Occupied(info, i + 1) == a;
    }
  }

  lemma NothingHeld(info: seq<int>, nodes: seq<Node>, w: nat)
    requires w <= |info| && w <= |nodes| && forall i :: 0 <= i < w ==> info[i] == 0
    ensures Holds(info, nodes, w, map[]) && Occupied(info, w) == {}
  {
  }

  lemma SameOccupied(info: seq<int>, info': seq<int>, nodes: seq<Node>, w: nat, m: map<Key, Value>)
    requires w <= |info| && w <= |info'| && w <= |nodes|
    requires forall j :: 0 <= j < w ==> (info'[j] != 0 <==> info[j] != 0)
    requires Holds(info, nodes, w, m)
    ensures Holds(info', nodes, w, m) && Occupied(info', w) == Occupied(info, w)
  {
    forall k | k in m ensures exists j :: LivesAt(info', nodes, w, k, j) {
      var j :| LivesAt(info, nodes, w, k, j);
      assert LivesAt(info', nodes, w, k, j);
    }
  }

  /** As many slots are occupied as there are entries. */
  lemma {:induction false} CountEntries(f: Hash, g: Geo, info: seq<int>, nodes: seq<Node>, w: nat, i: nat,
                                        m: map<Key, Value>)
    requires Slots(f, g, info, nodes, w) && i <= w && Holds(info, nodes, i, m)
    ensures |Occupied(info, i)| == |m|
  {
    hide Info, Home, Frac, Shr, SlotOk, Sorted, Holds, Occupied;
    NothingHeld(info, nodes, 0);
    if i == 0 {
      HoldsUnique(info, nodes, 0, m, map[]);
    } else {
      var k := nodes[i - 1].key;
      OccupiedStep(info, i, i - 1);
      if info[i - 1] == 0 {
        HoldsBefore(info, nodes, i, m);
        CountEntries(f, g, info, nodes, w, i - 1, m);
      } else {
        HoldsLess(info, nodes, i, m);
        CountEntries(f, g, info, nodes, w, i - 1, m - {k});
        assert m == (m - {k})[k := m[k]];
      }
    }
  }

  lemma HoldsBefore(info: seq<int>, nodes: seq<Node>, i: nat, m: map<Key, Value>)
    requires 0 < i <= |info| && i <= |nodes| && Holds(info, nodes, i, m) && info[i - 1] == 0
    ensures Holds(info, nodes, i - 1, m)
  {
    var n := i - 1;
    forall k | k in m ensures exists j :: LivesAt(info, nodes, n, k, j) {
      var j :| LivesAt(info, nodes, i, k, j);
      assert LivesAt(info, nodes, n, k, j);
    }
  }

  lemma HoldsLess(info: seq<int>, nodes: seq<Node>, i: nat, m: map<Key, Value>)
    requires 0 < i <= |info| && i <= |nodes| && Holds(info, nodes, i, m) && info[i - 1] != 0
    requires forall a, b :: 0 <= a < b < i && info[a] != 0 && info[b] != 0 ==> nodes[a].key != nodes[b].key
    ensures nodes[i - 1].key in m && Holds(info, nodes, i - 1, m - {nodes[i - 1].key})
  {
    var n, k0 := i - 1, nodes[i - 1].key;
    forall k | k in m && k != k0 ensures exists j :: LivesAt(info, nodes, n, k, j) {
      var j :| LivesAt(info, nodes, i, k, j);
      assert LivesAt(info, nodes, n, k, j);
    }
  }
}
