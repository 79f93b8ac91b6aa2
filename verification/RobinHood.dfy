/** The Robin Hood hash table: keys are probed in the order of their distance from home, which info
    bytes record together with a few hash bits. */
module RobinHood {
  import opened RobinHoodSlots

  const INITIAL_NUM_ELEMENTS := 8
  const INITIAL_INFO_INC := 32

  /** calcMaxNumElementsAllowed, for a maximal load given in percent. */
  function Allowed(n: nat, maxLoad: nat): nat {
    n * maxLoad / 100
  }

  /** calcNumElementsWithBuffer: behind the buckets there is room for entries pushed out of the last ones. */
  function WithBuffer(n: nat, maxLoad: nat): nat {
    n + if Allowed(n, maxLoad) < 255 then Allowed(n, maxLoad) else 255
  }

  lemma AllowedGrows(n: nat, m: nat, maxLoad: nat)
    requires n <= m
    ensures Allowed(n, maxLoad) <= Allowed(m, maxLoad)
  {
    Times(n, m, maxLoad);
  }

  lemma AllowedDoubles(n: nat, maxLoad: nat)
    requires n >= INITIAL_NUM_ELEMENTS && maxLoad > 10
    ensures Allowed(2 * n, maxLoad) > Allowed(n, maxLoad)
  {
    Times(8, n, maxLoad);
  }

  class Table {
    const hash: Hash
    const maxLoad: nat
    var mKeyVals: array<Node>
    var mInfo: array<int>
    var mNumElements: nat
    var mMask: nat
    var mMaxNumElementsAllowed: nat
    var mInfoInc: nat
    var mInfoHashShift: nat
    var mHashMultiplier: nat
    ghost var contents: map<Key, Value>

    ghost function G(): Geo
      reads this`mMask, this`mInfoInc, this`mInfoHashShift, this`mHashMultiplier
    {
      Geo(mMask + 1, mInfoInc, mInfoHashShift, mHashMultiplier)
    }

    ghost function W(): nat
      reads this`mMask
    {
      WithBuffer(mMask + 1, maxLoad)
    }

    /** Slots, count and contents fit together; whether there is room in the info bytes is left open. */
    ghost predicate Shape()
      reads this, mKeyVals, mInfo
    {
      && 10 < maxLoad < 100 && mMask + 1 >= INITIAL_NUM_ELEMENTS
      && mKeyVals.Length == W() && mInfo.Length == W() + 8
      && Slots(hash, G(), mInfo[..], mKeyVals[..], W())
      && Holds(mInfo[..], mKeyVals[..], W(), contents)
      && mNumElements == |Occupied(mInfo[..], W())| <= Allowed(mMask + 1, maxLoad)
      && (mMaxNumElementsAllowed == 0 || mMaxNumElementsAllowed == Allowed(mMask + 1, maxLoad))
    }

    /** Unless the table has been told to stop, every entry could move up by one slot. */
    ghost predicate Allocated()
      reads this, mKeyVals, mInfo
    {
      Shape() && (mMaxNumElementsAllowed != 0 ==> RoomInInfo())
    }

    /** Nothing is allocated yet: the info bytes are the eight bytes of the mask, all zero. */
    ghost predicate Blank()
      reads this, mInfo
    {
      && 10 < maxLoad < 100 && mMask == 0 && mKeyVals.Length == 0
      && mInfo.Length == 8 && (forall j :: 0 <= j < 8 ==> mInfo[j] == 0)
      && mNumElements == 0 && mMaxNumElementsAllowed == 0 && contents == map[]
      && mInfoInc == INITIAL_INFO_INC && mInfoHashShift == 0
    }

    ghost predicate Laid()
      reads this, mKeyVals, mInfo
    {
      Shape() || Blank()
    }

    ghost predicate Valid()
      reads this, mKeyVals, mInfo
    {
      Allocated() || Blank()
    }

    /** A table that can neither take an entry nor give up a hash bit has 127 entries or more, and many of
        them live close together. */
    ghost predicate StuckIsCrowded()
      reads this`mMaxNumElementsAllowed, this`mInfoInc, this`mNumElements, this`mMask, this`mHashMultiplier
      reads this`contents
    {
      mMaxNumElementsAllowed == 0 && mInfoInc <= 2 ==>
        mNumElements >= 127 && Crowded(hash, mHashMultiplier, mMask + 1, contents.Keys)
    }

    /** The size and the multiplier that a table with nothing else left moves to. */
    function NextSize(): nat
      reads this`mMask, this`mNumElements
    {
      if mNumElements * 2 < Allowed(mMask + 1, maxLoad) then mMask + 1 else 2 * (mMask + 1)
    }

    function NextMultiplier(): nat
      reads this`mMask, this`mNumElements, this`mHashMultiplier
    {
      if mNumElements * 2 < Allowed(mMask + 1, maxLoad) then
        (mHashMultiplier + 0xc4ceb9fe1a85ec54) % 0x1_0000_0000_0000_0000
      else mHashMultiplier
    }

    ghost predicate NextIsCrowded()
      reads this`mMask, this`mNumElements, this`mHashMultiplier, this`contents
    {
      Crowded(hash, NextMultiplier(), NextSize(), contents.Keys)
    }

    /** How many times the table may have to change before a new entry fits in. */
    ghost function Rank(): nat
      reads this`mMask, this`mNumElements, this`mMaxNumElementsAllowed, this`mInfoInc
    {
      if mMask == 0 then 3
      else if mNumElements < mMaxNumElementsAllowed then 0
      else if mNumElements < Allowed(mMask + 1, maxLoad) && mInfoInc > 2 then 1
      else 2
    }

    /** What makes sure that a key can be put in, whatever the hash function. */
    ghost predicate CanTake(key: Key)
      reads this`mMask, this`mNumElements, this`mMaxNumElementsAllowed, this`mInfoInc, this`contents
      reads this`mHashMultiplier
    {
      || key in contents || mNumElements < mMaxNumElementsAllowed
      || (mMask != 0 && mNumElements < Allowed(mMask + 1, maxLoad) && mInfoInc > 2)
      || mNumElements <= 126 || !NextIsCrowded()
    }

    ghost predicate RoomInInfo()
      reads this`mInfo, this`mInfoInc, this`mMask, mInfo
    {
      mInfo.Length >= W() && forall i :: 0 <= i < W() ==> mInfo[i] + mInfoInc <= 255
    }

    // ---- search --------------------------------------------------------------------------------------

    method KeyToIdx(key: Key) returns (idx: nat, info: int)
      requires GeoOk(G())
      ensures idx == Home(hash, G(), key) < mMask + 1 && info == Info(hash, G(), key, idx)
      ensures var h := hash(mHashMultiplier, key);
        idx == (h / 32) % (mMask + 1) && info == mInfoInc + Shr(h % 32, mInfoHashShift)
    {
      hide Shr;
      InfoFacts(hash, G(), key, Home(hash, G(), key));
      var h := hash(mHashMultiplier, key);
      info := mInfoInc + Shr(h % 32, mInfoHashShift);
      idx := (h / 32) % (mMask + 1);
    }

    /** The search has reached slot idx with this info byte; the key is not in the slots passed. */
    ghost predicate At(key: Key, idx: nat, info: int)
      reads this, mKeyVals, mInfo
    {
      && Laid() && Home(hash, G(), key) <= idx < W() + 2 && info == Info(hash, G(), key, idx)
      && (forall j :: 0 <= j < idx && j < W() && mInfo[j] != 0 ==> mKeyVals[j].key != key)
    }

    lemma BlankGeo()
      ensures Blank() ==> GeoOk(G()) && W() == 1
    {
      ShrCases(32);
    }

    lemma AtHome(key: Key, idx: nat, info: int)
      requires Laid() && idx == Home(hash, G(), key) && info == Info(hash, G(), key, idx)
      ensures At(key, idx, info)
    {
      hide Info, Home, Shr;
      BlankGeo();
      InfoFacts(hash, G(), key, idx);
      if Blank() {
        return;
      }
      forall j | 0 <= j < idx && j < W() && mInfo[j] != 0 ensures mKeyVals[j].key != key {
        WhereKey(hash, G(), mInfo[..], mKeyVals[..], W(), j);
      }
    }

    /** One step on, past a slot that does not hold the key. */
    lemma AtNext(key: Key, idx: nat, info: int)
      requires At(key, idx, info) && idx <= W() && !(idx < W() && mInfo[idx] == info && mKeyVals[idx].key == key)
      ensures At(key, idx + 1, info + mInfoInc)
    {
      hide Info, Home, Shr;
      BlankGeo();
      InfoFacts(hash, G(), key, idx);
      if idx < W() && mInfo[idx] != 0 {
        WhereKey(hash, G(), mInfo[..], mKeyVals[..], W(), idx);
      }
    }

    /** Slots from W on never look as if they held a key; a search that goes on is still before them. */
    lemma AtStop(key: Key, idx: nat, info: int)
      requires At(key, idx, info)
      ensures info >= 2 && (info <= mInfo[idx] ==> idx < W() && idx < mKeyVals.Length)
      ensures info > mInfo[idx] ==> key !in contents
    {
      hide Info, Home, Shr;
      BlankGeo();
      InfoFacts(hash, G(), key, idx);
      if Shape() && info > mInfo[idx] {
        if idx <= W() {
          NotBehind(hash, G(), mInfo[..], mKeyVals[..], W(), key, idx);
        }
        assert forall j :: 0 <= j < W() && mInfo[..][j] != 0 ==> mKeyVals[..][j].key != key;
        NotHeld(mInfo[..], mKeyVals[..], W(), contents, key);
      }
    }

    /** The slot of the key, or the length of the slots, which is no slot: zero if nothing is allocated. */
    method FindIdx(key: Key) returns (idx: nat)
      requires Laid()
      ensures if key in contents then idx < mKeyVals.Length && mKeyVals[idx] == Node(key, contents[key])
        else idx == mKeyVals.Length
    {
      hide Slots, Holds, Info, Home, Shr, Occupied, At, Shape, Blank, Laid;
      var info;
      LaidBasics();
      idx, info := KeyToIdx(key);
      AtHome(key, idx, info);
      AtLow(key, idx, info);
      while true
        invariant At(key, idx, info) && idx < W()
        decreases W() - idx
      {
        AtStop(key, idx, info);
        if info == mInfo[idx] && mKeyVals[idx].key == key {
          Found(key, idx);
          return;
        }
        AtNext(key, idx, info);
        idx, info := idx + 1, info + mInfoInc;
        AtStop(key, idx, info);
        if info == mInfo[idx] && mKeyVals[idx].key == key {
          Found(key, idx);
          return;
        }
        AtNext(key, idx, info);
        idx, info := idx + 1, info + mInfoInc;
        AtStop(key, idx, info);
        if info > mInfo[idx] {
          break;
        }
      }
      idx := mKeyVals.Length;
    }

    lemma LaidBasics()
      requires Laid()
      ensures GeoOk(G()) && mMask + 1 <= W() && mInfo.Length >= W() + 2
    {
      BlankGeo();
    }

    lemma Basics()
      requires Shape()
      ensures GeoOk(G()) && mKeyVals.Length == W() && mInfo.Length == W() + 8 && mMask + 1 <= W() && mInfo[W()] == 1
      ensures forall j :: W() < j < W() + 8 ==> mInfo[j] == 0
    {
      assert forall j :: W() < j < W() + 8 ==> mInfo[..][j] == 0;
    }

    lemma AtLow(key: Key, idx: nat, info: int)
      requires At(key, idx, info) && idx == Home(hash, G(), key)
      ensures idx < W()
    {
    }

    lemma Found(key: Key, idx: nat)
      requires Laid() && idx < W() && mInfo[idx] != 0 && idx < mKeyVals.Length && mKeyVals[idx].key == key
      ensures key in contents && mKeyVals[idx] == Node(key, contents[key]) && Shape()
    {
      assert mInfo[..][idx] != 0;
    }

    // ---- insertion -----------------------------------------------------------------------------------

    /** Moves slots insertionIdx..startIdx-1 up by one. Their info bytes grow; if one of them could not
        grow again, the table is told to stop. */
    method ShiftUp(startIdx: nat, insertionIdx: nat) returns (ghost full: int)
      requires insertionIdx < startIdx < mKeyVals.Length <= mInfo.Length && mInfoInc >= 1
      requires forall j :: insertionIdx <= j < startIdx ==> 0 <= mInfo[j] && mInfo[j] + mInfoInc <= 255
      modifies mKeyVals, mInfo, this`mMaxNumElementsAllowed
      ensures forall j {:trigger mInfo[j]} :: 0 <= j < mInfo.Length ==>
        mInfo[j] == if insertionIdx < j <= startIdx then old(mInfo[j - 1]) + mInfoInc else old(mInfo[j])
      ensures forall j {:trigger mKeyVals[j]} :: 0 <= j < mKeyVals.Length ==>
        mKeyVals[j] == if insertionIdx < j <= startIdx then old(mKeyVals[j - 1]) else old(mKeyVals[j])
      ensures mMaxNumElementsAllowed == 0 || mMaxNumElementsAllowed == old(mMaxNumElementsAllowed)
      ensures mMaxNumElementsAllowed != 0 ==> forall j :: insertionIdx < j <= startIdx ==> mInfo[j] + mInfoInc <= 255
      ensures mMaxNumElementsAllowed == 0 && old(mMaxNumElementsAllowed) != 0 ==>
        insertionIdx < full <= startIdx && mInfo[full] + mInfoInc > 255
    {
      ShiftNodes(startIdx, insertionIdx);
      full := RaiseInfos(startIdx, insertionIdx);
    }

    /** The first loop of shiftUp. */
    method ShiftNodes(startIdx: nat, insertionIdx: nat)
      requires insertionIdx < startIdx < mKeyVals.Length
      modifies mKeyVals
      ensures forall j {:trigger mKeyVals[j]} :: 0 <= j < mKeyVals.Length ==>
        mKeyVals[j] == if insertionIdx < j <= startIdx then old(mKeyVals[j - 1]) else old(mKeyVals[j])
    {
      var idx := startIdx;
      mKeyVals[idx] := mKeyVals[idx - 1];
      idx := idx - 1;
      while idx != insertionIdx
        invariant insertionIdx <= idx < startIdx
        invariant forall j {:trigger mKeyVals[j]} :: 0 <= j < mKeyVals.Length ==>
          mKeyVals[j] == if idx < j <= startIdx then old(mKeyVals[j - 1]) else old(mKeyVals[j])
      {
        mKeyVals[idx] := mKeyVals[idx - 1];
        idx := idx - 1;
      }
    }

    /** The second loop: the info bytes. The ghost result is a byte that cannot grow again, if there is one. */
    method RaiseInfos(startIdx: nat, insertionIdx: nat) returns (ghost full: int)
      requires insertionIdx < startIdx < mInfo.Length && mInfoInc >= 1
      requires forall j :: insertionIdx <= j < startIdx ==> 0 <= mInfo[j] && mInfo[j] + mInfoInc <= 255
      modifies mInfo, this`mMaxNumElementsAllowed
      ensures forall j {:trigger mInfo[j]} :: 0 <= j < mInfo.Length ==>
        mInfo[j] == if insertionIdx < j <= startIdx then old(mInfo[j - 1]) + mInfoInc else old(mInfo[j])
      ensures mMaxNumElementsAllowed == 0 || mMaxNumElementsAllowed == old(mMaxNumElementsAllowed)
      ensures mMaxNumElementsAllowed != 0 ==> forall j :: insertionIdx < j <= startIdx ==> mInfo[j] + mInfoInc <= 255
      ensures mMaxNumElementsAllowed == 0 && old(mMaxNumElementsAllowed) != 0 ==>
        insertionIdx < full <= startIdx && mInfo[full] + mInfoInc > 255
    {
      var idx := startIdx;
      full := startIdx;
      while idx != insertionIdx
        invariant insertionIdx <= idx <= startIdx
        invariant mMaxNumElementsAllowed == 0 || mMaxNumElementsAllowed == old(mMaxNumElementsAllowed)
        invariant forall j {:trigger mInfo[j]} :: 0 <= j < mInfo.Length ==>
          mInfo[j] == if idx < j <= startIdx then old(mInfo[j - 1]) + mInfoInc else old(mInfo[j])
        invariant mMaxNumElementsAllowed != 0 ==> forall j :: idx < j <= startIdx ==> mInfo[j] + mInfoInc <= 255
        invariant mMaxNumElementsAllowed == 0 && old(mMaxNumElementsAllowed) != 0 ==>
          idx < full <= startIdx && mInfo[full] + mInfoInc > 255
      {
        mInfo[idx] := (mInfo[idx - 1] + mInfoInc) % 256;
        if mInfo[idx] + mInfoInc > 0xFF {
          mMaxNumElementsAllowed := 0;
          full := idx;
        }
        idx := idx - 1;
      }
    }

    /** The first empty slot from idx on. It lies before the sentinel. */
    method FindEmpty(from: nat) returns (idx: nat)
      requires Shape() && from < W()
      ensures from <= idx < W() && mInfo[idx] == 0 && forall j :: from <= j < idx ==> mInfo[j] != 0
    {
      hide Shape;
      Basics();
      LastFree();
      idx := from;
      while 0 != mInfo[idx]
        invariant from <= idx < W() && forall j :: from <= j < idx ==> mInfo[j] != 0
        decreases W() - idx
      {
        idx := idx + 1;
      }
    }

    lemma LastFree()
      requires Laid()
      ensures mInfo[W() - 1] == 0
    {
      BlankGeo();
      if Blank() {
        return;
      }
      LastEmpty(hash, G(), mInfo[..], mKeyVals[..], W(), Allowed(mMask + 1, maxLoad));
    }

    /** A place for a new entry. */
    ghost predicate Place(key: Key, ins: nat, info: int)
      reads this, mKeyVals, mInfo
    {
      && At(key, ins, info) && ins < W() && mInfo[ins] < info && key !in contents
      && (ins > 0 ==> Next(mInfoInc, mInfo[ins - 1], info))
    }

    /** The start of a search is behind everything that belongs before the key. */
    lemma HomeNext(key: Key, idx: nat, info: int)
      requires Laid() && idx == Home(hash, G(), key) && info == Info(hash, G(), key, idx)
      ensures idx > 0 ==> Next(mInfoInc, mInfo[idx - 1], info)
    {
      hide Info, Home, Shr;
      BlankGeo();
      InfoFacts(hash, G(), key, idx);
      if idx > 0 && mInfo[idx - 1] != 0 {
        WhereKey(hash, G(), mInfo[..], mKeyVals[..], W(), idx - 1);
        InfoFacts(hash, G(), mKeyVals[idx - 1].key, idx - 1);
      }
    }

    lemma Sorted2(idx: nat)
      requires Laid() && idx + 1 < W()
      ensures Next(mInfoInc, mInfo[idx], mInfo[idx + 1])
    {
      BlankGeo();
      assert Next(G().inc, mInfo[..][idx], mInfo[..][idx + 1]);
    }

    /** Looks for the key in front of the place where it would go. */
    method SearchPlace(key: Key) returns (found: bool, idx: nat, info: int)
      requires Laid()
      ensures found ==>
        && idx < W() && idx < mKeyVals.Length && mInfo[idx] != 0
        && key in contents && mKeyVals[idx] == Node(key, contents[key])
      ensures !found ==> Place(key, idx, info) && key !in contents
    {
      hide Slots, Holds, Info, Home, Shr, Occupied, At, Shape, Blank, Laid;
      LaidBasics();
      LastFree();
      idx, info := KeyToIdx(key);
      AtHome(key, idx, info);
      AtLow(key, idx, info);
      HomeNext(key, idx, info);
      while info < mInfo[idx]
        invariant At(key, idx, info) && idx < W() && (idx > 0 ==> Next(mInfoInc, mInfo[idx - 1], info))
        decreases W() - idx
      {
        AtStop(key, idx, info);
        AtNext(key, idx, info);
        idx, info := idx + 1, info + mInfoInc;
      }
      while info == mInfo[idx]
        invariant At(key, idx, info) && idx < W() && (idx > 0 ==> Next(mInfoInc, mInfo[idx - 1], info))
        invariant info >= mInfo[idx]
        decreases W() - idx
      {
        AtStop(key, idx, info);
        if mKeyVals[idx].key == key {
          Found(key, idx);
          return true, idx, info;
        }
        AtNext(key, idx, info);
        Sorted2(idx);
        idx, info := idx + 1, info + mInfoInc;
      }
      AtStop(key, idx, info);
      found := false;
    }

    /** insert_move's search: the key is known to be new. */
    method SkipForward(key: Key) returns (idx: nat, info: int)
      requires Shape() && key !in contents
      ensures Place(key, idx, info)
    {
      hide Slots, Holds, Info, Home, Shr, Occupied, At, Shape, Blank;
      LaidBasics();
      LastFree();
      idx, info := KeyToIdx(key);
      AtHome(key, idx, info);
      AtLow(key, idx, info);
      HomeNext(key, idx, info);
      while info <= mInfo[idx]
        invariant At(key, idx, info) && idx < W() && (idx > 0 ==> Next(mInfoInc, mInfo[idx - 1], info))
        decreases W() - idx
      {
        AtStop(key, idx, info);
        NotThere(key, idx, info);
        AtNext(key, idx, info);
        idx, info := idx + 1, info + mInfoInc;
      }
    }

    lemma NotThere(key: Key, idx: nat, info: int)
      requires Shape() && key !in contents && idx < W() && mInfo[idx] != 0
      ensures mKeyVals[idx].key != key
    {
      assert mInfo[..][idx] != 0;
    }

    /** Slot ins is kept for nd: once it is stored there, the table holds it too. */
    ghost predicate ReadyFor(nd: Node, ins: nat)
      reads this, mKeyVals, mInfo
    {
      && 10 < maxLoad < 100 && mMask + 1 >= INITIAL_NUM_ELEMENTS && ins < W()
      && mKeyVals.Length == W() && mInfo.Length == W() + 8
      && Slots(hash, G(), mInfo[..], mKeyVals[..][ins := nd], W())
      && Holds(mInfo[..], mKeyVals[..][ins := nd], W(), contents[nd.key := nd.value])
      && mNumElements == |Occupied(mInfo[..], W())| <= Allowed(mMask + 1, maxLoad)
      && (mMaxNumElementsAllowed == 0 || mMaxNumElementsAllowed == Allowed(mMask + 1, maxLoad))
      && (mMaxNumElementsAllowed != 0 ==> RoomInInfo())
    }

    /** The info byte of a new entry fits into a byte. */
    lemma InfoFits(key: Key, ins: nat, info: int)
      requires Allocated() && Place(key, ins, info) && mMaxNumElementsAllowed != 0
      ensures 0 <= info <= 255 && info == Info(hash, G(), key, ins) && Home(hash, G(), key) <= ins && GeoOk(G())
      ensures mInfoInc >= 2
    {
      hide Info, Home, Shr;
      InfoFacts(hash, G(), key, ins);
      if ins > 0 {
        assert mInfo[ins - 1] + mInfoInc <= 255;
      }
    }

    lemma PlaceFits(key: Key, ins: nat, info: int, e: nat)
      requires Allocated() && Place(key, ins, info) && mMaxNumElementsAllowed != 0
      requires ins <= e < W() && mInfo[e] == 0 && forall j :: ins <= j < e ==> mInfo[j] != 0
      ensures Insertable(hash, G(), mInfo[..], mKeyVals[..], W(), key, ins, e)
      ensures forall j :: 0 <= j < W() ==> 0 <= mInfo[j] && mInfo[j] + mInfoInc <= 255
    {
      hide Info, Home, Shr;
      assert forall j :: 0 <= j < W() ==> SlotOk(hash, G(), mInfo[..][j], mKeyVals[..][j], j);
      InfoFits(key, ins, info);
      NoSuchKey(key);
    }

    lemma NoSuchKey(key: Key)
      requires Shape() && key !in contents
      ensures forall j :: 0 <= j < W() && mInfo[j] != 0 ==> mKeyVals[j].key != key
    {
      assert forall j :: 0 <= j < W() && mInfo[..][j] != 0 ==> mKeyVals[..][j].key in contents;
    }

    /** Makes room in slot ins for nd, which is stored afterwards. */
    method OpenSlot(ins: nat, info: int, ghost nd: Node) returns (wasEmpty: bool)
      requires Allocated() && Place(nd.key, ins, info)
      requires mMaxNumElementsAllowed != 0 && mNumElements < Allowed(mMask + 1, maxLoad)
      modifies mKeyVals, mInfo, this`mMaxNumElementsAllowed, this`mNumElements
      ensures ReadyFor(nd, ins) && mNumElements == old(mNumElements) + 1
      ensures mMaxNumElementsAllowed == 0 ==> !RoomInInfo()
    {
      hide Info, Home, Shr, Slots, Holds, Occupied, Insertable, Allowed, MovedUp, RoomInInfo;
      ghost var info0, nodes0 := mInfo[..], mKeyVals[..];
      InfoFits(nd.key, ins, info);
      var e := FindEmpty(ins);
      PlaceFits(nd.key, ins, info, e);
      if info + mInfoInc > 0xFF {
        mMaxNumElementsAllowed := 0;
      }
      MakeWay(e, ins, info, nd);
      mNumElements := mNumElements + 1;
      wasEmpty := e == ins;
      Opened(info0, nodes0, ins, e, nd, contents);
    }

    /** Slot ins becomes free for an entry with this info byte; e is the empty slot that is used up. */
    method MakeWay(e: nat, ins: nat, info: int, ghost nd: Node)
      requires ins <= e < W() && mKeyVals.Length == W() && mInfo.Length == W() + 8 && mInfoInc >= 1 && 0 <= info <= 255
      requires forall j :: 0 <= j < W() ==> 0 <= mInfo[j] && mInfo[j] + mInfoInc <= 255
      requires mMaxNumElementsAllowed != 0 <==> info + mInfoInc <= 255
      modifies mKeyVals, mInfo, this`mMaxNumElementsAllowed
      ensures MovedUp(old(mInfo[..]), old(mKeyVals[..]), mInfo[..], mKeyVals[..][ins := nd], mInfoInc, ins, e, info, nd)
      ensures mMaxNumElementsAllowed == 0 || mMaxNumElementsAllowed == old(mMaxNumElementsAllowed)
      ensures mMaxNumElementsAllowed != 0 <==> RoomInInfo()
    {
      ghost var full: int := ins;
      if e != ins {
        full := ShiftUp(e, ins);
      }
      if info + mInfoInc > 255 {
        full := ins;
      }
      mInfo[ins] := info % 256;
      assert mMaxNumElementsAllowed == 0 ==> ins <= full <= e && mInfo[full] + mInfoInc > 255;
    }

    lemma Opened(info0: seq<int>, nodes0: seq<Node>, ins: nat, e: nat, nd: Node, m: map<Key, Value>)
      requires mKeyVals.Length == W() && mInfo.Length == W() + 8
      requires Insertable(hash, G(), info0, nodes0, W(), nd.key, ins, e) && Holds(info0, nodes0, W(), m)
      requires MovedUp(info0, nodes0, mInfo[..], mKeyVals[..][ins := nd], mInfoInc, ins, e,
                       Info(hash, G(), nd.key, ins), nd)
      ensures Slots(hash, G(), mInfo[..], mKeyVals[..][ins := nd], W())
      ensures Holds(mInfo[..], mKeyVals[..][ins := nd], W(), m[nd.key := nd.value])
      ensures |Occupied(mInfo[..], W())| == |Occupied(info0, W())| + 1
    {
      hide Info, Home, Shr, Slots, Holds, Occupied, Insertable, MovedUp;
      SizesOf(info0, nodes0, ins, e, nd);
      InsertKeeps(hash, G(), info0, nodes0, W(), nd, ins, e, mInfo[..], mKeyVals[..][ins := nd]);
      InsertHolds(hash, G(), info0, nodes0, W(), nd, ins, e, mInfo[..], mKeyVals[..][ins := nd], m);
      InsertOccupied(hash, G(), info0, nodes0, W(), nd, ins, e, mInfo[..], mKeyVals[..][ins := nd]);
    }

    lemma SizesOf(info0: seq<int>, nodes0: seq<Node>, ins: nat, e: nat, nd: Node)
      requires Insertable(hash, G(), info0, nodes0, W(), nd.key, ins, e)
      ensures |info0| == W() + 8 && |nodes0| == W() && ins < W() && GeoOk(G())
    {
    }

    /** Stores an entry in the slot kept for it. */
    method Store(nd: Node, ins: nat)
      requires ReadyFor(nd, ins)
      modifies mKeyVals, this`contents
      ensures Allocated() && contents == old(contents)[nd.key := nd.value] && mKeyVals[ins] == nd
    {
      hide Slots, Holds, Occupied;
      ghost var s := mKeyVals[..][ins := nd];
      mKeyVals[ins] := nd;
      assert mKeyVals[..] == s;
      contents := contents[nd.key := nd.value];
    }

    // ---- giving up a hash bit ------------------------------------------------------------------------

    /** Halves all info bytes, eight at a time. Fails when only one hash bit is left. */
    method TryIncreaseInfo() returns (ok: bool)
      requires Shape()
      modifies mInfo, this`mInfoInc, this`mInfoHashShift, this`mMaxNumElementsAllowed
      ensures ok == (old(mInfoInc) > 2)
      ensures ok ==> mInfoInc == old(mInfoInc) / 2 && mInfoHashShift == old(mInfoHashShift) + 1
      ensures ok ==> Allocated() && mMaxNumElementsAllowed == Allowed(mMask + 1, maxLoad)
      ensures !ok ==>
        Shape() && mMaxNumElementsAllowed == old(mMaxNumElementsAllowed) && (old(Allocated()) ==> Allocated())
    {
      hide Info, Home, Shr, Slots, Holds, Occupied, Halved;
      if mInfoInc <= 2 {
        return false;
      }
      Basics();
      ghost var g, info0, nodes := G(), mInfo[..], mKeyVals[..];
      var w := mKeyVals.Length;
      HalveBytes(w);
      mInfo[w] := 1;
      HalvedNow(info0, w);
      HalveKeeps(hash, g, info0, nodes, w, mInfo[..]);
      SameOccupied(info0, mInfo[..], nodes, w, contents);
      mInfoInc := mInfoInc / 2;
      mInfoHashShift := mInfoHashShift + 1;
      mMaxNumElementsAllowed := Allowed(mMask + 1, maxLoad);
      ok := true;
    }

    method HalveBytes(w: nat)
      requires mInfo.Length == w + 8
      modifies mInfo
      ensures forall j :: 0 <= j < w ==> mInfo[j] == old(mInfo[j]) / 2
      ensures forall j :: w <= j < w + 8 ==> mInfo[j] == old(mInfo[j]) / 2 || mInfo[j] == old(mInfo[j])
    {
      var i := 0;
      while i < w
        invariant 0 <= i <= w + 7
        invariant forall j :: 0 <= j < mInfo.Length ==> mInfo[j] == if j < i then old(mInfo[j]) / 2 else old(mInfo[j])
      {
        for k := 0 to 8
          invariant forall j :: 0 <= j < mInfo.Length ==>
            mInfo[j] == if j < i + k then old(mInfo[j]) / 2 else old(mInfo[j])
        {
          mInfo[i + k] := mInfo[i + k] / 2;
        }
        i := i + 8;
      }
    }

    lemma HalvedNow(info0: seq<int>, w: nat)
      requires mInfo.Length == w + 8 && |info0| == w + 8 && mInfo[w] == 1
      requires forall j :: 0 <= j < w ==> mInfo[j] == info0[j] / 2
      requires forall j :: w < j < w + 8 ==> info0[j] == 0 && (mInfo[j] == info0[j] / 2 || mInfo[j] == info0[j])
      ensures Halved(info0, mInfo[..], w)
    {
    }

    // ---- growing and rehashing -------------------------------------------------------------------------

    /** Fresh, empty memory for n buckets. */
    method InitData(n: nat)
      requires n >= INITIAL_NUM_ELEMENTS && 10 < maxLoad < 100
      modifies this
      ensures Allocated() && fresh(mInfo) && fresh(mKeyVals) && contents == map[] && mNumElements == 0
      ensures mMask + 1 == n && mHashMultiplier == old(mHashMultiplier)
      ensures mMaxNumElementsAllowed == Allowed(n, maxLoad) && mInfoInc == INITIAL_INFO_INC
    {
      hide Slots, Holds, Allowed, RoomInInfo;
      mNumElements := 0;
      mMask := n - 1;
      mMaxNumElementsAllowed := Allowed(n, maxLoad);
      var w := WithBuffer(n, maxLoad);
      mKeyVals := new Node[w](_ => Node(0, 0));
      mInfo := new int[w + 8](_ => 0);
      mInfo[w] := 1;
      mInfoInc := INITIAL_INFO_INC;
      mInfoHashShift := 0;
      contents := map[];
      EmptySlots(hash, G(), mInfo[..], mKeyVals[..], w);
      NothingHeld(mInfo[..], mKeyVals[..], w);
      RoomAtFirst();
    }

    lemma RoomAtFirst()
      requires mInfo.Length >= W() && mInfoInc == 32 && forall j :: 0 <= j < W() ==> mInfo[j] == 0
      ensures RoomInInfo()
    {
    }

    lemma EmptySlots(f: Hash, g: Geo, info: seq<int>, nodes: seq<Node>, w: nat)
      requires g.n >= 1 && g.inc == 32 && g.shift == 0 && g.n <= w && |info| == w + 8 && |nodes| == w
      requires info[w] == 1 && forall j :: 0 <= j < w + 8 && j != w ==> info[j] == 0
      ensures Slots(f, g, info, nodes, w)
    {
    }

    /** Inserts an entry that is not there. Fails exactly if the table was told to stop and has one hash bit left. */
    method InsertMove(nd: Node) returns (ok: bool)
      requires Allocated() && nd.key !in contents && mNumElements < Allowed(mMask + 1, maxLoad)
      modifies mKeyVals, mInfo, this`mNumElements, this`mInfoInc, this`mInfoHashShift, this`mMaxNumElementsAllowed
      modifies this`contents
      ensures ok == !(old(mMaxNumElementsAllowed) == 0 && old(mInfoInc) <= 2)
      ensures ok ==> StuckIsCrowded()
      ensures ok ==>
        Allocated() && contents == old(contents)[nd.key := nd.value] && mNumElements == old(mNumElements) + 1
    {
      hide Info, Home, Shr, Slots, Holds, Occupied, Allowed;
      if 0 == mMaxNumElementsAllowed {
        ok := TryIncreaseInfo();
        if !ok {
          return;
        }
      }
      var idx, info := SkipForward(nd.key);
      var _ := OpenSlot(idx, info, nd);
      Store(nd, idx);
      StuckOnlyCrowded();
      ok := true;
    }

    lemma StuckOnlyCrowded()
      requires Shape() && (mMaxNumElementsAllowed == 0 ==> !RoomInInfo())
      ensures StuckIsCrowded()
    {
      hide Info, Home, Shr, Occupied, Crowded, Slots, Holds;
      if mMaxNumElementsAllowed == 0 && mInfoInc <= 2 {
        var i :| 0 <= i < W() && mInfo[i] + mInfoInc > 255;
        FullIsCrowded(hash, G(), mInfo[..], mKeyVals[..], W(), contents, i);
        CrowdBefore(hash, G(), mInfo[..], mKeyVals[..], W(), i);
      }
    }

    /** The table as it was laid out with geometry g, which may have an older multiplier. */
    ghost predicate LaidOut(g: Geo)
      reads this`mKeyVals, this`mInfo, this`mMask, this`mNumElements, this`contents, mKeyVals, mInfo
    {
      && 10 < maxLoad < 100 && mMask + 1 >= INITIAL_NUM_ELEMENTS
      && mKeyVals.Length == W() && mInfo.Length == W() + 8
      && Slots(hash, g, mInfo[..], mKeyVals[..], W())
      && Holds(mInfo[..], mKeyVals[..], W(), contents)
      && mNumElements == |Occupied(mInfo[..], W())|
    }

    /** Moves everything into n fresh buckets. False if some entry found no place; the table is lost then. */
    method RehashPowerOfTwo(n: nat, ghost g: Geo) returns (ok: bool)
      requires (LaidOut(g) || Blank()) && n >= INITIAL_NUM_ELEMENTS && mNumElements <= Allowed(n, maxLoad)
      modifies this
      ensures old(mNumElements) <= 127 ==> ok
      ensures !ok ==> Crowded(hash, old(mHashMultiplier), n, old(contents).Keys)
      ensures ok ==> Allocated() && contents == old(contents) && mNumElements == old(mNumElements) && mMask + 1 == n
      ensures mHashMultiplier == old(mHashMultiplier)
      ensures ok ==> fresh(mInfo) && fresh(mKeyVals) && StuckIsCrowded()
    {
      hide Info, Home, Shr, Slots, Holds, Occupied, Allowed, Allocated, Crowded;
      var oldKeyVals, oldInfo := mKeyVals, mInfo;
      var oldW := WithBuffer(mMask + 1, maxLoad);
      BlankGeo();
      ghost var c0, info0, nodes0, total := contents, mInfo[..], mKeyVals[..], mNumElements;
      NoneYet(info0, nodes0);
      InitData(n);
      ok := true;
      if oldW > 1 {
        for i := 0 to oldW
          invariant Allocated() && fresh(mInfo) && fresh(mKeyVals) && mMask + 1 == n && StuckIsCrowded()
          invariant mHashMultiplier == old(mHashMultiplier)
          invariant oldInfo[..] == info0 && oldKeyVals[..] == nodes0
          invariant Holds(info0, nodes0, i, contents) && mNumElements == |Occupied(info0, i)|
        {
          HoldsStep(hash, g, info0, nodes0, oldW, i, contents);
          OccupiedStep(info0, oldW, i);
          if oldInfo[i] != 0 {
            SomeHeld(info0, nodes0, i, oldW, contents, c0);
            if mMaxNumElementsAllowed == 0 && mInfoInc <= 2 {
              CrowdedMore(hash, mHashMultiplier, n, contents.Keys, c0.Keys);
            }
            ok := InsertMove(oldKeyVals[i]);
            if !ok {
              return;
            }
          }
        }
        HoldsUnique(info0, nodes0, oldW, contents, c0);
        ok := true;
      }
    }

    lemma SomeHeld(info: seq<int>, nodes: seq<Node>, i: nat, w: nat, m: map<Key, Value>, all: map<Key, Value>)
      requires i <= w <= |info| && w <= |nodes| && Holds(info, nodes, i, m) && Holds(info, nodes, w, all)
      ensures m.Keys <= all.Keys
    {
      forall k | k in m ensures k in all {
        var j :| LivesAt(info, nodes, i, k, j);
      }
    }

    lemma NoneYet(info: seq<int>, nodes: seq<Node>)
      ensures Holds(info, nodes, 0, map[]) && |Occupied(info, 0)| == 0
    {
      NothingHeld(info, nodes, 0);
    }

    /** An even number is added, so the multiplier stays odd. */
    method NextHashMultiplier()
      modifies this`mHashMultiplier
      ensures mHashMultiplier % 2 == old(mHashMultiplier) % 2
      ensures mHashMultiplier == (old(mHashMultiplier) + 0xc4ceb9fe1a85ec54) % 0x1_0000_0000_0000_0000
    {
      mHashMultiplier := (mHashMultiplier + 0xc4ceb9fe1a85ec54) % 0x1_0000_0000_0000_0000;
    }

    lemma AllocatedParts()
      requires Valid() && mMask != 0
      ensures Allocated() && Shape() && mMask + 1 >= INITIAL_NUM_ELEMENTS
      ensures mNumElements <= Allowed(mMask + 1, maxLoad) && 10 < maxLoad < 100
      ensures mMaxNumElementsAllowed == 0 || mMaxNumElementsAllowed == Allowed(mMask + 1, maxLoad)
    {
    }

    lemma NowLaidOut()
      requires Shape()
      ensures LaidOut(G())
      ensures mMask + 1 >= INITIAL_NUM_ELEMENTS && mNumElements <= Allowed(mMask + 1, maxLoad)
    {
    }

    method IncreaseSize() returns (ok: bool)
      requires Valid()
      modifies this, mInfo, mKeyVals
      ensures ok ==> Allocated() && contents == old(contents) && mNumElements == old(mNumElements)
      ensures ok ==> (fresh(mInfo) || mInfo == old(mInfo)) && (fresh(mKeyVals) || mKeyVals == old(mKeyVals))
      ensures old(Rank()) == 1 || old(mNumElements) <= 127 ==> ok
      ensures !ok ==> old(mMask) != 0 && old(NextIsCrowded())
      ensures old(Rank()) == 2 && !old(NextIsCrowded()) ==> Rank() <= 1
      ensures old(Rank()) == 1 ==> Rank() == 0
      ensures old(mMask) == 0 ==> mMask + 1 == 8 && mInfoInc == 32
      ensures old(mMask) != 0 && old(mNumElements) < Allowed(old(mMask) + 1, maxLoad) && old(mInfoInc) > 2 ==>
        mMask == old(mMask) && mInfoInc == old(mInfoInc) / 2 && mHashMultiplier == old(mHashMultiplier)
      ensures ok && old(mMask) != 0 && !(old(mNumElements) < Allowed(old(mMask) + 1, maxLoad) && old(mInfoInc) > 2) ==>
        mMask + 1 == old(NextSize()) && mHashMultiplier == old(NextMultiplier())
      ensures old(Rank()) > 0 && old(mNumElements) <= 126 ==> Rank() < old(Rank())
    {
      hide Info, Home, Shr, Slots, Holds, Occupied, Allowed, Allocated, LaidOut, Shape, Crowded;
      if 0 == mMask {
        NotYet();
        InitData(INITIAL_NUM_ELEMENTS);
        return true;
      }
      AllocatedParts();
      var maxNumElementsAllowed := Allowed(mMask + 1, maxLoad);
      if mNumElements < maxNumElementsAllowed {
        ok := TryIncreaseInfo();
        if ok {
          return;
        }
      }
      ghost var g := G();
      NowLaidOut();
      if mNumElements * 2 < Allowed(mMask + 1, maxLoad) {
        NextHashMultiplier();
        ok := RehashPowerOfTwo(mMask + 1, g);
      } else {
        AllowedGrows(mMask + 1, (mMask + 1) * 2, maxLoad);
        AllowedDoubles(mMask + 1, maxLoad);
        ok := RehashPowerOfTwo((mMask + 1) * 2, g);
      }
      if ok {
        AllocatedParts();
      }
    }

    lemma NotYet()
      requires Valid() && mMask == 0
      ensures Blank() && mNumElements == 0
    {
    }

    // ---- what callers use --------------------------------------------------------------------------------

    /** Nothing is allocated before the first insertion. */
    constructor (hash: Hash, maxLoad: nat, multiplier: nat)
      requires 10 < maxLoad < 100
      ensures Valid() && contents == map[] && fresh(mInfo) && fresh(mKeyVals)
      ensures this.hash == hash && this.maxLoad == maxLoad
    {
      this.hash, this.maxLoad, mHashMultiplier := hash, maxLoad, multiplier;
      mKeyVals := new Node[0](_ => Node(0, 0));
      mInfo := new int[8](_ => 0);
      mNumElements, mMask, mMaxNumElementsAllowed := 0, 0, 0;
      mInfoInc, mInfoHashShift := INITIAL_INFO_INC, 0;
      contents := map[];
    }

    /** Finds the key, or keeps a slot for it. */
    method InsertKeyPrepareEmptySpot(key: Key, ghost v: Value) returns (slot: nat, state: InsertionState)
      requires Valid()
      modifies this, mInfo, mKeyVals
      ensures old(CanTake(key)) ==> state != OverflowError
      ensures state == OverflowError ==> old(mMask) != 0 && old(NextIsCrowded())
      ensures state == KeyFound ==>
        Allocated() && contents == old(contents) && key in contents && IsSlotOf(key, slot)
      ensures state == NewNode || state == OverwriteNode ==>
        ReadyFor(Node(key, v), slot) && contents == old(contents) && key !in contents
      ensures state != OverflowError ==>
        (fresh(mInfo) || mInfo == old(mInfo)) && (fresh(mKeyVals) || mKeyVals == old(mKeyVals))
    {
      hide Info, Home, Shr, Slots, Holds, Occupied, Allowed, Allocated, ReadyFor, Place, Shape, Blank, Crowded;
      if CanTake(key) {
        Ranked(key);
      }
      if mMask == 0 {
        NotYet();
      }
      for i := 0 to 256
        invariant Valid() && contents == old(contents)
        invariant (fresh(mInfo) || mInfo == old(mInfo)) && (fresh(mKeyVals) || mKeyVals == old(mKeyVals))
        invariant key in contents ==> i == 0
        invariant old(CanTake(key)) ==>
          || key in contents
          || (i + Rank() <= 3 && (Rank() <= 1 || mNumElements <= 126 || (Rank() == 2 && !NextIsCrowded())))
      {
        AsLaid();
        var found, idx, info := SearchPlace(key);
        if found {
          HasSlots(idx);
          return idx, KeyFound;
        }
        if mNumElements >= mMaxNumElementsAllowed {
          var ok := IncreaseSize();
          if !ok {
            return 0, OverflowError;
          }
          continue;
        }
        BelowLimit();
        var wasEmpty := OpenSlot(idx, info, Node(key, v));
        return idx, if wasEmpty then NewNode else OverwriteNode;
      }
      return 0, OverflowError;
    }

    lemma HasSlots(idx: nat)
      requires Valid() && idx < mKeyVals.Length
      ensures Allocated() && idx < W() && idx < mInfo.Length
    {
    }

    lemma Ranked(key: Key)
      requires Valid() && CanTake(key)
      ensures key in contents || Rank() <= 1 || mNumElements <= 126 || (Rank() == 2 && !NextIsCrowded())
    {
      hide Crowded;
    }

    lemma BelowLimit()
      requires Valid() && mNumElements < mMaxNumElementsAllowed
      ensures Allocated() && Shape() && mMaxNumElementsAllowed == Allowed(mMask + 1, maxLoad)
    {
    }

    ghost predicate IsSlotOf(key: Key, slot: nat)
      reads this, mKeyVals, mInfo
    {
      && key in contents && slot < W() && slot < mInfo.Length && slot < mKeyVals.Length
      && mInfo[slot] != 0 && mKeyVals[slot] == Node(key, contents[key])
    }

    /** Sets the value of the key, whether it was there or not. False on overflow. */
    method InsertOrAssign(key: Key, value: Value) returns (ok: bool, isNew: bool)
      requires Valid()
      modifies this, mInfo, mKeyVals
      ensures old(CanTake(key)) ==> ok
      ensures !ok ==> old(mMask) != 0 && old(NextIsCrowded())
      ensures OneHome(hash) && |old(contents)| >= 127 && key !in old(contents) ==> !ok
      ensures ok ==> Valid() && contents == old(contents)[key := value] && isNew == (key !in old(contents))
      ensures ok ==> (fresh(mInfo) || mInfo == old(mInfo)) && (fresh(mKeyVals) || mKeyVals == old(mKeyVals))
    {
      hide Info, Home, Shr, Slots, Holds, Occupied, Allowed, Allocated, ReadyFor, Shape, Crowded;
      var slot, state := InsertKeyPrepareEmptySpot(key, value);
      match state {
        case KeyFound =>
          Assign(slot, value);
          ok, isNew := true, false;
        case NewNode =>
          Store(Node(key, value), slot);
          ok, isNew := true, true;
        case OverwriteNode =>
          Store(Node(key, value), slot);
          ok, isNew := true, true;
        case OverflowError =>
          ok, isNew := false, false;
      }
      if ok && OneHome(hash) {
        if key !in old(contents) {
          OneMore(old(contents), key, value);
        }
        OneHomeLimit();
      }
    }

    /** Puts the key in with the value unless it is there already. */
    method TryEmplace(key: Key, value: Value) returns (ok: bool, isNew: bool)
      requires Valid()
      modifies this, mInfo, mKeyVals
      ensures old(CanTake(key)) ==> ok
      ensures !ok ==> old(mMask) != 0 && old(NextIsCrowded())
      ensures OneHome(hash) && |old(contents)| >= 127 && key !in old(contents) ==> !ok
      ensures ok ==> Valid() && isNew == (key !in old(contents))
      ensures ok ==> contents == if key in old(contents) then old(contents) else old(contents)[key := value]
      ensures ok ==> (fresh(mInfo) || mInfo == old(mInfo)) && (fresh(mKeyVals) || mKeyVals == old(mKeyVals))
    {
      hide Info, Home, Shr, Slots, Holds, Occupied, Allowed, Allocated, ReadyFor, Shape, Crowded;
      var slot, state := InsertKeyPrepareEmptySpot(key, value);
      match state {
        case KeyFound =>
          ok, isNew := true, false;
        case NewNode =>
          Store(Node(key, value), slot);
          ok, isNew := true, true;
        case OverwriteNode =>
          Store(Node(key, value), slot);
          ok, isNew := true, true;
        case OverflowError =>
          ok, isNew := false, false;
      }
      if ok && OneHome(hash) {
        if key !in old(contents) {
          OneMore(old(contents), key, value);
        }
        OneHomeLimit();
      }
    }

    method Assign(slot: nat, value: Value)
      requires Allocated() && slot < W() && mInfo[slot] != 0
      modifies mKeyVals, this`contents
      ensures Allocated() && contents == old(contents)[old(mKeyVals[slot].key) := value]
    {
      hide Slots, Holds, Occupied, Allowed;
      ghost var key, nodes0 := mKeyVals[slot].key, mKeyVals[..];
      mKeyVals[slot] := mKeyVals[slot].(value := value);
      AssignedSlots(hash, G(), mInfo[..], nodes0, mKeyVals[..], W(), slot, value);
      AssignedHolds(hash, G(), mInfo[..], nodes0, mKeyVals[..], W(), slot, contents, value);
      contents := contents[key := value];
    }

    lemma AssignedSlots(f: Hash, g: Geo, info: seq<int>, nodes: seq<Node>, nodes': seq<Node>, w: nat, slot: nat,
                        value: Value)
      requires Slots(f, g, info, nodes, w) && slot < w
      requires nodes' == nodes[slot := nodes[slot].(value := value)]
      ensures Slots(f, g, info, nodes', w)
    {
      hide Info, Home, Frac, Shr, Sorted;
      forall i | 0 <= i < w ensures SlotOk(f, g, info[i], nodes'[i], i) && nodes'[i].key == nodes[i].key {
        assert SlotOk(f, g, info[i], nodes[i], i);
      }
    }

    lemma AssignedHolds(f: Hash, g: Geo, info: seq<int>, nodes: seq<Node>, nodes': seq<Node>, w: nat, slot: nat,
                        m: map<Key, Value>, value: Value)
      requires Slots(f, g, info, nodes, w) && Holds(info, nodes, w, m) && slot < w && info[slot] != 0
      requires nodes' == nodes[slot := nodes[slot].(value := value)]
      ensures Holds(info, nodes', w, m[nodes[slot].key := value])
    {
      hide Slots, LivesAt;
      OtherKeys(f, g, info, nodes, w, slot);
      AssignedKeys(info, nodes, nodes', w, slot, m, value);
      assert nodes[slot].key in m;
      forall i | 0 <= i < w && info[i] != 0
        ensures nodes'[i].key in m && m[nodes[slot].key := value][nodes'[i].key] == nodes'[i].value
      {
      }
    }

    lemma OtherKeys(f: Hash, g: Geo, info: seq<int>, nodes: seq<Node>, w: nat, slot: nat)
      requires Slots(f, g, info, nodes, w) && slot < w && info[slot] != 0
      ensures w <= |info| && |nodes| == w
      ensures forall i :: 0 <= i < w && info[i] != 0 && i != slot ==> nodes[i].key != nodes[slot].key
    {
    }

    lemma AssignedKeys(info: seq<int>, nodes: seq<Node>, nodes': seq<Node>, w: nat, slot: nat, m: map<Key, Value>,
                       value: Value)
      requires w <= |info| && w <= |nodes| && slot < w && Holds(info, nodes, w, m)
      requires nodes' == nodes[slot := nodes[slot].(value := value)]
      ensures forall k :: k in m ==> exists j :: LivesAt(info, nodes', w, k, j)
    {
      forall k | k in m ensures exists j :: LivesAt(info, nodes', w, k, j) {
        var j :| LivesAt(info, nodes, w, k, j);
        assert LivesAt(info, nodes', w, k, j);
      }
    }

    lemma ByteRange()
      requires Shape()
      ensures 2 <= mInfoInc <= 32 && forall j :: 0 <= j < W() ==> 0 <= mInfo[j] <= 255
      ensures RoomInInfo() ==> forall j :: 0 <= j < W() ==> mInfo[j] + mInfoInc <= 255
    {
      IncCases(G());
      assert forall j :: 0 <= j < W() ==> SlotOk(hash, G(), mInfo[..][j], mKeyVals[..][j], j);
    }

    lemma StillRoom(info0: seq<int>, nodes0: seq<Node>, at: nat, e: nat)
      requires mKeyVals.Length == W() && mInfo.Length == W() + 8
      requires |info0| == W() + 8 && |nodes0| == W() && mInfoInc >= 2
      requires MovedDown(info0, nodes0, mInfo[..], mKeyVals[..], mInfoInc, at, e)
      ensures (forall j :: 0 <= j < W() ==> 0 <= info0[j] && info0[j] + mInfoInc <= 255) && mInfoInc <= 32 ==>
        RoomInInfo()
    {
      if (forall j :: 0 <= j < W() ==> 0 <= info0[j] && info0[j] + mInfoInc <= 255) && mInfoInc <= 32 {
        forall j | 0 <= j < W() ensures mInfo[j] + mInfoInc <= 255 {
          assert mInfo[..][j] == if at <= j < e then info0[j + 1] - mInfoInc else if j == e then 0 else info0[j];
        }
      }
    }

    /** The loop of shiftDown: returns the slot that ends up empty. */
    method SlideLoop(at: nat, ghost w: nat) returns (idx: nat)
      requires mKeyVals.Length == w && mInfo.Length == w + 8 && at < w && mInfo[w] == 1
      requires 2 <= mInfoInc <= 32 && forall j :: 0 <= j < w ==> 0 <= mInfo[j] <= 255
      modifies mKeyVals, mInfo
      ensures at <= idx < w && mInfo[idx + 1] < 2 * mInfoInc
      ensures Slid(old(mInfo[..]), old(mKeyVals[..]), mInfo[..], mKeyVals[..], mInfoInc, at, idx)
    {
      hide Slid;
      ghost var info0, nodes0 := mInfo[..], mKeyVals[..];
      idx := at;
      SlidNone(info0, nodes0, mInfoInc, at);
      while mInfo[idx + 1] >= 2 * mInfoInc
        invariant at <= idx < w && Slid(info0, nodes0, mInfo[..], mKeyVals[..], mInfoInc, at, idx)
        decreases w - idx
      {
        ghost var info, nodes := mInfo[..], mKeyVals[..];
        SlidStep(info0, nodes0, info, nodes, mInfoInc, at, idx);
        mInfo[idx] := (mInfo[idx + 1] - mInfoInc) % 256;
        mKeyVals[idx] := mKeyVals[idx + 1];
        assert mInfo[..] == info[idx := info[idx + 1] - mInfoInc] && mKeyVals[..] == nodes[idx := nodes[idx + 1]];
        idx := idx + 1;
      }
    }

    method Slide(at: nat) returns (idx: nat)
      requires mKeyVals.Length == W() && mInfo.Length == W() + 8 && at < W() && mInfo[W()] == 1
      requires 2 <= mInfoInc <= 32 && forall j :: 0 <= j < W() ==> 0 <= mInfo[j] <= 255
      modifies mKeyVals, mInfo
      ensures MovedDown(old(mInfo[..]), old(mKeyVals[..]), mInfo[..], mKeyVals[..], mInfoInc, at, idx)
    {
      hide Slid, MovedDown;
      idx := SlideLoop(at, W());
      SlidDown(old(mInfo[..]), old(mKeyVals[..]), mInfo[..], mKeyVals[..], mInfoInc, at, idx);
      ghost var info := mInfo[..];
      mInfo[idx] := 0;
      assert mInfo[..] == info[idx := 0];
    }

    /** The entry in slot at goes; those behind it move down until one is at home or a slot is empty. */
    method ShiftDown(at: nat)
      requires Allocated() && at < W() && mInfo[at] != 0
      modifies mKeyVals, mInfo, this`contents, this`mNumElements
      ensures Allocated() && contents == old(contents) - {old(mKeyVals[at].key)}
      ensures mNumElements == old(mNumElements) - 1
    {
      hide Info, Home, Shr, Slots, Holds, Occupied, Allowed, RoomInInfo, MovedDown;
      Basics();
      ByteRange();
      ghost var info0, nodes0 := mInfo[..], mKeyVals[..];
      var idx := Slide(at);
      StillRoom(info0, nodes0, at, idx);
      EraseKeeps(hash, G(), info0, nodes0, W(), at, idx, mInfo[..], mKeyVals[..]);
      EraseHolds(hash, G(), info0, nodes0, W(), at, idx, mInfo[..], mKeyVals[..], contents);
      EraseOccupied(hash, G(), info0, nodes0, W(), at, idx, mInfo[..], mKeyVals[..]);
      mNumElements := mNumElements - 1;
      contents := contents - {nodes0[at].key};
    }

    /** Removes the key; 1 if it was there, else 0. */
    method Erase(key: Key) returns (n: nat)
      requires Valid()
      modifies mKeyVals, mInfo, this`contents, this`mNumElements
      ensures Valid() && contents == old(contents) - {key} && n == if key in old(contents) then 1 else 0
    {
      hide Slots, Holds, Info, Home, Shr, Occupied, At, Shape, RoomInInfo, Blank, Laid;
      LaidBasics();
      AsLaid();
      var idx, info := KeyToIdx(key);
      AtHome(key, idx, info);
      AtLow(key, idx, info);
      while true
        invariant Valid() && contents == old(contents) && mInfo == old(mInfo) && mKeyVals == old(mKeyVals)
        invariant At(key, idx, info) && idx < W() && mInfo.Length >= W() + 2
        decreases W() - idx
      {
        AtStop(key, idx, info);
        if info == mInfo[idx] && mKeyVals[idx].key == key {
          Found(key, idx);
          HasSlots(idx);
          ShiftDown(idx);
          return 1;
        }
        AtNext(key, idx, info);
        idx, info := idx + 1, info + mInfoInc;
        AtStop(key, idx, info);
        if info > mInfo[idx] {
          break;
        }
      }
      assert contents - {key} == contents;
      n := 0;
    }

    /** Looks a key up; the end of the table stands for "not there". */
    method Find(key: Key) returns (found: bool, value: Value)
      requires Valid()
      ensures found == (key in contents) && (found ==> value == contents[key])
    {
      hide Slots, Holds, Info, Home, Shr, Occupied, Shape, Blank, Laid;
      AsLaid();
      var idx := FindIdx(key);
      if idx == mKeyVals.Length {
        return false, 0;
      }
      return true, mKeyVals[idx].value;
    }

    /** The number of entries is right. */
    lemma SizeIsCount()
      requires Valid()
      ensures mNumElements == |contents|
    {
      hide Info, Home, Shr;
      if Blank() {
        return;
      }
      CountEntries(hash, G(), mInfo[..], mKeyVals[..], W(), W(), contents);
    }

    /** reserve and rehash: buckets for at least c entries, or for those that are there. */
    method Reserve(c: nat, forceRehash: bool) returns (ok: bool)
      requires Valid()
      modifies this
      ensures old(mNumElements) <= 127 ==> ok
      ensures !ok ==> exists n ::
        n >= INITIAL_NUM_ELEMENTS && IsLeast(n, if c < old(mNumElements) then old(mNumElements) else c)
        && Crowded(hash, mHashMultiplier, n, old(contents).Keys)
      ensures ok ==> Valid() && contents == old(contents) && Allowed(mMask + 1, maxLoad) >= c
    {
      hide Slots, Holds, Occupied, Allowed, Allocated, LaidOut, Shape, Blank, Crowded, IsLeast;
      ReadyToMove();
      var minElementsAllowed := if c < mNumElements then mNumElements else c;
      var newSize := LeastSize(minElementsAllowed);
      ok := true;
      if forceRehash || newSize > mMask + 1 {
        ok := RehashPowerOfTwo(newSize, G());
      } else {
        AllowedGrows(newSize, mMask + 1, maxLoad);
      }
    }

    /** compact: fewer buckets, if fewer are enough. */
    method Compact() returns (ok: bool)
      requires Valid()
      modifies this
      ensures old(mNumElements) <= 127 ==> ok
      ensures !ok ==> exists n ::
        n >= INITIAL_NUM_ELEMENTS && IsLeast(n, old(mNumElements))
        && Crowded(hash, mHashMultiplier, n, old(contents).Keys)
      ensures ok ==> Valid() && contents == old(contents) && mMask <= old(mMask)
    {
      hide Slots, Holds, Occupied, Allowed, Allocated, LaidOut, Shape, Blank, Crowded, IsLeast;
      ReadyToMove();
      var newSize := LeastSize(mNumElements);
      ok := true;
      if newSize < mMask + 1 {
        ok := RehashPowerOfTwo(newSize, G());
      }
    }

    /** The least size, doubling from the first one, that has room for m entries. */
    method LeastSize(m: nat) returns (newSize: nat)
      requires maxLoad > 10
      ensures newSize >= INITIAL_NUM_ELEMENTS && Allowed(newSize, maxLoad) >= m
      ensures newSize > INITIAL_NUM_ELEMENTS ==> newSize % 2 == 0 && Allowed(newSize / 2, maxLoad) < m
      ensures IsLeast(newSize, m)
    {
      hide Allowed;
      newSize := INITIAL_NUM_ELEMENTS;
      while Allowed(newSize, maxLoad) < m
        invariant newSize >= INITIAL_NUM_ELEMENTS
        invariant newSize > INITIAL_NUM_ELEMENTS ==> newSize % 2 == 0 && Allowed(newSize / 2, maxLoad) < m
        decreases 10 * m - newSize
      {
        LargeEnough(newSize, m);
        newSize := newSize * 2;
      }
    }

    ghost predicate IsLeast(n: nat, m: nat) {
      && Allowed(n, maxLoad) >= m
      && (n > INITIAL_NUM_ELEMENTS ==> n % 2 == 0 && Allowed(n / 2, maxLoad) < m)
    }

    lemma ReadyToMove()
      requires Valid()
      ensures maxLoad > 10 && (LaidOut(G()) || Blank())
    {
      if !Blank() {
        NowLaidOut();
      }
    }

    lemma AsLaid()
      requires Valid()
      ensures Laid()
    {
    }

    // ---- when a new key can be taken -------------------------------------------------------------------

    /** Keys with homes of their own, in the table that would come next, never keep another one out. */
    lemma SpreadCanTake(key: Key)
      requires var m, n := NextMultiplier(), NextSize();
        n >= 1 && forall k, l :: k in contents && l in contents && k != l ==> hash(m, k) / 32 % n != hash(m, l) / 32 % n
      ensures CanTake(key) && !NextIsCrowded()
    {
      SpreadIsNotCrowded(hash, NextMultiplier(), NextSize(), contents.Keys);
    }

    /** What comes next: twice the buckets, or as many and another multiplier if half of them would do. */
    lemma NextIs()
      requires Valid() && mMask != 0
      ensures mNumElements * 2 < (mMask + 1) * maxLoad / 100 ==>
        NextSize() == mMask + 1 && NextMultiplier() == (mHashMultiplier + 0xc4ceb9fe1a85ec54) % 0x1_0000_0000_0000_0000
      ensures mNumElements * 2 >= (mMask + 1) * maxLoad / 100 ==>
        NextSize() == 2 * (mMask + 1) && NextMultiplier() == mHashMultiplier
    {
    }

    // ---- hash functions without any use ------------------------------------------------------------------

    /** If all keys hash alike, the table never holds more than 127 of them. */
    lemma OneHomeLimit()
      requires Valid() && OneHome(hash)
      ensures |contents| <= 127
    {
      hide Info, Home, Shr;
      SizeIsCount();
      if !Blank() {
        OneHomeCrowd(hash, G(), mInfo[..], mKeyVals[..], W());
      }
    }

    lemma LargeEnough(n: nat, m: nat)
      requires maxLoad > 10 && Allowed(n, maxLoad) < m
      ensures n < 10 * m
    {
      TimesRight(n, 11, maxLoad);
    }
  }

  /** All keys hash alike, whatever the multiplier. */
  ghost predicate OneHome(hash: Hash) {
    forall m, k :: hash(m, k) == hash(m, 0)
  }

  lemma OneMore(m: map<Key, Value>, k: Key, v: Value)
    requires k !in m
    ensures |m[k := v]| == |m| + 1
  {
    var m' := m[k := v];
    assert m'.Keys == m.Keys + {k};
    assert |m'| == |m'.Keys| && |m| == |m.Keys|;
  }

  /** With any hash function the keys 0 to 126 go into a new table. If all keys hash alike, InsertOrAssign
      then takes no other. */
  method FillUp(hash: Hash, maxLoad: nat, multiplier: nat) returns (table: Table)
    requires 10 < maxLoad < 100
    ensures fresh(table) && table.Valid() && table.hash == hash && table.maxLoad == maxLoad
    ensures fresh(table.mInfo) && fresh(table.mKeyVals)
    ensures |table.contents| == 127 && forall k: nat :: k in table.contents <==> k < 127
  {
    hide Table.Valid, Allowed;
    table := new Table(hash, maxLoad, multiplier);
    for i := 0 to 127
      invariant table.Valid() && fresh(table) && fresh(table.mInfo) && fresh(table.mKeyVals)
      invariant table.hash == hash && table.maxLoad == maxLoad
      invariant (forall k: nat :: k in table.contents <==> k < i) && |table.contents| == i
    {
      table.SizeIsCount();
      var done, _ := table.InsertOrAssign(i, 0);
      assert done;
    }
  }

  datatype InsertionState = OverflowError | KeyFound | NewNode | OverwriteNode
}
