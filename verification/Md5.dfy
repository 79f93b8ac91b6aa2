/** The streaming side of MD5: bytes are buffered until a block of 64 is full. The block function itself
    is a parameter. */
module Md5 {
  newtype Byte = x: int | 0 <= x < 256

  const WORD: nat := 0x1_0000_0000

  datatype Abcd = Abcd(a: nat, b: nat, c: nat, d: nat)

  /** The registers before the first block, section 3.3 of RFC 1321. */
  const INITIAL := Abcd(0x67452301, 0xefcdab89, 0x98badcfe, 0x10325476)

  type Process = (Abcd, seq<Byte>) -> Abcd

  /** All full blocks of the message, in order. */
  ghost function Fold(f: Process, s: Abcd, m: seq<Byte>): Abcd
    decreases |m|
  {
    if |m| < 64 then s else Fold(f, f(s, m[..64]), m[64..])
  }

  lemma {:induction false} FoldBlock(f: Process, s: Abcd, m: seq<Byte>, b: seq<Byte>)
    requires |m| % 64 == 0 && |b| == 64
    ensures Fold(f, s, m + b) == f(Fold(f, s, m), b)
    decreases |m|
  {
    if m == [] {
      assert (m + b)[..64] == b && (m + b)[64..] == [];
    } else {
      assert (m + b)[..64] == m[..64] && (m + b)[64..] == m[64..] + b;
      FoldBlock(f, f(s, m[..64]), m[64..], b);
    }
  }

  lemma FoldNone(f: Process, s: Abcd)
    ensures Fold(f, s, []) == s
  {
  }

  /** What does not fill a block does not count yet. */
  lemma {:induction false} FoldRest(f: Process, s: Abcd, m: seq<Byte>, t: seq<Byte>)
    requires |m| % 64 == 0 && |t| < 64
    ensures Fold(f, s, m + t) == Fold(f, s, m)
    decreases |m|
  {
    if m != [] {
      assert (m + t)[..64] == m[..64] && (m + t)[64..] == m[64..] + t;
      FoldRest(f, f(s, m[..64]), m[64..], t);
    }
  }

  ghost function Zeros(n: nat): (z: seq<Byte>)
    ensures |z| == n && forall i :: 0 <= i < n ==> z[i] == 0
  {
    if n == 0 then [] else Zeros(n - 1) + [0]
  }

  /** The eight low-order bytes of n, lowest first. */
  ghost function LittleEndian(n: nat, bytes: nat): (s: seq<Byte>)
    ensures |s| == bytes
  {
    if bytes == 0 then [] else [(n % 256) as Byte] + LittleEndian(n / 256, bytes - 1)
  }

  lemma PadLength(n: nat)
    ensures (n + 1 + (55 - n) % 64 + 8) % 64 == 0
  {
    var q, k := (55 - n) / 64, (55 - n) % 64;
    assert n + 1 + k + 8 == 64 * (1 - q);
  }

  /** A two-word sum modulo 2^64. */
  lemma TwoWords(lo: nat, hi: nat)
    requires lo < WORD
    ensures (lo + WORD * hi) % (WORD * WORD) == lo + WORD * (hi % WORD)
  {
    var q, r := hi / WORD, hi % WORD;
    assert lo + WORD * hi == lo + WORD * r + WORD * WORD * q;
  }

  /** The two words hold the length of n bytes, in bits, modulo 2^64. */
  ghost predicate CountIs(c0: nat, c1: nat, n: nat) {
    c0 < WORD && c1 < WORD && c0 + WORD * c1 == (8 * n) % (WORD * WORD)
  }

  lemma CountStart()
    ensures CountIs(0, 0, 0)
  {
  }

  lemma ModPlusOne(x: nat)
    ensures (x % WORD + 1) % WORD == (x + 1) % WORD
  {
    assert x + 1 == x % WORD + 1 + WORD * (x / WORD);
  }

  /** Adding 8 * nbytes to a two-word count: a wrapped low word tells of the carry. */
  lemma CarryOver(c0: nat, c1: nat, n: nat, nbytes: nat)
    requires CountIs(c0, c1, n)
    ensures var nbits, high := (nbytes * 8) % WORD, nbytes / 0x2000_0000;
      var lo := (c0 + nbits) % WORD;
      CountIs(lo, if lo < nbits then ((c1 + high) % WORD + 1) % WORD else (c1 + high) % WORD, n + nbytes)
  {
    var nbits, high := (nbytes * 8) % WORD, nbytes / 0x2000_0000;
    var lo := (c0 + nbits) % WORD;
    HighBits(nbytes);
    MoreBits(n, nbytes);
    var hi := c1 + high + if lo < nbits then 1 else 0;
    LowWord(c0, nbits);
    assert c0 + WORD * c1 + 8 * nbytes == lo + WORD * hi;
    TwoWords(lo, hi);
    ModPlusOne(c1 + high);
  }

  lemma HighBits(nbytes: nat)
    ensures nbytes * 8 == (nbytes * 8) % WORD + WORD * (nbytes / 0x2000_0000)
  {
  }

  lemma LowWord(c0: nat, nbits: nat)
    requires c0 < WORD && nbits < WORD
    ensures var lo := (c0 + nbits) % WORD; c0 + nbits == lo + if lo < nbits then WORD else 0
  {
  }

  /** Where the buffer stands, as the low word of the count has it. */
  lemma OffsetOf(c0: nat, c1: nat, n: nat)
    requires CountIs(c0, c1, n)
    ensures (c0 / 8) % 64 == n % 64
  {
    var q := (8 * n) / (WORD * WORD);
    var k := 0x80_0000 * c1 + 0x80_0000 * WORD * q;
    assert 8 * n == c0 + 8 * (64 * k);
    assert c0 / 8 == n - 64 * k;
    SameMod(c0 / 8, n, k);
  }

  lemma SameMod(a: nat, b: nat, k: nat)
    requires a == b - 64 * k
    ensures a % 64 == b % 64
  {
    assert b / 64 == a / 64 + k;
  }

  lemma MoreBits(n: nat, m: nat)
    ensures ((8 * n) % (WORD * WORD) + 8 * m) % (WORD * WORD) == (8 * (n + m)) % (WORD * WORD)
  {
    var w := WORD * WORD;
    var q := (8 * n) / w;
    assert 8 * (n + m) == (8 * n) % w + 8 * m + w * q;
  }

  /** The padded message of sections 3.1 and 3.2 of RFC 1321: a one bit, zeros up to 56 modulo 64 bytes,
      and the length in bits as 64 bits. */
  ghost function Padded(m: seq<Byte>): (p: seq<Byte>)
    ensures |p| % 64 == 0 && |m| + 9 <= |p| < |m| + 9 + 64
    ensures p[..|m|] == m && p[|m|] == 0x80
    ensures forall i :: |m| < i < |p| - 8 ==> p[i] == 0
    ensures p[|p| - 8..] == LittleEndian(8 * |m|, 8)
  {
    var k: nat := (55 - |m|) % 64;
    PadLength(|m|);
    m + [0x80] + Zeros(k) + LittleEndian(8 * |m|, 8)
  }

  class State {
    const process: Process
    var count0: nat
    var count1: nat
    var abcd: Abcd
    const buf: array<Byte>
    ghost var message: seq<Byte>

    ghost function Rest(): nat
      reads this`message
    {
      |message| % 64
    }

    /** The registers hold the full blocks, the buffer the rest, and the count the length in bits. */
    ghost predicate Valid()
      reads this, buf
    {
      && buf.Length == 64
      && abcd == Fold(process, INITIAL, message)
      && buf[..Rest()] == message[|message| - Rest()..]
      && CountIs(count0, count1, |message|)
    }

    constructor (process: Process)
      ensures Valid() && message == [] && fresh(buf) && this.process == process
      ensures abcd == Abcd(0x67452301, 0xefcdab89, 0x98badcfe, 0x10325476)
    {
      hide CountIs, Fold;
      CountStart();
      FoldNone(process, INITIAL);
      this.process := process;
      count0, count1, abcd := 0, 0, INITIAL;
      buf := new Byte[64](_ => 0);
      message := [];
    }

    method MemCpy(offset: nat, data: seq<Byte>)
      requires offset + |data| <= buf.Length
      modifies buf
      ensures buf[..] == old(buf[..offset]) + data + old(buf[offset + |data|..])
    {
      for i := 0 to |data|
        invariant buf[..] == old(buf[..offset]) + data[..i] + old(buf[offset + i..])
      {
        buf[offset + i] := data[i];
      }
    }

    /** Adds nbytes to the length, in bits, in two words. */
    method AddLength(nbytes: nat)
      requires nbytes < 0x8000_0000 && CountIs(count0, count1, |message|)
      modifies this`count0, this`count1
      ensures CountIs(count0, count1, |message| + nbytes)
    {
      hide CountIs;
      CarryOver(count0, count1, |message|, nbytes);
      var nbits := (nbytes * 8) % WORD;
      count1 := (count1 + nbytes / 0x2000_0000) % WORD;
      count0 := (count0 + nbits) % WORD;
      if count0 < nbits {
        count1 := (count1 + 1) % WORD;
      }
    }

    /** The registers hold the blocks of done, and what is left is p.. of data. */
    ghost predicate Taken(done: seq<Byte>, all: seq<Byte>, rest: seq<Byte>)
      reads this`abcd
    {
      |done| % 64 == 0 && abcd == Fold(process, INITIAL, done) && done + rest == all
    }

    /** The full blocks of data from p on. */
    method Blocks(data: seq<Byte>, from: nat, ghost before: seq<Byte>, ghost all: seq<Byte>)
        returns (p: nat, ghost done: seq<Byte>)
      requires from <= |data| && Taken(before, all, data[from..])
      modifies this`abcd
      ensures p <= |data| < p + 64 && Taken(done, all, data[p..])
    {
      hide Fold;
      p, done := from, before;
      while |data| - p >= 64
        invariant 0 <= p <= |data| && Taken(done, all, data[p..])
      {
        FoldBlock(process, INITIAL, done, data[p..p + 64]);
        assert data[p..] == data[p..p + 64] + data[p + 64..];
        done := done + data[p..p + 64];
        abcd := process(abcd, data[p..p + 64]);
        p := p + 64;
      }
    }

    /** The buffer, filled up from data, is one block. */
    method FirstBlock(offset: nat, data: seq<Byte>, ghost before: seq<Byte>, ghost all: seq<Byte>)
        returns (copy: nat, ghost done: seq<Byte>)
      requires buf.Length == 64 && 0 < offset < 64 && offset + |data| >= 64
      requires Taken(before, all, buf[..offset] + data)
      modifies this`abcd, buf
      ensures copy == 64 - offset <= |data| && Taken(done, all, data[copy..])
    {
      hide Fold;
      copy := if offset + |data| > 64 then 64 - offset else |data|;
      ghost var block := buf[..offset] + data[..copy];
      assert buf[..offset] + data == block + data[copy..];
      MemCpy(offset, data[..copy]);
      assert buf[..] == block;
      FoldBlock(process, INITIAL, before, block);
      done := before + block;
      abcd := process(abcd, buf[..]);
    }

    /** Adds data to the message. A C int holds its length. */
    method Append(data: seq<Byte>)
      requires Valid() && |data| < 0x8000_0000
      modifies this, buf
      ensures Valid() && message == old(message) + data
    {
      hide Fold, Taken, CountIs;
      OffsetOf(count0, count1, |message|);
      var offset := (count0 / 8) % 64;
      if |data| == 0 {
        return;
      }
      AddLength(|data|);
      TakenAtFirst(data);
      ghost var all, done := message + data, message[..|message| - offset];
      var p := 0;
      if offset != 0 {
        if offset + |data| < 64 {
          Partial(data);
          MemCpy(offset, data);
          message := all;
          return;
        }
        p, done := FirstBlock(offset, data, done, all);
      } else {
        assert buf[..0] + data == data[0..];
      }
      p, done := Blocks(data, p, done, all);
      if p < |data| {
        MemCpy(0, data[p..]);
      }
      AllTaken(done, all, data[p..]);
      message := all;
    }

    lemma AllTaken(done: seq<Byte>, all: seq<Byte>, rest: seq<Byte>)
      requires Taken(done, all, rest) && |rest| < 64
      ensures abcd == Fold(process, INITIAL, all) && |all| % 64 == |rest| && all[|all| - |rest|..] == rest
    {
      FoldRest(process, INITIAL, done, rest);
    }

    lemma TakenAtFirst(data: seq<Byte>)
      requires buf.Length == 64 && abcd == Fold(process, INITIAL, message)
      requires buf[..Rest()] == message[|message| - Rest()..]
      ensures Taken(message[..|message| - Rest()], message + data, buf[..Rest()] + data)
    {
      var m := |message| - Rest();
      assert message == message[..m] + message[m..];
      FoldRest(process, INITIAL, message[..m], message[m..]);
    }

    lemma Partial(data: seq<Byte>)
      requires abcd == Fold(process, INITIAL, message) && Rest() + |data| < 64
      ensures abcd == Fold(process, INITIAL, message + data) && |message + data| % 64 == Rest() + |data|
    {
      var m := |message| - Rest();
      assert message == message[..m] + message[m..];
      FoldRest(process, INITIAL, message[..m], message[m..]);
      assert message + data == message[..m] + (message[m..] + data);
      FoldRest(process, INITIAL, message[..m], message[m..] + data);
    }

    /** Pads the message and gives the digest. */
    method Finish() returns (digest: seq<Byte>)
      requires Valid()
      modifies this, buf
      ensures Valid() && message == Padded(old(message))
      ensures abcd == Fold(process, INITIAL, Padded(old(message)))
      ensures digest ==
        LittleEndian(abcd.a, 4) + LittleEndian(abcd.b, 4) + LittleEndian(abcd.c, 4) + LittleEndian(abcd.d, 4)
    {
      hide Fold, CountIs;
      ghost var m := message;
      OffsetOf(count0, count1, |m|);
      var data := WordBytes(count0) + WordBytes(count1);
      LengthBytes(count0, count1, |m|);
      var k := (55 - count0 / 8) % 64;
      PadCount(count0 / 8, |m|);
      var pad := Pad(k);
      Append([0x80] + pad);
      Append(data);
      assert message == m + ([0x80] + Zeros((55 - |m|) % 64)) + LittleEndian(8 * |m|, 8);
      assert message == Padded(m);
      WordBytesAre(abcd.a);
      WordBytesAre(abcd.b);
      WordBytesAre(abcd.c);
      WordBytesAre(abcd.d);
      digest := WordBytes(abcd.a) + WordBytes(abcd.b) + WordBytes(abcd.c) + WordBytes(abcd.d);
    }
  }

  /** k of the zero bytes of the padding. */
  method Pad(k: nat) returns (pad: seq<Byte>)
    ensures pad == Zeros(k)
  {
    pad := [];
    for i := 0 to k
      invariant pad == Zeros(i)
    {
      pad := pad + [0];
    }
  }

  function WordBytes(w: nat): seq<Byte> {
    [(w % 256) as Byte, (w / 0x100 % 256) as Byte, (w / 0x1_0000 % 256) as Byte, (w / 0x100_0000 % 256) as Byte]
  }

  lemma WordBytesAre(w: nat)
    ensures WordBytes(w) == LittleEndian(w, 4)
  {
    var w1, w2, w3 := w / 256, w / 256 / 256, w / 256 / 256 / 256;
    assert LittleEndian(w3, 1) == [(w3 % 256) as Byte];
    assert LittleEndian(w2, 2) == [(w2 % 256) as Byte] + LittleEndian(w3, 1);
    assert LittleEndian(w1, 3) == [(w1 % 256) as Byte] + LittleEndian(w2, 2);
  }

  lemma Above256(n: nat, k: nat)
    ensures (n + 256 * k) / 256 == n / 256 + k && (n + 256 * k) % 256 == n % 256
  {
  }

  lemma Regroup(p: nat, q: nat, k: nat)
    requires p == 256 * q
    ensures p * k == 256 * (q * k)
  {
  }

  /** The bytes of a number are those of its two words. */
  lemma {:induction false} BytesSplit(lo: nat, hi: nat, lows: nat, p: nat)
    requires p == Power256(lows) && lo < p
    ensures LittleEndian(lo + p * hi, lows + 4) == LittleEndian(lo, lows) + LittleEndian(hi, 4)
    decreases lows
  {
    if lows > 0 {
      var q := Power256(lows - 1);
      Regroup(p, q, hi);
      Above256(lo, q * hi);
      BytesSplit(lo / 256, hi, lows - 1, q);
    }
  }

  ghost function Power256(n: nat): nat {
    if n == 0 then 1 else 256 * Power256(n - 1)
  }

  lemma FourthPower()
    ensures Power256(4) == WORD
  {
    assert Power256(1) == 256 && Power256(2) == 0x1_0000 && Power256(3) == 0x100_0000;
  }

  lemma LengthBytes(c0: nat, c1: nat, n: nat)
    requires CountIs(c0, c1, n)
    ensures WordBytes(c0) + WordBytes(c1) == LittleEndian(8 * n, 8)
  {
    hide LittleEndian, WordBytes, Power256;
    WordBytesAre(c0);
    WordBytesAre(c1);
    var q := (8 * n) / (WORD * WORD);
    assert 8 * n == c0 + WORD * (c1 + WORD * q);
    FourthPower();
    BytesSplit(c0, c1 + WORD * q, 4, WORD);
    LowBytes(c1, q, 4, WORD);
  }

  /** So many bytes do not see what lies above them. */
  lemma {:induction false} LowBytes(n: nat, k: nat, bytes: nat, p: nat)
    requires p == Power256(bytes)
    ensures LittleEndian(n + p * k, bytes) == LittleEndian(n, bytes)
    decreases bytes
  {
    if bytes > 0 {
      var q := Power256(bytes - 1);
      Regroup(p, q, k);
      Above256(n, q * k);
      LowBytes(n / 256, k, bytes - 1, q);
    }
  }

  lemma PadCount(a: nat, n: nat)
    requires a % 64 == n % 64
    ensures (55 - a) % 64 == (55 - n) % 64
  {
    assert a - n == 64 * (a / 64 - n / 64);
    assert (55 - n) / 64 - (55 - a) / 64 == a / 64 - n / 64;
  }

  /** Any split of a message over calls of Append leaves the same registers, count and buffered bytes. */
  lemma ChunksDoNotMatter(s: State, t: State)
    requires s.Valid() && t.Valid() && s.process == t.process && s.message == t.message
    ensures s.abcd == t.abcd && s.count0 == t.count0 && s.count1 == t.count1
    ensures s.buf[..|s.message| % 64] == t.buf[..|t.message| % 64]
  {
    SameWords(s.count0, s.count1, t.count0, t.count1);
  }

  lemma SameWords(a: nat, b: nat, c: nat, d: nat)
    requires a < WORD && b < WORD && c < WORD && d < WORD && a + WORD * b == c + WORD * d
    ensures a == c && b == d
  {
  }
}
