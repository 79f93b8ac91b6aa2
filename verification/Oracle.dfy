/** The trace converter: a backward pass tags each request with the time of the next request for its
    object, counted from the end, and a second pass turns the records round. */
module Oracle {
  import opened Lists
  import opened Recency
  import opened Optimality
  import Belady

  datatype Record = Record(clock: nat, obj: Obj, size: nat, next: int)
  datatype Stat = Stat(nReq: nat, nObj: nat, reqBytes: nat, objBytes: nat)

  ghost function TotalBytes(input: seq<TimedRequest>): nat {
    if input == [] then 0 else input[0].size + TotalBytes(input[1..])
  }

  /** The bytes of the objects, each with the size it has when it is requested for the last time. */
  ghost function LastBytes(input: seq<TimedRequest>): nat {
    if input == [] then 0
    else LastBytes(input[1..]) + if NextFrom(Objects(input), input[0].obj, 1) < 0 then input[0].size else 0
  }

  lemma {:induction false} TotalBytesSnoc(input: seq<TimedRequest>, r: TimedRequest)
    ensures TotalBytes(input + [r]) == TotalBytes(input) + r.size
  {
    if input == [] {
      assert (input + [r])[1..] == [];
    } else {
      assert (input + [r])[1..] == input[1..] + [r];
      TotalBytesSnoc(input[1..], r);
    }
  }

  /** One request more: the last size of its object takes the place of the one before. */
  lemma {:induction false} LastBytesSnoc(input: seq<TimedRequest>, r: TimedRequest)
    ensures var p := LastAccess(Objects(input), r.obj);
      LastBytes(input + [r]) == LastBytes(input) + r.size - if p < 0 then 0 else input[p].size
  {
    hide LastAccess, NextFrom;
    var all := input + [r];
    if input == [] {
      assert all[1..] == [];
    } else {
      var rest, x := input[1..], input[0].obj;
      LastBytesSnoc(rest, r);
      assert all[1..] == rest + [r];
      var tr, more := Objects(input), Objects(all);
      assert forall j :: 0 <= j < |tr| ==> more[j] == tr[j];
      assert forall j :: 0 <= j < |rest| ==> Objects(rest)[j] == tr[j + 1];
      var p, p' := LastAccess(tr, r.obj), LastAccess(Objects(rest), r.obj);
      assert more[|tr|] == r.obj;
      if p' >= 0 {
        assert p == p' + 1;
      } else {
        assert p == if x == r.obj then 0 else -1;
      }
      assert NextFrom(more, x, 1) < 0 <==> NextFrom(tr, x, 1) < 0 && x != r.obj;
    }
  }

  // ---- the backward pass -----------------------------------------------------------------------

  /** The tag of request i, as the backward pass writes it: requests counted from the end, from 0. */
  ghost function BackwardTag(tr: seq<Obj>, i: nat): int
    requires i < |tr|
  {
    var p := NextFrom(tr, tr[i], i + 1);
    if p < 0 then -1 else |tr| - 1 - p
  }

  ghost predicate TaggedFrom(input: seq<TimedRequest>, records: seq<Record>, i: nat) {
    && i <= |input| && |records| == |input| - i
    && forall k :: 0 <= k < |records| ==>
         var j := |input| - 1 - k;
         records[k] == Record(input[j].clock, input[j].obj, input[j].size, BackwardTag(Objects(input), j))
  }

  /** The map knows, for every object requested at position i or later, its first request there. */
  ghost predicate KnowsNext(tr: seq<Obj>, last: map<Obj, int>, i: nat) {
    && i <= |tr|
    && forall o :: if NextFrom(tr, o, i) < 0 then o !in last else o in last && last[o] == |tr| - 1 - NextFrom(tr, o, i)
  }

  method Backward(input: seq<TimedRequest>) returns (records: seq<Record>, stat: Stat)
    requires |input| >= 1
    ensures TaggedFrom(input, records, 0)
    ensures stat == Stat(|input|, |Elems(Objects(input))|, TotalBytes(input), LastBytes(input))
  {
    hide TaggedFrom, KnowsNext, Elems, TotalBytes, LastBytes, BackwardTag, NextFrom;
    PassStart(input);
    ghost var tr := Objects(input);
    var last: map<Obj, int> := map[];
    var n, bytes, objBytes, nObj := 0, 0, 0, 0;
    records := [];
    var i := |input|;
    while i > 0
      invariant 0 <= i <= |input| && n == |input| - i && |records| == n
      invariant TaggedFrom(input, records, i) && KnowsNext(tr, last, i)
      invariant bytes == TotalBytes(input[i..]) && objBytes == LastBytes(input[i..])
      invariant nObj == |Elems(tr[i..])| && Elems(tr[i..]) == last.Keys
    {
      i := i - 1;
      var req := input[i];
      StatStep(input, i);
      KnowsStep(tr, last, i);
      var next := -1;
      if req.obj !in last {
        nObj := nObj + 1;
        objBytes := objBytes + req.size;
      } else {
        next := last[req.obj];
      }
      bytes := bytes + req.size;
      last := last[req.obj := n];
      TaggedStep(input, records, i);
      records := records + [Record(req.clock, req.obj, req.size, next)];
      n := n + 1;
    }
    assert input[0..] == input && tr[0..] == tr;
    stat := Stat(n, nObj, bytes, objBytes);
  }

  lemma PassStart(input: seq<TimedRequest>)
    ensures TaggedFrom(input, [], |input|) && KnowsNext(Objects(input), map[], |input|)
    ensures TotalBytes(input[|input|..]) == 0 && LastBytes(input[|input|..]) == 0
    ensures Elems(Objects(input)[|input|..]) == {}
  {
  }

  lemma TaggedStep(input: seq<TimedRequest>, records: seq<Record>, i: nat)
    requires i < |input| && TaggedFrom(input, records, i + 1)
    ensures TaggedFrom(input,
      records + [Record(input[i].clock, input[i].obj, input[i].size, BackwardTag(Objects(input), i))], i)
  {
    hide BackwardTag;
  }

  lemma NextFromTail(tr: seq<Obj>, o: Obj, i: nat, k: nat)
    requires i <= k <= |tr|
    ensures NextFrom(tr[i..], o, k - i) == if NextFrom(tr, o, k) < 0 then -1 else NextFrom(tr, o, k) - i
  {
    var p, q := NextFrom(tr[i..], o, k - i), NextFrom(tr, o, k);
    assert forall j :: i <= j < |tr| ==> tr[j] == tr[i..][j - i];
    if p >= 0 {
      assert tr[i + p] == o;
    }
    if q >= 0 {
      assert tr[i..][q - i] == o;
    }
  }

  lemma StatStep(input: seq<TimedRequest>, i: nat)
    requires i < |input|
    ensures var tr := Objects(input);
      && TotalBytes(input[i..]) == input[i].size + TotalBytes(input[i + 1..])
      && LastBytes(input[i..]) == LastBytes(input[i + 1..])
           + (if NextFrom(tr, tr[i], i + 1) < 0 then input[i].size else 0)
      && Elems(tr[i..]) == Elems(tr[i + 1..]) + {tr[i]}
  {
    var tr := Objects(input);
    assert input[i..][1..] == input[i + 1..];
    assert Objects(input[i..]) == tr[i..];
    NextFromTail(tr, tr[i], i, i + 1);
    assert tr[i..] == [tr[i]] + tr[i + 1..];
  }

  lemma KnowsStep(tr: seq<Obj>, last: map<Obj, int>, i: nat)
    requires i < |tr| && KnowsNext(tr, last, i + 1)
    ensures tr[i] in last <==> NextFrom(tr, tr[i], i + 1) >= 0
    ensures KnowsNext(tr, last[tr[i] := |tr| - 1 - i], i)
    ensures BackwardTag(tr, i) == if tr[i] in last then last[tr[i]] else -1
  {
  }

  // ---- turning the records round -----------------------------------------------------------------

  /** The tag of request i in the converted trace: requests counted from 1, or -1. */
  ghost function ForwardTag(tr: seq<Obj>, i: nat): int
    requires i < |tr|
  {
    var p := NextFrom(tr, tr[i], i + 1);
    if p < 0 then -1 else p + 1
  }

  /** The size of the object at its first request. */
  ghost function FirstSize(input: seq<TimedRequest>, o: Obj): nat
    requires o in Objects(input)
  {
    input[NextFrom(Objects(input), o, 0)].size
  }

  /** Request i in the converted trace. Its size is its own or that of the first request for the object; its
      tag is the position, counted from 1, of the next request for the object, or -1. */
  ghost function Converted(input: seq<TimedRequest>, i: nat, oneSize: bool): (out: Record)
    requires i < |input|
    ensures out.clock == input[i].clock && out.obj == input[i].obj && (!oneSize ==> out.size == input[i].size)
    ensures oneSize ==>
      forall j | 0 <= j <= i && input[j].obj == input[i].obj && forall k :: 0 <= k < j ==> input[k].obj != input[i].obj
        :: out.size == input[j].size
    ensures out.next == -1 <==> forall j :: i < j < |input| ==> input[j].obj != input[i].obj
    ensures out.next != -1 ==>
      && i + 1 < out.next <= |input| && input[out.next - 1].obj == input[i].obj
      && forall j :: i < j < out.next - 1 ==> input[j].obj != input[i].obj
  {
    var r := input[i];
    assert Objects(input)[i] == r.obj;
    Record(r.clock, r.obj, if oneSize then FirstSize(input, r.obj) else r.size, ForwardTag(Objects(input), i))
  }

  /** The map knows the first size of every object requested before position i. */
  ghost predicate KnowsSizes(input: seq<TimedRequest>, sizes: map<Obj, nat>, i: nat) {
    && i <= |input| && (forall o :: o in sizes <==> o in Objects(input)[..i])
    && forall o :: o in sizes ==> o in Objects(input) && sizes[o] == FirstSize(input, o)
  }

  method ReverseFile(records: seq<Record>, nReq: nat, oneSize: bool, ghost input: seq<TimedRequest>)
    returns (out: seq<Record>)
    requires TaggedFrom(input, records, 0) && nReq == |input|
    ensures |out| == |input| && forall i :: 0 <= i < |input| ==> out[i] == Converted(input, i, oneSize)
  {
    hide TaggedFrom, KnowsSizes, FirstSize, ForwardTag, BackwardTag, NextFrom;
    RecordAt(input, records);
    var sizes: map<Obj, nat> := map[];
    out := [];
    var pos := |records|;
    while pos >= 1
      invariant 0 <= pos <= |records| && |out| == |records| - pos
      invariant oneSize ==> KnowsSizes(input, sizes, |out|)
      invariant forall i :: 0 <= i < |out| ==> out[i] == Converted(input, i, oneSize)
    {
      pos := pos - 1;
      var r := records[pos];
      ghost var i := |out|;
      TagsAgree(Objects(input), i);
      if r.next != -1 {
        r := r.(next := nReq - r.next);
      }
      if oneSize {
        SizesStep(input, sizes, i);
        if r.obj in sizes {
          r := r.(size := sizes[r.obj]);
        } else {
          sizes := sizes[r.obj := r.size];
        }
      }
      out := out + [r];
    }
  }

  lemma RecordAt(input: seq<TimedRequest>, records: seq<Record>)
    requires TaggedFrom(input, records, 0)
    ensures |records| == |input| && KnowsSizes(input, map[], 0)
    ensures forall k :: 0 <= k < |records| ==>
      var j := |input| - 1 - k;
      records[k] == Record(input[j].clock, input[j].obj, input[j].size, BackwardTag(Objects(input), j))
  {
  }

  lemma TagsAgree(tr: seq<Obj>, i: nat)
    requires i < |tr|
    ensures ForwardTag(tr, i) == if BackwardTag(tr, i) == -1 then -1 else |tr| - BackwardTag(tr, i)
  {
  }

  lemma SizesStep(input: seq<TimedRequest>, sizes: map<Obj, nat>, i: nat)
    requires i < |input| && KnowsSizes(input, sizes, i)
    ensures input[i].obj in Objects(input)
    ensures input[i].obj in sizes ==>
      sizes[input[i].obj] == FirstSize(input, input[i].obj) && KnowsSizes(input, sizes, i + 1)
    ensures input[i].obj !in sizes ==>
      FirstSize(input, input[i].obj) == input[i].size && KnowsSizes(input, sizes[input[i].obj := input[i].size], i + 1)
  {
    var tr := Objects(input);
    assert tr[i] in tr;
    assert tr[..i + 1] == tr[..i] + [tr[i]];
    if tr[i] !in sizes {
      assert forall j :: 0 <= j < i ==> tr[..i][j] == tr[j];
      assert NextFrom(tr, tr[i], 0) == i;
    }
  }

  /** The converter: every request in its place, tagged with the time of the next one for its object. */
  method ConvertToOracleGeneral(input: seq<TimedRequest>, oneSize: bool) returns (out: seq<Record>, stat: Stat)
    requires |input| >= 1
    ensures |out| == |input| && forall i :: 0 <= i < |input| ==> out[i] == Converted(input, i, oneSize)
    ensures stat == Stat(|input|, |Elems(Objects(input))|, TotalBytes(input), LastBytes(input))
  {
    var records;
    records, stat := Backward(input);
    out := ReverseFile(records, stat.nReq, oneSize, input);
  }

  /** The reader turns the tag -1 into the largest 64-bit integer, and may be told to ignore sizes. */
  function ReadRecord(r: Record, ignoreSize: bool): TimedRequest {
    TimedRequest(r.clock, r.obj, if ignoreSize then 1 else r.size, if r.next == -1 then NEVER else r.next)
  }

  /** A converted trace, read back, is an exact oracle; clocks are kept, and so are sizes if that is wanted. */
  lemma ReadBackExact(input: seq<TimedRequest>, oneSize: bool, ignoreSize: bool, reqs: seq<TimedRequest>)
    requires |reqs| == |input|
    requires forall i :: 0 <= i < |input| ==> reqs[i] == ReadRecord(Converted(input, i, oneSize), ignoreSize)
    ensures Belady.Exact(reqs) && Objects(reqs) == Objects(input)
    ensures forall i :: 0 <= i < |input| ==>
      && reqs[i].clock == input[i].clock && (ignoreSize ==> reqs[i].size == 1)
      && (!ignoreSize && !oneSize ==> reqs[i].size == input[i].size)
  {
    assert Objects(reqs) == Objects(input);
  }

  /** From a raw trace to an optimal replacement, sizes ignored, unless the simulation aborts. */
  method ConvertAndSimulate(input: seq<TimedRequest>, oneSize: bool, cacheSize: nat, n: nat)
    returns (ok: bool, misses: nat, ghost run: seq<set<Obj>>)
    requires 1 <= |input| < NEVER && cacheSize >= 1
    ensures ok <==> Belady.Survives(Objects(input), cacheSize)
    ensures ok ==> IsBeladyRun(Objects(input), cacheSize, run) && IsRun(Objects(input), cacheSize, run)
    ensures ok ==> misses == Misses(Objects(input), run, |input|)
    ensures ok ==> forall d :: IsRun(Objects(input), cacheSize, d) ==> misses <= Misses(Objects(input), d, |input|)
    ensures !ok ==> Belady.AbortsAt(Objects(input), cacheSize, run)
  {
    hide BeladyStep, Belady.Survives, Belady.AbortsAt;
    var out, _ := ConvertToOracleGeneral(input, oneSize);
    var reqs := [];
    for i := 0 to |out|
      invariant |reqs| == i && forall k :: 0 <= k < i ==> reqs[k] == ReadRecord(out[k], true)
    {
      reqs := reqs + [ReadRecord(out[i], true)];
    }
    ReadBackExact(input, oneSize, true, reqs);
    ok, misses, run := Belady.Simulate(reqs, cacheSize, n);
    if ok {
      forall i | 0 <= i < |input| ensures Allowed(cacheSize, run[i], Objects(input)[i], run[i + 1]) {
        BeladyRunIsRun(Objects(input), cacheSize, run, i + 1);
      }
    }
  }
}
