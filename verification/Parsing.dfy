/**
 * How the decoder reads fields that come more than once, and what it refuses: the rules of "Message Structure" and "Last
 * One Wins" in "Protocol Buffers Encoding".
 */
module Parsing {
  import opened Bytes
  import opened Descriptor
  import opened Wire
  import opened UnknownFields
  import RequiredFields
  import V = Varint

  // ---- two messages, one behind the other ----------------------------------------------------

  /** What can be skipped is a complete payload. */
  lemma SkippedIsComplete(wireType: nat, s: bytes) returns (payload: bytes, behind: bytes)
    requires Skip(wireType, s).Ok?
    ensures s == payload + behind && Skip(wireType, s) == Ok((), behind) && Complete(wireType, payload)
  {
    behind := Skip(wireType, s).rest;
    payload := s[..|s| - |behind|];
    if wireType == WT_STRING {
      DelimitedFront(s);
    }
  }

  lemma DelimitedFront(s: bytes)
    requires TakeDelimited(s).Ok?
    ensures var rest := TakeDelimited(s).rest; var payload := s[..|s| - |rest|];
      TakeDelimited(payload).Ok? && TakeDelimited(payload).rest == []
  {
    var g, t := V.ReadGroup(s);
    V.ReadsAreLocal(g, t);
    var n, rest := V.ReadVarint32(s).value, TakeDelimited(s).rest;
    assert TakeDelimited(s) == Take(t, n);
    V.ReadsAreLocal(g, t[..n]);
    assert s[..|s| - |rest|] == g + t[..n];
  }

  /** A key and what is made of the bytes behind it. */
  lemma OneIs(d: MsgDesc, s: bytes, key: nat, behind: bytes, p: Progress)
    requires |p.m| == |d.fields| && V.ReadVarint32(s) == Ok(key, behind)
    ensures s != [] && (key / 8 == 0 ==> DecodeOne(d, s, p) == Fail)
    ensures key / 8 != 0 && FieldWithTag(d, key / 8).None? ==>
      DecodeOne(d, s, p) == var r := Skip(key % 8, behind); if r.Ok? then Ok(p, r.rest) else Fail
    ensures key / 8 != 0 && FieldWithTag(d, key / 8).Some? ==>
      var i := FieldWithTag(d, key / 8).value;
      DecodeOne(d, s, p)
        == var r := DecodeField(d.fields[i], key % 8, behind, p.m[i]); if r.Ok? then Ok(Advance(d, p, i, r.value), r.rest) else Fail
  {
    assert s != [];
    hide DecodeField, Skip, V.ReadVarint32, IsTail, Advance, FieldWithTag;
  }

  /** One field is read without a look at what is behind it. */
  lemma OneIsLocal(d: MsgDesc, s: bytes, t: bytes, p: Progress)
    requires |p.m| == |d.fields| && DecodeOne(d, s, p).Ok?
    ensures DecodeOne(d, s + t, p) == Ok(DecodeOne(d, s, p).value, DecodeOne(d, s, p).rest + t)
  {
    hide *;
    KeyIsThere(d, s, p);
    KeyIsLocal(s, t);
    var key, behind := V.ReadVarint32(s).value, V.ReadVarint32(s).rest;
    OneIs(d, s, key, behind, p);
    OneIs(d, s + t, key, behind + t, p);
    var i := FieldWithTag(d, key / 8);
    if i.Some? {
      RequiredFields.DecodedLikeSkipped(d.fields[i.value], key % 8, behind, p.m[i.value]);
    }
    var payload, rest := SkippedIsComplete(key % 8, behind);
    assert behind + t == payload + (rest + t);
    SkipIsLocal(key % 8, payload, rest + t);
    if i.Some? {
      FieldIsLocal(d.fields[i.value], key % 8, payload, rest, p.m[i.value]);
      FieldIsLocal(d.fields[i.value], key % 8, payload, rest + t, p.m[i.value]);
    }
  }

  lemma KeyIsThere(d: MsgDesc, s: bytes, p: Progress)
    requires |p.m| == |d.fields| && DecodeOne(d, s, p).Ok?
    ensures V.ReadVarint32(s).Ok?
    ensures FieldWithTag(d, V.ReadVarint32(s).value / 8).Some? ==> FieldWithTag(d, V.ReadVarint32(s).value / 8).value < |d.fields|
  {
    hide DecodeField, Skip, V.ReadVarint32, IsTail, Advance, FieldWithTag;
  }

  lemma KeyIsLocal(s: bytes, t: bytes)
    requires V.ReadVarint32(s).Ok?
    ensures V.ReadVarint32(s + t) == Ok(V.ReadVarint32(s).value, V.ReadVarint32(s).rest + t)
  {
    assert V.GroupEnd(s).Some?;
    hide *;
    var g, behind := V.ReadGroup(s);
    V.ReadsAreLocal(g, behind);
    V.ReadsAreLocal(g, behind + t);
    assert s + t == g + (behind + t);
  }

  /** Reading two inputs joined is reading the second into what the first has left. */
  lemma {:induction false} DecodeOfTwo(d: MsgDesc, a: bytes, b: bytes, p: Progress)
    requires |p.m| == |d.fields| && DecodeAll(d, a, p).Some?
    ensures DecodeAll(d, a + b, p) == DecodeAll(d, b, DecodeAll(d, a, p).value)
    decreases |a|
  {
    if a == [] {
      assert a + b == b;
    } else {
      var r := DecodeOne(d, a, p);
      AllFromOne(d, a, p);
      AllFromOne(d, a + b, p);
      OneIsLocal(d, a, b, p);
      hide DecodeAll, DecodeOne;
      DecodeOfTwo(d, r.rest, b, r.value);
    }
  }

  /** What is stored does not depend on the required fields met so far. */
  lemma OneIgnoresSeen(d: MsgDesc, s: bytes, p: Progress, q: Progress)
    requires |p.m| == |d.fields| && p.m == q.m
    ensures DecodeOne(d, s, p).Ok? <==> DecodeOne(d, s, q).Ok?
    ensures DecodeOne(d, s, p).Ok? ==>
      && DecodeOne(d, s, q).rest == DecodeOne(d, s, p).rest && DecodeOne(d, s, q).value.m == DecodeOne(d, s, p).value.m
      && (p.seen <= q.seen ==> DecodeOne(d, s, p).value.seen <= DecodeOne(d, s, q).value.seen)
  {
    hide V.ReadVarint32, Skip, DecodeField, FieldWithTag, Store;
  }

  lemma {:induction false} AllIgnoresSeen(d: MsgDesc, s: bytes, p: Progress, q: Progress)
    requires |p.m| == |d.fields| && p.m == q.m && p.seen <= q.seen
    ensures DecodeAll(d, s, p).Some? <==> DecodeAll(d, s, q).Some?
    ensures DecodeAll(d, s, p).Some? ==>
      DecodeAll(d, s, q).value.m == DecodeAll(d, s, p).value.m && DecodeAll(d, s, p).value.seen <= DecodeAll(d, s, q).value.seen
    decreases |s|
  {
    if s != [] {
      OneIgnoresSeen(d, s, p, q);
      AllFromOne(d, s, p);
      AllFromOne(d, s, q);
      var r, t := DecodeOne(d, s, p), DecodeOne(d, s, q);
      hide DecodeAll, DecodeOne;
      if r.Ok? {
        AllIgnoresSeen(d, r.rest, r.value, t.value);
      }
    }
  }

  /** Two messages, each of which is accepted, are merged by reading them joined. */
  lemma StructOfTwo(d: MsgDesc, a: bytes, b: bytes, m: Slots)
    requires |m| == |d.fields| && DecodeStruct(d, a, m).Some? && DecodeStruct(d, b, DecodeStruct(d, a, m).value).Some?
    ensures DecodeStruct(d, a + b, m) == DecodeStruct(d, b, DecodeStruct(d, a, m).value)
  {
    DecodeOfTwo(d, a, b, Progress(m, {}));
    var p := DecodeAll(d, a, Progress(m, {})).value;
    AllIgnoresSeen(d, b, Progress(p.m, {}), p);
    hide DecodeAll;
  }

  // ---- fields that come twice --------------------------------------------------------------------

  /** A field of the message, with a payload. */
  ghost predicate IsField(d: MsgDesc, i: nat, payload: bytes) {
    WfDesc(d) && i < |d.fields| && Complete(WireType(d.fields[i].ltype), payload)
  }

  function FieldBytes(f: FieldDesc, payload: bytes): bytes {
    TagBytes(f.tag, WireType(f.ltype)) + payload
  }

  lemma FieldIsRead(d: MsgDesc, i: nat, payload: bytes, t: bytes, p: Progress)
    requires IsField(d, i, payload) && |p.m| == |d.fields|
    ensures var r := DecodeField(d.fields[i], WireType(d.fields[i].ltype), payload, p.m[i]);
      DecodeAll(d, FieldBytes(d.fields[i], payload) + t, p) == if r.Ok? then DecodeAll(d, t, Advance(d, p, i, r.value)) else None
  {
    var f := d.fields[i];
    assert WfField(f);
    FieldWithTagIs(d, i);
    hide DecodeAll, DecodeField, Complete, TagBytes, WfDesc, FieldWithTag, Advance;
    StepIsLocal(d, f.tag, WireType(f.ltype), payload, t, p);
  }

  /** Of two values of a field that holds one, and is no submessage, the last is kept. */
  lemma LastWins(d: MsgDesc, i: nat, first: bytes, second: bytes, t: bytes, p: Progress)
    requires IsField(d, i, first) && IsField(d, i, second) && |p.m| == |d.fields|
    requires !d.fields[i].htype.Repeated? && !d.fields[i].ltype.Submessage?
    requires DecodeAll(d, FieldBytes(d.fields[i], first), p).Some?
    ensures DecodeAll(d, FieldBytes(d.fields[i], first) + (FieldBytes(d.fields[i], second) + t), p)
         == DecodeAll(d, FieldBytes(d.fields[i], second) + t, p)
  {
    var f, w := d.fields[i], WireType(d.fields[i].ltype);
    FieldIsRead(d, i, first, [], p);
    assert FieldBytes(f, first) + [] == FieldBytes(f, first);
    FieldIsRead(d, i, first, FieldBytes(f, second) + t, p);
    var slot := DecodeField(f, w, first, p.m[i]).value;
    var q := Advance(d, p, i, slot);
    FieldIsRead(d, i, second, t, q);
    FieldIsRead(d, i, second, t, p);
    PreviousForgotten(f, w, second, q.m[i], p.m[i]);
    var r := DecodeField(f, w, second, p.m[i]);
    if r.Ok? {
      AdvanceTwice(d, p, i, slot, r.value);
    }
    hide DecodeAll, DecodeField, Advance, FieldBytes, IsField;
  }

  lemma PreviousForgotten(f: FieldDesc, wireType: nat, s: bytes, a: seq<Value>, b: seq<Value>)
    requires !f.htype.Repeated? && !f.ltype.Submessage?
    ensures DecodeField(f, wireType, s, a) == DecodeField(f, wireType, s, b)
  {
    hide DecodeNumber, V.ReadVarint32;
  }

  lemma AdvanceTwice(d: MsgDesc, p: Progress, i: nat, a: seq<Value>, b: seq<Value>)
    requires i < |d.fields| == |p.m|
    ensures Advance(d, Advance(d, p, i, a), i, b) == Advance(d, p, i, b)
  {
    assert p.seen + {i} + {i} == p.seen + {i};
    assert Store(d, Store(d, p.m, i, a), i, b) == Store(d, p.m, i, b);
  }

  /** A submessage that comes in two parts is the submessage of both parts joined. */
  lemma PartsAreMerged(d: MsgDesc, i: nat, a: bytes, b: bytes, t: bytes, p: Progress)
    requires WfDesc(d) && i < |d.fields| == |p.m| && |a| + |b| < TWO_32
    requires !d.fields[i].htype.Repeated? && d.fields[i].ltype.Submessage?
    requires var sub := d.fields[i].ltype.desc; var v := Existing(d.fields[i], p.m[i]);
      && v.VMsg? && |v.slots| == |sub.fields| && DecodeStruct(sub, a, v.slots).Some?
      && DecodeStruct(sub, b, DecodeStruct(sub, a, v.slots).value).Some?
    ensures var f := d.fields[i];
      DecodeAll(d, FieldBytes(f, Delimited(a)) + (FieldBytes(f, Delimited(b)) + t), p)
        == DecodeAll(d, FieldBytes(f, Delimited(a + b)) + t, p)
  {
    var f := d.fields[i];
    var sub, v := f.ltype.desc, Existing(f, p.m[i]);
    var m := DecodeStruct(sub, a, v.slots).value;
    var n := DecodeStruct(sub, b, m).value;
    StructOfTwo(sub, a, b, v.slots);
    SubmessageRead(f, a, p.m[i], m);
    SubmessageRead(f, a + b, p.m[i], n);
    SubmessageRead(f, b, [VMsg(m)], n);
    NestedIsComplete(a);
    NestedIsComplete(b);
    NestedIsComplete(a + b);
    AdvanceTwice(d, p, i, [VMsg(m)], [VMsg(n)]);
    var q := Advance(d, p, i, [VMsg(m)]);
    assert q.m[i] == [VMsg(m)] && WireType(f.ltype) == WT_STRING;
    hide DecodeAll, DecodeField, DecodeStruct, Advance, FieldBytes, Complete, Delimited, Existing, WfDesc;
    FieldIsRead(d, i, Delimited(a), FieldBytes(f, Delimited(b)) + t, p);
    FieldIsRead(d, i, Delimited(b), t, q);
    FieldIsRead(d, i, Delimited(a + b), t, p);
  }

  lemma SubmessageRead(f: FieldDesc, b: bytes, slot: seq<Value>, m: Slots)
    requires f.ltype.Submessage? && !f.htype.Repeated? && |b| < TWO_32
    requires var v := Existing(f, slot); v.VMsg? && |v.slots| == |f.ltype.desc.fields| && DecodeStruct(f.ltype.desc, b, v.slots) == Some(m)
    ensures DecodeField(f, WireType(f.ltype), Delimited(b), slot) == Ok([VMsg(m)], [])
  {
    NestedIsComplete(b);
    hide DecodeStruct, Delimited, TakeDelimited, Complete, DefaultItem;
  }

  // ---- what is refused ------------------------------------------------------------------------------

  lemma OtherForm(f: FieldDesc, wireType: nat, s: bytes, slot: seq<Value>)
    ensures wireType != WireType(f.ltype) && !(f.htype.Repeated? && f.ltype.Packable() && wireType == 2) ==> DecodeField(f, wireType, s, slot) == Fail
    ensures WireType(f.ltype) in {0, 1, 2, 5}
  {
  }

  /** Wire types 3, 4, 6 and 7, tag 0, and known fields in another form than theirs end the decoding. */
  lemma BadKeys(d: MsgDesc, tag: nat, wireType: nat, rest: bytes, p: Progress)
    requires |p.m| == |d.fields| && tag < 0x2000_0000 && wireType < 8
    requires || tag == 0 || wireType == 3 || wireType == 4 || wireType == 6 || wireType == 7
      || (var i := FieldWithTag(d, tag);
          i.Some? && wireType != WireType(d.fields[i.value].ltype)
          && !(d.fields[i.value].htype.Repeated? && d.fields[i.value].ltype.Packable() && wireType == 2))
    ensures DecodeAll(d, TagBytes(tag, wireType) + rest, p) == None
  {
    var s := TagBytes(tag, wireType) + rest;
    ReadLongKey(tag, wireType, rest);
    assert (8 * tag + wireType) / 8 == tag && (8 * tag + wireType) % 8 == wireType;
    OneIs(d, s, 8 * tag + wireType, rest, p);
    AllFromOne(d, s, p);
    var i := FieldWithTag(d, tag);
    if i.Some? {
      OtherForm(d.fields[i.value], wireType, rest, p.m[i.value]);
    }
    hide TagBytes, V.ReadVarint32, FieldWithTag, DecodeField, DecodeOne, DecodeAll;
  }

  lemma {:induction false} GroupCut(g: bytes, n: nat)
    requires V.IsGroup(g) && n < |g|
    ensures V.GroupEnd(g[..n]) == None
  {
    if n > 0 {
      GroupCut(g[1..], n - 1);
      assert g[..n][1..] == g[1..][..n - 1];
    }
  }

  lemma NoKey(s: bytes)
    requires V.GroupEnd(s) == None
    ensures V.ReadVarint32(s) == Fail && TakeDelimited(s) == Fail && Skip(WT_VARINT, s) == Fail
  {
  }

  lemma DelimitedCut(payload: bytes, n: nat)
    requires Complete(WT_STRING, payload) && n < |payload|
    ensures TakeDelimited(payload[..n]) == Fail
  {
    var g, behind := V.ReadGroup(payload);
    V.ReadsAreLocal(g, behind);
    if n < |g| {
      GroupCut(g, n);
      assert payload[..n] == g[..n];
      NoKey(g[..n]);
    } else {
      V.ReadsAreLocal(g, behind[..n - |g|]);
      assert payload[..n] == g + behind[..n - |g|];
    }
    hide V.ReadVarint32;
  }

  lemma SkipCut(wireType: nat, payload: bytes, n: nat)
    requires Complete(wireType, payload) && n < |payload|
    ensures Skip(wireType, payload[..n]) == Fail
  {
    if wireType == WT_VARINT {
      GroupCut(payload, n);
    } else if wireType == WT_STRING {
      DelimitedCut(payload, n);
      hide TakeDelimited;
    }
  }

  lemma KeyFacts(tag: nat, wireType: nat, payload: bytes)
    requires Complete(wireType, payload)
    ensures wireType < 8 && V.IsGroup(TagBytes(tag, wireType))
    ensures (8 * tag + wireType) / 8 == tag && (8 * tag + wireType) % 8 == wireType
  {
    hide V.IsGroup, V.VarintBytes, TakeDelimited;
  }

  /** A message that ends in the middle of a field, known or not, is refused. */
  lemma CutIsRefused(d: MsgDesc, tag: nat, wireType: nat, payload: bytes, n: nat, p: Progress)
    requires |p.m| == |d.fields| && 1 <= tag < 0x2000_0000 && Complete(wireType, payload)
    requires 0 < n < |TagBytes(tag, wireType) + payload|
    ensures DecodeAll(d, (TagBytes(tag, wireType) + payload)[..n], p) == None
  {
    hide *;
    KeyFacts(tag, wireType, payload);
    var key := TagBytes(tag, wireType);
    var s := (key + payload)[..n];
    if n < |key| {
      assert s == key[..n];
      GroupCut(key, n);
      NoKey(s);
      NoFieldThere(d, s, p);
    } else {
      var part := payload[..n - |key|];
      assert s == key + part;
      ReadLongKey(tag, wireType, part);
      SkipCut(wireType, payload, n - |key|);
      OneIs(d, s, 8 * tag + wireType, part, p);
      var i := FieldWithTag(d, tag);
      if i.Some? && DecodeField(d.fields[i.value], wireType, part, p.m[i.value]).Ok? {
        RequiredFields.DecodedLikeSkipped(d.fields[i.value], wireType, part, p.m[i.value]);
      }
      AllFromOne(d, s, p);
    }
  }

  lemma NoFieldThere(d: MsgDesc, s: bytes, p: Progress)
    requires |p.m| == |d.fields| && s != [] && V.ReadVarint32(s) == Fail
    ensures DecodeAll(d, s, p) == None
  {
    hide V.ReadVarint32, DecodeField, Skip, FieldWithTag;
  }

  /** An empty value of a bytes field of fixed length stands for zeros. */
  lemma EmptyMeansZeros(n: nat, s: bytes, prev: Value)
    ensures DecodeItem(FixedBytes, n, [0] + s, prev).Ok?
    ensures var r := DecodeItem(FixedBytes, n, [0] + s, prev);
      r.rest == s && r.value.VBytes? && |r.value.b| == n && forall i :: 0 <= i < n ==> r.value.b[i] == 0
  {
    var g: bytes := [0];
    assert V.GroupValue(g) == 0;
    V.ReadsAreLocal(g, s);
  }

  /** Every number but zero is true. */
  lemma NonzeroIsTrue(u: nat, s: bytes)
    requires u < TWO_32
    ensures DecodeItem(Bool, 1, V.VarintBytes(u) + s, VInt(0)) == Ok(VInt(if u == 0 then 0 else 1), s)
  {
    V.VarintRoundTrip32(u, s);
    hide V.VarintBytes, V.ReadVarint32;
  }
}
