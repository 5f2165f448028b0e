/** Decoding what the encoder wrote gives the same message back. */
module RoundTrip {
  import opened Bytes
  import opened Descriptor
  import opened Wire
  import V = Varint

  // ---- numbers and strings -------------------------------------------------

  lemma {:induction false} LittleEndianRoundTrip(v: nat, n: nat)
    requires v < Pow2(8 * n)
    ensures FromLittleEndian(LittleEndian(v, n)) == v
  {
    if n > 0 {
      assert Pow2(8 * n) == 256 * Pow2(8 * (n - 1)) by {
        assert Pow2(8 * n) == 2 * Pow2(8 * n - 1);
        Pow2Seven(8 * n - 8);
      }
      LittleEndianRoundTrip(v / 256, n - 1);
      assert LittleEndian(v, n)[1..] == LittleEndian(v / 256, n - 1);
    }
  }

  lemma FixedWidths()
    ensures Pow2(32) == TWO_32 && Pow2(64) == TWO_64
  {
    V.PowersOfTwo();
    assert Pow2(32) == 16 * Pow2(28);
    assert Pow2(64) == 2 * Pow2(63);
  }

  lemma DelimitedRoundTrip(b: bytes, t: bytes)
    requires |b| < TWO_32
    ensures TakeDelimited(Delimited(b) + t) == Ok(b, t)
    ensures V.ReadVarint32(Delimited(b) + t) == Ok(|b|, b + t)
    ensures (b + t)[..|b|] == b && (b + t)[|b|..] == t
  {
    assert Delimited(b) + t == V.VarintBytes(|b|) + (b + t);
    V.VarintRoundTrip32(|b|, b + t);
  }

  lemma NarrowSigned(v: int)
    requires -0x8000_0000 <= v < 0x8000_0000
    ensures V.ToSigned32(V.ToUnsigned64(v)) == v
  {
    if v < 0 {
      V.SignExtendedValue(v + 0x1_0000_0000_0000_0000);
    }
  }

  lemma SignedBack(dataSize: nat, v: int)
    requires dataSize in {1, 2, 4, 8} && InSigned(v, dataSize)
    ensures Signed(V.ToUnsigned64(v), dataSize) == v
  {
    if dataSize != 8 {
      hide V.ToSigned32, V.ToUnsigned64;
      NarrowSigned(v);
    }
  }

  /** Whatever pb_enc_varint is given, pb_dec_varint recovers, through the cut to 32 bits and the range check. */
  lemma NumberFromVarint(t: LType, dataSize: nat, v: int)
    requires t.Varint? || t.UVarint? || t.SVarint?
    requires ItemOk(t, dataSize, VInt(v))
    ensures FromVarint(t, dataSize, VarintArgument(t, v)) == Some(v)
  {
    assert dataSize in {1, 2, 4, 8};
    if t.SVarint? {
      V.ZigZagRoundTrip(v);
    } else if t.Varint? {
      SignedBack(dataSize, v);
    }
    hide V.ZigZag, V.UnZigZag, V.ToUnsigned64, Signed;
  }

  lemma NumberRoundTrip(t: LType, dataSize: nat, v: Value, s: bytes)
    requires t.Packable() && SizeAllowed(t, dataSize) && ItemOk(t, dataSize, v)
    ensures EncodeItem(t, dataSize, v).Some?
    ensures DecodeNumber(t, dataSize, EncodeItem(t, dataSize, v).value + s) == Ok(v, s)
  {
    var b := EncodeItem(t, dataSize, v).value;
    if t.Fixed32? || t.Fixed64? {
      hide Pow2, LittleEndian, FromLittleEndian;
      FixedWidths();
      LittleEndianRoundTrip(v.i, dataSize);
      assert (b + s)[..dataSize] == b && (b + s)[dataSize..] == s;
    } else if t.Bool? {
      V.VarintRoundTrip32(v.i, s);
    } else {
      V.VarintRoundTrip64(VarintArgument(t, v.i), s);
      NumberFromVarint(t, dataSize, v.i);
    }
  }

  // ---- one item --------------------------------------------------------------

  /** A length-prefixed array is read back whole. */
  lemma ArrayRoundTrip(t: LType, dataSize: nat, b: bytes, prev: Value, s: bytes)
    requires t.ByteArray? || t.String? || t.FixedBytes?
    requires dataSize < 0x1_0000
    requires t.ByteArray? ==> |b| + 2 <= dataSize
    requires t.String? ==> |b| + 1 <= dataSize
    requires t.FixedBytes? ==> |b| == dataSize
    ensures DecodeItem(t, dataSize, Delimited(b) + s, prev) == Ok(VBytes(b), s)
  {
    DelimitedRoundTrip(b, s);
    if dataSize == 0 {
      assert t.FixedBytes? ==> b == Zeros(dataSize) && b + s == s;
    }
  }

  // ---- lengths that fit 32 bits ------------------------------------------------

  /** Only submessages can be too long for the 32 bits of a length; the sizes of the other arrays are 16 bits wide. */
  ghost predicate LengthFits(t: LType, v: Value) {
    (t.Submessage? && v.VMsg? && StructOk(t.desc, v.slots) && EncodeStruct(t.desc, v.slots).Some?)
      ==> |EncodeStruct(t.desc, v.slots).value| < TWO_32
  }

  ghost predicate AllFit(t: LType, items: seq<Value>) {
    forall k :: 0 <= k < |items| ==> LengthFits(t, items[k])
  }

  /** Every submessage in the struct is below 2^32 bytes; the struct itself may be longer. */
  ghost predicate LengthsFit(d: MsgDesc, m: Slots)
    requires |m| == |d.fields|
  {
    forall i :: 0 <= i < |m| ==> AllFit(d.fields[i].ltype, m[i])
  }

  lemma SubmessageIsLonger(t: LType, dataSize: nat, v: Value)
    requires ItemOk(t, dataSize, v) && EncodeItem(t, dataSize, v).Some? && |EncodeItem(t, dataSize, v).value| < TWO_32
    ensures LengthFits(t, v)
  {
  }

  lemma {:induction false} ShortTagged(f: FieldDesc, items: seq<Value>)
    requires forall k :: 0 <= k < |items| ==> ItemOk(f.ltype, f.dataSize, items[k])
    requires EncodeTagged(f, items).Some? && |EncodeTagged(f, items).value| < TWO_32
    ensures AllFit(f.ltype, items)
    decreases |items|
  {
    hide ItemOk, LengthFits, TagBytes, EncodeItem;
    if items != [] {
      var item, rest := TaggedCons(f, items, []);
      SubmessageIsLonger(f.ltype, f.dataSize, items[0]);
      ShortTagged(f, items[1..]);
      assert forall k :: 0 < k < |items| ==> items[k] == items[1..][k - 1];
    }
  }

  lemma NumbersFit(t: LType, items: seq<Value>)
    requires !t.Submessage?
    ensures AllFit(t, items)
  {
  }

  lemma ShortField(f: FieldDesc, slot: seq<Value>)
    requires SlotOk(f, slot) && EncodeField(f, slot).Some? && |EncodeField(f, slot).value| < TWO_32
    ensures AllFit(f.ltype, slot)
  {
    hide ItemOk, LengthFits, TagBytes, EncodeItem;
    if f.ltype.Packable() {
      NumbersFit(f.ltype, slot);
    } else {
      ShortTagged(f, slot);
    }
  }

  lemma {:induction false} ShortFields(d: MsgDesc, m: Slots, i: nat)
    requires StructOk(d, m) && i <= |m| && EncodeFrom(d, m, i).Some? && |EncodeFrom(d, m, i).value| < TWO_32
    ensures forall j :: i <= j < |m| ==> AllFit(d.fields[j].ltype, m[j])
    decreases |m| - i
  {
    hide ItemOk, AllFit, EncodeField;
    if i < |m| {
      assert SlotOk(d.fields[i], m[i]);
      ShortField(d.fields[i], m[i]);
      ShortFields(d, m, i + 1);
    }
  }

  /** In a struct below 2^32 bytes all submessages are. */
  lemma ShortStruct(d: MsgDesc, m: Slots)
    requires StructOk(d, m) && EncodeStruct(d, m).Some? && |EncodeStruct(d, m).value| < TWO_32
    ensures LengthsFit(d, m)
  {
    hide StructOk, AllFit, EncodeFrom;
    ShortFields(d, m, 0);
  }

  /** A packed number takes at most ten bytes. */
  lemma NumberLength(t: LType, dataSize: nat, v: Value)
    requires t.Packable() && SizeAllowed(t, dataSize) && ItemOk(t, dataSize, v)
    ensures EncodeItem(t, dataSize, v).Some? && |EncodeItem(t, dataSize, v).value| <= 10
  {
    if !t.Fixed32? && !t.Fixed64? {
      V.VarintFitsTenBytes(VarintArgument(t, v.i));
    }
  }

  lemma {:induction false} PackedIsShort(f: FieldDesc, items: seq<Value>)
    requires f.ltype.Packable() && SizeAllowed(f.ltype, f.dataSize)
    requires forall k :: 0 <= k < |items| ==> ItemOk(f.ltype, f.dataSize, items[k])
    ensures EncodeBare(f, items).Some? && |EncodeBare(f, items).value| <= 10 * |items|
    decreases |items|
  {
    hide ItemOk, SizeAllowed, EncodeItem;
    if items != [] {
      NumberLength(f.ltype, f.dataSize, items[0]);
      PackedIsShort(f, items[1..]);
    }
  }

  // ---- items ---------------------------------------------------------------------

  /** An item is read back with the same meaning; a submessage, into a struct set to defaults. */
  lemma {:induction false} ItemRoundTrip(t: LType, dataSize: nat, v: Value, prev: Value, s: bytes)
    requires SizeAllowed(t, dataSize) && dataSize < 0x1_0000 && ItemOk(t, dataSize, v)
    requires t.Submessage? ==> WfDesc(t.desc) && prev == DefaultItem(t, dataSize)
    requires EncodeItem(t, dataSize, v).Some? && LengthFits(t, v)
    ensures DecodeItem(t, dataSize, EncodeItem(t, dataSize, v).value + s, prev) == Ok(Meaning(t, v), s)
    decreases t, 2
  {
    if t.Packable() {
      NumberRoundTrip(t, dataSize, v, s);
    } else if t.Submessage? {
      var c := EncodeStruct(t.desc, v.slots).value;
      DelimitedRoundTrip(c, s);
      ShortStruct(t.desc, v.slots);
      StructRoundTrip(t.desc, v.slots);
    } else {
      ArrayRoundTrip(t, dataSize, if t.String? then Text(v.b) else v.b, prev, s);
    }
  }

  // ---- packed and tagged items -------------------------------------------------

  lemma PackedStep(f: FieldDesc, v: Value, b: bytes, rest: bytes, slot: seq<Value>)
    requires f.ltype.Packable() && b != []
    requires DecodeNumber(f.ltype, f.dataSize, b + rest) == Ok(v, rest)
    ensures DecodePacked(f, b + rest, slot) == if |slot| >= f.arraySize then None else DecodePacked(f, rest, slot + [v])
  {
  }

  lemma BareCons(f: FieldDesc, items: seq<Value>) returns (a: bytes, b: bytes)
    requires f.ltype.Packable() && SizeAllowed(f.ltype, f.dataSize)
    requires items != [] && forall k :: 0 <= k < |items| ==> ItemOk(f.ltype, f.dataSize, items[k])
    requires EncodeBare(f, items[1..]).Some?
    ensures EncodeBare(f, items[1..]).value == b && EncodeBare(f, items) == Some(a + b)
    ensures a != [] && DecodeNumber(f.ltype, f.dataSize, a + b) == Ok(items[0], b)
  {
    b := EncodeBare(f, items[1..]).value;
    NumberRoundTrip(f.ltype, f.dataSize, items[0], b);
    a := EncodeItem(f.ltype, f.dataSize, items[0]).value;
  }

  lemma NothingPacked(f: FieldDesc, slot: seq<Value>)
    requires f.ltype.Packable()
    ensures EncodeBare(f, []) == Some([]) && DecodePacked(f, [], slot) == Some(slot)
  {
  }

  lemma {:induction false} PackedRoundTrip(f: FieldDesc, items: seq<Value>, slot: seq<Value>)
    requires f.ltype.Packable() && SizeAllowed(f.ltype, f.dataSize)
    requires forall k :: 0 <= k < |items| ==> ItemOk(f.ltype, f.dataSize, items[k])
    ensures EncodeBare(f, items).Some?
    ensures DecodePacked(f, EncodeBare(f, items).value, slot)
         == if |slot| + |items| <= f.arraySize || items == [] then Some(slot + items) else None
    decreases |items|
  {
    hide *;
    if items == [] {
      NothingPacked(f, slot);
      assert slot + items == slot;
    } else {
      var v := items[0];
      PackedRoundTrip(f, items[1..], slot + [v]);
      var a, b := BareCons(f, items);
      PackedStep(f, v, a, b, slot);
      assert slot + items == slot + [v] + items[1..];
    }
  }

  lemma ReadKey(tag: nat, wireType: nat, s: bytes)
    requires wireType < 8 && tag < 0x1_0000
    ensures V.ReadVarint32(TagBytes(tag, wireType) + s) == Ok(8 * tag + wireType, s)
  {
    V.VarintRoundTrip32(8 * tag + wireType, s);
  }

  lemma KnownKey(d: MsgDesc, i: nat, wireType: nat, s: bytes, rest: bytes, p: Progress)
    requires WfDesc(d) && i < |d.fields| == |p.m| && wireType < 8
    requires V.ReadVarint32(s) == Ok(8 * d.fields[i].tag + wireType, rest)
    requires DecodeField(d.fields[i], wireType, rest, p.m[i]).Ok?
    ensures DecodeOne(d, s, p) == var r := DecodeField(d.fields[i], wireType, rest, p.m[i]); Ok(Advance(d, p, i, r.value), r.rest)
  {
    assert WfField(d.fields[i]);
    FieldWithTagIs(d, i);
  }

  /** The main loop reads a tag it knows and goes on behind the field. */
  lemma KnownFieldStep(d: MsgDesc, i: nat, wireType: nat, payload: bytes, t: bytes, p: Progress, slot: seq<Value>)
    requires WfDesc(d) && i < |d.fields| == |p.m| && wireType < 8
    requires DecodeField(d.fields[i], wireType, payload + t, p.m[i]) == Ok(slot, t)
    ensures DecodeAll(d, TagBytes(d.fields[i].tag, wireType) + payload + t, p) == DecodeAll(d, t, Advance(d, p, i, slot))
  {
    var f := d.fields[i];
    assert WfField(f);
    var s := TagBytes(f.tag, wireType) + payload + t;
    assert s == TagBytes(f.tag, wireType) + (payload + t);
    ReadKey(f.tag, wireType, payload + t);
    KnownKey(d, i, wireType, s, payload + t, p);
  }

  /** Storing at i what is there already at all other indices. */
  lemma StoreIs(d: MsgDesc, m: Slots, i: nat, slot: seq<Value>, m': Slots)
    requires i < |m| == |d.fields| == |m'|
    requires m'[i] == slot
    requires forall j :: 0 <= j < |m| && j != i ==> m'[j] == m[j]
    requires forall j :: 0 <= j < |m| && j != i && SameUnion(d.fields[i], d.fields[j]) ==> m[j] == []
    ensures Store(d, m, i, slot) == m'
  {
  }

  lemma TaggedCons(f: FieldDesc, items: seq<Value>, t: bytes) returns (item: bytes, rest: bytes)
    requires items != [] && forall k :: 0 <= k < |items| ==> ItemOk(f.ltype, f.dataSize, items[k])
    requires EncodeTagged(f, items).Some?
    ensures EncodeItem(f.ltype, f.dataSize, items[0]) == Some(item)
    ensures EncodeTagged(f, items[1..]) == Some(rest)
    ensures EncodeTagged(f, items).value + t == TagBytes(f.tag, WireType(f.ltype)) + item + (rest + t)
    ensures |item| + |rest| < |EncodeTagged(f, items).value|
  {
    item, rest := EncodeItem(f.ltype, f.dataSize, items[0]).value, EncodeTagged(f, items[1..]).value;
  }

  /** One tagged item of a repeated field. */
  lemma AppendStep(d: MsgDesc, i: nat, item: bytes, t: bytes, p: Progress, v: Value)
    requires WfDesc(d) && i < |d.fields| == |p.m|
    requires d.fields[i].htype.Repeated?
    requires WireType(d.fields[i].ltype) != WT_STRING || !d.fields[i].ltype.Packable()
    requires |p.m[i]| < d.fields[i].arraySize
    requires DecodeItem(d.fields[i].ltype, d.fields[i].dataSize, item + t, DefaultItem(d.fields[i].ltype, d.fields[i].dataSize))
          == Ok(v, t)
    ensures DecodeAll(d, TagBytes(d.fields[i].tag, WireType(d.fields[i].ltype)) + item + t, p)
         == DecodeAll(d, t, p.(m := p.m[i := p.m[i] + [v]]))
  {
    var f := d.fields[i];
    KnownFieldStep(d, i, WireType(f.ltype), item, t, p, p.m[i] + [v]);
    StoreIs(d, p.m, i, p.m[i] + [v], p.m[i := p.m[i] + [v]]);
  }

  /** What the items of a repeated field leave in the struct. */
  ghost function Appended(d: MsgDesc, i: nat, items: seq<Value>, p: Progress): (q: Progress)
    requires i < |d.fields| == |p.m|
    ensures |q.m| == |d.fields|
  {
    p.(m := p.m[i := p.m[i] + SlotMeaning(d.fields[i], items)])
  }

  lemma AppendedNil(d: MsgDesc, i: nat, p: Progress)
    requires i < |d.fields| == |p.m|
    ensures Appended(d, i, [], p) == p
  {
    assert p.m[i] + SlotMeaning(d.fields[i], []) == p.m[i];
  }

  lemma AppendedCons(d: MsgDesc, i: nat, items: seq<Value>, p: Progress)
    requires i < |d.fields| == |p.m| && items != []
    ensures Appended(d, i, items[1..], Appended(d, i, items[..1], p)) == Appended(d, i, items, p)
  {
    var f := d.fields[i];
    assert SlotMeaning(f, items) == SlotMeaning(f, items[..1]) + SlotMeaning(f, items[1..]);
    assert p.m[i] + SlotMeaning(f, items[..1]) + SlotMeaning(f, items[1..]) == p.m[i] + SlotMeaning(f, items);
  }

  lemma {:induction false} TaggedHead(d: MsgDesc, i: nat, items: seq<Value>, rest: bytes, t: bytes, p: Progress)
    requires WfDesc(d) && i < |d.fields| == |p.m| && d.fields[i].htype.Repeated? && !d.fields[i].ltype.Packable()
    requires items != [] && forall k :: 0 <= k < |items| ==> ItemOk(d.fields[i].ltype, d.fields[i].dataSize, items[k])
    requires EncodeTagged(d.fields[i], items).Some? && AllFit(d.fields[i].ltype, items)
    requires |p.m[i]| < d.fields[i].arraySize
    requires EncodeTagged(d.fields[i], items[1..]) == Some(rest)
    ensures DecodeAll(d, EncodeTagged(d.fields[i], items).value + t, p)
         == DecodeAll(d, rest + t, Appended(d, i, items[..1], p))
    decreases d, 4
  {
    var f := d.fields[i];
    assert WfField(f);
    var item, _ := TaggedCons(f, items, t);
    var v := Meaning(f.ltype, items[0]);
    ItemRoundTrip(f.ltype, f.dataSize, items[0], DefaultItem(f.ltype, f.dataSize), rest + t);
    AppendStep(d, i, item, rest + t, p, v);
    assert SlotMeaning(f, items[..1]) == [v];
  }

  /** Items of a repeated field, each behind its tag, are appended one by one. */
  lemma {:induction false} TaggedRoundTrip(d: MsgDesc, i: nat, items: seq<Value>, t: bytes, p: Progress)
    requires WfDesc(d) && i < |d.fields| == |p.m| && d.fields[i].htype.Repeated? && !d.fields[i].ltype.Packable()
    requires forall k :: 0 <= k < |items| ==> ItemOk(d.fields[i].ltype, d.fields[i].dataSize, items[k])
    requires EncodeTagged(d.fields[i], items).Some? && AllFit(d.fields[i].ltype, items)
    requires |p.m[i]| + |items| <= d.fields[i].arraySize
    ensures DecodeAll(d, EncodeTagged(d.fields[i], items).value + t, p) == DecodeAll(d, t, Appended(d, i, items, p))
    decreases d, 5, |items|
  {
    hide ItemOk;
    if items == [] {
      assert [] + t == t;
      AppendedNil(d, i, p);
    } else {
      var _, rest := TaggedCons(d.fields[i], items, t);
      TaggedHead(d, i, items, rest, t, p);
      TaggedRoundTrip(d, i, items[1..], t, Appended(d, i, items[..1], p));
      AppendedCons(d, i, items, p);
    }
  }

  // ---- fields --------------------------------------------------------------------

  lemma {:induction false} NumberMeaning(f: FieldDesc, slot: seq<Value>)
    requires f.ltype.Packable()
    ensures SlotMeaning(f, slot) == slot
  {
    assert forall k :: 0 <= k < |slot| ==> Meaning(f.ltype, slot[k]) == slot[k];
  }

  lemma PackedFieldRoundTrip(d: MsgDesc, i: nat, slot: seq<Value>, t: bytes, p: Progress)
    requires WfDesc(d) && i < |d.fields| == |p.m| && SlotOk(d.fields[i], slot)
    requires d.fields[i].htype.Repeated? && d.fields[i].ltype.Packable() && slot != []
    requires EncodeField(d.fields[i], slot).Some?
    requires p.m[i] == []
    ensures DecodeAll(d, EncodeField(d.fields[i], slot).value + t, p) == DecodeAll(d, t, p.(m := p.m[i := slot]))
  {
    var f := d.fields[i];
    assert WfField(f);
    var b := EncodeBare(f, slot).value;
    PackedIsShort(f, slot);
    PackedRoundTrip(f, slot, []);
    assert [] + slot == slot;
    DelimitedRoundTrip(b, t);
    KnownFieldStep(d, i, WT_STRING, Delimited(b), t, p, slot);
    StoreIs(d, p.m, i, slot, p.m[i := slot]);
  }

  /** What the required-field bookkeeping adds for field i. */
  ghost function Seen(d: MsgDesc, i: nat): set<nat>
    requires i < |d.fields|
  {
    if d.fields[i].htype.Required? then {i} else {}
  }

  lemma {:induction false} SingleDecoded(f: FieldDesc, v: Value, slot: seq<Value>, t: bytes)
    requires WfField(f) && !f.htype.Repeated? && slot == DefaultSlot(f)
    requires ItemOk(f.ltype, f.dataSize, v) && EncodeItem(f.ltype, f.dataSize, v).Some?
    requires LengthFits(f.ltype, v)
    ensures DecodeField(f, WireType(f.ltype), EncodeItem(f.ltype, f.dataSize, v).value + t, slot)
         == Ok([Meaning(f.ltype, v)], t)
    decreases f, 3
  {
    ItemRoundTrip(f.ltype, f.dataSize, v, DefaultItem(f.ltype, f.dataSize), t);
  }

  lemma SingleFieldRoundTrip(d: MsgDesc, i: nat, v: Value, t: bytes, p: Progress)
    requires WfDesc(d) && i < |d.fields| == |p.m| && SlotOk(d.fields[i], [v])
    requires !d.fields[i].htype.Repeated?
    requires EncodeField(d.fields[i], [v]).Some? && LengthFits(d.fields[i].ltype, v)
    requires p.m[i] == DefaultSlot(d.fields[i])
    requires forall j :: 0 <= j < |p.m| && j != i && SameUnion(d.fields[i], d.fields[j]) ==> p.m[j] == []
    ensures DecodeAll(d, EncodeField(d.fields[i], [v]).value + t, p)
         == DecodeAll(d, t, Progress(p.m[i := [Meaning(d.fields[i].ltype, v)]], p.seen + Seen(d, i)))
    decreases d, 4
  {
    var f := d.fields[i];
    assert WfField(f) && WireType(f.ltype) < 8;
    hide ItemOk, SlotOk, DecodeAll, DecodeField, DefaultItem, EncodeItem, EncodeField, WfField, SizeAllowed, Fits, Meaning, StructOk;
    SingleItem(f, v);
    SingleDecoded(f, v, p.m[i], t);
    var slot := [Meaning(f.ltype, v)];
    KnownFieldStep(d, i, WireType(f.ltype), EncodeItem(f.ltype, f.dataSize, v).value, t, p, slot);
    StoreIs(d, p.m, i, slot, p.m[i := slot]);
    assert p.seen + {} == p.seen;
  }

  lemma FieldRoundTrip(d: MsgDesc, i: nat, slot: seq<Value>, t: bytes, p: Progress)
    requires WfDesc(d) && i < |d.fields| == |p.m| && SlotOk(d.fields[i], slot)
    requires EncodeField(d.fields[i], slot).Some? && AllFit(d.fields[i].ltype, slot)
    requires p.m[i] == DefaultSlot(d.fields[i])
    requires slot != [] ==> forall j :: 0 <= j < |p.m| && j != i && SameUnion(d.fields[i], d.fields[j]) ==> p.m[j] == []
    ensures DecodeAll(d, EncodeField(d.fields[i], slot).value + t, p)
         == DecodeAll(d, t, Progress(p.m[i := SlotMeaning(d.fields[i], slot)], p.seen + Seen(d, i)))
    decreases d, 5
  {
    var f := d.fields[i];
    if slot == [] {
      assert [] + t == t;
      assert p.m[i := SlotMeaning(f, slot)] == p.m;
      assert p.seen + Seen(d, i) == p.seen;
    } else if !f.htype.Repeated? {
      assert slot == [slot[0]];
      SingleFieldRoundTrip(d, i, slot[0], t, p);
      assert SlotMeaning(f, slot) == [Meaning(f.ltype, slot[0])];
    } else {
      assert p.seen + Seen(d, i) == p.seen;
      if f.ltype.Packable() {
        NumberMeaning(f, slot);
        PackedFieldRoundTrip(d, i, slot, t, p);
      } else {
        TaggedRoundTrip(d, i, slot, t, p);
        assert [] + SlotMeaning(f, slot) == SlotMeaning(f, slot);
      }
    }
  }

  /** The struct as it is when the fields before i have been read: the rest is still at its defaults. */
  ghost function Partial(d: MsgDesc, m: Slots, i: nat): (r: Slots)
    requires |m| == |d.fields|
    ensures |r| == |m|
    ensures forall j :: 0 <= j < |m| ==> r[j] == if j < i then SlotMeaning(d.fields[j], m[j]) else DefaultSlot(d.fields[j])
  {
    seq(|m|, j requires 0 <= j < |m| => if j < i then SlotMeaning(d.fields[j], m[j]) else DefaultSlot(d.fields[j]))
  }

  ghost function RequiredBelow(d: MsgDesc, i: nat): set<nat>
    requires i <= |d.fields|
  {
    set j: nat | j < i && d.fields[j].htype.Required?
  }

  /** The first field and the others. */
  lemma FieldsCons(d: MsgDesc, m: Slots, i: nat)
    requires StructOk(d, m) && i < |m| && EncodeFrom(d, m, i).Some? && LengthsFit(d, m)
    ensures SlotOk(d.fields[i], m[i]) && EncodeField(d.fields[i], m[i]).Some? && AllFit(d.fields[i].ltype, m[i])
    ensures EncodeFrom(d, m, i + 1).Some?
    ensures EncodeFrom(d, m, i).value == EncodeField(d.fields[i], m[i]).value + EncodeFrom(d, m, i + 1).value
  {
    hide ItemOk, EncodeField, AllFit;
    assert SlotOk(d.fields[i], m[i]);
  }

  /** Field i is next: it and the members of its union are at their defaults. */
  lemma PartialStep(d: MsgDesc, m: Slots, i: nat)
    requires StructOk(d, m) && i < |m|
    ensures Partial(d, m, i)[i] == DefaultSlot(d.fields[i])
    ensures m[i] != [] ==> forall j :: 0 <= j < |m| && j != i && SameUnion(d.fields[i], d.fields[j]) ==> Partial(d, m, i)[j] == []
    ensures Partial(d, m, i)[i := SlotMeaning(d.fields[i], m[i])] == Partial(d, m, i + 1)
    ensures RequiredBelow(d, i) + Seen(d, i) == RequiredBelow(d, i + 1)
  {
    hide ItemOk, SlotOk;
  }

  lemma {:induction false} FieldsRoundTrip(d: MsgDesc, m: Slots, i: nat)
    requires WfDesc(d) && StructOk(d, m) && i <= |m|
    requires EncodeFrom(d, m, i).Some? && LengthsFit(d, m)
    ensures DecodeAll(d, EncodeFrom(d, m, i).value, Progress(Partial(d, m, i), RequiredBelow(d, i)))
         == Some(Progress(StructMeaning(d, m), RequiredBelow(d, |m|)))
    decreases d, 6, |m| - i
  {
    assert |m| == |d.fields|;
    if i == |m| {
      assert Partial(d, m, i) == StructMeaning(d, m);
    } else {
      hide *;
      FieldsCons(d, m, i);
      PartialStep(d, m, i);
      FieldRoundTrip(d, i, m[i], EncodeFrom(d, m, i + 1).value, Progress(Partial(d, m, i), RequiredBelow(d, i)));
      FieldsRoundTrip(d, m, i + 1);
    }
  }

  /**
   * For every descriptor tree and every struct that the encoder accepts, decoding the bytes it writes
   * succeeds and gives a struct of the same meaning, however long it is, if its submessages are below 2^32 bytes.
   */
  lemma {:induction false} StructRoundTrip(d: MsgDesc, m: Slots)
    requires WfDesc(d) && StructOk(d, m)
    requires EncodeStruct(d, m).Some? && LengthsFit(d, m)
    ensures DecodeStruct(d, EncodeStruct(d, m).value, DefaultStruct(d)) == Some(StructMeaning(d, m))
    decreases d, 7
  {
    FieldsRoundTrip(d, m, 0);
    assert Partial(d, m, 0) == DefaultStruct(d);
    assert RequiredBelow(d, 0) == {};
  }

  /** A delimited message is read back from in front of whatever follows it, and what follows is left. */
  lemma DelimitedStructRoundTrip(d: MsgDesc, m: Slots, t: bytes)
    requires WfDesc(d) && StructOk(d, m)
    requires EncodeStruct(d, m).Some? && |EncodeStruct(d, m).value| < TWO_32
    ensures DecodeDelimited(d, EncodeDelimited(d, m).value + t, DefaultStruct(d)) == Ok(StructMeaning(d, m), t)
  {
    DelimitedRoundTrip(EncodeStruct(d, m).value, t);
    ShortStruct(d, m);
    StructRoundTrip(d, m);
  }
}
