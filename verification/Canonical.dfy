/** What the decoder leaves in a struct fits the struct, and the encoder accepts exactly such structs. */
module Canonical {
  import opened Bytes
  import opened Descriptor
  import opened Wire
  import RoundTrip
  import V = Varint

  // ---- what fits the arrays of a struct ------------------------------------------

  /** The item fits the array that the struct has for it. */
  ghost predicate ItemFits(t: LType, dataSize: nat, v: Value)
    decreases t, 2
  {
    match t
    case ByteArray => v.VBytes? && |v.b| + 2 <= dataSize
    case String => v.VBytes? && |Text(v.b)| + 1 <= dataSize
    case Submessage(d) => v.VMsg? && StructFits(d, v.slots)
    case _ => true
  }

  ghost predicate ItemsFit(f: FieldDesc, items: seq<Value>)
    decreases f, 3
  {
    forall k :: 0 <= k < |items| ==> ItemFits(f.ltype, f.dataSize, items[k])
  }

  ghost predicate SlotFits(f: FieldDesc, slot: seq<Value>)
    decreases f, 4
  {
    (f.htype.Repeated? ==> |slot| <= f.arraySize) && ItemsFit(f, slot)
  }

  ghost predicate StructFits(d: MsgDesc, m: Slots)
    decreases d, 5
  {
    |m| == |d.fields| && forall i :: 0 <= i < |m| ==> SlotFits(d.fields[i], m[i])
  }

  // ---- the encoder refuses exactly what does not fit --------------------------------

  lemma {:induction false} ItemEncodes(t: LType, dataSize: nat, v: Value)
    requires ItemOk(t, dataSize, v)
    requires t.Submessage? ==> WfDesc(t.desc)
    ensures EncodeItem(t, dataSize, v).Some? <==> ItemFits(t, dataSize, v)
    decreases t, 2
  {
    if t.Submessage? {
      EncodesIffFits(t.desc, v.slots);
    }
  }

  lemma {:induction false} TaggedEncodes(f: FieldDesc, items: seq<Value>)
    requires WfField(f)
    requires forall k :: 0 <= k < |items| ==> ItemOk(f.ltype, f.dataSize, items[k])
    ensures EncodeTagged(f, items).Some? <==> ItemsFit(f, items)
    decreases f, 3, |items|
  {
    if items != [] {
      ItemEncodes(f.ltype, f.dataSize, items[0]);
      TaggedEncodes(f, items[1..]);
      hide ItemOk, ItemFits, EncodeItem;
      assert ItemsFit(f, items) <==> ItemFits(f.ltype, f.dataSize, items[0]) && ItemsFit(f, items[1..]) by {
        assert forall k :: 0 < k < |items| ==> items[k] == items[1..][k - 1];
      }
    }
  }

  lemma NumbersFit(f: FieldDesc, items: seq<Value>)
    requires f.ltype.Packable()
    ensures ItemsFit(f, items)
  {
    forall k | 0 <= k < |items| ensures ItemFits(f.ltype, f.dataSize, items[k]) {
    }
  }

  lemma {:induction false} FieldEncodes(f: FieldDesc, slot: seq<Value>)
    requires WfField(f) && SlotOk(f, slot)
    ensures EncodeField(f, slot).Some? <==> SlotFits(f, slot)
    decreases f, 4
  {
    if f.htype.Repeated? && f.ltype.Packable() && slot != [] {
      RoundTrip.PackedRoundTrip(f, slot, []);
      NumbersFit(f, slot);
    } else {
      TaggedEncodes(f, slot);
      hide ItemsFit, EncodeTagged, WfField;
    }
  }

  lemma {:induction false} FieldsEncode(d: MsgDesc, m: Slots, i: nat)
    requires WfDesc(d) && StructOk(d, m) && i <= |m|
    ensures EncodeFrom(d, m, i).Some? <==> forall j :: i <= j < |m| ==> SlotFits(d.fields[j], m[j])
    decreases d, 5, |m| - i
  {
    if i < |m| {
      FieldEncodes(d.fields[i], m[i]);
      FieldsEncode(d, m, i + 1);
    }
  }

  /** pb_encode succeeds exactly if every string, byte array and repeated field fits its array, at every depth. */
  lemma {:induction false} EncodesIffFits(d: MsgDesc, m: Slots)
    requires WfDesc(d) && StructOk(d, m)
    ensures EncodeStruct(d, m).Some? <==> StructFits(d, m)
    decreases d, 6
  {
    FieldsEncode(d, m, 0);
  }

  // ---- the decoder leaves only what fits ----------------------------------------------

  lemma FourBytes(b: bytes)
    requires |b| >= 4
    ensures FromLittleEndian(b)
         == b[0] as int + 0x100 * b[1] as int + 0x1_0000 * b[2] as int + 0x100_0000 * b[3] as int
          + 0x1_0000_0000 * FromLittleEndian(b[4..])
  {
    assert FromLittleEndian(b[1..]) == b[1] + 256 * FromLittleEndian(b[1..][1..]);
    assert b[1..][1..] == b[2..];
    assert FromLittleEndian(b[2..]) == b[2] + 256 * FromLittleEndian(b[2..][1..]);
    assert b[2..][1..] == b[3..];
    assert FromLittleEndian(b[3..]) == b[3] + 256 * FromLittleEndian(b[3..][1..]);
    assert b[3..][1..] == b[4..];
  }

  lemma EightBytes(b: bytes)
    requires |b| == 8
    ensures FromLittleEndian(b)
         == b[0] as int + 0x100 * b[1] as int + 0x1_0000 * b[2] as int + 0x100_0000 * b[3] as int + 0x1_0000_0000 * b[4] as int
          + 0x100_0000_0000 * b[5] as int + 0x1_0000_0000_0000 * b[6] as int + 0x100_0000_0000_0000 * b[7] as int
  {
    FourBytes(b);
    FourBytes(b[4..]);
    assert b[4..][4..] == [];
  }

  lemma LittleEndianBound(b: bytes)
    ensures |b| == 4 ==> FromLittleEndian(b) < TWO_32
    ensures |b| == 8 ==> FromLittleEndian(b) < TWO_64
  {
    if |b| == 4 {
      FourBytes(b);
    } else if |b| == 8 {
      EightBytes(b);
    }
  }

  /** An item of the right kind that fits. */
  ghost predicate Stored(t: LType, dataSize: nat, v: Value) {
    ItemOk(t, dataSize, v) && ItemFits(t, dataSize, v)
  }

  ghost predicate SlotStored(f: FieldDesc, slot: seq<Value>) {
    SlotOk(f, slot) && SlotFits(f, slot)
  }

  ghost predicate StructStored(d: MsgDesc, m: Slots) {
    StructOk(d, m) && StructFits(d, m)
  }

  lemma DecodedNumber(t: LType, dataSize: nat, s: bytes)
    requires t.Packable() && SizeAllowed(t, dataSize) && DecodeNumber(t, dataSize, s).Ok?
    ensures Stored(t, dataSize, DecodeNumber(t, dataSize, s).value)
  {
    hide V.ReadVarint32, V.ReadVarint64, V.UnZigZag, FromLittleEndian;
    if t.Fixed32? {
      LittleEndianBound(Take(s, 4).value);
    } else if t.Fixed64? {
      LittleEndianBound(Take(s, 8).value);
    }
  }

  lemma {:induction false} DefaultItemStored(t: LType, dataSize: nat)
    requires SizeAllowed(t, dataSize)
    requires t.Submessage? ==> WfDesc(t.desc)
    ensures Stored(t, dataSize, DefaultItem(t, dataSize))
    decreases t, 2
  {
    DefaultItemOk(t, dataSize);
    if t.Submessage? {
      DefaultStructStored(t.desc);
    }
  }

  lemma {:induction false} DefaultStructStored(d: MsgDesc)
    requires WfDesc(d)
    ensures StructStored(d, DefaultStruct(d))
    decreases d, 4
  {
    DefaultStructOk(d);
    forall i | 0 <= i < |d.fields| ensures SlotFits(d.fields[i], DefaultSlot(d.fields[i])) {
      var f := d.fields[i];
      assert WfField(f);
      DefaultItemStored(f.ltype, f.dataSize);
    }
  }

  lemma {:induction false} DecodedItem(t: LType, dataSize: nat, s: bytes, prev: Value)
    requires SizeAllowed(t, dataSize) && Stored(t, dataSize, prev)
    requires t.Submessage? ==> WfDesc(t.desc)
    requires DecodeItem(t, dataSize, s, prev).Ok?
    ensures Stored(t, dataSize, DecodeItem(t, dataSize, s, prev).value)
    decreases t, |s|, 2
  {
    if t.Packable() {
      DecodedNumber(t, dataSize, s);
    } else if t.Submessage? {
      DecodedStructFits(t.desc, TakeDelimited(s).value, prev.slots);
    }
  }

  lemma StoredAppend(f: FieldDesc, slot: seq<Value>, v: Value)
    requires f.htype.Repeated? && SlotStored(f, slot) && |slot| < f.arraySize
    requires Stored(f.ltype, f.dataSize, v)
    ensures SlotStored(f, slot + [v])
  {
    assert ItemsFit(f, slot);
    assert ItemsFit(f, slot + [v]);
  }

  lemma StoredSingle(f: FieldDesc, v: Value)
    requires !f.htype.Repeated? && Stored(f.ltype, f.dataSize, v)
    ensures SlotStored(f, [v])
  {
    assert ItemsFit(f, [v]);
  }

  lemma StoredItem(f: FieldDesc, slot: seq<Value>)
    requires SlotStored(f, slot)
    ensures slot != [] ==> Stored(f.ltype, f.dataSize, slot[0])
  {
    assert ItemsFit(f, slot);
  }

  lemma {:induction false} DecodedPacked(f: FieldDesc, s: bytes, slot: seq<Value>)
    requires WfField(f) && f.htype.Repeated? && f.ltype.Packable() && SlotStored(f, slot)
    requires DecodePacked(f, s, slot).Some?
    ensures SlotStored(f, DecodePacked(f, s, slot).value)
    decreases |s|
  {
    if s != [] {
      var r := DecodeNumber(f.ltype, f.dataSize, s);
      DecodedNumber(f.ltype, f.dataSize, s);
      assert |slot| < f.arraySize && DecodePacked(f, s, slot) == DecodePacked(f, r.rest, slot + [r.value]);
      hide DecodePacked, DecodeNumber, Stored, SlotStored, WfField;
      StoredAppend(f, slot, r.value);
      DecodedPacked(f, r.rest, slot + [r.value]);
    }
  }

  lemma {:induction false} DecodedField(f: FieldDesc, wireType: nat, s: bytes, slot: seq<Value>)
    requires WfField(f) && SlotStored(f, slot)
    requires DecodeField(f, wireType, s, slot).Ok?
    ensures SlotStored(f, DecodeField(f, wireType, s, slot).value)
    decreases f, |s|, 3
  {
    if f.htype.Repeated? && wireType == WT_STRING && f.ltype.Packable() {
      hide TakeDelimited, SlotStored, WfField;
      DecodedPacked(f, TakeDelimited(s).value, slot);
    } else {
      hide DefaultItem, DecodeItem, SizeAllowed, Fits;
      var prev, r := Existing(f, slot), DecodeItem(f.ltype, f.dataSize, s, Existing(f, slot));
      DefaultItemStored(f.ltype, f.dataSize);
      StoredItem(f, slot);
      hide Stored, SlotStored;
      DecodedItem(f.ltype, f.dataSize, s, prev);
      if f.htype.Repeated? {
        StoredAppend(f, slot, r.value);
      } else {
        StoredSingle(f, r.value);
      }
    }
  }

  lemma {:induction false} DecodedOne(d: MsgDesc, s: bytes, p: Progress)
    requires WfDesc(d) && StructStored(d, p.m) && DecodeOne(d, s, p).Ok?
    ensures StructStored(d, DecodeOne(d, s, p).value.m)
    decreases d, |s|, 4
  {
    var key, rest := V.ReadVarint32(s).value, V.ReadVarint32(s).rest;
    var i := FieldWithTag(d, key / 8);
    if i.Some? {
      var f := d.fields[i.value];
      assert WfField(f) && SlotStored(f, p.m[i.value]);
      DecodedField(f, key % 8, rest, p.m[i.value]);
    }
  }

  lemma {:induction false} DecodedAll(d: MsgDesc, s: bytes, p: Progress)
    requires WfDesc(d) && StructStored(d, p.m) && DecodeAll(d, s, p).Some?
    ensures StructStored(d, DecodeAll(d, s, p).value.m)
    decreases d, |s|, 5
  {
    if s != [] {
      var r := DecodeOne(d, s, p);
      assert DecodeAll(d, s, p) == DecodeAll(d, r.rest, r.value);
      DecodedOne(d, s, p);
      hide DecodeAll, DecodeOne, WfDesc, StructStored;
      DecodedAll(d, r.rest, r.value);
    }
  }

  /**
   * Whatever the bytes are, a struct that the decoder has accepted is a struct: all values are in the range of
   * their fields, no array or string overflows, and each union has at most one member set, at every depth.
   */
  lemma {:induction false} DecodedStructFits(d: MsgDesc, s: bytes, m: Slots)
    requires WfDesc(d) && StructStored(d, m) && DecodeStruct(d, s, m).Some?
    ensures StructStored(d, DecodeStruct(d, s, m).value)
    decreases d, |s|, 6
  {
    DecodedAll(d, s, Progress(m, {}));
  }

  /**
   * Whatever was decoded, from bytes in any form the decoder tolerates, can be encoded again, and decoding
   * those bytes gives the same struct up to what follows the texts of its strings.
   */
  lemma ReencodedDecodes(d: MsgDesc, s: bytes)
    requires WfDesc(d) && DecodeStruct(d, s, DefaultStruct(d)).Some?
    ensures StructOk(d, DecodeStruct(d, s, DefaultStruct(d)).value)
    ensures var m := DecodeStruct(d, s, DefaultStruct(d)).value;
      && EncodeStruct(d, m).Some?
      && (RoundTrip.LengthsFit(d, m)
          ==> DecodeStruct(d, EncodeStruct(d, m).value, DefaultStruct(d)) == Some(StructMeaning(d, m)))
  {
    var m := DecodeStruct(d, s, DefaultStruct(d)).value;
    DefaultStructStored(d);
    DecodedStructFits(d, s, DefaultStruct(d));
    EncodesIffFits(d, m);
    if RoundTrip.LengthsFit(d, m) {
      RoundTrip.StructRoundTrip(d, m);
    }
  }
}
