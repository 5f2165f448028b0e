/** pb_decode.c: the decoder, reading from a stream, proved against the parsing functions of Wire. */
module Decoder {
  import opened Bytes
  import opened Descriptor
  import opened Wire
  import opened InputStream
  import V = Varint
  import FieldInfo
  import FieldIter
  import FieldsSeen
  import RequiredFields
  import opened Canonical

  const PB_WT_PACKED: nat := 255

  // ---- tags and unknown fields ---------------------------------------------------

  /** pb_skip_varint */
  method SkipVarint(stream: IStream) returns (ok: bool)
    requires stream.Valid()
    modifies stream
    ensures stream.Valid() && stream.End() == old(stream.End())
    ensures Skip(WT_VARINT, old(stream.Rest())) == if ok then Ok((), stream.Rest()) else Fail
  {
    ghost var s, k: nat := stream.Rest(), 0;
    assert s[k..] == s;
    while true
      invariant stream.Valid() && stream.End() == old(stream.End()) && stream.state == old(stream.state) + k
      invariant k <= |s| && stream.Rest() == s[k..]
      invariant Skip(WT_VARINT, s) == Skip(WT_VARINT, s[k..])
      decreases stream.bytesLeft
    {
      SkipOneByte(s, k);
      hide Skip;
      var more, data := stream.Read(1);
      if !more {
        return false;
      }
      assert data[0] == s[k] && s[k..][1..] == s[k + 1..];
      k := k + 1;
      if data[0] < 0x80 {
        return true;
      }
    }
  }

  lemma SkipOneByte(s: bytes, k: nat)
    requires k <= |s|
    ensures k == |s| ==> Skip(WT_VARINT, s[k..]) == Fail
    ensures k < |s| ==> Skip(WT_VARINT, s[k..]) == if s[k] < 0x80 then Ok((), s[k + 1..]) else Skip(WT_VARINT, s[k + 1..])
  {
    if k < |s| {
      assert s[k..][1..] == s[k + 1..];
      hide V.IsGroup;
      var g := V.GroupEnd(s[k + 1..]);
      assert g.Some? ==> s[k..][g.value + 1..] == s[k + 1..][g.value..];
    }
  }

  /** pb_skip_string */
  method SkipString(stream: IStream) returns (ok: bool)
    requires stream.Valid()
    modifies stream
    ensures stream.Valid() && stream.End() == old(stream.End())
    ensures Skip(WT_STRING, old(stream.Rest())) == if ok then Ok((), stream.Rest()) else Fail
  {
    hide V.ReadVarint32;
    var length;
    ok, length := stream.DecodeVarint32();
    if ok {
      var passed;
      ok, passed := stream.Read(length);
    }
  }

  /** pb_skip_field */
  method SkipField(stream: IStream, wireType: nat) returns (ok: bool)
    requires stream.Valid()
    modifies stream
    ensures stream.Valid() && stream.End() == old(stream.End())
    ensures Skip(wireType, old(stream.Rest())) == if ok then Ok((), stream.Rest()) else Fail
  {
    if wireType == WT_VARINT {
      ok := SkipVarint(stream);
    } else if wireType == WT_64BIT {
      var passed;
      ok, passed := stream.Read(8);
    } else if wireType == WT_STRING {
      ok := SkipString(stream);
    } else if wireType == WT_32BIT {
      var passed;
      ok, passed := stream.Read(4);
    } else {
      ok := false;
    }
  }

  /** pb_decode_tag */
  method DecodeTag(stream: IStream) returns (ok: bool, wireType: nat, tag: nat, eof: bool)
    requires stream.Valid()
    modifies stream
    ensures stream.Valid() && stream.End() == old(stream.End())
    ensures eof <==> old(stream.Rest()) == []
    ensures eof ==> !ok && stream.Rest() == []
    ensures !eof ==> wireType < 8
    ensures !eof ==> V.ReadVarint32(old(stream.Rest())) == if ok then Ok(8 * tag + wireType, stream.Rest()) else Fail
  {
    hide V.ReadVarint32;
    eof, wireType, tag := false, 0, 0;
    if stream.bytesLeft == 0 {
      return false, 0, 0, true;
    }
    var temp;
    ok, temp := stream.DecodeVarint32();
    if ok {
      tag, wireType := temp / 8, temp % 8;
    }
  }

  // ---- single items ----------------------------------------------------------------

  /** pb_dec_bool */
  method DecBool(stream: IStream) returns (ok: bool, dest: Value)
    requires stream.Valid()
    modifies stream
    ensures stream.Valid() && stream.End() == old(stream.End())
    ensures DecodeNumber(LType.Bool, 1, old(stream.Rest())) == if ok then Ok(dest, stream.Rest()) else Fail
  {
    hide V.ReadVarint32;
    var value;
    ok, value := stream.DecodeVarint32();
    dest := VInt(if value != 0 then 1 else 0);
  }

  /** pb_decode_svarint */
  method DecodeSvarint(stream: IStream) returns (ok: bool, dest: int)
    requires stream.Valid()
    modifies stream
    ensures stream.Valid() && stream.End() == old(stream.End())
    ensures match V.ReadVarint64(old(stream.Rest()))
      case Fail => !ok
      case Ok(u, rest) => ok && dest == V.UnZigZag(u) && rest == stream.Rest()
  {
    hide V.ReadVarint64;
    var value;
    ok, value := stream.DecodeVarint();
    if ok {
      var half: int := value / 2;
      dest := if value % 2 == 1 then -half - 1 else half;
    } else {
      dest := 0;
    }
  }

  /** The value that a cast to an unsigned C integer of this size leaves. */
  function CastUnsigned(v: nat, dataSize: nat): nat
    requires dataSize in INT_LIMIT
  {
    if dataSize == 8 then v % 0x1_0000_0000_0000_0000
    else if dataSize == 4 then v % 0x1_0000_0000
    else if dataSize == 2 then v % 0x1_0000
    else v % 0x100
  }

  /** The value that a cast to a signed C integer of this size leaves. */
  function CastSigned(v: int, dataSize: nat): int
    requires dataSize in INT_LIMIT
  {
    if dataSize == 8 then (v + 0x8000_0000_0000_0000) % 0x1_0000_0000_0000_0000 - 0x8000_0000_0000_0000
    else if dataSize == 4 then (v + 0x8000_0000) % 0x1_0000_0000 - 0x8000_0000
    else if dataSize == 2 then (v + 0x8000) % 0x1_0000 - 0x8000
    else (v + 0x80) % 0x100 - 0x80
  }

  lemma UnsignedClamp(v: nat, dataSize: nat)
    requires dataSize in INT_LIMIT
    ensures CastUnsigned(v, dataSize) == v <==> InUnsigned(v, dataSize)
  {
  }

  lemma SignedClamp(v: int, dataSize: nat)
    requires dataSize in INT_LIMIT
    ensures CastSigned(v, dataSize) == v <==> InSigned(v, dataSize)
  {
  }

  /** pb_dec_varint: the value is cut to the size of the field and refused if that changed it. */
  method DecVarint(stream: IStream, t: LType, dataSize: nat) returns (ok: bool, dest: Value)
    requires stream.Valid() && (t.Varint? || t.UVarint? || t.SVarint?) && dataSize in INT_LIMIT
    modifies stream
    ensures stream.Valid() && stream.End() == old(stream.End())
    ensures DecodeNumber(t, dataSize, old(stream.Rest())) == if ok then Ok(dest, stream.Rest()) else Fail
  {
    hide V.ReadVarint64, V.UnZigZag, InUnsigned, InSigned, CastSigned, CastUnsigned;
    if t.UVarint? {
      var value;
      ok, value := stream.DecodeVarint();
      var clamped := CastUnsigned(value, dataSize);
      dest := VInt(clamped);
      UnsignedClamp(value, dataSize);
      if ok && clamped != value {
        return false, dest;
      }
    } else {
      var svalue: int;
      if t.SVarint? {
        ok, svalue := DecodeSvarint(stream);
      } else {
        var value;
        ok, value := stream.DecodeVarint();
        if ok {
          svalue := if dataSize == 8 then V.ToSigned64(value) else V.ToSigned32(value);
        } else {
          svalue := 0;
        }
      }
      var clamped := CastSigned(svalue, dataSize);
      dest := VInt(clamped);
      SignedClamp(svalue, dataSize);
      if ok && clamped != svalue {
        return false, dest;
      }
    }
  }

  /** pb_decode_fixed32 and pb_decode_fixed64, byte by byte. */
  method DecFixed(stream: IStream, t: LType, dataSize: nat) returns (ok: bool, dest: Value)
    requires stream.Valid() && (t.Fixed32? || t.Fixed64?)
    modifies stream
    ensures stream.Valid() && stream.End() == old(stream.End())
    ensures DecodeNumber(t, dataSize, old(stream.Rest())) == if ok then Ok(dest, stream.Rest()) else Fail
  {
    var b;
    dest := VInt(0);
    if t.Fixed32? {
      ok, b := stream.Read(4);
      if ok {
        FourBytes(b);
        hide FromLittleEndian;
        dest := VInt(b[0] as int + 0x100 * b[1] as int + 0x1_0000 * b[2] as int + 0x100_0000 * b[3] as int);
      }
    } else {
      ok, b := stream.Read(8);
      if ok {
        EightBytes(b);
        hide FromLittleEndian;
        dest := VInt(b[0] as int + 0x100 * b[1] as int + 0x1_0000 * b[2] as int + 0x100_0000 * b[3] as int + 0x1_0000_0000 * b[4] as int
                   + 0x100_0000_0000 * b[5] as int + 0x1_0000_0000_0000 * b[6] as int + 0x100_0000_0000_0000 * b[7] as int);
      }
    }
  }

  /** pb_dec_bytes */
  method DecBytes(stream: IStream, dataSize: nat, ghost prev: Value) returns (ok: bool, dest: Value)
    requires stream.Valid()
    modifies stream
    ensures stream.Valid() && stream.End() == old(stream.End())
    ensures DecodeItem(ByteArray, dataSize, old(stream.Rest()), prev) == if ok then Ok(dest, stream.Rest()) else Fail
  {
    hide V.ReadVarint32, DecodeStruct, DecodeNumber, TakeDelimited, IsTail;
    var size;
    dest := VBytes([]);
    ok, size := stream.DecodeVarint32();
    if !ok {
      return;
    }
    if size > PB_SIZE_MAX || size + 2 > dataSize {
      return false, dest;
    }
    var b;
    ok, b := stream.Read(size);
    dest := VBytes(b);
  }

  /** pb_dec_string; the zero behind the text is not part of the value. */
  method DecString(stream: IStream, dataSize: nat, ghost prev: Value) returns (ok: bool, dest: Value)
    requires stream.Valid()
    modifies stream
    ensures stream.Valid() && stream.End() == old(stream.End())
    ensures DecodeItem(LType.String, dataSize, old(stream.Rest()), prev) == if ok then Ok(dest, stream.Rest()) else Fail
  {
    hide V.ReadVarint32, DecodeStruct, DecodeNumber, TakeDelimited, IsTail;
    var size;
    dest := VBytes([]);
    ok, size := stream.DecodeVarint32();
    if !ok {
      return;
    }
    if size == 0xFFFF_FFFF || size + 1 > dataSize {
      return false, dest;
    }
    var b;
    ok, b := stream.Read(size);
    dest := VBytes(b);
  }

  /** pb_dec_fixed_length_bytes */
  method DecFixedLengthBytes(stream: IStream, dataSize: nat, ghost prev: Value) returns (ok: bool, dest: Value)
    requires stream.Valid()
    modifies stream
    ensures stream.Valid() && stream.End() == old(stream.End())
    ensures DecodeItem(FixedBytes, dataSize, old(stream.Rest()), prev) == if ok then Ok(dest, stream.Rest()) else Fail
  {
    hide V.ReadVarint32, DecodeStruct, DecodeNumber, TakeDelimited, IsTail;
    var size;
    dest := VBytes([]);
    ok, size := stream.DecodeVarint32();
    if !ok {
      return;
    }
    if size > PB_SIZE_MAX {
      return false, dest;
    }
    if size == 0 {
      return true, VBytes(Zeros(dataSize));
    }
    if size != dataSize {
      return false, dest;
    }
    var b;
    ok, b := stream.Read(dataSize);
    dest := VBytes(b);
  }

  /** The items that decode_basic_field reads with a number decoder, packed or not. */
  method DecNumber(stream: IStream, t: LType, dataSize: nat) returns (ok: bool, dest: Value)
    requires stream.Valid() && t.Packable() && SizeAllowed(t, dataSize)
    modifies stream
    ensures stream.Valid() && stream.End() == old(stream.End())
    ensures DecodeNumber(t, dataSize, old(stream.Rest())) == if ok then Ok(dest, stream.Rest()) else Fail
  {
    if t.Bool? {
      hide *;
      ok, dest := DecBool(stream);
    } else if t.Fixed32? || t.Fixed64? {
      ok, dest := DecFixed(stream, t, dataSize);
    } else {
      ok, dest := DecVarint(stream, t, dataSize);
    }
  }

  // ---- defaults ------------------------------------------------------------------------

  /** pb_field_set_to_default for a static field: optional and repeated fields and unions become unset. */
  method FieldSetToDefault(f: FieldDesc) returns (slot: seq<Value>)
    requires WfField(f)
    ensures slot == DefaultSlot(f)
    decreases f, 2
  {
    if !f.htype.Required? {
      return [];
    }
    var v := ItemSetToDefault(f);
    slot := [v];
  }

  /** A submessage is set to defaults field by field, anything else to zeros. */
  method ItemSetToDefault(f: FieldDesc) returns (v: Value)
    requires WfField(f)
    ensures v == DefaultItem(f.ltype, f.dataSize)
    decreases f, 1
  {
    if f.ltype.Submessage? {
      var m := MessageSetToDefaults(f.ltype.desc);
      v := VMsg(m);
    } else if f.ltype.FixedBytes? {
      v := VBytes(Zeros(f.dataSize));
    } else if f.ltype.ByteArray? || f.ltype.String? {
      v := VBytes([]);
    } else {
      v := VInt(0);
    }
  }

  /** pb_message_set_to_defaults, from the first field on. */
  method MessageSetToDefaults(d: MsgDesc) returns (m: Slots)
    requires WfDesc(d)
    ensures m == DefaultStruct(d)
    decreases d, 3
  {
    assert forall i :: 0 <= i < |d.fields| ==> WfField(d.fields[i]);
    hide *;
    m := [];
    var iter := new FieldIter.Iter(d);
    if |d.fields| == 0 {
      return;
    }
    var more := true;
    while more
      invariant iter.desc == d && iter.index < |d.fields| && (more ==> iter.AtField())
      invariant |m| == if more then iter.index else |d.fields|
      invariant forall j :: 0 <= j < |m| ==> m[j] == DefaultSlot(d.fields[j])
      decreases if more then |d.fields| - iter.index else 0
    {
      var f := iter.Current();
      var slot := FieldSetToDefault(f);
      m := m + [slot];
      more := iter.Next();
    }
  }

  // ---- fields --------------------------------------------------------------------------

  /** What decode_basic_field reads: a packed item is told by a wire type of its own. */
  ghost function BasicField(f: FieldDesc, wireType: nat, s: bytes, prev: Value): Read<Value> {
    if wireType == WireType(f.ltype) || (wireType == PB_WT_PACKED && f.ltype.Packable())
    then DecodeItem(f.ltype, f.dataSize, s, prev) else Fail
  }

  /** pb_dec_submessage: static single fields are decoded into what is there, array items into defaults. */
  method DecSubmessage(stream: IStream, f: FieldDesc, prev: Value) returns (ok: bool, dest: Value)
    requires stream.Valid() && WfField(f) && f.ltype.Submessage? && Stored(f.ltype, f.dataSize, prev)
    requires f.htype.Repeated? ==> prev == DefaultItem(f.ltype, f.dataSize)
    modifies stream
    ensures stream.Valid() && stream.End() <= old(stream.End()) && (ok ==> stream.End() == old(stream.End()))
    ensures DecodeItem(f.ltype, f.dataSize, old(stream.Rest()), prev) == if ok then Ok(dest, stream.Rest()) else Fail
    decreases f, 3
  {
    SubmessageItem(f, stream.Rest(), prev);
    hide *;
    var d := f.ltype.desc;
    dest := prev;
    var made, substream := stream.MakeSubstream();
    if !made {
      return false, dest;
    }
    var noinit := !f.htype.Repeated?;
    var status, m := DecodeInner(substream, d, prev.slots, noinit);
    var closed := stream.CloseSubstream(substream);
    ok := closed && status;
    dest := VMsg(m);
  }

  lemma SubmessageItem(f: FieldDesc, s: bytes, prev: Value)
    requires WfField(f) && f.ltype.Submessage? && Stored(f.ltype, f.dataSize, prev)
    ensures WfDesc(f.ltype.desc) && prev.VMsg? && StructStored(f.ltype.desc, prev.slots)
    ensures prev == DefaultItem(f.ltype, f.dataSize) ==> prev.slots == DefaultStruct(f.ltype.desc)
    ensures DecodeItem(f.ltype, f.dataSize, s, prev)
         == match V.ReadVarint32(s)
            case Fail => Fail
            case Ok(n, rest) =>
              if n > |rest| then Fail
              else match DecodeStruct(f.ltype.desc, rest[..n], prev.slots)
                case None => Fail
                case Some(m) => Ok(VMsg(m), rest[n..])
  {
    var d := f.ltype.desc;
    assert StructOk(d, prev.slots) && StructFits(d, prev.slots);
    hide V.ReadVarint32, DecodeStruct, StructFits, StructOk, DecodeNumber;
  }

  /** decode_basic_field */
  method DecodeBasicField(stream: IStream, f: FieldDesc, wireType: nat, prev: Value) returns (ok: bool, dest: Value)
    requires stream.Valid() && WfField(f) && Stored(f.ltype, f.dataSize, prev)
    requires f.htype.Repeated? ==> prev == DefaultItem(f.ltype, f.dataSize)
    modifies stream
    ensures stream.Valid() && stream.End() <= old(stream.End()) && (ok ==> stream.End() == old(stream.End()))
    ensures BasicField(f, wireType, old(stream.Rest()), prev) == if ok then Ok(dest, stream.Rest()) else Fail
    decreases f, 4
  {
    dest := prev;
    if f.ltype.Packable() {
      ItemIsNumber(f.ltype, f.dataSize, stream.Rest(), prev);
      hide DecodeItem, DecodeNumber;
      if wireType != WireType(f.ltype) && wireType != PB_WT_PACKED {
        return false, dest;
      }
      ok, dest := DecNumber(stream, f.ltype, f.dataSize);
    } else {
      hide DecodeItem;
      if wireType != WT_STRING {
        return false, dest;
      }
      if f.ltype.ByteArray? {
        ok, dest := DecBytes(stream, f.dataSize, prev);
      } else if f.ltype.String? {
        ok, dest := DecString(stream, f.dataSize, prev);
      } else if f.ltype.FixedBytes? {
        ok, dest := DecFixedLengthBytes(stream, f.dataSize, prev);
      } else {
        ok, dest := DecSubmessage(stream, f, prev);
      }
    }
  }

  lemma ItemIsNumber(t: LType, dataSize: nat, s: bytes, prev: Value)
    requires t.Packable()
    ensures DecodeItem(t, dataSize, s, prev) == DecodeNumber(t, dataSize, s)
  {
  }

  lemma PackedItem(f: FieldDesc, s: bytes, slot: seq<Value>)
    requires f.ltype.Packable()
    ensures s == [] ==> DecodePacked(f, s, slot) == Some(slot)
    ensures s != [] ==>
      DecodePacked(f, s, slot)
        == if |slot| >= f.arraySize then None
           else
             var r := BasicField(f, PB_WT_PACKED, s, DefaultItem(f.ltype, f.dataSize));
             if r.Fail? then None else DecodePacked(f, r.rest, slot + [r.value])
    ensures var r := BasicField(f, PB_WT_PACKED, s, DefaultItem(f.ltype, f.dataSize)); r.Ok? ==> |r.rest| < |s|
  {
    ItemIsNumber(f.ltype, f.dataSize, s, DefaultItem(f.ltype, f.dataSize));
    hide DecodeItem, DecodeNumber, DefaultItem;
  }

  /** The packed branch of decode_static_field. */
  method DecodePackedField(stream: IStream, f: FieldDesc, slot: seq<Value>) returns (ok: bool, slot': seq<Value>)
    requires stream.Valid() && WfField(f) && f.htype.Repeated? && f.ltype.Packable()
    modifies stream
    ensures stream.Valid() && stream.End() <= old(stream.End()) && (ok ==> stream.End() == old(stream.End()))
    ensures DecodeField(f, WT_STRING, old(stream.Rest()), slot) == if ok then Ok(slot', stream.Rest()) else Fail
    decreases f, 5
  {
    assert SizeAllowed(f.ltype, f.dataSize);
    hide *;
    slot' := slot;
    var status := true;
    var made, substream := stream.MakeSubstream();
    if !made {
      return false, slot';
    }
    ghost var b, end := substream.Rest(), substream.End();
    while substream.bytesLeft > 0 && |slot'| < f.arraySize
      modifies substream
      invariant substream.Valid() && substream.End() <= end && (status ==> substream.End() == end)
      invariant DecodePacked(f, b, slot) == DecodePacked(f, substream.Rest(), slot')
      decreases substream.bytesLeft
    {
      var v;
      PackedItem(f, substream.Rest(), slot');
      DefaultItemStored(f.ltype, f.dataSize);
      status, v := DecodeBasicField(substream, f, PB_WT_PACKED, DefaultItem(f.ltype, f.dataSize));
      if !status {
        break;
      }
      slot' := slot' + [v];
    }
    if status {
      PackedItem(f, substream.Rest(), slot');
    }
    if substream.bytesLeft != 0 {
      return false, slot';
    }
    var closed := stream.CloseSubstream(substream);
    ok := closed && status;
  }

  /** decode_static_field */
  method DecodeStaticField(stream: IStream, f: FieldDesc, wireType: nat, slot: seq<Value>)
    returns (ok: bool, slot': seq<Value>)
    requires stream.Valid() && WfField(f) && wireType < 8
    requires SlotStored(f, slot)
    modifies stream
    ensures stream.Valid() && stream.End() <= old(stream.End()) && (ok ==> stream.End() == old(stream.End()))
    ensures DecodeField(f, wireType, old(stream.Rest()), slot) == if ok then Ok(slot', stream.Rest()) else Fail
    decreases f, 6
  {
    hide DecodeItem, DecodePacked, IsTail, TakeDelimited;
    slot' := slot;
    if f.htype.Repeated? && wireType == WT_STRING && f.ltype.Packable() {
      ok, slot' := DecodePackedField(stream, f, slot);
      return;
    }
    var prev, v;
    DefaultItemStored(f.ltype, f.dataSize);
    StoredItem(f, slot);
    if f.htype.Repeated? {
      if |slot| >= f.arraySize {
        return false, slot';
      }
      prev := ItemSetToDefault(f);
    } else if slot == [] {
      prev := ItemSetToDefault(f);
    } else {
      prev := slot[0];
    }
    ok, v := DecodeBasicField(stream, f, wireType, prev);
    slot' := if f.htype.Repeated? then slot + [v] else [v];
  }

  // ---- messages --------------------------------------------------------------------------

  /** The bits of the bitmap that stand for the required fields met so far. */
  ghost function RanksOf(d: MsgDesc, seen: set<nat>): set<nat>
    requires forall i :: i in seen ==> i < |d.fields|
  {
    set i | i in seen && RequiredBefore(d, i) < PB_MAX_REQUIRED_FIELDS :: RequiredBefore(d, i)
  }

  /** The fields met are required fields, and the bitmap stands for them. */
  ghost predicate Tracks(d: MsgDesc, ranks: set<nat>, seen: set<nat>) {
    && (forall i :: i in seen ==> i < |d.fields| && d.fields[i].htype.Required?)
    && ranks == RanksOf(d, seen)
  }

  lemma StructFromAll(d: MsgDesc, s: bytes, m: Slots)
    requires StructStored(d, m)
    ensures |m| == |d.fields| && Tracks(d, {}, {})
    ensures DecodeStruct(d, s, m)
         == match DecodeAll(d, s, Progress(m, {}))
            case None => None
            case Some(p) => if RequiredMet(d, p.seen) then Some(p.m) else None
  {
    hide DecodeAll, RequiredMet;
  }

  lemma TracksNext(d: MsgDesc, ranks: set<nat>, seen: set<nat>, i: nat)
    requires Tracks(d, ranks, seen) && i < |d.fields| && d.fields[i].htype.Required?
    ensures Tracks(d, if RequiredBefore(d, i) < PB_MAX_REQUIRED_FIELDS then ranks + {RequiredBefore(d, i)} else ranks, seen + {i})
  {
  }

  lemma {:induction false} FieldOfRank(d: MsgDesc, r: nat, n: nat) returns (i: nat)
    requires n <= |d.fields| && r < RequiredBefore(d, n)
    ensures i < n && d.fields[i].htype.Required? && RequiredBefore(d, i) == r
    decreases n
  {
    if r < RequiredBefore(d, n - 1) {
      i := FieldOfRank(d, r, n - 1);
    } else {
      i := n - 1;
    }
  }

  /** Testing the bits is testing the required fields. */
  lemma BitsAreFields(d: MsgDesc, ranks: set<nat>, seen: set<nat>)
    requires Tracks(d, ranks, seen)
    ensures forall r :: r in ranks ==> r < RequiredBefore(d, |d.fields|) && r < PB_MAX_REQUIRED_FIELDS
    ensures (forall r :: 0 <= r < RequiredBefore(d, |d.fields|) && r < PB_MAX_REQUIRED_FIELDS ==> r in ranks)
       <==> RequiredMet(d, seen)
  {
    forall i | 0 <= i < |d.fields| && d.fields[i].htype.Required?
      ensures RequiredBefore(d, i) < RequiredBefore(d, |d.fields|)
      ensures RequiredBefore(d, i) < PB_MAX_REQUIRED_FIELDS && RequiredBefore(d, i) in ranks ==> i in seen
    {
      RequiredFields.RequiredBeforeMonotone(d, i, |d.fields|);
      if RequiredBefore(d, i) in ranks {
        var j :| j in seen && RequiredBefore(d, j) == RequiredBefore(d, i);
        if i < j {
          RequiredFields.RequiredBeforeMonotone(d, i, j);
        } else if j < i {
          RequiredFields.RequiredBeforeMonotone(d, j, i);
        }
      }
    }
    forall r: nat | r < RequiredBefore(d, |d.fields|) && r < PB_MAX_REQUIRED_FIELDS && RequiredMet(d, seen)
      ensures r in ranks
    {
      var i := FieldOfRank(d, r, |d.fields|);
    }
  }

  /** What the main loop does with a field, when its tag has been read. */
  ghost function FieldStep(d: MsgDesc, tag: nat, wireType: nat, s: bytes, p: Progress): (r: Read<Progress>)
    requires |p.m| == |d.fields|
    ensures r.Ok? ==> |r.value.m| == |d.fields|
  {
    match FieldWithTag(d, tag)
    case None =>
      (match Skip(wireType, s)
       case Fail => Fail
       case Ok(_, rest) => Ok(p, rest))
    case Some(i) =>
      (match DecodeField(d.fields[i], wireType, s, p.m[i])
       case Fail => Fail
       case Ok(slot, rest) => Ok(Advance(d, p, i, slot), rest))
  }

  lemma AtTheEnd(d: MsgDesc, p: Progress)
    requires |p.m| == |d.fields|
    ensures DecodeAll(d, [], p) == Some(p)
  {
  }

  lemma StepByStep(d: MsgDesc, s: bytes, p: Progress)
    requires |p.m| == |d.fields| && s != []
    ensures V.ReadVarint32(s).Fail? ==> DecodeAll(d, s, p) == None
    ensures V.ReadVarint32(s).Ok? ==>
      var key, rest := V.ReadVarint32(s).value, V.ReadVarint32(s).rest;
      DecodeAll(d, s, p)
        == if key / 8 == 0 then None
           else match FieldStep(d, key / 8, key % 8, rest, p)
             case Fail => None
             case Ok(q, rest') => DecodeAll(d, rest', q)
    ensures V.ReadVarint32(s).Ok? ==>
      var key, rest := V.ReadVarint32(s).value, V.ReadVarint32(s).rest;
      FieldStep(d, key / 8, key % 8, rest, p).Ok? ==> |FieldStep(d, key / 8, key % 8, rest, p).rest| < |s|
  {
    hide DecodeField, Skip;
  }

  lemma StepStored(d: MsgDesc, tag: nat, wireType: nat, s: bytes, p: Progress, i: nat)
    requires WfDesc(d) && StructStored(d, p.m) && FieldWithTag(d, tag) == Some(i)
    ensures WfField(d.fields[i]) && SlotStored(d.fields[i], p.m[i])
    ensures FieldStep(d, tag, wireType, s, p).Ok? ==> StructStored(d, FieldStep(d, tag, wireType, s, p).value.m)
  {
    var f := d.fields[i];
    assert SlotOk(f, p.m[i]) && SlotFits(f, p.m[i]);
    if DecodeField(f, wireType, s, p.m[i]).Ok? {
      DecodedField(f, wireType, s, p.m[i]);
    }
  }

  /** One round of the main loop: the field is looked up, marked if it is required, and decoded or skipped. */
  method DecodeOneField(stream: IStream, iter: FieldIter.Iter, fieldsSeen: FieldsSeen.Bitmap,
                        wireType: nat, tag: nat, ghost p: Progress, m: Slots)
    returns (ok: bool, m': Slots, ghost q: Progress)
    requires stream.Valid() && iter.Valid() && fieldsSeen.Valid()
    requires wireType < 8 && tag >= 1 && p.m == m
    requires StructStored(iter.desc, m) && Tracks(iter.desc, fieldsSeen.ranks, p.seen)
    requires {stream as object} !! {iter as object} !! {fieldsSeen as object}
    modifies stream, iter, fieldsSeen, fieldsSeen.bitfield
    ensures stream.Valid() && stream.End() <= old(stream.End()) && (ok ==> stream.End() == old(stream.End()))
    ensures FieldStep(iter.desc, tag, wireType, old(stream.Rest()), p) == if ok then Ok(q, stream.Rest()) else Fail
    ensures ok ==> iter.Valid() && fieldsSeen.Valid() && q.m == m'
    ensures ok ==> |m'| == |iter.desc.fields| && StructStored(iter.desc, m') && Tracks(iter.desc, fieldsSeen.ranks, q.seen)
    decreases iter.desc, 7
  {
    var d := iter.desc;
    m', q := m, p;
    var found := iter.Find(tag);
    if !found {
      hide *;
      ok := SkipField(stream, wireType);
      return;
    }
    var i := iter.index;
    var f := iter.Current();
    StepStored(d, tag, wireType, stream.Rest(), p, i);
    hide FieldWithTag, DecodeField, StructStored, SlotStored, WfField, WfDesc, Tracks, Store, FieldInfo.Entry, FieldInfo.WordsBefore,
      FieldInfo.SubmessagesBefore, RequiredBefore, FieldsSeen.Word;
    if f.htype.Required? {
      TracksNext(d, fieldsSeen.ranks, p.seen, i);
      if iter.requiredFieldIndex < PB_MAX_REQUIRED_FIELDS {
        fieldsSeen.Mark(iter.requiredFieldIndex);
      }
    }
    var slot;
    ok, slot := DecodeStaticField(stream, f, wireType, m[i]);
    m' := Store(d, m, i, slot);
    q := Advance(d, p, i, slot);
  }

  /** The main loop of pb_decode_inner: tag after tag, to the end of the input. */
  method DecodeFields(stream: IStream, iter: FieldIter.Iter, fieldsSeen: FieldsSeen.Bitmap, ghost p0: Progress, m0: Slots)
    returns (ok: bool, m: Slots, ghost p: Progress)
    requires stream.Valid() && iter.Valid() && fieldsSeen.Valid()
    requires p0.m == m0 && |m0| == |iter.desc.fields|
    requires StructStored(iter.desc, m0) && Tracks(iter.desc, fieldsSeen.ranks, p0.seen)
    requires {stream as object} !! {iter as object} !! {fieldsSeen as object}
    modifies stream, iter, fieldsSeen, fieldsSeen.bitfield
    ensures stream.Valid() && stream.End() <= old(stream.End())
    ensures DecodeAll(iter.desc, old(stream.Rest()), p0) == if ok then Some(p) else None
    ensures ok ==> stream.End() == old(stream.End()) && stream.Rest() == []
    ensures ok ==> fieldsSeen.Valid() && p.m == m && Tracks(iter.desc, fieldsSeen.ranks, p.seen)
    decreases iter.desc, 8
  {
    hide *;
    m, p := m0, p0;
    ghost var d, here := iter.desc, stream.Rest();
    ghost var all := DecodeAll(d, here, p);
    var more, wireType, tag, eof := DecodeTag(stream);
    while more
      invariant stream.Valid() && stream.End() == old(stream.End())
      invariant iter.Valid() && fieldsSeen.Valid()
      invariant p.m == m && |m| == |d.fields| && StructStored(d, m) && Tracks(d, fieldsSeen.ranks, p.seen)
      invariant all == DecodeAll(d, here, p)
      invariant if eof then !more && here == [] && stream.Rest() == [] else here != []
      invariant !eof ==> wireType < 8 && V.ReadVarint32(here) == if more then Ok(8 * tag + wireType, stream.Rest()) else Fail
      decreases |here|
    {
      StepByStep(d, here, p);
      if tag == 0 {
        return false, m, p;
      }
      ok, m, p := DecodeOneField(stream, iter, fieldsSeen, wireType, tag, p, m);
      if !ok {
        return;
      }
      here := stream.Rest();
      more, wireType, tag, eof := DecodeTag(stream);
    }
    if !eof {
      StepByStep(d, here, p);
      return false, m, p;
    }
    AtTheEnd(d, p);
    ok := true;
  }

  /**
   * pb_decode_inner: the fields, then the test for missing required ones. What dest holds matters only if it is
   * not set to defaults first.
   */
  method DecodeInner(stream: IStream, d: MsgDesc, dest: Slots, noinit: bool) returns (ok: bool, m: Slots)
    requires stream.Valid() && WfDesc(d) && (noinit ==> StructStored(d, dest))
    modifies stream
    ensures stream.Valid() && stream.End() <= old(stream.End()) && (ok ==> stream.End() == old(stream.End()))
    ensures DecodeStruct(d, old(stream.Rest()), if noinit then dest else DefaultStruct(d)) == if ok then Some(m) else None
    ensures ok ==> stream.Rest() == []
    decreases d, 9
  {
    hide *;
    var iter := new FieldIter.Iter(d);
    var fieldsSeen := new FieldsSeen.Bitmap();
    m := dest;
    if !noinit {
      DefaultStructStored(d);
      m := MessageSetToDefaults(d);
    }
    StructFromAll(d, stream.Rest(), m);
    ghost var p := Progress(m, {});
    ok, m, p := DecodeFields(stream, iter, fieldsSeen, p, m);
    if ok {
      BitsAreFields(d, fieldsSeen.ranks, p.seen);
      ok := fieldsSeen.AllMarked(RequiredBefore(d, |d.fields|));
    }
  }

  /** pb_decode_ex: a whole input, or one delimited message from the front of it. */
  method DecodeEx(stream: IStream, d: MsgDesc, dest: Slots, delimited: bool, noinit: bool) returns (ok: bool, m: Slots)
    requires stream.Valid() && WfDesc(d) && (noinit ==> StructStored(d, dest) && |dest| == |d.fields|)
    modifies stream
    ensures stream.Valid() && stream.End() <= old(stream.End()) && (ok ==> stream.End() == old(stream.End()))
    ensures var start := if noinit then dest else DefaultStruct(d);
      if delimited then DecodeDelimited(d, old(stream.Rest()), start) == if ok then Ok(m, stream.Rest()) else Fail
      else DecodeStruct(d, old(stream.Rest()), start) == if ok then Some(m) else None
  {
    ghost var start := if noinit then dest else DefaultStruct(d);
    DelimitedParts(d, stream.Rest(), start);
    hide *;
    m := dest;
    if !delimited {
      ok, m := DecodeInner(stream, d, dest, noinit);
      return;
    }
    var made, substream := stream.MakeSubstream();
    if !made {
      return false, m;
    }
    var status;
    status, m := DecodeInner(substream, d, dest, noinit);
    var closed := stream.CloseSubstream(substream);
    ok := closed && status;
  }

  lemma DelimitedParts(d: MsgDesc, s: bytes, m: Slots)
    requires |m| == |d.fields|
    ensures DecodeDelimited(d, s, m)
         == match V.ReadVarint32(s)
            case Fail => Fail
            case Ok(n, rest) =>
              if n > |rest| then Fail
              else match DecodeStruct(d, rest[..n], m)
                case None => Fail
                case Some(m') => Ok(m', rest[n..])
  {
    hide V.ReadVarint32, DecodeStruct, DefaultStruct;
  }
}
