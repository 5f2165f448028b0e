/** Message descriptors (pb_msgdesc_t) and the values of the structs they describe. */
module Descriptor {
  import opened Bytes

  /** PB_LTYPE_*: what one item of a field is. */
  datatype LType =
    | Bool | Varint | UVarint | SVarint | Fixed32 | Fixed64
    | ByteArray | String | FixedBytes
    | Submessage(desc: MsgDesc)
  {
    /** At most PB_LTYPE_LAST_PACKABLE. */
    predicate Packable() {
      Bool? || Varint? || UVarint? || SVarint? || Fixed32? || Fixed64?
    }
  }

  /** PB_HTYPE_*: how often a field occurs. Oneof fields name the union that holds them. */
  datatype HType = Required | Optional | Repeated | Oneof(union: nat)

  /**
   * One entry of the field list. `width` is the number of descriptor words (1, 2, 4 or 8);
   * the offsets are only packed and unpacked, they are never dereferenced here.
   */
  datatype FieldDesc = FieldDesc(
    tag: nat, htype: HType, ltype: LType,
    dataSize: nat, arraySize: nat, dataOffset: nat, sizeOffset: nat, width: nat)

  datatype MsgDesc = MsgDesc(fields: seq<FieldDesc>)

  /** PB_FIELDINFO_ASSERT_*: the entry fits the words it is given. */
  predicate Fits(f: FieldDesc) {
    match f.width
    case 1 => f.tag < 0x40 && f.dataOffset < 0x100 && f.sizeOffset < 0x10 && f.dataSize < 0x10 && f.arraySize < 2
    case 2 => f.tag < 0x400 && f.dataOffset < 0x1_0000 && f.sizeOffset < 0x10 && f.dataSize < 0x1000 && f.arraySize < 0x1000
    case 4 => f.tag < 0x1_0000 && f.dataOffset < 0x1_0000 && f.sizeOffset < 0x80 && f.dataSize < 0x1_0000 && f.arraySize < 0x1_0000
    case 8 => f.tag < 0x1_0000 && f.dataOffset < 0x1_0000 && f.sizeOffset < 0x80 && f.dataSize < 0x1_0000 && f.arraySize < 0x1_0000
    case _ => false
  }

  /** The item size that the type of a field allows. */
  predicate SizeAllowed(t: LType, dataSize: nat) {
    match t
    case Bool => dataSize == 1
    case Varint => dataSize in {1, 2, 4, 8}
    case UVarint => dataSize in {1, 2, 4, 8}
    case SVarint => dataSize in {1, 2, 4, 8}
    case Fixed32 => dataSize == 4
    case Fixed64 => dataSize == 8
    case ByteArray => dataSize >= 2
    case String => dataSize >= 1
    case FixedBytes => true
    case Submessage(_) => true
  }

  ghost predicate WfField(f: FieldDesc)
    decreases f, 0
  {
    && f.tag >= 1
    && Fits(f)
    && SizeAllowed(f.ltype, f.dataSize)
    && (f.sizeOffset == 0 <==> f.htype.Required?)
    && (if f.htype.Repeated? then f.width >= 2 else f.arraySize == 1)
    && (f.ltype.Submessage? ==> WfDesc(f.ltype.desc))
  }

  /** Tags strictly increase, as the generator sorts them. */
  ghost predicate WfDesc(d: MsgDesc)
    decreases d, 1
  {
    && (forall i :: 0 <= i < |d.fields| ==> WfField(d.fields[i]))
    && (forall i, j :: 0 <= i < j < |d.fields| ==> d.fields[i].tag < d.fields[j].tag)
  }

  /** The index of the field with this tag, if there is one. */
  ghost function FieldWithTag(d: MsgDesc, tag: nat): (r: Option<nat>)
    ensures r.Some? ==> r.value < |d.fields| && d.fields[r.value].tag == tag
    ensures r.None? ==> forall i :: 0 <= i < |d.fields| ==> d.fields[i].tag != tag
  {
    if i: nat :| i < |d.fields| && d.fields[i].tag == tag then Some(i) else None
  }

  lemma FieldWithTagIs(d: MsgDesc, i: nat)
    requires WfDesc(d) && i < |d.fields|
    ensures FieldWithTag(d, d.fields[i].tag) == Some(i)
  {
  }

  // ---- values --------------------------------------------------------------

  /**
   * A value in a message struct. For a String field `b` is what its char buffer holds,
   * up to its end or to where only zeros follow; the text ends at the first zero byte.
   */
  datatype Value = VInt(i: int) | VBytes(b: bytes) | VMsg(slots: Slots)

  /**
   * The contents of a struct, one slot a field: a required field holds one value, an optional or oneof
   * field none when it is not set, a repeated field its items.
   */
  type Slots = seq<seq<Value>>

  const INT_LIMIT: map<nat, nat> := map[1 := 0x80, 2 := 0x8000, 4 := 0x8000_0000, 8 := 0x8000_0000_0000_0000]

  predicate InSigned(v: int, dataSize: nat) {
    dataSize in INT_LIMIT && -INT_LIMIT[dataSize] <= v < INT_LIMIT[dataSize]
  }

  predicate InUnsigned(v: int, dataSize: nat) {
    dataSize in INT_LIMIT && 0 <= v < 2 * INT_LIMIT[dataSize]
  }

  /** v is a value that the C type of one item can hold. */
  ghost predicate ItemOk(t: LType, dataSize: nat, v: Value)
    decreases t, 2
  {
    match t
    case Bool => v.VInt? && 0 <= v.i < 2
    case Varint => v.VInt? && InSigned(v.i, dataSize)
    case UVarint => v.VInt? && InUnsigned(v.i, dataSize)
    case SVarint => v.VInt? && InSigned(v.i, dataSize)
    case Fixed32 => v.VInt? && 0 <= v.i < TWO_32
    case Fixed64 => v.VInt? && 0 <= v.i < TWO_64
    case ByteArray => v.VBytes? && |v.b| < 0x1_0000
    case String => v.VBytes? && |v.b| <= dataSize
    case FixedBytes => v.VBytes? && |v.b| == dataSize
    case Submessage(d) => v.VMsg? && StructOk(d, v.slots)
  }

  ghost predicate SlotOk(f: FieldDesc, slot: seq<Value>)
    decreases f, 3
  {
    && (f.htype.Required? ==> |slot| == 1)
    && (f.htype.Optional? || f.htype.Oneof? ==> |slot| <= 1)
    && (forall k :: 0 <= k < |slot| ==> ItemOk(f.ltype, f.dataSize, slot[k]))
  }

  predicate SameUnion(f: FieldDesc, g: FieldDesc) {
    f.htype.Oneof? && f.htype == g.htype
  }

  /** The slots are the contents of a struct: every value in range, one member set in each union. */
  ghost predicate StructOk(d: MsgDesc, m: Slots)
    decreases d, 4
  {
    && |m| == |d.fields|
    && (forall i :: 0 <= i < |m| ==> SlotOk(d.fields[i], m[i]))
    && (forall i, j :: 0 <= i < j < |m| && SameUnion(d.fields[i], d.fields[j]) ==> m[i] == [] || m[j] == [])
  }

  /** The text in a char buffer: up to the first zero byte. */
  function Text(b: bytes): (t: bytes)
    ensures |t| <= |b| && t == b[..|t|] && 0 !in t
    ensures |t| < |b| ==> b[|t|] == 0
  {
    if b == [] || b[0] == 0 then [] else [b[0]] + Text(b[1..])
  }

  /** The same value with strings cut to their text: what two structs that mean the same have in common. */
  ghost function Meaning(t: LType, v: Value): Value
    decreases t, 2
  {
    match t
    case String => if v.VBytes? then VBytes(Text(v.b)) else v
    case Submessage(d) => if v.VMsg? && |v.slots| == |d.fields| then VMsg(StructMeaning(d, v.slots)) else v
    case _ => v
  }

  ghost function StructMeaning(d: MsgDesc, m: Slots): (r: Slots)
    requires |m| == |d.fields|
    ensures |r| == |m|
    decreases d, 4
  {
    seq(|m|, i requires 0 <= i < |m| => SlotMeaning(d.fields[i], m[i]))
  }

  ghost function SlotMeaning(f: FieldDesc, slot: seq<Value>): (r: seq<Value>)
    ensures |r| == |slot|
    decreases f, 3
  {
    seq(|slot|, k requires 0 <= k < |slot| => Meaning(f.ltype, slot[k]))
  }

  // ---- pb_message_set_to_defaults --------------------------------------------

  function Zeros(n: nat): (z: bytes)
    ensures |z| == n
  {
    seq(n, _ => 0)
  }

  function DefaultItem(t: LType, dataSize: nat): (v: Value)
    decreases t, 2
  {
    match t
    case ByteArray => VBytes([])
    case String => VBytes([])
    case FixedBytes => VBytes(Zeros(dataSize))
    case Submessage(d) => VMsg(DefaultStruct(d))
    case _ => VInt(0)
  }

  function DefaultSlot(f: FieldDesc): seq<Value>
    decreases f, 3
  {
    if f.htype.Required? then [DefaultItem(f.ltype, f.dataSize)] else []
  }

  function DefaultStruct(d: MsgDesc): (m: Slots)
    ensures |m| == |d.fields|
    ensures forall i :: 0 <= i < |m| ==> m[i] == DefaultSlot(d.fields[i])
    decreases d, 4
  {
    seq(|d.fields|, i requires 0 <= i < |d.fields| => DefaultSlot(d.fields[i]))
  }

  lemma {:induction false} DefaultItemOk(t: LType, dataSize: nat)
    requires SizeAllowed(t, dataSize)
    requires t.Submessage? ==> WfDesc(t.desc)
    ensures ItemOk(t, dataSize, DefaultItem(t, dataSize))
    decreases t, 2
  {
    if t.Submessage? {
      DefaultStructOk(t.desc);
    }
  }

  /** A struct set to defaults is a struct. */
  lemma {:induction false} DefaultStructOk(d: MsgDesc)
    requires WfDesc(d)
    ensures StructOk(d, DefaultStruct(d))
    decreases d, 4
  {
    forall i | 0 <= i < |d.fields| ensures SlotOk(d.fields[i], DefaultSlot(d.fields[i])) {
      var f := d.fields[i];
      assert WfField(f);
      DefaultItemOk(f.ltype, f.dataSize);
    }
  }

  /** The number 0, an empty string, zero bytes, or a struct of those. */
  ghost predicate IsZero(t: LType, v: Value)
    decreases t, 2
  {
    match v
    case VInt(i) => i == 0
    case VBytes(b) => forall k :: 0 <= k < |b| ==> b[k] == 0
    case VMsg(slots) => t.Submessage? && IsZeroStruct(t.desc, slots)
  }

  /** Every required field is zero, and no other is set. */
  ghost predicate IsZeroStruct(d: MsgDesc, m: Slots)
    decreases d, 4
  {
    && |m| == |d.fields|
    && forall i :: 0 <= i < |m| ==>
      if d.fields[i].htype.Required? then |m[i]| == 1 && IsZero(d.fields[i].ltype, m[i][0]) else m[i] == []
  }

  lemma {:induction false} DefaultItemIsZero(t: LType, dataSize: nat)
    ensures IsZero(t, DefaultItem(t, dataSize))
    decreases t, 2
  {
    if t.Submessage? {
      DefaultsAreZero(t.desc);
    }
  }

  /** A struct set to defaults is zero at every depth. */
  lemma {:induction false} DefaultsAreZero(d: MsgDesc)
    ensures IsZeroStruct(d, DefaultStruct(d))
    decreases d, 4
  {
    forall i | 0 <= i < |d.fields| && d.fields[i].htype.Required?
      ensures IsZero(d.fields[i].ltype, DefaultStruct(d)[i][0])
    {
      DefaultItemIsZero(d.fields[i].ltype, d.fields[i].dataSize);
    }
  }
}
