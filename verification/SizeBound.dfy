/** The size that the generator announces for a message type is one that the encoder never exceeds. */
module SizeBound {
  import opened Bytes
  import opened Descriptor
  import opened Wire
  import opened Generator
  import V = Varint

  // ---- encoded_size ------------------------------------------------------------------

  /** Enum.encoded_size: the longest of the declared values. */
  function EnumSize(values: seq<int>): nat {
    if values == [] then 0 else Max(VarintMaxSize(values[0]), EnumSize(values[1..]))
  }

  function Max(a: nat, b: nat): nat {
    if a >= b then a else b
  }

  /** One item without its tag. */
  function ItemSize(t: ProtoType, s: IntSize): nat
    decreases t, 0
  {
    match t
    case ENUM(values) => EnumSize(values)
    case STRING(n) => VarintMaxSize(n) + n - 1
    case BYTES(n) => VarintMaxSize(n) + n
    case FIXED_LENGTH_BYTES(n) => VarintMaxSize(n) + n
    case MESSAGE(msg) => MessageSize(msg, 0) + VarintMaxSize(MessageSize(msg, 0))
    case _ => Datatype(t, s).0
  }

  /** Field.encoded_size: room for an unpacked array, and for the length of a packed array of one. */
  function FieldSize(f: Field, oneof: bool): nat
    decreases f, 1
  {
    var size := ItemSize(f.proto, f.intSize) + VarintMaxSize(8 * f.tag);
    if f.rules.REPEATED? && !oneof then size * f.rules.maxCount + (if f.rules.maxCount == 1 then 1 else 0) else size
  }

  /** OneOf.encoded_size: the largest of the members from k on. */
  function LargestMember(members: seq<Field>, k: nat): nat
    requires k <= |members|
    decreases members, 2, |members| - k
  {
    if k == |members| then 0 else Max(FieldSize(members[k], true), LargestMember(members, k + 1))
  }

  function EntrySize(e: Entry): nat
    decreases e, 3
  {
    match e
    case Single(f) => FieldSize(f, false)
    case OneOf(members) => LargestMember(members, 0)
  }

  /** Message.encoded_size, of the entries from j on. */
  function MessageSize(msg: Message, j: nat): nat
    requires j <= |msg.entries|
    decreases msg, 4, |msg.entries| - j
  {
    if j == |msg.entries| then 0 else EntrySize(msg.entries[j]) + MessageSize(msg, j + 1)
  }

  // ---- values in range ------------------------------------------------------------------

  /** The smallest number that takes as many bytes as the largest one that the C type of an enum can hold. */
  function EnumLimit(s: IntSize): nat {
    if s.IS_8? then 0x80 else if s.IS_16? then 0x4000 else if s.IS_64? then 0x8000_0000_0000_0000 else 0x1000_0000
  }

  /** The longest declared value of an enum is as long as any that its C type can hold. */
  predicate EnumCovers(values: seq<int>, s: IntSize) {
    HasNegative(values) || exists i :: 0 <= i < |values| && values[i] >= EnumLimit(s)
  }

  /**
   * Of the values that the C type of an item can hold, those that the announced size allows for: enum values must be
   * declared, unless the enum covers all others, and bytes must not exceed an odd max_size.
   */
  ghost predicate ItemInRange(t: ProtoType, s: IntSize, v: Value)
    decreases t, 0
  {
    match t
    case ENUM(values) => v.VInt? && (v.i in values || EnumCovers(values, s))
    case BYTES(n) => v.VBytes? && (|v.b| <= n || n % 2 == 0)
    case MESSAGE(msg) => v.VMsg? && StructInRange(msg, v.slots)
    case _ => true
  }

  ghost predicate FieldInRange(f: Field, slot: seq<Value>)
    decreases f, 1
  {
    forall k :: 0 <= k < |slot| ==> ItemInRange(f.proto, f.intSize, slot[k])
  }

  ghost predicate EntryInRange(e: Entry, d: MsgDesc, m: Slots)
    decreases e, 2
  {
    match e
    case Single(f) => FieldInRange(f, SlotOf(d, m, f.tag))
    case OneOf(members) => forall k :: 0 <= k < |members| ==> FieldInRange(members[k], SlotOf(d, m, members[k].tag))
  }

  ghost predicate StructInRange(msg: Message, m: Slots)
    decreases msg, 3
  {
    forall j :: 0 <= j < |msg.entries| ==> EntryInRange(msg.entries[j], Compile(msg), m)
  }

  /** The slot of the field with this tag. */
  ghost function SlotOf(d: MsgDesc, m: Slots, tag: nat): seq<Value> {
    match FieldWithTag(d, tag)
    case None => []
    case Some(i) => if i < |m| then m[i] else []
  }

  // ---- one item -----------------------------------------------------------------------------

  lemma ShortVarints(n: nat)
    ensures n < 0x100 ==> |V.VarintBytes(n)| <= 2
    ensures n < 0x1_0000 ==> |V.VarintBytes(n)| <= 3
    ensures n < 0x1_0000_0000 ==> |V.VarintBytes(n)| <= 5
    ensures n < 0x1_0000_0000_0000_0000 ==> |V.VarintBytes(n)| <= 10
  {
    V.PowersOfTwo();
    hide Pow2, V.VarintBytes;
    if n < 0x100 { V.VarintLengthBound(n, 2); }
    if n < 0x1_0000 { V.VarintLengthBound(n, 3); }
    if n < 0x1_0000_0000 { V.VarintLengthBound(n, 5); }
    if n < 0x1_0000_0000_0000_0000 { V.VarintLengthBound(n, 10); }
  }

  lemma {:induction false} EnumSizeIs(values: seq<int>, v: int)
    requires v in values
    ensures VarintMaxSize(v) <= EnumSize(values)
  {
    if v != values[0] {
      assert values == [values[0]] + values[1..];
      EnumSizeIs(values[1..], v);
    }
  }

  lemma DeclaredNegative(values: seq<int>, v: int)
    requires v in values && v < 0
    ensures HasNegative(values)
  {
    var i :| 0 <= i < |values| && values[i] == v;
  }

  lemma VarintShortens(a: nat, b: nat)
    requires a <= b
    ensures |V.VarintBytes(a)| <= VarintMaxSize(b)
  {
    V.VarintLengthMonotone(a, b);
  }

  /** What the table says about the numbers that are written as varints. */
  lemma VarintTable(t: ProtoType, s: IntSize, v: int)
    requires LTypeOf(t).Packable() && !LTypeOf(t).Fixed32? && !LTypeOf(t).Fixed64?
    requires ItemOk(LTypeOf(t), Datatype(t, s).1, VInt(v)) && !t.ENUM?
    ensures var u := VarintArgument(LTypeOf(t), v);
      || Datatype(t, s).0 == 10
      || (Datatype(t, s).0 == 5 && u < 0x1_0000_0000)
      || (Datatype(t, s).0 == 3 && u < 0x1_0000)
      || (Datatype(t, s).0 == 2 && u < 0x100)
      || (Datatype(t, s).0 == 1 && u < 2)
  {
  }

  lemma OneByte(u: nat)
    ensures u < 2 ==> |V.VarintBytes(u)| == 1
  {
  }

  lemma LengthAt(n: nat, k: nat)
    requires k >= 1 && n == Pow2(7 * k) && n < Pow2(7 * (k + 1))
    ensures |V.VarintBytes(n)| == k + 1
    ensures |V.VarintBytes(n - 1)| <= k
  {
    V.VarintLengthAbove(n, k);
    V.VarintLengthBound(n, k + 1);
    V.VarintLengthBound(n - 1, k);
  }

  lemma LengthAtLimit(s: IntSize)
    ensures |V.VarintBytes(EnumLimit(s))| == if s.IS_8? then 2 else if s.IS_16? then 3 else if s.IS_64? then 10 else 5
    ensures |V.VarintBytes(EnumLimit(s) - 1)| < |V.VarintBytes(EnumLimit(s))|
  {
    V.PowersOfTwo();
    hide Pow2, V.VarintBytes;
    LengthAt(EnumLimit(s), if s.IS_8? then 1 else if s.IS_16? then 2 else if s.IS_64? then 9 else 4);
  }

  /** An enum value is written in no more bytes than the longest of the declared values. */
  lemma EnumBound(values: seq<int>, s: IntSize, v: int)
    requires ItemOk(LTypeOf(ENUM(values)), Datatype(ENUM(values), s).1, VInt(v))
    requires v in values || EnumCovers(values, s)
    ensures |V.VarintBytes(VarintArgument(LTypeOf(ENUM(values)), v))| <= EnumSize(values)
  {
    var u := VarintArgument(LTypeOf(ENUM(values)), v);
    ShortVarints(u);
    if v in values && v < 0 {
      DeclaredNegative(values, v);
    }
    if HasNegative(values) {
      var i :| 0 <= i < |values| && values[i] < 0;
      NegativeTakesTen(values[i]);
      EnumSizeIs(values, values[i]);
    } else if v in values {
      EnumSizeIs(values, v);
    } else {
      var i :| 0 <= i < |values| && values[i] >= EnumLimit(s);
      EnumSizeIs(values, values[i]);
      LengthAtLimit(s);
      V.VarintLengthMonotone(EnumLimit(s), values[i]);
    }
  }

  /** A number takes no more than the table says, for the integer size that the field has. */
  lemma NumberBound(t: ProtoType, s: IntSize, v: Value)
    requires LTypeOf(t).Packable() && ItemOk(LTypeOf(t), Datatype(t, s).1, v) && ItemInRange(t, s, v)
    ensures EncodeItem(LTypeOf(t), Datatype(t, s).1, v).Some?
    ensures |EncodeItem(LTypeOf(t), Datatype(t, s).1, v).value| <= ItemSize(t, s)
    ensures |EncodeItem(LTypeOf(t), Datatype(t, s).1, v).value| <= 10
  {
    assert t.ENUM? ==> v.i in t.values || EnumCovers(t.values, s);
    hide *;
    var l := LTypeOf(t);
    if !l.Fixed32? && !l.Fixed64? {
      var u := VarintArgument(l, v.i);
      ShortVarints(u);
      OneByte(u);
      if t.ENUM? {
        EnumBound(t.values, s, v.i);
      } else {
        VarintTable(t, s, v.i);
      }
    }
  }

  lemma SubmessageItem(t: ProtoType, s: IntSize, dataSize: nat, v: Value)
    requires t.MESSAGE? && ItemOk(LTypeOf(t), dataSize, v) && ItemInRange(t, s, v)
    requires EncodeItem(LTypeOf(t), dataSize, v).Some?
    ensures v.VMsg? && StructOk(Compile(t.msg), v.slots) && StructInRange(t.msg, v.slots)
    ensures EncodeStruct(Compile(t.msg), v.slots).Some?
    ensures |EncodeItem(LTypeOf(t), dataSize, v).value|
         == var b := EncodeStruct(Compile(t.msg), v.slots).value; |b| + |V.VarintBytes(|b| % 0x1_0000_0000_0000_0000)|
    ensures forall b: bytes :: |b| % 0x1_0000_0000_0000_0000 <= |b|
  {
    hide StructOk, V.VarintBytes;
  }

  lemma TextBound(t: ProtoType, s: IntSize, dataSize: nat, v: Value)
    requires t.STRING? || t.BYTES? || t.FIXED_LENGTH_BYTES?
    requires ItemOk(LTypeOf(t), dataSize, v) && ItemInRange(t, s, v) && dataSize == Datatype(t, s).1
    requires EncodeItem(LTypeOf(t), dataSize, v).Some?
    ensures |EncodeItem(LTypeOf(t), dataSize, v).value| <= ItemSize(t, IS_DEFAULT)
  {
    var b := if t.STRING? then Text(v.b) else v.b;
    VarintShortens(|b| % TWO_64, t.maxSize);
    hide V.VarintBytes;
  }

  lemma KindOf(f: Field, h: HType)
    requires WfProto(f, h)
    ensures f.proto.MESSAGE? ==> WfMessage(f.proto.msg)
    ensures f.proto.MESSAGE? ==> ItemSize(f.proto, f.intSize) == MessageSize(f.proto.msg, 0) + VarintMaxSize(MessageSize(f.proto.msg, 0))
    ensures !f.proto.MESSAGE? ==> DataSize(f) == Datatype(f.proto, f.intSize).1
    ensures LTypeOf(f.proto).Packable() || f.proto.MESSAGE? || f.proto.STRING? || f.proto.BYTES? || f.proto.FIXED_LENGTH_BYTES?
    ensures f.proto.STRING? || f.proto.BYTES? || f.proto.FIXED_LENGTH_BYTES? ==>
      ItemSize(f.proto, f.intSize) == ItemSize(f.proto, IS_DEFAULT)
  {
  }

  /** An item takes no more than its encoded size; a submessage, with its length in front. */
  lemma {:induction false} ItemBound(f: Field, h: HType, v: Value)
    requires WfProto(f, h) && ItemOk(LTypeOf(f.proto), DataSize(f), v) && ItemInRange(f.proto, f.intSize, v)
    requires EncodeItem(LTypeOf(f.proto), DataSize(f), v).Some?
    ensures |EncodeItem(LTypeOf(f.proto), DataSize(f), v).value| <= ItemSize(f.proto, f.intSize)
    decreases f, 0
  {
    hide *;
    var t := f.proto;
    KindOf(f, h);
    if t.MESSAGE? {
      SubmessageItem(t, f.intSize, DataSize(f), v);
      MessageBound(t.msg, v.slots);
      VarintShortens(|EncodeStruct(Compile(t.msg), v.slots).value| % 0x1_0000_0000_0000_0000, MessageSize(t.msg, 0));
    } else if LTypeOf(t).Packable() {
      NumberBound(t, f.intSize, v);
    } else {
      TextBound(t, f.intSize, DataSize(f), v);
    }
  }

  // ---- one field -------------------------------------------------------------------------------

  lemma TagLength(tag: nat, wireType: nat)
    requires wireType < 8
    ensures |TagBytes(tag, wireType)| == VarintMaxSize(8 * tag)
  {
    assert (8 * tag + wireType) / 128 == 8 * tag / 128;
  }

  lemma OneMore(n: nat, size: nat)
    requires n > 0
    ensures n * size == size + (n - 1) * size
  {
  }

  lemma {:induction false} TaggedBound(f: Field, h: HType, items: seq<Value>)
    requires WfProto(f, h) && FieldInRange(f, items)
    requires forall k :: 0 <= k < |items| ==> ItemOk(LTypeOf(f.proto), DataSize(f), items[k])
    requires EncodeTagged(CompileField(f, h), items).Some?
    ensures |EncodeTagged(CompileField(f, h), items).value|
         <= |items| * (ItemSize(f.proto, f.intSize) + VarintMaxSize(8 * f.tag))
    decreases f, 1, |items|
  {
    var d, size := CompileField(f, h), ItemSize(f.proto, f.intSize) + VarintMaxSize(8 * f.tag);
    assert d.ltype == LTypeOf(f.proto) && d.dataSize == DataSize(f) && d.tag == f.tag;
    if items == [] {
      assert EncodeTagged(d, items) == Some([]);
    } else {
      assert ItemInRange(f.proto, f.intSize, items[0]) && FieldInRange(f, items[1..]);
      hide *;
      ItemBound(f, h, items[0]);
      TagLength(f.tag, WireType(d.ltype));
      TaggedBound(f, h, items[1..]);
      OneMore(|items|, size);
    }
  }

  lemma {:induction false} BareBound(f: Field, h: HType, items: seq<Value>)
    requires WfProto(f, h) && FieldInRange(f, items) && LTypeOf(f.proto).Packable()
    requires forall k :: 0 <= k < |items| ==> ItemOk(LTypeOf(f.proto), DataSize(f), items[k])
    ensures EncodeBare(CompileField(f, h), items).Some?
    ensures |EncodeBare(CompileField(f, h), items).value| <= |items| * ItemSize(f.proto, f.intSize)
    ensures |EncodeBare(CompileField(f, h), items).value| <= |items| * 10
    decreases |items|
  {
    var d, size := CompileField(f, h), ItemSize(f.proto, f.intSize);
    assert d.ltype == LTypeOf(f.proto) && d.dataSize == DataSize(f) == Datatype(f.proto, f.intSize).1;
    if items == [] {
      assert EncodeBare(d, items) == Some([]);
    } else {
      assert ItemInRange(f.proto, f.intSize, items[0]) && FieldInRange(f, items[1..]);
      hide *;
      NumberBound(f.proto, f.intSize, items[0]);
      BareBound(f, h, items[1..]);
      OneMore(|items|, size);
    }
  }

  lemma {:induction false} LengthGrowsSlowly(x: nat)
    ensures |V.VarintBytes(x)| <= 1 + x / 128
  {
    if x >= 128 {
      LengthGrowsSlowly(x / 128);
    }
  }

  lemma TagsPay(n: nat, tagSize: nat)
    requires n >= 1 && tagSize >= 1
    ensures n * tagSize >= tagSize + n - 1
  {
    assert (n - 1) * tagSize >= n - 1;
    assert n * tagSize == tagSize + (n - 1) * tagSize;
  }

  lemma Spread(k: nat, n: nat, size: nat, tagSize: nat)
    requires k <= n
    ensures k * size <= n * size && (size + tagSize) * n == n * size + n * tagSize
  {
  }

  /** The length of a packed array and its one tag take no more than the tags of the unpacked array. */
  lemma PackedPays(k: nat, n: nat, total: nat, size: nat, tagSize: nat)
    requires 1 <= k <= n && total <= k * size && total <= k * 10 && tagSize >= 1
    ensures total + |V.VarintBytes(total % 0x1_0000_0000_0000_0000)| + tagSize <= (size + tagSize) * n + if n == 1 then 1 else 0
  {
    hide V.VarintBytes;
    var length := |V.VarintBytes(total % 0x1_0000_0000_0000_0000)|;
    V.VarintLengthMonotone(total % 0x1_0000_0000_0000_0000, total);
    LengthGrowsSlowly(total);
    TagsPay(n, tagSize);
    Spread(k, n, size, tagSize);
  }

  /** The tags of a repeated field are counted as often as it can have items; a single packed item takes a byte more. */
  function Times(f: Field, h: HType): nat {
    if h.Repeated? && f.rules.REPEATED? then f.rules.maxCount else 1
  }

  lemma FieldSizeIs(f: Field, h: HType, slot: seq<Value>)
    requires WfProto(f, h) && (h == RuleOf(f.rules) || h.Oneof?)
    requires SlotOk(CompileField(f, h), slot) && EncodeField(CompileField(f, h), slot).Some?
    ensures FieldSize(f, h.Oneof?)
         == (ItemSize(f.proto, f.intSize) + VarintMaxSize(8 * f.tag)) * Times(f, h) + (if h.Repeated? && Times(f, h) == 1 then 1 else 0)
    ensures |slot| <= Times(f, h)
    ensures var d := CompileField(f, h); d.ltype == LTypeOf(f.proto) && d.dataSize == DataSize(f) && d.tag == f.tag && d.htype == h
  {
    hide ItemSize, VarintMaxSize, EncodeTagged, EncodeBare, ItemOk;
  }

  lemma UnpackedField(d: FieldDesc, slot: seq<Value>)
    requires SlotOk(d, slot) && EncodeField(d, slot).Some? && (d.htype.Repeated? ==> !d.ltype.Packable() || slot == [])
    ensures forall k :: 0 <= k < |slot| ==> ItemOk(d.ltype, d.dataSize, slot[k])
    ensures EncodeTagged(d, slot) == EncodeField(d, slot)
  {
    hide ItemOk, EncodeItem;
  }

  lemma {:induction false} FieldBound(f: Field, h: HType, slot: seq<Value>)
    requires WfProto(f, h) && (h == RuleOf(f.rules) || h.Oneof?)
    requires SlotOk(CompileField(f, h), slot) && FieldInRange(f, slot)
    requires EncodeField(CompileField(f, h), slot).Some?
    ensures |EncodeField(CompileField(f, h), slot).value| <= FieldSize(f, h.Oneof?)
    decreases f, 2
  {
    hide *;
    var d, n := CompileField(f, h), Times(f, h);
    var size, tagSize := ItemSize(f.proto, f.intSize), VarintMaxSize(8 * f.tag);
    FieldSizeIs(f, h, slot);
    if h.Repeated? && d.ltype.Packable() && slot != [] {
      PackedLength(d, slot);
      BareBound(f, h, slot);
      PackedPays(|slot|, n, |EncodeBare(d, slot).value|, size, tagSize);
      TagLength(f.tag, 2);
    } else {
      UnpackedField(d, slot);
      TaggedBound(f, h, slot);
      Fewer(|slot|, n, size + tagSize);
    }
  }

  lemma Fewer(k: nat, n: nat, size: nat)
    requires k <= n
    ensures k * size <= size * n
  {
  }

  lemma PackedLength(d: FieldDesc, slot: seq<Value>)
    requires SlotOk(d, slot) && d.htype.Repeated? && d.ltype.Packable() && slot != []
    requires EncodeField(d, slot).Some?
    ensures forall k :: 0 <= k < |slot| ==> ItemOk(d.ltype, d.dataSize, slot[k])
    ensures EncodeBare(d, slot).Some?
    ensures var b := EncodeBare(d, slot).value;
      |EncodeField(d, slot).value| == |TagBytes(d.tag, 2)| + |V.VarintBytes(|b| % 0x1_0000_0000_0000_0000)| + |b|
  {
    hide EncodeBare, V.VarintBytes;
  }

  // ---- whole messages -----------------------------------------------------------------------------

  /** How many bytes are written for the field with this tag. */
  ghost function Weight(d: MsgDesc, m: Slots, tag: nat): nat
    requires StructOk(d, m)
  {
    match FieldWithTag(d, tag)
    case None => 0
    case Some(i) =>
      assert SlotOk(d.fields[i], m[i]);
      match EncodeField(d.fields[i], m[i])
      case None => 0
      case Some(b) => |b|
  }

  ghost function Sum(d: MsgDesc, m: Slots, fs: seq<FieldDesc>): nat
    requires StructOk(d, m)
  {
    if fs == [] then 0 else Weight(d, m, fs[0].tag) + Sum(d, m, fs[1..])
  }

  lemma {:induction false} SumOfTwo(d: MsgDesc, m: Slots, a: seq<FieldDesc>, b: seq<FieldDesc>)
    requires StructOk(d, m)
    ensures Sum(d, m, a + b) == Sum(d, m, a) + Sum(d, m, b)
    decreases |a|
  {
    hide StructOk, Weight;
    if a == [] {
      assert a + b == b;
    } else {
      assert (a + b)[1..] == a[1..] + b;
      SumOfTwo(d, m, a[1..], b);
    }
  }

  lemma {:induction false} SumInserted(d: MsgDesc, m: Slots, f: FieldDesc, s: seq<FieldDesc>)
    requires StructOk(d, m)
    ensures Sum(d, m, Insert(f, s)) == Weight(d, m, f.tag) + Sum(d, m, s)
    decreases |s|
  {
    hide StructOk, Weight;
    if s == [] || f.tag <= s[0].tag {
      assert ([f] + s)[1..] == s;
    } else {
      SumInserted(d, m, f, s[1..]);
      assert ([s[0]] + Insert(f, s[1..]))[1..] == Insert(f, s[1..]);
    }
  }

  /** Sorting moves the fields around, it does not change what they add up to. */
  lemma {:induction false} SumSorted(d: MsgDesc, m: Slots, s: seq<FieldDesc>)
    requires StructOk(d, m)
    ensures Sum(d, m, SortByTag(s)) == Sum(d, m, s)
    decreases |s|
  {
    hide StructOk, Weight;
    if s != [] {
      SumSorted(d, m, s[1..]);
      SumInserted(d, m, s[0], SortByTag(s[1..]));
    }
  }

  lemma WeightAt(d: MsgDesc, m: Slots, i: nat)
    requires WfDesc(d) && StructOk(d, m) && i < |d.fields|
    ensures SlotOk(d.fields[i], m[i]) && SlotOf(d, m, d.fields[i].tag) == m[i]
    ensures EncodeField(d.fields[i], m[i]).Some? ==> Weight(d, m, d.fields[i].tag) == |EncodeField(d.fields[i], m[i]).value|
  {
    FieldWithTagIs(d, i);
    hide EncodeField;
  }

  lemma {:induction false} LengthIsSum(d: MsgDesc, m: Slots, i: nat)
    requires WfDesc(d) && StructOk(d, m) && i <= |d.fields|
    requires EncodeFrom(d, m, i).Some?
    ensures |EncodeFrom(d, m, i).value| == Sum(d, m, d.fields[i..])
    ensures forall j :: i <= j < |d.fields| ==> EncodeField(d.fields[j], m[j]).Some?
    decreases |d.fields| - i
  {
    if i < |d.fields| {
      WeightAt(d, m, i);
      assert EncodeField(d.fields[i], m[i]).Some? && EncodeFrom(d, m, i + 1).Some?;
      assert |EncodeFrom(d, m, i).value| == |EncodeField(d.fields[i], m[i]).value| + |EncodeFrom(d, m, i + 1).value|;
      hide StructOk, Weight, EncodeFrom, EncodeField, WfDesc;
      LengthIsSum(d, m, i + 1);
      assert d.fields[i..][1..] == d.fields[i + 1..];
    }
  }

  /** All fields of the struct are encoded, and x is one of them. */
  ghost predicate Encodes(d: MsgDesc, m: Slots) {
    WfDesc(d) && StructOk(d, m) && EncodeStruct(d, m).Some?
  }

  lemma WeightOf(d: MsgDesc, m: Slots, x: FieldDesc)
    requires Encodes(d, m) && x in d.fields
    ensures SlotOk(x, SlotOf(d, m, x.tag)) && EncodeField(x, SlotOf(d, m, x.tag)).Some?
    ensures Weight(d, m, x.tag) == |EncodeField(x, SlotOf(d, m, x.tag)).value|
  {
    var i :| 0 <= i < |d.fields| && d.fields[i] == x;
    WeightAt(d, m, i);
    LengthIsSum(d, m, 0);
  }

  /** Of two members of a union, one is not set and nothing is written for it. */
  lemma UnionMembers(d: MsgDesc, m: Slots, x: FieldDesc, y: FieldDesc)
    requires Encodes(d, m) && x in d.fields && y in d.fields && x.tag != y.tag && SameUnion(x, y)
    ensures Weight(d, m, x.tag) == 0 || Weight(d, m, y.tag) == 0
  {
    var i :| 0 <= i < |d.fields| && d.fields[i] == x;
    var j :| 0 <= j < |d.fields| && d.fields[j] == y;
    WeightAt(d, m, i);
    WeightAt(d, m, j);
    WeightOf(d, m, x);
    WeightOf(d, m, y);
    assert m[i] == [] || m[j] == [];
  }

  lemma {:induction false} NothingElse(d: MsgDesc, m: Slots, fs: seq<FieldDesc>)
    requires StructOk(d, m) && forall k :: 0 <= k < |fs| ==> Weight(d, m, fs[k].tag) == 0
    ensures Sum(d, m, fs) == 0
    decreases |fs|
  {
    hide StructOk, Weight;
    if fs != [] {
      NothingElse(d, m, fs[1..]);
    }
  }

  lemma {:induction false} MemberBound(f: Field, h: HType, d: MsgDesc, m: Slots)
    requires Encodes(d, m) && WfProto(f, h) && (h == RuleOf(f.rules) || h.Oneof?)
    requires CompileField(f, h) in d.fields && FieldInRange(f, SlotOf(d, m, f.tag))
    ensures Weight(d, m, f.tag) <= FieldSize(f, h.Oneof?)
    decreases f, 3
  {
    var x := CompileField(f, h);
    assert x.tag == f.tag;
    hide *;
    WeightOf(d, m, x);
    FieldBound(f, h, SlotOf(d, m, f.tag));
  }

  /** At most one member of a oneof is written. */
  lemma {:induction false} MembersBound(e: Entry, j: nat, k: nat, d: MsgDesc, m: Slots)
    requires Encodes(d, m) && e.OneOf? && k <= |e.members|
    requires WfEntry(e, j) && EntryInRange(e, d, m)
    requires forall x :: x in CompileEntry(e, j) ==> x in d.fields
    requires TagsDiffer(CompileEntry(e, j))
    ensures Sum(d, m, CompileEntry(e, j)[k..]) <= LargestMember(e.members, k)
    decreases e, 4, |e.members| - k
  {
    var fs := CompileEntry(e, j);
    if k < |e.members| {
      var x := fs[k];
      assert x == CompileField(e.members[k], Oneof(j)) && x in fs;
      MemberBound(e.members[k], Oneof(j), d, m);
      MembersBound(e, j, k + 1, d, m);
      assert fs[k..][1..] == fs[k + 1..] && fs[k..][0] == x;
      forall i | k < i < |fs| ensures Weight(d, m, x.tag) == 0 || Weight(d, m, fs[i].tag) == 0 {
        assert fs[i] == CompileField(e.members[i], Oneof(j)) && fs[i] in fs;
        UnionMembers(d, m, x, fs[i]);
      }
      hide *;
      if Weight(d, m, x.tag) != 0 {
        OthersUnset(d, m, fs, k);
      }
    }
  }

  lemma OthersUnset(d: MsgDesc, m: Slots, fs: seq<FieldDesc>, k: nat)
    requires StructOk(d, m) && k < |fs|
    requires forall i :: k < i < |fs| ==> Weight(d, m, fs[i].tag) == 0
    ensures Sum(d, m, fs[k + 1..]) == 0
  {
    hide StructOk, Weight;
    NothingElse(d, m, fs[k + 1..]);
  }

  lemma {:induction false} EntryBound(e: Entry, j: nat, d: MsgDesc, m: Slots)
    requires Encodes(d, m) && WfEntry(e, j) && EntryInRange(e, d, m)
    requires forall x :: x in CompileEntry(e, j) ==> x in d.fields
    requires TagsDiffer(CompileEntry(e, j))
    ensures Sum(d, m, CompileEntry(e, j)) <= EntrySize(e)
    decreases e, 5
  {
    var fs := CompileEntry(e, j);
    match e
    case Single(f) =>
      assert fs == [CompileField(f, RuleOf(f.rules))] && fs[0] in fs;
      MemberBound(f, RuleOf(f.rules), d, m);
      assert fs[1..] == [];
    case OneOf(members) =>
      MembersBound(e, j, 0, d, m);
      assert fs[0..] == fs;
  }

  lemma {:induction false} EntriesBound(msg: Message, j: nat, d: MsgDesc, m: Slots)
    requires Encodes(d, m) && j <= |msg.entries|
    requires forall i :: j <= i < |msg.entries| ==> WfEntry(msg.entries[i], i) && EntryInRange(msg.entries[i], d, m)
    requires forall x :: x in CompileFrom(msg, j) ==> x in d.fields
    requires TagsDiffer(CompileFrom(msg, j))
    ensures Sum(d, m, CompileFrom(msg, j)) <= MessageSize(msg, j)
    decreases msg, 6, |msg.entries| - j
  {
    if j == |msg.entries| {
      assert CompileFrom(msg, j) == [];
    } else {
      var a, b := CompileEntry(msg.entries[j], j), CompileFrom(msg, j + 1);
      assert CompileFrom(msg, j) == a + b;
      assert MessageSize(msg, j) == EntrySize(msg.entries[j]) + MessageSize(msg, j + 1);
      hide CompileEntry, CompileFrom, WfEntry, EntryInRange, Encodes, Sum, MessageSize, EntrySize;
      BothDiffer(a, b);
      EntryBound(msg.entries[j], j, d, m);
      EntriesBound(msg, j + 1, d, m);
      assert Encodes(d, m) ==> StructOk(d, m) by { EncodesStruct(d, m); }
      SumOfTwo(d, m, a, b);
    }
  }

  lemma EncodesStruct(d: MsgDesc, m: Slots)
    requires Encodes(d, m)
    ensures WfDesc(d) && StructOk(d, m) && EncodeStruct(d, m).Some?
  {
  }

  lemma BothDiffer(a: seq<FieldDesc>, b: seq<FieldDesc>)
    requires TagsDiffer(a + b)
    ensures TagsDiffer(a) && TagsDiffer(b)
    ensures forall x :: x in a || x in b ==> x in a + b
  {
    forall i, j | 0 <= i < j < |a| ensures a[i].tag != a[j].tag {
      assert (a + b)[i].tag != (a + b)[j].tag;
    }
    forall i, j | 0 <= i < j < |b| ensures b[i].tag != b[j].tag {
      assert (a + b)[|a| + i].tag != (a + b)[|a| + j].tag;
    }
  }

  /**
   * For every message type and every struct with values in range, the encoder writes no more bytes than the
   * generator announces: packed arrays, nested length prefixes and oneofs included.
   */
  lemma {:induction false} MessageBound(msg: Message, m: Slots)
    requires WfMessage(msg) && StructOk(Compile(msg), m) && StructInRange(msg, m)
    requires EncodeStruct(Compile(msg), m).Some?
    ensures |EncodeStruct(Compile(msg), m).value| <= MessageSize(msg, 0)
    decreases msg, 7
  {
    var d, fs := Compile(msg), CompileFrom(msg, 0);
    assert d.fields == SortByTag(fs) && d.fields[0..] == d.fields;
    assert EncodeStruct(d, m) == EncodeFrom(d, m, 0);
    assert forall i :: 0 <= i < |msg.entries| ==> WfEntry(msg.entries[i], i) && EntryInRange(msg.entries[i], d, m);
    CompiledWf(msg);
    assert Encodes(d, m) && TagsDiffer(fs);
    hide *;
    SortKeeps(fs);
    LengthIsSum(d, m, 0);
    SumSorted(d, m, fs);
    EntriesBound(msg, 0, d, m);
  }

  // ---- values that are longer than announced ------------------------------------------------------------

  function Filled(n: nat): (b: bytes)
    ensures |b| == n
  {
    seq(n, _ => 1)
  }

  /**
   * The struct of a bytes field ends on an even address, and the encoder checks a value against the size of the
   * struct. So the encoder itself keeps to the announced size if and only if max_size is even: with an odd one
   * there is room for a byte more than max_size, and the encoder writes it.
   */
  lemma BytesBoundedIffEven(n: nat)
    requires n < 0xFFFD
    ensures (forall b: bytes :: |b| < 0x1_0000 && EncodeItem(ByteArray, Datatype(BYTES(n), IS_DEFAULT).1, VBytes(b)).Some?
               ==> |EncodeItem(ByteArray, Datatype(BYTES(n), IS_DEFAULT).1, VBytes(b)).value| <= ItemSize(BYTES(n), IS_DEFAULT))
       <==> n % 2 == 0
  {
    var size := Datatype(BYTES(n), IS_DEFAULT).1;
    forall b: bytes | |b| < 0x1_0000 && EncodeItem(ByteArray, size, VBytes(b)).Some?
      ensures |EncodeItem(ByteArray, size, VBytes(b)).value| == |V.VarintBytes(|b|)| + |b|
      ensures |b| <= n ==> |V.VarintBytes(|b|)| <= VarintMaxSize(n)
      ensures |b| >= n ==> |V.VarintBytes(|b|)| >= VarintMaxSize(n)
    {
      if |b| <= n { VarintShortens(|b|, n); } else { V.VarintLengthMonotone(n, |b|); }
    }
    if n % 2 == 1 {
      assert EncodeItem(ByteArray, size, VBytes(Filled(n + 1))).Some?;
    }
  }

  lemma {:induction false} EnumSizeBelow(values: seq<int>, limit: nat)
    requires limit > 0 && forall i :: 0 <= i < |values| ==> 0 <= values[i] < limit
    ensures EnumSize(values) <= |V.VarintBytes(limit - 1)|
  {
    if values != [] {
      EnumSizeBelow(values[1..], limit);
      V.VarintLengthMonotone(values[0], limit - 1);
    }
  }

  /** The largest value that the C type of an enum without negative values holds. */
  function LargestEnum(s: IntSize): nat {
    if s.IS_8? then 0xFF else if s.IS_16? then 0xFFFF else if s.IS_64? then 0xFFFF_FFFF_FFFF_FFFF else 0xFFFF_FFFF
  }

  /**
   * The encoder does not ask whether a value of an enum is declared. So it keeps to the announced size for all values
   * that the C type can hold if and only if a declared value is negative or is as long as the longest of those.
   */
  lemma EnumBoundedIffCovers(values: seq<int>, s: IntSize)
    ensures (forall v :: ItemOk(LTypeOf(ENUM(values)), Datatype(ENUM(values), s).1, VInt(v))
               ==> |EncodeItem(LTypeOf(ENUM(values)), Datatype(ENUM(values), s).1, VInt(v)).value| <= ItemSize(ENUM(values), s))
       <==> EnumCovers(values, s)
  {
    var l, size := LTypeOf(ENUM(values)), Datatype(ENUM(values), s).1;
    if EnumCovers(values, s) {
      forall v | ItemOk(l, size, VInt(v)) ensures |EncodeItem(l, size, VInt(v)).value| <= ItemSize(ENUM(values), s) {
        EnumBound(values, s, v);
      }
    } else {
      var v := LargestEnum(s);
      assert ItemOk(l, size, VInt(v));
      EnumSizeBelow(values, EnumLimit(s));
      LengthAtLimit(s);
      V.VarintLengthMonotone(EnumLimit(s), v);
    }
  }
}
