/** The announced sizes are no larger than they need to be: values that take all of them. */
module Tight {
  import opened Bytes
  import opened Descriptor
  import opened Wire
  import opened Generator
  import opened SizeBound
  import opened Forms
  import V = Varint

  /** 256^width */
  function Limit(width: nat): nat {
    match width
    case 1 => 0x100
    case 2 => 0x1_0000
    case 4 => 0x1_0000_0000
    case _ => 0x1_0000_0000_0000_0000
  }

  /** The number of this type that takes the most bytes. */
  function Longest(t: ProtoType, s: IntSize): int {
    match t
    case BOOL => 1
    case INT32 => -1
    case INT64 => -1
    case SINT32 => -(Limit(WidthOf(s, 4)) / 2)
    case SINT64 => -(Limit(WidthOf(s, 8)) / 2)
    case UINT32 => Limit(WidthOf(s, 4)) - 1
    case UINT64 => Limit(WidthOf(s, 8)) - 1
    case _ => 0
  }

  /** How many bytes the largest number of so many bytes takes as a varint. */
  function FullLength(width: nat): nat {
    match width
    case 1 => 2
    case 2 => 3
    case 4 => 5
    case _ => 10
  }

  lemma FullVarint(width: nat)
    requires width in {1, 2, 4, 8}
    ensures |V.VarintBytes(Limit(width) - 1)| == FullLength(width)
  {
    V.PowersOfTwo();
    var n, k := Limit(width) - 1, FullLength(width);
    hide Pow2, V.VarintBytes;
    V.VarintLengthAbove(n, k - 1);
    V.VarintLengthBound(n, k);
  }

  lemma AtTheLimit(width: nat)
    requires width in {1, 2, 4, 8}
    ensures TakingTurns(-(Limit(width) / 2)) == Limit(width) - 1
    ensures SignedRange(-(Limit(width) / 2), width) && SignedRange(-1, width) && UnsignedRange(Limit(width) - 1, width)
  {
    WidthLimits();
    hide Pow2;
  }

  lemma MinusOne()
    ensures |V.VarintBytes(-1 % TWO_64)| == 10 && |V.VarintBytes(1)| == 1
  {
    FullVarint(8);
    Wrapped(-1);
  }

  lemma WidthKnown(s: IntSize)
    ensures WidthOf(s, 4) in {1, 2, 4, 8} && WidthOf(s, 8) in {1, 2, 4, 8}
  {
  }

  lemma SignedTight(t: ProtoType, s: IntSize, width: nat)
    requires ((t.INT32? || t.SINT32?) && width == WidthOf(s, 4)) || ((t.INT64? || t.SINT64?) && width == WidthOf(s, 8))
    ensures Declared(t, s, Longest(t, s))
    ensures |NumberForm(t, Longest(t, s))| == if t.INT32? || t.INT64? then 10 else FullLength(width)
  {
    hide Pow2, V.VarintBytes, SignedRange, UnsignedRange, TakingTurns, FullLength, WidthOf, Limit;
    WidthKnown(s);
    FullVarint(width);
    AtTheLimit(width);
    MinusOne();
  }

  lemma UnsignedTight(t: ProtoType, s: IntSize, width: nat)
    requires (t.UINT32? && width == WidthOf(s, 4)) || (t.UINT64? && width == WidthOf(s, 8))
    ensures Declared(t, s, Longest(t, s)) && Longest(t, s) >= 0
    ensures |NumberForm(t, Longest(t, s))| == FullLength(width)
  {
    hide Pow2, V.VarintBytes, SignedRange, UnsignedRange, TakingTurns, FullLength, WidthOf, Limit;
    WidthKnown(s);
    FullVarint(width);
    AtTheLimit(width);
    MinusOne();
  }

  /** The encoded sizes of the datatypes table. */
  lemma TableIs(t: ProtoType, s: IntSize)
    requires IsNumber(t) && !t.ENUM?
    ensures ItemSize(t, s) == Datatype(t, s).0
    ensures t.INT32? || t.INT64? ==> Datatype(t, s).0 == 10
    ensures t.SINT32? || t.UINT32? ==> Datatype(t, s).0 == FullLength(WidthOf(s, 4))
    ensures t.SINT64? || t.UINT64? ==> Datatype(t, s).0 == FullLength(WidthOf(s, 8))
  {
  }

  /** Every row of the datatypes table is attained by a number of the declared range. */
  lemma NumberTight(t: ProtoType, s: IntSize)
    requires IsNumber(t) && !t.ENUM?
    ensures Declared(t, s, Longest(t, s))
    ensures Longest(t, s) < 0 ==> t.INT32? || t.INT64? || t.SINT32? || t.SINT64?
    ensures |NumberForm(t, Longest(t, s))| == Datatype(t, s).0 == ItemSize(t, s)
  {
    TableIs(t, s);
    WidthKnown(s);
    if t.INT32? || t.SINT32? {
      SignedTight(t, s, WidthOf(s, 4));
    } else if t.INT64? || t.SINT64? {
      SignedTight(t, s, WidthOf(s, 8));
    } else if t.UINT32? {
      UnsignedTight(t, s, WidthOf(s, 4));
    } else if t.UINT64? {
      UnsignedTight(t, s, WidthOf(s, 8));
    } else {
      FixedRange(0);
      MinusOne();
    }
    hide Pow2, UnsignedRange, SignedRange, FullLength, WidthOf, V.VarintBytes, TakingTurns, Datatype, ItemSize;
  }

  lemma {:induction false} EnumTight(values: seq<int>) returns (v: int)
    requires values != []
    ensures v in values && VarintMaxSize(v) == EnumSize(values)
  {
    v := values[0];
    if |values| > 1 {
      var w := EnumTight(values[1..]);
      if VarintMaxSize(w) > VarintMaxSize(v) {
        v := w;
      }
    } else {
      assert values[1..] == [];
    }
    hide VarintMaxSize;
  }

  /** Byte arrays of a fixed length or an even max_size take all of their size. */
  lemma BytesTight(n: nat)
    requires n < 0x1_0000
    ensures |LengthForm(Filled(n))| == ItemSize(BYTES(n), IS_DEFAULT) == ItemSize(FIXED_LENGTH_BYTES(n), IS_DEFAULT)
  {
  }

  /** The longest text takes all of its size, or one byte less where the length of the text has a shorter prefix than max_size. */
  lemma StringTight(n: nat)
    requires 1 <= n < 0x1_0000
    ensures |Text(Filled(n - 1))| == n - 1
    ensures |LengthForm(Filled(n - 1))| == ItemSize(STRING(n), IS_DEFAULT) - (|V.VarintBytes(n)| - |V.VarintBytes(n - 1)|)
  {
    TextOfFilled(n - 1);
  }

  lemma {:induction false} TextOfFilled(n: nat)
    ensures Text(Filled(n)) == Filled(n)
  {
    if n > 0 {
      TextOfFilled(n - 1);
      assert Filled(n)[1..] == Filled(n - 1);
    }
  }

  /** A repeated field, not packed, with as many items as it can have, all of them of the full size. */
  lemma {:induction false} RepeatedTight(d: FieldDesc, items: seq<Value>, size: nat)
    requires forall k :: 0 <= k < |items| ==>
      ItemOk(d.ltype, d.dataSize, items[k]) && EncodeItem(d.ltype, d.dataSize, items[k]).Some?
      && |EncodeItem(d.ltype, d.dataSize, items[k]).value| == size
    ensures EncodeTagged(d, items).Some?
    ensures |EncodeTagged(d, items).value| == (size + |TagBytes(d.tag, WireType(d.ltype))|) * |items|
    decreases |items|
  {
    hide ItemOk, EncodeItem, TagBytes;
    if items != [] {
      RepeatedTight(d, items[1..], size);
      OneMore(|items|, size + |TagBytes(d.tag, WireType(d.ltype))|);
    }
  }

  /** So the size announced for a repeated field of strings, bytes or submessages is what its largest items take. */
  lemma FieldTight(f: Field, items: seq<Value>)
    requires WfProto(f, Repeated) && f.rules.REPEATED? && !LTypeOf(f.proto).Packable()
    requires f.rules.maxCount > 1 && |items| == f.rules.maxCount
    requires forall k :: 0 <= k < |items| ==>
      ItemOk(LTypeOf(f.proto), DataSize(f), items[k]) && EncodeItem(LTypeOf(f.proto), DataSize(f), items[k]).Some?
      && |EncodeItem(LTypeOf(f.proto), DataSize(f), items[k]).value| == ItemSize(f.proto, f.intSize)
    ensures SlotOk(CompileField(f, Repeated), items) && EncodeField(CompileField(f, Repeated), items).Some?
    ensures |EncodeField(CompileField(f, Repeated), items).value| == FieldSize(f, false)
  {
    var d := CompileField(f, Repeated);
    assert d.ltype == LTypeOf(f.proto) && d.dataSize == DataSize(f) && d.tag == f.tag && d.arraySize == f.rules.maxCount && d.htype.Repeated?;
    RepeatedTight(d, items, ItemSize(f.proto, f.intSize));
    KeyLength(f.tag, WireType(d.ltype));
    hide ItemOk, EncodeItem, EncodeTagged, LTypeOf, ItemSize, TagBytes, WfProto, CompileField, DataSize;
  }

  /** A value of the full size, in a field that holds one. */
  lemma SingleTight(f: Field, h: HType, v: Value)
    requires SlotOk(CompileField(f, h), [v]) && !h.Repeated? && (h == RuleOf(f.rules) || h.Oneof?)
    requires ItemOk(LTypeOf(f.proto), DataSize(f), v) && EncodeItem(LTypeOf(f.proto), DataSize(f), v).Some?
    requires |EncodeItem(LTypeOf(f.proto), DataSize(f), v).value| == ItemSize(f.proto, f.intSize)
    ensures EncodeField(CompileField(f, h), [v]).Some?
    ensures |EncodeField(CompileField(f, h), [v]).value| == FieldSize(f, h.Oneof?)
  {
    FieldFormIs(f, h, v);
    KeyLength(f.tag, WireKind(f.proto));
    hide SlotOk, ItemOk, EncodeItem, EncodeField, LTypeOf, ItemSize, CompileField, DataSize, V.VarintBytes;
  }

  /** What is written for the entry is all that it was given: by its field, or by one of its members. */
  ghost predicate Full(e: Entry, d: MsgDesc, m: Slots)
    requires StructOk(d, m)
  {
    match e
    case Single(f) => Weight(d, m, f.tag) == FieldSize(f, false)
    case OneOf(members) => exists k :: 0 <= k < |members| && Weight(d, m, members[k].tag) == LargestMember(members, 0)
  }

  lemma {:induction false} OneOfMany(d: MsgDesc, m: Slots, fs: seq<FieldDesc>, k: nat)
    requires StructOk(d, m) && k < |fs|
    ensures Sum(d, m, fs) >= Weight(d, m, fs[k].tag)
    decreases |fs|
  {
    hide StructOk, Weight;
    if k > 0 {
      OneOfMany(d, m, fs[1..], k - 1);
    }
  }

  lemma EntryTight(e: Entry, j: nat, d: MsgDesc, m: Slots)
    requires StructOk(d, m) && Full(e, d, m)
    ensures Sum(d, m, CompileEntry(e, j)) >= EntrySize(e)
  {
    var fs := CompileEntry(e, j);
    match e
    case Single(f) =>
      assert fs == [CompileField(f, RuleOf(f.rules))] && fs[0].tag == f.tag;
      OneOfMany(d, m, fs, 0);
    case OneOf(members) =>
      var k :| 0 <= k < |members| && Weight(d, m, members[k].tag) == LargestMember(members, 0);
      assert fs[k] == CompileField(members[k], Oneof(j)) && fs[k].tag == members[k].tag;
      OneOfMany(d, m, fs, k);
  }

  lemma {:induction false} EntriesTight(msg: Message, j: nat, d: MsgDesc, m: Slots)
    requires StructOk(d, m) && j <= |msg.entries| && forall i :: j <= i < |msg.entries| ==> Full(msg.entries[i], d, m)
    ensures Sum(d, m, CompileFrom(msg, j)) >= MessageSize(msg, j)
    decreases |msg.entries| - j
  {
    if j < |msg.entries| {
      var a, b := CompileEntry(msg.entries[j], j), CompileFrom(msg, j + 1);
      assert CompileFrom(msg, j) == a + b;
      assert MessageSize(msg, j) == EntrySize(msg.entries[j]) + MessageSize(msg, j + 1);
      hide CompileEntry, CompileFrom, Sum, MessageSize, EntrySize, StructOk, Full;
      EntryTight(msg.entries[j], j, d, m);
      EntriesTight(msg, j + 1, d, m);
      SumOfTwo(d, m, a, b);
    }
  }

  /** A message whose fields take all of their sizes takes all of the announced size, but no more if it is in range. */
  lemma MessageTight(msg: Message, m: Slots)
    requires WfMessage(msg) && StructOk(Compile(msg), m) && EncodeStruct(Compile(msg), m).Some?
    requires StructInRange(msg, m) && forall j :: 0 <= j < |msg.entries| ==> Full(msg.entries[j], Compile(msg), m)
    ensures |EncodeStruct(Compile(msg), m).value| == MessageSize(msg, 0)
  {
    var d, fs := Compile(msg), CompileFrom(msg, 0);
    assert d.fields == SortByTag(fs) && d.fields[0..] == d.fields;
    assert EncodeStruct(d, m) == EncodeFrom(d, m, 0);
    CompiledWf(msg);
    assert TagsDiffer(fs);
    hide *;
    SortKeeps(fs);
    LengthIsSum(d, m, 0);
    SumSorted(d, m, fs);
    EntriesTight(msg, 0, d, m);
    MessageBound(msg, m);
  }

  lemma KeyLength(tag: nat, wireType: nat)
    requires wireType < 8
    ensures |TagBytes(tag, wireType)| == VarintMaxSize(8 * tag)
  {
    if tag > 0 {
      assert (8 * tag + wireType) / 128 == (8 * tag) / 128;
    }
    hide V.GroupValue;
  }
}
