/**
 * What a field of each declared type looks like on the wire, as "Protocol Buffers Encoding" says it, sections "Base 128
 * Varints", "More Value Types" and "Packed Repeated Fields": the descriptor that the generator emits makes the encoder
 * write exactly that.
 */
module Forms {
  import opened Bytes
  import opened Descriptor
  import opened Wire
  import opened Generator
  import V = Varint

  // ---- declared ranges -----------------------------------------------------------------

  /** The integer type in the struct: its bytes. Without an int_size option it is that of the declared type. */
  function WidthOf(s: IntSize, normal: nat): nat {
    match s
    case IS_DEFAULT => normal
    case IS_8 => 1
    case IS_16 => 2
    case IS_32 => 4
    case IS_64 => 8
  }

  predicate SignedRange(v: int, width: nat) {
    -(Pow2(8 * width) as int) <= 2 * v < Pow2(8 * width)
  }

  predicate UnsignedRange(v: int, width: nat) {
    0 <= v < Pow2(8 * width)
  }

  predicate IsNumber(t: ProtoType) {
    !t.STRING? && !t.BYTES? && !t.FIXED_LENGTH_BYTES? && !t.MESSAGE?
  }

  /** The numbers that a field of this type can hold; fixed-width and floating-point fields hold their bits. */
  predicate Declared(t: ProtoType, s: IntSize, v: int)
    requires IsNumber(t)
  {
    match t
    case BOOL => v == 0 || v == 1
    case INT32 => SignedRange(v, WidthOf(s, 4))
    case INT64 => SignedRange(v, WidthOf(s, 8))
    case SINT32 => SignedRange(v, WidthOf(s, 4))
    case SINT64 => SignedRange(v, WidthOf(s, 8))
    case UINT32 => UnsignedRange(v, WidthOf(s, 4))
    case UINT64 => UnsignedRange(v, WidthOf(s, 8))
    case ENUM(values) =>
      if exists k :: k in values && k < 0 then SignedRange(v, WidthOf(s, 4)) else UnsignedRange(v, WidthOf(s, 4))
    case FIXED32 => UnsignedRange(v, 4)
    case SFIXED32 => UnsignedRange(v, 4)
    case FLOAT => UnsignedRange(v, 4)
    case FIXED64 => UnsignedRange(v, 8)
    case SFIXED64 => UnsignedRange(v, 8)
    case DOUBLE => UnsignedRange(v, 8)
  }

  lemma WidthLimits()
    ensures Pow2(8) == 0x100 && Pow2(16) == 0x1_0000 && Pow2(32) == 0x1_0000_0000 && Pow2(64) == 0x1_0000_0000_0000_0000
  {
    V.PowersOfTwo();
    assert Pow2(8) == 2 * Pow2(7);
    assert Pow2(16) == 4 * Pow2(14);
    assert Pow2(32) == 16 * Pow2(28);
    assert Pow2(64) == 2 * Pow2(63);
  }

  lemma EnumSign(values: seq<int>)
    ensures HasNegative(values) <==> exists k :: k in values && k < 0
  {
    if HasNegative(values) {
      var i :| 0 <= i < |values| && values[i] < 0;
      assert values[i] in values;
    }
  }

  lemma Limits(v: int, width: nat)
    requires width in {1, 2, 4, 8}
    ensures InSigned(v, width) <==> SignedRange(v, width)
    ensures InUnsigned(v, width) <==> UnsignedRange(v, width)
  {
    WidthLimits();
    hide Pow2;
    assert INT_LIMIT[1] == 0x80 && INT_LIMIT[2] == 0x8000 && INT_LIMIT[4] == 0x8000_0000 && INT_LIMIT[8] == 0x8000_0000_0000_0000;
  }

  /** The size in memory of the integer types, with and without an int_size option. */
  lemma WidthIs(t: ProtoType, s: IntSize)
    ensures t.INT32? || t.SINT32? || t.UINT32? || t.ENUM? ==> Datatype(t, s).1 == WidthOf(s, 4)
    ensures t.INT64? || t.SINT64? || t.UINT64? ==> Datatype(t, s).1 == WidthOf(s, 8)
    ensures WidthOf(s, 4) in {1, 2, 4, 8} && WidthOf(s, 8) in {1, 2, 4, 8}
  {
  }

  /** What the struct can hold, by kind of item. */
  lemma HoldsKind(t: LType, dataSize: nat, v: int)
    ensures t.Varint? || t.SVarint? ==> (ItemOk(t, dataSize, VInt(v)) <==> InSigned(v, dataSize))
    ensures t.UVarint? ==> (ItemOk(t, dataSize, VInt(v)) <==> InUnsigned(v, dataSize))
    ensures t.Bool? ==> (ItemOk(t, dataSize, VInt(v)) <==> v == 0 || v == 1)
    ensures t.Fixed32? ==> (ItemOk(t, dataSize, VInt(v)) <==> 0 <= v < 0x1_0000_0000)
    ensures t.Fixed64? ==> (ItemOk(t, dataSize, VInt(v)) <==> 0 <= v < 0x1_0000_0000_0000_0000)
  {
    hide InSigned, InUnsigned;
  }

  lemma HoldsInteger(t: ProtoType, s: IntSize, v: int)
    requires t.INT32? || t.INT64? || t.SINT32? || t.SINT64? || t.UINT32? || t.UINT64?
    ensures ItemOk(LTypeOf(t), Datatype(t, s).1, VInt(v)) <==> Declared(t, s, v)
  {
    var width := if t.INT32? || t.SINT32? || t.UINT32? then WidthOf(s, 4) else WidthOf(s, 8);
    WidthIs(t, s);
    Limits(v, width);
    HoldsKind(LTypeOf(t), width, v);
    hide ItemOk, WidthOf, Datatype, InSigned, InUnsigned, SignedRange, UnsignedRange;
  }

  lemma HoldsEnum(values: seq<int>, s: IntSize, v: int)
    ensures ItemOk(LTypeOf(ENUM(values)), Datatype(ENUM(values), s).1, VInt(v)) <==> Declared(ENUM(values), s, v)
  {
    var t := ENUM(values);
    WidthIs(t, s);
    Limits(v, WidthOf(s, 4));
    HoldsKind(LTypeOf(t), WidthOf(s, 4), v);
    EnumSign(values);
    hide HasNegative, ItemOk, WidthOf, Datatype, InSigned, InUnsigned, SignedRange, UnsignedRange;
  }

  /** The struct holds exactly the declared range of a number. */
  lemma HoldsDeclared(t: ProtoType, s: IntSize, v: int)
    requires IsNumber(t)
    ensures ItemOk(LTypeOf(t), Datatype(t, s).1, VInt(v)) <==> Declared(t, s, v)
  {
    if t.ENUM? {
      HoldsEnum(t.values, s, v);
    } else if t.INT32? || t.INT64? || t.SINT32? || t.SINT64? || t.UINT32? || t.UINT64? {
      HoldsInteger(t, s, v);
    } else {
      HoldsKind(LTypeOf(t), Datatype(t, s).1, v);
      FixedRange(v);
    }
    hide HasNegative, ItemOk, WidthOf, Datatype, UnsignedRange;
  }

  lemma FixedRange(v: int)
    ensures UnsignedRange(v, 4) <==> 0 <= v < 0x1_0000_0000
    ensures UnsignedRange(v, 8) <==> 0 <= v < 0x1_0000_0000_0000_0000
  {
    WidthLimits();
    hide Pow2;
  }

  // ---- numbers ----------------------------------------------------------------------------

  /** The digit of v with weight 256^i. */
  function Digit(v: nat, i: nat): byte {
    if i == 0 then v % 256 else Digit(v / 256, i - 1)
  }

  function FixedForm(v: nat, n: nat): bytes {
    seq(n, i requires 0 <= i => Digit(v, i))
  }

  /** Positive and negative numbers take turns. */
  function TakingTurns(v: int): nat {
    if v >= 0 then 2 * v else -2 * v - 1
  }

  function NumberForm(t: ProtoType, v: int): bytes
    requires IsNumber(t) && (v < 0 ==> t.INT32? || t.INT64? || t.SINT32? || t.SINT64? || t.ENUM?)
  {
    match t
    case BOOL => V.VarintBytes(v)
    case INT32 => V.VarintBytes(v % TWO_64)
    case INT64 => V.VarintBytes(v % TWO_64)
    case ENUM(_) => V.VarintBytes(v % TWO_64)
    case UINT32 => V.VarintBytes(v)
    case UINT64 => V.VarintBytes(v)
    case SINT32 => V.VarintBytes(TakingTurns(v))
    case SINT64 => V.VarintBytes(TakingTurns(v))
    case FIXED32 => FixedForm(v, 4)
    case SFIXED32 => FixedForm(v, 4)
    case FLOAT => FixedForm(v, 4)
    case FIXED64 => FixedForm(v, 8)
    case SFIXED64 => FixedForm(v, 8)
    case DOUBLE => FixedForm(v, 8)
  }

  lemma {:induction false} LittleEndianDigits(v: nat, n: nat)
    ensures LittleEndian(v, n) == FixedForm(v, n)
    decreases n
  {
    if n > 0 {
      LittleEndianDigits(v / 256, n - 1);
      assert forall i :: 0 < i < n ==> FixedForm(v, n)[i] == FixedForm(v / 256, n - 1)[i - 1];
    }
  }

  lemma ZigZagTakesTurns(v: int)
    requires -0x8000_0000_0000_0000 <= v < 0x8000_0000_0000_0000
    ensures V.ZigZag(v) == TakingTurns(v)
  {
  }

  lemma Wrapped(v: int)
    requires -0x8000_0000_0000_0000 <= v < 0x1_0000_0000_0000_0000
    ensures v % TWO_64 == if v < 0 then v + TWO_64 else v
  {
  }

  /** What the encoder writes, by kind of item. */
  lemma WritesKind(t: LType, dataSize: nat, v: int)
    requires ItemOk(t, dataSize, VInt(v)) && t.Packable()
    ensures t.Bool? || t.UVarint? ==> v >= 0 && EncodeItem(t, dataSize, VInt(v)) == Some(V.VarintBytes(v))
    ensures t.Varint? ==> EncodeItem(t, dataSize, VInt(v)) == Some(V.VarintBytes(v % TWO_64))
    ensures t.SVarint? ==> EncodeItem(t, dataSize, VInt(v)) == Some(V.VarintBytes(TakingTurns(v)))
    ensures t.Fixed32? ==> v >= 0 && EncodeItem(t, dataSize, VInt(v)) == Some(FixedForm(v, 4))
    ensures t.Fixed64? ==> v >= 0 && EncodeItem(t, dataSize, VInt(v)) == Some(FixedForm(v, 8))
  {
    if t.Fixed32? {
      LittleEndianDigits(v, 4);
    } else if t.Fixed64? {
      LittleEndianDigits(v, 8);
    } else if t.SVarint? {
      ZigZagTakesTurns(v);
    } else {
      Wrapped(v);
    }
    hide LittleEndian, FixedForm, V.VarintBytes, V.ZigZag, TakingTurns;
  }

  lemma Negative(t: ProtoType, s: IntSize, v: int)
    requires IsNumber(t) && Declared(t, s, v)
    ensures v < 0 ==> t.INT32? || t.INT64? || t.SINT32? || t.SINT64? || (t.ENUM? && HasNegative(t.values))
  {
    if t.ENUM? {
      EnumSign(t.values);
    }
    hide Pow2, HasNegative, WidthOf;
  }

  lemma SmallNumber(v: int, width: nat)
    requires UnsignedRange(v, width) && width <= 8
    ensures 0 <= v < TWO_64 && v % TWO_64 == v
  {
    WidthLimits();
    Pow2Monotone(8 * width, 64);
  }

  /** Every number of the declared range is written in the form that the encoding has for its type. */
  lemma NumberFormIs(t: ProtoType, s: IntSize, v: int)
    requires IsNumber(t) && Declared(t, s, v)
    ensures v < 0 ==> t.INT32? || t.INT64? || t.SINT32? || t.SINT64? || t.ENUM?
    ensures ItemOk(LTypeOf(t), Datatype(t, s).1, VInt(v))
    ensures EncodeItem(LTypeOf(t), Datatype(t, s).1, VInt(v)) == Some(NumberForm(t, v))
  {
    Negative(t, s, v);
    HoldsDeclared(t, s, v);
    WritesKind(LTypeOf(t), Datatype(t, s).1, v);
    if t.ENUM? && !HasNegative(t.values) {
      EnumSign(t.values);
      SmallNumber(v, WidthOf(s, 4));
    }
    hide Pow2, HasNegative, FixedForm, V.VarintBytes, TakingTurns, EncodeItem, ItemOk, Datatype, Declared, WidthOf;
  }

  // ---- reading numbers ---------------------------------------------------------------------------

  lemma SameLow32(u: nat, v: int)
    requires -0x8000_0000 <= v < 0x8000_0000
    ensures V.ToSigned32(u) == v <==> v % TWO_32 == u % TWO_32
  {
  }

  /** A signed field of one to four bytes holds the number whose low 32 bits were read, if it is in range. */
  lemma NarrowStandsFor(width: nat, u: nat, v: int)
    requires width in {1, 2, 4} && u < TWO_64
    ensures FromVarint(Varint, width, u) == Some(v) <==> SignedRange(v, width) && v % TWO_32 == u % TWO_32
  {
    Limits(v, width);
    assert INT_LIMIT[1] == 0x80 && INT_LIMIT[2] == 0x8000 && INT_LIMIT[4] == 0x8000_0000;
    if InSigned(v, width) {
      SameLow32(u, v);
    }
    hide SignedRange, V.ToSigned32;
  }

  /** The number of a signed field of eight bytes, of an unsigned field and of a zigzag field. */
  lemma StandsFor(width: nat, u: nat, v: int)
    requires width in {1, 2, 4, 8} && u < TWO_64
    ensures FromVarint(Varint, 8, u) == Some(v) <==> SignedRange(v, 8) && v % TWO_64 == u
    ensures FromVarint(UVarint, width, u) == Some(v) <==> UnsignedRange(v, width) && v == u
    ensures FromVarint(SVarint, width, u) == Some(v) <==> SignedRange(v, width) && TakingTurns(v) == u
  {
    Limits(v, width);
    Limits(v, 8);
    WholeNumber(u, v);
    Turns(u, v);
    hide SignedRange, UnsignedRange, V.ToSigned64, V.UnZigZag, TakingTurns;
    assert InSigned(v, 8) ==> -0x8000_0000_0000_0000 <= v < 0x8000_0000_0000_0000;
  }

  lemma WholeNumber(u: nat, v: int)
    requires u < TWO_64
    ensures V.ToSigned64(u) == v <==> -0x8000_0000_0000_0000 <= v < 0x8000_0000_0000_0000 && v % TWO_64 == u
  {
  }

  lemma Turns(u: nat, v: int)
    requires u < TWO_64
    ensures V.UnZigZag(u) == v <==> TakingTurns(v) == u
  {
  }

  // ---- strings and bytes ------------------------------------------------------------------------

  /** A length and as many bytes. */
  function LengthForm(b: bytes): bytes {
    V.VarintBytes(|b|) + b
  }

  /** A string of max_size n, in a buffer of n bytes: its text needs room for the terminator. */
  lemma StringFormIs(n: nat, s: IntSize, b: bytes)
    requires n < 0x1_0000 && |b| <= n
    ensures ItemOk(LTypeOf(STRING(n)), Datatype(STRING(n), s).1, VBytes(b))
    ensures EncodeItem(LTypeOf(STRING(n)), Datatype(STRING(n), s).1, VBytes(b))
         == if |Text(b)| < n then Some(LengthForm(Text(b))) else None
  {
    assert LTypeOf(STRING(n)) == LType.String && Datatype(STRING(n), s).1 == n;
    hide V.VarintBytes, Text, LTypeOf, Datatype;
    assert |Text(b)| < TWO_64;
  }

  /** A byte array of max_size n: the padding of the struct counts as room. */
  lemma BytesFormIs(n: nat, s: IntSize, b: bytes)
    requires |b| < 0x1_0000
    ensures ItemOk(LTypeOf(BYTES(n)), Datatype(BYTES(n), s).1, VBytes(b))
    ensures EncodeItem(LTypeOf(BYTES(n)), Datatype(BYTES(n), s).1, VBytes(b))
         == if |b| <= n + n % 2 then Some(LengthForm(b)) else None
  {
  }

  lemma FixedLengthFormIs(n: nat, s: IntSize, b: bytes)
    requires n < 0x1_0000
    ensures ItemOk(LTypeOf(FIXED_LENGTH_BYTES(n)), Datatype(FIXED_LENGTH_BYTES(n), s).1, VBytes(b)) <==> |b| == n
    ensures |b| == n ==> EncodeItem(LTypeOf(FIXED_LENGTH_BYTES(n)), Datatype(FIXED_LENGTH_BYTES(n), s).1, VBytes(b)) == Some(LengthForm(b))
  {
  }

  /** A submessage. */
  lemma MessageFormIs(msg: Message, dataSize: nat, m: Slots)
    requires StructOk(Compile(msg), m) && EncodeStruct(Compile(msg), m).Some? && |EncodeStruct(Compile(msg), m).value| < TWO_64
    ensures ItemOk(LTypeOf(MESSAGE(msg)), dataSize, VMsg(m))
    ensures EncodeItem(LTypeOf(MESSAGE(msg)), dataSize, VMsg(m)) == Some(LengthForm(EncodeStruct(Compile(msg), m).value))
  {
    hide Compile, StructOk, EncodeStruct, V.VarintBytes;
  }

  // ---- fields ------------------------------------------------------------------------------------

  /** The wire types of "Message Structure": 0 for varints, 1 and 5 for 64 and 32 bits, 2 for what has a length. */
  function WireKind(t: ProtoType): nat {
    match t
    case DOUBLE => 1
    case FIXED64 => 1
    case SFIXED64 => 1
    case STRING(_) => 2
    case BYTES(_) => 2
    case FIXED_LENGTH_BYTES(_) => 2
    case MESSAGE(_) => 2
    case FLOAT => 5
    case FIXED32 => 5
    case SFIXED32 => 5
    case _ => 0
  }

  function KeyForm(tag: nat, kind: nat): bytes {
    V.VarintBytes(tag * 8 + kind)
  }

  /** A field with one value: its key, and the value behind it. */
  lemma FieldFormIs(f: Field, h: HType, v: Value)
    requires SlotOk(CompileField(f, h), [v]) && !h.Repeated?
    ensures ItemOk(LTypeOf(f.proto), DataSize(f), v)
    ensures EncodeField(CompileField(f, h), [v])
         == Join(Some(KeyForm(f.tag, WireKind(f.proto))), EncodeItem(LTypeOf(f.proto), DataSize(f), v))
  {
    SingleItem(CompileField(f, h), v);
    KindIs(f.proto);
    hide SlotOk, ItemOk, EncodeItem, EncodeField, V.VarintBytes, LTypeOf, WireType, WireKind, DataSize;
  }

  lemma KindIs(t: ProtoType)
    ensures WireType(LTypeOf(t)) == WireKind(t)
  {
  }

  /** The forms of the numbers in a list, one behind the other. */
  function ListForm(t: ProtoType, s: IntSize, items: seq<Value>): bytes
    requires IsNumber(t) && forall k :: 0 <= k < |items| ==> items[k].VInt? && Declared(t, s, items[k].i)
  {
    if items == [] then []
    else
      NumberFormIs(t, s, items[0].i);
      NumberForm(t, items[0].i) + ListForm(t, s, items[1..])
  }

  lemma {:induction false} BareFormIs(f: Field, d: FieldDesc, items: seq<Value>)
    requires IsNumber(f.proto) && d.ltype == LTypeOf(f.proto) && d.dataSize == Datatype(f.proto, f.intSize).1
    requires forall k :: 0 <= k < |items| ==> items[k].VInt? && Declared(f.proto, f.intSize, items[k].i)
    ensures forall k :: 0 <= k < |items| ==> ItemOk(d.ltype, d.dataSize, items[k])
    ensures EncodeBare(d, items) == Some(ListForm(f.proto, f.intSize, items))
    decreases |items|
  {
    hide Declared, NumberForm, ItemOk, EncodeItem, LTypeOf, Datatype;
    if items != [] {
      NumberFormIs(f.proto, f.intSize, items[0].i);
      BareFormIs(f, d, items[1..]);
      assert items[0] == VInt(items[0].i);
      assert forall k :: 0 < k < |items| ==> items[k] == items[1..][k - 1];
    }
  }

  lemma RuleParts(f: Field)
    requires IsNumber(f.proto)
    ensures var d := CompileField(f, RuleOf(f.rules));
      && d.ltype.Packable() && d.ltype == LTypeOf(f.proto) && d.dataSize == Datatype(f.proto, f.intSize).1
      && (d.htype.Required? <==> f.rules.REQUIRED?) && (d.htype.Optional? <==> f.rules.OPTIONAL?)
      && (d.htype.Repeated? <==> f.rules.REPEATED?) && (f.rules.REPEATED? ==> d.arraySize == f.rules.maxCount)
  {
  }

  /** A packed array, whatever its items are. */
  lemma PackedIs(d: FieldDesc, items: seq<Value>)
    requires d.htype.Repeated? && d.ltype.Packable() && forall k :: 0 <= k < |items| ==> ItemOk(d.ltype, d.dataSize, items[k])
    requires EncodeBare(d, items).Some?
    ensures SlotOk(d, items)
    ensures EncodeField(d, items)
         == if |items| > d.arraySize then None else if items == [] then Some([])
            else Some(KeyForm(d.tag, 2) + Delimited(EncodeBare(d, items).value))
  {
    hide ItemOk, EncodeBare, Delimited, V.VarintBytes;
  }

  lemma ShortLength(b: bytes)
    ensures |b| < 0x1_0000_0000_0000_0000 ==> Delimited(b) == LengthForm(b)
    ensures |Delimited(b)| >= |b|
  {
    hide V.VarintBytes;
  }

  /** A repeated field of numbers: a key of wire type 2, the length of all of them, and the numbers without keys. */
  lemma PackedFormIs(f: Field, items: seq<Value>)
    requires IsNumber(f.proto) && f.rules.REPEATED?
    requires forall k :: 0 <= k < |items| ==> items[k].VInt? && Declared(f.proto, f.intSize, items[k].i)
    requires |ListForm(f.proto, f.intSize, items)| < TWO_64
    ensures SlotOk(CompileField(f, Repeated), items)
    ensures EncodeField(CompileField(f, Repeated), items)
         == if |items| > f.rules.maxCount then None
            else if items == [] then Some([])
            else Some(KeyForm(f.tag, 2) + LengthForm(ListForm(f.proto, f.intSize, items)))
  {
    var d := CompileField(f, Repeated);
    RuleParts(f);
    assert d.htype.Repeated? && d.tag == f.tag;
    BareFormIs(f, d, items);
    assert TWO_64 == 0x1_0000_0000_0000_0000;
    hide *;
    PackedIs(d, items);
    ShortLength(ListForm(f.proto, f.intSize, items));
  }

  /** How many numbers a field takes by its rule. */
  lemma CountIs(f: Field, items: seq<Value>)
    requires IsNumber(f.proto)
    requires forall k :: 0 <= k < |items| ==> items[k].VInt? && Declared(f.proto, f.intSize, items[k].i)
    ensures var d := CompileField(f, RuleOf(f.rules));
      (SlotOk(d, items) && EncodeField(d, items).Some?)
        <==> (match f.rules case REQUIRED => |items| == 1 case OPTIONAL => |items| <= 1 case REPEATED(n) => |items| <= n)
  {
    var d := CompileField(f, RuleOf(f.rules));
    RuleParts(f);
    BareFormIs(f, d, items);
    if |items| == 1 && SlotOk(d, items) && !f.rules.REPEATED? {
      assert items == [items[0]];
      SingleItem(d, items[0]);
      NumberFormIs(f.proto, f.intSize, items[0].i);
      assert items[0] == VInt(items[0].i);
    }
    hide Declared, ListForm, ItemOk, EncodeBare, EncodeItem, LTypeOf, CompileField, V.VarintBytes, NumberForm;
  }
}
