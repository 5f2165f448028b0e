/** The packed descriptor words of pb.h (PB_FIELDINFO_*) and what pb_common.c reads out of them. */
module FieldInfo {
  import opened Bytes
  import opened Descriptor

  /** The type byte of an entry: how one item is written, how often the field occurs, and that it is stored in the struct. */
  function TypeCode(f: FieldDesc): (c: nat)
    ensures c < 0x40
  {
    LTypeCode(f.ltype) + 16 * HTypeCode(f.htype)
  }

  function LTypeCode(t: LType): (c: nat)
    ensures c < 16 && (c == 8 <==> t.Submessage?)
  {
    match t
    case Bool => 0
    case Varint => 1
    case UVarint => 2
    case SVarint => 3
    case Fixed32 => 4
    case Fixed64 => 5
    case ByteArray => 6
    case String => 7
    case Submessage(_) => 8
    case FixedBytes => 11
  }

  function HTypeCode(h: HType): (c: nat)
    ensures c < 4 && (c == 0 <==> h.Required?)
  {
    match h
    case Required => 0
    case Optional => 1
    case Repeated => 2
    case Oneof(_) => 3
  }

  /** The kind of item that the low half of a loaded type byte stands for, with the descriptor if it is a submessage. */
  function KindOf(typeByte: nat, submessage: Option<MsgDesc>): Option<LType> {
    match typeByte % 0x10
    case 0 => Some(Bool)
    case 1 => Some(Varint)
    case 2 => Some(UVarint)
    case 3 => Some(SVarint)
    case 4 => Some(Fixed32)
    case 5 => Some(Fixed64)
    case 6 => Some(ByteArray)
    case 7 => Some(LType.String)
    case 8 => if submessage.Some? then Some(Submessage(submessage.value)) else None
    case 11 => Some(FixedBytes)
    case _ => None
  }

  /** How often a field occurs by its loaded type byte; which union a member is in, its offsets say. */
  function OccurrenceOf(typeByte: nat, union: nat): HType {
    match typeByte / 0x10 % 4
    case 0 => Required
    case 1 => Optional
    case 2 => Repeated
    case _ => Oneof(union)
  }

  /** A type byte stands for one kind of field only. */
  lemma TypeByteTells(f: FieldDesc)
    ensures KindOf(TypeCode(f), if f.ltype.Submessage? then Some(f.ltype.desc) else None) == Some(f.ltype)
    ensures OccurrenceOf(TypeCode(f), if f.htype.Oneof? then f.htype.union else 0) == f.htype
    ensures TypeCode(f) % 0x10 <= 5 <==> f.ltype.Packable()
  {
    var low, high := LTypeCode(f.ltype), HTypeCode(f.htype);
    assert TypeCode(f) % 0x10 == low && TypeCode(f) / 0x10 == high;
  }

  /** The two lowest bits of word 0: the base-2 logarithm of the width. */
  function WidthCode(f: FieldDesc): nat
    requires Fits(f)
  {
    if f.width == 1 then 0 else if f.width == 2 then 1 else if f.width == 4 then 2 else 3
  }

  function CommonPart(f: FieldDesc): nat
    requires Fits(f)
  {
    WidthCode(f) + 4 * f.tag % 0x100 + TypeCode(f) * 0x100
  }

  /** PB_FIELDINFO_1, _2, _4 and _8. Every part is masked and shifted to its place; the places do not overlap. */
  function Pack(f: FieldDesc): (w: seq<nat>)
    requires Fits(f)
    ensures |w| == f.width
  {
    var word0 := CommonPart(f);
    if f.width == 1 then
      [word0 + f.dataOffset % 0x100 * 0x1_0000 + f.sizeOffset % 0x10 * 0x100_0000 + f.dataSize % 0x10 * 0x1000_0000]
    else if f.width == 2 then
      [word0 + f.arraySize % 0x1000 * 0x1_0000 + f.sizeOffset % 0x10 * 0x1000_0000,
       f.dataOffset % 0x1_0000 + f.dataSize % 0x1000 * 0x1_0000 + f.tag / 0x40 % 0x10 * 0x1000_0000]
    else if f.width == 4 then
      [word0 + f.arraySize % 0x1_0000 * 0x1_0000, f.sizeOffset + f.tag / 0x40 * 0x100, f.dataOffset, f.dataSize]
    else
      [word0, f.sizeOffset + f.tag / 0x40 * 0x100, f.dataOffset, f.dataSize, f.arraySize, 0, 0, 0]
  }

  /** The numbers that load_descriptor_values sets. */
  datatype Loaded = Loaded(tag: nat, type_: nat, dataSize: nat, arraySize: nat, dataOffset: nat, sizeOffset: nat)

  function Unpack1(w0: nat): Loaded {
    Loaded(w0 / 4 % 0x40, w0 / 0x100 % 0x100, w0 / 0x1000_0000 % 0x10, 1, w0 / 0x1_0000 % 0x100, w0 / 0x100_0000 % 0x10)
  }

  function Unpack2(w0: nat, w1: nat): Loaded {
    Loaded(w0 / 4 % 0x40 + w1 / 0x1000_0000 * 0x40, w0 / 0x100 % 0x100, w1 / 0x1_0000 % 0x1000,
           w0 / 0x1_0000 % 0x1000, w1 % 0x1_0000, w0 / 0x1000_0000 % 0x10)
  }

  /** The formats of 4 and 8 words differ only in where the array size is. */
  function UnpackWide(w0: nat, w1: nat, w2: nat, w3: nat, arraySize: nat): Loaded {
    Loaded(w0 / 4 % 0x40 + w1 / 0x100 * 0x40, w0 / 0x100 % 0x100, w3, arraySize, w2, w1 % 0x100)
  }

  /** load_descriptor_values on the words w from position k on. */
  function Unpack(w: seq<nat>, k: nat): Loaded
    requires k + 8 <= |w|
  {
    if w[k] % 4 == 0 then Unpack1(w[k])
    else if w[k] % 4 == 1 then Unpack2(w[k], w[k + 1])
    else if w[k] % 4 == 2 then UnpackWide(w[k], w[k + 1], w[k + 2], w[k + 3], w[k] / 0x1_0000)
    else UnpackWide(w[k], w[k + 1], w[k + 2], w[k + 3], w[k + 4])
  }

  /** What a descriptor entry says, as the iterator holds it. */
  function Entry(f: FieldDesc): Loaded {
    Loaded(f.tag, TypeCode(f), f.dataSize, f.arraySize, f.dataOffset, f.sizeOffset)
  }

  // ---- the places do not overlap: every part is read back ---------------------------

  lemma CommonParts(a: nat, b: nat, c: nat, high: nat, w: nat)
    requires a < 4 && b < 0x40 && c < 0x100 && w == a + 4 * b + 0x100 * c + 0x1_0000 * high
    ensures w % 4 == a && w / 4 % 0x40 == b && w / 0x100 % 0x100 == c && w / 0x1_0000 == high
  {
    var x := w / 4;
    assert x == b + 0x40 * c + 0x4000 * high;
    var y := x / 0x40;
    assert y == c + 0x100 * high && x % 0x40 == b;
    assert y % 0x100 == c && y / 0x100 == high;
    assert w / 0x100 == y;
  }

  lemma HighPartsOfOneWord(offset: nat, size: nat, data: nat, w: nat)
    requires offset < 0x100 && size < 0x10 && data < 0x10 && w / 0x1_0000 == offset + 0x100 * size + 0x1000 * data
    ensures w / 0x1_0000 % 0x100 == offset && w / 0x100_0000 % 0x10 == size && w / 0x1000_0000 % 0x10 == data
  {
    var h := w / 0x1_0000;
    var x := h / 0x100;
    assert x == size + 0x10 * data && h % 0x100 == offset;
    assert x % 0x10 == size && x / 0x10 == data;
    assert w / 0x100_0000 == x && w / 0x1000_0000 == data;
  }

  lemma HighPartsOfTwoWords(array_: nat, size: nat, w: nat)
    requires array_ < 0x1000 && size < 0x10 && w / 0x1_0000 == array_ + 0x1000 * size
    ensures w / 0x1_0000 % 0x1000 == array_ && w / 0x1000_0000 % 0x10 == size
  {
    assert w / 0x1000_0000 == w / 0x1_0000 / 0x1000;
  }

  lemma SecondOfTwoWords(offset: nat, data: nat, top: nat, w: nat)
    requires offset < 0x1_0000 && data < 0x1000 && w == offset + data * 0x1_0000 + top * 0x1000_0000
    ensures w % 0x1_0000 == offset && w / 0x1_0000 % 0x1000 == data && w / 0x1000_0000 == top
  {
    var h := w / 0x1_0000;
    assert h == data + 0x1000 * top;
    assert h % 0x1000 == data && h / 0x1000 == top;
  }

  lemma FirstWordOf(f: FieldDesc, high: nat, w: nat)
    requires Fits(f) && w == CommonPart(f) + 0x1_0000 * high
    ensures w % 4 == WidthCode(f) && w / 4 % 0x40 == f.tag % 0x40 && w / 0x100 % 0x100 == TypeCode(f) && w / 0x1_0000 == high
  {
    var c := TypeCode(f);
    hide TypeCode, Fits;
    assert 4 * f.tag % 0x100 == 4 * (f.tag % 0x40);
    CommonParts(WidthCode(f), f.tag % 0x40, c, high, w);
  }

  /** The upper half of word 0. */
  function HighPart(f: FieldDesc): nat {
    if f.width == 1 then f.dataOffset + 0x100 * f.sizeOffset + 0x1000 * f.dataSize
    else if f.width == 2 then f.arraySize + 0x1000 * f.sizeOffset
    else if f.width == 4 then f.arraySize
    else 0
  }

  lemma FirstWordIs(f: FieldDesc)
    requires Fits(f)
    ensures Pack(f)[0] == CommonPart(f) + 0x1_0000 * HighPart(f)
  {
    var c := CommonPart(f);
    hide CommonPart;
    if f.width == 1 {
      assert f.dataOffset % 0x100 == f.dataOffset && f.sizeOffset % 0x10 == f.sizeOffset && f.dataSize % 0x10 == f.dataSize;
    } else if f.width == 2 {
      assert f.arraySize % 0x1000 == f.arraySize && f.sizeOffset % 0x10 == f.sizeOffset;
    } else if f.width == 4 {
      assert f.arraySize % 0x1_0000 == f.arraySize;
    }
  }

  /** The common part of word 0, whatever the width: its length code, its low tag bits and its type. */
  lemma FirstWord(f: FieldDesc)
    requires Fits(f)
    ensures var w := Pack(f)[0];
      && w % 4 == WidthCode(f)
      && w / 4 % 0x40 == f.tag % 0x40
      && w / 0x100 % 0x100 == TypeCode(f)
      && w / 0x1_0000 == HighPart(f)
  {
    FirstWordIs(f);
    hide Pack, CommonPart, HighPart, TypeCode, WidthCode;
    FirstWordOf(f, HighPart(f), Pack(f)[0]);
  }

  lemma UnpackOne(f: FieldDesc)
    requires Fits(f) && f.width == 1 && f.arraySize == 1
    ensures Unpack1(Pack(f)[0]) == Entry(f)
  {
    FirstWord(f);
    hide Pack, TypeCode, WidthCode;
    var w := Pack(f)[0];
    assert f.tag % 0x40 == f.tag;
    HighPartsOfOneWord(f.dataOffset, f.sizeOffset, f.dataSize, w);
  }

  lemma TwoWords(f: FieldDesc)
    requires Fits(f) && f.width == 2
    ensures Pack(f)[1] == f.dataOffset + f.dataSize * 0x1_0000 + f.tag / 0x40 * 0x1000_0000
    ensures HighPart(f) == f.arraySize + 0x1000 * f.sizeOffset
  {
    assert f.dataOffset % 0x1_0000 == f.dataOffset && f.dataSize % 0x1000 == f.dataSize && f.tag / 0x40 % 0x10 == f.tag / 0x40;
  }

  lemma UnpackTwo(f: FieldDesc)
    requires Fits(f) && f.width == 2
    ensures Unpack2(Pack(f)[0], Pack(f)[1]) == Entry(f)
  {
    FirstWord(f);
    TwoWords(f);
    hide Pack, TypeCode, HighPart, WidthCode;
    HighPartsOfTwoWords(f.arraySize, f.sizeOffset, Pack(f)[0]);
    SecondOfTwoWords(f.dataOffset, f.dataSize, f.tag / 0x40, Pack(f)[1]);
  }

  lemma UnpackMore(f: FieldDesc)
    requires Fits(f) && f.width >= 4
    ensures var p := Pack(f);
      UnpackWide(p[0], p[1], p[2], p[3], if f.width == 4 then p[0] / 0x1_0000 else p[4]) == Entry(f)
  {
    FirstWord(f);
    var w1 := Pack(f)[1];
    assert w1 == f.sizeOffset + f.tag / 0x40 * 0x100 && f.sizeOffset < 0x100;
    assert Pack(f)[2] == f.dataOffset && Pack(f)[3] == f.dataSize && (f.width == 8 ==> Pack(f)[4] == f.arraySize);
    hide Pack, TypeCode;
    assert w1 / 0x100 == f.tag / 0x40 && w1 % 0x100 == f.sizeOffset;
  }

  /** The words of entry f stand in w from position k on. */
  ghost predicate Holds(w: seq<nat>, k: nat, f: FieldDesc)
    requires Fits(f)
  {
    k + 8 <= |w| && forall j :: 0 <= j < f.width ==> w[k + j] == Pack(f)[j]
  }

  /** Reading a packed entry gives back what the macros were given, in every width. */
  lemma UnpackPack(f: FieldDesc, w: seq<nat>, k: nat)
    requires Fits(f) && (f.width == 1 ==> f.arraySize == 1) && Holds(w, k, f)
    ensures Unpack(w, k) == Entry(f)
  {
    var p := Pack(f);
    assert w[k] == w[k + 0] == p[0];
    FirstWord(f);
    if f.width == 1 {
      UnpackOne(f);
    } else if f.width == 2 {
      assert w[k + 1] == p[1];
      UnpackTwo(f);
    } else {
      assert w[k + 1] == p[1] && w[k + 2] == p[2] && w[k + 3] == p[3] && (f.width == 8 ==> w[k + 4] == p[4]);
      UnpackMore(f);
    }
    hide Pack, Entry, Unpack1, Unpack2, UnpackWide, TypeCode;
  }

  /** The words of handshake.version: two of them, tag 3, type 7 (a required string), 32 bytes at offset 5. */
  lemma VersionWords()
    ensures Pack(FieldDesc(3, Required, LType.String, 32, 1, 5, 0, 2)) == [0x1_070D, 0x20_0005]
  {
  }

  // ---- the field_info array ----------------------------------------------------------

  /** How many words the entries before number i take. */
  function WordsBefore(d: MsgDesc, i: nat): nat
    requires i <= |d.fields|
  {
    if i == 0 then 0 else WordsBefore(d, i - 1) + d.fields[i - 1].width
  }

  /** How many of the fields before number i are submessages. */
  function SubmessagesBefore(d: MsgDesc, i: nat): (n: nat)
    requires i <= |d.fields|
    ensures n <= i
  {
    if i == 0 then 0 else SubmessagesBefore(d, i - 1) + if d.fields[i - 1].ltype.Submessage? then 1 else 0
  }

  /** The words of the first n entries. */
  function PackFirst(d: MsgDesc, n: nat): (w: seq<nat>)
    requires n <= |d.fields| && forall i :: 0 <= i < n ==> Fits(d.fields[i])
    ensures |w| == WordsBefore(d, n)
  {
    if n == 0 then [] else PackFirst(d, n - 1) + Pack(d.fields[n - 1])
  }

  function Padding(): (w: seq<nat>)
    ensures |w| == 8
  {
    seq(8, _ => 0)
  }

  /** The array that PB_BIND lays down, with its closing 0; entries are read in blocks, so more zeros stand for what follows. */
  function FieldInfoWords(d: MsgDesc): seq<nat>
    requires forall i :: 0 <= i < |d.fields| ==> Fits(d.fields[i])
  {
    PackFirst(d, |d.fields|) + Padding()
  }

  /** The submsg_info array: the descriptors of the submessage fields among the first n. */
  function SubmessageInfo(d: MsgDesc, n: nat): (s: seq<MsgDesc>)
    requires n <= |d.fields|
    ensures |s| == SubmessagesBefore(d, n)
  {
    if n == 0 then []
    else SubmessageInfo(d, n - 1) + if d.fields[n - 1].ltype.Submessage? then [d.fields[n - 1].ltype.desc] else []
  }

  lemma {:induction false} PackFirstAt(d: MsgDesc, n: nat, i: nat)
    requires i < n <= |d.fields| && forall j :: 0 <= j < n ==> Fits(d.fields[j])
    ensures WordsBefore(d, i) + d.fields[i].width <= WordsBefore(d, n)
    ensures forall j :: 0 <= j < d.fields[i].width ==> PackFirst(d, n)[WordsBefore(d, i) + j] == Pack(d.fields[i])[j]
  {
    hide Pack, Fits;
    if i < n - 1 {
      PackFirstAt(d, n - 1, i);
    }
  }

  /** The words at the prefix sum of the earlier widths are those of entry i. */
  lemma WordsAt(d: MsgDesc, i: nat)
    requires WfDesc(d) && i < |d.fields|
    ensures forall j :: 0 <= j < |d.fields| ==> Fits(d.fields[j])
    ensures Holds(FieldInfoWords(d), WordsBefore(d, i), d.fields[i])
  {
    EntriesFit(d);
    hide WfField, WfDesc, Pack, Fits, PackFirst, WordsBefore;
    PackFirstAt(d, |d.fields|, i);
    var first, w := PackFirst(d, |d.fields|), FieldInfoWords(d);
  }

  lemma EntriesFit(d: MsgDesc)
    requires WfDesc(d)
    ensures forall j :: 0 <= j < |d.fields| ==> Fits(d.fields[j])
  {
    assert forall j :: 0 <= j < |d.fields| ==> WfField(d.fields[j]);
  }

  lemma {:induction false} SubmessageAt(d: MsgDesc, n: nat, i: nat)
    requires i < n <= |d.fields| && d.fields[i].ltype.Submessage?
    ensures SubmessagesBefore(d, i) < SubmessagesBefore(d, n)
    ensures SubmessageInfo(d, n)[SubmessagesBefore(d, i)] == d.fields[i].ltype.desc
  {
    if i < n - 1 {
      SubmessageAt(d, n - 1, i);
    }
  }
}
