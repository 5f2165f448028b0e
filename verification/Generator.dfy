/**
 * The part of the code generator that computes how large a message can get (the _size defines), and the
 * descriptor it emits for the same message type.
 */
module Generator {
  import opened Bytes
  import opened Descriptor
  import V = Varint

  // ---- message types ---------------------------------------------------------------

  datatype IntSize = IS_DEFAULT | IS_8 | IS_16 | IS_32 | IS_64

  datatype ProtoType =
    | BOOL | DOUBLE | FIXED32 | FIXED64 | FLOAT | INT32 | INT64 | SFIXED32 | SFIXED64
    | SINT32 | SINT64 | UINT32 | UINT64
    | ENUM(values: seq<int>)
    | STRING(maxSize: nat)
    | BYTES(maxSize: nat)
    | FIXED_LENGTH_BYTES(maxSize: nat)
    | MESSAGE(msg: Message)

  datatype Rules = REQUIRED | OPTIONAL | REPEATED(maxCount: nat)

  /** What the C compiler decides: where a field is, how large a submessage is, and the descriptor width. */
  datatype Layout = Layout(dataOffset: nat, sizeOffset: nat, structSize: nat, width: nat)

  datatype Field = Field(tag: nat, rules: Rules, proto: ProtoType, intSize: IntSize, layout: Layout)

  datatype Entry = Single(field: Field) | OneOf(members: seq<Field>)

  datatype Message = Message(entries: seq<Entry>)

  /**
   * The datatypes table: encoded size and size in memory of a number. For an enum, the integer size is that of
   * its enum_intsize option, and the encoded size is found from its values and not from the table.
   */
  function Datatype(t: ProtoType, s: IntSize): (nat, nat) {
    match t
    case BOOL => (1, 1)
    case DOUBLE => (8, 8)
    case FIXED32 => (4, 4)
    case FIXED64 => (8, 8)
    case FLOAT => (4, 4)
    case SFIXED32 => (4, 4)
    case SFIXED64 => (8, 8)
    case INT32 => (10, if s.IS_8? then 1 else if s.IS_16? then 2 else if s.IS_64? then 8 else 4)
    case INT64 => (10, if s.IS_8? then 1 else if s.IS_16? then 2 else if s.IS_32? then 4 else 8)
    case SINT32 => if s.IS_8? then (2, 1) else if s.IS_16? then (3, 2) else if s.IS_64? then (10, 8) else (5, 4)
    case UINT32 => if s.IS_8? then (2, 1) else if s.IS_16? then (3, 2) else if s.IS_64? then (10, 8) else (5, 4)
    case SINT64 => if s.IS_8? then (2, 1) else if s.IS_16? then (3, 2) else if s.IS_32? then (5, 4) else (10, 8)
    case UINT64 => if s.IS_8? then (2, 1) else if s.IS_16? then (3, 2) else if s.IS_32? then (5, 4) else (10, 8)
    case ENUM(_) => (0, if s.IS_8? then 1 else if s.IS_16? then 2 else if s.IS_64? then 8 else 4)
    case STRING(n) => (0, n)
    case BYTES(n) => (0, 2 + n + n % 2)
    case FIXED_LENGTH_BYTES(n) => (0, n)
    case MESSAGE(_) => (0, 0)
  }

  predicate HasNegative(values: seq<int>) {
    exists i :: 0 <= i < |values| && values[i] < 0
  }

  // ---- the emitted descriptor ----------------------------------------------------------

  function LTypeOf(t: ProtoType): LType
    decreases t, 0
  {
    match t
    case BOOL => Bool
    case DOUBLE => Fixed64
    case FIXED32 => Fixed32
    case FIXED64 => Fixed64
    case FLOAT => Fixed32
    case INT32 => Varint
    case INT64 => Varint
    case SFIXED32 => Fixed32
    case SFIXED64 => Fixed64
    case SINT32 => SVarint
    case SINT64 => SVarint
    case UINT32 => UVarint
    case UINT64 => UVarint
    case ENUM(values) => if HasNegative(values) then Varint else UVarint
    case STRING(_) => LType.String
    case BYTES(_) => ByteArray
    case FIXED_LENGTH_BYTES(_) => FixedBytes
    case MESSAGE(msg) => Submessage(Compile(msg))
  }

  function DataSize(f: Field): nat {
    if f.proto.MESSAGE? then f.layout.structSize else Datatype(f.proto, f.intSize).1
  }

  function CompileField(f: Field, h: HType): FieldDesc
    decreases f, 1
  {
    FieldDesc(f.tag, h, LTypeOf(f.proto), DataSize(f), if f.rules.REPEATED? && h.Repeated? then f.rules.maxCount else 1,
              f.layout.dataOffset, f.layout.sizeOffset, f.layout.width)
  }

  function RuleOf(r: Rules): HType {
    match r
    case REQUIRED => Required
    case OPTIONAL => Optional
    case REPEATED(_) => Repeated
  }

  /** The descriptors of an entry; the members of entry number j share union j. */
  function CompileEntry(e: Entry, j: nat): seq<FieldDesc>
    decreases e, 2
  {
    match e
    case Single(f) => [CompileField(f, RuleOf(f.rules))]
    case OneOf(members) => seq(|members|, k requires 0 <= k < |members| => CompileField(members[k], Oneof(j)))
  }

  function CompileFrom(msg: Message, j: nat): seq<FieldDesc>
    requires j <= |msg.entries|
    decreases msg, 3, |msg.entries| - j
  {
    if j == |msg.entries| then [] else CompileEntry(msg.entries[j], j) + CompileFrom(msg, j + 1)
  }

  function Insert(f: FieldDesc, s: seq<FieldDesc>): seq<FieldDesc> {
    if s == [] || f.tag <= s[0].tag then [f] + s else [s[0]] + Insert(f, s[1..])
  }

  function SortByTag(s: seq<FieldDesc>): seq<FieldDesc> {
    if s == [] then [] else Insert(s[0], SortByTag(s[1..]))
  }

  /** The field list of a message: all fields, members of oneofs too, sorted by tag. */
  function Compile(msg: Message): MsgDesc
    decreases msg, 4
  {
    MsgDesc(SortByTag(CompileFrom(msg, 0)))
  }

  // ---- sorting ---------------------------------------------------------------------------

  ghost predicate TagsDiffer(s: seq<FieldDesc>) {
    forall i, j :: 0 <= i < j < |s| ==> s[i].tag != s[j].tag
  }

  ghost predicate TagsIncrease(s: seq<FieldDesc>) {
    forall i, j :: 0 <= i < j < |s| ==> s[i].tag < s[j].tag
  }

  lemma {:induction false} InsertKeeps(f: FieldDesc, s: seq<FieldDesc>)
    ensures |Insert(f, s)| == |s| + 1
    ensures forall x :: x in Insert(f, s) <==> x == f || x in s
  {
    if s != [] && f.tag > s[0].tag {
      InsertKeeps(f, s[1..]);
      assert s == [s[0]] + s[1..];
    }
  }

  lemma {:induction false} InsertSorts(f: FieldDesc, s: seq<FieldDesc>)
    requires TagsIncrease(s) && forall k :: 0 <= k < |s| ==> s[k].tag != f.tag
    ensures TagsIncrease(Insert(f, s))
  {
    if s != [] && f.tag > s[0].tag {
      var r := Insert(f, s[1..]);
      InsertSorts(f, s[1..]);
      InsertKeeps(f, s[1..]);
      hide Insert;
      forall k | 0 <= k < |r| ensures s[0].tag < r[k].tag {
        assert r[k] in r;
      }
    }
  }

  lemma {:induction false} SortKeeps(s: seq<FieldDesc>)
    ensures |SortByTag(s)| == |s|
    ensures forall x :: x in SortByTag(s) <==> x in s
  {
    if s != [] {
      SortKeeps(s[1..]);
      InsertKeeps(s[0], SortByTag(s[1..]));
      assert s == [s[0]] + s[1..];
    }
  }

  lemma {:induction false} SortSorts(s: seq<FieldDesc>)
    requires TagsDiffer(s)
    ensures TagsIncrease(SortByTag(s))
  {
    if s != [] {
      var r := SortByTag(s[1..]);
      SortSorts(s[1..]);
      SortKeeps(s[1..]);
      forall k | 0 <= k < |r| ensures r[k].tag != s[0].tag {
        assert r[k] in s[1..];
      }
      InsertSorts(s[0], r);
    }
  }

  // ---- well-formed message types ------------------------------------------------------------

  ghost predicate WfProto(f: Field, h: HType)
    decreases f, 1
  {
    var d := CompileField(f, h);
    && f.tag >= 1 && Fits(d) && SizeAllowed(d.ltype, d.dataSize)
    && (d.sizeOffset == 0 <==> h.Required?)
    && (h.Repeated? ==> d.width >= 2)
    && (f.proto.MESSAGE? ==> WfMessage(f.proto.msg))
  }

  ghost predicate WfEntry(e: Entry, j: nat)
    decreases e, 2
  {
    match e
    case Single(f) => WfProto(f, RuleOf(f.rules))
    case OneOf(members) => forall k :: 0 <= k < |members| ==> WfProto(members[k], Oneof(j))
  }

  /** Each field fits its descriptor words, and no tag is used twice. */
  ghost predicate WfMessage(msg: Message)
    decreases msg, 3
  {
    && (forall j :: 0 <= j < |msg.entries| ==> WfEntry(msg.entries[j], j))
    && TagsDiffer(CompileFrom(msg, 0))
  }

  lemma {:induction false} CompiledFieldWf(f: Field, h: HType)
    requires WfProto(f, h)
    ensures WfField(CompileField(f, h))
    decreases f, 1
  {
    if f.proto.MESSAGE? {
      CompiledWf(f.proto.msg);
    }
  }

  lemma {:induction false} CompiledEntryWf(e: Entry, j: nat)
    requires WfEntry(e, j)
    ensures forall x :: x in CompileEntry(e, j) ==> WfField(x)
    decreases e, 2
  {
    match e
    case Single(f) => CompiledFieldWf(f, RuleOf(f.rules));
    case OneOf(members) =>
      forall k | 0 <= k < |members| ensures WfField(CompileField(members[k], Oneof(j))) {
        CompiledFieldWf(members[k], Oneof(j));
      }
  }

  lemma {:induction false} CompiledFromWf(msg: Message, j: nat)
    requires j <= |msg.entries|
    requires forall i :: j <= i < |msg.entries| ==> WfEntry(msg.entries[i], i)
    ensures forall x :: x in CompileFrom(msg, j) ==> WfField(x)
    decreases msg, 3, |msg.entries| - j
  {
    if j < |msg.entries| {
      CompiledEntryWf(msg.entries[j], j);
      CompiledFromWf(msg, j + 1);
    }
  }

  /** The emitted descriptor is one that the codec can work with; its tags are sorted, as the field search needs them. */
  lemma {:induction false} CompiledWf(msg: Message)
    requires WfMessage(msg)
    ensures WfDesc(Compile(msg))
    decreases msg, 4
  {
    CompiledFromWf(msg, 0);
    SortKeeps(CompileFrom(msg, 0));
    SortSorts(CompileFrom(msg, 0));
    hide WfField, SortByTag, CompileFrom;
    var d := Compile(msg);
    assert forall i :: 0 <= i < |d.fields| ==> d.fields[i] in d.fields;
  }

  // ---- encoded_size ----------------------------------------------------------------------------

  /** What varint_max_size returns: for a negative number, the length of a number that stands in for it. */
  function VarintMaxSize(v: int): (n: nat)
    ensures n >= 1
  {
    if v < 0 then |V.VarintBytes(0x1_0000_0000_0000_0000 - v)| else |V.VarintBytes(v)|
  }

  /** The number without its i low digits of seven bits. */
  function ShiftedDown(v: nat, i: nat): nat {
    if i == 0 then v else ShiftedDown(v, i - 1) / 128
  }

  lemma {:induction false} LengthByShifts(v: nat, i: nat)
    requires i == 0 || ShiftedDown(v, i - 1) / 128 > 0
    ensures |V.VarintBytes(v)| == i + |V.VarintBytes(ShiftedDown(v, i))|
    decreases i
  {
    if i > 0 {
      if i > 1 && ShiftedDown(v, i - 2) / 128 == 0 {
        assert false;
      }
      LengthByShifts(v, i - 1);
    }
  }

  /** varint_max_size; it raises an error for what takes more than ten bytes. */
  method FindVarintMaxSize(value: int) returns (ok: bool, size: nat)
    ensures ok <==> VarintMaxSize(value) <= 10
    ensures ok ==> size == VarintMaxSize(value)
  {
    var maxValue: nat := if value < 0 then 0x1_0000_0000_0000_0000 - value else value;
    var i := 1;
    while i < 11
      invariant 1 <= i <= 11
      invariant i == 1 || ShiftedDown(maxValue, i - 1) > 0
      decreases 11 - i
    {
      LengthByShifts(maxValue, i - 1);
      if ShiftedDown(maxValue, i) == 0 {
        assert ShiftedDown(maxValue, i - 1) < 128;
        return true, i;
      }
      i := i + 1;
    }
    LengthByShifts(maxValue, 10);
    return false, 0;
  }

  /** A negative number counts as ten bytes or more; as exactly ten, if it is one that an enum can have. */
  lemma NegativeTakesTen(v: int)
    ensures v < 0 ==> VarintMaxSize(v) >= 10
    ensures -0x1_0000_0000_0000_0000 <= v < 0 ==> VarintMaxSize(v) == 10
  {
    V.PowersOfTwo();
    if v < 0 {
      var n := 0x1_0000_0000_0000_0000 - v;
      hide V.VarintBytes, Pow2;
      V.VarintLengthAbove(n, 9);
      if n <= 0x2_0000_0000_0000_0000 {
        V.VarintLengthBound(n, 10);
      }
    }
  }
}
