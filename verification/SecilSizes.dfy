/** How long the messages of secil.proto are on the wire, and which of them the link refuses to send. */
module SecilSizes {
  import opened Bytes
  import opened Descriptor
  import opened Wire
  import opened Generator
  import opened SizeBound
  import opened SecilProto
  import opened AnyValues
  import V = Varint

  /** MAX_MESSAGE_SIZE: header, message, footer and headroom. */
  const MAX_MESSAGE_SIZE: nat := 4 + SECIL_MESSAGE_SIZE + 4 + 8

  /** A message that the encoder takes; its enum fields need not hold declared values. */
  ghost predicate Encodable(m: Slots) {
    StructOk(SecilFields(), m) && EncodeStruct(SecilFields(), m).Some?
  }

  lemma PrefixLength(n: nat)
    requires n <= 0x3FFF
    ensures |V.VarintBytes(n % 0x1_0000_0000_0000_0000)| == (if n < 128 then 1 else 2)
  {
    V.PowersOfTwo();
    V.VarintLengthBound(n, 2);
  }

  // ---- the size with any enum value --------------------------------------------------------

  lemma WidenedJust(t: ProtoType, s: IntSize, width: nat)
    ensures WidenedMessage(Just(t, s, width)) == Just(Widened(t, s), s, width)
  {
    var w := WidenedMessage(Just(t, s, width));
    assert w.entries == [WidenedEntry(Just(t, s, width).entries[0])];
  }

  lemma WidenedThree(a: Entry, b: Entry, c: Entry)
    ensures WidenedMessage(Message([a, b, c])) == Message([WidenedEntry(a), WidenedEntry(b), WidenedEntry(c)])
  {
    assert WidenedMessage(Message([a, b, c])).entries == [WidenedEntry(a), WidenedEntry(b), WidenedEntry(c)];
  }

  lemma WidenedTwo(a: Entry, b: Entry)
    ensures WidenedMessage(Message([a, b])) == Message([WidenedEntry(a), WidenedEntry(b)])
  {
    assert WidenedMessage(Message([a, b])).entries == [WidenedEntry(a), WidenedEntry(b)];
  }

  lemma WidenedRequired(tag: nat, t: ProtoType, s: IntSize, offset: nat, width: nat)
    ensures WidenedEntry(RequiredField(tag, t, s, offset, width)) == RequiredField(tag, Widened(t, s), s, offset, width)
  {
  }

  lemma WidenedTypes()
    ensures Widened(OPERATING_MODE, IS_DEFAULT) == Widened(PAIRING_STATE, IS_DEFAULT) == Widened(SYSTEM_STATUS, IS_DEFAULT)
         == Widened(RESET_STATE, IS_DEFAULT) == Widened(OTA_STATE, IS_DEFAULT) == Widened(WARNING_TYPE, IS_DEFAULT) == UINT32
    ensures forall s :: Widened(INT32, s) == INT32 && Widened(BOOL, s) == BOOL && Widened(UINT64, s) == UINT64 && Widened(UINT32, s) == UINT32
    ensures forall n, s :: Widened(STRING(n), s) == STRING(n)
  {
  }

  lemma WideItems()
    ensures ItemSize(UINT32, IS_DEFAULT) == 5
  {
  }

  lemma WidenedSizes()
    ensures MessageSize(WidenedMessage(Int8Message()), 0) == 11 && MessageSize(WidenedMessage(BoolMessage()), 0) == 2
    ensures MessageSize(WidenedMessage(TextMessage()), 0) == 258 && MessageSize(WidenedMessage(DateMessage()), 0) == 11
    ensures MessageSize(WidenedMessage(EnumMessage(PAIRING_STATE)), 0) == 6 && MessageSize(WidenedMessage(EnumMessage(SYSTEM_STATUS)), 0) == 6
    ensures MessageSize(WidenedMessage(EnumMessage(RESET_STATE)), 0) == 6
  {
    hide MessageSize, EntrySize, ItemSize, Widened, WidenedMessage;
    SubmessageSizes();
    WideItems();
    WidenedTypes();
    RequiredSizes();
    WidenedJust(INT32, IS_8, 1);
    WidenedJust(BOOL, IS_DEFAULT, 1);
    WidenedJust(STRING(256), IS_DEFAULT, 2);
    WidenedJust(UINT64, IS_DEFAULT, 1);
    WidenedJust(PAIRING_STATE, IS_DEFAULT, 1);
    WidenedJust(SYSTEM_STATUS, IS_DEFAULT, 1);
    WidenedJust(RESET_STATE, IS_DEFAULT, 1);
    OneEntry(RequiredField(1, UINT32, IS_DEFAULT, 0, 1));
  }

  lemma WidenedLargerSizes()
    ensures MessageSize(WidenedMessage(HandshakeMessage()), 0) == 41 && MessageSize(WidenedMessage(OtaStatusMessage()), 0) == 42
    ensures MessageSize(WidenedMessage(WarningMessage()), 0) == 264
  {
    hide MessageSize, EntrySize, ItemSize, Widened, WidenedMessage, WidenedEntry, RequiredField;
    WideItems();
    TextSizes();
    NumberSizes();
    WidenedTypes();
    RequiredSizes();
    var mode, flag, version := RequiredField(1, OPERATING_MODE, IS_DEFAULT, 0, 1), RequiredField(2, BOOL, IS_DEFAULT, 4, 1),
      RequiredField(3, STRING(32), IS_DEFAULT, 5, 2);
    WidenedThree(mode, flag, version);
    ThreeSize(WidenedEntry(mode), WidenedEntry(flag), WidenedEntry(version));
    WidenedRequired(1, OPERATING_MODE, IS_DEFAULT, 0, 1);
    WidenedRequired(2, BOOL, IS_DEFAULT, 4, 1);
    WidenedRequired(3, STRING(32), IS_DEFAULT, 5, 2);
    var state, target, progress := RequiredField(1, OTA_STATE, IS_DEFAULT, 0, 1), RequiredField(2, STRING(32), IS_DEFAULT, 4, 2),
      RequiredField(3, UINT32, IS_8, 36, 1);
    WidenedThree(state, target, progress);
    ThreeSize(WidenedEntry(state), WidenedEntry(target), WidenedEntry(progress));
    WidenedRequired(1, OTA_STATE, IS_DEFAULT, 0, 1);
    WidenedRequired(2, STRING(32), IS_DEFAULT, 4, 2);
    WidenedRequired(3, UINT32, IS_8, 36, 1);
    var kind, text := RequiredField(1, WARNING_TYPE, IS_DEFAULT, 0, 2), RequiredField(3, STRING(256), IS_DEFAULT, 4, 2);
    WidenedTwo(kind, text);
    TwoSize(WidenedEntry(kind), WidenedEntry(text));
    WidenedRequired(1, WARNING_TYPE, IS_DEFAULT, 0, 2);
    WidenedRequired(3, STRING(256), IS_DEFAULT, 4, 2);
  }

  lemma WidenedPayload(tag: nat, msg: Message, structSize: nat)
    ensures WidenedField(Payload(tag, msg, structSize)) == Payload(tag, WidenedMessage(msg), structSize)
  {
  }

  /** How large a payload can get with any enum value. */
  lemma WidenedPayloadSize(k: nat)
    requires k < 22
    ensures var size := FieldSize(WidenedField(Payloads()[k]), true);
      if k == 20 then size == 268 else size <= 262
  {
    PayloadKinds(k);
    hide *;
    WidenedSizes();
    WidenedLargerSizes();
    var f := Payloads()[k];
    var w := WidenedMessage(f.proto.msg);
    WidenedPayload(f.tag, f.proto.msg, f.layout.structSize);
    PayloadCost(f.tag, w, f.layout.structSize);
    Prefixes(MessageSize(w, 0));
    Prefixes(8 * f.tag);
  }

  /** The members of the union, with integers for enums. */
  function WidenedPayloads(): (r: seq<Field>)
    ensures |r| == 22 && forall k :: 0 <= k < 22 ==> r[k] == WidenedField(Payloads()[k])
  {
    seq(22, k requires 0 <= k < 22 => WidenedField(Payloads()[k]))
  }

  lemma WidenedSecil()
    ensures WidenedMessage(SecilMessage()) == Message([OneOf(WidenedPayloads())])
  {
    hide Payloads, WidenedField;
    var w := WidenedMessage(SecilMessage());
    assert w.entries == [WidenedEntry(OneOf(Payloads()))];
    assert WidenedEntry(OneOf(Payloads())).members == WidenedPayloads();
  }

  /** With any values in its enum fields, a message takes at most four bytes more than secil_message_size. */
  lemma WidenedSecilSize()
    ensures MessageSize(WidenedMessage(SecilMessage()), 0) == 268
  {
    hide *;
    WidenedSecil();
    OneEntry(OneOf(WidenedPayloads()));
    forall k | 0 <= k < 22
      ensures FieldSize(WidenedPayloads()[k], true) <= 268 && FieldSize(WidenedPayloads()[20], true) == 268
    {
      WidenedPayloadSize(k);
      WidenedPayloadSize(20);
    }
    LargestIs(WidenedPayloads(), 0, 20, 268);
    EntryOfOneof(WidenedPayloads());
  }

  lemma EntryOfOneof(members: seq<Field>)
    ensures EntrySize(OneOf(members)) == LargestMember(members, 0)
  {
  }

  /**
   * With its length in front, every message that can be encoded fits the output buffer less the eight bytes for
   * header and footer, whatever its enum fields hold.
   */
  lemma AlwaysRoom(m: Slots)
    requires Encodable(m)
    ensures EncodeDelimited(SecilFields(), m).Some?
    ensures |EncodeDelimited(SecilFields(), m).value| <= SECIL_MESSAGE_SIZE + 6 <= MAX_MESSAGE_SIZE - 8
  {
    hide *;
    EncodableMeans(m);
    BufferSizes();
    SecilWf();
    SecilIsCompiled();
    WidenedSecilSize();
    AnyValueBound(SecilMessage(), m);
    DelimitedLength(SecilFields(), m);
    PrefixLength(|EncodeStruct(SecilFields(), m).value|);
  }

  lemma BufferSizes()
    ensures SECIL_MESSAGE_SIZE + 6 == 270 && MAX_MESSAGE_SIZE == 280
  {
  }

  lemma SecilIsCompiled()
    ensures SecilFields() == Compile(SecilMessage())
  {
    hide SecilMessage, Compile;
  }

  lemma EncodableMeans(m: Slots)
    requires Encodable(m)
    ensures StructOk(SecilFields(), m) && EncodeStruct(SecilFields(), m).Some?
  {
  }

  // ---- only one member is written ---------------------------------------------------------

  /** Member k of the union is set. */
  predicate IsSet(m: Slots, k: nat) {
    |m| == 22 && k < 22 && |m[k]| == 1 && forall j :: 0 <= j < 22 && j != k ==> m[j] == []
  }

  predicate NoneSet(m: Slots) {
    |m| == 22 && forall j :: 0 <= j < 22 ==> m[j] == []
  }

  lemma SetMember(m: Slots) returns (k: nat)
    requires StructOk(SecilFields(), m)
    ensures NoneSet(m) || IsSet(m, k)
  {
    SecilFieldsAre();
    hide SecilFields;
    k := 0;
    if exists j :: 0 <= j < 22 && m[j] != [] {
      k :| 0 <= k < 22 && m[k] != [];
      var d := SecilFields();
      assert SlotOk(d.fields[k], m[k]);
      forall j | 0 <= j < 22 && j != k ensures m[j] == [] {
        assert SameUnion(d.fields[j], d.fields[k]) && SameUnion(d.fields[k], d.fields[j]);
      }
    }
  }

  lemma {:induction false} OnlyMember(d: MsgDesc, m: Slots, k: nat, i: nat)
    requires StructOk(d, m) && k < |m| && i <= |m|
    requires forall j :: 0 <= j < |m| && j != k ==> m[j] == []
    ensures SlotOk(d.fields[k], m[k])
    ensures EncodeFrom(d, m, i) == if i <= k then EncodeField(d.fields[k], m[k]) else Some([])
    decreases |m| - i
  {
    assert SlotOk(d.fields[k], m[k]);
    if i < |m| {
      assert SlotOk(d.fields[i], m[i]);
      OnlyMember(d, m, k, i + 1);
      if i != k {
        assert EncodeField(d.fields[i], m[i]) == Some([]);
      }
      assert EncodeFrom(d, m, i) == Join(EncodeField(d.fields[i], m[i]), EncodeFrom(d, m, i + 1));
      hide EncodeField, EncodeFrom, SlotOk, StructOk;
      assert forall b: bytes :: b + [] == b && [] + b == b;
    }
  }

  lemma {:induction false} NothingWritten(d: MsgDesc, m: Slots, i: nat)
    requires StructOk(d, m) && i <= |m|
    requires forall j :: 0 <= j < |m| ==> m[j] == []
    ensures EncodeFrom(d, m, i) == Some([])
    decreases |m| - i
  {
    if i < |m| {
      assert SlotOk(d.fields[i], m[i]);
      NothingWritten(d, m, i + 1);
      assert EncodeField(d.fields[i], m[i]) == Some([]);
      assert EncodeFrom(d, m, i) == Join(EncodeField(d.fields[i], m[i]), EncodeFrom(d, m, i + 1));
      var none: bytes := [];
      assert none + none == none;
    }
  }

  // ---- messages that are refused ----------------------------------------------------------------

  /** The bytes of member k with this value. */
  lemma MemberEncoded(m: Slots, k: nat)
    requires StructOk(SecilFields(), m) && IsSet(m, k) && EncodeStruct(SecilFields(), m).Some?
    ensures |SecilFields().fields| == 22 && SecilFields().fields[k] == CompileField(Payloads()[k], Oneof(0))
    ensures SlotOk(SecilFields().fields[k], m[k])
    ensures EncodeStruct(SecilFields(), m) == EncodeField(SecilFields().fields[k], m[k])
  {
    SecilFieldsAre();
    OnlyMember(SecilFields(), m, k, 0);
  }

  /** Every payload but a warning stays within the limit, its length prefix included. */
  lemma OtherPayloadsFit(m: Slots, k: nat)
    requires StructOk(SecilFields(), m) && EncodeStruct(SecilFields(), m).Some? && IsSet(m, k) && k != 20
    ensures |EncodeDelimited(SecilFields(), m).value| <= SECIL_MESSAGE_SIZE
  {
    assert k < 22 && Oneof(0).Oneof?;
    hide *;
    MemberEncoded(m, k);
    WidenedPayloadSize(k);
    PayloadsWf(k);
    var f, x := Payloads()[k], SecilFields().fields[k];
    WidenedFieldWf(f, Oneof(0));
    WidenedFieldCompiles(f, Oneof(0));
    SlotInRange(WidenedField(f), Oneof(0), m[k]);
    FieldBound(WidenedField(f), Oneof(0), m[k]);
    DelimitedLength(SecilFields(), m);
    PrefixLength(|EncodeStruct(SecilFields(), m).value|);
  }

  lemma SlotInRange(f: Field, h: HType, slot: seq<Value>)
    requires WfProto(f, h) && ItemCovered(f.proto, f.intSize) && SlotOk(CompileField(f, h), slot)
    ensures FieldInRange(f, slot)
  {
    forall k | 0 <= k < |slot| ensures ItemInRange(f.proto, f.intSize, slot[k]) {
      assert ItemOk(LTypeOf(f.proto), DataSize(f), slot[k]);
      ItemCoveredInRange(f, h, slot[k]);
    }
  }

  lemma DelimitedLength(d: MsgDesc, m: Slots)
    requires StructOk(d, m) && EncodeStruct(d, m).Some?
    ensures EncodeDelimited(d, m).Some?
    ensures var n := |EncodeStruct(d, m).value|; |EncodeDelimited(d, m).value| == |V.VarintBytes(n % 0x1_0000_0000_0000_0000)| + n
  {
  }

  lemma PayloadsWf(k: nat)
    requires k < 22
    ensures WfProto(Payloads()[k], Oneof(0))
  {
    SmallMessagesWf();
    LargerMessagesWf();
    hide Payloads, HandshakeMessage, Int8Message, BoolMessage, TextMessage, DateMessage, OtaStatusMessage, WarningMessage,
      EnumMessage, WfMessage, WfProto;
    PayloadKinds(k);
    var f := Payloads()[k];
    PayloadWf(f.tag, f.proto.msg, f.layout.structSize);
  }

  // ---- warnings -----------------------------------------------------------------------------------

  lemma WarningFields()
    ensures |Compile(WarningMessage()).fields| == 2
    ensures Compile(WarningMessage()).fields[0] == CompileField(WarningMessage().entries[0].field, Required)
    ensures Compile(WarningMessage()).fields[1] == CompileField(WarningMessage().entries[1].field, Required)
  {
    var msg := WarningMessage();
    assert CompileFrom(msg, 2) == [];
    assert CompileFrom(msg, 1) == CompileEntry(msg.entries[1], 1) + [];
    assert CompileFrom(msg, 0) == CompileEntry(msg.entries[0], 0) + CompileFrom(msg, 1);
    hide CompileField;
    SortedStays(CompileFrom(msg, 0));
  }

  lemma TwoFields(d: MsgDesc, m: Slots)
    requires StructOk(d, m) && |d.fields| == 2
    ensures SlotOk(d.fields[0], m[0]) && SlotOk(d.fields[1], m[1])
    ensures EncodeStruct(d, m) == Join(EncodeField(d.fields[0], m[0]), Join(EncodeField(d.fields[1], m[1]), Some([])))
  {
    assert EncodeFrom(d, m, 2) == Some([]);
    assert SlotOk(d.fields[0], m[0]) && SlotOk(d.fields[1], m[1]);
    assert EncodeFrom(d, m, 1) == Join(EncodeField(d.fields[1], m[1]), EncodeFrom(d, m, 2));
  }

  /** The text of a warning, in the struct of its message. */
  function WarningText(slots: Slots): bytes {
    if |slots| == 2 && |slots[1]| == 1 && slots[1][0].VBytes? then Text(slots[1][0].b) else []
  }

  lemma ShortTags()
    ensures |TagBytes(1, WT_VARINT)| == 1 && |TagBytes(3, WT_STRING)| == 1 && |TagBytes(21, WT_STRING)| == 2
  {
    assert |V.VarintBytes(8)| == 1 && |V.VarintBytes(26)| == 1 && |V.VarintBytes(170)| == 2;
  }

  /** The type of a warning, in the struct of its message. */
  function WarningKind(slots: Slots): nat {
    if |slots| == 2 && |slots[0]| == 1 && slots[0][0].VInt? && slots[0][0].i >= 0 then slots[0][0].i else 0
  }

  /** A message of a number and a text. */
  lemma NumberAndText(d: MsgDesc, slots: Slots)
    requires StructOk(d, slots) && EncodeStruct(d, slots).Some? && |d.fields| == 2
    requires d.fields[0].htype.Required? && d.fields[0].ltype == UVarint && d.fields[0].dataSize == 4 && d.fields[0].tag == 1
    requires d.fields[1].htype.Required? && d.fields[1].ltype == LType.String && d.fields[1].tag == 3 && d.fields[1].dataSize == 256
    ensures |WarningText(slots)| <= 255
    ensures |V.VarintBytes(WarningKind(slots))| <= 5
    ensures |EncodeStruct(d, slots).value|
         == |WarningText(slots)| + |V.VarintBytes(WarningKind(slots))| + if |WarningText(slots)| < 128 then 3 else 4
  {
    TwoFields(d, slots);
    SingleItem(d.fields[0], slots[0][0]);
    SingleItem(d.fields[1], slots[1][0]);
    var t, text := slots[0][0], slots[1][0];
    assert slots[0] == [t] && slots[1] == [text];
    assert EncodeItem(UVarint, 4, t) == Some(V.VarintBytes(t.i));
    assert EncodeItem(LType.String, 256, text) == Some(Delimited(Text(text.b)));
    ShortVarints(t.i);
    ShortTags();
    PrefixLength(|Text(text.b)|);
    hide EncodeItem, EncodeField, EncodeStruct, TagBytes, V.VarintBytes, StructOk, ItemOk, SlotOk;
  }

  lemma WarningLength(slots: Slots)
    requires StructOk(Compile(WarningMessage()), slots) && EncodeStruct(Compile(WarningMessage()), slots).Some?
    ensures |WarningText(slots)| <= 255
    ensures |V.VarintBytes(WarningKind(slots))| <= 5
    ensures |EncodeStruct(Compile(WarningMessage()), slots).value|
         == |WarningText(slots)| + |V.VarintBytes(WarningKind(slots))| + if |WarningText(slots)| < 128 then 3 else 4
  {
    hide *;
    WarningFields();
    WarningFieldKinds();
    NumberAndText(Compile(WarningMessage()), slots);
  }

  lemma WarningFieldKinds()
    ensures |WarningMessage().entries| == 2 && WarningMessage().entries[0].Single? && WarningMessage().entries[1].Single?
    ensures var f := CompileField(WarningMessage().entries[0].field, Required);
      f.htype.Required? && f.ltype == UVarint && f.dataSize == 4 && f.tag == 1
    ensures var f := CompileField(WarningMessage().entries[1].field, Required);
      f.htype.Required? && f.ltype == LType.String && f.tag == 3 && f.dataSize == 256
  {
  }

  /** The text of the warning in a message. */
  function WarningOf(m: Slots): bytes {
    if IsSet(m, 20) && m[20][0].VMsg? then WarningText(m[20][0].slots) else []
  }

  /** The type of the warning in a message. */
  function WarningTypeOf(m: Slots): nat {
    if IsSet(m, 20) && m[20][0].VMsg? then WarningKind(m[20][0].slots) else 0
  }

  /** A submessage as the only member of a union with a two-byte tag. */
  lemma SubmessageLength(f: FieldDesc, d: MsgDesc, v: Value)
    requires SlotOk(f, [v]) && f.htype.Oneof? && f.tag == 21 && f.ltype == Submessage(d) && EncodeField(f, [v]).Some?
    ensures v.VMsg? && StructOk(d, v.slots) && EncodeStruct(d, v.slots).Some?
    ensures var n := |EncodeStruct(d, v.slots).value|;
      n <= 0x3FFF ==> |EncodeField(f, [v]).value| == n + if n < 128 then 3 else 4
  {
    SingleItem(f, v);
    ShortTags();
    var c := EncodeStruct(d, v.slots);
    assert EncodeItem(f.ltype, f.dataSize, v) == if c.Some? then Some(Delimited(c.value)) else None;
    hide EncodeItem, EncodeStruct, StructOk, TagBytes, EncodeField;
    if c.Some? && |c.value| <= 0x3FFF {
      PrefixLength(|c.value|);
    }
  }

  /** The length of a message with a warning. */
  lemma WarningTotal(m: Slots)
    requires StructOk(SecilFields(), m) && EncodeStruct(SecilFields(), m).Some? && IsSet(m, 20)
    ensures |WarningOf(m)| <= 255
    ensures |WarningOf(m)| >= 128 ==>
      |EncodeStruct(SecilFields(), m).value| == |WarningOf(m)| + |V.VarintBytes(WarningTypeOf(m))| + 8
    ensures |V.VarintBytes(WarningTypeOf(m))| <= 5
    ensures |WarningOf(m)| < 128 ==> |EncodeStruct(SecilFields(), m).value| < 140
  {
    hide *;
    TheWarning(m);
    var f, v, d := SecilFields().fields[20], m[20][0], Compile(WarningMessage());
    MemberEncoded(m, 20);
    WarningMember();
    SubmessageLength(f, d, v);
    WarningLength(v.slots);
  }

  lemma TheWarning(m: Slots)
    requires IsSet(m, 20)
    ensures |m| == 22 && m[20] == [m[20][0]] && 20 < |SecilFields().fields|
    ensures m[20][0].VMsg? ==> WarningOf(m) == WarningText(m[20][0].slots) && WarningTypeOf(m) == WarningKind(m[20][0].slots)
  {
    SecilFieldsAre();
    hide SecilFields, WarningText, WarningKind;
  }

  lemma WarningMember()
    ensures var f := CompileField(Payloads()[20], Oneof(0));
      f.htype.Oneof? && f.tag == 21 && f.ltype == Submessage(Compile(WarningMessage()))
  {
    PayloadKinds(20);
    hide Payloads, WarningMessage, Compile;
  }

  /**
   * The length test of secil_send counts the length prefix, secil_message_size does not; and nothing asks whether the
   * type of a warning is declared. So the messages that are refused although they can be encoded are exactly the
   * warnings whose text and type together take 255 bytes or more.
   */
  lemma RefusedIffLongWarning(m: Slots)
    requires Encodable(m)
    ensures |EncodeDelimited(SecilFields(), m).value| > SECIL_MESSAGE_SIZE
       <==> IsSet(m, 20) && |WarningOf(m)| + |V.VarintBytes(WarningTypeOf(m))| >= 255
    ensures |WarningOf(m)| <= 255
  {
    assert SECIL_MESSAGE_SIZE == 264;
    hide *;
    EncodableMeans(m);
    var k := SetMember(m);
    DelimitedLength(SecilFields(), m);
    if NoneSet(m) {
      OnlyEmpty(m);
      PrefixLength(0);
    } else if k == 20 {
      WarningTotal(m);
      PrefixLength(|EncodeStruct(SecilFields(), m).value|);
    } else {
      OtherPayloadsFit(m, k);
    }
  }

  /** Among warnings of a declared type, those are the ones of 254 and 255 characters. */
  lemma RefusedIfDeclared(m: Slots)
    requires Encodable(m) && WarningTypeOf(m) <= 2
    ensures |EncodeDelimited(SecilFields(), m).value| > SECIL_MESSAGE_SIZE <==> |WarningOf(m)| >= 254
  {
    hide *;
    RefusedIffLongWarning(m);
    SmallNumber(WarningTypeOf(m));
    LongIsSet(m);
  }

  lemma SmallNumber(n: nat)
    requires n <= 2
    ensures |V.VarintBytes(n)| == 1
  {
  }

  lemma LongIsSet(m: Slots)
    ensures |WarningOf(m)| > 0 ==> IsSet(m, 20)
  {
  }

  lemma OnlyEmpty(m: Slots)
    requires StructOk(SecilFields(), m) && NoneSet(m)
    ensures EncodeStruct(SecilFields(), m) == Some([])
    ensures |V.VarintBytes(0)| == 1
  {
    SecilFieldsAre();
    NothingWritten(SecilFields(), m, 0);
  }
}
