/** The message types of secil.proto, their descriptor and their size. */
module SecilProto {
  import opened Descriptor
  import opened Generator
  import opened SizeBound
  import V = Varint

  // Offsets and sizes are those of a compiler that aligns enums to 4 bytes and uint64_t to 8.

  function RequiredField(tag: nat, t: ProtoType, s: IntSize, offset: nat, width: nat): Entry {
    Single(Field(tag, REQUIRED, t, s, Layout(offset, 0, 0, width)))
  }

  /** A message with a single required field. */
  function Just(t: ProtoType, s: IntSize, width: nat): Message {
    Message([RequiredField(1, t, s, 0, width)])
  }

  const OPERATING_MODE: ProtoType := ENUM([0, 1, 2])
  const PAIRING_STATE: ProtoType := ENUM([0, 1, 2, 3, 4, 5])
  const SYSTEM_STATUS: ProtoType := ENUM([0, 1, 2, 3])
  const RESET_STATE: ProtoType := ENUM([0, 1, 2])
  const OTA_STATE: ProtoType := ENUM([0, 1])
  const WARNING_TYPE: ProtoType := ENUM([0, 1, 2])

  function Int8Message(): Message { Just(INT32, IS_8, 1) }
  function BoolMessage(): Message { Just(BOOL, IS_DEFAULT, 1) }
  function TextMessage(): Message { Just(STRING(256), IS_DEFAULT, 2) }
  function DateMessage(): Message { Just(UINT64, IS_DEFAULT, 1) }
  function EnumMessage(t: ProtoType): Message { Just(t, IS_DEFAULT, 1) }

  function HandshakeMessage(): Message {
    Message([RequiredField(1, OPERATING_MODE, IS_DEFAULT, 0, 1),
             RequiredField(2, BOOL, IS_DEFAULT, 4, 1),
             RequiredField(3, STRING(32), IS_DEFAULT, 5, 2)])
  }

  function OtaStatusMessage(): Message {
    Message([RequiredField(1, OTA_STATE, IS_DEFAULT, 0, 1),
             RequiredField(2, STRING(32), IS_DEFAULT, 4, 2),
             RequiredField(3, UINT32, IS_8, 36, 1)])
  }

  function WarningMessage(): Message {
    Message([RequiredField(1, WARNING_TYPE, IS_DEFAULT, 0, 2),
             RequiredField(3, STRING(256), IS_DEFAULT, 4, 2)])
  }

  /** A member of the union payload. */
  function Payload(tag: nat, msg: Message, structSize: nat): Field {
    Field(tag, OPTIONAL, MESSAGE(msg), IS_DEFAULT, Layout(8, 8, structSize, 2))
  }

  function Payloads(): (r: seq<Field>)
    ensures |r| == 22
    ensures forall k :: 0 <= k < 22 ==> r[k].tag == if k == 21 then 100 else k + 1
  {
    [Payload(1, HandshakeMessage(), 40),
     Payload(2, Int8Message(), 1), Payload(3, Int8Message(), 1), Payload(4, Int8Message(), 1),
     Payload(5, Int8Message(), 1), Payload(6, Int8Message(), 1), Payload(7, Int8Message(), 1),
     Payload(8, BoolMessage(), 1), Payload(9, BoolMessage(), 1),
     Payload(10, TextMessage(), 256),
     Payload(11, BoolMessage(), 1), Payload(12, BoolMessage(), 1), Payload(13, BoolMessage(), 1),
     Payload(14, Int8Message(), 1), Payload(15, DateMessage(), 8),
     Payload(16, EnumMessage(PAIRING_STATE), 4), Payload(17, EnumMessage(SYSTEM_STATUS), 4),
     Payload(18, EnumMessage(SYSTEM_STATUS), 4), Payload(19, EnumMessage(RESET_STATE), 4),
     Payload(20, OtaStatusMessage(), 40), Payload(21, WarningMessage(), 260),
     Payload(100, TextMessage(), 256)]
  }

  /** secil_message */
  function SecilMessage(): Message {
    Message([OneOf(Payloads())])
  }

  /** secil_message_fields */
  function SecilFields(): MsgDesc {
    Compile(SecilMessage())
  }

  /** secil_message_size, as the generator computes it; source/secil.c takes its buffer sizes from it. */
  const SECIL_MESSAGE_SIZE: nat := 264

  // ---- the descriptor is well-formed ---------------------------------------------------

  lemma JustWf(t: ProtoType, s: IntSize, width: nat)
    requires WfProto(RequiredField(1, t, s, 0, width).field, Required)
    ensures WfMessage(Just(t, s, width))
  {
    var msg := Just(t, s, width);
    assert CompileFrom(msg, 1) == [];
    assert CompileFrom(msg, 0) == CompileEntry(msg.entries[0], 0) + [];
    assert |CompileEntry(msg.entries[0], 0)| == 1;
  }

  lemma ThreeWf(a: Entry, b: Entry, c: Entry)
    requires a.Single? && b.Single? && c.Single?
    requires WfEntry(a, 0) && WfEntry(b, 1) && WfEntry(c, 2)
    requires a.field.tag < b.field.tag < c.field.tag
    ensures WfMessage(Message([a, b, c]))
  {
    var msg := Message([a, b, c]);
    assert CompileFrom(msg, 3) == [];
    assert CompileFrom(msg, 2) == CompileEntry(c, 2) + [];
    assert CompileFrom(msg, 1) == CompileEntry(b, 1) + CompileFrom(msg, 2);
    assert CompileFrom(msg, 0) == CompileEntry(a, 0) + CompileFrom(msg, 1);
    hide WfProto, LTypeOf, DataSize, WfEntry;
    assert CompileEntry(a, 0) == [CompileField(a.field, RuleOf(a.field.rules))];
    assert CompileEntry(b, 1) == [CompileField(b.field, RuleOf(b.field.rules))];
    assert CompileEntry(c, 2) == [CompileField(c.field, RuleOf(c.field.rules))];
    assert forall j :: 0 <= j < |msg.entries| ==> WfEntry(msg.entries[j], j);
  }

  lemma TwoWf(a: Entry, b: Entry)
    requires a.Single? && b.Single?
    requires WfEntry(a, 0) && WfEntry(b, 1) && a.field.tag < b.field.tag
    ensures WfMessage(Message([a, b]))
  {
    var msg := Message([a, b]);
    assert CompileFrom(msg, 2) == [];
    assert CompileFrom(msg, 1) == CompileEntry(b, 1) + [];
    assert CompileFrom(msg, 0) == CompileEntry(a, 0) + CompileFrom(msg, 1);
    hide WfProto, LTypeOf, DataSize, WfEntry;
    assert CompileEntry(a, 0) == [CompileField(a.field, RuleOf(a.field.rules))];
    assert CompileEntry(b, 1) == [CompileField(b.field, RuleOf(b.field.rules))];
    assert forall j :: 0 <= j < |msg.entries| ==> WfEntry(msg.entries[j], j);
  }

  /** A number fits one word, a text two. */
  lemma NumberFits(tag: nat, t: ProtoType, s: IntSize, offset: nat, width: nat)
    requires 1 <= tag < 0x40 && offset < 0x100 && LTypeOf(t).Packable() && (width == 1 || width == 2)
    ensures WfEntry(RequiredField(tag, t, s, offset, width), 0)
    ensures WfEntry(RequiredField(tag, t, s, offset, width), 1)
    ensures WfEntry(RequiredField(tag, t, s, offset, width), 2)
    ensures WfProto(RequiredField(tag, t, s, offset, width).field, Required)
  {
  }

  lemma TextFits(tag: nat, size: nat, offset: nat)
    requires 1 <= tag < 0x40 && offset < 0x1_0000 && 1 <= size < 0x1000
    ensures WfEntry(RequiredField(tag, STRING(size), IS_DEFAULT, offset, 2), 1)
    ensures WfEntry(RequiredField(tag, STRING(size), IS_DEFAULT, offset, 2), 2)
    ensures WfProto(RequiredField(tag, STRING(size), IS_DEFAULT, offset, 2).field, Required)
  {
    assert LTypeOf(STRING(size)) == LType.String;
  }

  lemma SmallMessagesWf()
    ensures WfMessage(Int8Message()) && WfMessage(BoolMessage()) && WfMessage(TextMessage()) && WfMessage(DateMessage())
    ensures WfMessage(EnumMessage(PAIRING_STATE)) && WfMessage(EnumMessage(SYSTEM_STATUS)) && WfMessage(EnumMessage(RESET_STATE))
  {
    hide WfMessage, WfProto, WfEntry;
    NumberFits(1, INT32, IS_8, 0, 1);
    NumberFits(1, BOOL, IS_DEFAULT, 0, 1);
    NumberFits(1, UINT64, IS_DEFAULT, 0, 1);
    NumberFits(1, PAIRING_STATE, IS_DEFAULT, 0, 1);
    NumberFits(1, SYSTEM_STATUS, IS_DEFAULT, 0, 1);
    NumberFits(1, RESET_STATE, IS_DEFAULT, 0, 1);
    TextFits(1, 256, 0);
    hide RequiredField;
    JustWf(INT32, IS_8, 1);
    JustWf(BOOL, IS_DEFAULT, 1);
    JustWf(UINT64, IS_DEFAULT, 1);
    JustWf(PAIRING_STATE, IS_DEFAULT, 1);
    JustWf(SYSTEM_STATUS, IS_DEFAULT, 1);
    JustWf(RESET_STATE, IS_DEFAULT, 1);
    JustWf(STRING(256), IS_DEFAULT, 2);
  }

  lemma LargerMessagesWf()
    ensures WfMessage(HandshakeMessage()) && WfMessage(OtaStatusMessage()) && WfMessage(WarningMessage())
  {
    hide WfMessage, WfProto, WfEntry;
    NumberFits(1, OPERATING_MODE, IS_DEFAULT, 0, 1);
    NumberFits(2, BOOL, IS_DEFAULT, 4, 1);
    TextFits(3, 32, 5);
    ThreeWf(RequiredField(1, OPERATING_MODE, IS_DEFAULT, 0, 1), RequiredField(2, BOOL, IS_DEFAULT, 4, 1),
            RequiredField(3, STRING(32), IS_DEFAULT, 5, 2));
    NumberFits(1, OTA_STATE, IS_DEFAULT, 0, 1);
    TextFits(2, 32, 4);
    NumberFits(3, UINT32, IS_8, 36, 1);
    ThreeWf(RequiredField(1, OTA_STATE, IS_DEFAULT, 0, 1), RequiredField(2, STRING(32), IS_DEFAULT, 4, 2),
            RequiredField(3, UINT32, IS_8, 36, 1));
    NumberFits(1, WARNING_TYPE, IS_DEFAULT, 0, 2);
    TextFits(3, 256, 4);
    TwoWf(RequiredField(1, WARNING_TYPE, IS_DEFAULT, 0, 2), RequiredField(3, STRING(256), IS_DEFAULT, 4, 2));
  }

  lemma PayloadWf(tag: nat, msg: Message, structSize: nat)
    requires WfMessage(msg) && 1 <= tag < 0x400 && structSize < 0x1000
    ensures WfProto(Payload(tag, msg, structSize), Oneof(0))
  {
  }

  /** A message in the union is one of the ten message types, and has a size below 4096. */
  lemma PayloadKinds(k: nat)
    requires k < 22
    ensures Payloads()[k].proto.MESSAGE?
    ensures var f := Payloads()[k]; f == Payload(f.tag, f.proto.msg, f.layout.structSize) && f.layout.structSize < 0x1000
    ensures var msg := Payloads()[k].proto.msg;
      if k == 20 then msg == WarningMessage()
      else || msg == HandshakeMessage() || msg == Int8Message() || msg == BoolMessage() || msg == TextMessage()
           || msg == DateMessage() || msg == OtaStatusMessage() || msg == EnumMessage(PAIRING_STATE)
           || msg == EnumMessage(SYSTEM_STATUS) || msg == EnumMessage(RESET_STATE)
  {
    hide HandshakeMessage, Int8Message, BoolMessage, TextMessage, DateMessage, OtaStatusMessage, WarningMessage, EnumMessage;
  }

  lemma OneofWf(members: seq<Field>)
    requires forall k :: 0 <= k < |members| ==> WfProto(members[k], Oneof(0))
    requires forall i, j :: 0 <= i < j < |members| ==> members[i].tag < members[j].tag
    ensures WfMessage(Message([OneOf(members)]))
  {
    var msg := Message([OneOf(members)]);
    hide WfProto, CompileField;
    assert WfEntry(msg.entries[0], 0);
    assert CompileFrom(msg, 1) == [];
    assert CompileFrom(msg, 0) == CompileEntry(msg.entries[0], 0) + [];
    TagsOfMembers(members);
  }

  lemma TagsOfMembers(members: seq<Field>)
    ensures |CompileEntry(OneOf(members), 0)| == |members|
    ensures forall k :: 0 <= k < |members| ==> CompileEntry(OneOf(members), 0)[k].tag == members[k].tag
  {
  }

  lemma SecilWf()
    ensures WfMessage(SecilMessage()) && WfDesc(SecilFields())
  {
    var msg, ms := SecilMessage(), Payloads();
    SmallMessagesWf();
    LargerMessagesWf();
    hide Payloads, HandshakeMessage, Int8Message, BoolMessage, TextMessage, DateMessage, OtaStatusMessage, WarningMessage,
      EnumMessage, WfMessage, WfProto, Compile, WfDesc;
    forall k | 0 <= k < 22 ensures WfProto(ms[k], Oneof(0)) {
      PayloadKinds(k);
      PayloadWf(ms[k].tag, ms[k].proto.msg, ms[k].layout.structSize);
    }
    OneofWf(ms);
    CompiledWf(msg);
  }

  lemma {:induction false} SortedStays(s: seq<FieldDesc>)
    requires TagsIncrease(s)
    ensures SortByTag(s) == s
  {
    if s != [] {
      SortedStays(s[1..]);
      assert s == [s[0]] + s[1..];
    }
  }

  lemma OneofCompiled(members: seq<Field>)
    requires forall i, j :: 0 <= i < j < |members| ==> members[i].tag < members[j].tag
    ensures Compile(Message([OneOf(members)])).fields == CompileEntry(OneOf(members), 0)
  {
    var msg, fs := Message([OneOf(members)]), CompileEntry(OneOf(members), 0);
    assert CompileFrom(msg, 1) == [];
    assert CompileFrom(msg, 0) == fs + [] == fs;
    assert Compile(msg).fields == SortByTag(fs);
    TagsOfMembers(members);
    hide *;
    SortedStays(fs);
  }

  /** Field k of the descriptor is member k of the union: the members are declared in the order of their tags. */
  lemma SecilFieldsAre()
    ensures |SecilFields().fields| == 22
    ensures forall k :: 0 <= k < 22 ==> SecilFields().fields[k] == CompileField(Payloads()[k], Oneof(0))
  {
    hide Payloads, CompileField, Compile;
    OneofCompiled(Payloads());
  }

  // ---- the size of the messages ------------------------------------------------------------

  lemma OneEntry(e: Entry)
    ensures MessageSize(Message([e]), 0) == EntrySize(e)
  {
    assert MessageSize(Message([e]), 1) == 0;
  }

  lemma {:induction false} SmallEnum(values: seq<int>)
    requires values != [] && forall k :: 0 <= k < |values| ==> 0 <= values[k] < 128
    ensures EnumSize(values) == 1
  {
    if |values| > 1 {
      SmallEnum(values[1..]);
    } else {
      assert values[1..] == [];
    }
  }

  lemma TextSizes()
    ensures ItemSize(STRING(256), IS_DEFAULT) == 257 && ItemSize(STRING(32), IS_DEFAULT) == 32
  {
    assert |V.VarintBytes(256)| == 2 && |V.VarintBytes(32)| == 1;
  }

  lemma NumberSizes()
    ensures ItemSize(INT32, IS_8) == 10 && ItemSize(BOOL, IS_DEFAULT) == 1
    ensures ItemSize(UINT64, IS_DEFAULT) == 10 && ItemSize(UINT32, IS_8) == 2
    ensures forall values: seq<int> :: ItemSize(ENUM(values), IS_DEFAULT) == EnumSize(values)
  {
  }

  lemma ThreeSize(a: Entry, b: Entry, c: Entry)
    ensures MessageSize(Message([a, b, c]), 0) == EntrySize(a) + EntrySize(b) + EntrySize(c)
  {
    var msg := Message([a, b, c]);
    assert MessageSize(msg, 3) == 0;
    assert MessageSize(msg, 2) == EntrySize(c);
    assert MessageSize(msg, 1) == EntrySize(b) + EntrySize(c);
  }

  lemma TwoSize(a: Entry, b: Entry)
    ensures MessageSize(Message([a, b]), 0) == EntrySize(a) + EntrySize(b)
  {
    var msg := Message([a, b]);
    assert MessageSize(msg, 2) == 0;
    assert MessageSize(msg, 1) == EntrySize(b);
  }

  lemma SubmessageSizes()
    ensures MessageSize(Int8Message(), 0) == 11 && MessageSize(BoolMessage(), 0) == 2
    ensures MessageSize(TextMessage(), 0) == 258 && MessageSize(DateMessage(), 0) == 11
    ensures MessageSize(EnumMessage(PAIRING_STATE), 0) == 2 && MessageSize(EnumMessage(SYSTEM_STATUS), 0) == 2
    ensures MessageSize(EnumMessage(RESET_STATE), 0) == 2
    ensures MessageSize(HandshakeMessage(), 0) == 37 && MessageSize(OtaStatusMessage(), 0) == 38
    ensures MessageSize(WarningMessage(), 0) == 260
  {
    hide MessageSize, EntrySize, ItemSize;
    TextSizes();
    NumberSizes();
    SmallEnum([0, 1]);
    SmallEnum([0, 1, 2]);
    SmallEnum([0, 1, 2, 3]);
    SmallEnum([0, 1, 2, 3, 4, 5]);
    hide EnumSize;
    RequiredSizes();
    OneEntry(RequiredField(1, INT32, IS_8, 0, 1));
    OneEntry(RequiredField(1, BOOL, IS_DEFAULT, 0, 1));
    OneEntry(RequiredField(1, STRING(256), IS_DEFAULT, 0, 2));
    OneEntry(RequiredField(1, UINT64, IS_DEFAULT, 0, 1));
    OneEntry(RequiredField(1, PAIRING_STATE, IS_DEFAULT, 0, 1));
    OneEntry(RequiredField(1, SYSTEM_STATUS, IS_DEFAULT, 0, 1));
    OneEntry(RequiredField(1, RESET_STATE, IS_DEFAULT, 0, 1));
    ThreeSize(RequiredField(1, OPERATING_MODE, IS_DEFAULT, 0, 1), RequiredField(2, BOOL, IS_DEFAULT, 4, 1),
              RequiredField(3, STRING(32), IS_DEFAULT, 5, 2));
    ThreeSize(RequiredField(1, OTA_STATE, IS_DEFAULT, 0, 1), RequiredField(2, STRING(32), IS_DEFAULT, 4, 2),
              RequiredField(3, UINT32, IS_8, 36, 1));
    TwoSize(RequiredField(1, WARNING_TYPE, IS_DEFAULT, 0, 2), RequiredField(3, STRING(256), IS_DEFAULT, 4, 2));
  }

  lemma RequiredSizes()
    ensures forall tag, t, s, offset, width :: 1 <= tag < 0x10 ==> EntrySize(RequiredField(tag, t, s, offset, width)) == ItemSize(t, s) + 1
  {
  }

  lemma PayloadCost(tag: nat, msg: Message, structSize: nat)
    ensures FieldSize(Payload(tag, msg, structSize), true)
         == MessageSize(msg, 0) + VarintMaxSize(MessageSize(msg, 0)) + VarintMaxSize(8 * tag)
  {
  }

  lemma Prefixes(n: nat)
    ensures n <= 800 ==> VarintMaxSize(n) <= 2
    ensures 128 <= n <= 800 ==> VarintMaxSize(n) == 2
  {
    V.PowersOfTwo();
    if n <= 800 {
      V.VarintLengthBound(n, 2);
    }
  }

  /** A payload takes its own size, that of its length, and that of its tag. */
  lemma PayloadSize(k: nat)
    requires k < 22
    ensures var size := FieldSize(Payloads()[k], true);
      if k == 20 then size == 264 else size <= 262
  {
    SubmessageSizes();
    PayloadKinds(k);
    hide *;
    var f := Payloads()[k];
    PayloadCost(f.tag, f.proto.msg, f.layout.structSize);
    Prefixes(MessageSize(f.proto.msg, 0));
    Prefixes(8 * f.tag);
  }

  /** secil_message_size is what the generator computes for secil.proto. */
  lemma SecilMessageSize()
    ensures MessageSize(SecilMessage(), 0) == SECIL_MESSAGE_SIZE
  {
    OneEntry(OneOf(Payloads()));
    forall k | 0 <= k < 22 ensures FieldSize(Payloads()[k], true) <= 264 && FieldSize(Payloads()[20], true) == 264 {
      PayloadSize(k);
      PayloadSize(20);
    }
    hide Payloads, FieldSize, MessageSize;
    LargestIs(Payloads(), 0, 20, 264);
  }

  lemma {:induction false} LargestIs(members: seq<Field>, k: nat, at: nat, size: nat)
    requires k <= |members| && at < |members| && FieldSize(members[at], true) == size
    requires forall i :: 0 <= i < |members| ==> FieldSize(members[i], true) <= size
    ensures LargestMember(members, k) <= size && (k <= at ==> LargestMember(members, k) == size)
    decreases |members| - k
  {
    if k < |members| {
      LargestIs(members, k + 1, at, size);
    }
  }
}
