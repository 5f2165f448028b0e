/** The bytes of every message of secil.proto, written out from the declarations in that file. */
module OnTheWire {
  import opened Bytes
  import opened Descriptor
  import opened Wire
  import opened Generator
  import opened Forms
  import opened SecilProto
  import opened SecilSizes
  import opened AnyValues
  import opened Session
  import opened Frames
  import opened Delivery
  import Canonical
  import Crc
  import V = Varint

  // ---- messages of required fields ---------------------------------------------------------

  /** A required field, as it is declared. */
  datatype Part = Part(tag: nat, proto: ProtoType, intSize: IntSize)

  predicate NumberOrText(p: Part) {
    IsNumber(p.proto) || (p.proto.STRING? && p.proto.maxSize < 0x1_0000)
  }

  /** A value behind its key; strings as far as their text goes. */
  function PartForm(p: Part, v: Value): bytes {
    KeyForm(p.tag, WireKind(p.proto))
    + if v.VInt? && IsNumber(p.proto) && Declared(p.proto, p.intSize, v.i) then NumberFormIs(p.proto, p.intSize, v.i); NumberForm(p.proto, v.i)
      else if v.VBytes? then LengthForm(Text(v.b))
      else []
  }

  function PartsForm(parts: seq<Part>, m: Slots): bytes {
    if parts == [] || m == [] || m[0] == [] then [] else PartForm(parts[0], m[0][0]) + PartsForm(parts[1..], m[1..])
  }

  /** The descriptor of a required field. */
  function Described(p: Part, layout: Layout): FieldDesc {
    CompileField(Field(p.tag, REQUIRED, p.proto, p.intSize, layout), Required)
  }

  lemma PartEncoded(p: Part, layout: Layout, v: Value)
    requires NumberOrText(p) && SlotOk(Described(p, layout), [v]) && EncodeField(Described(p, layout), [v]).Some?
    ensures EncodeField(Described(p, layout), [v]) == Some(PartForm(p, v))
  {
    var f := Field(p.tag, REQUIRED, p.proto, p.intSize, layout);
    FieldFormIs(f, Required, v);
    assert DataSize(f) == Datatype(p.proto, p.intSize).1;
    if IsNumber(p.proto) {
      NumberIsInt(p.proto, DataSize(f), v);
      HoldsDeclared(p.proto, p.intSize, v.i);
      NumberFormIs(p.proto, p.intSize, v.i);
    } else {
      assert v.VBytes? && v == VBytes(v.b) && |v.b| <= p.proto.maxSize;
      StringFormIs(p.proto.maxSize, p.intSize, v.b);
    }
    hide EncodeField, EncodeItem, SlotOk, ItemOk, Declared, NumberForm, KeyForm, WireKind, LengthForm, Text, LTypeOf, Datatype;
  }

  lemma NumberIsInt(t: ProtoType, dataSize: nat, v: Value)
    requires IsNumber(t) && ItemOk(LTypeOf(t), dataSize, v)
    ensures v.VInt? && v == VInt(v.i)
  {
  }

  /** d describes the parts from number i on, in this order. */
  ghost predicate Describes(d: MsgDesc, parts: seq<Part>, layouts: seq<Layout>) {
    && |d.fields| == |parts| == |layouts|
    && forall i :: 0 <= i < |parts| ==> NumberOrText(parts[i]) && d.fields[i] == Described(parts[i], layouts[i])
  }

  lemma {:induction false} PartsEncoded(d: MsgDesc, parts: seq<Part>, layouts: seq<Layout>, m: Slots, i: nat)
    requires Describes(d, parts, layouts) && StructOk(d, m) && i <= |m| && EncodeFrom(d, m, i).Some?
    ensures EncodeFrom(d, m, i) == Some(PartsForm(parts[i..], m[i..]))
    decreases |m| - i
  {
    if i < |m| {
      assert SlotOk(d.fields[i], m[i]);
      assert d.fields[i].htype.Required? && m[i] == [m[i][0]];
      assert EncodeFrom(d, m, i) == Join(EncodeField(d.fields[i], m[i]), EncodeFrom(d, m, i + 1));
      hide EncodeField, SlotOk, EncodeFrom, StructOk, PartForm, Described, NumberOrText;
      PartsEncoded(d, parts, layouts, m, i + 1);
      PartEncoded(parts[i], layouts[i], m[i][0]);
      assert parts[i..][0] == parts[i] && parts[i..][1..] == parts[i + 1..];
      assert m[i..][0] == m[i] && m[i..][1..] == m[i + 1..];
    }
  }

  // ---- the declarations of secil.proto ---------------------------------------------------------

  /** The field of the union that has this number in the struct. */
  function TagOf(k: nat): nat {
    if k == 21 then 100 else k + 1
  }

  /** The message that is declared for a tag of the union. */
  function Declaration(tag: nat): seq<Part> {
    match tag
    case 1 => [Part(1, ENUM([0, 1, 2]), IS_DEFAULT), Part(2, BOOL, IS_DEFAULT), Part(3, STRING(32), IS_DEFAULT)]
    case 2 => [Part(1, INT32, IS_8)]
    case 3 => [Part(1, INT32, IS_8)]
    case 4 => [Part(1, INT32, IS_8)]
    case 5 => [Part(1, INT32, IS_8)]
    case 6 => [Part(1, INT32, IS_8)]
    case 7 => [Part(1, INT32, IS_8)]
    case 8 => [Part(1, BOOL, IS_DEFAULT)]
    case 9 => [Part(1, BOOL, IS_DEFAULT)]
    case 10 => [Part(1, STRING(256), IS_DEFAULT)]
    case 11 => [Part(1, BOOL, IS_DEFAULT)]
    case 12 => [Part(1, BOOL, IS_DEFAULT)]
    case 13 => [Part(1, BOOL, IS_DEFAULT)]
    case 14 => [Part(1, INT32, IS_8)]
    case 15 => [Part(1, UINT64, IS_DEFAULT)]
    case 16 => [Part(1, ENUM([0, 1, 2, 3, 4, 5]), IS_DEFAULT)]
    case 17 => [Part(1, ENUM([0, 1, 2, 3]), IS_DEFAULT)]
    case 18 => [Part(1, ENUM([0, 1, 2, 3]), IS_DEFAULT)]
    case 19 => [Part(1, ENUM([0, 1, 2]), IS_DEFAULT)]
    case 20 => [Part(1, ENUM([0, 1]), IS_DEFAULT), Part(2, STRING(32), IS_DEFAULT), Part(3, UINT32, IS_8)]
    case 21 => [Part(1, ENUM([0, 1, 2]), IS_DEFAULT), Part(3, STRING(256), IS_DEFAULT)]
    case 100 => [Part(1, STRING(256), IS_DEFAULT)]
    case _ => []
  }

  function LayoutsOf(msg: Message): seq<Layout> {
    seq(|msg.entries|, i requires 0 <= i < |msg.entries| => if msg.entries[i].Single? then msg.entries[i].field.layout else Layout(0, 0, 0, 1))
  }

  predicate DeclaresPart(e: Entry, p: Part) {
    e.Single? && e.field == Field(p.tag, REQUIRED, p.proto, p.intSize, e.field.layout)
  }

  /** The message type has these required fields, with growing tags. */
  ghost predicate Declares(msg: Message, parts: seq<Part>) {
    && |msg.entries| == |parts|
    && (forall i :: 0 <= i < |parts| ==> NumberOrText(parts[i]) && DeclaresPart(msg.entries[i], parts[i]))
    && forall i, j :: 0 <= i < j < |parts| ==> parts[i].tag < parts[j].tag
  }

  lemma {:induction false} SinglesCompiled(msg: Message, parts: seq<Part>, j: nat)
    requires Declares(msg, parts) && j <= |parts|
    ensures |CompileFrom(msg, j)| == |parts| - j
    ensures forall i :: j <= i < |parts| ==> CompileFrom(msg, j)[i - j] == Described(parts[i], LayoutsOf(msg)[i])
    decreases |parts| - j
  {
    if j < |parts| {
      SinglesCompiled(msg, parts, j + 1);
      var f := msg.entries[j].field;
      assert CompileEntry(msg.entries[j], j) == [CompileField(f, Required)];
      assert CompileFrom(msg, j) == [CompileField(f, Required)] + CompileFrom(msg, j + 1);
      hide CompileField, CompileFrom, CompileEntry, NumberOrText;
    }
  }

  lemma DeclaredIsDescribed(msg: Message, parts: seq<Part>)
    requires Declares(msg, parts)
    ensures Describes(Compile(msg), parts, LayoutsOf(msg))
  {
    hide *;
    var fs := CompileFrom(msg, 0);
    DeclaresMeans(msg, parts);
    SinglesCompiled(msg, parts, 0);
    GrowingTags(fs, parts, LayoutsOf(msg));
    SortedStays(fs);
    CompileIs(msg, fs, parts, LayoutsOf(msg));
  }

  lemma DeclaresMeans(msg: Message, parts: seq<Part>)
    requires Declares(msg, parts)
    ensures |msg.entries| == |parts| == |LayoutsOf(msg)|
    ensures forall i :: 0 <= i < |parts| ==> NumberOrText(parts[i])
    ensures forall i, j :: 0 <= i < j < |parts| ==> parts[i].tag < parts[j].tag
  {
    hide NumberOrText, DeclaresPart;
  }

  lemma GrowingTags(fs: seq<FieldDesc>, parts: seq<Part>, layouts: seq<Layout>)
    requires |fs| == |parts| == |layouts| && forall i :: 0 <= i < |parts| ==> fs[i] == Described(parts[i], layouts[i])
    requires forall i, j :: 0 <= i < j < |parts| ==> parts[i].tag < parts[j].tag
    ensures TagsIncrease(fs)
  {
    assert forall i :: 0 <= i < |parts| ==> fs[i].tag == parts[i].tag;
    hide Described;
  }

  lemma CompileIs(msg: Message, fs: seq<FieldDesc>, parts: seq<Part>, layouts: seq<Layout>)
    requires fs == CompileFrom(msg, 0) && SortByTag(fs) == fs
    requires |fs| == |parts| == |layouts| && forall i :: 0 <= i < |parts| ==> NumberOrText(parts[i]) && fs[i] == Described(parts[i], layouts[i])
    ensures Describes(Compile(msg), parts, layouts)
  {
    hide CompileFrom, SortByTag, Described, NumberOrText;
  }

  /** The message types of the model are those declarations. */
  lemma PayloadDeclared(k: nat)
    requires k < 22
    ensures Payloads()[k].proto.MESSAGE? && Declares(Payloads()[k].proto.msg, Declaration(TagOf(k)))
    ensures Payloads()[k].tag == TagOf(k)
  {
    SinglesDeclared();
    HandshakeDeclared();
    OtaStatusDeclared();
    WarningDeclared();
    hide Declares, HandshakeMessage, Int8Message, BoolMessage, TextMessage, DateMessage, OtaStatusMessage, WarningMessage, EnumMessage;
  }

  lemma JustDeclares(t: ProtoType, s: IntSize, width: nat)
    requires NumberOrText(Part(1, t, s))
    ensures Declares(Just(t, s, width), [Part(1, t, s)])
  {
  }

  lemma ThreeDeclare(a: Entry, b: Entry, c: Entry, p: Part, q: Part, r: Part)
    requires NumberOrText(p) && NumberOrText(q) && NumberOrText(r) && p.tag < q.tag < r.tag
    requires DeclaresPart(a, p) && DeclaresPart(b, q) && DeclaresPart(c, r)
    ensures Declares(Message([a, b, c]), [p, q, r])
  {
    hide NumberOrText, DeclaresPart;
  }

  /** The messages with a single field. */
  lemma SinglesDeclared()
    ensures Declares(Int8Message(), [Part(1, INT32, IS_8)]) && Declares(BoolMessage(), [Part(1, BOOL, IS_DEFAULT)])
    ensures Declares(TextMessage(), [Part(1, STRING(256), IS_DEFAULT)]) && Declares(DateMessage(), [Part(1, UINT64, IS_DEFAULT)])
    ensures Declares(EnumMessage(PAIRING_STATE), [Part(1, ENUM([0, 1, 2, 3, 4, 5]), IS_DEFAULT)])
    ensures Declares(EnumMessage(SYSTEM_STATUS), [Part(1, ENUM([0, 1, 2, 3]), IS_DEFAULT)])
    ensures Declares(EnumMessage(RESET_STATE), [Part(1, ENUM([0, 1, 2]), IS_DEFAULT)])
  {
    hide Declares, Just;
    JustDeclares(INT32, IS_8, 1);
    JustDeclares(BOOL, IS_DEFAULT, 1);
    JustDeclares(STRING(256), IS_DEFAULT, 2);
    JustDeclares(UINT64, IS_DEFAULT, 1);
    JustDeclares(ENUM([0, 1, 2, 3, 4, 5]), IS_DEFAULT, 1);
    JustDeclares(ENUM([0, 1, 2, 3]), IS_DEFAULT, 1);
    JustDeclares(ENUM([0, 1, 2]), IS_DEFAULT, 1);
  }

  lemma HandshakeDeclared()
    ensures Declares(HandshakeMessage(), Declaration(1))
  {
    var a, b, c := Part(1, ENUM([0, 1, 2]), IS_DEFAULT), Part(2, BOOL, IS_DEFAULT), Part(3, STRING(32), IS_DEFAULT);
    var es := HandshakeMessage().entries;
    assert |es| == 3 && DeclaresPart(es[0], a) && DeclaresPart(es[1], b) && DeclaresPart(es[2], c);
    ThreeDeclare(es[0], es[1], es[2], a, b, c);
    assert HandshakeMessage() == Message([es[0], es[1], es[2]]);
    hide Declares, HandshakeMessage;
  }

  lemma OtaStatusDeclared()
    ensures Declares(OtaStatusMessage(), Declaration(20))
  {
    var a, b, c := Part(1, ENUM([0, 1]), IS_DEFAULT), Part(2, STRING(32), IS_DEFAULT), Part(3, UINT32, IS_8);
    var es := OtaStatusMessage().entries;
    assert |es| == 3 && DeclaresPart(es[0], a) && DeclaresPart(es[1], b) && DeclaresPart(es[2], c);
    ThreeDeclare(es[0], es[1], es[2], a, b, c);
    assert OtaStatusMessage() == Message([es[0], es[1], es[2]]);
    hide Declares, OtaStatusMessage;
  }

  lemma WarningDeclared()
    ensures Declares(WarningMessage(), Declaration(21))
  {
    var a, b := Part(1, ENUM([0, 1, 2]), IS_DEFAULT), Part(3, STRING(256), IS_DEFAULT);
    var es := WarningMessage().entries;
    assert |es| == 2 && DeclaresPart(es[0], a) && DeclaresPart(es[1], b);
    TwoDeclare(es[0], es[1], a, b);
    assert WarningMessage() == Message([es[0], es[1]]);
    hide Declares, WarningMessage;
  }

  lemma TwoDeclare(a: Entry, b: Entry, p: Part, q: Part)
    requires NumberOrText(p) && NumberOrText(q) && p.tag < q.tag && DeclaresPart(a, p) && DeclaresPart(b, q)
    ensures Declares(Message([a, b]), [p, q])
  {
    hide NumberOrText, DeclaresPart;
  }

  /**
   * Every message that can be encoded: the key of its payload, its length, and the declared fields in order, each in
   * the form that the encoding has for its declared type.
   */
  lemma SecilForm(m: Slots, k: nat)
    requires Encodable(m) && IsSet(m, k)
    ensures m[k][0].VMsg?
    ensures EncodeStruct(SecilFields(), m)
         == Some(KeyForm(TagOf(k), 2) + LengthForm(PartsForm(Declaration(TagOf(k)), m[k][0].slots)))
  {
    hide *;
    EncodableMeans(m);
    SetParts(m, k);
    MemberEncoded(m, k);
    PayloadDeclared(k);
    var f, v := Payloads()[k], m[k][0];
    var msg := f.proto.msg;
    var parts := Declaration(TagOf(k));
    PayloadForm(f, msg, v);
    DeclaredIsDescribed(msg, parts);
    EncodeWhole(Compile(msg), v.slots);
    PartsEncoded(Compile(msg), parts, LayoutsOf(msg), v.slots, 0);
    SecilIsCompiled();
    SecilWf();
    AnyValueBound(SecilMessage(), m);
    WidenedSecilSize();
    assert parts[0..] == parts && v.slots[0..] == v.slots;
  }

  lemma SetParts(m: Slots, k: nat)
    requires IsSet(m, k)
    ensures |m| == 22 && k < 22 && m[k] == [m[k][0]]
  {
  }

  lemma EncodeWhole(d: MsgDesc, m: Slots)
    requires StructOk(d, m)
    ensures EncodeStruct(d, m) == EncodeFrom(d, m, 0)
  {
    hide StructOk, EncodeFrom;
  }

  lemma SubmessageItem(f: Field, msg: Message, v: Value)
    requires f.proto == MESSAGE(msg) && ItemOk(LTypeOf(f.proto), DataSize(f), v) && EncodeItem(LTypeOf(f.proto), DataSize(f), v).Some?
    ensures WireKind(f.proto) == 2 && v.VMsg? && StructOk(Compile(msg), v.slots) && EncodeStruct(Compile(msg), v.slots).Some?
    ensures EncodeItem(LTypeOf(f.proto), DataSize(f), v) == Some(Delimited(EncodeStruct(Compile(msg), v.slots).value))
  {
    hide Compile, EncodeStruct, StructOk, Delimited;
  }

  lemma BothThere(a: Option<bytes>, b: Option<bytes>)
    requires Join(a, b).Some?
    ensures a.Some? && b.Some? && Join(a, b) == Some(a.value + b.value)
  {
  }

  lemma PayloadForm(f: Field, msg: Message, v: Value)
    requires f.proto == MESSAGE(msg) && SlotOk(CompileField(f, Oneof(0)), [v]) && EncodeField(CompileField(f, Oneof(0)), [v]).Some?
    ensures v.VMsg? && StructOk(Compile(msg), v.slots) && EncodeStruct(Compile(msg), v.slots).Some?
    ensures |EncodeField(CompileField(f, Oneof(0)), [v]).value| < 0x1_0000_0000_0000_0000 ==>
      EncodeField(CompileField(f, Oneof(0)), [v]) == Some(KeyForm(f.tag, 2) + LengthForm(EncodeStruct(Compile(msg), v.slots).value))
  {
    hide *;
    FieldFormIs(f, Oneof(0), v);
    BothThere(Some(KeyForm(f.tag, WireKind(f.proto))), EncodeItem(LTypeOf(f.proto), DataSize(f), v));
    SubmessageItem(f, msg, v);
    ShortLength(EncodeStruct(Compile(msg), v.slots).value);
  }

  // ---- handshakes and loopback tests ---------------------------------------------------------

  /** What the link takes for a handshake and for a loopback test are the payloads of tags 1 and 100. */
  lemma KindsAreTags(m: Slots, k: nat)
    requires IsSet(m, k)
    ensures IsHandshake(m) <==> TagOf(k) == 1
    ensures IsLoopback(m) <==> TagOf(k) == 100
  {
  }

  /** The bytes of a handshake: mode, whether an answer is wanted, and the version. */
  function HandshakeForm(h: Handshake): bytes {
    LengthForm(KeyForm(1, 2) + LengthForm(
      (KeyForm(1, 0) + V.VarintBytes(h.mode)) + ((KeyForm(2, 0) + [if h.needsAck then 1 else 0]) + (KeyForm(3, 2) + LengthForm(h.version)))))
  }

  /** Every handshake is on the line as its declaration says. */
  lemma HandshakeFormIs(h: Handshake)
    requires HandshakeFits(h)
    ensures Accepted(SecilFields(), HandshakeSlots(h)) && BodyOf(SecilFields(), HandshakeSlots(h)) == HandshakeForm(h)
  {
    FitsMeans(h);
    TextOfVersion(h.version);
    HandshakeContent(h);
    hide *;
    var m: Slots := HandshakeSlots(h);
    HandshakeAccepted(h);
    HandshakeParts(h);
    HandshakeIsSet(h);
    BodyIs(m);
    SecilForm(m, 0);
    HandshakeTag();
  }

  lemma ShortKeys()
    ensures KeyForm(1, 2) == [0x0A] && KeyForm(1, 0) == [0x08] && KeyForm(2, 0) == [0x10] && KeyForm(3, 2) == [0x1A]
    ensures V.VarintBytes(1) == [0x01] && V.VarintBytes(2) == [0x02]
  {
  }

  /** The requests of a client and of a server, and the answers of both. */
  lemma RequestBytes(version: bytes, needsAck: bool)
    ensures HandshakeForm(Handshake(CLIENT, needsAck, version))
      == LengthForm([0x0A] + LengthForm([0x08, 0x01, 0x10, if needsAck then 1 else 0, 0x1A] + LengthForm(version)))
    ensures HandshakeForm(Handshake(SERVER, needsAck, version))
      == LengthForm([0x0A] + LengthForm([0x08, 0x02, 0x10, if needsAck then 1 else 0, 0x1A] + LengthForm(version)))
  {
    ShortKeys();
    var flag: byte := if needsAck then 1 else 0;
    var v := LengthForm(version);
    hide LengthForm, KeyForm, V.VarintBytes;
    assert ([0x08] + [0x01]) + (([0x10] + [flag]) + ([0x1A] + v)) == [0x08, 0x01, 0x10, flag, 0x1A] + v;
    assert ([0x08] + [0x02]) + (([0x10] + [flag]) + ([0x1A] + v)) == [0x08, 0x02, 0x10, flag, 0x1A] + v;
  }

  lemma HandshakeTag()
    ensures TagOf(0) == 1
  {
  }

  lemma HandshakeIsSet(h: Handshake)
    ensures IsSet(HandshakeSlots(h), 0)
  {
  }

  lemma HandshakeContent(h: Handshake)
    requires h.mode < TWO_32 && Text(h.version) == h.version
    ensures HandshakeForm(h) == LengthForm(KeyForm(1, 2) + LengthForm(
      PartsForm(Declaration(1), [[VInt(h.mode)], [VInt(if h.needsAck then 1 else 0)], [VBytes(h.version)]])))
  {
    var a, b, c := Part(1, ENUM([0, 1, 2]), IS_DEFAULT), Part(2, BOOL, IS_DEFAULT), Part(3, STRING(32), IS_DEFAULT);
    var ack := VInt(if h.needsAck then 1 else 0);
    HandshakePartForms(h);
    assert Declaration(1) == [a, b, c];
    hide PartsForm, PartForm, KeyForm, LengthForm, Declaration, V.VarintBytes, Text;
    ThreeParts(a, b, c, VInt(h.mode), ack, VBytes(h.version));
  }

  lemma HandshakePartForms(h: Handshake)
    requires h.mode < TWO_32 && Text(h.version) == h.version
    ensures PartForm(Part(1, ENUM([0, 1, 2]), IS_DEFAULT), VInt(h.mode)) == KeyForm(1, 0) + V.VarintBytes(h.mode)
    ensures PartForm(Part(2, BOOL, IS_DEFAULT), VInt(if h.needsAck then 1 else 0)) == KeyForm(2, 0) + [if h.needsAck then 1 else 0]
    ensures PartForm(Part(3, STRING(32), IS_DEFAULT), VBytes(h.version)) == KeyForm(3, 2) + LengthForm(h.version)
  {
    hide *;
    ModeForm(h.mode);
    KindsOfThree();
    FlagForm(h.needsAck);
    NumberPart(Part(1, ENUM([0, 1, 2]), IS_DEFAULT), h.mode);
    NumberPart(Part(2, BOOL, IS_DEFAULT), if h.needsAck then 1 else 0);
    TextPart(Part(3, STRING(32), IS_DEFAULT), h.version);
  }

  lemma KindsOfThree()
    ensures IsNumber(ENUM([0, 1, 2])) && IsNumber(BOOL) && WireKind(ENUM([0, 1, 2])) == WireKind(BOOL) == 0 && WireKind(STRING(32)) == 2
  {
  }

  lemma NumberPart(p: Part, v: int)
    requires IsNumber(p.proto) && Declared(p.proto, p.intSize, v)
    ensures v < 0 ==> p.proto.INT32? || p.proto.INT64? || p.proto.SINT32? || p.proto.SINT64? || p.proto.ENUM?
    ensures PartForm(p, VInt(v)) == KeyForm(p.tag, WireKind(p.proto)) + NumberForm(p.proto, v)
  {
    NumberFormIs(p.proto, p.intSize, v);
    hide Declared, NumberForm, KeyForm, WireKind, IsNumber;
  }

  lemma TextPart(p: Part, b: bytes)
    ensures PartForm(p, VBytes(b)) == KeyForm(p.tag, WireKind(p.proto)) + LengthForm(Text(b))
  {
    hide Declared, NumberForm, KeyForm, WireKind, LengthForm, Text;
  }

  lemma FlagForm(flag: bool)
    ensures var v := if flag then 1 else 0; Declared(BOOL, IS_DEFAULT, v) && NumberForm(BOOL, v) == [v]
  {
  }

  lemma ThreeParts(a: Part, b: Part, c: Part, x: Value, y: Value, z: Value)
    ensures PartsForm([a, b, c], [[x], [y], [z]]) == PartForm(a, x) + (PartForm(b, y) + PartForm(c, z))
  {
    hide PartForm;
    assert [b, c][1..] == [c] && [[y], [z]][1..] == [[z]] && [c][1..] == [] && [[z]][1..] == [];
    assert [a, b, c][1..] == [b, c] && [[x], [y], [z]][1..] == [[y], [z]];
    assert PartsForm([c], [[z]]) == PartForm(c, z) + [] == PartForm(c, z);
    assert PartsForm([b, c], [[y], [z]]) == PartForm(b, y) + PartsForm([c], [[z]]);
  }

  lemma ModeForm(mode: nat)
    requires mode < TWO_32
    ensures Declared(ENUM([0, 1, 2]), IS_DEFAULT, mode) && NumberForm(ENUM([0, 1, 2]), mode) == V.VarintBytes(mode)
  {
    FixedRange(mode);
    SmallModulo(mode);
    hide UnsignedRange, V.VarintBytes;
  }

  lemma SmallModulo(mode: nat)
    requires mode < TWO_32
    ensures mode % TWO_64 == mode
  {
  }

  lemma DelimitedIs(d: MsgDesc, m: Slots)
    requires StructOk(d, m) && EncodeDelimited(d, m).Some?
    ensures EncodeStruct(d, m).Some? && EncodeDelimited(d, m) == Some(Delimited(EncodeStruct(d, m).value))
  {
    hide StructOk, EncodeStruct, Delimited;
  }

  /** What is sent of an accepted message: its length and its bytes. */
  lemma BodyIs(m: Slots)
    requires Accepted(SecilFields(), m)
    ensures Encodable(m) && BodyOf(SecilFields(), m) == LengthForm(EncodeStruct(SecilFields(), m).value)
  {
    hide *;
    AcceptedMeans(m);
    DelimitedIs(SecilFields(), m);
    EncodableIf(m);
    AlwaysRoom(m);
    ShortEnough();
    ShortLength(EncodeStruct(SecilFields(), m).value);
  }

  lemma ShortEnough()
    ensures 5 <= SECIL_MESSAGE_SIZE <= MAX_MESSAGE_SIZE - 8 < 0x1_0000
  {
  }

  // ---- a whole frame ----------------------------------------------------------------------------

  /** relativeHumidity = true */
  function Humidity(): (m: Slots)
    ensures IsSet(m, 7) && m[7] == [VMsg([[VInt(1)]])]
  {
    seq(22, k => if k == 7 then [VMsg([[VInt(1)]])] else [])
  }

  lemma HumidityAccepted()
    ensures Encodable(Humidity())
  {
    hide *;
    var m, inner := Humidity(), Compile(BoolMessage());
    BoolInner(inner);
    HumidityIs();
    OneMemberOk(SecilFields(), m, 7, inner);
    OuterFits(SecilFields(), m, 7, inner);
    SecilWf();
    Canonical.EncodesIffFits(SecilFields(), m);
    EncodableIf(m);
  }

  lemma EncodableIf(m: Slots)
    requires StructOk(SecilFields(), m) && EncodeStruct(SecilFields(), m).Some?
    ensures Encodable(m)
  {
    hide SecilFields, StructOk, EncodeStruct;
  }

  lemma BoolInner(inner: MsgDesc)
    requires inner == Compile(BoolMessage())
    ensures StructOk(inner, [[VInt(1)]]) && Canonical.StructFits(inner, [[VInt(1)]])
    ensures |SecilFields().fields| == 22 && forall k :: 0 <= k < 22 ==> SecilFields().fields[k].htype == Oneof(0)
    ensures SecilFields().fields[7].ltype == Submessage(inner)
  {
    hide *;
    SinglesDeclared();
    DeclaredIsDescribed(BoolMessage(), [Part(1, BOOL, IS_DEFAULT)]);
    OneBoolOk(inner, LayoutsOf(BoolMessage()));
    HumidityMember();
  }

  lemma HumidityMember()
    ensures |SecilFields().fields| == 22 && forall k :: 0 <= k < 22 ==> SecilFields().fields[k].htype == Oneof(0)
    ensures SecilFields().fields[7].ltype == Submessage(Compile(BoolMessage()))
  {
    hide *;
    SecilFieldsAre();
    HumidityIsBool();
    forall k | 0 <= k < 22 ensures SecilFields().fields[k].htype == Oneof(0) {
      MemberKind(Payloads()[k]);
    }
    MemberKind(Payloads()[7]);
  }

  lemma MemberKind(f: Field)
    ensures CompileField(f, Oneof(0)).htype == Oneof(0)
    ensures f.proto.MESSAGE? ==> CompileField(f, Oneof(0)).ltype == Submessage(Compile(f.proto.msg))
  {
    hide Compile;
  }

  lemma HumidityIsBool()
    ensures Payloads()[7].proto == MESSAGE(BoolMessage())
  {
    hide HandshakeMessage, Int8Message, BoolMessage, TextMessage, DateMessage, OtaStatusMessage, WarningMessage, EnumMessage;
  }

  lemma OneBoolOk(d: MsgDesc, layouts: seq<Layout>)
    requires Describes(d, [Part(1, BOOL, IS_DEFAULT)], layouts)
    ensures StructOk(d, [[VInt(1)]]) && Canonical.StructFits(d, [[VInt(1)]])
  {
    var f, m: Slots := d.fields[0], [[VInt(1)]];
    assert f == Described(Part(1, BOOL, IS_DEFAULT), layouts[0]);
    assert LTypeOf(BOOL) == Bool;
    assert f.ltype == Bool && f.htype == Required && ItemOk(Bool, f.dataSize, m[0][0]);
    assert SlotOk(f, m[0]) && Canonical.ItemsFit(f, m[0]);
  }

  /** Header, length, key and content of the message byte by byte, then the checksum of all that, low byte first. */
  lemma HumidityFrame(line: Line)
    requires line.room >= 13
    ensures StructOk(SecilFields(), Humidity())
    ensures var crc := Crc.Crc16(0, [0xCA, 0xFE, 0x05, 0x00, 0x04, 0x42, 0x02, 0x08, 0x01]);
      && crc < 0x1_0000
      && SendOn(line, Humidity()).0 == OK
      && SendOn(line, Humidity()).1.output
        == line.output + [0xCA, 0xFE, 0x05, 0x00, 0x04, 0x42, 0x02, 0x08, 0x01, crc % 0x100, crc / 0x100, 0xFA, 0xDE]
  {
    HumidityBody();
    var body: bytes := [0x04, 0x42, 0x02, 0x08, 0x01];
    FrameOfFive(body);
    hide *;
    EncodableMeans(Humidity());
    SendCases(line, Humidity());
    Crc.CrcBound(0, [0xCA, 0xFE, 0x05, 0x00, 0x04, 0x42, 0x02, 0x08, 0x01]);
    ShortEnough();
  }

  lemma FrameOfFive(body: bytes)
    requires body == [0x04, 0x42, 0x02, 0x08, 0x01]
    ensures Crc.Crc16(0, [0xCA, 0xFE, 0x05, 0x00] + body) < 0x1_0000
    ensures var crc := Crc.Crc16(0, [0xCA, 0xFE, 0x05, 0x00, 0x04, 0x42, 0x02, 0x08, 0x01]);
      crc < 0x1_0000
      && Frame(body) == [0xCA, 0xFE, 0x05, 0x00, 0x04, 0x42, 0x02, 0x08, 0x01, crc % 0x100, crc / 0x100, 0xFA, 0xDE]
  {
    hide Crc.Crc16;
    var checked: bytes := [0xCA, 0xFE, 0x05, 0x00, 0x04, 0x42, 0x02, 0x08, 0x01];
    Crc.CrcBound(0, checked);
    assert Header(5) == [0xCA, 0xFE, 0x05, 0x00];
    assert Header(5) + body == checked;
  }

  lemma HumidityBody()
    ensures Encodable(Humidity()) && StructOk(SecilFields(), Humidity())
    ensures EncodeDelimited(SecilFields(), Humidity()) == Some([0x04, 0x42, 0x02, 0x08, 0x01])
  {
    hide *;
    HumidityAccepted();
    EncodableMeans(Humidity());
    HumidityIs();
    SecilForm(Humidity(), 7);
    HumidityBytes();
    DelimitedFive(Humidity());
  }

  lemma HumidityIs()
    ensures IsSet(Humidity(), 7) && |Humidity()| == 22 && Humidity()[7] == [VMsg([[VInt(1)]])] && TagOf(7) == 8
  {
  }

  lemma HumidityBytes()
    ensures KeyForm(8, 2) + LengthForm(PartsForm(Declaration(8), [[VInt(1)]])) == [0x42, 0x02, 0x08, 0x01]
  {
    var a := Part(1, BOOL, IS_DEFAULT);
    assert V.VarintBytes(1) == [1] && V.VarintBytes(8) == [8] && V.VarintBytes(2) == [2] && V.VarintBytes(66) == [0x42];
    assert PartForm(a, VInt(1)) == [8, 1];
    assert [a][1..] == [] && [[VInt(1)]][1..] == [];
    assert PartsForm([a], [[VInt(1)]]) == PartForm(a, VInt(1)) + PartsForm([], []);
  }

  lemma DelimitedFive(m: Slots)
    requires StructOk(SecilFields(), m) && EncodeStruct(SecilFields(), m) == Some([0x42, 0x02, 0x08, 0x01])
    ensures EncodeDelimited(SecilFields(), m) == Some([0x04, 0x42, 0x02, 0x08, 0x01])
  {
    hide *;
    DelimitedLength(SecilFields(), m);
    DelimitedIs(SecilFields(), m);
    FourInFront();
  }

  lemma FourInFront()
    ensures Delimited([0x42, 0x02, 0x08, 0x01]) == [0x04, 0x42, 0x02, 0x08, 0x01]
  {
    assert V.VarintBytes(4) == [4];
  }
}
