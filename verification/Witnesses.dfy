/** Inputs at which the code does not do what its documentation says: long warnings, and a missing required field. */
module Witnesses {
  import opened Bytes
  import opened Descriptor
  import opened Wire
  import opened Generator
  import opened SecilProto
  import opened SecilSizes
  import opened Frames
  import opened Session
  import Canonical
  import RequiredFields
  import RoundTrip
  import V = Varint

  // ---- warnings ----------------------------------------------------------------------

  /** A warning with this type and text, as secil_send_warning puts it together. */
  function WarningSlots(kind: nat, text: bytes): (m: Slots)
    ensures IsSet(m, 20) && m[20][0].VMsg?
  {
    seq(22, k => if k == 20 then [VMsg([[VInt(kind)], [VBytes(text)]])] else [])
  }

  /** The text fits the buffer of the message with a zero behind it, and the type fits its enum. */
  predicate IsWarning(kind: nat, text: bytes) {
    kind < TWO_32 && |text| <= 255 && 0 !in text
  }

  lemma WarningStruct(d: MsgDesc, kind: nat, text: bytes)
    requires IsWarning(kind, text) && |d.fields| == 2
    requires d.fields[0].htype.Required? && d.fields[0].ltype == UVarint && d.fields[0].dataSize == 4
    requires d.fields[1].htype.Required? && d.fields[1].ltype == LType.String && d.fields[1].dataSize == 256
    ensures StructOk(d, [[VInt(kind)], [VBytes(text)]])
    ensures Canonical.StructFits(d, [[VInt(kind)], [VBytes(text)]])
  {
    var s: Slots := [[VInt(kind)], [VBytes(text)]];
    assert ItemOk(UVarint, 4, s[0][0]) && ItemOk(LType.String, 256, s[1][0]);
    assert SlotOk(d.fields[0], s[0]) && SlotOk(d.fields[1], s[1]);
    assert Canonical.ItemsFit(d.fields[0], s[0]) && Canonical.ItemsFit(d.fields[1], s[1]);
  }

  lemma WarningParts(kind: nat, text: bytes)
    requires IsWarning(kind, text)
    ensures var m := WarningSlots(kind, text);
      |m| == 22 && m[20] == [VMsg([[VInt(kind)], [VBytes(text)]])] && WarningOf(m) == text && WarningTypeOf(m) == kind
  {
    TextOfVersion(text);
  }

  lemma UnionMembers()
    ensures |SecilFields().fields| == 22 && forall k :: 0 <= k < 22 ==> SecilFields().fields[k].htype == Oneof(0)
    ensures SecilFields().fields[20].ltype == Submessage(Compile(WarningMessage()))
  {
    SecilFieldsAre();
    WarningMember();
    hide SecilFields, WarningMessage, Compile, Payloads;
  }

  /** A warning can be encoded. */
  lemma WarningEncodable(kind: nat, text: bytes)
    requires IsWarning(kind, text)
    ensures StructOk(SecilFields(), WarningSlots(kind, text)) && Encodable(WarningSlots(kind, text))
  {
    hide *;
    var m, inner := WarningSlots(kind, text), Compile(WarningMessage());
    WarningParts(kind, text);
    WarningFields();
    WarningFieldKinds();
    WarningStruct(inner, kind, text);
    UnionMembers();
    OneMemberOk(SecilFields(), m, 20, inner);
    OuterFits(SecilFields(), m, 20, inner);
    SecilWf();
    Canonical.EncodesIffFits(SecilFields(), m);
    EncodableIs(m);
  }

  lemma EncodableIs(m: Slots)
    requires StructOk(SecilFields(), m) && EncodeStruct(SecilFields(), m).Some?
    ensures Encodable(m)
  {
  }

  /** secil_send refuses a warning as too large exactly if text and type take 255 bytes or more. */
  lemma WarningRefusedIff(line: Line, kind: nat, text: bytes)
    requires IsWarning(kind, text)
    ensures StructOk(SecilFields(), WarningSlots(kind, text))
    ensures SendOn(line, WarningSlots(kind, text)).0 == MESSAGE_TOO_LARGE <==> |text| + |V.VarintBytes(kind)| >= 255
  {
    hide *;
    var m := WarningSlots(kind, text);
    WarningEncodable(kind, text);
    WarningParts(kind, text);
    AlwaysRoom(m);
    RefusedIffLongWarning(m);
    SendCases(line, m);
  }

  /** A warning of a declared type whose 254 characters fit their buffer, and which cannot be sent on any line. */
  lemma LongWarningRefused(line: Line)
    ensures IsWarning(0, seq(254, _ => 0x41)) && StructOk(SecilFields(), WarningSlots(0, seq(254, _ => 0x41)))
    ensures SendOn(line, WarningSlots(0, seq(254, _ => 0x41))).0 == MESSAGE_TOO_LARGE
  {
    var text: bytes := seq(254, _ => 0x41);
    SmallNumber(0);
    hide SecilFields, SendOn, StructOk;
    WarningRefusedIff(line, 0, text);
  }

  // ---- required fields ----------------------------------------------------------------

  /** A message with 65 required bools. */
  function ManyBools(): (d: MsgDesc)
    ensures |d.fields| == 65
    ensures forall i :: 0 <= i < 65 ==> d.fields[i] == FieldDesc(i + 1, Required, Bool, 1, 1, i, 0, 2)
  {
    MsgDesc(seq(65, i requires i >= 0 => FieldDesc(i + 1, Required, Bool, 1, 1, i, 0, 2)))
  }

  lemma ManyBoolsWf()
    ensures WfDesc(ManyBools())
  {
    forall i | 0 <= i < 65 ensures WfField(ManyBools().fields[i]) {
    }
  }

  /** The encoding of fields number i to 63: the last field is missing. */
  function FirstBools(i: nat): bytes
    decreases 64 - i
  {
    if i >= 64 then [] else TagBytes(i + 1, WT_VARINT) + [1] + FirstBools(i + 1)
  }

  lemma {:induction false} AllRequiredBefore(i: nat)
    requires i <= 65
    ensures RequiredBefore(ManyBools(), i) == i
  {
    if i > 0 {
      AllRequiredBefore(i - 1);
    }
  }

  lemma OneBool(t: bytes)
    ensures V.ReadVarint32([1] + t) == Ok(1, t) && Skip(WT_VARINT, [1] + t) == Ok((), t)
  {
    var g: bytes := [1];
    V.ReadsAreLocal(g, t);
    V.GroupEndOf(g, t);
    assert (g + t)[1..] == t;
    assert V.GroupValue(g[1..]) == 0;
  }

  lemma TagThere(s: bytes, key: nat, rest: bytes, rest': bytes)
    requires s != [] && V.ReadVarint32(s) == Ok(key, rest) && Skip(key % 8, rest) == Ok((), rest')
    ensures RequiredFields.TagsIn(s) == [key / 8] + RequiredFields.TagsIn(rest')
  {
    hide V.ReadVarint32, Skip;
  }

  lemma FirstBytes(i: nat)
    requires i < 64
    ensures FirstBools(i) == TagBytes(i + 1, WT_VARINT) + [1] + FirstBools(i + 1)
    ensures FirstBools(i) == TagBytes(i + 1, WT_VARINT) + ([1] + FirstBools(i + 1))
    ensures FirstBools(i) != []
  {
    hide TagBytes;
  }

  lemma FirstTag(i: nat)
    requires i < 64
    ensures RequiredFields.TagsIn(FirstBools(i)) == [i + 1] + RequiredFields.TagsIn(FirstBools(i + 1))
  {
    hide *;
    FirstBytes(i);
    OneBool(FirstBools(i + 1));
    KeyOf(i, [1] + FirstBools(i + 1));
    TagThere(FirstBools(i), 8 * (i + 1), [1] + FirstBools(i + 1), FirstBools(i + 1));
  }

  lemma KeyOf(i: nat, s: bytes)
    requires i < 64
    ensures V.ReadVarint32(TagBytes(i + 1, WT_VARINT) + s) == Ok(8 * (i + 1), s)
    ensures 8 * (i + 1) % 8 == WT_VARINT && 8 * (i + 1) / 8 == i + 1
  {
    RoundTrip.ReadKey(i + 1, WT_VARINT, s);
  }

  lemma BoolDecoded(i: nat, t: bytes, slot: seq<Value>)
    requires i < 64
    ensures DecodeField(ManyBools().fields[i], WT_VARINT, [1] + t, slot) == Ok([VInt(1)], t)
  {
    OneBool(t);
    hide V.ReadVarint32, Skip, WfDesc;
  }

  lemma {:induction false} FirstTags(i: nat)
    requires i <= 64
    ensures forall tag :: tag in RequiredFields.TagsIn(FirstBools(i)) <==> i + 1 <= tag <= 64
    decreases 64 - i
  {
    if i < 64 {
      hide *;
      FirstTag(i);
      FirstTags(i + 1);
      InFront(i + 1, RequiredFields.TagsIn(FirstBools(i + 1)));
    }
  }

  lemma InFront(x: nat, s: seq<nat>)
    ensures forall y :: y in [x] + s <==> y == x || y in s
  {
  }

  lemma {:induction false} FirstBoolsParse(i: nat, p: Progress)
    requires i <= 64 && |p.m| == 65
    ensures DecodeAll(ManyBools(), FirstBools(i), p).Some?
    decreases 64 - i
  {
    if i < 64 {
      var d, t := ManyBools(), FirstBools(i + 1);
      hide *;
      ManyBoolsWf();
      FirstBytes(i);
      BoolDecoded(i, t, p.m[i]);
      RoundTrip.KnownFieldStep(d, i, WT_VARINT, [1], t, p, [VInt(1)]);
      FirstBoolsParse(i + 1, Advance(d, p, i, [VInt(1)]));
    } else {
      assert FirstBools(i) == [];
    }
  }

  /** A message with 65 required fields is accepted although the last of them is not in it. */
  lemma SixtyFifthMissing()
    ensures WfDesc(ManyBools()) && ManyBools().fields[64].htype.Required?
    ensures ManyBools().fields[64].tag !in RequiredFields.TagsIn(FirstBools(0))
    ensures DecodeStruct(ManyBools(), FirstBools(0), DefaultStruct(ManyBools())).Some?
  {
    var d, m := ManyBools(), DefaultStruct(ManyBools());
    ManyBoolsWf();
    FirstTags(0);
    FirstBoolsParse(0, Progress(m, {}));
    AllRequiredBefore(64);
    hide DecodeAll, DecodeStruct, FirstBools, RequiredFields.TagsIn, WfDesc, RequiredBefore;
    RequiredFields.LaterRequiredNotChecked(d, 64, FirstBools(0), m);
  }
}
