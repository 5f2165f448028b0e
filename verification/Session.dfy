/** What an end of the link does with messages: its mode, the version of the other end, and the handshake. */
module Session {
  import opened Bytes
  import opened Descriptor
  import opened Wire
  import opened Generator
  import opened SecilProto
  import opened SecilSizes
  import opened Frames
  import opened Delivery
  import Canonical
  import Crc

  const UNINITIALIZED: nat := 0
  const CLIENT: nat := 1
  const SERVER: nat := 2

  // ---- messages ------------------------------------------------------------------------

  datatype Handshake = Handshake(mode: nat, needsAck: bool, version: bytes)

  /** A message with the handshake as its payload. */
  function HandshakeSlots(h: Handshake): (m: Slots)
    ensures IsSet(m, 0) && m[0][0].VMsg?
  {
    seq(22, k => if k == 0 then [VMsg([[VInt(h.mode)], [VInt(if h.needsAck then 1 else 0)], [VBytes(h.version)]])] else [])
  }

  predicate IsHandshake(m: Slots) {
    |m| == 22 && m[0] != []
  }

  predicate IsLoopback(m: Slots) {
    |m| == 22 && m[21] != []
  }

  /** payload.handshake of a message that has one; the version is the text in its buffer. */
  function HandshakeIn(m: Slots): Handshake {
    if |m| == 22 && |m[0]| == 1 && m[0][0].VMsg? then
      var s := m[0][0].slots;
      if |s| == 3 && |s[0]| == 1 && |s[1]| == 1 && |s[2]| == 1 && s[0][0].VInt? && s[0][0].i >= 0 && s[1][0].VInt? && s[2][0].VBytes? then
        Handshake(s[0][0].i, s[1][0].i != 0, Text(s[2][0].b))
      else Handshake(0, false, [])
    else Handshake(0, false, [])
  }

  /** A version string: it fits its buffer with a zero behind it. */
  predicate IsVersion(v: bytes) {
    |v| <= 31 && 0 !in v
  }

  /** What strncpy into char[32] keeps of a string. */
  function CopyVersion(v: bytes): (t: bytes)
    ensures |t| <= 31
  {
    if |v| <= 31 then v else v[..31]
  }

  /** A message without payload. */
  function NoPayload(): (m: Slots)
    ensures |m| == |SecilFields().fields|
  {
    DefaultStruct(SecilFields())
  }

  // ---- one end -----------------------------------------------------------------------------

  datatype Connection = Connection(remoteMode: nat, remoteVersion: bytes)

  /** The state of an end, and the on_connect notifications it has given. */
  datatype End = End(mode: nat, remoteVersion: bytes, connections: seq<Connection>)

  function OtherMode(mode: nat): nat {
    if mode == CLIENT then SERVER else CLIENT
  }

  /** secil_notify_on_connect */
  function Notified(e: End): End {
    e.(connections := e.connections + [Connection(OtherMode(e.mode), e.remoteVersion)])
  }

  /** The byte streams of an end: what is still to be read, what was written, and how much more can be. */
  datatype Line = Line(input: bytes, output: bytes, room: nat)

  /** secil_send */
  ghost function SendOn(line: Line, m: Slots): (r: (Error, Line))
    requires StructOk(SecilFields(), m)
    ensures r.1.input == line.input && line.output <= r.1.output
    ensures r.0 != OK ==> r.1 == line
  {
    match EncodeDelimited(SecilFields(), m)
    case None => (ENCODE_FAILED, line)
    case Some(b) =>
      if |b| > MAX_MESSAGE_SIZE - 8 then (ENCODE_FAILED, line)
      else if |b| > SECIL_MESSAGE_SIZE then (MESSAGE_TOO_LARGE, line)
      else if |b| + 8 > line.room then (WRITE_FAILED, line)
      else (OK, Line(line.input, line.output + Frame(b), line.room - (|b| + 8)))
  }

  lemma SendCases(line: Line, m: Slots)
    requires StructOk(SecilFields(), m)
    ensures var b := EncodeDelimited(SecilFields(), m);
      SendOn(line, m)
        == if b.None? || |b.value| > MAX_MESSAGE_SIZE - 8 then (ENCODE_FAILED, line)
           else if |b.value| > SECIL_MESSAGE_SIZE then (MESSAGE_TOO_LARGE, line)
           else if |b.value| + 8 > line.room then (WRITE_FAILED, line)
           else (OK, Line(line.input, line.output + Frame(b.value), line.room - (|b.value| + 8)))
    ensures SECIL_MESSAGE_SIZE <= MAX_MESSAGE_SIZE - 8
  {
    hide SecilFields, StructOk, Frame;
  }

  // ---- handshakes as messages -----------------------------------------------------------------

  lemma HandshakeFields()
    ensures var fs := Compile(HandshakeMessage()).fields;
      && |fs| == 3
      && (forall k :: 0 <= k < 3 ==> fs[k].htype == Required)
      && fs[0].ltype == UVarint && fs[0].dataSize == 4
      && fs[1].ltype == Bool
      && fs[2].ltype == LType.String && fs[2].dataSize == 32
  {
    var msg := HandshakeMessage();
    assert CompileFrom(msg, 3) == [];
    assert CompileFrom(msg, 2) == CompileEntry(msg.entries[2], 2) + [];
    assert CompileFrom(msg, 1) == CompileEntry(msg.entries[1], 1) + CompileFrom(msg, 2);
    assert CompileFrom(msg, 0) == CompileEntry(msg.entries[0], 0) + CompileFrom(msg, 1);
    SortedStays(CompileFrom(msg, 0));
  }

  /** The union member of handshakes. */
  lemma HandshakeMember()
    ensures |SecilFields().fields| == 22 && forall k :: 0 <= k < 22 ==> SecilFields().fields[k].htype == Oneof(0)
    ensures SecilFields().fields[0].ltype == Submessage(Compile(HandshakeMessage()))
  {
    SecilFieldsAre();
    hide SecilFields, HandshakeMessage, Compile;
  }

  lemma HandshakeStructOk(d: MsgDesc, s: Slots)
    requires |d.fields| == 3 && forall k :: 0 <= k < 3 ==> d.fields[k].htype == Required
    requires d.fields[0].ltype == UVarint && d.fields[0].dataSize == 4
    requires d.fields[1].ltype == Bool
    requires d.fields[2].ltype == LType.String && d.fields[2].dataSize == 32
    requires |s| == 3 && |s[0]| == 1 && |s[1]| == 1 && |s[2]| == 1 && s[0][0].VInt? && s[1][0].VInt? && s[2][0].VBytes?
    requires 0 <= s[0][0].i < TWO_32 && 0 <= s[1][0].i < 2 && |s[2][0].b| <= 32
    ensures StructOk(d, s)
    ensures StructMeaning(d, s) == [s[0], s[1], [VBytes(Text(s[2][0].b))]]
  {
    assert ItemOk(UVarint, 4, s[0][0]) && ItemOk(Bool, d.fields[1].dataSize, s[1][0]) && ItemOk(LType.String, 32, s[2][0]);
    assert SlotOk(d.fields[0], s[0]) && SlotOk(d.fields[1], s[1]) && SlotOk(d.fields[2], s[2]);
    assert SlotMeaning(d.fields[0], s[0]) == s[0] && SlotMeaning(d.fields[1], s[1]) == s[1];
    assert SlotMeaning(d.fields[2], s[2]) == [VBytes(Text(s[2][0].b))];
  }

  lemma SingleMeaning(f: FieldDesc, v: Value)
    ensures SlotMeaning(f, [v]) == [Meaning(f.ltype, v)]
  {
  }

  lemma OneMemberOk(d: MsgDesc, m: Slots, k: nat, inner: MsgDesc)
    requires |d.fields| == |m| == 22 && forall j :: 0 <= j < 22 ==> d.fields[j].htype == Oneof(0)
    requires k < 22 && d.fields[k].ltype == Submessage(inner)
    requires IsSet(m, k) && m[k][0].VMsg? && StructOk(inner, m[k][0].slots)
    ensures StructOk(d, m)
    ensures StructMeaning(d, m) == m[k := [VMsg(StructMeaning(inner, m[k][0].slots))]]
  {
    assert ItemOk(d.fields[k].ltype, d.fields[k].dataSize, m[k][0]);
    assert SlotOk(d.fields[k], m[k]);
    assert forall j :: 0 <= j < 22 && j != k ==> SlotOk(d.fields[j], m[j]);
    assert m[k] == [m[k][0]];
    SingleMeaning(d.fields[k], m[k][0]);
    hide StructOk, Meaning, ItemOk, SlotOk;
    forall j | 0 <= j < 22 && j != k ensures SlotMeaning(d.fields[j], m[j]) == m[j] {
      assert m[j] == [];
    }
  }

  lemma {:induction false} TextOfVersion(v: bytes)
    requires 0 !in v
    ensures Text(v) == v
  {
    if v != [] {
      assert v == [v[0]] + v[1..];
      TextOfVersion(v[1..]);
    }
  }

  /** A handshake message is a struct of the message type, and it means what was put into it. */
  lemma HandshakeOk(h: Handshake)
    requires h.mode < TWO_32 && IsVersion(h.version)
    ensures StructOk(SecilFields(), HandshakeSlots(h))
    ensures IsHandshake(StructMeaning(SecilFields(), HandshakeSlots(h)))
    ensures HandshakeIn(StructMeaning(SecilFields(), HandshakeSlots(h))) == h
  {
    hide *;
    var m: Slots := HandshakeSlots(h);
    var inner := Compile(HandshakeMessage());
    VersionFits(h.version);
    TextOfVersion(h.version);
    HandshakeFields();
    HandshakeMember();
    HandshakeParts(h);
    HandshakeStructOk(inner, m[0][0].slots);
    OneMemberOk(SecilFields(), m, 0, inner);
    ReadBack(h, StructMeaning(SecilFields(), m));
  }

  lemma VersionFits(v: bytes)
    requires IsVersion(v)
    ensures |v| <= 31 && 0 !in v
  {
  }

  lemma HandshakeParts(h: Handshake)
    ensures HandshakeSlots(h)[0] == [VMsg([[VInt(h.mode)], [VInt(if h.needsAck then 1 else 0)], [VBytes(h.version)]])]
    ensures |HandshakeSlots(h)| == 22
  {
  }

  lemma ReadBack(h: Handshake, m: Slots)
    requires IsVersion(h.version)
    requires |m| == 22
    requires m[0] == [VMsg([[VInt(h.mode)], [VInt(if h.needsAck then 1 else 0)], [VBytes(h.version)]])]
    ensures IsHandshake(m) && HandshakeIn(m) == h
  {
    TextOfVersion(h.version);
  }

  // ---- what an end does with a handshake -----------------------------------------------------------

  /** The result of handling a handshake: the answers are to be sent in this order. */
  datatype Reaction = Reaction(error: Error, e: End, answers: seq<Handshake>)

  /** secil_handle_remote_restarted, if the answer can be sent. */
  function OnRestart(e: End, version: bytes, h: Handshake): Reaction {
    if e.mode == UNINITIALIZED || e.mode == h.mode then Reaction(INVALID_STATE, e, [])
    else
      var e' := e.(remoteVersion := CopyVersion(h.version));
      if h.needsAck then Reaction(OK, Notified(e'), [Handshake(e.mode, false, version)])
      else Reaction(OK, e', [])
  }

  /** secil_receive_handshake, when a handshake has come and if the answer can be sent. */
  function OnStartupHandshake(e: End, version: bytes, ourMode: nat, h: Handshake): Reaction {
    if h.mode != OtherMode(ourMode) then Reaction(STARTUP_FAILED, e, [])
    else Reaction(OK, e.(remoteVersion := CopyVersion(h.version)), if h.needsAck then [Handshake(ourMode, false, version)] else [])
  }

  /** The end of secil_startup_internal: the version check, and the mode is confirmed. */
  function Confirm(e: End, version: bytes, mode: nat, failOnMismatch: bool): (Error, End) {
    if failOnMismatch && e.remoteVersion != version then (VERSION_MISMATCH, e)
    else (OK, Notified(e.(mode := mode)))
  }

  // ---- the same on byte streams ------------------------------------------------------------------------

  ghost function SendHandshake(line: Line, h: Handshake): (r: (Error, Line))
    requires h.mode < TWO_32 && IsVersion(h.version)
    ensures r.1.input == line.input && line.output <= r.1.output
    ensures r.0 != OK ==> r.1 == line
  {
    HandshakeOk(h);
    hide SecilFields, StructOk;
    SendOn(line, HandshakeSlots(h))
  }

  /** secil_handle_remote_restarted */
  ghost function HandleRemoteRestarted(e: End, line: Line, version: bytes, m: Slots): (r: (Error, End, Line))
    requires e.mode < TWO_32 && IsVersion(version)
    ensures r.2.input == line.input && line.output <= r.2.output && r.1.mode == e.mode
  {
    var h := HandshakeIn(m);
    if e.mode == UNINITIALIZED || e.mode == h.mode then (INVALID_STATE, e, line)
    else
      var e' := e.(remoteVersion := CopyVersion(h.version));
      if !h.needsAck then (OK, e', line)
      else
        var (error, line') := SendHandshake(line, Handshake(e.mode, false, version));
        if error != OK then (error, e', line') else (OK, Notified(e'), line')
  }

  /** What is received is a struct of the message type. */
  lemma ReceivedIsStruct(s: bytes)
    ensures ReceiveOne(SecilFields(), s).error == OK ==> StructOk(SecilFields(), ReceiveOne(SecilFields(), s).m)
  {
    if ReceiveOne(SecilFields(), s).error == OK {
      ReceivedDecodes(s);
    }
  }

  lemma ReceivedDecodes(s: bytes)
    requires ReceiveOne(SecilFields(), s).error == OK
    ensures StructOk(SecilFields(), ReceiveOne(SecilFields(), s).m)
  {
    hide *;
    ReceivedFrom(s);
    var i := FirstHeader(s).value;
    DecodedIsStruct(s[i + 4..][..LengthIn(s[i..i + 4])]);
  }

  lemma ReceivedFrom(s: bytes)
    requires ReceiveOne(SecilFields(), s).error == OK
    ensures FirstHeader(s).Some? && FirstHeader(s).value + 4 <= |s|
    ensures var i := FirstHeader(s).value; LengthIn(s[i..i + 4]) <= |s[i + 4..]|
    ensures var i := FirstHeader(s).value;
      var r := DecodeDelimited(SecilFields(), s[i + 4..][..LengthIn(s[i..i + 4])], NoPayload());
      r.Ok? && r.value == ReceiveOne(SecilFields(), s).m
  {
    hide SecilFields, DefaultStruct, DecodeDelimited, FirstHeader, Crc.Crc16;
    var i := FirstHeader(s).value;
    var n := LengthIn(s[i..i + 4]);
    assert s[i + 4..][..n + 4][..n] == s[i + 4..][..n];
  }

  lemma DecodedIsStruct(body: bytes)
    requires DecodeDelimited(SecilFields(), body, NoPayload()).Ok?
    ensures StructOk(SecilFields(), DecodeDelimited(SecilFields(), body, NoPayload()).value)
  {
    SecilWf();
    var d := SecilFields();
    hide SecilFields, WfDesc, DecodeStruct, StructOk, DefaultStruct;
    Canonical.DefaultStructStored(d);
    Canonical.DecodedStructFits(d, TakeDelimited(body).value, DefaultStruct(d));
  }

  /**
   * secil_receive: echoes loopback messages and handles handshakes until there is another message or an error.
   * The incoming bytes are not those that are written here.
   */
  ghost function Receive(e: End, line: Line, version: bytes): (r: (Error, Slots, End, Line))
    requires e.mode < TWO_32 && IsVersion(version)
    ensures line.output <= r.3.output && |r.3.input| <= |line.input| && r.2.mode == e.mode
    decreases |line.input|
  {
    var one := ReceiveOne(SecilFields(), line.input);
    var line1 := line.(input := one.rest);
    if one.error != OK then
      (one.error, NoPayload(), e, line1)
    else if IsLoopback(one.m) then
      ReceivedDecodes(line.input);
      var (error, line2) := SendOn(line1, one.m);
      if error != OK then (error, NoPayload(), e, line2) else Receive(e, line2, version)
    else if IsHandshake(one.m) then
      var (error, e2, line2) := HandleRemoteRestarted(e, line1, version, one.m);
      if error != OK then (error, NoPayload(), e2, line2) else Receive(e2, line2, version)
    else (OK, one.m, e, line1)
  }

  /** One round of secil_receive. */
  lemma ReceiveStep(e: End, line: Line, version: bytes)
    requires e.mode < TWO_32 && IsVersion(version)
    ensures var one := ReceiveOne(SecilFields(), line.input);
      var line1, r := line.(input := one.rest), Receive(e, line, version);
      if one.error != OK then r.0 == one.error && r.2 == e && r.3 == line1
      else if IsLoopback(one.m) then
        && StructOk(SecilFields(), one.m)
        && (var (error, line2) := SendOn(line1, one.m);
            if error != OK then r.0 == error && r.2 == e && r.3 == line2 else r == Receive(e, line2, version))
      else if IsHandshake(one.m) then
        var (error, e2, line2) := HandleRemoteRestarted(e, line1, version, one.m);
        if error != OK then r.0 == error && r.2 == e2 && r.3 == line2 else r == Receive(e2, line2, version)
      else r == (OK, one.m, e, line1)
    ensures ReceiveOne(SecilFields(), line.input).error == OK ==> |ReceiveOne(SecilFields(), line.input).rest| < |line.input|
  {
    if ReceiveOne(SecilFields(), line.input).error == OK {
      ReceivedDecodes(line.input);
    }
    hide ReceiveOne, SendOn, HandleRemoteRestarted, IsLoopback, IsHandshake, SecilFields, StructOk, NoPayload;
  }

  /** secil_receive_handshake */
  ghost function ReceiveHandshake(e: End, line: Line, version: bytes, ourMode: nat): (r: (Error, End, Line))
    requires ourMode < TWO_32 && IsVersion(version)
    ensures r.1.mode == e.mode
  {
    var one := ReceiveOne(SecilFields(), line.input);
    var line1 := line.(input := one.rest);
    if one.error != OK then (one.error, e, line1)
    else if !IsHandshake(one.m) then (UNKNOWN_MESSAGE_TYPE, e, line1)
    else
      var h := HandshakeIn(one.m);
      if h.mode != OtherMode(ourMode) then (STARTUP_FAILED, e, line1)
      else
        var e' := e.(remoteVersion := CopyVersion(h.version));
        if !h.needsAck then (OK, e', line1)
        else
          var (error, line2) := SendHandshake(line1, Handshake(ourMode, false, version));
          (error, e', line2)
  }

  /** secil_startup_internal */
  ghost function Startup(e: End, line: Line, version: bytes, mode: nat, failOnMismatch: bool): (r: (Error, End, Line))
    requires mode < TWO_32 && IsVersion(version)
  {
    if mode == UNINITIALIZED then (INVALID_PARAMETER, e, line)
    else
      var (sent, line1) := SendHandshake(line, Handshake(mode, true, version));
      if sent != OK then (sent, e, line1)
      else
        var (received, e2, line2) := ReceiveHandshake(e, line1, version, mode);
        if received != OK then (received, e2, line2)
        else
          var (error, e3) := Confirm(e2, version, mode, failOnMismatch);
          (error, e3, line2)
  }

  // ---- handshakes on the wire ---------------------------------------------------------------------------

  predicate HandshakeFits(h: Handshake) {
    h.mode < TWO_32 && IsVersion(h.version)
  }

  lemma InnerFits(d: MsgDesc, s: Slots)
    requires |d.fields| == 3 && forall k :: 0 <= k < 3 ==> d.fields[k].htype == Required
    requires d.fields[0].ltype == UVarint && d.fields[1].ltype == Bool && d.fields[2].ltype == LType.String && d.fields[2].dataSize == 32
    requires |s| == 3 && |s[0]| == 1 && |s[1]| == 1 && |s[2]| == 1 && s[2][0].VBytes? && |Text(s[2][0].b)| <= 31
    ensures Canonical.StructFits(d, s)
  {
    assert Canonical.ItemsFit(d.fields[0], s[0]) && Canonical.ItemsFit(d.fields[1], s[1]) && Canonical.ItemsFit(d.fields[2], s[2]);
  }

  lemma OuterFits(d: MsgDesc, m: Slots, k: nat, inner: MsgDesc)
    requires |d.fields| == |m| == 22 && forall j :: 0 <= j < 22 ==> d.fields[j].htype == Oneof(0)
    requires k < 22 && d.fields[k].ltype == Submessage(inner)
    requires IsSet(m, k) && m[k][0].VMsg? && Canonical.StructFits(inner, m[k][0].slots)
    ensures Canonical.StructFits(d, m)
  {
    assert Canonical.ItemsFit(d.fields[k], m[k]);
    assert forall j :: 0 <= j < 22 && j != k ==> Canonical.ItemsFit(d.fields[j], m[j]);
  }

  /** Every handshake can be sent. */
  lemma HandshakeAccepted(h: Handshake)
    requires HandshakeFits(h)
    ensures Accepted(SecilFields(), HandshakeSlots(h))
  {
    FitsMeans(h);
    hide *;
    var m: Slots := HandshakeSlots(h);
    var inner := Compile(HandshakeMessage());
    HandshakeOk(h);
    HandshakeParts(h);
    HandshakeFields();
    HandshakeMember();
    VersionFits(h.version);
    TextOfVersion(h.version);
    InnerFits(inner, m[0][0].slots);
    OuterFits(SecilFields(), m, 0, inner);
    SecilWf();
    Canonical.EncodesIffFits(SecilFields(), m);
    OtherPayloadsFit(m, 0);
    DelimitedLength(SecilFields(), m);
  }

  /** A handshake as a frame. */
  ghost function FrameOf(h: Handshake): bytes
    requires HandshakeFits(h)
  {
    HandshakeAccepted(h);
    Frame(BodyOf(SecilFields(), HandshakeSlots(h)))
  }

  /** A handshake that was sent arrives as it was sent. */
  lemma HandshakeArrives(noise: bytes, h: Handshake, t: bytes)
    requires Quiet(noise) && HandshakeFits(h)
    ensures var r := ReceiveOne(SecilFields(), noise + (FrameOf(h) + t));
      r.error == OK && r.rest == t && IsHandshake(r.m) && HandshakeIn(r.m) == h
  {
    hide *;
    SecilWf();
    FitsMeans(h);
    HandshakeOk(h);
    FrameLength(h);
    SeenIs(HandshakeSlots(h));
    FrameReceived(SecilFields(), noise, HandshakeSlots(h), t);
  }

  lemma SeenIs(m: Slots)
    requires Accepted(SecilFields(), m)
    ensures StructOk(SecilFields(), m) && Seen(SecilFields(), m) == StructMeaning(SecilFields(), m)
  {
    hide SecilFields, StructOk, StructMeaning, EncodeDelimited;
  }

  lemma HandshakeSent(line: Line, h: Handshake)
    requires HandshakeFits(h) && |FrameOf(h)| <= line.room
    ensures SendHandshake(line, h) == (OK, Line(line.input, line.output + FrameOf(h), line.room - |FrameOf(h)|))
  {
    hide *;
    FitsMeans(h);
    FrameLength(h);
    AcceptedMeans(HandshakeSlots(h));
    SendIs(line, h);
    SendCases(line, HandshakeSlots(h));
  }

  lemma FitsMeans(h: Handshake)
    requires HandshakeFits(h)
    ensures h.mode < TWO_32 && IsVersion(h.version)
  {
  }

  lemma SendIs(line: Line, h: Handshake)
    requires h.mode < TWO_32 && IsVersion(h.version)
    ensures StructOk(SecilFields(), HandshakeSlots(h)) && SendHandshake(line, h) == SendOn(line, HandshakeSlots(h))
  {
    HandshakeOk(h);
    hide SecilFields, StructOk, SendOn, HandshakeSlots;
  }

  /** secil_send succeeds for exactly the accepted messages that the line has room for, and then writes their frame. */
  lemma SendsTheAccepted(line: Line, m: Slots)
    requires StructOk(SecilFields(), m)
    ensures SendOn(line, m).0 == OK <==> Accepted(SecilFields(), m) && |BodyOf(SecilFields(), m)| + 8 <= line.room
    ensures SendOn(line, m).0 == OK ==> SendOn(line, m).1.output == line.output + Frame(BodyOf(SecilFields(), m))
  {
    SendCases(line, m);
    hide SecilFields, StructOk, EncodeDelimited, SendOn, Frame;
  }

  lemma AcceptedMeans(m: Slots)
    requires Accepted(SecilFields(), m)
    ensures StructOk(SecilFields(), m) && EncodeDelimited(SecilFields(), m) == Some(BodyOf(SecilFields(), m))
  {
    hide SecilFields, StructOk, EncodeDelimited;
  }

  lemma FrameLength(h: Handshake)
    requires HandshakeFits(h)
    ensures Accepted(SecilFields(), HandshakeSlots(h)) && FrameOf(h) == Frame(BodyOf(SecilFields(), HandshakeSlots(h)))
    ensures |FrameOf(h)| == |BodyOf(SecilFields(), HandshakeSlots(h))| + 8
  {
    hide Accepted, Frame, HandshakeSlots, BodyOf;
    HandshakeAccepted(h);
  }

  // ---- the handshake on the line is the handshake of messages ------------------------------------------------

  /** The answers, as frames. */
  ghost function FramesOf(hs: seq<Handshake>): bytes
    requires forall k :: 0 <= k < |hs| ==> HandshakeFits(hs[k])
  {
    if hs == [] then [] else FrameOf(hs[0]) + FramesOf(hs[1..])
  }

  lemma OneFrame(h: Handshake)
    requires HandshakeFits(h)
    ensures FramesOf([h]) == FrameOf(h)
  {
    hide FrameOf;
    assert [h][1..] == [] && FrameOf(h) + [] == FrameOf(h);
  }

  /** A restart of the other end is handled as OnRestart says, if there is room for the answer. */
  lemma RestartOnTheLine(e: End, line: Line, version: bytes, m: Slots, h: Handshake)
    requires e.mode < TWO_32 && IsVersion(version) && HandshakeIn(m) == h
    requires h.needsAck && e.mode != h.mode ==> |FrameOf(Handshake(e.mode, false, version))| <= line.room
    ensures forall k :: 0 <= k < |OnRestart(e, version, h).answers| ==> HandshakeFits(OnRestart(e, version, h).answers[k])
    ensures var r := OnRestart(e, version, h); var written := FramesOf(r.answers);
      |written| <= line.room
      && HandleRemoteRestarted(e, line, version, m) == (r.error, r.e, Line(line.input, line.output + written, line.room - |written|))
  {
    hide SendHandshake, FrameOf, HandshakeIn;
    if h.needsAck && e.mode != UNINITIALIZED && e.mode != h.mode {
      HandshakeSent(line, Handshake(e.mode, false, version));
      OneFrame(Handshake(e.mode, false, version));
    }
    assert line.output + [] == line.output;
  }

  /** Startup, when the other end's handshake is the next message to come: as OnStartupHandshake and Confirm say. */
  lemma StartupOnTheLine(e: End, line: Line, version: bytes, mode: nat, failOnMismatch: bool, noise: bytes, h: Handshake, t: bytes)
    requires (mode == CLIENT || mode == SERVER) && IsVersion(version) && HandshakeFits(h) && Quiet(noise)
    requires HandshakeFits(Handshake(mode, true, version)) && HandshakeFits(Handshake(mode, false, version))
    requires line.input == noise + (FrameOf(h) + t)
    requires |FrameOf(Handshake(mode, true, version))| + |FrameOf(Handshake(mode, false, version))| <= line.room
    ensures var r := OnStartupHandshake(e, version, mode, h); forall k :: 0 <= k < |r.answers| ==> HandshakeFits(r.answers[k])
    ensures var r := OnStartupHandshake(e, version, mode, h); var l := Startup(e, line, version, mode, failOnMismatch);
      && l.2.input == t
      && l.2.output == line.output + FrameOf(Handshake(mode, true, version)) + FramesOf(r.answers)
      && (if r.error != OK then l.0 == r.error && l.1 == r.e else (l.0, l.1) == Confirm(r.e, version, mode, failOnMismatch))
  {
    var first, answer := Handshake(mode, true, version), Handshake(mode, false, version);
    hide SendHandshake, FrameOf, HandshakeIn, IsHandshake, ReceiveOne, HandshakeFits, SecilFields;
    HandshakeSent(line, first);
    var line1 := Line(line.input, line.output + FrameOf(first), line.room - |FrameOf(first)|);
    HandshakeArrives(noise, h, t);
    HandshakeSent(line1.(input := t), answer);
    OneFrame(answer);
    assert line1.output + [] == line1.output;
  }
}
