/** source/secil.c: the library state and its operations, proved against the functions of Session and Frames. */
module Secil {
  import opened Bytes
  import opened Descriptor
  import opened Wire
  import opened SecilProto
  import opened SecilSizes
  import opened Frames
  import opened Session
  import Canonical
  import Crc
  import Decoder
  import Delivery
  import Encoder
  import InputStream
  import OutputStream

  /** The byte source and sink behind the read and write callbacks: each transfers all bytes or none. */
  class Port {
    var input: bytes
    var output: bytes
    var room: nat

    ghost function Line(): Line
      reads this
    {
      Session.Line(input, output, room)
    }

    constructor (incoming: bytes, capacity: nat)
      ensures input == incoming && output == [] && room == capacity
    {
      input, output, room := incoming, [], capacity;
    }

    /** read_callback */
    method Read(buf: array<byte>, at: nat, count: nat) returns (ok: bool)
      requires at + count <= buf.Length
      modifies this`input, buf
      ensures ok <==> count <= |old(input)|
      ensures ok ==> input == old(input)[count..] && buf[at..at + count] == old(input)[..count]
      ensures !ok ==> input == old(input) && buf[..] == old(buf[..])
      ensures buf[..at] == old(buf[..at])
    {
      if |input| < count {
        return false;
      }
      var i := 0;
      while i < count
        invariant 0 <= i <= count && input == old(input)
        invariant buf[..at] == old(buf[..at])
        invariant buf[at..at + i] == input[..i]
      {
        buf[at + i] := input[i];
        i := i + 1;
      }
      input := input[count..];
      return true;
    }

    /** write_callback */
    method Write(buf: array<byte>, count: nat) returns (ok: bool)
      requires count <= buf.Length
      modifies this`output, this`room
      ensures ok <==> count <= old(room)
      ensures ok ==> output == old(output) + buf[..count] && room == old(room) - count
      ensures !ok ==> output == old(output) && room == old(room)
    {
      if room < count {
        return false;
      }
      output := output + buf[..count];
      room := room - count;
      return true;
    }
  }

  /** The global state of the library, after secil_init. */
  class Library {
    const port: Port
    const version: bytes
    var mode: nat
    var remoteVersion: bytes
    var connections: seq<Connection>
    const outgoingMessage: array<byte>
    const incomingMessage: array<byte>

    ghost predicate Valid()
      reads this
    {
      && outgoingMessage.Length == MAX_MESSAGE_SIZE
      && incomingMessage.Length == MAX_MESSAGE_SIZE
      && outgoingMessage != incomingMessage
      && IsVersion(version)
      && mode < TWO_32
    }

    ghost function State(): End
      reads this
    {
      End(mode, remoteVersion, connections)
    }

    /** secil_init */
    constructor (p: Port, v: bytes)
      requires IsVersion(v)
      ensures Valid() && port == p && version == v && State() == End(UNINITIALIZED, [], [])
      ensures fresh(outgoingMessage) && fresh(incomingMessage)
    {
      port, version := p, v;
      mode, remoteVersion, connections := UNINITIALIZED, [], [];
      outgoingMessage := new byte[MAX_MESSAGE_SIZE](_ => 0);
      incomingMessage := new byte[MAX_MESSAGE_SIZE](_ => 0);
    }

    /** secil_read_next_header: four bytes at once, then a window that moves on byte by byte. */
    method ReadNextHeader() returns (error: Error)
      requires Valid()
      modifies port`input, incomingMessage
      ensures error == if FirstHeader(old(port.input)).Some? then OK else READ_TIMEOUT
      ensures error == OK ==>
        var i := FirstHeader(old(port.input)).value;
        incomingMessage[..4] == old(port.input)[i..i + 4] && port.input == old(port.input)[i + 4..]
      ensures error != OK ==> port.input == if |old(port.input)| < 4 then old(port.input) else []
    {
      ghost var s := port.input;
      ScanStarts(s);
      hide FirstHeader, FoundFrom, IsVersion;
      var ok := port.Read(incomingMessage, 0, 4);
      if !ok {
        return READ_TIMEOUT;
      }
      Window(incomingMessage[..], s, 0);
      ghost var i := 0;
      while true
        invariant i + 4 <= |s| && port.input == s[i + 4..]
        invariant forall k :: 0 <= k < 4 ==> incomingMessage[k] == s[i + k]
        invariant FirstHeader(s) == FoundFrom(s, i)
        decreases |port.input|
      {
        ScanStep(s, i);
        if incomingMessage[0] == 0xCA && incomingMessage[1] == 0xFE {
          assert incomingMessage[..4] == s[i..i + 4];
          return OK;
        }
        incomingMessage[0] := incomingMessage[1];
        incomingMessage[1] := incomingMessage[2];
        incomingMessage[2] := incomingMessage[3];
        ghost var kept := incomingMessage[..3];
        assert kept == [s[i + 1], s[i + 2], s[i + 3]];
        ok := port.Read(incomingMessage, 3, 1);
        if !ok {
          return READ_TIMEOUT;
        }
        assert incomingMessage[0] == kept[0] && incomingMessage[1] == kept[1] && incomingMessage[2] == kept[2];
        assert incomingMessage[3] == incomingMessage[3..4][0] == s[i + 4];
        i := i + 1;
      }
    }

    /** secil_receive_internal */
    method ReceiveInternal() returns (error: Error, m: Slots)
      requires Valid()
      modifies port`input, incomingMessage
      ensures var r := ReceiveOne(SecilFields(), old(port.input));
        error == r.error && port.input == r.rest && (error == OK ==> m == r.m)
    {
      hide FirstHeader, ReceiveOne, ReceiveBody, LengthIn, NoPayload, SecilFields, Check, IsVersion;
      ghost var s := port.input;
      m := NoPayload();
      error := ReadNextHeader();
      if error != OK {
        NoHeader(s);
        return;
      }
      ghost var i := FirstHeader(s).value;
      ghost var head, rest := incomingMessage[..4], port.input;
      Delivery.FoundHeader(SecilFields(), s, i);
      var messageLength: nat := incomingMessage[2] as int + 0x100 * incomingMessage[3] as int;
      HeadLength(head, incomingMessage[2], incomingMessage[3]);
      BodyRefused(head, rest, messageLength);
      assert incomingMessage.Length == MAX_MESSAGE_SIZE && incomingMessage[..4] == head;
      if messageLength > SECIL_MESSAGE_SIZE {
        return MESSAGE_TOO_LARGE, m;
      }
      var ok := port.Read(incomingMessage, 4, messageLength + 4);
      if !ok {
        return READ_TIMEOUT, m;
      }
      error, m := CheckMessage(messageLength, head, rest);
    }

    /** The second half of secil_receive_internal: footer, checksum, and the message itself. */
    method CheckMessage(messageLength: nat, ghost head: bytes, ghost rest: bytes) returns (error: Error, m: Slots)
      requires Valid() && |head| == 4 && LengthIn(head) == messageLength <= SECIL_MESSAGE_SIZE && messageLength + 4 <= |rest|
      requires incomingMessage[..4] == head && incomingMessage[4..4 + (messageLength + 4)] == rest[..messageLength + 4]
      ensures var r := ReceiveBody(SecilFields(), head, rest);
        error == r.error && r.rest == rest[messageLength + 4..] && (error == OK ==> m == r.m)
    {
      m := NoPayload();
      ghost var body, foot := incomingMessage[4..messageLength + 4], incomingMessage[messageLength + 4..messageLength + 8];
      Parts(incomingMessage[..], head, rest, messageLength);
      hide *;
      Delivery.BodyIsChecked(SecilFields(), head, body + foot, rest[messageLength + 4..]);
      Delivery.CheckParts(SecilFields(), head, body, foot);
      if incomingMessage[messageLength + 6] != 0xFA || incomingMessage[messageLength + 7] != 0xDE {
        return DECODE_FAILED, m;
      }
      var receivedCrc: nat := incomingMessage[messageLength + 4] as int + 0x100 * incomingMessage[messageLength + 5] as int;
      var computedCrc := Crc.Crc16ArcBit(0, incomingMessage, messageLength + 4);
      if receivedCrc != computedCrc {
        return DECODE_FAILED, m;
      }
      var decoded;
      decoded, m := DecodeMessage(messageLength);
      error := if decoded then OK else DECODE_FAILED;
    }

    /** The message in the input buffer, decoded into a message without payload. */
    method DecodeMessage(messageLength: nat) returns (ok: bool, m: Slots)
      requires Valid() && messageLength <= SECIL_MESSAGE_SIZE
      ensures match DecodeDelimited(SecilFields(), incomingMessage[4..messageLength + 4], NoPayload())
        case Fail => !ok
        case Ok(m', _) => ok && m == m'
    {
      EmptyMessageStored();
      var stream := new InputStream.IStream.FromBuffer(incomingMessage[..], 4, messageLength);
      hide *;
      ok, m := Decoder.DecodeEx(stream, SecilFields(), NoPayload(), true, true);
    }

    /** secil_write_header */
    method WriteHeader(messageLength: nat)
      requires Valid() && messageLength <= SECIL_MESSAGE_SIZE
      modifies outgoingMessage
      ensures outgoingMessage[..4] == Header(messageLength) && outgoingMessage[4..] == old(outgoingMessage[4..])
    {
      outgoingMessage[0] := 0xCA;
      outgoingMessage[1] := 0xFE;
      outgoingMessage[2] := messageLength % 0x100;
      outgoingMessage[3] := messageLength / 0x100 % 0x100;
    }

    /** secil_write_footer */
    method WriteFooter(messageLength: nat)
      requires Valid() && messageLength <= SECIL_MESSAGE_SIZE
      modifies outgoingMessage
      ensures outgoingMessage[..4 + messageLength] == old(outgoingMessage[..4 + messageLength])
      ensures outgoingMessage[4 + messageLength..8 + messageLength] == Footer(old(outgoingMessage[..4 + messageLength]))
    {
      ghost var checked := outgoingMessage[..4 + messageLength];
      var crc := Crc.Crc16ArcBit(0, outgoingMessage, 4 + messageLength);
      hide Crc.Crc16;
      var at := 4 + messageLength;
      outgoingMessage[at] := crc % 0x100;
      outgoingMessage[at + 1] := crc / 0x100;
      outgoingMessage[at + 2] := 0xFA;
      outgoingMessage[at + 3] := 0xDE;
    }

    /** secil_send */
    method Send(m: Slots) returns (error: Error)
      requires Valid() && StructOk(SecilFields(), m)
      modifies port`output, port`room, outgoingMessage
      ensures (error, port.Line()) == SendOn(old(port.Line()), m)
    {
      hide Crc.Crc16, SecilFields, StructOk, IsVersion, Header, Footer, Frame;
      ghost var line, body := port.Line(), Wire.EncodeDelimited(SecilFields(), m);
      var encoded, messageLength := EncodeMessage(m);
      SendCases(line, m);
      if !encoded {
        return ENCODE_FAILED;
      }
      if messageLength > SECIL_MESSAGE_SIZE {
        return MESSAGE_TOO_LARGE;
      }
      WriteHeader(messageLength);
      assert outgoingMessage[4..4 + messageLength] == body.value;
      WriteFooter(messageLength);
      FrameIs(outgoingMessage[..], body.value);
      var ok := port.Write(outgoingMessage, 4 + messageLength + 4);
      if !ok {
        return WRITE_FAILED;
      }
      return OK;
    }

    /** The message, encoded with its length in front behind the place for the header. */
    method EncodeMessage(m: Slots) returns (ok: bool, messageLength: nat)
      requires Valid() && StructOk(SecilFields(), m)
      modifies outgoingMessage
      ensures var b := Wire.EncodeDelimited(SecilFields(), m);
        && (ok <==> b.Some? && |b.value| <= MAX_MESSAGE_SIZE - 8)
        && (ok ==> messageLength == |b.value| && outgoingMessage[4..4 + messageLength] == b.value)
    {
      SecilWf();
      hide SecilFields, StructOk, WfDesc, IsVersion;
      var stream := new OutputStream.OStream.FromBuffer(outgoingMessage, 4, MAX_MESSAGE_SIZE - 8);
      ghost var before := stream.Snap();
      ok := Encoder.EncodeDelimited(stream, SecilFields(), m);
      messageLength := stream.bytesWritten;
      Encoded(before, ok, Wire.EncodeDelimited(SecilFields(), m), stream.Snap());
    }

    /** secil_send_startup_message */
    method SendStartupMessage(ourMode: nat, needsAck: bool) returns (error: Error)
      requires Valid() && ourMode < TWO_32
      modifies port`output, port`room, outgoingMessage
      ensures (error, port.Line()) == SendHandshake(old(port.Line()), Handshake(ourMode, needsAck, version))
    {
      var h := Handshake(ourMode, needsAck, version);
      HandshakeOk(h);
      hide HandshakeSlots, SecilFields, StructOk, IsVersion, SendOn;
      error := Send(HandshakeSlots(h));
    }

    /** secil_notify_on_connect */
    method NotifyOnConnect()
      requires Valid()
      modifies this`connections
      ensures State() == Notified(old(State()))
    {
      connections := connections + [Connection(if mode == CLIENT then SERVER else CLIENT, remoteVersion)];
    }

    /** secil_handle_remote_restarted */
    method HandleRemoteRestarted(m: Slots) returns (error: Error)
      requires Valid()
      modifies this`remoteVersion, this`connections, port`output, port`room, outgoingMessage
      ensures (error, State(), port.Line()) == Session.HandleRemoteRestarted(old(State()), old(port.Line()), version, m)
    {
      hide HandshakeIn, SendHandshake, CopyVersion, SecilFields, IsVersion;
      var handshake := HandshakeIn(m);
      if mode == UNINITIALIZED {
        return INVALID_STATE;
      }
      if mode == handshake.mode {
        return INVALID_STATE;
      }
      remoteVersion := CopyVersion(handshake.version);
      if handshake.needsAck {
        error := SendStartupMessage(mode, false);
        if error != OK {
          return;
        }
        NotifyOnConnect();
      }
      return OK;
    }

    /** secil_receive */
    method Receive() returns (error: Error, m: Slots)
      requires Valid()
      modifies this`remoteVersion, this`connections, port, incomingMessage, outgoingMessage
      ensures var r := Session.Receive(old(State()), old(port.Line()), version);
        error == r.0 && (error == OK ==> m == r.1) && State() == r.2 && port.Line() == r.3
    {
      hide Session.Receive, ReceiveOne, SendOn, Session.HandleRemoteRestarted, IsLoopback, IsHandshake, SecilFields, StructOk, IsVersion;
      ghost var result := Session.Receive(State(), port.Line(), version);
      while true
        invariant Valid() && result == Session.Receive(State(), port.Line(), version)
        decreases |port.input|
      {
        ReceiveStep(State(), port.Line(), version);
        error, m := ReceiveInternal();
        if error != OK {
          return;
        }
        if IsLoopback(m) {
          error := Send(m);
          if error != OK {
            return;
          }
        } else if IsHandshake(m) {
          error := HandleRemoteRestarted(m);
          if error != OK {
            return;
          }
        } else {
          return;
        }
      }
    }

    /** secil_receive_handshake */
    method ReceiveHandshake(ourMode: nat) returns (error: Error)
      requires Valid() && ourMode < TWO_32
      modifies this`remoteVersion, port, incomingMessage, outgoingMessage
      ensures (error, State(), port.Line()) == Session.ReceiveHandshake(old(State()), old(port.Line()), version, ourMode)
    {
      hide HandshakeIn, SendHandshake, CopyVersion, ReceiveOne, SecilFields, IsVersion, IsHandshake;
      var expectedMode := if ourMode == CLIENT then SERVER else CLIENT;
      var m;
      error, m := ReceiveInternal();
      if error != OK {
        return;
      }
      if !IsHandshake(m) {
        return UNKNOWN_MESSAGE_TYPE;
      }
      var handshake := HandshakeIn(m);
      if handshake.mode != expectedMode {
        return STARTUP_FAILED;
      }
      remoteVersion := CopyVersion(handshake.version);
      if handshake.needsAck {
        error := SendStartupMessage(ourMode, false);
        if error != OK {
          return;
        }
      }
      return OK;
    }

    /** secil_startup_internal */
    method StartupInternal(ourMode: nat, failOnVersionMismatch: bool) returns (error: Error)
      requires Valid() && ourMode < TWO_32
      modifies this`mode, this`remoteVersion, this`connections, port, incomingMessage, outgoingMessage
      ensures Valid()
      ensures (error, State(), port.Line()) == Startup(old(State()), old(port.Line()), version, ourMode, failOnVersionMismatch)
    {
      hide SendHandshake, Session.ReceiveHandshake, SecilFields, IsVersion;
      if ourMode == UNINITIALIZED {
        return INVALID_PARAMETER;
      }
      error := SendStartupMessage(ourMode, true);
      if error != OK {
        return;
      }
      error := ReceiveHandshake(ourMode);
      if error != OK {
        return;
      }
      if failOnVersionMismatch && remoteVersion != version {
        return VERSION_MISMATCH;
      }
      mode := ourMode;
      NotifyOnConnect();
      return OK;
    }
  }

  /** What the scan finds from position i on. */
  function FoundFrom(s: bytes, i: nat): Option<nat>
    requires i <= |s|
  {
    match FirstHeader(s[i..])
    case None => None
    case Some(j) => Some(i + j)
  }

  lemma ScanStarts(s: bytes)
    ensures FirstHeader(s) == FoundFrom(s, 0)
    ensures |s| < 4 ==> FirstHeader(s) == None
  {
    assert s[0..] == s;
  }

  /** One step of the scan: the window is at a header, or there is no header here. */
  lemma ScanStep(s: bytes, i: nat)
    requires i + 4 <= |s|
    ensures s[i] == 0xCA && s[i + 1] == 0xFE ==> FoundFrom(s, i) == Some(i)
    ensures !(s[i] == 0xCA && s[i + 1] == 0xFE) ==> FoundFrom(s, i) == FoundFrom(s, i + 1)
    ensures i + 4 == |s| ==> FoundFrom(s, i + 1) == None
  {
    assert s[i..][0] == s[i] && s[i..][1] == s[i + 1] && s[i..][1..] == s[i + 1..];
  }

  lemma Window(buf: bytes, s: bytes, i: nat)
    requires |buf| >= 4 && i + 4 <= |s| && buf[0..0 + 4] == s[i..][..4]
    ensures forall k :: 0 <= k < 4 ==> buf[k] == s[i + k]
  {
    assert forall k :: 0 <= k < 4 ==> buf[0..4][k] == buf[k] && s[i..][..4][k] == s[i + k];
  }

  lemma NoHeader(s: bytes)
    requires FirstHeader(s) == None
    ensures ReceiveOne(SecilFields(), s) == Received(READ_TIMEOUT, NoPayload(), if |s| < 4 then s else [])
  {
  }

  lemma HeadLength(head: bytes, low: byte, high: byte)
    requires |head| == 4 && head[2] == low && head[3] == high
    ensures LengthIn(head) == low as int + 0x100 * high as int
  {
  }

  lemma BodyRefused(head: bytes, s: bytes, n: nat)
    requires |head| == 4 && LengthIn(head) == n
    ensures n > SECIL_MESSAGE_SIZE ==> ReceiveBody(SecilFields(), head, s) == Received(MESSAGE_TOO_LARGE, NoPayload(), s)
    ensures n <= SECIL_MESSAGE_SIZE && |s| < n + 4 ==> ReceiveBody(SecilFields(), head, s) == Received(READ_TIMEOUT, NoPayload(), s)
  {
    hide Check, SecilFields, DefaultStruct;
  }

  /** The input buffer, as header, message and footer. */
  lemma Parts(buf: bytes, head: bytes, rest: bytes, n: nat)
    requires |buf| == MAX_MESSAGE_SIZE && |head| == 4 && n <= SECIL_MESSAGE_SIZE && n + 4 <= |rest|
    requires buf[..4] == head && buf[4..4 + (n + 4)] == rest[..n + 4]
    ensures var body, foot := buf[4..n + 4], buf[n + 4..n + 8];
      && |body| == n && body + foot == rest[..n + 4] && rest == body + foot + rest[n + 4..]
      && buf[..n + 4] == head + body
      && foot[0] == buf[n + 4] && foot[1] == buf[n + 5] && foot[2] == buf[n + 6] && foot[3] == buf[n + 7]
  {
    assert buf[4..n + 8] == buf[4..n + 4] + buf[n + 4..n + 8];
  }

  lemma EmptyMessageStored()
    ensures WfDesc(SecilFields()) && Canonical.StructStored(SecilFields(), NoPayload())
    ensures |NoPayload()| == |SecilFields().fields|
  {
    SecilWf();
    hide SecilFields;
    Canonical.DefaultStructStored(SecilFields());
  }

  /** What a stream that started at position 4 of a buffer has written. */
  lemma Encoded(s: OutputStream.Snapshot, ok: bool, b: Option<bytes>, t: OutputStream.Snapshot)
    requires OutputStream.Outcome(s, ok, b, t) && |s.data| == MAX_MESSAGE_SIZE
    requires s == OutputStream.Snapshot(false, s.data, 4, MAX_MESSAGE_SIZE - 8, 0)
    ensures ok <==> b.Some? && |b.value| <= MAX_MESSAGE_SIZE - 8
    ensures ok ==> t.bytesWritten == |b.value| && |t.data| == MAX_MESSAGE_SIZE && t.data[4..4 + |b.value|] == b.value
  {
    if ok {
      var n := 4 + |b.value|;
      assert t.data[..n] == s.data[..4] + b.value;
      assert t.data[4..n] == t.data[..n][4..];
    }
  }

  lemma FrameIs(buf: bytes, body: bytes)
    requires |buf| == MAX_MESSAGE_SIZE && |body| <= SECIL_MESSAGE_SIZE
    requires buf[..4] == Header(|body|) && buf[4..4 + |body|] == body
    requires buf[4 + |body|..8 + |body|] == Footer(buf[..4 + |body|])
    ensures buf[..4 + |body| + 4] == Frame(body)
  {
    hide Header, Footer;
    assert buf[..4 + |body|] == Header(|body|) + body;
    assert buf[..8 + |body|] == buf[..4 + |body|] + buf[4 + |body|..8 + |body|];
  }
}
