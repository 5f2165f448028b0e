/** The cases in which sending, starting up and receiving fail: which error is reported, and what has been done until then. */
module Refusals {
  import opened Bytes
  import opened Descriptor
  import opened Wire
  import opened SecilProto
  import opened SecilSizes
  import opened Frames
  import opened Delivery
  import opened Session
  import opened Traffic
  import Meanings
  import Canonical
  import V = Varint

  // ---- sending -------------------------------------------------------------------------------

  /**
   * The four outcomes of secil_send: a string that does not fit its buffer with the terminator, a warning that is too
   * long, no room on the line, or success.
   */
  lemma SendOutcome(line: Line, m: Slots)
    requires StructOk(SecilFields(), m)
    ensures SendOn(line, m).0 == ENCODE_FAILED <==> !Canonical.StructFits(SecilFields(), m)
    ensures SendOn(line, m).0 == MESSAGE_TOO_LARGE
       <==> Canonical.StructFits(SecilFields(), m) && IsSet(m, 20) && |WarningOf(m)| + |V.VarintBytes(WarningTypeOf(m))| >= 255
    ensures SendOn(line, m).0 == WRITE_FAILED <==> Accepted(SecilFields(), m) && |BodyOf(SecilFields(), m)| + 8 > line.room
    ensures SendOn(line, m).0 == OK <==> Accepted(SecilFields(), m) && |BodyOf(SecilFields(), m)| + 8 <= line.room
    ensures SendOn(line, m).0 != OK ==> SendOn(line, m).1 == line
  {
    SecilWf();
    Canonical.EncodesIffFits(SecilFields(), m);
    if EncodeStruct(SecilFields(), m).Some? {
      AlwaysRoom(m);
      RefusedIffLongWarning(m);
    }
    SendCases(line, m);
    hide SecilFields, StructOk, EncodeStruct, SendOn, Frame, Canonical.StructFits, IsSet, WarningOf, WarningTypeOf, WfDesc, V.VarintBytes;
  }

  // ---- starting up ---------------------------------------------------------------------------

  /** The arguments of secil_startup, in a mode of the protocol (1 is the client, 2 the server), with room for the request. */
  ghost predicate CanAsk(line: Line, version: bytes, mode: nat) {
    && (mode == 1 || mode == 2) && IsVersion(version)
    && HandshakeFits(Handshake(mode, true, version)) && |FrameOf(Handshake(mode, true, version))| <= line.room
  }

  /** The request was written, and rest is still to be read. */
  ghost function Asked(line: Line, version: bytes, mode: nat, rest: bytes): Line
    requires CanAsk(line, version, mode)
  {
    hide FrameOf, IsVersion;
    var request := FrameOf(Handshake(mode, true, version));
    Line(rest, line.output + request, line.room - |request|)
  }

  lemma AskedIs(line: Line, version: bytes, mode: nat, rest: bytes)
    requires CanAsk(line, version, mode)
    ensures mode < TWO_32 && mode != UNINITIALIZED && IsVersion(version)
    ensures SendHandshake(line, Handshake(mode, true, version)) == (OK, Asked(line, version, mode, line.input))
    ensures Asked(line, version, mode, line.input).input == line.input
    ensures Asked(line, version, mode, line.input).(input := rest) == Asked(line, version, mode, rest)
  {
    HandshakeSent(line, Handshake(mode, true, version));
    hide FrameOf, IsVersion, HandshakeFits, SendHandshake;
  }

  /** Startup, once the request is written, is what comes of the first message. */
  lemma StartupReceives(e: End, line: Line, version: bytes, mode: nat, failOnMismatch: bool)
    requires CanAsk(line, version, mode)
    ensures mode < TWO_32 && IsVersion(version)
    ensures var r := ReceiveHandshake(e, Asked(line, version, mode, line.input), version, mode);
      r.0 != OK ==> Startup(e, line, version, mode, failOnMismatch) == r
  {
    AskedIs(line, version, mode, []);
    hide SendHandshake, ReceiveHandshake, CanAsk, Asked, IsVersion;
  }

  /** Whatever goes wrong with the first message is reported; the state is unchanged, and the request was written. */
  lemma StartupPassesOn(e: End, line: Line, version: bytes, mode: nat, failOnMismatch: bool)
    requires CanAsk(line, version, mode)
    requires ReceiveOne(SecilFields(), line.input).error != OK
    ensures mode < TWO_32 && IsVersion(version)
    ensures var one := ReceiveOne(SecilFields(), line.input);
      Startup(e, line, version, mode, failOnMismatch) == (one.error, e, Asked(line, version, mode, one.rest))
  {
    StartupReceives(e, line, version, mode, failOnMismatch);
    AskedIs(line, version, mode, ReceiveOne(SecilFields(), line.input).rest);
    hide Startup, Asked, CanAsk, ReceiveOne, SecilFields, IsVersion, SendHandshake, HandshakeIn, IsHandshake;
  }

  /**
   * A message that is no handshake ends the startup: it is consumed, nothing behind it is, the state is unchanged, and
   * nothing but the request was written.
   */
  lemma StartupMeetsOther(e: End, line: Line, version: bytes, mode: nat, failOnMismatch: bool, noise: bytes, m: Slots, t: bytes)
    requires CanAsk(line, version, mode) && Foremost(noise, m, t, line.input) && !IsHandshake(m)
    ensures mode < TWO_32 && IsVersion(version)
    ensures Startup(e, line, version, mode, failOnMismatch) == (UNKNOWN_MESSAGE_TYPE, e, Asked(line, version, mode, t))
  {
    StartupReceives(e, line, version, mode, failOnMismatch);
    AskedIs(line, version, mode, t);
    ForemostArrives(noise, m, t, line.input);
    hide Startup, Asked, CanAsk, ReceiveOne, SecilFields, IsVersion, SendHandshake, HandshakeIn, IsHandshake, Foremost, Accepted, Seen;
  }

  /** An intact message comes first, and it is seen for what it is. */
  lemma ForemostArrives(noise: bytes, m: Slots, t: bytes, last: bytes)
    requires Foremost(noise, m, t, last)
    ensures Accepted(SecilFields(), m) && ReceiveOne(SecilFields(), last) == Received(OK, Seen(SecilFields(), m), t)
    ensures IsHandshake(Seen(SecilFields(), m)) <==> IsHandshake(m)
    ensures IsLoopback(Seen(SecilFields(), m)) <==> IsLoopback(m)
  {
    hide *;
    ForemostMeans(noise, m, t, last);
    SecilWf();
    FrameReceived(SecilFields(), noise, m, t);
    SeenKinds(m);
  }

  /** If the request cannot be written, nothing is read either. */
  lemma StartupCannotAsk(e: End, line: Line, version: bytes, mode: nat, failOnMismatch: bool)
    requires (mode == 1 || mode == 2) && IsVersion(version)
    requires HandshakeFits(Handshake(mode, true, version)) && |FrameOf(Handshake(mode, true, version))| > line.room
    ensures Startup(e, line, version, mode, failOnMismatch) == (WRITE_FAILED, e, line)
  {
    var h := Handshake(mode, true, version);
    NotSent(line, h);
    hide SendHandshake, FrameOf, ReceiveHandshake, IsVersion;
  }

  lemma NotSent(line: Line, h: Handshake)
    requires HandshakeFits(h) && |FrameOf(h)| > line.room
    ensures h.mode < TWO_32 && IsVersion(h.version) && SendHandshake(line, h) == (WRITE_FAILED, line)
  {
    FitsMeans(h);
    hide *;
    FrameLength(h);
    AcceptedMeans(HandshakeSlots(h));
    SendIs(line, h);
    SendCases(line, HandshakeSlots(h));
  }

  lemma StartupWithoutMode(e: End, line: Line, version: bytes, failOnMismatch: bool)
    requires IsVersion(version)
    ensures Startup(e, line, version, 0, failOnMismatch) == (INVALID_PARAMETER, e, line)
  {
  }

  /** The other end's handshake arrived, but the answer to it cannot be written: the mode is not set and nobody is told. */
  lemma StartupCannotAnswer(e: End, line: Line, version: bytes, mode: nat, failOnMismatch: bool, noise: bytes, h: Handshake, t: bytes)
    requires CanAsk(line, version, mode) && Quiet(noise) && HandshakeFits(h) && line.input == noise + (FrameOf(h) + t)
    requires h.mode == OtherMode(mode) && h.needsAck
    requires HandshakeFits(Handshake(mode, false, version))
    requires |FrameOf(Handshake(mode, false, version))| > Asked(line, version, mode, t).room
    ensures mode < TWO_32
    ensures Startup(e, line, version, mode, failOnMismatch)
         == (WRITE_FAILED, e.(remoteVersion := CopyVersion(h.version)), Asked(line, version, mode, t))
  {
    StartupReceives(e, line, version, mode, failOnMismatch);
    AskedIs(line, version, mode, t);
    HandshakeArrives(noise, h, t);
    NotSent(Asked(line, version, mode, t), Handshake(mode, false, version));
    hide Startup, Asked, CanAsk, ReceiveOne, SecilFields, IsVersion, SendHandshake, HandshakeIn, IsHandshake, FrameOf, HandshakeFits, CopyVersion;
  }

  // ---- receiving -----------------------------------------------------------------------------

  /** Errors of receiving are passed on, behind any number of messages that were dealt with. */
  lemma ReceivePassesOn(e: End, line: Line, version: bytes, sent: seq<Sent>, last: bytes)
    requires Ahead(e, line, version, sent, last) && ReceiveOne(SecilFields(), last).error != OK
    ensures e.mode < TWO_32 && IsVersion(version) && AllSent(sent) && e.mode <= 2
    ensures var one, r := ReceiveOne(SecilFields(), last), Receive(e, line, version);
      && r.0 == one.error && r.2 == EndAfter(e, version, sent)
      && r.3 == LineAfter(e, line, version, sent, last).(input := one.rest)
  {
    ReceiveGoesOn(e, line, version, sent, last);
    LastIsNext(e, line, version, sent, last);
    hide *;
    ReceiveStep(EndAfter(e, version, sent), LineAfter(e, line, version, sent, last), version);
  }

  /** When nothing but noise comes any more, the call times out. */
  lemma ReceiveTimesOut(e: End, line: Line, version: bytes, sent: seq<Sent>, last: bytes)
    requires Ahead(e, line, version, sent, last) && Quiet(last)
    ensures e.mode < TWO_32 && IsVersion(version) && AllSent(sent) && e.mode <= 2
    ensures var r := Receive(e, line, version); r.0 == READ_TIMEOUT && r.2 == EndAfter(e, version, sent)
  {
    OnlyNoise(SecilFields(), last);
    hide *;
    ReceivePassesOn(e, line, version, sent, last);
  }

  /**
   * A handshake to an end that was not started, or from an end in the same mode, is reported as INVALID_STATE: the state
   * is unchanged by it, nothing is answered, and what is behind it is left.
   */
  lemma HandshakeRefused(e: End, line: Line, version: bytes, sent: seq<Sent>, last: bytes, noise: bytes, h: Handshake, t: bytes)
    requires Ahead(e, line, version, sent, last)
    requires Quiet(noise) && HandshakeFits(h) && last == noise + (FrameOf(h) + t)
    requires e.mode == 0 || e.mode == h.mode
    ensures e.mode < TWO_32 && IsVersion(version) && AllSent(sent) && e.mode <= 2
    ensures var r := Receive(e, line, version);
      && r.0 == INVALID_STATE && r.2 == EndAfter(e, version, sent)
      && r.3 == LineAfter(e, line, version, sent, last).(input := t)
  {
    var e1, line1 := EndAfter(e, version, sent), LineAfter(e, line, version, sent, last);
    ReceiveGoesOn(e, line, version, sent, last);
    LastIsNext(e, line, version, sent, last);
    HandshakeArrives(noise, h, t);
    NotLoopback(noise, h, t);
    hide Ahead, LineAfter, EndAfter, ReceiveOne, Receive, IsHandshake, IsLoopback, HandshakeIn, SendHandshake, FrameOf, HandshakeFits, Quiet,
      SecilFields, IsVersion, AllSent, SendOn, StructOk;
    ReceiveStep(e1, line1, version);
  }

  /** What arrives as a handshake is not a loopback test as well. */
  lemma NotLoopback(noise: bytes, h: Handshake, t: bytes)
    requires Quiet(noise) && HandshakeFits(h)
    ensures !IsLoopback(ReceiveOne(SecilFields(), noise + (FrameOf(h) + t)).m)
  {
    hide *;
    FitsMeans(h);
    FrameLength(h);
    HandshakeParts(h);
    SecilWf();
    FrameReceived(SecilFields(), noise, HandshakeSlots(h), t);
    SeenKinds(HandshakeSlots(h));
    OnlyHandshake(h);
  }

  lemma OnlyHandshake(h: Handshake)
    ensures !IsLoopback(HandshakeSlots(h))
  {
  }

  /** A loopback test that cannot be echoed. */
  lemma CannotEcho(e: End, line: Line, version: bytes, sent: seq<Sent>, last: bytes, noise: bytes, m: Slots, t: bytes)
    requires Ahead(e, line, version, sent, last) && Foremost(noise, m, t, last) && IsLoopback(m)
    requires |Frame(BodyOf(SecilFields(), m))| > LineAfter(e, line, version, sent, last).room
    ensures e.mode < TWO_32 && IsVersion(version) && AllSent(sent) && e.mode <= 2
    ensures var r := Receive(e, line, version);
      && r.0 == WRITE_FAILED && r.2 == EndAfter(e, version, sent)
      && r.3 == LineAfter(e, line, version, sent, last).(input := t)
  {
    var e1, line1 := EndAfter(e, version, sent), LineAfter(e, line, version, sent, last);
    ReceiveGoesOn(e, line, version, sent, last);
    LastIsNext(e, line, version, sent, last);
    ForemostArrives(noise, m, t, last);
    hide *;
    EchoFails(line1.(input := t), m);
    ReceiveStep(e1, line1, version);
  }

  lemma EchoFails(line: Line, m: Slots)
    requires Accepted(SecilFields(), m) && |Frame(BodyOf(SecilFields(), m))| > line.room
    ensures StructOk(SecilFields(), Seen(SecilFields(), m)) && SendOn(line, Seen(SecilFields(), m)) == (WRITE_FAILED, line)
  {
    hide *;
    SeenIs(m);
    AcceptedMeans(m);
    Meanings.EncodesMeaning(SecilFields(), m);
    SameDelimited(SecilFields(), m, Seen(SecilFields(), m));
    SendCases(line, Seen(SecilFields(), m));
  }

  /** A restart of the other end that cannot be answered: the version is kept, but nobody is told. */
  lemma CannotAnswer(e: End, line: Line, version: bytes, sent: seq<Sent>, last: bytes, noise: bytes, h: Handshake, t: bytes)
    requires Ahead(e, line, version, sent, last)
    requires Quiet(noise) && HandshakeFits(h) && last == noise + (FrameOf(h) + t)
    requires e.mode != 0 && e.mode != h.mode && h.needsAck && HandshakeFits(Handshake(e.mode, false, version))
    requires |FrameOf(Handshake(e.mode, false, version))| > LineAfter(e, line, version, sent, last).room
    ensures e.mode < TWO_32 && IsVersion(version) && AllSent(sent) && e.mode <= 2
    ensures var r := Receive(e, line, version);
      && r.0 == WRITE_FAILED && r.2 == EndAfter(e, version, sent).(remoteVersion := CopyVersion(h.version))
      && r.3 == LineAfter(e, line, version, sent, last).(input := t)
  {
    var e1, line1 := EndAfter(e, version, sent), LineAfter(e, line, version, sent, last);
    ReceiveGoesOn(e, line, version, sent, last);
    LastIsNext(e, line, version, sent, last);
    HandshakeArrives(noise, h, t);
    NotLoopback(noise, h, t);
    NotSent(line1.(input := t), Handshake(e.mode, false, version));
    hide Ahead, LineAfter, EndAfter, ReceiveOne, Receive, IsHandshake, IsLoopback, HandshakeIn, SendHandshake, FrameOf, HandshakeFits, Quiet,
      SecilFields, IsVersion, AllSent, SendOn, StructOk, CopyVersion;
    ReceiveStep(e1, line1, version);
  }
}
