/** What secil_receive does with a stream of messages: it deals with handshakes and loopback tests and returns the rest. */
module Traffic {
  import opened Bytes
  import opened Descriptor
  import opened Wire
  import opened SecilProto
  import opened Frames
  import opened Delivery
  import opened Session
  import Meanings

  /** A message that secil_receive deals with itself: a loopback test or, once started, a handshake of an end in another mode. */
  ghost predicate Internal(e: End, m: Slots)
    requires Accepted(SecilFields(), m)
  {
    hide Accepted;
    IsLoopback(m) || (IsHandshake(m) && e.mode != UNINITIALIZED && HandshakeIn(Seen(SecilFields(), m)).mode != e.mode)
  }

  /** Messages that are sent, with quiet noise in front of each. */
  ghost predicate AllSent(sent: seq<Sent>) {
    forall i :: 0 <= i < |sent| ==> Accepted(SecilFields(), sent[i].m) && Quiet(sent[i].noise)
  }

  ghost predicate AllInternal(e: End, sent: seq<Sent>)
    requires AllSent(sent)
  {
    forall i :: 0 <= i < |sent| ==> Internal(e, sent[i].m)
  }

  /** The state of the end after one such message, and what it has written. */
  ghost function React(e: End, version: bytes, m: Slots): (r: (End, bytes))
    requires Accepted(SecilFields(), m) && e.mode <= 2 && IsVersion(version)
    ensures r.0.mode == e.mode
  {
    hide Accepted;
    if IsLoopback(m) then (e, Frame(BodyOf(SecilFields(), m)))
    else
      var h := HandshakeIn(Seen(SecilFields(), m));
      if h.needsAck && e.mode != UNINITIALIZED && e.mode != h.mode
      then (OnRestart(e, version, h).e, FrameOf(Handshake(e.mode, false, version)))
      else (OnRestart(e, version, h).e, [])
  }

  /** After all of them. */
  ghost function ReactAll(e: End, version: bytes, sent: seq<Sent>): (r: (End, bytes))
    requires AllSent(sent) && e.mode <= 2 && IsVersion(version)
    ensures r.0.mode == e.mode
    decreases |sent|
  {
    hide Accepted, Quiet, React, IsVersion, SecilFields;
    if sent == [] then (e, [])
    else
      var (e1, written) := React(e, version, sent[0].m);
      var (e2, more) := ReactAll(e1, version, sent[1..]);
      (e2, written + more)
  }

  lemma SeenKinds(m: Slots)
    requires Accepted(SecilFields(), m)
    ensures IsLoopback(Seen(SecilFields(), m)) <==> IsLoopback(m)
    ensures IsHandshake(Seen(SecilFields(), m)) <==> IsHandshake(m)
  {
    hide SecilFields, StructOk, EncodeDelimited;
    SeenIs(m);
  }

  /** The echo of a loopback message is, byte for byte, the frame that was received. */
  lemma EchoIsTheFrame(line: Line, m: Slots)
    requires Accepted(SecilFields(), m) && |Frame(BodyOf(SecilFields(), m))| <= line.room
    ensures StructOk(SecilFields(), Seen(SecilFields(), m))
    ensures var written := Frame(BodyOf(SecilFields(), m));
      SendOn(line, Seen(SecilFields(), m)) == (OK, Line(line.input, line.output + written, line.room - |written|))
  {
    hide *;
    SeenIs(m);
    AcceptedMeans(m);
    Meanings.EncodesMeaning(SecilFields(), m);
    SameDelimited(SecilFields(), m, Seen(SecilFields(), m));
    SendCases(line, Seen(SecilFields(), m));
  }

  lemma SameDelimited(d: MsgDesc, m: Slots, r: Slots)
    requires StructOk(d, m) && StructOk(d, r) && EncodeStruct(d, r) == EncodeStruct(d, m)
    ensures EncodeDelimited(d, r) == EncodeDelimited(d, m)
  {
    hide StructOk, EncodeStruct, Delimited;
  }

  /** A line from which everything in front of t was read and to which some bytes were written. */
  function After(line: Line, t: bytes, written: bytes): Line
    requires |written| <= line.room
  {
    Line(t, line.output + written, line.room - |written|)
  }

  lemma ReactToLoopback(e: End, version: bytes, m: Slots)
    requires Accepted(SecilFields(), m) && IsLoopback(m) && e.mode <= 2 && IsVersion(version)
    ensures React(e, version, m) == (e, Frame(BodyOf(SecilFields(), m)))
  {
    hide SecilFields, Accepted, BodyOf, IsLoopback, Frame, IsVersion;
  }

  /** The answer to a handshake, if it asks for one, and the state after it. */
  ghost function Answering(e: End, version: bytes, h: Handshake): (End, bytes)
    requires e.mode <= 2 && IsVersion(version)
  {
    (OnRestart(e, version, h).e,
     if h.needsAck && e.mode != UNINITIALIZED && e.mode != h.mode then FrameOf(Handshake(e.mode, false, version)) else [])
  }

  lemma ReactToHandshake(e: End, version: bytes, m: Slots)
    requires Accepted(SecilFields(), m) && Internal(e, m) && !IsLoopback(m) && e.mode <= 2 && IsVersion(version)
    ensures React(e, version, m) == Answering(e, version, HandshakeIn(Seen(SecilFields(), m)))
    ensures IsHandshake(m) && e.mode != UNINITIALIZED && e.mode != HandshakeIn(Seen(SecilFields(), m)).mode
  {
    hide SecilFields, Accepted, Seen, HandshakeIn, FrameOf, IsLoopback, IsHandshake, IsVersion, OnRestart;
  }

  lemma ModeFits(e: End)
    requires e.mode <= 2
    ensures e.mode < TWO_32
  {
  }

  /** An answer is what OnRestart says. */
  lemma AnsweringIs(e: End, version: bytes, h: Handshake)
    requires e.mode <= 2 && e.mode != UNINITIALIZED && e.mode != h.mode && IsVersion(version)
    ensures var r := OnRestart(e, version, h);
      && r.error == OK
      && (forall k :: 0 <= k < |r.answers| ==> HandshakeFits(r.answers[k]))
      && Answering(e, version, h) == (r.e, FramesOf(r.answers))
  {
    hide *;
    AnswerParts(e, version, h);
    NoFrames();
    OneFrame(Handshake(e.mode, false, version));
  }

  lemma AnswerParts(e: End, version: bytes, h: Handshake)
    requires e.mode <= 2 && e.mode != UNINITIALIZED && e.mode != h.mode && IsVersion(version)
    ensures HandshakeFits(Handshake(e.mode, false, version))
    ensures OnRestart(e, version, h).error == OK
    ensures OnRestart(e, version, h).answers == if h.needsAck then [Handshake(e.mode, false, version)] else []
    ensures Answering(e, version, h)
         == (OnRestart(e, version, h).e, if h.needsAck then FrameOf(Handshake(e.mode, false, version)) else [])
  {
    hide FrameOf;
  }

  lemma NoFrames()
    ensures FramesOf([]) == []
  {
  }

  lemma AnswerFits(e: End, version: bytes, h: Handshake, line: Line)
    requires e.mode <= 2 && e.mode != UNINITIALIZED && e.mode != h.mode && IsVersion(version)
    requires |Answering(e, version, h).1| <= line.room
    ensures h.needsAck ==> |FrameOf(Handshake(e.mode, false, version))| <= line.room
  {
    hide FrameOf, IsVersion, OnRestart;
  }

  /** A handshake is dealt with on the line. */
  lemma HandshakeOnTheLine(e: End, line: Line, version: bytes, m: Slots, h: Handshake)
    requires e.mode <= 2 && e.mode != UNINITIALIZED && e.mode != h.mode && IsVersion(version) && HandshakeIn(m) == h
    requires |Answering(e, version, h).1| <= line.room
    ensures e.mode < TWO_32
    ensures var r := Answering(e, version, h);
      HandleRemoteRestarted(e, line, version, m) == (OK, r.0, After(line, line.input, r.1))
  {
    hide *;
    ModeFits(e);
    AnsweringIs(e, version, h);
    AnswerFits(e, version, h, line);
    RestartOnTheLine(e, line, version, m, h);
    AfterIs(line, line.input, Answering(e, version, h).1);
  }

  /** One message is dealt with, and receiving goes on behind it. */
  lemma OneInternal(e: End, line: Line, version: bytes, noise: bytes, m: Slots, t: bytes)
    requires e.mode <= 2 && IsVersion(version)
    requires Accepted(SecilFields(), m) && Internal(e, m) && Quiet(noise)
    requires line.input == noise + (Frame(BodyOf(SecilFields(), m)) + t)
    requires |React(e, version, m).1| <= line.room
    ensures e.mode < TWO_32
    ensures Receive(e, line, version) == Receive(React(e, version, m).0, After(line, t, React(e, version, m).1), version)
  {
    hide *;
    ModeFits(e);
    SecilWf();
    FrameReceived(SecilFields(), noise, m, t);
    SeenKinds(m);
    ReceiveStep(e, line, version);
    var line1, seen := line.(input := t), Seen(SecilFields(), m);
    AfterIs(line, t, React(e, version, m).1);
    if IsLoopback(m) {
      ReactToLoopback(e, version, m);
      EchoIsTheFrame(line1, m);
    } else {
      ReactToHandshake(e, version, m);
      HandshakeOnTheLine(e, line1, version, seen, HandshakeIn(seen));
      AfterIs(line1, t, React(e, version, m).1);
    }
  }

  lemma AfterIs(line: Line, t: bytes, written: bytes)
    requires |written| <= line.room
    ensures After(line, t, written) == Line(t, line.output + written, line.room - |written|)
  {
  }

  /** Any number of messages that the end deals with itself are ahead of the bytes in last; it can write all answers. */
  ghost predicate Ahead(e: End, line: Line, version: bytes, sent: seq<Sent>, last: bytes) {
    && e.mode <= 2 && IsVersion(version) && AllSent(sent) && AllInternal(e, sent)
    && line.input == Stream(SecilFields(), sent, last)
    && |ReactAll(e, version, sent).1| <= line.room
  }

  /** The end after them. */
  ghost function EndAfter(e: End, version: bytes, sent: seq<Sent>): (r: End)
    requires AllSent(sent) && e.mode <= 2 && IsVersion(version)
    ensures r.mode == e.mode
  {
    hide AllSent, IsVersion, ReactAll;
    ReactAll(e, version, sent).0
  }

  /** The line after them: every echo and answer is written, and last is still to be read. */
  ghost function LineAfter(e: End, line: Line, version: bytes, sent: seq<Sent>, last: bytes): Line
    requires Ahead(e, line, version, sent, last)
  {
    hide AllSent, IsVersion, ReactAll, AllInternal, Stream, Accepted, Quiet;
    After(line, last, ReactAll(e, version, sent).1)
  }

  lemma AheadMeans(e: End, line: Line, version: bytes, sent: seq<Sent>, last: bytes)
    requires e.mode <= 2 && IsVersion(version) && AllSent(sent) && AllInternal(e, sent)
    ensures forall i :: 0 <= i < |sent| ==> Accepted(SecilFields(), sent[i].m)
    ensures Ahead(e, line, version, sent, last)
      <==> line.input == Stream(SecilFields(), sent, last) && |ReactAll(e, version, sent).1| <= line.room
    ensures Ahead(e, line, version, sent, last) ==>
      LineAfter(e, line, version, sent, last) == After(line, last, ReactAll(e, version, sent).1)
    ensures EndAfter(e, version, sent) == ReactAll(e, version, sent).0
  {
    hide Accepted, AllInternal, Quiet, IsVersion, ReactAll, Stream, SecilFields;
  }

  lemma AheadParts(e: End, line: Line, version: bytes, sent: seq<Sent>, last: bytes)
    requires Ahead(e, line, version, sent, last)
    ensures e.mode < TWO_32 && e.mode <= 2 && IsVersion(version) && AllSent(sent) && AllInternal(e, sent)
  {
    hide Accepted, AllInternal, AllSent, Quiet, IsVersion, ReactAll, Stream, SecilFields;
  }

  /**
   * secil_receive passes over all messages that it deals with itself, however many they are; it has echoed each test
   * with the very frame that came, answered each handshake that asked for it, kept the version of the last one, and
   * goes on right behind them, whatever comes there.
   */
  lemma {:induction false} ReceiveGoesOn(e: End, line: Line, version: bytes, sent: seq<Sent>, last: bytes)
    requires Ahead(e, line, version, sent, last)
    ensures e.mode < TWO_32 && IsVersion(version) && AllSent(sent) && e.mode <= 2
    ensures Receive(e, line, version) == Receive(EndAfter(e, version, sent), LineAfter(e, line, version, sent, last), version)
    decreases |sent|
  {
    hide *;
    AheadParts(e, line, version, sent, last);
    AheadMeans(e, line, version, sent, last);
    if sent == [] {
      StreamOfNone(last);
      ReactToNone(e, version, sent);
      AfterIs(line, last, []);
      assert line.output + [] == line.output;
    } else {
      StreamStep(e, version, sent, last);
      var e1, written := React(e, version, sent[0].m).0, React(e, version, sent[0].m).1;
      var rest := Stream(SecilFields(), sent[1..], last);
      OneInternal(e, line, version, sent[0].noise, sent[0].m, rest);
      AfterIs(line, rest, written);
      var line1, more := After(line, rest, written), ReactAll(e1, version, sent[1..]).1;
      AheadMeans(e1, line1, version, sent[1..], last);
      ReceiveGoesOn(e1, line1, version, sent[1..], last);
      AfterIs(line1, last, more);
      AfterIs(line, last, written + more);
      ConcatAssociative(line.output, written, more);
    }
  }

  /** A message that is neither a loopback test nor a handshake, behind noise and in front of t. */
  ghost predicate Foremost(noise: bytes, m: Slots, t: bytes, last: bytes) {
    Accepted(SecilFields(), m) && Quiet(noise) && last == noise + (Frame(BodyOf(SecilFields(), m)) + t)
  }

  /** The first message that is neither a loopback test nor a handshake is returned, and exactly what is behind it is left. */
  lemma ReceiveFindsMessage(e: End, line: Line, version: bytes, sent: seq<Sent>, last: bytes, noise: bytes, m: Slots, t: bytes)
    requires Ahead(e, line, version, sent, last) && Foremost(noise, m, t, last) && !IsLoopback(m) && !IsHandshake(m)
    ensures Accepted(SecilFields(), m) && e.mode < TWO_32 && IsVersion(version) && AllSent(sent) && e.mode <= 2
    ensures Receive(e, line, version)
         == (OK, Seen(SecilFields(), m), EndAfter(e, version, sent), LineAfter(e, line, version, sent, last).(input := t))
  {
    hide *;
    ReceiveGoesOn(e, line, version, sent, last);
    ForemostMeans(noise, m, t, last);
    LastIsNext(e, line, version, sent, last);
    OneReturned(EndAfter(e, version, sent), LineAfter(e, line, version, sent, last), version, noise, m, t);
  }

  lemma ForemostMeans(noise: bytes, m: Slots, t: bytes, last: bytes)
    requires Foremost(noise, m, t, last)
    ensures Accepted(SecilFields(), m) && Quiet(noise) && last == noise + (Frame(BodyOf(SecilFields(), m)) + t)
  {
    hide SecilFields, Accepted, Quiet, Frame, BodyOf;
  }

  lemma LastIsNext(e: End, line: Line, version: bytes, sent: seq<Sent>, last: bytes)
    requires Ahead(e, line, version, sent, last)
    ensures LineAfter(e, line, version, sent, last).input == last
  {
    hide Accepted, AllInternal, AllSent, Quiet, IsVersion, ReactAll, Stream, SecilFields;
  }

  lemma StreamOfNone(last: bytes)
    ensures Stream(SecilFields(), [], last) == last
  {
  }

  lemma ReactToNone(e: End, version: bytes, sent: seq<Sent>)
    requires sent == [] && e.mode <= 2 && IsVersion(version)
    ensures AllSent(sent) && ReactAll(e, version, sent) == (e, [])
  {
  }

  lemma StreamStep(e: End, version: bytes, sent: seq<Sent>, last: bytes)
    requires e.mode <= 2 && IsVersion(version) && AllSent(sent) && AllInternal(e, sent) && sent != []
    ensures Accepted(SecilFields(), sent[0].m) && Quiet(sent[0].noise) && Internal(e, sent[0].m)
    ensures AllSent(sent[1..])
    ensures forall i :: 0 <= i < |sent| ==> Accepted(SecilFields(), sent[i].m)
    ensures forall i :: 0 <= i < |sent[1..]| ==> Accepted(SecilFields(), sent[1..][i].m)
    ensures AllInternal(React(e, version, sent[0].m).0, sent[1..])
    ensures Stream(SecilFields(), sent, last)
         == sent[0].noise + (Frame(BodyOf(SecilFields(), sent[0].m)) + Stream(SecilFields(), sent[1..], last))
    ensures var r, s := React(e, version, sent[0].m), ReactAll(React(e, version, sent[0].m).0, version, sent[1..]);
      ReactAll(e, version, sent) == (s.0, r.1 + s.1)
  {
    hide Accepted, Quiet, React, IsVersion, SecilFields, Frame, BodyOf;
    assert forall i :: 0 <= i < |sent[1..]| ==> sent[1..][i] == sent[i + 1];
  }

  /** Any other message is returned. */
  lemma OneReturned(e: End, line: Line, version: bytes, noise: bytes, m: Slots, t: bytes)
    requires e.mode <= 2 && IsVersion(version)
    requires Accepted(SecilFields(), m) && Quiet(noise) && !IsLoopback(m) && !IsHandshake(m)
    requires line.input == noise + (Frame(BodyOf(SecilFields(), m)) + t)
    ensures Receive(e, line, version) == (OK, Seen(SecilFields(), m), e, line.(input := t))
  {
    SecilWf();
    FrameReceived(SecilFields(), noise, m, t);
    SeenKinds(m);
    hide SecilFields, Accepted, Seen, BodyOf, Receive, ReceiveOne, IsLoopback, IsHandshake, SendOn, Frame, IsVersion, StructOk, WfDesc;
    ReceiveStep(e, line, version);
  }
}
