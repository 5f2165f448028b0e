/** What goes over the wire of the link, and how a receiver finds its way in a stream of bytes. */
module Frames {
  import opened Bytes
  import opened Descriptor
  import opened Wire
  import opened SecilProto
  import Crc

  datatype Error =
    | OK | READ_TIMEOUT | WRITE_FAILED | ENCODE_FAILED | DECODE_FAILED | MESSAGE_TOO_LARGE
    | INVALID_STATE | INVALID_PARAMETER | UNKNOWN_MESSAGE_TYPE | STARTUP_FAILED | VERSION_MISMATCH

  // ---- sending -------------------------------------------------------------------------

  /** Magic bytes and the length of the message, least significant byte first. */
  function Header(n: nat): (h: bytes)
    requires n < 0x1_0000
    ensures |h| == 4
  {
    [0xCA, 0xFE, n % 0x100, n / 0x100]
  }

  /** The checksum over header and message, and the closing magic bytes. */
  function Footer(checked: bytes): (f: bytes)
    ensures |f| == 4
  {
    Crc.CrcBound(0, checked);
    var crc := Crc.Crc16(0, checked);
    [crc % 0x100, crc / 0x100, 0xFA, 0xDE]
  }

  function Frame(body: bytes): (f: bytes)
    requires |body| < 0x1_0000
    ensures |f| == |body| + 8
  {
    Header(|body|) + body + Footer(Header(|body|) + body)
  }

  // ---- finding a frame --------------------------------------------------------------------

  /** Where the first CA FE is that has two more bytes behind it. */
  function FirstHeader(s: bytes): (r: Option<nat>)
    ensures r.Some? ==> r.value + 4 <= |s| && s[r.value] == 0xCA && s[r.value + 1] == 0xFE
    decreases |s|
  {
    if |s| < 4 then None
    else if s[0] == 0xCA && s[1] == 0xFE then Some(0)
    else match FirstHeader(s[1..])
      case None => None
      case Some(i) => Some(i + 1)
  }

  /** There is a CA FE at i, with two more bytes behind it. */
  predicate HeaderAt(s: bytes, i: nat) {
    i + 4 <= |s| && s[i] == 0xCA && s[i + 1] == 0xFE
  }

  /** The scan stops at the first such place and fails exactly if there is none. */
  lemma {:induction false} FirstHeaderIs(s: bytes)
    ensures FirstHeader(s).Some? ==> HeaderAt(s, FirstHeader(s).value) && forall j :: 0 <= j < FirstHeader(s).value ==> !HeaderAt(s, j)
    ensures FirstHeader(s).None? <==> forall i: nat :: !HeaderAt(s, i)
    decreases |s|
  {
    if |s| >= 4 && !(s[0] == 0xCA && s[1] == 0xFE) {
      FirstHeaderIs(s[1..]);
      forall i: nat ensures HeaderAt(s, i + 1) <==> HeaderAt(s[1..], i) {
      }
      assert !HeaderAt(s, 0);
      assert forall i: nat :: HeaderAt(s, i) ==> i > 0 && HeaderAt(s, i - 1 + 1);
      assert forall i: nat :: HeaderAt(s, i) ==> HeaderAt(s[1..], i - 1);
    } else if |s| >= 4 {
      assert HeaderAt(s, 0);
    }
  }

  // ---- receiving one message ------------------------------------------------------------------

  /** What a call of secil_receive_internal reports and what it leaves unread. */
  datatype Received = Received(error: Error, m: Slots, rest: bytes)

  /** The length in a header. */
  function LengthIn(head: bytes): nat
    requires |head| == 4
  {
    head[2] as int + 0x100 * head[3] as int
  }

  /** What is made of a message of the announced length and the footer behind it. */
  ghost function Check(d: MsgDesc, head: bytes, tail: bytes): (r: Option<Slots>)
    requires |head| == 4 && |tail| == LengthIn(head) + 4
  {
    var n := LengthIn(head);
    if tail[n + 2] != 0xFA || tail[n + 3] != 0xDE then None
    else if tail[n] as int + 0x100 * tail[n + 1] as int != Crc.Crc16(0, head + tail[..n]) then None
    else match DecodeDelimited(d, tail[..n], DefaultStruct(d))
      case Fail => None
      case Ok(m, _) => Some(m)
  }

  ghost function ReceiveBody(d: MsgDesc, head: bytes, s: bytes): (r: Received)
    requires |head| == 4
    ensures |r.rest| <= |s| && (r.error == OK ==> |r.rest| + 4 <= |s|)
  {
    var n := LengthIn(head);
    if n > SECIL_MESSAGE_SIZE then Received(MESSAGE_TOO_LARGE, DefaultStruct(d), s)
    else if |s| < n + 4 then Received(READ_TIMEOUT, DefaultStruct(d), s)
    else match Check(d, head, s[..n + 4])
      case None => Received(DECODE_FAILED, DefaultStruct(d), s[n + 4..])
      case Some(m) => Received(OK, m, s[n + 4..])
  }

  /** secil_receive_internal on everything that is left of the input, for messages of type d. */
  ghost function ReceiveOne(d: MsgDesc, s: bytes): (r: Received)
    ensures r.error != READ_TIMEOUT ==> |r.rest| + 4 <= |s|
    ensures r.error == OK ==> |r.rest| + 8 <= |s|
  {
    match FirstHeader(s)
    case None => Received(READ_TIMEOUT, DefaultStruct(d), if |s| < 4 then s else [])
    case Some(i) => ReceiveBody(d, s[i..i + 4], s[i + 4..])
  }
}
