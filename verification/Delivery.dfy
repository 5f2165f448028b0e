/** Messages that were sent are received, in order, through noise; damaged ones are refused without losing the next. */
module Delivery {
  import opened Bytes
  import opened Descriptor
  import opened Wire
  import opened SecilProto
  import opened Frames
  import RoundTrip
  import Crc

  /** Bytes between frames that do not contain the opening magic bytes. */
  predicate Quiet(noise: bytes) {
    forall i :: 0 <= i < |noise| - 1 ==> !(noise[i] == 0xCA && noise[i + 1] == 0xFE)
  }

  lemma QuietTail(noise: bytes)
    requires Quiet(noise) && noise != []
    ensures Quiet(noise[1..])
  {
    forall i | 0 <= i < |noise[1..]| - 1 ensures !(noise[1..][i] == 0xCA && noise[1..][i + 1] == 0xFE) {
      assert noise[1..][i] == noise[i + 1] && noise[1..][i + 1] == noise[i + 1 + 1];
    }
  }

  lemma {:induction false} NoiseIsSkipped(noise: bytes, s: bytes)
    requires Quiet(noise) && HeaderAt(s, 0)
    ensures FirstHeader(noise + s) == Some(|noise|)
    decreases |noise|
  {
    if noise == [] {
      assert noise + s == s;
    } else {
      assert (noise + s)[1..] == noise[1..] + s;
      QuietTail(noise);
      NoiseIsSkipped(noise[1..], s);
      assert !((noise + s)[0] == 0xCA && (noise + s)[1] == 0xFE) by {
        if |noise| == 1 {
          assert (noise + s)[1] == s[0];
        } else {
          assert noise[0] == (noise + s)[0] && noise[1] == (noise + s)[1];
        }
      }
    }
  }

  lemma {:induction false} QuietHasNoHeader(noise: bytes)
    requires Quiet(noise)
    ensures FirstHeader(noise) == None
    decreases |noise|
  {
    if |noise| >= 4 {
      QuietTail(noise);
      QuietHasNoHeader(noise[1..]);
    }
  }

  /** A header and a tail of the announced length behind quiet noise: the tail decides, and exactly both are consumed. */
  lemma TailIsChecked(d: MsgDesc, noise: bytes, head: bytes, tail: bytes, t: bytes)
    requires Quiet(noise) && |head| == 4 && head[0] == 0xCA && head[1] == 0xFE
    requires LengthIn(head) <= SECIL_MESSAGE_SIZE && |tail| == LengthIn(head) + 4
    ensures ReceiveOne(d, noise + (head + (tail + t)))
         == match Check(d, head, tail)
            case None => Received(DECODE_FAILED, DefaultStruct(d), t)
            case Some(m) => Received(OK, m, t)
  {
    var s := head + (tail + t);
    NoiseIsSkipped(noise, s);
    SplitThere(noise, head, tail + t);
    BodyIsChecked(d, head, tail, t);
    FoundHeader(d, noise + s, |noise|);
  }

  lemma SplitThere(a: bytes, head: bytes, b: bytes)
    requires |head| == 4
    ensures (a + (head + b))[|a|..|a| + 4] == head && (a + (head + b))[|a| + 4..] == b
  {
  }

  lemma FoundHeader(d: MsgDesc, s: bytes, i: nat)
    requires FirstHeader(s) == Some(i)
    ensures i + 4 <= |s| && ReceiveOne(d, s) == ReceiveBody(d, s[i..i + 4], s[i + 4..])
  {
    hide DefaultStruct, Check, ReceiveBody, FirstHeader;
  }

  lemma BodyIsChecked(d: MsgDesc, head: bytes, tail: bytes, t: bytes)
    requires |head| == 4 && LengthIn(head) <= SECIL_MESSAGE_SIZE && |tail| == LengthIn(head) + 4
    ensures ReceiveBody(d, head, tail + t)
         == match Check(d, head, tail)
            case None => Received(DECODE_FAILED, DefaultStruct(d), t)
            case Some(m) => Received(OK, m, t)
  {
    hide Check, DefaultStruct, LengthIn;
    assert (tail + t)[..|tail|] == tail && (tail + t)[|tail|..] == t;
  }

  // ---- intact frames ------------------------------------------------------------------------

  lemma HeaderLength(n: nat)
    requires n < 0x1_0000
    ensures LengthIn(Header(n)) == n && Header(n)[0] == 0xCA && Header(n)[1] == 0xFE
  {
  }

  lemma LengthFits(body: bytes)
    requires |body| <= SECIL_MESSAGE_SIZE
    ensures |body| < 0x1_0000
  {
  }

  lemma FrameParts(body: bytes)
    requires |body| < 0x1_0000
    ensures Frame(body) == Header(|body|) + (body + Footer(Header(|body|) + body))
  {
    ConcatAssociative(Header(|body|), body, Footer(Header(|body|) + body));
  }

  lemma FooterHoldsCrc(checked: bytes)
    ensures Footer(checked)[0] as int + 0x100 * Footer(checked)[1] as int == Crc.Crc16(0, checked)
    ensures Footer(checked)[2] == 0xFA && Footer(checked)[3] == 0xDE
  {
  }

  /** The check, on a message and a footer of four bytes. */
  lemma CheckParts(d: MsgDesc, head: bytes, body: bytes, foot: bytes)
    requires |head| == 4 && LengthIn(head) == |body| && |foot| == 4
    ensures Check(d, head, body + foot)
         == if foot[2] != 0xFA || foot[3] != 0xDE || foot[0] as int + 0x100 * foot[1] as int != Crc.Crc16(0, head + body) then None
            else match DecodeDelimited(d, body, DefaultStruct(d))
              case Fail => None
              case Ok(m, _) => Some(m)
  {
    hide DefaultStruct, DecodeDelimited, LengthIn, Crc.Crc16;
    var tail := body + foot;
    assert tail[..|body|] == body;
    assert tail[|body|] == foot[0] && tail[|body| + 1] == foot[1];
    assert tail[|body| + 2] == foot[2] && tail[|body| + 3] == foot[3];
  }

  lemma IntactPasses(d: MsgDesc, body: bytes)
    requires |body| <= SECIL_MESSAGE_SIZE
    ensures LengthIn(Header(|body|)) == |body|
    ensures Check(d, Header(|body|), body + Footer(Header(|body|) + body))
         == match DecodeDelimited(d, body, DefaultStruct(d)) case Fail => None case Ok(m, _) => Some(m)
  {
    hide *;
    LengthFits(body);
    HeaderLength(|body|);
    FooterHoldsCrc(Header(|body|) + body);
    CheckParts(d, Header(|body|), body, Footer(Header(|body|) + body));
  }

  /** secil_send takes the message: it can be encoded and is not too long. */
  ghost predicate Accepted(d: MsgDesc, m: Slots) {
    && StructOk(d, m)
    && EncodeDelimited(d, m).Some?
    && |EncodeDelimited(d, m).value| <= SECIL_MESSAGE_SIZE
  }

  ghost function BodyOf(d: MsgDesc, m: Slots): (b: bytes)
    requires Accepted(d, m)
    ensures |b| <= SECIL_MESSAGE_SIZE < 0x1_0000
  {
    EncodeDelimited(d, m).value
  }

  /** The value that the receiver sees: the same, up to what follows the texts in their buffers. */
  ghost function Seen(d: MsgDesc, m: Slots): Slots
    requires Accepted(d, m)
  {
    StructMeaning(d, m)
  }

  lemma BodyDecodes(d: MsgDesc, m: Slots)
    requires WfDesc(d) && Accepted(d, m)
    ensures DecodeDelimited(d, BodyOf(d, m), DefaultStruct(d)) == Ok(Seen(d, m), [])
  {
    hide StructOk, WfDesc, EncodeStruct, DefaultStruct;
    RoundTrip.DelimitedStructRoundTrip(d, m, []);
    assert BodyOf(d, m) + [] == BodyOf(d, m);
  }

  /** A frame that was sent is received, whatever quiet noise is in front of it and whatever comes behind it. */
  lemma FrameReceived(d: MsgDesc, noise: bytes, m: Slots, t: bytes)
    requires WfDesc(d) && Quiet(noise) && Accepted(d, m)
    ensures ReceiveOne(d, noise + (Frame(BodyOf(d, m)) + t)) == Received(OK, Seen(d, m), t)
  {
    var body := BodyOf(d, m);
    var head := Header(|body|);
    var foot := Footer(head + body);
    BodyDecodes(d, m);
    IntactPasses(d, body);
    FrameParts(body);
    ConcatAssociative(head, body + foot, t);
    assert head[0] == 0xCA && head[1] == 0xFE;
    hide *;
    TailIsChecked(d, noise, head, body + foot, t);
  }

  // ---- other frames ---------------------------------------------------------------------------

  /** Whatever message stands in an intact frame, the decoder decides, and exactly the frame is consumed. */
  lemma AnyBody(d: MsgDesc, noise: bytes, body: bytes, t: bytes)
    requires Quiet(noise) && |body| <= SECIL_MESSAGE_SIZE
    ensures ReceiveOne(d, noise + (Frame(body) + t))
         == match DecodeDelimited(d, body, DefaultStruct(d))
            case Fail => Received(DECODE_FAILED, DefaultStruct(d), t)
            case Ok(m, _) => Received(OK, m, t)
  {
    hide *;
    LengthFits(body);
    HeaderLength(|body|);
    var head := Header(|body|);
    var foot := Footer(head + body);
    IntactPasses(d, body);
    FrameParts(body);
    ConcatAssociative(head, body + foot, t);
    TailIsChecked(d, noise, head, body + foot, t);
  }

  /** A header that announces more than the input buffer can hold is refused at once; what is behind it is left. */
  lemma TooLong(d: MsgDesc, noise: bytes, low: byte, high: byte, s: bytes)
    requires Quiet(noise) && low as int + 0x100 * high as int > SECIL_MESSAGE_SIZE
    ensures ReceiveOne(d, noise + ([0xCA, 0xFE, low, high] + s)) == Received(MESSAGE_TOO_LARGE, DefaultStruct(d), s)
  {
    HeaderFound(d, noise, low, high, s);
    hide DefaultStruct, ReceiveOne, Check;
  }

  /** If less comes than was announced, the call times out; nothing behind the header is consumed. */
  lemma CutShort(d: MsgDesc, noise: bytes, low: byte, high: byte, s: bytes)
    requires Quiet(noise) && |s| < low as int + 0x100 * high as int + 4 <= SECIL_MESSAGE_SIZE + 4
    ensures ReceiveOne(d, noise + ([0xCA, 0xFE, low, high] + s)) == Received(READ_TIMEOUT, DefaultStruct(d), s)
  {
    HeaderFound(d, noise, low, high, s);
    hide DefaultStruct, ReceiveOne, Check;
  }

  lemma HeaderFound(d: MsgDesc, noise: bytes, low: byte, high: byte, s: bytes)
    requires Quiet(noise)
    ensures ReceiveOne(d, noise + ([0xCA, 0xFE, low, high] + s)) == ReceiveBody(d, [0xCA, 0xFE, low, high], s)
  {
    var head: bytes := [0xCA, 0xFE, low, high];
    assert HeaderAt(head + s, 0);
    hide ReceiveOne, ReceiveBody, FirstHeader, HeaderAt, Quiet;
    NoiseIsSkipped(noise, head + s);
    SplitThere(noise, head, s);
    FoundHeader(d, noise + (head + s), |noise|);
  }

  /** Noise alone is a timeout. */
  lemma OnlyNoise(d: MsgDesc, noise: bytes)
    requires Quiet(noise)
    ensures ReceiveOne(d, noise) == Received(READ_TIMEOUT, DefaultStruct(d), if |noise| < 4 then noise else [])
  {
    QuietHasNoHeader(noise);
    hide DefaultStruct, FirstHeader, ReceiveBody;
  }

  // ---- a whole stream ---------------------------------------------------------------------------

  datatype Sent = Sent(noise: bytes, m: Slots)

  /** What arrives when messages were sent one after the other, with noise in between and at the end. */
  ghost function Stream(d: MsgDesc, sent: seq<Sent>, last: bytes): bytes
    requires forall i :: 0 <= i < |sent| ==> Accepted(d, sent[i].m)
  {
    hide Accepted;
    if sent == [] then last else sent[0].noise + (Frame(BodyOf(d, sent[0].m)) + Stream(d, sent[1..], last))
  }

  /** The outcomes of calling secil_receive_internal until it times out. */
  ghost function ReceiveAll(d: MsgDesc, s: bytes): seq<(Error, Slots)>
    decreases |s|
  {
    var r := ReceiveOne(d, s);
    if r.error == READ_TIMEOUT then [] else [(r.error, r.m)] + ReceiveAll(d, r.rest)
  }

  ghost function Outcomes(d: MsgDesc, sent: seq<Sent>): seq<(Error, Slots)>
    requires forall i :: 0 <= i < |sent| ==> Accepted(d, sent[i].m)
  {
    hide Accepted;
    if sent == [] then [] else [(OK, Seen(d, sent[0].m))] + Outcomes(d, sent[1..])
  }

  /**
   * End to end: for every list of messages that were accepted for sending, with any quiet noise before, between
   * and after the frames, the receiver returns exactly those messages, in order, and reports no error.
   */
  lemma {:induction false} AllDelivered(d: MsgDesc, sent: seq<Sent>, last: bytes)
    requires WfDesc(d)
    requires forall i :: 0 <= i < |sent| ==> Accepted(d, sent[i].m) && Quiet(sent[i].noise)
    requires Quiet(last)
    ensures ReceiveAll(d, Stream(d, sent, last)) == Outcomes(d, sent)
    decreases |sent|
  {
    hide Accepted, BodyOf, Frame, ReceiveOne, Seen, FirstHeader;
    if sent == [] {
      QuietHasNoHeader(last);
      NothingReceived(d, last);
    } else {
      FrameReceived(d, sent[0].noise, sent[0].m, Stream(d, sent[1..], last));
      AllDelivered(d, sent[1..], last);
    }
  }

  lemma NothingReceived(d: MsgDesc, s: bytes)
    requires FirstHeader(s) == None
    ensures ReceiveOne(d, s).error == READ_TIMEOUT
  {
  }

  // ---- damaged frames -----------------------------------------------------------------------------

  /** The frame, except that the bytes at p and p + 1 may be others; at least one of them is. */
  predicate DamagedAt(damaged: bytes, frame: bytes, p: nat) {
    && |damaged| == |frame| && damaged != frame && p + 1 < |frame|
    && forall k :: 0 <= k < |frame| && k != p && k != p + 1 ==> damaged[k] == frame[k]
  }

  lemma OneByteAfter(checked: bytes, x: byte, y: byte)
    requires x != y
    ensures Crc.Xor(Crc.Crc16(0, checked + [x]), Crc.Crc16(0, checked + [y])) >= 0x100
  {
    var c := Crc.Crc16(0, checked);
    Crc.CrcOfTwo(0, checked, [x]);
    Crc.CrcOfTwo(0, checked, [y]);
    assert [x][1..] == [] && [y][1..] == [];
    assert Crc.Crc16(c, [x]) == Crc.Feed(c, x) && Crc.Crc16(c, [y]) == Crc.Feed(c, y);
    Crc.OneByteChange(c, x, y);
  }

  lemma CutPair(head: bytes, body: bytes, q: nat)
    requires q + 1 < |body|
    ensures head + body == head + body[..q] + (body[q..q + 2] + body[q + 2..])
    ensures body == body[..q] + (body[q..q + 2] + body[q + 2..])
  {
  }

  /** Two changed bytes in the message. */
  lemma BodyChange(head: bytes, body: bytes, body': bytes, q: nat)
    requires |body'| == |body| && body' != body && q + 1 < |body|
    requires forall k :: 0 <= k < |body| && k != q && k != q + 1 ==> body'[k] == body[k]
    ensures Crc.Crc16(0, head + body') != Crc.Crc16(0, head + body)
  {
    hide *;
    var pre, x, y, post := head + body[..q], body[q..q + 2], body'[q..q + 2], body[q + 2..];
    CutPair(head, body, q);
    CutPair(head, body', q);
    assert body'[..q] == body[..q] && body'[q + 2..] == post;
    Crc.CrcOfTwo(0, pre, x + post);
    Crc.CrcOfTwo(0, pre, y + post);
    Crc.CrcBound(0, pre);
    Crc.BurstChangesCrc(Crc.Crc16(0, pre), x, y, post);
  }

  /** The last byte of the message and the low byte of the checksum. */
  lemma LastByteChange(checked: bytes, x: byte, y: byte, low: byte, high: byte)
    requires var crc := Crc.Crc16(0, checked + [x]); crc / 0x100 == high && (x == y ==> crc % 0x100 != low)
    ensures low as int + 0x100 * high as int != Crc.Crc16(0, checked + [y])
  {
    var a, b := Crc.Crc16(0, checked + [x]), Crc.Crc16(0, checked + [y]);
    if x != y {
      OneByteAfter(checked, x, y);
      if b == low as int + 0x100 * high as int {
        assert b / 0x100 == high as int;
        Crc.SameHighByte(a, b);
      }
    }
  }

  /** How message and footer can differ from what was sent. */
  ghost predicate Differ(body: bytes, foot: bytes, body': bytes, foot': bytes, q: nat) {
    && |body'| == |body| && |foot| == |foot'| == 4 && q <= |body| + 2
    && (body' != body || foot' != foot)
    && (forall k :: 0 <= k < |body| && k != q && k != q + 1 ==> body'[k] == body[k])
    && (forall k :: 0 <= k < 4 && |body| + k != q && |body| + k != q + 1 ==> foot'[k] == foot[k])
  }

  lemma DamagedParts(body: bytes, foot: bytes, body': bytes, foot': bytes, q: nat)
    requires |body'| == |body| && |foot| == |foot'| == 4 && q <= |body| + 2
    requires DamagedAt(body' + foot', body + foot, q)
    ensures Differ(body, foot, body', foot', q)
  {
    var f, f' := body + foot, body' + foot';
    forall k | 0 <= k < |body| && k != q && k != q + 1 ensures body'[k] == body[k] {
      assert f'[k] == f[k];
    }
    forall k | 0 <= k < 4 && |body| + k != q && |body| + k != q + 1 ensures foot'[k] == foot[k] {
      assert f'[|body| + k] == f[|body| + k];
    }
  }

  lemma LastByteFails(head: bytes, body: bytes, foot: bytes, body': bytes, foot': bytes)
    requires foot == Footer(head + body) && body != []
    requires Differ(body, foot, body', foot', |body| - 1)
    ensures foot'[0] as int + 0x100 * foot'[1] as int != Crc.Crc16(0, head + body')
  {
    var q := |body| - 1;
    var x, y, checked := body[q], body'[q], head + body[..q];
    FooterHoldsCrc(head + body);
    CutLast(head, body);
    CutLast(head, body');
    hide *;
    assert body'[..q] == body[..q];
    if x == y && foot'[0] == foot[0] {
      assert false;
    }
    LastByteChange(checked, x, y, foot'[0], foot'[1]);
  }

  lemma CutLast(head: bytes, body: bytes)
    requires body != []
    ensures var q := |body| - 1; head + body == head + body[..q] + [body[q]] && body == body[..q] + [body[q]]
  {
  }

  /** Wherever in message or checksum the damage is, the checksum that is found is not the one that is computed. */
  lemma ChecksumFails(head: bytes, body: bytes, foot: bytes, body': bytes, foot': bytes, q: nat)
    requires foot == Footer(head + body)
    requires Differ(body, foot, body', foot', q) && q <= |body|
    ensures foot'[2] == 0xFA && foot'[3] == 0xDE
    ensures foot'[0] as int + 0x100 * foot'[1] as int != Crc.Crc16(0, head + body')
  {
    var n := |body|;
    FooterHoldsCrc(head + body);
    hide Footer, Crc.Crc16;
    assert foot'[2] == foot[2] && foot'[3] == foot[3];
    if q + 1 < n {
      BodyChange(head, body, body', q);
    } else if q + 1 == n {
      LastByteFails(head, body, foot, body', foot');
    } else {
      assert body' == body;
      if foot'[0] == foot[0] && foot'[1] == foot[1] {
        assert false;
      }
    }
  }

  /** Behind the checksum, either a closing magic byte has changed, or the checksum has. */
  lemma FooterFails(head: bytes, body: bytes, foot: bytes, body': bytes, foot': bytes, q: nat)
    requires foot == Footer(head + body)
    requires Differ(body, foot, body', foot', q)
    ensures foot'[2] != 0xFA || foot'[3] != 0xDE || foot'[0] as int + 0x100 * foot'[1] as int != Crc.Crc16(0, head + body')
  {
    FooterHoldsCrc(head + body);
    hide Footer, Crc.Crc16;
    if q <= |body| {
      ChecksumFails(head, body, foot, body', foot', q);
    } else if foot'[2] == 0xFA && foot'[3] == 0xDE {
      assert body' == body && foot'[0] == foot[0];
      if foot'[1] == foot[1] {
        assert false;
      }
    }
  }

  /**
   * A frame with a change confined to two adjacent bytes of message, checksum or closing magic bytes is refused as
   * undecodable, and exactly that frame is consumed.
   */
  lemma DamageDetected(d: MsgDesc, noise: bytes, body: bytes, damaged: bytes, p: nat, t: bytes)
    requires Quiet(noise) && |body| <= SECIL_MESSAGE_SIZE
    requires DamagedAt(damaged, Frame(body), p) && 4 <= p <= |body| + 6
    ensures ReceiveOne(d, noise + (damaged + t)) == Received(DECODE_FAILED, DefaultStruct(d), t)
  {
    hide *;
    LengthFits(body);
    var head, n := Header(|body|), |body|;
    var foot := Footer(head + body);
    SameLengths(damaged, Frame(body), p);
    var body', foot' := damaged[4..n + 4], damaged[n + 4..];
    FrameParts(body);
    HeaderLength(n);
    HeadKept(damaged, head, body + foot, p);
    Shifted(damaged, Frame(body), head, body' + foot', body + foot, p);
    DamagedParts(body, foot, body', foot', p - 4);
    FooterFails(head, body, foot, body', foot', p - 4);
    ConcatAssociative(head, body' + foot', t);
    CheckParts(d, head, body', foot');
    TailIsChecked(d, noise, head, body' + foot', t);
  }

  lemma SameLengths(damaged: bytes, frame: bytes, p: nat)
    requires DamagedAt(damaged, frame, p)
    ensures |damaged| == |frame|
  {
  }

  lemma HeadKept(damaged: bytes, head: bytes, b: bytes, p: nat)
    requires |head| == 4 && DamagedAt(damaged, head + b, p) && p >= 4
    ensures damaged == head + damaged[4..]
  {
    assert forall k :: 0 <= k < 4 ==> damaged[k] == (head + b)[k] == head[k];
  }

  lemma Shifted(damaged: bytes, frame: bytes, head: bytes, a: bytes, b: bytes, p: nat)
    requires DamagedAt(damaged, frame, p) && p >= 4 && |head| == 4
    requires damaged == head + a && frame == head + b
    ensures DamagedAt(a, b, p - 4)
  {
    forall k | 0 <= k < |b| && k != p - 4 && k != p - 3 ensures a[k] == b[k] {
      assert a[k] == damaged[k + 4] && b[k] == frame[k + 4];
    }
  }

  /** After a damaged frame, the messages that follow are all delivered. */
  lemma DamageThenDelivery(d: MsgDesc, noise: bytes, body: bytes, damaged: bytes, p: nat, sent: seq<Sent>, last: bytes)
    requires WfDesc(d) && Quiet(noise) && |body| <= SECIL_MESSAGE_SIZE
    requires DamagedAt(damaged, Frame(body), p) && 4 <= p <= |body| + 6
    requires forall i :: 0 <= i < |sent| ==> Accepted(d, sent[i].m) && Quiet(sent[i].noise)
    requires Quiet(last)
    ensures ReceiveAll(d, noise + (damaged + Stream(d, sent, last))) == [(DECODE_FAILED, DefaultStruct(d))] + Outcomes(d, sent)
  {
    hide Accepted, BodyOf, Frame, ReceiveOne, Seen, FirstHeader, DefaultStruct;
    DamageDetected(d, noise, body, damaged, p, Stream(d, sent, last));
    AllDelivered(d, sent, last);
  }
}
