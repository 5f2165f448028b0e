/** pb_encode.c: the encoder, writing to a stream, proved against the byte strings of Wire. */
module Encoder {
  import opened Bytes
  import opened Descriptor
  import opened Wire
  import opened OutputStream
  import V = Varint
  import FieldIter

  /**
   * After i of the first four bytes: `tail` is what is left of the low word, `scaled` is the high word in
   * the place it has moved to, and `rest` is the number still to be written.
   */
  ghost predicate LowPhase(i: nat, tail: nat, high: nat, scaled: nat, rest: nat) {
    && (i == 0 ==> scaled == 0x1_0000_0000 * high && tail < 0x1_0000_0000)
    && (i == 1 ==> scaled == 0x200_0000 * high && tail < 0x200_0000)
    && (i == 2 ==> scaled == 0x4_0000 * high && tail < 0x4_0000)
    && (i == 3 ==> scaled == 0x800 * high && tail < 0x800)
    && (i == 4 ==> scaled == 0x10 * high && tail < 0x10)
    && i <= 4
    && rest == tail + scaled
  }

  lemma LowStart(low: nat, high: nat) returns (scaled: nat, rest: nat)
    requires low < TWO_32
    ensures rest == low + 0x1_0000_0000 * high
    ensures LowPhase(0, low, high, scaled, rest)
  {
    scaled := 0x1_0000_0000 * high;
    rest := low + scaled;
  }

  /** Writing the low digit b of the tail moves everything seven bits down. */
  lemma LowDigit(i: nat, b: nat, low: nat, high: nat, scaled: nat, rest: nat) returns (scaled': nat, rest': nat)
    requires LowPhase(i, b + 0x80 * low, high, scaled, rest) && i < 4 && b < 0x80 && (low != 0 || high != 0)
    ensures LowPhase(i + 1, low, high, scaled', rest')
    ensures V.VarintBytes(rest) == [b + 0x80] + V.VarintBytes(rest')
  {
    scaled' := if i == 0 then 0x200_0000 * high else if i == 1 then 0x4_0000 * high else if i == 2 then 0x800 * high else 0x10 * high;
    rest' := low + scaled';
    VarintStep(b, rest');
  }

  lemma LowDone(i: nat, b: nat, low: nat, high: nat, scaled: nat, rest: nat)
    requires LowPhase(i, b + 0x80 * low, high, scaled, rest) && !(i < 4 && (low != 0 || high != 0))
    ensures if high == 0 then rest == b else i == 4 && b < 0x10 && rest == b + 0x10 * high
  {
  }

  lemma Recompose(x: nat)
    ensures x % 0x80 + 0x80 * (x / 0x80) == x
  {
  }

  /** How large the rest of the high word can be when i bytes have been written. */
  ghost predicate HighPhase(i: nat, high: nat) {
    && 4 <= i <= 9
    && (i == 4 ==> high < 0x2000_0000)
    && (i == 5 ==> high < 0x40_0000)
    && (i == 6 ==> high < 0x8000)
    && (i == 7 ==> high < 0x100)
    && (i == 8 ==> high < 2)
    && (i == 9 ==> high == 0)
  }

  lemma HighStart(b: nat, high: nat)
    requires b < 0x10 && high < 0x1_0000_0000
    ensures HighPhase(4, high / 8)
    ensures b + high % 8 * 0x10 < 0x80
    ensures b + high % 8 * 0x10 + 0x80 * (high / 8) == b + 0x10 * high
  {
  }

  lemma HighDigit(i: nat, high: nat)
    requires HighPhase(i, high) && high != 0
    ensures 4 <= i < 9 && HighPhase(i + 1, high / 0x80)
  {
  }

  lemma VarintStep(b: nat, rest: nat)
    requires b < 0x80 && rest > 0
    ensures V.VarintBytes(b + 0x80 * rest) == [b + 0x80] + V.VarintBytes(rest)
  {
    assert (b + 0x80 * rest) % 0x80 == b && (b + 0x80 * rest) / 0x80 == rest;
  }

  /** The first i bytes of `all` are in the buffer, the rest of it is the varint of `rest`. */
  ghost predicate Progressed(buffer: seq<byte>, i: nat, all: bytes, rest: nat) {
    && i <= |all| && i <= |buffer|
    && buffer[..i] == all[..i]
    && all[i..] == V.VarintBytes(rest)
  }

  lemma DigitWritten(buffer: seq<byte>, i: nat, b: byte, all: bytes, rest: nat, rest': nat)
    requires Progressed(buffer, i, all, rest) && i < |buffer|
    requires V.VarintBytes(rest) == [b] + V.VarintBytes(rest')
    ensures Progressed(buffer[i := b], i + 1, all, rest')
  {
    assert all[i] == all[i..][0] == b;
    assert all[i + 1..] == all[i..][1..];
  }

  /**
   * The digits of pb_encode_varint_32: those of high * 2^32 + low, found with shifts of 32-bit words only,
   * into a buffer of ten bytes. The three low bits of `high` complete the fifth byte.
   */
  method VarintDigits(low: nat, high: nat) returns (buffer: array<byte>, i: nat)
    requires low < TWO_32 && high < TWO_32
    ensures fresh(buffer) && i <= buffer.Length == 10
    ensures buffer[..i] == V.VarintBytes(low + TWO_32 * high)
  {
    ghost var all := V.VarintBytes(low + TWO_32 * high);
    var b: nat;
    buffer := new byte[10];
    i, b := LowDigits(buffer, low, high, all);
    if high != 0 {
      i, b := HighDigits(buffer, b, high, all);
    }
    assert all[i..] == [b];
    buffer[i] := b;
    i := i + 1;
    assert buffer[..i] == all;
  }

  /** The first loop: up to four bytes, while anything is left. */
  method LowDigits(buffer: array<byte>, low_: nat, high: nat, ghost all: bytes) returns (i: nat, b: nat)
    requires buffer.Length == 10 && low_ < 0x1_0000_0000
    requires all == V.VarintBytes(low_ + 0x1_0000_0000 * high)
    modifies buffer
    ensures i <= 4 && b < 0x80
    ensures high == 0 ==> Progressed(buffer[..], i, all, b)
    ensures high != 0 ==> i == 4 && b < 0x10 && Progressed(buffer[..], 4, all, b + 0x10 * high)
  {
    ghost var scaled, rest := LowStart(low_, high);
    assert Progressed(buffer[..], 0, all, rest);
    hide *;
    var low: nat;
    ghost var tail := low_;
    Recompose(low_);
    b, low := low_ % 0x80, low_ / 0x80;
    i := 0;
    while i < 4 && (low != 0 || high != 0)
      invariant 0 <= i <= 4 && b < 0x80 && b + 0x80 * low == tail
      invariant LowPhase(i, tail, high, scaled, rest)
      invariant Progressed(buffer[..], i, all, rest)
    {
      ghost var rest' := rest;
      scaled, rest := LowDigit(i, b, low, high, scaled, rest);
      DigitWritten(buffer[..], i, b + 0x80, all, rest', rest);
      buffer[i] := b + 0x80;
      i := i + 1;
      tail := low;
      Recompose(low);
      b, low := low % 0x80, low / 0x80;
    }
    LowDone(i, b, low, high, scaled, rest);
  }

  /** The second loop: four bytes are written, four bits of the low word are left in `b_`. */
  method HighDigits(buffer: array<byte>, b_: nat, high_: nat, ghost all: bytes) returns (i: nat, b: nat)
    requires buffer.Length == 10 && b_ < 0x10 && 0 < high_ < 0x1_0000_0000
    requires Progressed(buffer[..], 4, all, b_ + 0x10 * high_)
    modifies buffer
    ensures i < 10 && b < 0x80
    ensures Progressed(buffer[..], i, all, b)
  {
    hide *;
    ghost var rest := b_ + 0x10 * high_;
    HighStart(b_, high_);
    b := b_ + high_ % 8 * 0x10;
    var high: nat := high_ / 8;
    i := 4;
    while high != 0
      invariant i <= 9 && b < 0x80
      invariant HighPhase(i, high)
      invariant rest == b + 0x80 * high
      invariant Progressed(buffer[..], i, all, rest)
    {
      HighDigit(i, high);
      VarintStep(b, high);
      DigitWritten(buffer[..], i, b + 0x80, all, rest, high);
      rest := high;
      buffer[i] := b + 0x80;
      i := i + 1;
      Recompose(high);
      b, high := high % 0x80, high / 0x80;
    }
  }

  /** pb_encode_varint_32 */
  method EncodeVarint32(stream: OStream, low: nat, high: nat) returns (ok: bool)
    requires stream.Snap().Valid() && low < TWO_32 && high < TWO_32
    modifies stream, stream.buf
    ensures Outcome(old(stream.Snap()), ok, Some(V.VarintBytes(low + TWO_32 * high)), stream.Snap())
  {
    var buffer, i := VarintDigits(low, high);
    hide *;
    var digits := buffer[..i];
    assert stream.Snap() == old(stream.Snap());
    ok := stream.Write(digits, i);
  }

  method EncodeVarint(stream: OStream, value: nat) returns (ok: bool)
    requires stream.Snap().Valid() && value < TWO_64
    modifies stream, stream.buf
    ensures Outcome(old(stream.Snap()), ok, Some(V.VarintBytes(value)), stream.Snap())
  {
    hide Outcome;
    if value <= 0x7F {
      ok := stream.Write([value], 1);
    } else {
      ok := EncodeVarint32(stream, value % TWO_32, value / TWO_32);
    }
  }

  method EncodeSvarint(stream: OStream, value: int) returns (ok: bool)
    requires stream.Snap().Valid() && -0x8000_0000_0000_0000 <= value < 0x8000_0000_0000_0000
    modifies stream, stream.buf
    ensures Outcome(old(stream.Snap()), ok, Some(V.VarintBytes(V.ZigZag(value))), stream.Snap())
  {
    var zigzagged :=
      if value < 0 then TWO_64 - 1 - V.ToUnsigned64(value) % 0x8000_0000_0000_0000 * 2
      else value * 2;
    hide Outcome;
    ok := EncodeVarint(stream, zigzagged);
  }

  method EncodeTag(stream: OStream, wireType: nat, tag: nat) returns (ok: bool)
    requires stream.Snap().Valid() && wireType < 8 && tag < 0x1_0000
    modifies stream, stream.buf
    ensures Outcome(old(stream.Snap()), ok, Some(TagBytes(tag, wireType)), stream.Snap())
  {
    hide Outcome;
    ok := EncodeVarint(stream, 8 * tag + wireType);
  }

  /** pb_encode_string */
  method EncodeString(stream: OStream, content: bytes) returns (ok: bool)
    requires stream.Snap().Valid()
    modifies stream, stream.buf
    ensures Outcome(old(stream.Snap()), ok, Some(Delimited(content)), stream.Snap())
  {
    ghost var s := stream.Snap();
    ok := EncodeVarint(stream, |content| % TWO_64);
    ghost var ok1, t := ok, stream.Snap();
    hide Outcome;
    if ok {
      StaysValid(s, ok, Some(V.VarintBytes(|content| % TWO_64)), t);
      ok := stream.Write(content, |content|);
    }
    Chain(s, ok1, Some(V.VarintBytes(|content| % TWO_64)), t, ok, Some(content), stream.Snap());
  }

  lemma StaysValid(s: Snapshot, ok: bool, b: Option<bytes>, t: Snapshot)
    requires Outcome(s, ok, b, t)
    ensures t.Valid() && t.sizing == s.sizing
  {
  }

  // ---- one item ------------------------------------------------------------------

  /** pb_enc_bool and pb_enc_varint */
  method EncVarint(stream: OStream, t: LType, dataSize: nat, v: Value) returns (ok: bool)
    requires stream.Snap().Valid()
    requires t.Bool? || t.Varint? || t.UVarint? || t.SVarint?
    requires ItemOk(t, dataSize, v)
    modifies stream, stream.buf
    ensures Outcome(old(stream.Snap()), ok, EncodeItem(t, dataSize, v), stream.Snap())
  {
    hide Outcome;
    if t.SVarint? {
      ok := EncodeSvarint(stream, v.i);
    } else if t.Varint? {
      ok := EncodeVarint(stream, V.ToUnsigned64(v.i));
    } else {
      ok := EncodeVarint(stream, v.i);
    }
  }

  /** pb_enc_fixed, the four or eight bytes as they stand in memory on a little-endian machine. */
  method EncFixed(stream: OStream, t: LType, v: Value) returns (ok: bool)
    requires stream.Snap().Valid()
    requires (t.Fixed32? && ItemOk(t, 4, v)) || (t.Fixed64? && ItemOk(t, 8, v))
    modifies stream, stream.buf
    ensures Outcome(old(stream.Snap()), ok, EncodeItem(t, if t.Fixed32? then 4 else 8, v), stream.Snap())
  {
    hide Outcome;
    var n := if t.Fixed32? then 4 else 8;
    ok := stream.Write(LittleEndian(v.i, n), n);
  }

  /** pb_enc_string: the length is found byte by byte; a buffer without a terminator is refused. */
  method EncString(stream: OStream, dataSize: nat, b: bytes) returns (ok: bool)
    requires stream.Snap().Valid() && |b| <= dataSize < 0x1_0000
    modifies stream, stream.buf
    ensures Outcome(old(stream.Snap()), ok, EncodeItem(String, dataSize, VBytes(b)), stream.Snap())
  {
    ghost var s := stream.Snap();
    if dataSize == 0 {
      Refused(s);
      return false;
    }
    var maxSize := dataSize - 1;
    var size := 0;
    while size < maxSize && size < |b| && b[size] != 0
      invariant 0 <= size <= maxSize && size <= |b|
      invariant 0 !in b[..size]
    {
      size := size + 1;
    }
    TextIs(b, size);
    if size < |b| && b[size] != 0 {
      Refused(s);
      return false;
    }
    hide Outcome;
    ok := EncodeString(stream, b[..size]);
  }

  lemma Refused(s: Snapshot)
    requires s.Valid()
    ensures Outcome(s, false, None, s)
  {
  }

  /** The text is the first part without zeros that is followed by a zero or by nothing. */
  lemma {:induction false} TextIs(b: bytes, n: nat)
    requires n <= |b| && 0 !in b[..n]
    ensures n <= |Text(b)|
    ensures n == |b| || b[n] == 0 ==> Text(b) == b[..n]
    ensures n < |b| && b[n] != 0 ==> |Text(b)| > n
    decreases n
  {
    if n > 0 {
      assert b[0] == b[..n][0];
      assert b[1..][..n - 1] == b[..n][1..];
      TextIs(b[1..], n - 1);
      assert b[..n] == [b[0]] + b[1..][..n - 1];
    }
  }

  /**
   * pb_encode_submessage: the message is encoded once into a counting stream and once for real, into a stream
   * with exactly that much room; "submsg size changed" cannot happen, and neither can a failure of the second pass.
   */
  method EncodeSubmessage(stream: OStream, d: MsgDesc, m: Slots) returns (ok: bool)
    requires stream.Snap().Valid() && WfDesc(d) && StructOk(d, m)
    modifies stream, stream.buf
    ensures Outcome(old(stream.Snap()), ok, Wire.EncodeDelimited(d, m), stream.Snap())
    decreases d, 8
  {
    ghost var s, content := stream.Snap(), EncodeStruct(d, m);
    var substream := new OStream.Sizing();
    var counted := Encode(substream, d, m);
    hide EncodeStruct, StructOk, WfDesc;
    if !counted {
      Refused(s);
      return false;
    }
    var size := substream.bytesWritten;
    ok := EncodeVarint(stream, size % TWO_64);
    ghost var t := stream.Snap();
    if !ok {
      Chain(s, false, Some(V.VarintBytes(size % TWO_64)), t, false, content, t);
      return;
    }
    if stream.sizing {
      ok := stream.Write([], size);
    } else if stream.bytesWritten + size > stream.maxSize {
      ok := false;
    } else {
      substream := new OStream.FromBuffer(stream.buf, stream.state, size);
      ghost var u := substream.Snap();
      var status := Encode(substream, d, m);
      stream.bytesWritten := stream.bytesWritten + substream.bytesWritten;
      stream.state := substream.state;
      ok := status && substream.bytesWritten == size;
    }
    Chain(s, true, Some(V.VarintBytes(size % TWO_64)), t, ok, content, stream.Snap());
  }

  // ---- fields ------------------------------------------------------------------------

  /** encode_basic_field */
  method EncodeBasicField(stream: OStream, f: FieldDesc, v: Value) returns (ok: bool)
    requires stream.Snap().Valid() && WfField(f) && ItemOk(f.ltype, f.dataSize, v)
    modifies stream, stream.buf
    ensures Outcome(old(stream.Snap()), ok,
      Join(Some(TagBytes(f.tag, WireType(f.ltype))), EncodeItem(f.ltype, f.dataSize, v)), stream.Snap())
    decreases f, 2
  {
    ghost var s, tag, item := stream.Snap(), Some(TagBytes(f.tag, WireType(f.ltype))), EncodeItem(f.ltype, f.dataSize, v);
    ok := EncodeTag(stream, WireType(f.ltype), f.tag);
    ghost var ok1, t := ok, stream.Snap();
    if ok {
      StaysValid(s, ok, tag, t);
      ok := EncodeContent(stream, f, v);
    }
    hide *;
    Chain(s, ok1, tag, t, ok, item, stream.Snap());
  }

  /** The switch on the type in encode_basic_field. */
  method EncodeContent(stream: OStream, f: FieldDesc, v: Value) returns (ok: bool)
    requires stream.Snap().Valid() && WfField(f) && ItemOk(f.ltype, f.dataSize, v)
    modifies stream, stream.buf
    ensures Outcome(old(stream.Snap()), ok, EncodeItem(f.ltype, f.dataSize, v), stream.Snap())
    decreases f, 1
  {
    hide Outcome, EncodeStruct, StructOk, WfDesc, Text;
    match f.ltype
    case Fixed32 => ok := EncFixed(stream, f.ltype, v);
    case Fixed64 => ok := EncFixed(stream, f.ltype, v);
    case ByteArray =>
      if |v.b| + 2 > f.dataSize {
        Refused(stream.Snap());
        return false;
      }
      ok := EncodeString(stream, v.b);
    case String => ok := EncString(stream, f.dataSize, v.b);
    case FixedBytes => ok := EncodeString(stream, v.b);
    case Submessage(d) => ok := EncodeSubmessage(stream, d, v.slots);
    case _ => ok := EncVarint(stream, f.ltype, f.dataSize, v);
  }

  lemma JoinAssociative(a: Option<bytes>, b: Option<bytes>, c: Option<bytes>)
    ensures Join(Join(a, b), c) == Join(a, Join(b, c))
  {
    if a.Some? && b.Some? && c.Some? {
      assert a.value + b.value + c.value == a.value + (b.value + c.value);
    }
  }

  /** Nothing written, successfully. */
  lemma NothingWritten(s: Snapshot)
    requires s.Valid()
    ensures Outcome(s, true, Some([]), s)
  {
    assert !s.sizing ==> s.data[..s.state] == s.data[..s.state] + [];
  }

  /** One more part of a list: what was done, this part, and what is still to come make up the whole. */
  lemma Continue(s: Snapshot, done: bytes, t: Snapshot, ok: bool, part: Option<bytes>, u: Snapshot,
                 todo: Option<bytes>, all: Option<bytes>)
    requires s.Valid() && Outcome(s, true, Some(done), t) && Outcome(t, ok, part, u)
    requires all == Join(Some(done), Join(part, todo))
    ensures ok ==> part.Some? && Outcome(s, true, Some(done + part.value), u) && all == Join(Some(done + part.value), todo)
    ensures !ok ==> Outcome(s, false, all, u)
  {
    Chain(s, true, Some(done), t, ok, part, u);
    JoinAssociative(Some(done), part, todo);
    if !ok {
      Chain(s, false, Join(Some(done), part), u, false, todo, u);
    }
  }

  /** The loops of encode_array over packed items. */
  method EncodeBareItems(stream: OStream, f: FieldDesc, items: seq<Value>) returns (ok: bool)
    requires stream.Snap().Valid() && WfField(f) && f.ltype.Packable()
    requires forall k :: 0 <= k < |items| ==> ItemOk(f.ltype, f.dataSize, items[k])
    modifies stream, stream.buf
    ensures Outcome(old(stream.Snap()), ok, EncodeBare(f, items), stream.Snap())
    decreases f, 2
  {
    ghost var s, all, done: bytes := stream.Snap(), EncodeBare(f, items), [];
    NothingWritten(s);
    assert items[0..] == items;
    JoinEmpty(all);
    var i := 0;
    while i < |items|
      invariant 0 <= i <= |items|
      invariant Outcome(s, true, Some(done), stream.Snap())
      invariant all == Join(Some(done), EncodeBare(f, items[i..]))
    {
      ghost var t, part, todo := stream.Snap(), EncodeItem(f.ltype, f.dataSize, items[i]), EncodeBare(f, items[i + 1..]);
      assert EncodeBare(f, items[i..]) == Join(part, todo) by {
        assert items[i..][0] == items[i] && items[i..][1..] == items[i + 1..];
      }
      StaysValid(s, true, Some(done), t);
      hide Outcome, EncodeBare, ItemOk;
      ok := EncodeContent(stream, f, items[i]);
      Continue(s, done, t, ok, part, stream.Snap(), todo, all);
      if !ok {
        return;
      }
      done := done + part.value;
      i := i + 1;
    }
    assert items[i..] == [];
    JoinEmptyRight(done);
    return true;
  }

  lemma JoinEmpty(a: Option<bytes>)
    ensures Join(Some([]), a) == a
  {
    assert a.Some? ==> [] + a.value == a.value;
  }

  lemma JoinEmptyRight(a: bytes)
    ensures Join(Some(a), Some([])) == Some(a)
  {
    assert a + [] == a;
  }

  /** The loop of encode_array over items with tags of their own. */
  method EncodeTaggedItems(stream: OStream, f: FieldDesc, items: seq<Value>) returns (ok: bool)
    requires stream.Snap().Valid() && WfField(f)
    requires forall k :: 0 <= k < |items| ==> ItemOk(f.ltype, f.dataSize, items[k])
    modifies stream, stream.buf
    ensures Outcome(old(stream.Snap()), ok, EncodeTagged(f, items), stream.Snap())
    decreases f, 3
  {
    ghost var s, all, done: bytes := stream.Snap(), EncodeTagged(f, items), [];
    NothingWritten(s);
    assert items[0..] == items;
    JoinEmpty(all);
    var i := 0;
    while i < |items|
      invariant 0 <= i <= |items|
      invariant Outcome(s, true, Some(done), stream.Snap())
      invariant all == Join(Some(done), EncodeTagged(f, items[i..]))
    {
      ghost var t, todo := stream.Snap(), EncodeTagged(f, items[i + 1..]);
      ghost var part := Join(Some(TagBytes(f.tag, WireType(f.ltype))), EncodeItem(f.ltype, f.dataSize, items[i]));
      assert EncodeTagged(f, items[i..]) == Join(part, todo) by {
        assert items[i..][0] == items[i] && items[i..][1..] == items[i + 1..];
      }
      StaysValid(s, true, Some(done), t);
      hide Outcome, EncodeTagged, ItemOk;
      ok := EncodeBasicField(stream, f, items[i]);
      Continue(s, done, t, ok, part, stream.Snap(), todo, all);
      if !ok {
        return;
      }
      done := done + part.value;
      i := i + 1;
    }
    assert items[i..] == [];
    JoinEmptyRight(done);
    return true;
  }

  /** How many bytes the packed items take: known for fixed widths, otherwise counted by encoding them once. */
  method PackedSize(f: FieldDesc, items: seq<Value>) returns (size: nat)
    requires WfField(f) && f.ltype.Packable()
    requires forall k :: 0 <= k < |items| ==> ItemOk(f.ltype, f.dataSize, items[k])
    ensures EncodeBare(f, items).Some? && |EncodeBare(f, items).value| == size
    decreases f, 3
  {
    BareExists(f, items);
    if f.ltype.Fixed32? {
      size := 4 * |items|;
    } else if f.ltype.Fixed64? {
      size := 8 * |items|;
    } else {
      var sizestream := new OStream.Sizing();
      var ok := EncodeBareItems(sizestream, f, items);
      size := sizestream.bytesWritten;
    }
  }

  lemma {:induction false} BareExists(f: FieldDesc, items: seq<Value>)
    requires f.ltype.Packable()
    requires forall k :: 0 <= k < |items| ==> ItemOk(f.ltype, f.dataSize, items[k])
    ensures EncodeBare(f, items).Some?
    ensures f.ltype.Fixed32? ==> |EncodeBare(f, items).value| == 4 * |items|
    ensures f.ltype.Fixed64? ==> |EncodeBare(f, items).value| == 8 * |items|
  {
    if items != [] {
      assert EncodeItem(f.ltype, f.dataSize, items[0]).Some?;
      BareExists(f, items[1..]);
    }
  }

  /** encode_array: tag, length and items of a packed array; or the items one by one. */
  method EncodeArray(stream: OStream, f: FieldDesc, items: seq<Value>) returns (ok: bool)
    requires stream.Snap().Valid() && WfField(f) && f.htype.Repeated? && SlotOk(f, items)
    modifies stream, stream.buf
    ensures Outcome(old(stream.Snap()), ok, EncodeField(f, items), stream.Snap())
    decreases f, 4
  {
    ghost var s := stream.Snap();
    if |items| == 0 {
      NothingWritten(s);
      return true;
    }
    if |items| > f.arraySize {
      Refused(s);
      return false;
    }
    if !f.ltype.Packable() {
      ok := EncodeTaggedItems(stream, f, items);
      return;
    }
    ghost var tag, content := Some(TagBytes(f.tag, WT_STRING)), EncodeBare(f, items);
    ok := EncodeTag(stream, WT_STRING, f.tag);
    ghost var ok1, t := ok, stream.Snap();
    var size := PackedSize(f, items);
    ghost var length := Some(V.VarintBytes(size % TWO_64));
    hide SlotOk, EncodeField, EncodeBare, EncodeItem, ItemOk;
    if !ok {
      Chain(s, false, tag, t, false, Join(length, content), t);
      return;
    }
    StaysValid(s, ok, tag, t);
    ok := EncodeVarint(stream, size % TWO_64);
    ghost var ok2, u := ok, stream.Snap();
    if ok {
      StaysValid(t, ok, length, u);
      if stream.sizing {
        ok := stream.Write([], size);
      } else {
        ok := EncodeBareItems(stream, f, items);
      }
    }
    hide Outcome;
    Chain(t, ok2, length, u, ok, content, stream.Snap());
    Chain(s, true, tag, t, ok, Join(length, content), stream.Snap());
  }

  /** encode_field for static fields: the oneof member that is not set and the unset optional write nothing. */
  method EncodeOneField(stream: OStream, f: FieldDesc, slot: seq<Value>) returns (ok: bool)
    requires stream.Snap().Valid() && WfField(f) && SlotOk(f, slot)
    modifies stream, stream.buf
    ensures Outcome(old(stream.Snap()), ok, EncodeField(f, slot), stream.Snap())
    decreases f, 5
  {
    if (f.htype.Oneof? || f.htype.Optional?) && slot == [] {
      NothingWritten(stream.Snap());
      return true;
    }
    if f.htype.Repeated? {
      ok := EncodeArray(stream, f, slot);
    } else {
      assert slot == [slot[0]];
      SingleItem(f, slot[0]);
      hide SlotOk, EncodeField, EncodeItem, ItemOk, Outcome, TagBytes;
      ok := EncodeBasicField(stream, f, slot[0]);
    }
  }

  /** pb_encode: one field after the other, as the iterator gives them. */
  method Encode(stream: OStream, d: MsgDesc, m: Slots) returns (ok: bool)
    requires stream.Snap().Valid() && WfDesc(d) && StructOk(d, m)
    modifies stream, stream.buf
    ensures Outcome(old(stream.Snap()), ok, EncodeStruct(d, m), stream.Snap())
    decreases d, 7
  {
    ghost var s, all, done: bytes := stream.Snap(), EncodeStruct(d, m), [];
    NothingWritten(s);
    var iter := new FieldIter.Iter(d);
    if |d.fields| == 0 {
      return true;
    }
    JoinEmpty(all);
    var more := true;
    while more
      invariant iter.desc == d && (more ==> iter.AtField())
      invariant Outcome(s, true, Some(done), stream.Snap())
      invariant all == Join(Some(done), if more then EncodeFrom(d, m, iter.index) else Some([]))
      decreases if more then |d.fields| - iter.index else 0
    {
      var i := iter.index;
      var f := iter.Current();
      assert WfField(f) && SlotOk(f, m[i]);
      ghost var t, part, todo := stream.Snap(), EncodeField(f, m[i]), EncodeFrom(d, m, i + 1);
      StaysValid(s, true, Some(done), t);
      assert EncodeFrom(d, m, i) == Join(part, todo);
      hide Outcome, EncodeField, EncodeFrom, SlotOk, WfField;
      ok := EncodeOneField(stream, f, m[i]);
      Continue(s, done, t, ok, part, stream.Snap(), todo, all);
      if !ok {
        return;
      }
      done := done + part.value;
      more := iter.Next();
    }
    JoinEmptyRight(done);
    return true;
  }

  /** pb_encode_ex with PB_ENCODE_DELIMITED. */
  method EncodeDelimited(stream: OStream, d: MsgDesc, m: Slots) returns (ok: bool)
    requires stream.Snap().Valid() && WfDesc(d) && StructOk(d, m)
    modifies stream, stream.buf
    ensures Outcome(old(stream.Snap()), ok, Wire.EncodeDelimited(d, m), stream.Snap())
  {
    ok := EncodeSubmessage(stream, d, m);
  }

  /** pb_get_encoded_size: what the counting pass finds is the length of what the writing pass writes. */
  method GetEncodedSize(d: MsgDesc, m: Slots) returns (ok: bool, size: nat)
    requires WfDesc(d) && StructOk(d, m)
    ensures ok <==> EncodeStruct(d, m).Some?
    ensures ok ==> size == |EncodeStruct(d, m).value|
  {
    var stream := new OStream.Sizing();
    ok := Encode(stream, d, m);
    size := stream.bytesWritten;
  }
}
