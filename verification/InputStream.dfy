/** pb_istream_t over a buffer, which nobody writes to while it is read. */
module InputStream {
  import opened Bytes
  import V = Varint

  class IStream {
    const buf: bytes
    var state: nat
    var bytesLeft: nat

    ghost predicate Valid()
      reads this
    {
      state + bytesLeft <= |buf|
    }

    /** The bytes that may still be read. */
    ghost function Rest(): (r: bytes)
      requires Valid()
      reads this
      ensures |r| == bytesLeft
    {
      buf[state..state + bytesLeft]
    }

    /** The end of the readable part, which no reading moves or passes. */
    ghost function End(): nat
      reads this
    {
      state + bytesLeft
    }

    /** pb_istream_from_buffer, from position `at` of a buffer on. */
    constructor FromBuffer(buffer: bytes, at: nat, length: nat)
      requires at + length <= |buffer|
      ensures buf == buffer && state == at && bytesLeft == length && Valid()
    {
      buf, state, bytesLeft := buffer, at, length;
    }

    /** pb_read; what the caller gives no buffer for is read past. */
    method Read(count: nat) returns (ok: bool, data: bytes)
      requires Valid()
      modifies this
      ensures Valid() && End() == old(End())
      ensures ok <==> count <= old(bytesLeft)
      ensures ok ==> data == old(Rest())[..count] && Rest() == old(Rest())[count..]
      ensures !ok ==> state == old(state)
    {
      if count == 0 {
        return true, [];
      }
      if bytesLeft < count {
        return false, [];
      }
      data := buf[state..state + count];
      state := state + count;
      bytesLeft := bytesLeft - count;
      ok := true;
    }

    /** pb_readbyte */
    method ReadByte() returns (ok: bool, b: byte)
      requires Valid()
      modifies this
      ensures Valid() && End() == old(End())
      ensures ok <==> old(Rest()) != []
      ensures ok ==> b == old(Rest())[0] && Rest() == old(Rest())[1..]
      ensures ok ==> b == buf[old(state)] && state == old(state) + 1
      ensures !ok ==> state == old(state)
    {
      if bytesLeft == 0 {
        return false, 0;
      }
      b := buf[state];
      state := state + 1;
      bytesLeft := bytesLeft - 1;
      ok := true;
    }

    /**
     * pb_make_string_substream: reads a length and hands that many bytes over to a stream of their own.
     * The parent keeps its place behind the length and gives up the right to those bytes.
     */
    method MakeSubstream() returns (ok: bool, substream: IStream)
      requires Valid()
      modifies this
      ensures Valid() && End() <= old(End()) && (!ok ==> End() == old(End()))
      ensures ok <==> V.ReadVarint32(old(Rest())).Ok? && V.ReadVarint32(old(Rest())).value <= |V.ReadVarint32(old(Rest())).rest|
      ensures ok ==>
        && fresh(substream) && substream.buf == buf && substream.Valid()
        && substream.state == state && substream.bytesLeft == V.ReadVarint32(old(Rest())).value
        && substream.End() + bytesLeft == old(End())
        && substream.End() + bytesLeft <= |buf| && state + |V.ReadVarint32(old(Rest())).rest| == old(End())
      ensures ok ==>
        && substream.Rest() == V.ReadVarint32(old(Rest())).rest[..substream.bytesLeft]
        && buf[substream.End()..old(End())] == V.ReadVarint32(old(Rest())).rest[substream.bytesLeft..]
    {
      hide V.ReadVarint32;
      var size;
      ok, size := DecodeVarint32();
      substream := new IStream.FromBuffer(buf, state, bytesLeft);
      if ok {
        if substream.bytesLeft < size {
          return false, substream;
        }
        substream.bytesLeft := size;
        bytesLeft := bytesLeft - size;
      }
    }

    /** pb_close_string_substream: whatever is unread is read past, and the parent goes on behind it. */
    method CloseSubstream(substream: IStream) returns (ok: bool)
      requires Valid() && substream != this && substream.buf == buf && substream.Valid()
      requires substream.End() + bytesLeft <= |buf|
      modifies this, substream
      ensures ok && Valid() && bytesLeft == old(bytesLeft)
      ensures state == old(substream.End()) && End() == old(substream.End()) + bytesLeft
      ensures Rest() == buf[old(substream.End())..End()]
    {
      if substream.bytesLeft > 0 {
        var skipped, _ := substream.Read(substream.bytesLeft);
        if !skipped {
          return false;
        }
      }
      state := substream.state;
      ok := true;
    }

    /** pb_decode_varint: at most ten bytes, of the tenth only the lowest bit. */
    method DecodeVarint() returns (ok: bool, dest: nat)
      requires Valid()
      modifies this
      ensures Valid() && End() == old(End()) && state >= old(state)
      ensures ok <==> V.ReadVarint64(old(Rest())).Ok?
      ensures ok ==> V.ReadVarint64(old(Rest())) == Ok(dest, Rest())
    {
      ghost var s, k := Rest(), 0;
      hide V.ReadVarint64, V.Continues, V.GroupValue, V.ShiftLeft;
      var bitpos: nat := 0;
      var result: nat := 0;
      while true
        invariant Valid() && End() == old(End()) && state == old(state) + k
        invariant k <= |s| && k <= 9 && bitpos == 7 * k && Rest() == s[k..]
        invariant V.Continues(s[..k]) && result == V.GroupValue(s[..k])
        decreases bytesLeft
      {
        var more, b := ReadByte();
        if !more {
          V.RunsOut(s, k);
          return false, 0;
        }
        V.NextByte64(s, k);
        if bitpos >= 63 && b / 2 != 0 {
          return false, 0;
        }
        result := result + V.ShiftLeft(b % 0x80, bitpos);
        bitpos := bitpos + 7;
        k := k + 1;
        if b < 0x80 {
          return true, result;
        }
      }
    }

    /** pb_decode_varint32: bytes past bit 31 are checked to be zeros or a sign extension, and dropped. */
    method DecodeVarint32() returns (ok: bool, dest: nat)
      requires Valid()
      modifies this
      ensures Valid() && End() == old(End()) && state >= old(state)
      ensures ok <==> V.ReadVarint32(old(Rest())).Ok?
      ensures ok ==> V.ReadVarint32(old(Rest())) == Ok(dest, Rest())
    {
      ghost var s, k := Rest(), 1;
      hide V.ReadVarint32, V.Continues, V.Accepts32, V.Low32, V.ShiftLeft, V.Fits32, V.FifthByteFits;
      var more, b := ReadByte();
      if !more {
        V.RunsOut(s, 0);
        return false, 0;
      }
      V.FirstByte32(s);
      var result: nat := b % 0x80;
      if b >= 0x80 {
        var bitpos: nat := 7;
        while b >= 0x80
          invariant Valid() && End() == old(End()) && state == old(state) + k
          invariant 1 <= k <= |s| && bitpos == 7 * k && Rest() == s[k..]
          invariant k <= 10 && V.Accepts32(s[..k]) && result == V.Low32(s[..k])
          invariant if b >= 0x80 then V.Continues(s[..k]) else V.ReadVarint32(s) == Ok(result, s[k..])
          decreases bytesLeft
        {
          more, b := ReadByte();
          if !more {
            V.RunsOut(s, k);
            return false, 0;
          }
          V.NextByte32(s, k);
          ghost var next := V.Low32(s[..k + 1]);
          if bitpos >= 32 {
            var signExtension := if bitpos < 63 then 0xFF else 0x01;
            var validExtension := b % 0x80 == 0 || (result / 0x8000_0000 != 0 && b == signExtension);
            if bitpos >= 64 || !validExtension {
              return false, 0;
            }
            assert result == next;
          } else if bitpos == 28 {
            if b / 0x10 % 8 != 0 && b / 8 % 0x10 != 0xF {
              return false, 0;
            }
            result := result + b as int % 0x10 * 0x1000_0000;
            assert result == next;
          } else {
            result := result + V.ShiftLeft(b % 0x80, bitpos);
            assert result == next;
          }
          bitpos := bitpos + 7;
          k := k + 1;
        }
      }
      return true, result;
    }
  }
}
