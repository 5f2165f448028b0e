/** pb_ostream_t over a buffer, or counting bytes only. */
module OutputStream {
  import opened Bytes

  /** The state of a stream and of its buffer, as a value. */
  datatype Snapshot = Snapshot(sizing: bool, data: bytes, state: nat, maxSize: nat, bytesWritten: nat)
  {
    function Room(): nat {
      if bytesWritten <= maxSize then maxSize - bytesWritten else 0
    }

    predicate Valid() {
      sizing || (bytesWritten <= maxSize && state + Room() <= |data|)
    }

    /** n more bytes can be taken. */
    predicate Fits(n: nat) {
      sizing || n <= Room()
    }
  }

  /** Exactly the bytes b were added; everything else in the buffer is as it was. */
  ghost predicate Added(s: Snapshot, b: bytes, t: Snapshot) {
    && t.Valid() && t.sizing == s.sizing && t.maxSize == s.maxSize && |t.data| == |s.data|
    && t.bytesWritten == s.bytesWritten + |b|
    && (if s.sizing then t.state == s.state && t.data == s.data
        else
          && t.state == s.state + |b| <= |s.data|
          && t.data[..t.state] == s.data[..s.state] + b
          && t.data[t.state..] == s.data[t.state..])
  }

  /** Nothing outside the room that the stream had was touched. */
  ghost predicate Confined(s: Snapshot, t: Snapshot) {
    && t.Valid() && t.sizing == s.sizing && t.maxSize == s.maxSize && |t.data| == |s.data|
    && forall k :: 0 <= k < |s.data| && (s.sizing || !(s.state <= k < s.state + s.Room())) ==> t.data[k] == s.data[k]
  }

  /**
   * The outcome of writing b (None: an error in the data): success exactly if b exists and fits, and then b was
   * added; in any case nothing outside the room was touched.
   */
  ghost predicate Outcome(s: Snapshot, ok: bool, b: Option<bytes>, t: Snapshot) {
    && (ok <==> b.Some? && s.Fits(|b.value|))
    && (ok ==> Added(s, b.value, t))
    && Confined(s, t)
  }

  /** Writing a and, if that succeeded, b is writing them joined. */
  lemma Chain(s: Snapshot, ok1: bool, a: Option<bytes>, t: Snapshot, ok2: bool, b: Option<bytes>, u: Snapshot)
    requires s.Valid() && Outcome(s, ok1, a, t)
    requires if ok1 then Outcome(t, ok2, b, u) else u == t && !ok2
    ensures Outcome(s, ok2, Join(a, b), u)
  {
    if ok1 && ok2 && !s.sizing {
      var n := u.state;
      assert u.data[..n] == s.data[..s.state] + (a.value + b.value);
      assert u.data[n..] == t.data[n..];
      assert t.data[n..] == t.data[t.state..][|b.value|..];
      assert s.data[n..] == s.data[t.state..][|b.value|..];
    }
  }

  class OStream {
    /** Without a callback the stream only counts. */
    const sizing: bool
    const buf: array<byte>
    /** Where in buf the next byte goes. */
    var state: nat
    var maxSize: nat
    var bytesWritten: nat

    ghost function Snap(): Snapshot
      reads this, buf
    {
      Snapshot(sizing, buf[..], state, maxSize, bytesWritten)
    }

    /** pb_ostream_from_buffer, from position `at` of a buffer on. */
    constructor FromBuffer(buffer: array<byte>, at: nat, size: nat)
      requires at + size <= buffer.Length
      ensures buf == buffer && Snap() == Snapshot(false, buffer[..], at, size, 0)
    {
      sizing, buf, state, maxSize, bytesWritten := false, buffer, at, size, 0;
    }

    /** PB_OSTREAM_SIZING */
    constructor Sizing()
      ensures fresh(buf) && Snap() == Snapshot(true, [], 0, 0, 0)
    {
      sizing, state, maxSize, bytesWritten := true, 0, 0, 0;
      buf := new byte[0];
    }

    /** pb_write; a sizing stream need not be given the bytes. */
    method Write(src: bytes, count: nat) returns (ok: bool)
      requires Snap().Valid() && (!sizing ==> |src| == count)
      modifies this`state, this`bytesWritten, buf
      ensures |src| == count ==> Outcome(old(Snap()), ok, Some(src), Snap())
      ensures sizing ==> ok && Snap() == old(Snap()).(bytesWritten := old(bytesWritten) + count)
    {
      if count > 0 && !sizing {
        if bytesWritten + count > maxSize {
          return false;
        }
        forall k | 0 <= k < count {
          buf[state + k] := src[k];
        }
        assert buf[..state + count] == old(buf[..state]) + src;
        assert buf[state + count..] == old(buf[state + count..]);
        state := state + count;
      }
      bytesWritten := bytesWritten + count;
      if |src| == count && !sizing {
        assert count == 0 ==> src == [] && buf[..] == old(buf[..]);
        assert buf[..][..state] == buf[..state] && buf[..][state..] == buf[state..];
      }
      return true;
    }
  }
}
