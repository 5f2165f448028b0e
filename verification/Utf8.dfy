/** pb_validate_utf8 against the definition of UTF-8 in section 4 of RFC 3629. */
module Utf8 {
  import opened Bytes

  // ---- the definition ------------------------------------------------------------------

  /** A Unicode scalar value: any code point but the surrogates. */
  predicate Scalar(c: nat) {
    c <= 0x10FFFF && !(0xD800 <= c <= 0xDFFF)
  }

  /** The scalar values that a valid string is made of: not the terminator, and not U+FFFE or U+FFFF. */
  predicate Allowed(c: nat) {
    Scalar(c) && c != 0 && c != 0xFFFE && c != 0xFFFF
  }

  /** The one UTF-8 encoding of a scalar value. */
  function Encode(c: nat): (b: bytes)
    requires c <= 0x10FFFF
    ensures 1 <= |b| <= 4
  {
    if c < 0x80 then [c]
    else if c < 0x800 then [0xC0 + c / 0x40, 0x80 + c % 0x40]
    else if c < 0x1_0000 then [0xE0 + c / 0x1000, 0x80 + c / 0x40 % 0x40, 0x80 + c % 0x40]
    else [0xF0 + c / 0x4_0000, 0x80 + c / 0x1000 % 0x40, 0x80 + c / 0x40 % 0x40, 0x80 + c % 0x40]
  }

  predicate AllAllowed(cs: seq<nat>) {
    forall i :: 0 <= i < |cs| ==> Allowed(cs[i])
  }

  function EncodeAll(cs: seq<nat>): bytes
    requires AllAllowed(cs)
  {
    if cs == [] then [] else Encode(cs[0]) + EncodeAll(cs[1..])
  }

  ghost predicate ValidText(t: bytes) {
    exists cs: seq<nat> :: AllAllowed(cs) && EncodeAll(cs) == t
  }

  // ---- one character --------------------------------------------------------------------

  /** A byte of a text that a zero follows. */
  function At(t: bytes, k: nat): byte {
    if k < |t| then t[k] else 0
  }

  /** 10xxxxxx */
  predicate Trailing(b: byte) {
    b / 0x40 == 2
  }

  predicate TwoOk(a: byte, b: byte) {
    Trailing(b) && a / 2 != 0x60
  }

  predicate ThreeOk(a: byte, b: byte, c: byte) {
    && Trailing(b) && Trailing(c)
    && !(a == 0xE0 && b / 0x20 == 4)
    && !(a == 0xED && b / 0x20 == 5)
    && !(a == 0xEF && b == 0xBF && c / 2 == 0x5F)
  }

  predicate FourOk(a: byte, b: byte, c: byte, d: byte) {
    && Trailing(b) && Trailing(c) && Trailing(d)
    && !(a == 0xF0 && b / 0x10 == 8)
    && !((a == 0xF4 && b > 0x8F) || a > 0xF4)
  }

  /** How many bytes the first character takes; 0 if there is no valid one. */
  function FirstLength(t: bytes): (n: nat)
    requires t != [] && t[0] != 0
    ensures n <= |t|
  {
    var a := t[0];
    if a < 0x80 then 1
    else if a / 0x20 == 6 then if TwoOk(a, At(t, 1)) then 2 else 0
    else if a / 0x10 == 14 then if ThreeOk(a, At(t, 1), At(t, 2)) then 3 else 0
    else if a / 8 == 30 then if FourOk(a, At(t, 1), At(t, 2), At(t, 3)) then 4 else 0
    else 0
  }

  lemma TwoBytes(a: byte, b: byte) returns (v: nat)
    requires a / 0x20 == 6 && TwoOk(a, b)
    ensures Allowed(v) && Encode(v) == [a, b]
  {
    v := (a as int - 0xC0) * 0x40 + (b as int - 0x80);
    assert v / 0x40 == a as int - 0xC0 && v % 0x40 == b as int - 0x80;
  }

  lemma ThreeBytes(a: byte, b: byte, c: byte) returns (v: nat)
    requires a / 0x10 == 14 && ThreeOk(a, b, c)
    ensures Allowed(v) && Encode(v) == [a, b, c]
  {
    var x, y, z := a as int - 0xE0, b as int - 0x80, c as int - 0x80;
    v := x * 0x1000 + y * 0x40 + z;
    assert v / 0x40 == x * 0x40 + y && v % 0x40 == z;
    assert v / 0x1000 == x && v / 0x40 % 0x40 == y;
  }

  lemma FourBytes(a: byte, b: byte, c: byte, d: byte) returns (v: nat)
    requires a / 8 == 30 && FourOk(a, b, c, d)
    ensures Allowed(v) && Encode(v) == [a, b, c, d]
  {
    var x, y, z, w := a as int - 0xF0, b as int - 0x80, c as int - 0x80, d as int - 0x80;
    v := x * 0x4_0000 + y * 0x1000 + z * 0x40 + w;
    assert v / 0x40 == x * 0x1000 + y * 0x40 + z && v % 0x40 == w;
    assert v / 0x1000 == x * 0x40 + y && v / 0x40 % 0x40 == z;
    assert v / 0x4_0000 == x && v / 0x1000 % 0x40 == y;
  }

  /** What is accepted as the first character is the encoding of an allowed scalar value. */
  lemma AcceptedIsEncoded(t: bytes) returns (v: nat)
    requires t != [] && t[0] != 0 && FirstLength(t) > 0
    ensures Allowed(v) && Encode(v) == t[..FirstLength(t)]
  {
    hide Encode;
    var n := FirstLength(t);
    if n == 1 {
      v := t[0];
      OneByte(t[0]);
      assert t[..1] == [t[0]];
    } else if n == 2 {
      v := TwoBytes(t[0], t[1]);
      assert t[..2] == [t[0], t[1]];
    } else if n == 3 {
      v := ThreeBytes(t[0], t[1], t[2]);
      assert t[..3] == [t[0], t[1], t[2]];
    } else {
      v := FourBytes(t[0], t[1], t[2], t[3]);
      assert t[..4] == [t[0], t[1], t[2], t[3]];
    }
  }

  lemma OneByte(a: byte)
    requires 0 < a < 0x80
    ensures Allowed(a) && Encode(a) == [a]
  {
  }

  /** The encoding of an allowed scalar value is accepted, whatever follows. */
  lemma EncodedIsAccepted(v: nat, t: bytes)
    requires Allowed(v)
    ensures Encode(v)[0] != 0 && FirstLength(Encode(v) + t) == |Encode(v)|
  {
    var e := Encode(v);
    assert forall k :: 0 <= k < |e| ==> At(e + t, k) == e[k];
    EncodedParts(v);
    hide Encode;
  }

  lemma EncodedParts(v: nat)
    requires Allowed(v)
    ensures var e := Encode(v);
      && e[0] != 0
      && (|e| == 1 ==> e[0] < 0x80)
      && (|e| == 2 ==> e[0] / 0x20 == 6 && TwoOk(e[0], e[1]))
      && (|e| == 3 ==> e[0] / 0x10 == 14 && ThreeOk(e[0], e[1], e[2]))
      && (|e| == 4 ==> e[0] / 8 == 30 && FourOk(e[0], e[1], e[2], e[3]))
  {
  }

  // ---- whole texts -----------------------------------------------------------------------

  lemma MoreInFront(v: nat, t: bytes)
    requires Allowed(v) && ValidText(t)
    ensures ValidText(Encode(v) + t)
  {
    var cs: seq<nat> :| AllAllowed(cs) && EncodeAll(cs) == t;
    var all := [v] + cs;
    hide Encode, Allowed;
    assert all[1..] == cs && AllAllowed(all);
    assert EncodeAll(all) == Encode(v) + t;
  }

  lemma FirstOfValid(t: bytes) returns (v: nat, rest: bytes)
    requires t != [] && ValidText(t)
    ensures Allowed(v) && t == Encode(v) + rest && ValidText(rest)
  {
    var cs: seq<nat> :| AllAllowed(cs) && EncodeAll(cs) == t;
    v, rest := cs[0], EncodeAll(cs[1..]);
    hide Encode;
    assert AllAllowed(cs[1..]);
  }

  /** A text is valid exactly if its first character is and what follows is. */
  lemma ValidStep(t: bytes)
    requires t != [] && t[0] != 0
    ensures ValidText(t) <==> FirstLength(t) > 0 && ValidText(t[FirstLength(t)..])
  {
    hide *;
    var n := FirstLength(t);
    if n > 0 && ValidText(t[n..]) {
      var v := AcceptedIsEncoded(t);
      MoreInFront(v, t[n..]);
      assert t[..n] + t[n..] == t;
    }
    if ValidText(t) {
      var v, rest := FirstOfValid(t);
      EncodedIsAccepted(v, rest);
      assert t[n..] == rest;
    }
  }

  lemma EmptyIsValid()
    ensures ValidText([])
  {
    var cs: seq<nat> := [];
    assert AllAllowed(cs) && EncodeAll(cs) == [];
  }

  /** The text from position s on, in an array that ends with the terminator. */
  ghost function TextFrom(buf: bytes, s: nat): bytes
    requires s < |buf|
  {
    buf[s..|buf| - 1]
  }

  /** A string: the only zero is the last byte. */
  predicate Terminated(buf: bytes) {
    |buf| > 0 && buf[|buf| - 1] == 0 && forall k :: 0 <= k < |buf| - 1 ==> buf[k] != 0
  }

  /** The bytes of a text are those of the array, and a zero follows. */
  lemma SameBytes(buf: bytes, s: nat)
    requires Terminated(buf) && s < |buf| && buf[s] != 0
    ensures s < |buf| - 1 && TextFrom(buf, s) != [] && TextFrom(buf, s)[0] == buf[s] != 0
    ensures forall k :: 0 <= k < |buf| - s ==> At(TextFrom(buf, s), k) == buf[s + k]
  {
  }

  /** One round of the loop: how far to go on, or 0 if the text is not valid. */
  method CheckCharacter(str: array<byte>, s: nat) returns (n: nat)
    requires Terminated(str[..]) && s < str.Length && str[s] != 0
    ensures TextFrom(str[..], s) != [] && TextFrom(str[..], s)[0] != 0
    ensures n == FirstLength(TextFrom(str[..], s)) && s + n < str.Length
  {
    SameBytes(str[..], s);
    hide Terminated, TextFrom, At;
    ghost var t := TextFrom(str[..], s);
    assert str[s] == At(t, 0);
    if str[s] < 0x80 {
      return 1;
    } else if str[s] / 0x20 == 6 {
      assert str[s + 1] == At(t, 1);
      if str[s + 1] / 0x40 != 2 || str[s] / 2 == 0x60 {
        return 0;
      }
      return 2;
    } else if str[s] / 0x10 == 14 {
      assert str[s + 1] == At(t, 1);
      if str[s + 1] / 0x40 != 2 || str[s + 2] / 0x40 != 2
         || (str[s] == 0xE0 && str[s + 1] / 0x20 == 4)
         || (str[s] == 0xED && str[s + 1] / 0x20 == 5)
         || (str[s] == 0xEF && str[s + 1] == 0xBF && str[s + 2] / 2 == 0x5F) {
        return 0;
      }
      return 3;
    } else if str[s] / 8 == 30 {
      assert str[s + 1] == At(t, 1);
      if str[s + 1] / 0x40 != 2 || str[s + 2] / 0x40 != 2 || str[s + 3] / 0x40 != 2
         || (str[s] == 0xF0 && str[s + 1] / 0x10 == 8)
         || (str[s] == 0xF4 && str[s + 1] > 0x8F) || str[s] > 0xF4 {
        return 0;
      }
      return 4;
    }
    return 0;
  }

  /**
   * pb_validate_utf8: true exactly if the text in front of the terminator is a sequence of encodings of allowed
   * scalar values. The array ends with the terminator, so nothing behind it is looked at.
   */
  method ValidateUtf8(str: array<byte>) returns (valid: bool)
    requires Terminated(str[..])
    ensures valid <==> ValidText(str[..str.Length - 1])
  {
    hide ValidText, FirstLength, At;
    var s := 0;
    assert TextFrom(str[..], 0) == str[..str.Length - 1];
    while str[s] != 0
      invariant 0 <= s < str.Length
      invariant ValidText(TextFrom(str[..], 0)) <==> ValidText(TextFrom(str[..], s))
      decreases str.Length - s
    {
      ghost var t := TextFrom(str[..], s);
      var n := CheckCharacter(str, s);
      ValidStep(t);
      if n == 0 {
        return false;
      }
      assert t[n..] == TextFrom(str[..], s + n);
      s := s + n;
    }
    assert TextFrom(str[..], s) == [];
    EmptyIsValid();
    return true;
  }
}
