/** Base-128 varints: the format, the two readers' acceptance rules, and zigzag. */
module Varint {
  import opened Bytes

  /** A complete varint: continuation bits on all bytes but the last. */
  predicate IsGroup(g: bytes) {
    g != [] && if g[0] < 128 then |g| == 1 else IsGroup(g[1..])
  }

  lemma {:induction false} GroupBytes(g: bytes)
    requires IsGroup(g)
    ensures forall i :: 0 <= i < |g| - 1 ==> g[i] >= 128
    ensures g[|g| - 1] < 128
  {
    if g[0] >= 128 {
      var t := g[1..];
      GroupBytes(t);
      assert forall i :: 1 <= i < |g| ==> g[i] == t[i - 1];
    }
  }

  /** The shortest base-128 form of n ("Base 128 Varints" of Protocol Buffers Encoding). */
  function VarintBytes(n: nat): (bs: bytes)
    ensures IsGroup(bs)
  {
    if n < 128 then [n]
    else
      var rest := VarintBytes(n / 128);
      var bs := [n % 128 + 128] + rest;
      assert bs[1..] == rest;
      bs
  }

  /** The number that a group of 7-bit digits stands for, least significant first. */
  function GroupValue(g: bytes): nat {
    if g == [] then 0 else g[0] % 128 + 128 * GroupValue(g[1..])
  }

  /** How many bytes the first varint of s occupies, if s holds a complete one. */
  function GroupEnd(s: bytes): (r: Option<nat>)
    ensures r.Some? ==> 1 <= r.value <= |s| && IsGroup(s[..r.value])
  {
    if s == [] then None
    else if s[0] < 128 then Some(1)
    else match GroupEnd(s[1..])
      case None => None
      case Some(k) =>
        assert s[..k + 1][1..] == s[1..][..k];
        Some(k + 1)
  }

  lemma {:induction false} GroupEndOf(g: bytes, t: bytes)
    requires IsGroup(g)
    ensures GroupEnd(g + t) == Some(|g|)
    decreases |g|
  {
    if |g| > 1 {
      assert (g + t)[1..] == g[1..] + t;
      GroupEndOf(g[1..], t);
    }
  }

  // ---- the 64-bit reader -------------------------------------------------

  /** pb_decode_varint takes at most ten bytes, and only bit 0 of the tenth. */
  predicate Accepts64(g: bytes) {
    |g| <= 10 && (|g| == 10 ==> g[9] <= 1)
  }

  lemma Accepts64Bound(g: bytes)
    requires IsGroup(g) && Accepts64(g)
    ensures GroupValue(g) < TWO_64
  {
    PowersOfTwo();
    GroupValueBound(g);
    if |g| == 10 {
      TenthByteOf(g);
    } else {
      Pow2Monotone(7 * |g|, 63);
    }
  }

  function ReadVarint64(s: bytes): (r: Read<nat>)
    ensures r.Ok? ==> IsTail(r.rest, s) && r.value < TWO_64
  {
    match GroupEnd(s)
    case None => Fail
    case Some(k) => if Accepts64(s[..k]) then Accepts64Bound(s[..k]); Ok(GroupValue(s[..k]), s[k..]) else Fail
  }

  // ---- the 32-bit reader -------------------------------------------------

  /** Bit 31 of the number held by the first five bytes. */
  predicate SignBit(g: bytes) {
    |g| > 4 && g[4] / 8 % 2 == 1
  }

  /** Byte 4 carries bits 28..34: the ones past bit 31 are all clear, or all copies of a set bit 31. */
  predicate FifthByteFits(b: byte) {
    b / 16 % 8 == 0 || b / 8 % 16 == 15
  }

  /** A byte past bit 31 is a plain zero digit or, after a set bit 31, part of a sign extension. */
  predicate ExtensionFits(g: bytes, i: nat)
    requires i < |g|
  {
    g[i] % 128 == 0 || (SignBit(g) && g[i] == if i < 9 then 0xFF else 0x01)
  }

  predicate Accepts32(g: bytes) {
    && |g| <= 10
    && (|g| > 4 ==> FifthByteFits(g[4]))
    && (forall i :: 5 <= i < |g| ==> ExtensionFits(g, i))
  }

  function ReadVarint32(s: bytes): (r: Read<nat>)
    ensures r.Ok? ==> IsTail(r.rest, s) && r.value < TWO_32
  {
    match GroupEnd(s)
    case None => Fail
    case Some(k) => if Accepts32(s[..k]) then Ok(GroupValue(s[..k]) % TWO_32, s[k..]) else Fail
  }

  /** Both readers look at the first complete varint only. */
  lemma ReadsAreLocal(g: bytes, t: bytes)
    requires IsGroup(g)
    ensures ReadVarint64(g + t) == if Accepts64(g) then Ok(GroupValue(g), t) else Fail
    ensures ReadVarint32(g + t) == if Accepts32(g) then Ok(GroupValue(g) % TWO_32, t) else Fail
  {
    GroupEndOf(g, t);
    assert (g + t)[..|g|] == g && (g + t)[|g|..] == t;
  }

  lemma ReadGroup(s: bytes) returns (g: bytes, t: bytes)
    requires GroupEnd(s).Some?
    ensures s == g + t && IsGroup(g)
  {
    var k := GroupEnd(s).value;
    g, t := s[..k], s[k..];
  }

  // ---- value, length, shortest form --------------------------------------

  lemma {:induction false} GroupValueOfVarint(n: nat)
    ensures GroupValue(VarintBytes(n)) == n
  {
    if n >= 128 {
      GroupValueOfVarint(n / 128);
      assert VarintBytes(n)[1..] == VarintBytes(n / 128);
    }
  }

  lemma {:induction false} GroupValueBound(g: bytes)
    ensures GroupValue(g) < Pow2(7 * |g|)
  {
    if g != [] {
      GroupValueBound(g[1..]);
      Pow2Seven(7 * (|g| - 1));
    }
  }

  /** v moved up by n digits. */
  function Shifted(v: nat, n: nat): nat {
    if n == 0 then v else 128 * Shifted(v, n - 1)
  }

  /** The number moved up by some bits, for the multiples of seven that the readers shift by. */
  function ShiftLeft(v: nat, bits: nat): nat {
    Shifted(v, bits / 7)
  }

  lemma {:induction false} GroupValueSplit(g: bytes, k: nat)
    requires k <= |g|
    ensures GroupValue(g) == GroupValue(g[..k]) + Shifted(GroupValue(g[k..]), k)
  {
    if k == 0 {
      assert g[..0] == [] && g[0..] == g;
    } else {
      GroupValueSplit(g[1..], k - 1);
      assert g[1..][..k - 1] == g[..k][1..] && g[1..][k - 1..] == g[k..];
    }
  }

  lemma FourDigits(v: nat)
    ensures Shifted(v, 4) == 0x1000_0000 * v
  {
    assert Shifted(v, 4) == 128 * Shifted(v, 3);
    assert Shifted(v, 3) == 128 * Shifted(v, 2);
    assert Shifted(v, 2) == 128 * Shifted(v, 1);
  }

  lemma NineDigits(v: nat)
    ensures Shifted(v, 9) == 0x8000_0000_0000_0000 * v
  {
    assert Shifted(v, 9) == 128 * Shifted(v, 8);
    assert Shifted(v, 8) == 128 * Shifted(v, 7);
    assert Shifted(v, 7) == 128 * Shifted(v, 6);
    assert Shifted(v, 6) == 128 * Shifted(v, 5);
    assert Shifted(v, 5) == 128 * Shifted(v, 4);
    FourDigits(v);
  }

  /** No complete varint of the same value is shorter than VarintBytes. */
  lemma {:induction false} VarintIsShortest(g: bytes)
    requires IsGroup(g)
    ensures |VarintBytes(GroupValue(g))| <= |g|
    decreases |g|
  {
    if |g| == 1 {
      assert g[1..] == [];
    } else {
      VarintIsShortest(g[1..]);
      assert GroupValue(g) / 128 == GroupValue(g[1..]);
    }
  }

  lemma {:induction false} VarintLengthMonotone(a: nat, b: nat)
    requires a <= b
    ensures |VarintBytes(a)| <= |VarintBytes(b)|
  {
    if a >= 128 {
      VarintLengthMonotone(a / 128, b / 128);
    }
  }

  /** The last digit of a shortest form is not zero, except in the form of 0 itself. */
  lemma {:induction false} VarintLengthBound(n: nat, k: nat)
    requires k >= 1 && n < Pow2(7 * k)
    ensures |VarintBytes(n)| <= k
    decreases k
  {
    if k == 1 {
      Pow2Seven(0);
    } else {
      Pow2Seven(7 * (k - 1));
      if n >= 128 {
        VarintLengthBound(n / 128, k - 1);
      }
    }
  }

  /** A number that needs more than k digits takes more than k bytes. */
  lemma VarintLengthAbove(n: nat, k: nat)
    requires n >= Pow2(7 * k)
    ensures |VarintBytes(n)| > k
  {
    GroupValueOfVarint(n);
    hide VarintBytes, GroupValue, Pow2;
    GroupValueBound(VarintBytes(n));
    if |VarintBytes(n)| <= k {
      Pow2Monotone(7 * |VarintBytes(n)|, 7 * k);
    }
  }

  lemma PowersOfTwo()
    ensures Pow2(7) == 0x80 && Pow2(14) == 0x4000 && Pow2(21) == 0x20_0000 && Pow2(28) == 0x1000_0000
    ensures Pow2(35) == 0x8_0000_0000 && Pow2(63) == 0x8000_0000_0000_0000 && Pow2(70) == 0x40_0000_0000_0000_0000
  {
    assert Pow2(0) == 1;
    hide Pow2;
    Pow2Seven(0);
    Pow2Seven(7);
    Pow2Seven(14);
    Pow2Seven(21);
    Pow2Seven(28);
    Pow2Seven(35);
    assert Pow2(42) == 0x400_0000_0000;
    Pow2Seven(42);
    assert Pow2(49) == 0x2_0000_0000_0000;
    Pow2Seven(49);
    assert Pow2(56) == 0x100_0000_0000_0000;
    Pow2Seven(56);
    Pow2Seven(63);
  }

  /** A ten-byte varint is its first nine digits and bit 63. */
  lemma TenthByteOf(g: bytes)
    requires |g| == 10 && g[9] < 128
    ensures GroupValue(g) == GroupValue(g[..9]) + 0x8000_0000_0000_0000 * g[9] as int
    ensures GroupValue(g[..9]) < 0x8000_0000_0000_0000
  {
    GroupValueSplit(g, 9);
    assert g[9..][0] == g[9] && g[9..][1..] == [];
    assert GroupValue(g[9..]) == g[9] as int;
    NineDigits(GroupValue(g[9..]));
    hide *;
    PowersOfTwo();
    GroupValueBound(g[..9]);
  }

  /** Every 64-bit number is written in at most ten bytes. */
  lemma VarintFitsTenBytes(n: nat)
    requires n < TWO_64
    ensures |VarintBytes(n)| <= 10
  {
    PowersOfTwo();
    VarintLengthBound(n, 10);
  }

  /** Writing then reading a 64-bit number gives it back and stops exactly at the suffix. */
  lemma VarintRoundTrip64(n: nat, t: bytes)
    requires n < TWO_64
    ensures ReadVarint64(VarintBytes(n) + t) == Ok(n, t)
  {
    var g := VarintBytes(n);
    VarintFitsTenBytes(n);
    GroupValueOfVarint(n);
    ReadsAreLocal(g, t);
    if |g| == 10 {
      GroupBytes(g);
      TenthByteOf(g);
    }
  }

  // ---- how the two readers agree -----------------------------------------

  /** Whatever the 32-bit reader takes, the 64-bit reader takes too: the same bytes, the same low 32 bits. */
  lemma Varint32ImpliesVarint64(s: bytes)
    requires ReadVarint32(s).Ok?
    ensures ReadVarint64(s).Ok?
    ensures ReadVarint64(s).rest == ReadVarint32(s).rest
    ensures ReadVarint64(s).value % TWO_32 == ReadVarint32(s).value
  {
    var k := GroupEnd(s).value;
    var g := s[..k];
    if k == 10 {
      GroupBytes(g);
      assert ExtensionFits(g, 9);
    }
  }

  lemma {:induction false} ZeroGroup(g: bytes)
    requires GroupValue(g) == 0
    ensures forall i :: 0 <= i < |g| ==> g[i] % 128 == 0
  {
    if g != [] {
      ZeroGroup(g[1..]);
      assert forall i :: 1 <= i < |g| ==> g[i] == g[1..][i - 1];
    }
  }

  lemma FifthByteOf(g: bytes)
    requires |g| > 4
    ensures GroupValue(g) == GroupValue(g[..4]) + 0x1000_0000 * (g[4] as int % 128) + 0x8_0000_0000 * GroupValue(g[5..])
    ensures GroupValue(g[..4]) < 0x1000_0000
  {
    GroupValueSplit(g, 4);
    assert g[4..][0] == g[4] && g[4..][1..] == g[5..];
    assert GroupValue(g[4..]) == g[4] as int % 128 + 128 * GroupValue(g[5..]);
    FourDigits(GroupValue(g[4..]));
    hide *;
    PowersOfTwo();
    GroupValueBound(g[..4]);
  }

  lemma SmallGroupDigits(g: bytes)
    requires |g| > 4 && GroupValue(g) < TWO_32
    ensures g[4] / 16 % 8 == 0
    ensures forall i :: 5 <= i < |g| ==> g[i] % 128 == 0
  {
    FifthByteOf(g);
    var t := g[5..];
    assert GroupValue(t) == 0;
    ZeroGroup(t);
    assert forall i :: 5 <= i < |g| ==> g[i] == t[i - 5];
  }

  /** Every accepted 64-bit form of a number below 2^32, padded or not, is accepted by the 32-bit reader. */
  lemma SmallFormsAccepted(s: bytes)
    requires ReadVarint64(s).Ok? && ReadVarint64(s).value < TWO_32
    ensures ReadVarint32(s) == ReadVarint64(s)
  {
    var k := GroupEnd(s).value;
    var g := s[..k];
    if k > 4 {
      SmallGroupDigits(g);
    }
  }

  lemma {:induction false} FullGroup(g: bytes)
    requires GroupValue(g) == Pow2(7 * |g|) - 1
    ensures forall i :: 0 <= i < |g| ==> g[i] % 128 == 127
  {
    if g != [] {
      Pow2Seven(7 * (|g| - 1));
      GroupValueBound(g[1..]);
      FullGroup(g[1..]);
      assert forall i :: 1 <= i < |g| ==> g[i] == g[1..][i - 1];
    }
  }

  lemma TenBytesForNegative(g: bytes)
    requires |g| <= 10 && GroupValue(g) >= TWO_64 - 0x8000_0000
    ensures |g| == 10
  {
    PowersOfTwo();
    GroupValueBound(g);
    if |g| < 10 {
      Pow2Monotone(7 * |g|, 63);
    }
  }

  /** Sign extension fills bytes 5 to 8 with ones and leaves the whole top of byte 4 set. */
  lemma SignExtensionDigits(h: bytes)
    requires |h| == 9 && GroupValue(h) >= 0x8000_0000_0000_0000 - 0x8000_0000
    ensures h[4] / 8 % 16 == 15
    ensures forall i :: 5 <= i < 9 ==> h[i] % 128 == 127
    ensures GroupValue(h[5..]) == 0xFFF_FFFF
  {
    hide *;
    FifthByteOf(h);
    var t := h[5..];
    assert 7 * |t| == 28;
    PowersOfTwo();
    GroupValueBound(t);
    FullGroup(t);
    assert forall i :: 5 <= i < 9 ==> h[i] == t[i - 5];
  }

  lemma SignExtensionAccepted(g: bytes)
    requires |g| == 10 && g[4] / 8 % 16 == 15 && g[9] == 1
    requires forall i :: 5 <= i < 9 ==> g[i] == 0xFF
    ensures Accepts32(g)
  {
    var b: int := g[4] as int;
    assert b / 8 % 2 == b / 8 % 16 % 2;
  }

  /** A negative 32-bit number sign-extended to 64 bits is read back as its low 32 bits. */
  lemma SignExtendedFormsAccepted(s: bytes)
    requires ReadVarint64(s).Ok? && ReadVarint64(s).value >= TWO_64 - 0x8000_0000
    ensures ReadVarint32(s) == Ok(ReadVarint64(s).value - (TWO_64 - TWO_32), ReadVarint64(s).rest)
  {
    var g := s[..GroupEnd(s).value];
    GroupBytes(g);
    TenBytesForNegative(g);
    TenthByteOf(g);
    var h := g[..9];
    SignExtensionDigits(h);
    assert g[4] == h[4];
    forall i | 5 <= i < 9 ensures g[i] == 0xFF {
      assert g[i] == h[i] && g[i] >= 128;
    }
    hide GroupValue, IsGroup, GroupEnd;
    SignExtensionAccepted(g);
    SignExtendedValue(GroupValue(g));
    hide Accepts32, Accepts64;
  }

  lemma SignExtendedValue(v: nat)
    requires TWO_64 - TWO_32 <= v < TWO_64
    ensures v % TWO_32 == v - (TWO_64 - TWO_32)
  {
    var r := v - (TWO_64 - TWO_32);
    assert v == TWO_32 * 0xFFFF_FFFF + r && r < TWO_32;
  }

  lemma VarintRoundTrip32(n: nat, t: bytes)
    requires n < TWO_32
    ensures ReadVarint32(VarintBytes(n) + t) == Ok(n, t)
  {
    VarintRoundTrip64(n, t);
    SmallFormsAccepted(VarintBytes(n) + t);
  }

  /** The 64-bit reader takes every form of a 64-bit number that has at most ten bytes, padded or not, and nothing else. */
  lemma AcceptedIff(g: bytes, t: bytes)
    requires IsGroup(g)
    ensures ReadVarint64(g + t).Ok? <==> |g| <= 10 && GroupValue(g) < TWO_64
    ensures ReadVarint64(g + t).Ok? ==> ReadVarint64(g + t) == Ok(GroupValue(g), t)
  {
    ReadsAreLocal(g, t);
    GroupBytes(g);
    if |g| == 10 {
      TenthByteOf(g);
    } else if |g| < 10 {
      PowersOfTwo();
      GroupValueBound(g);
      Pow2Monotone(7 * |g|, 63);
    }
    hide GroupValue, IsGroup, Pow2, ReadVarint64;
  }

  // ---- forms that only the 32-bit reader means otherwise --------------------

  lemma {:induction false} ZerosValue(g: bytes)
    requires forall i :: 0 <= i < |g| ==> g[i] % 128 == 0
    ensures GroupValue(g) == 0
  {
    if g != [] {
      ZerosValue(g[1..]);
    }
  }

  lemma {:induction false} OnesValue(g: bytes)
    requires forall i :: 0 <= i < |g| ==> g[i] % 128 == 127
    ensures GroupValue(g) == Pow2(7 * |g|) - 1
  {
    if g != [] {
      OnesValue(g[1..]);
      Pow2Seven(7 * (|g| - 1));
    }
  }

  /** All bits past bit 31 are clear. */
  predicate HighBitsClear(g: bytes) {
    |g| > 4 ==> g[4] / 16 % 8 == 0 && forall i :: 5 <= i < |g| ==> g[i] % 128 == 0
  }

  /** Bits 31 to 63 are all set. */
  predicate HighBitsSet(g: bytes) {
    |g| == 10 && g[4] / 8 % 16 == 15 && (forall i :: 5 <= i < 9 ==> g[i] % 128 == 127) && g[9] == 1
  }

  lemma ClearMeansSmall(g: bytes)
    requires HighBitsClear(g)
    ensures GroupValue(g) < TWO_32
  {
    if |g| > 4 {
      assert forall i :: 0 <= i < |g[5..]| ==> g[5..][i] == g[i + 5];
      ZerosValue(g[5..]);
      FifthByteOf(g);
    } else {
      PowersOfTwo();
      GroupValueBound(g);
      Pow2Monotone(7 * |g|, 28);
    }
  }

  lemma SetMeansNegative(g: bytes)
    requires HighBitsSet(g)
    ensures GroupValue(g) >= TWO_64 - 0x8000_0000
  {
    var h := g[..9];
    assert forall i :: 0 <= i < |h[5..]| ==> h[5..][i] == g[i + 5];
    OnesValue(h[5..]);
    TenthByteOf(g);
    FifthByteOf(h);
    assert h[4] == g[4];
    PowersOfTwo();
    assert 7 * |h[5..]| == 28;
    HighDigits(h[4]);
    hide GroupValue, Pow2;
  }

  lemma HighDigits(b: byte)
    requires b / 8 % 16 == 15
    ensures b % 128 >= 120
  {
  }

  /**
   * What the 32-bit reader accepts is a number below 2^32 or the sign extension of a negative one exactly if the bits
   * past bit 31 are all clear, or all set through bit 63. It does not ask that of them, as CutOff shows.
   */
  lemma ExtensionIff(s: bytes)
    requires ReadVarint32(s).Ok?
    ensures ReadVarint64(s).Ok?
    ensures var v, g := ReadVarint64(s).value, s[..GroupEnd(s).value];
      (v < TWO_32 || v >= TWO_64 - 0x8000_0000) <==> (HighBitsClear(g) || HighBitsSet(g))
  {
    Varint32ImpliesVarint64(s);
    var g := s[..GroupEnd(s).value];
    GroupBytes(g);
    if HighBitsClear(g) {
      ClearMeansSmall(g);
    } else if HighBitsSet(g) {
      SetMeansNegative(g);
    } else if GroupValue(g) < TWO_32 {
      SmallGroupDigits(g);
      assert false;
    } else if GroupValue(g) >= TWO_64 - 0x8000_0000 {
      NegativeDigits(g);
      assert false;
    }
  }

  lemma NegativeDigits(g: bytes)
    requires IsGroup(g) && Accepts64(g) && GroupValue(g) >= TWO_64 - 0x8000_0000
    ensures HighBitsSet(g)
  {
    GroupBytes(g);
    TenBytesForNegative(g);
    TenthByteOf(g);
    SignExtensionDigits(g[..9]);
    assert forall i :: 0 <= i < 9 ==> g[..9][i] == g[i];
  }

  /** Five bytes in which bits 32 to 34 are set and nothing follows: the readers accept both, with different numbers. */
  lemma CutOff()
    ensures ReadVarint32([0xFF, 0xFF, 0xFF, 0xFF, 0x7F]) == Ok(0xFFFF_FFFF, [])
    ensures ReadVarint64([0xFF, 0xFF, 0xFF, 0xFF, 0x7F]) == Ok(0x7_FFFF_FFFF, [])
  {
    var s: bytes := [0xFF, 0xFF, 0xFF, 0xFF, 0x7F];
    assert s[1..] == [0xFF, 0xFF, 0xFF, 0x7F] && s[1..][1..] == [0xFF, 0xFF, 0x7F];
    assert s[1..][1..][1..] == [0xFF, 0x7F] && s[1..][1..][1..][1..] == [0x7F] && s[1..][1..][1..][1..][1..] == [];
    assert IsGroup(s[1..][1..][1..]);
    assert IsGroup(s);
    assert GroupValue(s[1..][1..][1..]) == 0x3FFF;
    assert GroupValue(s) == 0x7_FFFF_FFFF;
    assert s + [] == s;
    ReadsAreLocal(s, []);
  }

  // ---- which numbers the 32-bit reader takes in their shortest form -----------

  lemma {:induction false} LastDigit(n: nat)
    ensures var g := VarintBytes(n); n > 0 ==> g[|g| - 1] % 128 != 0
    ensures var g := VarintBytes(n); g[|g| - 1] < 128
  {
    if n >= 128 {
      LastDigit(n / 128);
    }
  }

  lemma FiveDigits(n: nat)
    requires |VarintBytes(n)| == 5
    ensures 0x1000_0000 <= n < 0x8_0000_0000
    ensures VarintBytes(n)[4] as int == n / 0x1000_0000
  {
    var g := VarintBytes(n);
    GroupValueOfVarint(n);
    FifthByteOf(g);
    assert g[5..] == [];
    LastDigit(n);
    hide VarintBytes;
  }

  /** In shortest form, up to 2^63: every number below 2^32, those with bits 31 to 34 set and no higher one, and no other. */
  lemma ShortestAccepted32(n: nat, t: bytes)
    requires n < 0x8000_0000_0000_0000
    ensures ReadVarint32(VarintBytes(n) + t).Ok? <==> n < 0x1_0000_0000 || 0x7_8000_0000 <= n < 0x8_0000_0000
  {
    var g := VarintBytes(n);
    PowersOfTwo();
    hide VarintBytes, Pow2, GroupValue;
    VarintLengthBound(n, 9);
    ReadsAreLocal(g, t);
    LastDigit(n);
    if n < 0x1000_0000 {
      VarintLengthBound(n, 4);
    } else if n < 0x8_0000_0000 {
      VarintLengthBound(n, 5);
      VarintLengthAbove(n, 4);
      FiveDigits(n);
    } else {
      VarintLengthAbove(n, 5);
      assert !ExtensionFits(g, |g| - 1);
    }
    hide ReadVarint32;
  }

  // ---- two's complement and zigzag ---------------------------------------

  /** The cast (uint64_t)v of a signed 64-bit number. */
  function ToUnsigned64(v: int): (u: nat)
    requires -0x8000_0000_0000_0000 <= v < 0x8000_0000_0000_0000
    ensures u < TWO_64
  {
    if v < 0 then v + TWO_64 else v
  }

  /** The cast (int64_t)u. */
  function ToSigned64(u: nat): (v: int)
    requires u < TWO_64
    ensures -0x8000_0000_0000_0000 <= v < 0x8000_0000_0000_0000
  {
    if u >= 0x8000_0000_0000_0000 then u - TWO_64 else u
  }

  /** The cast (int32_t)u: the low 32 bits, read as a signed number. */
  function ToSigned32(u: nat): (v: int)
    ensures -0x8000_0000 <= v < 0x8000_0000
  {
    var w := u % TWO_32;
    if w >= 0x8000_0000 then w - TWO_32 else w
  }

  /** pb_encode_svarint: numbers are doubled; for negative ones the sign bit is cut off first and all bits are turned over. */
  function ZigZag(v: int): (u: nat)
    requires -0x8000_0000_0000_0000 <= v < 0x8000_0000_0000_0000
    ensures u < TWO_64
  {
    if v < 0 then TWO_64 - 1 - 2 * (ToUnsigned64(v) % 0x8000_0000_0000_0000) else 2 * v
  }

  /** pb_decode_svarint: an odd number is the complement of its half. */
  function UnZigZag(u: nat): int
    requires u < TWO_64
  {
    if u % 2 == 1 then ToSigned64(TWO_64 - 1 - u / 2) else ToSigned64(u / 2)
  }

  lemma ZigZagRoundTrip(v: int)
    requires -0x8000_0000_0000_0000 <= v < 0x8000_0000_0000_0000
    ensures UnZigZag(ZigZag(v)) == v
    ensures ZigZag(v) == if v < 0 then -2 * v - 1 else 2 * v
  {
  }

  // ---- reading a group byte by byte --------------------------------------

  /** All bytes so far announce another one. */
  ghost predicate Continues(g: bytes) {
    forall i :: 0 <= i < |g| ==> g[i] >= 128
  }

  lemma {:induction false} NoEnd(g: bytes)
    requires Continues(g)
    ensures GroupEnd(g).None?
  {
    if g != [] {
      NoEnd(g[1..]);
    }
  }

  lemma {:induction false} Ends(g: bytes, b: byte)
    requires Continues(g) && b < 128
    ensures IsGroup(g + [b])
  {
    if g != [] {
      Ends(g[1..], b);
      assert (g + [b])[1..] == g[1..] + [b];
    }
  }

  /** The next digit goes in above those read so far: the places do not overlap. */
  lemma {:induction false} GroupValueSnoc(g: bytes, b: byte)
    ensures GroupValue(g + [b]) == GroupValue(g) + Shifted(b % 128, |g|)
  {
    if g == [] {
      assert [b][1..] == [];
      assert g + [b] == [b];
    } else {
      GroupValueSnoc(g[1..], b);
      assert (g + [b])[1..] == g[1..] + [b];
    }
  }

  /** The first complete group of a string that starts with continuation bytes is longer than those. */
  lemma {:induction false} GroupPassesOver(g: bytes, b: byte, t: bytes)
    requires Continues(g)
    ensures var s := g + [b] + t; GroupEnd(s).Some? ==> GroupEnd(s).value > |g| && s[..GroupEnd(s).value][|g|] == b
    decreases |g|
  {
    var s := g + [b] + t;
    if g != [] {
      GroupPassesOver(g[1..], b, t);
      assert s[1..] == g[1..] + [b] + t;
    }
  }

  lemma TenthByteRefused(g: bytes, b: byte, t: bytes)
    requires Continues(g) && |g| == 9 && b > 1
    ensures ReadVarint64(g + [b] + t).Fail?
  {
    GroupPassesOver(g, b, t);
  }

  lemma Unended(g: bytes)
    requires Continues(g)
    ensures ReadVarint64(g).Fail? && ReadVarint32(g).Fail?
  {
    NoEnd(g);
  }

  lemma RunsOut(s: bytes, k: nat)
    requires k <= |s| && Continues(s[..k]) && s[k..] == []
    ensures ReadVarint64(s).Fail? && ReadVarint32(s).Fail?
  {
    assert s[..k] == s;
    Unended(s);
  }

  /** What the byte after k continuation bytes means to the 64-bit reader. */
  lemma NextByte64(s: bytes, k: nat)
    requires k < |s| && k <= 9 && Continues(s[..k])
    ensures GroupValue(s[..k + 1]) == GroupValue(s[..k]) + ShiftLeft(s[k] % 128, 7 * k)
    ensures k == 9 && s[k] / 2 != 0 ==> ReadVarint64(s).Fail?
    ensures (k == 9 ==> s[k] / 2 == 0) && s[k] < 128 ==> ReadVarint64(s) == Ok(GroupValue(s[..k + 1]), s[k + 1..])
    ensures s[k] >= 128 ==> Continues(s[..k + 1])
  {
    var g, b, t := s[..k], s[k], s[k + 1..];
    assert s[..k + 1] == g + [b] && s == g + [b] + t;
    GroupValueSnoc(g, b);
    if k == 9 && b > 1 {
      TenthByteRefused(g, b, t);
    } else if b < 128 {
      Ends(g, b);
      ReadsAreLocal(g + [b], t);
    }
  }

  // ---- the 32-bit reader byte by byte -------------------------------------

  /** The low 32 bits of a group: all that pb_decode_varint32 keeps. */
  function Low32(g: bytes): nat {
    GroupValue(g) % TWO_32
  }

  lemma {:induction false} FarDigits(v: nat, k: nat) returns (q: nat)
    requires k >= 5
    ensures Shifted(v, k) == 0x1_0000_0000 * q
  {
    if k == 5 {
      FourDigits(v);
      q := 8 * v;
    } else {
      var p := FarDigits(v, k - 1);
      q := 128 * p;
    }
  }

  lemma EarlyDigits(g: bytes)
    requires |g| <= 4
    ensures GroupValue(g) < 0x1000_0000 && Low32(g) == GroupValue(g)
  {
    GroupValueBound(g);
    PowersOfTwo();
    hide GroupValue, Pow2;
    Pow2Monotone(7 * |g|, 28);
  }

  lemma EarlySnoc(g: bytes, b: byte)
    requires |g| < 4
    ensures Low32(g + [b]) == Low32(g) + Shifted(b % 128, |g|)
  {
    GroupValueSnoc(g, b);
    hide GroupValue, Shifted, Low32;
    EarlyDigits(g);
    EarlyDigits(g + [b]);
  }

  lemma FifthSnoc(g: bytes, b: byte)
    requires |g| == 4
    ensures Low32(g + [b]) == Low32(g) + b as int % 16 * 0x1000_0000
  {
    GroupValueSnoc(g, b);
    EarlyDigits(g);
    var d := b as int % 128;
    FourDigits(d);
    LowFour(b as int);
    hide GroupValue, Shifted;
    LowPart(GroupValue(g), d, 0);
  }

  lemma LateSnoc(g: bytes, b: byte)
    requires |g| > 4
    ensures Low32(g + [b]) == Low32(g)
  {
    GroupValueSnoc(g, b);
    var q := FarDigits(b % 128, |g|);
    hide GroupValue, Shifted;
  }

  /** Of a fifth digit d, four bits are within the low 32. */
  lemma LowPart(lo: nat, d: nat, hi: nat)
    requires lo < 0x1000_0000
    ensures (lo + 0x1000_0000 * d + 0x8_0000_0000 * hi) % TWO_32 == lo + d % 16 * 0x1000_0000
  {
    var q := d / 16;
    assert d == 16 * q + d % 16;
    assert lo + 0x1000_0000 * d + 0x8_0000_0000 * hi == lo + d % 16 * 0x1000_0000 + TWO_32 * (q + 8 * hi);
  }

  lemma LowFour(b: nat)
    ensures b % 128 % 16 == b % 16
  {
    assert b == 128 * (b / 128) + b % 128;
  }

  lemma TopBit(lo: nat, n: nat)
    requires lo < 0x1000_0000
    ensures (lo + n % 16 * 0x1000_0000) / 0x8000_0000 != 0 <==> n / 8 % 2 == 1
  {
    var r, q := n % 16, n / 16;
    assert n == 16 * q + r;
    assert n / 8 == 2 * q + r / 8;
    assert n / 8 % 2 == r / 8;
  }

  /** Bit 31 and what is above it. */
  lemma SignBitIs(g: bytes)
    requires |g| > 4
    ensures Low32(g) / 0x8000_0000 != 0 <==> SignBit(g)
  {
    var b: nat := g[4] as int;
    var lo := GroupValue(g[..4]);
    assert lo < 0x1000_0000 && Low32(g) == lo + b % 16 * 0x1000_0000 by {
      FifthByteOf(g);
      var d, hi, v := b % 128, GroupValue(g[5..]), GroupValue(g);
      assert Low32(g) == v % TWO_32;
      assert v == lo + 0x1000_0000 * d + 0x8_0000_0000 * hi;
      hide GroupValue, Low32;
      LowPart(lo, d, hi);
      LowFour(b);
    }
    assert SignBit(g) <==> b / 8 % 2 == 1;
    hide *;
    TopBit(lo, b);
  }

  lemma FirstByte32(s: bytes)
    requires s != []
    ensures Accepts32(s[..1]) && Low32(s[..1]) == s[0] % 128
    ensures s[0] < 128 ==> ReadVarint32(s) == Ok(s[0] as int, s[1..])
    ensures s[0] >= 128 ==> Continues(s[..1])
  {
    var g, b := [s[0]], s[0] as int;
    assert s[..1] == g && s == g + s[1..];
    assert g[1..] == [] && GroupValue(g) == b % 128;
    if b < 128 {
      ReadsAreLocal(g, s[1..]);
    }
  }

  /** Whether a further byte is acceptable. */
  ghost predicate NextFits32(g: bytes, b: byte) {
    if |g| < 4 then true
    else if |g| == 4 then FifthByteFits(b)
    else |g| < 10 && (b % 128 == 0 || (SignBit(g) && b == if |g| < 9 then 0xFF else 0x01))
  }

  lemma AcceptsNext(g: bytes, b: byte)
    requires Accepts32(g)
    ensures Accepts32(g + [b]) <==> NextFits32(g, b)
  {
    var h := g + [b];
    assert forall i :: 5 <= i < |g| ==> (ExtensionFits(h, i) <==> ExtensionFits(g, i));
    assert |g| >= 5 ==> (ExtensionFits(h, |g|) <==> b % 128 == 0 || (SignBit(g) && b == if |g| < 9 then 0xFF else 0x01));
  }

  /** What the reader refuses part of, it refuses whole. */
  lemma Refused32(g: bytes, b: byte, t: bytes)
    requires Continues(g) && !Accepts32(g + [b])
    ensures ReadVarint32(g + [b] + t).Fail?
  {
    var s := g + [b] + t;
    GroupPassesOver(g, b, t);
    if GroupEnd(s).Some? {
      var h := s[..GroupEnd(s).value];
      assert h[..|g| + 1] == g + [b];
      if Accepts32(h) {
        PrefixAccepted(h, |g| + 1);
      }
    }
  }

  lemma PrefixAccepted(h: bytes, k: nat)
    requires Accepts32(h) && k <= |h|
    ensures Accepts32(h[..k])
  {
    var g := h[..k];
    assert forall i :: 5 <= i < k ==> (ExtensionFits(h, i) <==> ExtensionFits(g, i));
  }

  /** The reader's tests of byte k, given the result so far. */
  predicate Fits32(result: nat, k: nat, b: byte) {
    if k < 4 then true
    else if k == 4 then FifthByteFits(b)
    else k < 10 && (b % 128 == 0 || (result / 0x8000_0000 != 0 && b == if k < 9 then 0xFF else 0x01))
  }

  /** What the byte after k continuation bytes means to the 32-bit reader, in the terms in which it is tested. */
  lemma NextByte32(s: bytes, k: nat)
    requires 1 <= k < |s| && k <= 10 && Continues(s[..k]) && Accepts32(s[..k])
    ensures !Fits32(Low32(s[..k]), k, s[k]) ==> ReadVarint32(s).Fail?
    ensures Fits32(Low32(s[..k]), k, s[k]) ==> Accepts32(s[..k + 1])
    ensures Fits32(Low32(s[..k]), k, s[k]) && s[k] < 128 ==> ReadVarint32(s) == Ok(Low32(s[..k + 1]), s[k + 1..])
    ensures Low32(s[..k + 1]) == Low32(s[..k]) +
      if k < 4 then ShiftLeft(s[k] % 128, 7 * k) else if k == 4 then s[4] as int % 16 * 0x1000_0000 else 0
    ensures s[k] >= 128 ==> Continues(s[..k + 1])
  {
    var g, b, t := s[..k], s[k], s[k + 1..];
    assert s[..k + 1] == g + [b] && s == g + [b] + t;
    AcceptsNext(g, b);
    if k < 4 {
      EarlySnoc(g, b);
    } else if k == 4 {
      FifthSnoc(g, b);
    } else {
      LateSnoc(g, b);
      SignBitIs(g);
    }
    if !NextFits32(g, b) {
      Refused32(g, b, t);
    } else if b < 128 {
      Ends(g, b);
      ReadsAreLocal(g + [b], t);
    }
    hide Accepts32, ReadVarint32, Continues, GroupValue, Shifted, SignBit, GroupEnd;
  }
}
