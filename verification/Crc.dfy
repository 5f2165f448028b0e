/** The checksum of the link, CRC-16/ARC computed bit by bit, and the changes that it cannot miss. */
module Crc {
  import opened Bytes

  const POLYNOMIAL: nat := 0xA001

  /** a ^ b */
  function Xor(a: nat, b: nat): (x: nat)
    ensures x <= a + b
    decreases a + b
  {
    if a == 0 && b == 0 then 0 else (if a % 2 != b % 2 then 1 else 0) + 2 * Xor(a / 2, b / 2)
  }

  lemma XorParts(a: nat, b: nat)
    ensures Xor(a, b) % 2 == (if a % 2 != b % 2 then 1 else 0) && Xor(a, b) / 2 == Xor(a / 2, b / 2)
  {
  }

  lemma {:induction false} XorCommutes(a: nat, b: nat)
    ensures Xor(a, b) == Xor(b, a)
    decreases a + b
  {
    if a != 0 || b != 0 {
      XorCommutes(a / 2, b / 2);
    }
  }

  lemma {:induction false} XorAssociates(a: nat, b: nat, c: nat)
    ensures Xor(Xor(a, b), c) == Xor(a, Xor(b, c))
    decreases a + b + c
  {
    if a != 0 || b != 0 || c != 0 {
      XorAssociates(a / 2, b / 2, c / 2);
      XorParts(a, b);
      XorParts(b, c);
      XorParts(Xor(a, b), c);
      XorParts(a, Xor(b, c));
      hide Xor;
      assert Xor(Xor(a, b), c) / 2 == Xor(a, Xor(b, c)) / 2;
      assert Xor(Xor(a, b), c) % 2 == Xor(a, Xor(b, c)) % 2;
    }
  }

  lemma {:induction false} XorZero(a: nat)
    ensures Xor(a, 0) == a
  {
    if a != 0 {
      XorZero(a / 2);
    }
  }

  lemma {:induction false} XorCancels(a: nat, b: nat)
    ensures Xor(a, b) == 0 <==> a == b
    decreases a + b
  {
    if a != 0 || b != 0 {
      XorCancels(a / 2, b / 2);
      XorParts(a, b);
      hide Xor;
    }
  }

  lemma XorSame(a: nat)
    ensures Xor(a, a) == 0
  {
    XorCancels(a, a);
  }

  /** The exclusive or of two numbers of n bits has n bits. */
  lemma {:induction false} XorBound(a: nat, b: nat, n: nat)
    requires a < Pow2(n) && b < Pow2(n)
    ensures Xor(a, b) < Pow2(n)
    decreases n
  {
    if n > 0 {
      XorParts(a, b);
      XorBound(a / 2, b / 2, n - 1);
      hide Xor;
    }
  }

  /** Of two numbers, only one has bit n, the highest: so has their exclusive or. */
  lemma {:induction false} XorTop(a: nat, b: nat, n: nat)
    requires a < Pow2(n) <= b
    ensures Xor(a, b) >= Pow2(n)
    decreases n
  {
    if n == 0 {
      XorCancels(a, b);
    } else {
      XorParts(a, b);
      XorTop(a / 2, b / 2, n - 1);
      hide Xor;
    }
  }

  /** The number without its n low bits. */
  function Halved(a: nat, n: nat): nat
    decreases n
  {
    if n == 0 then a else Halved(a / 2, n - 1)
  }

  lemma {:induction false} XorHighBits(a: nat, b: nat, n: nat)
    requires Halved(a, n) == Halved(b, n)
    ensures Xor(a, b) < Pow2(n)
    decreases n
  {
    if n == 0 {
      XorSame(a);
    } else {
      XorHighBits(a / 2, b / 2, n - 1);
      XorParts(a, b);
      hide Xor;
    }
  }

  lemma HighByte(a: nat)
    ensures Halved(a, 8) == a / 0x100
  {
    assert a / 2 / 2 == a / 4 && a / 4 / 2 == a / 8 && a / 8 / 2 == a / 16 && a / 16 / 2 == a / 32;
    assert a / 32 / 2 == a / 64 && a / 64 / 2 == a / 128 && a / 128 / 2 == a / 256;
    assert Halved(a, 8) == Halved(a / 4, 6) == Halved(a / 16, 4) == Halved(a / 64, 2);
  }

  /** Two checksums with the same high byte differ by less than a changed byte makes them differ. */
  lemma SameHighByte(a: nat, b: nat)
    requires a / 0x100 == b / 0x100
    ensures Xor(a, b) < 0x100
  {
    Sizes();
    HighByte(a);
    HighByte(b);
    XorHighBits(a, b, 8);
  }

  /** The terms of an exclusive or can be exchanged. */
  lemma XorSwap(a: nat, b: nat, c: nat, d: nat)
    ensures Xor(Xor(a, b), Xor(c, d)) == Xor(Xor(a, c), Xor(b, d))
  {
    XorAssociates(a, b, Xor(c, d));
    XorAssociates(b, c, d);
    XorCommutes(b, c);
    XorAssociates(c, b, d);
    XorAssociates(a, c, Xor(b, d));
  }

  lemma Sizes()
    ensures Pow2(8) == 0x100 && Pow2(15) == 0x8000 && Pow2(16) == 0x1_0000
  {
    assert Pow2(4) == 16;
    assert Pow2(8) == 256;
    assert Pow2(12) == 4096;
    assert Pow2(15) == 0x8000;
  }

  // ---- one step ---------------------------------------------------------------------

  /** One bit of the checksum: shift right, and if a one fell out, fold the polynomial in. */
  function Shift(c: nat): nat {
    if c % 2 == 1 then Xor(c / 2, POLYNOMIAL) else c / 2
  }

  lemma ShiftBound(c: nat)
    requires c < 0x1_0000
    ensures Shift(c) < 0x1_0000
    ensures c % 2 == 1 <==> Shift(c) >= 0x8000
  {
    Sizes();
    XorBound(c / 2, POLYNOMIAL, 16);
    XorTop(c / 2, POLYNOMIAL, 15);
    hide Xor, Pow2;
  }

  lemma ShiftIsLinear(a: nat, b: nat)
    ensures Shift(Xor(a, b)) == Xor(Shift(a), Shift(b))
  {
    var x, y := a / 2, b / 2;
    XorParts(a, b);
    XorSwap(x, POLYNOMIAL, y, POLYNOMIAL);
    XorSame(POLYNOMIAL);
    XorZero(Xor(x, y));
    XorAssociates(x, y, POLYNOMIAL);
    XorCommutes(y, POLYNOMIAL);
    XorAssociates(x, POLYNOMIAL, y);
    hide Xor;
  }

  /** Only the zero state goes to zero. */
  lemma ShiftIsInjective(c: nat)
    requires c < 0x1_0000 && c != 0
    ensures Shift(c) != 0
  {
    ShiftBound(c);
  }

  // ---- one byte -----------------------------------------------------------------------

  /** n steps. */
  function Shifts(c: nat, n: nat): nat
    decreases n
  {
    if n == 0 then c else Shifts(Shift(c), n - 1)
  }

  lemma {:induction false} ShiftsBound(c: nat, n: nat)
    requires c < 0x1_0000
    ensures Shifts(c, n) < 0x1_0000
    decreases n
  {
    if n > 0 {
      ShiftBound(c);
      ShiftsBound(Shift(c), n - 1);
    }
  }

  lemma {:induction false} ShiftsAreLinear(a: nat, b: nat, n: nat)
    ensures Shifts(Xor(a, b), n) == Xor(Shifts(a, n), Shifts(b, n))
    decreases n
  {
    if n > 0 {
      ShiftIsLinear(a, b);
      ShiftsAreLinear(Shift(a), Shift(b), n - 1);
    }
  }

  lemma {:induction false} ShiftsAreInjective(c: nat, n: nat)
    requires c < 0x1_0000 && c != 0
    ensures Shifts(c, n) != 0
    decreases n
  {
    if n > 0 {
      ShiftBound(c);
      ShiftIsInjective(c);
      ShiftsAreInjective(Shift(c), n - 1);
    }
  }

  /** A bit that has been shifted out comes back at the top, and takes more than seven steps to get below bit 8. */
  lemma {:induction false} BitStaysHigh(c: nat, n: nat, k: nat)
    requires c < 0x1_0000 && n + k <= 15
    requires c >= Pow2(n + k)
    ensures Shifts(c, n) >= Pow2(k)
    decreases n
  {
    if n > 0 {
      ShiftBound(c);
      if c % 2 == 1 {
        TopPower(n - 1 + k);
      }
      BitStaysHigh(Shift(c), n - 1, k);
    }
  }

  lemma {:induction false} TopPower(n: nat)
    requires n <= 15
    ensures Pow2(n) <= 0x8000
    decreases 15 - n
  {
    if n == 15 {
      Sizes();
    } else {
      TopPower(n + 1);
    }
  }

  /** Eight steps move every nonzero byte out of the low byte. */
  lemma {:induction false} ByteLeavesLowHalf(c: nat, n: nat)
    requires 0 < c < Pow2(n) && n <= 8
    ensures Shifts(c, n) >= 0x100
    decreases n
  {
    Sizes();
    TopPower(n);
    ShiftBound(c);
    if c % 2 == 1 {
      Pow2Monotone(n - 1 + 8, 15);
      BitStaysHigh(Shift(c), n - 1, 8);
    } else {
      ByteLeavesLowHalf(Shift(c), n - 1);
    }
  }

  function Feed(crc: nat, b: byte): nat {
    Shifts(Xor(crc, b), 8)
  }

  lemma FeedBound(crc: nat, b: byte)
    requires crc < 0x1_0000
    ensures Feed(crc, b) < 0x1_0000
  {
    Sizes();
    XorBound(crc, b, 16);
    ShiftsBound(Xor(crc, b), 8);
  }

  /** How two states differ after a byte, from how the states and the bytes differed before. */
  lemma FeedDiffers(c: nat, d: nat, x: byte, y: byte)
    ensures Xor(Feed(c, x), Feed(d, y)) == Shifts(Xor(Xor(c, d), Xor(x, y)), 8)
  {
    ShiftsAreLinear(Xor(c, x), Xor(d, y), 8);
    XorSwap(c, x, d, y);
  }

  // ---- whole blocks ----------------------------------------------------------------------

  /** crc16arc_bit */
  function Crc16(crc: nat, s: bytes): nat
    decreases |s|
  {
    if s == [] then crc else Crc16(Feed(crc, s[0]), s[1..])
  }

  lemma {:induction false} CrcBound(crc: nat, s: bytes)
    requires crc < 0x1_0000
    ensures Crc16(crc, s) < 0x1_0000
    decreases |s|
  {
    if s != [] {
      FeedBound(crc, s[0]);
      CrcBound(Feed(crc, s[0]), s[1..]);
    }
  }

  lemma {:induction false} CrcOfTwo(crc: nat, a: bytes, b: bytes)
    ensures Crc16(crc, a + b) == Crc16(Crc16(crc, a), b)
    decreases |a|
  {
    if a == [] {
      assert a + b == b;
    } else {
      assert (a + b)[1..] == a[1..] + b;
      CrcOfTwo(Feed(crc, a[0]), a[1..], b);
    }
  }

  /** Different states stay different over equal bytes. */
  lemma {:induction false} DifferenceStays(c: nat, d: nat, s: bytes)
    requires c < 0x1_0000 && d < 0x1_0000 && c != d
    ensures Crc16(c, s) != Crc16(d, s)
    decreases |s|
  {
    if s != [] {
      FeedBound(c, s[0]);
      FeedBound(d, s[0]);
      FeedDiffers(c, d, s[0], s[0]);
      XorSame(s[0]);
      XorZero(Xor(c, d));
      XorCancels(c, d);
      Sizes();
      XorBound(c, d, 16);
      ShiftsAreInjective(Xor(c, d), 8);
      XorCancels(Feed(c, s[0]), Feed(d, s[0]));
      DifferenceStays(Feed(c, s[0]), Feed(d, s[0]), s[1..]);
    }
  }

  /** After one changed byte the states differ by more than a byte can make up for. */
  lemma OneByteChange(c: nat, x: byte, y: byte)
    requires x != y
    ensures Xor(Feed(c, x), Feed(c, y)) >= 0x100
  {
    FeedDiffers(c, c, x, y);
    XorSame(c);
    XorCommutes(0, Xor(x, y));
    XorZero(Xor(x, y));
    XorCancels(x, y);
    Sizes();
    XorBound(x, y, 8);
    ByteLeavesLowHalf(Xor(x, y), 8);
  }

  lemma CrcOfPair(c: nat, x: bytes)
    requires |x| == 2
    ensures Crc16(c, x) == Feed(Feed(c, x[0]), x[1])
  {
    assert x[1..][0] == x[1] && x[1..][1..] == [];
    assert Crc16(Feed(c, x[0]), x[1..]) == Crc16(Feed(Feed(c, x[0]), x[1]), []);
  }

  /** Two blocks that differ in one byte, or in two that are next to each other, have different checksums. */
  lemma BurstChangesCrc(c: nat, x: bytes, y: bytes, t: bytes)
    requires c < 0x1_0000 && |x| == |y| == 2 && x != y
    ensures Crc16(c, x + t) != Crc16(c, y + t)
  {
    hide Crc16, Feed, Shifts, Xor;
    CrcOfPair(c, x);
    CrcOfPair(c, y);
    CrcOfTwo(c, x, t);
    CrcOfTwo(c, y, t);
    CrcBound(c, x);
    CrcBound(c, y);
    TwoByteChange(c, x[0], x[1], y[0], y[1]);
    DifferenceStays(Crc16(c, x), Crc16(c, y), t);
  }

  lemma TwoByteChange(c: nat, x0: byte, x1: byte, y0: byte, y1: byte)
    requires c < 0x1_0000 && (x0 != y0 || x1 != y1)
    ensures Feed(Feed(c, x0), x1) != Feed(Feed(c, y0), y1)
  {
    hide Shifts, Xor, Feed, Pow2;
    var a, b := Feed(c, x0), Feed(c, y0);
    FeedBound(c, x0);
    FeedBound(c, y0);
    Sizes();
    XorBound(x1, y1, 8);
    XorBound(a, b, 16);
    XorBound(Xor(a, b), Xor(x1, y1), 16);
    FeedDiffers(a, b, x1, y1);
    XorCancels(Xor(a, b), Xor(x1, y1));
    XorCancels(Feed(a, x1), Feed(b, y1));
    if x0 != y0 {
      OneByteChange(c, x0, y0);
    } else {
      XorSame(a);
      XorCancels(x1, y1);
    }
    ShiftsAreInjective(Xor(Xor(a, b), Xor(x1, y1)), 8);
  }

  /** crc16arc_bit, over the first len bytes of a buffer. */
  method Crc16ArcBit(crc: nat, mem: array<byte>, len: nat) returns (result: nat)
    requires crc < 0x1_0000 && len <= mem.Length
    ensures result == Crc16(crc, mem[..len]) && result < 0x1_0000
  {
    result := crc;
    CrcBound(crc, mem[..len]);
    var i := 0;
    while i < len
      invariant 0 <= i <= len
      invariant Crc16(crc, mem[..len]) == Crc16(result, mem[i..len])
    {
      assert mem[i..len][0] == mem[i] && mem[i..len][1..] == mem[i + 1..len];
      hide Xor, Shift;
      ghost var fed := Feed(result, mem[i]);
      result := Xor(result, mem[i]);
      var k := 0;
      while k < 8
        invariant 0 <= k <= 8
        invariant fed == Shifts(result, 8 - k)
      {
        result := Shift(result);
        k := k + 1;
      }
      i := i + 1;
    }
  }
}
