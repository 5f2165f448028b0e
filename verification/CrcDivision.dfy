/**
 * Which checksum it is: the remainder of a long division of polynomials over GF(2), with the bits of each byte
 * taken from the lowest on, as CRC-16/ARC is defined.
 */
module CrcDivision {
  import opened Bytes
  import opened Crc

  /** Coefficients, the highest first. */
  type Polynomial = seq<bool>

  /** The n low bits of a number, the lowest first. */
  function LowFirst(v: nat, n: nat): (b: seq<bool>)
    ensures |b| == n
  {
    if n == 0 then [] else [v % 2 == 1] + LowFirst(v / 2, n - 1)
  }

  /** The n low bits of a number, the highest first. */
  function HighFirst(v: nat, n: nat): (b: seq<bool>)
    ensures |b| == n
  {
    if n == 0 then [] else HighFirst(v / 2, n - 1) + [v % 2 == 1]
  }

  /** x^16 + x^15 + x^2 + 1 */
  function Divisor(): (g: Polynomial)
    ensures |g| == 17
  {
    HighFirst(0x1_8005, 17)
  }

  function Zeros(n: nat): (z: Polynomial)
    ensures |z| == n
  {
    seq(n, _ => false)
  }

  /** The highest coefficients of p, changed by those of c; the others as they are. */
  function Add(p: Polynomial, c: Polynomial): (r: Polynomial)
    requires |c| <= |p|
    ensures |r| == |p|
  {
    seq(|p|, i requires 0 <= i < |p| => if i < |c| then p[i] != c[i] else p[i])
  }

  /** Long division: as long as there are more than 16 coefficients, the highest is cleared with the divisor and dropped. */
  function Remainder(p: Polynomial): Polynomial
    decreases |p|
  {
    hide Divisor;
    if |p| <= 16 then p else Remainder((if p[0] then Add(p, Divisor()) else p)[1..])
  }

  /** The bits of a message in the order in which they are sent. */
  function MessageBits(s: bytes): Polynomial {
    if s == [] then [] else LowFirst(s[0], 8) + MessageBits(s[1..])
  }

  // ---- the shift register divides -------------------------------------------------------

  /** One step of the register, on its bits. */
  function Step(w: Polynomial): (r: Polynomial)
    requires |w| == 16
    ensures |r| == 16
  {
    var t := w[1..] + [false];
    if w[0] then Add(t, Divisor()[1..]) else t
  }

  /** The register takes in bits one by one. */
  function Run(w: Polynomial, bits: Polynomial): (r: Polynomial)
    requires |w| == 16
    ensures |r| == 16
    decreases |bits|
  {
    if bits == [] then w else Run(Step(Add(w, bits[..1])), bits[1..])
  }

  function Steps(w: Polynomial, n: nat): (r: Polynomial)
    requires |w| == 16
    ensures |r| == 16
    decreases n
  {
    if n == 0 then w else Steps(Step(w), n - 1)
  }

  /** High coefficients first is low bits first, read backwards. */
  lemma {:induction false} Mirrored(v: nat, n: nat)
    ensures forall i :: 0 <= i < n ==> HighFirst(v, n)[i] == LowFirst(v, n)[n - 1 - i]
  {
    if n > 0 {
      Mirrored(v / 2, n - 1);
    }
  }

  lemma NextBit(v: nat, n: nat)
    ensures LowFirst(v, n + 1) == [v % 2 == 1] + LowFirst(v / 2, n)
  {
  }

  lemma {:induction false} ZerosThen(u: nat, k: nat, n: nat)
    ensures LowFirst(u * Pow2(k), k + n) == Zeros(k) + LowFirst(u, n)
    decreases k
  {
    if k > 0 {
      var v := u * Pow2(k - 1);
      assert u * Pow2(k) == 2 * v;
      NextBit(2 * v, k - 1 + n);
      ZerosThen(u, k - 1, n);
      assert Zeros(k) == [false] + Zeros(k - 1);
    } else {
      assert u * Pow2(0) == u;
    }
  }

  lemma TwelveZeros()
    ensures Pow2(12) == 0x1000
  {
    assert Pow2(8) == 0x100;
  }

  lemma LowDivisorBits()
    ensures LowFirst(0x1_8005, 17) == [true, false, true] + Zeros(12) + [true, true]
  {
    hide LowFirst;
    NextBit(0x1_8005, 16);
    NextBit(0xC002, 15);
    NextBit(0x6001, 14);
    TwelveZeros();
    ZerosThen(3, 12, 2);
    TwoOnes();
  }

  lemma TwoOnes()
    ensures LowFirst(3, 2) == [true, true]
  {
    assert LowFirst(1, 1) == [true];
  }

  lemma Backwards(p: Polynomial, q: Polynomial)
    requires |p| == |q| == 17 && forall i :: 0 <= i < 17 ==> p[i] == q[17 - 1 - i]
    requires q == [true, false, true] + Zeros(12) + [true, true]
    ensures p == [true, true] + Zeros(12) + [true, false, true]
  {
  }

  lemma DivisorBits()
    ensures Divisor() == [true, true] + Zeros(12) + [true, false, true]
  {
    DivisorIs();
    hide *;
    Mirrored(0x1_8005, 17);
    LowDivisorBits();
    Backwards(Divisor(), LowFirst(0x1_8005, 17));
  }

  lemma DivisorIs()
    ensures Divisor() == HighFirst(0x1_8005, 17)
  {
    hide HighFirst;
  }

  /** One step of the division is one step of the register on the first 16 coefficients. */
  lemma DivisionStep(p: Polynomial, w: Polynomial)
    requires |p| > 16 && |w| == 16
    ensures Remainder(Add(p, w)) == Remainder(Add(p[1..], Step(Add(w, p[..1]))))
  {
    DivisorBits();
    var q := Add(p, w);
    var cleared := (if q[0] then Add(q, Divisor()) else q)[1..];
    var v := Add(w, p[..1]);
    assert Remainder(q) == Remainder(cleared);
    hide Remainder, HighFirst, Divisor;
    assert cleared == Add(p[1..], Step(v)) by {
      forall i | 0 <= i < |cleared| ensures cleared[i] == Add(p[1..], Step(v))[i] {
      }
    }
  }

  lemma {:induction false} RunDivides(w: Polynomial, bits: Polynomial)
    requires |w| == 16
    ensures Run(w, bits) == Remainder(Add(bits + Zeros(16), w))
    decreases |bits|
  {
    var p := bits + Zeros(16);
    if bits == [] {
      assert Add(p, w) == w;
    } else {
      RunDivides(Step(Add(w, bits[..1])), bits[1..]);
      DivisionStep(p, w);
      assert p[1..] == bits[1..] + Zeros(16) && p[..1] == bits[..1];
    }
  }

  /** Changing bits ahead of time, where they come to stand at the front later. */
  lemma StepLater(w: Polynomial, bits: Polynomial)
    requires |w| == 16 && 1 <= |bits| <= 16
    ensures Step(Add(w, bits)) == Add(Step(Add(w, bits[..1])), bits[1..])
  {
    hide HighFirst, Divisor;
    var a, b := Step(Add(w, bits)), Add(Step(Add(w, bits[..1])), bits[1..]);
    forall i | 0 <= i < 16 ensures a[i] == b[i] {
    }
  }

  lemma {:induction false} RunAhead(w: Polynomial, bits: Polynomial)
    requires |w| == 16 && |bits| <= 16
    ensures Run(w, bits) == Steps(Add(w, bits), |bits|)
    decreases |bits|
  {
    if bits == [] {
      assert Add(w, bits) == w;
    } else {
      hide Step, Add;
      RunAhead(Step(Add(w, bits[..1])), bits[1..]);
      StepLater(w, bits);
    }
  }

  lemma {:induction false} RunOfTwo(w: Polynomial, a: Polynomial, b: Polynomial)
    requires |w| == 16
    ensures Run(w, a + b) == Run(Run(w, a), b)
    decreases |a|
  {
    if a == [] {
      assert a + b == b;
    } else {
      hide Step, Add;
      RunOfTwo(Step(Add(w, a[..1])), a[1..], b);
      assert (a + b)[1..] == a[1..] + b && (a + b)[..1] == a[..1];
    }
  }

  // ---- the checksum is the register --------------------------------------------------------

  lemma {:induction false} BitsOfXor(a: nat, b: nat, n: nat)
    ensures LowFirst(Xor(a, b), n) == Add(LowFirst(a, n), LowFirst(b, n))
    decreases n
  {
    if n > 0 {
      XorParts(a, b);
      BitsOfXor(a / 2, b / 2, n - 1);
    }
  }

  lemma {:induction false} HigherZeros(v: nat, n: nat, k: nat)
    requires v < Pow2(n)
    ensures LowFirst(v, n + k) == LowFirst(v, n) + Zeros(k)
    decreases n
  {
    if n > 0 {
      HigherZeros(v / 2, n - 1, k);
    } else {
      ZerosThen(0, k, 0);
    }
  }

  lemma FeedbackBits()
    ensures LowFirst(POLYNOMIAL, 16) == Divisor()[1..]
  {
    DivisorBits();
    hide LowFirst, Divisor;
    NextBit(POLYNOMIAL, 15);
    TwelveZeros();
    ZerosThen(5, 12, 3);
    NextBit(5, 2);
    NextBit(2, 1);
    NextBit(1, 0);
    assert LowFirst(0, 0) == [];
  }

  /** One step of the checksum is one step of the register. */
  lemma ShiftIsStep(c: nat)
    requires c < 0x1_0000
    ensures LowFirst(Shift(c), 16) == Step(LowFirst(c, 16))
  {
    FeedbackBits();
    Sizes();
    NextBit(c, 15);
    HigherZeros(c / 2, 15, 1);
    BitsOfXor(c / 2, POLYNOMIAL, 16);
    hide LowFirst, Divisor, Xor;
    assert Zeros(1) == [false];
  }

  lemma {:induction false} ShiftsAreSteps(c: nat, n: nat)
    requires c < 0x1_0000
    ensures LowFirst(Shifts(c, n), 16) == Steps(LowFirst(c, 16), n)
    decreases n
  {
    if n > 0 {
      ShiftBound(c);
      ShiftIsStep(c);
      hide LowFirst, Shift, Step;
      ShiftsAreSteps(Shift(c), n - 1);
    }
  }

  /** Feeding a byte to the checksum is running its bits through the register, the lowest first. */
  lemma FeedRuns(c: nat, b: byte)
    requires c < 0x1_0000
    ensures LowFirst(Feed(c, b), 16) == Run(LowFirst(c, 16), LowFirst(b, 8))
  {
    Sizes();
    XorBound(c, b, 16);
    HigherZeros(b, 8, 8);
    BitsOfXor(c, b, 16);
    ShiftsAreSteps(Xor(c, b), 8);
    RunAhead(LowFirst(c, 16), LowFirst(b, 8));
    hide Steps, Run, Xor, LowFirst;
    assert Add(LowFirst(c, 16), LowFirst(b, 8) + Zeros(8)) == Add(LowFirst(c, 16), LowFirst(b, 8));
  }

  lemma {:induction false} CrcRuns(c: nat, s: bytes)
    requires c < 0x1_0000
    ensures LowFirst(Crc16(c, s), 16) == Run(LowFirst(c, 16), MessageBits(s))
    decreases |s|
  {
    if s != [] {
      FeedBound(c, s[0]);
      FeedRuns(c, s[0]);
      hide LowFirst, Feed;
      CrcRuns(Feed(c, s[0]), s[1..]);
      RunOfTwo(LowFirst(c, 16), LowFirst(s[0], 8), MessageBits(s[1..]));
    }
  }

  /**
   * The checksum of every message is the remainder of the message, times x^16, by x^16 + x^15 + x^2 + 1, where the
   * lowest bit of the first byte is the highest coefficient, and the lowest bit of the checksum that of x^15.
   */
  lemma CrcIsRemainder(s: bytes)
    ensures LowFirst(Crc16(0, s), 16) == Remainder(MessageBits(s) + Zeros(16))
  {
    CrcRuns(0, s);
    hide *;
    NoBits(16);
    RunDivides(Zeros(16), MessageBits(s));
    AddNothing(MessageBits(s) + Zeros(16));
  }

  lemma NoBits(n: nat)
    ensures LowFirst(0, n) == Zeros(n)
  {
    assert 0 * Pow2(n) == 0;
    ZerosThen(0, n, 0);
    assert Zeros(n) + LowFirst(0, 0) == Zeros(n);
  }

  lemma AddNothing(p: Polynomial)
    requires |p| >= 16
    ensures Add(p, Zeros(16)) == p
  {
  }
}
