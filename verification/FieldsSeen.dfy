/** The bitmap of required fields in pb_decode_inner (pb_fields_seen_t), two words of 32 bits. */
module FieldsSeen {
  import opened Wire

  const ALL_BITS: nat := 0xFFFF_FFFF

  /** The word in which bit k is set exactly if base + k is in the set, for k below n. */
  ghost function Word(ranks: set<nat>, base: nat, n: nat): nat
    decreases n
  {
    if n == 0 then 0 else (if base in ranks then 1 else 0) + 2 * Word(ranks, base + 1, n - 1)
  }

  /** The word with bit k set, the other bits as they were. */
  function OrBit(w: nat, k: nat): nat {
    if k == 0 then (if w % 2 == 0 then w + 1 else w) else w % 2 + 2 * OrBit(w / 2, k - 1)
  }

  /** The word without its n low bits. */
  function ShiftRight(w: nat, n: nat): nat {
    if n == 0 then w else ShiftRight(w / 2, n - 1)
  }

  /** The word with the lowest n bits set. */
  function Ones(n: nat): nat {
    if n == 0 then 0 else 1 + 2 * Ones(n - 1)
  }

  lemma {:induction false} OrBitMarks(ranks: set<nat>, base: nat, n: nat, k: nat)
    requires k < n
    ensures OrBit(Word(ranks, base, n), k) == Word(ranks + {base + k}, base, n)
    decreases n
  {
    var w, rest := Word(ranks, base, n), Word(ranks, base + 1, n - 1);
    assert w % 2 == (if base in ranks then 1 else 0) && w / 2 == rest;
    if k == 0 {
      OthersUnmarked(ranks, base, base + 1, n - 1);
    } else {
      OrBitMarks(ranks, base + 1, n - 1, k - 1);
    }
  }

  /** A mark outside the range of a word does not change it. */
  lemma {:induction false} OthersUnmarked(ranks: set<nat>, r: nat, base: nat, n: nat)
    requires r < base || base + n <= r
    ensures Word(ranks + {r}, base, n) == Word(ranks, base, n)
    decreases n
  {
    if n > 0 {
      OthersUnmarked(ranks, r, base + 1, n - 1);
    }
  }

  lemma {:induction false} EmptyWord(base: nat, n: nat)
    ensures Word({}, base, n) == 0
    decreases n
  {
    if n > 0 {
      EmptyWord(base + 1, n - 1);
    }
  }

  lemma {:induction false} ShiftOnes(n: nat, k: nat)
    requires k <= n
    ensures ShiftRight(Ones(n), k) == Ones(n - k)
    decreases k
  {
    if k > 0 {
      assert Ones(n) / 2 == Ones(n - 1);
      ShiftOnes(n - 1, k - 1);
    }
  }

  lemma {:induction false} OnesAdd(n: nat)
    ensures Ones(n + 8) == 0xFF + 0x100 * Ones(n)
  {
    assert Ones(n + 8) == 1 + 2 * Ones(n + 7);
    assert Ones(n + 7) == 1 + 2 * Ones(n + 6);
    assert Ones(n + 6) == 1 + 2 * Ones(n + 5);
    assert Ones(n + 5) == 1 + 2 * Ones(n + 4);
    assert Ones(n + 4) == 1 + 2 * Ones(n + 3);
    assert Ones(n + 3) == 1 + 2 * Ones(n + 2);
    assert Ones(n + 2) == 1 + 2 * Ones(n + 1);
  }

  lemma AllBitsAreOnes(k: nat)
    requires k <= 32
    ensures ShiftRight(ALL_BITS, k) == Ones(32 - k)
  {
    OnesAdd(0); OnesAdd(8); OnesAdd(16); OnesAdd(24);
    assert Ones(32) == ALL_BITS;
    ShiftOnes(32, k);
  }

  /** Of the numbers from base on, n in all, exactly the first m are in the set. */
  ghost predicate ExactlyFirst(ranks: set<nat>, base: nat, n: nat, m: nat) {
    forall r :: base <= r < base + n ==> (r in ranks <==> r < base + m)
  }

  /** A word is that of the lowest m bits exactly if those bits are the ones that are set. */
  lemma {:induction false} WordIsOnes(ranks: set<nat>, base: nat, n: nat, m: nat)
    requires m <= n
    ensures Word(ranks, base, n) == Ones(m) <==> ExactlyFirst(ranks, base, n, m)
    decreases n
  {
    if n > 0 {
      var w, rest := Word(ranks, base, n), Word(ranks, base + 1, n - 1);
      assert w % 2 == (if base in ranks then 1 else 0) && w / 2 == rest;
      var m' := if m == 0 then 0 else m - 1;
      WordIsOnes(ranks, base + 1, n - 1, m');
      assert m > 0 ==> Ones(m) % 2 == 1 && Ones(m) / 2 == Ones(m');
      assert ExactlyFirst(ranks, base, n, m)
        <==> (base in ranks <==> 0 < m) && ExactlyFirst(ranks, base + 1, n - 1, m');
    }
  }

  /** Marking an index changes the word it is in, and not the other one. */
  lemma WordMarked(ranks: set<nat>, index: nat)
    requires index < 64
    ensures index / 32 == 0 || index / 32 == 1
    ensures index / 32 == 0 ==> OrBit(Word(ranks, 0, 32), index % 32) == Word(ranks + {index}, 0, 32)
    ensures index / 32 == 0 ==> Word(ranks + {index}, 32, 32) == Word(ranks, 32, 32)
    ensures index / 32 == 1 ==> OrBit(Word(ranks, 32, 32), index % 32) == Word(ranks + {index}, 32, 32)
    ensures index / 32 == 1 ==> Word(ranks + {index}, 0, 32) == Word(ranks, 0, 32)
  {
    hide Word, OrBit;
    var w, k := index / 32, index % 32;
    assert index == 32 * w + k;
    if w == 0 {
      OrBitMarks(ranks, 0, 32, k);
      OthersUnmarked(ranks, index, 32, 32);
    } else {
      OrBitMarks(ranks, 32, 32, k);
      OthersUnmarked(ranks, index, 0, 32);
    }
  }

  class Bitmap {
    const bitfield: array<nat>
    /** The required_field_index values that have been marked. */
    ghost var ranks: set<nat>

    ghost predicate Valid()
      reads this, bitfield
    {
      && bitfield.Length == 2
      && bitfield[0] == Word(ranks, 0, 32)
      && bitfield[1] == Word(ranks, 32, 32)
    }

    constructor ()
      ensures Valid() && ranks == {} && fresh(bitfield)
    {
      bitfield := new nat[2](_ => 0);
      ranks := {};
      new;
      EmptyWord(0, 32);
      EmptyWord(32, 32);
    }

    /** Mark one required field: a single bit is set in the word that holds it. */
    method Mark(index: nat)
      requires Valid() && index < PB_MAX_REQUIRED_FIELDS
      modifies this, bitfield
      ensures Valid() && ranks == old(ranks) + {index}
    {
      WordMarked(ranks, index);
      hide Word, OrBit;
      var w, k := index / 32, index % 32;
      bitfield[w] := OrBit(bitfield[w], k);
      ranks := ranks + {index};
    }

    /** The whole words, then the rest of the last one; no word outside the two is looked at. */
    method AllMarked(requiredFieldCount: nat) returns (all: bool)
      requires Valid()
      requires forall r :: r in ranks ==> r < requiredFieldCount && r < PB_MAX_REQUIRED_FIELDS
      ensures all <==> forall r :: 0 <= r < requiredFieldCount && r < PB_MAX_REQUIRED_FIELDS ==> r in ranks
    {
      var count := if requiredFieldCount > PB_MAX_REQUIRED_FIELDS then PB_MAX_REQUIRED_FIELDS else requiredFieldCount;
      hide Word, Ones, ShiftRight;
      var i := 0;
      while i < count / 32
        invariant 0 <= i <= count / 32
        invariant forall r :: 0 <= r < 32 * i ==> r in ranks
      {
        Ones32();
        WordIsOnes(ranks, 32 * i, 32, 32);
        if bitfield[i] != ALL_BITS {
          return false;
        }
        i := i + 1;
      }
      if count % 32 != 0 {
        var base := count / 32 * 32;
        AllBitsAreOnes(32 - count % 32);
        WordIsOnes(ranks, base, 32, count % 32);
        if bitfield[count / 32] != ShiftRight(ALL_BITS, 32 - count % 32) {
          return false;
        }
      }
      return true;
    }
  }

  lemma Ones32()
    ensures Ones(32) == ALL_BITS
  {
    AllBitsAreOnes(0);
  }

}
