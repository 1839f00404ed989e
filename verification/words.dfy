/** Machine words of the runtime (`word`, a signed 64-bit integer) and the
    bitwise `|` and `&` the mmap constructor applies to its `flags` and `prot`
    arguments.

    A word is an unbounded `int` restricted to the signed 64-bit range. Its bit
    pattern is the two's-complement encoding, a `nat` below 2^64, and the
    bitwise operators work bit by bit on those patterns. */
module Words {

  const WORD_BITS: nat := 64

  /** 2^64, the number of distinct words. */
  const WORD_MODULUS: nat := 0x1_0000_0000_0000_0000

  /** A signed 64-bit machine word. */
  type Word = x: int | -0x8000_0000_0000_0000 <= x <= 0x7FFF_FFFF_FFFF_FFFF

  function Pow2(n: nat): (r: nat)
    ensures r >= 1
  {
    if n == 0 then 1 else 2 * Pow2(n - 1)
  }

  /** Bit `i` of the non-negative integer `b` (bit 0 is the least significant). */
  function TestBit(b: nat, i: nat): bool
  {
    if i == 0 then b % 2 == 1 else TestBit(b / 2, i - 1)
  }

  datatype BitOp = Or | And {
    /** What the operator does to one pair of bits. */
    function Apply(x: bool, y: bool): bool
    {
      match this
      case Or => x || y
      case And => x && y
    }
  }

  /** The low `n` bits of `a` and `b` combined bit by bit with `op`. */
  function Bitwise(op: BitOp, a: nat, b: nat, n: nat): (r: nat)
    ensures r < Pow2(n)
  {
    if n == 0 then 0
    else 2 * Bitwise(op, a / 2, b / 2, n - 1) + (if op.Apply(a % 2 == 1, b % 2 == 1) then 1 else 0)
  }

  lemma {:induction false} TestBitOfZero(i: nat)
    ensures !TestBit(0, i)
  {
    if i > 0 {
      TestBitOfZero(i - 1);
    }
  }

  /** Bit `i` of a combination is the operator applied to bit `i` of each side. */
  lemma {:induction false} BitwiseBit(op: BitOp, a: nat, b: nat, n: nat, i: nat)
    requires i < n
    ensures TestBit(Bitwise(op, a, b, n), i) == op.Apply(TestBit(a, i), TestBit(b, i))
  {
    var q := Bitwise(op, a / 2, b / 2, n - 1);
    var c := if op.Apply(a % 2 == 1, b % 2 == 1) then 1 else 0;
    assert Bitwise(op, a, b, n) == 2 * q + c;
    if i > 0 {
      assert (2 * q + c) / 2 == q;
      BitwiseBit(op, a / 2, b / 2, n - 1, i - 1);
    }
  }

  /** The only bit of 2^k is bit k. */
  lemma {:induction false} TestBitOfPow2(k: nat, i: nat)
    ensures TestBit(Pow2(k), i) <==> i == k
  {
    if i == 0 {
      if k > 0 {
        assert Pow2(k) == 2 * Pow2(k - 1);
      }
    } else if k == 0 {
      TestBitOfZero(i - 1);
    } else {
      assert Pow2(k) / 2 == Pow2(k - 1);
      TestBitOfPow2(k - 1, i - 1);
    }
  }

  /** A pattern of `n` bits is zero exactly when none of its bits is set. */
  lemma {:induction false} ZeroIffNoBitSet(b: nat, n: nat)
    requires b < Pow2(n)
    ensures b == 0 ==> forall i :: 0 <= i < n ==> !TestBit(b, i)
    ensures b != 0 ==> exists i :: 0 <= i < n && TestBit(b, i)
  {
    if b == 0 {
      forall i | 0 <= i < n
        ensures !TestBit(b, i)
      {
        TestBitOfZero(i);
      }
    } else if b % 2 == 1 {
      assert n > 0;
      assert TestBit(b, 0);
    } else {
      assert n > 0;
      ZeroIffNoBitSet(b / 2, n - 1);
      var j :| 0 <= j < n - 1 && TestBit(b / 2, j);
      assert TestBit(b, j + 1);
    }
  }

  /** Two patterns of `n` bits that agree on every bit are equal. */
  lemma {:induction false} BitsDetermine(b: nat, c: nat, n: nat)
    requires b < Pow2(n) && c < Pow2(n)
    requires forall i :: 0 <= i < n ==> TestBit(b, i) == TestBit(c, i)
    ensures b == c
  {
    if n > 0 {
      assert TestBit(b, 0) == TestBit(c, 0);
      forall i | 0 <= i < n - 1
        ensures TestBit(b / 2, i) == TestBit(c / 2, i)
      {
        assert TestBit(b, i + 1) == TestBit(c, i + 1);
      }
      BitsDetermine(b / 2, c / 2, n - 1);
    }
  }

  lemma {:induction false} Pow2Add(a: nat, b: nat)
    ensures Pow2(a + b) == Pow2(a) * Pow2(b)
  {
    if a > 0 {
      Pow2Add(a - 1, b);
    }
  }

  lemma Pow2WordBits()
    ensures Pow2(WORD_BITS) == WORD_MODULUS
  {
    assert Pow2(8) == 0x100;
    Pow2Add(8, 8);
    Pow2Add(16, 16);
    Pow2Add(32, 32);
  }

  /** The two's-complement bit pattern of a word. */
  function ToBits(x: Word): (b: nat)
    ensures b < WORD_MODULUS
    ensures x >= 0 ==> b == x
    ensures x < 0 ==> b >= WORD_MODULUS / 2
  {
    if x >= 0 then x else x + WORD_MODULUS
  }

  /** The word whose two's-complement bit pattern is `b`. */
  function FromBits(b: nat): (x: Word)
    requires b < WORD_MODULUS
    ensures ToBits(x) == b
  {
    if b < WORD_MODULUS / 2 then b else b - WORD_MODULUS
  }

  lemma FromBitsToBits(x: Word)
    ensures FromBits(ToBits(x)) == x
  {
  }

  /** Bit `i` of the word `x`; bit 63 is the sign bit. */
  function WordBit(x: Word, i: nat): bool
    requires i < WORD_BITS
  {
    TestBit(ToBits(x), i)
  }

  /** The C expression `x op y` on two words. */
  function WordBitwise(op: BitOp, x: Word, y: Word): (r: Word)
    ensures forall i :: 0 <= i < WORD_BITS ==> WordBit(r, i) == op.Apply(WordBit(x, i), WordBit(y, i))
  {
    var b := Bitwise(op, ToBits(x), ToBits(y), WORD_BITS);
    Pow2WordBits();
    assert forall i :: 0 <= i < WORD_BITS ==> TestBit(b, i) == op.Apply(TestBit(ToBits(x), i), TestBit(ToBits(y), i)) by {
      forall i | 0 <= i < WORD_BITS
        ensures TestBit(b, i) == op.Apply(TestBit(ToBits(x), i), TestBit(ToBits(y), i))
      {
        BitwiseBit(op, ToBits(x), ToBits(y), WORD_BITS, i);
      }
    }
    FromBits(b)
  }

  function WordOr(x: Word, y: Word): Word
  {
    WordBitwise(Or, x, y)
  }

  function WordAnd(x: Word, y: Word): Word
  {
    WordBitwise(And, x, y)
  }

  /** Two words with the same 64 bits are the same word. */
  lemma WordBitsDetermine(x: Word, y: Word)
    requires forall i :: 0 <= i < WORD_BITS ==> WordBit(x, i) == WordBit(y, i)
    ensures x == y
  {
    Pow2WordBits();
    forall i | 0 <= i < WORD_BITS
      ensures TestBit(ToBits(x), i) == TestBit(ToBits(y), i)
    {
      assert WordBit(x, i) == WordBit(y, i);
    }
    BitsDetermine(ToBits(x), ToBits(y), WORD_BITS);
    FromBitsToBits(x);
    FromBitsToBits(y);
  }

  /** A word is zero exactly when none of its 64 bits is set. */
  lemma WordZeroIffNoBitSet(x: Word)
    ensures x == 0 <==> forall i :: 0 <= i < WORD_BITS ==> !WordBit(x, i)
  {
    Pow2WordBits();
    ZeroIffNoBitSet(ToBits(x), WORD_BITS);
    if x == 0 {
      forall i | 0 <= i < WORD_BITS
        ensures !WordBit(x, i)
      {
        assert !TestBit(ToBits(x), i);
      }
    } else {
      assert ToBits(x) != 0;
      var j :| 0 <= j < WORD_BITS && TestBit(ToBits(x), j);
      assert WordBit(x, j);
    }
  }

  /** The mask test `(x & mask) != 0` of C, for a mask holding the single bit
      `k`, asks exactly whether bit `k` of `x` is set. */
  lemma MaskTest(x: Word, mask: Word, k: nat)
    requires k < WORD_BITS && ToBits(mask) == Pow2(k)
    ensures WordAnd(x, mask) != 0 <==> WordBit(x, k)
  {
    var r := WordAnd(x, mask);
    forall i | 0 <= i < WORD_BITS
      ensures WordBit(r, i) == (WordBit(x, i) && i == k)
    {
      TestBitOfPow2(k, i);
    }
    WordZeroIffNoBitSet(r);
  }

  /** Adding a multiple of 2^n leaves the low `n` bits alone. */
  lemma {:induction false} TestBitAddHigh(b: nat, c: nat, n: nat, i: nat)
    requires i < n
    ensures TestBit(b + c * Pow2(n), i) == TestBit(b, i)
  {
    var m := c * Pow2(n - 1);
    assert c * Pow2(n) == 2 * m;
    assert (b + 2 * m) % 2 == b % 2;
    if i > 0 {
      assert (b + 2 * m) / 2 == b / 2 + m;
      TestBitAddHigh(b / 2, c, n - 1, i - 1);
    }
  }

  const INT_BITS: nat := 32
  const INT_MIN: int := -0x8000_0000
  const INT_MAX: int := 0x7FFF_FFFF

  lemma Pow2IntBits()
    ensures Pow2(INT_BITS) == 0x1_0000_0000
  {
    assert Pow2(8) == 0x100;
    Pow2Add(8, 8);
    Pow2Add(16, 16);
  }

  /** The conversion of a word to a C `int` when it is passed to a function
      taking one: the low 32 bits are kept and read as a signed 32-bit value.
      Such a value is determined by its range and its low 32 bits. */
  function CInt(x: Word): (r: Word)
    ensures INT_MIN <= r <= INT_MAX
    ensures forall i :: 0 <= i < INT_BITS ==> WordBit(r, i) == WordBit(x, i)
    ensures INT_MIN <= x <= INT_MAX ==> r == x
  {
    var low := ToBits(x) % 0x1_0000_0000;
    var r: Word := if low <= INT_MAX then low else low - 0x1_0000_0000;
    Pow2IntBits();
    Pow2WordBits();
    assert forall i :: 0 <= i < INT_BITS ==> TestBit(ToBits(r), i) == TestBit(ToBits(x), i) by {
      forall i | 0 <= i < INT_BITS
        ensures TestBit(ToBits(r), i) == TestBit(ToBits(x), i)
      {
        assert ToBits(x) == low + (ToBits(x) / 0x1_0000_0000) * Pow2(INT_BITS);
        TestBitAddHigh(low, ToBits(x) / 0x1_0000_0000, INT_BITS, i);
        if low > INT_MAX {
          assert ToBits(r) == low + 0xFFFF_FFFF * Pow2(INT_BITS);
          TestBitAddHigh(low, 0xFFFF_FFFF, INT_BITS, i);
        }
      }
    }
    r
  }

  /** Bit `i` of a mask holding the single bit `k`. */
  lemma SingleBitMask(mask: Word, k: nat, i: nat)
    requires k < WORD_BITS && i < WORD_BITS && ToBits(mask) == Pow2(k)
    ensures WordBit(mask, i) <==> i == k
  {
    TestBitOfPow2(k, i);
  }
}
