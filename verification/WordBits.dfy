/** The bits of 32-bit words: what the bitwise operators and the shifts of the ALU do to them. */
module WordBits {
  import opened Powers
  import opened Datapath

  /** Bit i of a bitwise operation is the operation on the bits i. */
  lemma {:induction false} ZipBit(f: (bool, bool) -> bool, a: nat, b: nat, n: nat, i: nat)
    requires i < n
    ensures BitAt(Zip(f, a, b, n), i) == f(BitAt(a, i), BitAt(b, i))
    decreases n
  {
    if i > 0 {
      ZipBit(f, a / 2, b / 2, n - 1, i - 1);
      Halved(f(a % 2 == 1, b % 2 == 1), Zip(f, a / 2, b / 2, n - 1));
    }
  }

  lemma Halved(low: bool, rest: nat)
    ensures ((if low then 1 else 0) + 2 * rest) / 2 == rest
  {
  }

  /** A number below 2^k has no bit k. */
  lemma {:induction false} NoBit(x: nat, k: nat)
    requires x < Pow2(k)
    ensures !BitAt(x, k)
    decreases k
  {
    if k > 0 { NoBit(x / 2, k - 1); }
  }

  /** Adding 2^k to a smaller number sets bit k. */
  lemma {:induction false} TopBit(x: nat, k: nat, i: nat)
    requires x < Pow2(k) && i <= k
    ensures BitAt(x + Pow2(k), i) == (i == k || BitAt(x, i))
    decreases k
  {
    if k > 0 {
      assert (x + Pow2(k)) / 2 == x / 2 + Pow2(k - 1);
      if i > 0 { TopBit(x / 2, k - 1, i - 1); }
    }
  }

  lemma SignBitPower()
    ensures Pow2(31) == 0x8000_0000
  {
    WordPower();
  }

  /** Bit 31 is the sign. */
  lemma SignBit(a: Word)
    ensures BitAt(a, 31) <==> a >= 0x8000_0000
  {
    SignBitPower();
    if a >= 0x8000_0000 { TopBit(a - 0x8000_0000, 31, 31); } else { NoBit(a, 31); }
  }

  lemma Doubled(a: Word)
    ensures 2 * a % WORD_LIMIT % 2 == 0
  {
  }

  /** One place to the left. */
  lemma DoubledBit(a: Word, i: nat)
    requires i < 32
    ensures BitAt(2 * a % WORD_LIMIT, i) == (i > 0 && BitAt(a, i - 1))
  {
    SignBitPower();
    if i == 0 {
      Doubled(a);
    } else {
      var low := if a >= 0x8000_0000 then a - 0x8000_0000 else a;
      assert 2 * a % WORD_LIMIT == 2 * low;
      assert 2 * low / 2 == low;
      if a >= 0x8000_0000 { TopBit(low, 31, i - 1); }
    }
  }

  /** One place to the right. */
  lemma HalvedBit(a: Word, arithmetic: bool, i: nat)
    requires i < 32
    ensures BitAt(a / 2 + if arithmetic && a >= 0x8000_0000 then 0x8000_0000 else 0, i)
         == if i < 31 then BitAt(a, i + 1) else arithmetic && BitAt(a, 31)
  {
    SignBitPower();
    SignBit(a);
    if arithmetic && a >= 0x8000_0000 {
      TopBit(a / 2, 31, i);
    } else if i == 31 {
      NoBit(a / 2, 31);
    }
  }

  lemma {:induction false} ShiftedLeftBit(a: Word, n: nat, i: nat)
    requires i < 32
    ensures BitAt(ShiftedLeft(a, n), i) == (i >= n && BitAt(a, i - n))
    decreases n
  {
    if n > 0 {
      ShiftedLeftBit(2 * a % WORD_LIMIT, n - 1, i);
      if i >= n - 1 { DoubledBit(a, i - (n - 1)); }
    }
  }

  lemma {:induction false} ShiftedRightBit(a: Word, n: nat, arithmetic: bool, i: nat)
    requires i < 32
    ensures BitAt(ShiftedRight(a, n, arithmetic), i)
         == if i + n < 32 then BitAt(a, i + n) else arithmetic && BitAt(a, 31)
    decreases n
  {
    if n == 0 {
    } else {
      var a' := a / 2 + if arithmetic && a >= 0x8000_0000 then 0x8000_0000 else 0;
      ShiftedRightBit(a', n - 1, arithmetic, i);
      HalvedBit(a, arithmetic, if i + n - 1 < 32 then i + n - 1 else 31);
      HalvedBit(a, arithmetic, 31);
    }
  }

  /** Its bits determine a word. */
  lemma BitsDetermine(a: Word, b: Word)
    requires forall i :: 0 <= i < 32 ==> BitAt(a, i) == BitAt(b, i)
    ensures a == b
  {
    WordPower();
    LowBitsDetermine(a, b, 32);
  }

  lemma {:induction false} LowBitsDetermine(a: nat, b: nat, n: nat)
    requires a < Pow2(n) && b < Pow2(n) && forall i :: 0 <= i < n ==> BitAt(a, i) == BitAt(b, i)
    ensures a == b
    decreases n
  {
    if n > 0 {
      forall i | 0 <= i < n - 1 ensures BitAt(a / 2, i) == BitAt(b / 2, i) {
        assert BitAt(a, i + 1) == BitAt(b, i + 1);
      }
      LowBitsDetermine(a / 2, b / 2, n - 1);
      assert BitAt(a, 0) == BitAt(b, 0);
    }
  }
}
