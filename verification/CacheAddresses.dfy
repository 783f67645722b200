/** Line addresses of the cache: tag, set index and line offset, as quotients and remainders, and
    for power-of-two sizes as the shifts and masks of the code. */
module CacheAddresses {
  import opened Division
  import opened Powers

  function TagOf(address: nat, numSets: nat, lineSize: nat): nat
    requires numSets > 0 && lineSize > 0
  {
    address / (numSets * lineSize)
  }

  function IndexOf(address: nat, numSets: nat, lineSize: nat): (i: nat)
    requires numSets > 0 && lineSize > 0
    ensures i < numSets
  {
    (address / lineSize) % numSets
  }

  /** The victim address put together from its tag and set index. */
  function Rebuilt(tag: nat, index: nat, numSets: nat, lineSize: nat): nat {
    tag * (numSets * lineSize) + index * lineSize
  }

  /** The first address of the line. */
  function BlockOf(address: nat, lineSize: nat): nat
    requires lineSize > 0
  {
    address / lineSize * lineSize
  }

  lemma NestedDivision(a: nat, b: nat, c: nat)
    requires b > 0 && c > 0
    ensures b * c > 0 && a / (b * c) == a / c / b
  {
    Product(b, c);
    var q, r := a / c, a % c;
    var q', r' := q / b, q % b;
    Regroup(a, b, c, q, r, q', r');
    Room(c, r', b);
    Quotient(a, b * c, q', c * r' + r);
  }

  lemma Regroup(a: nat, b: nat, c: nat, q: nat, r: nat, q': nat, r': nat)
    requires a == c * q + r && q == b * q' + r'
    ensures a == (b * c) * q' + (c * r' + r)
  {
    Distribute(c, b * q', r');
    Associate(c, b, q');
  }

  lemma Room(c: nat, x: nat, b: nat)
    requires x < b
    ensures c * x + c <= b * c
  {
    Spread(c, b, x + 1);
    Grows(c, b - x - 1);
    Distribute(c, x, 1);
  }

  /** An address's tag and index rebuild its line's address. */
  lemma RebuildsBlock(address: nat, numSets: nat, lineSize: nat)
    requires numSets > 0 && lineSize > 0
    ensures Rebuilt(TagOf(address, numSets, lineSize), IndexOf(address, numSets, lineSize), numSets, lineSize)
      == BlockOf(address, lineSize)
  {
    NestedDivision(address, numSets, lineSize);
    var q := address / lineSize;
    var t, i := q / numSets, q % numSets;
    assert q == numSets * t + i;
    Distribute(lineSize, numSets * t, i);
    Associate(lineSize, numSets, t);
  }

  /** A rebuilt address falls apart into the same tag and index. */
  lemma RebuiltParts(tag: nat, index: nat, numSets: nat, lineSize: nat)
    requires numSets > 0 && lineSize > 0 && index < numSets
    ensures TagOf(Rebuilt(tag, index, numSets, lineSize), numSets, lineSize) == tag
    ensures IndexOf(Rebuilt(tag, index, numSets, lineSize), numSets, lineSize) == index
  {
    var a := Rebuilt(tag, index, numSets, lineSize);
    Distribute(lineSize, numSets * tag, index);
    Associate(lineSize, numSets, tag);
    assert a == lineSize * (numSets * tag + index);
    Quotient(a, lineSize, numSets * tag + index, 0);
    Quotient(numSets * tag + index, numSets, tag, index);
    NestedDivision(a, numSets, lineSize);
  }

  /** Only the first line of the first set is rebuilt to address 0. */
  lemma RebuiltZero(tag: nat, index: nat, numSets: nat, lineSize: nat)
    requires numSets > 0 && lineSize > 0
    ensures Rebuilt(tag, index, numSets, lineSize) == 0 <==> tag == 0 && index == 0
  {
    Product(lineSize, numSets);
    Product(numSets * lineSize, tag);
    Product(lineSize, index);
    if tag == 0 { assert Rebuilt(tag, index, numSets, lineSize) == index * lineSize; }
  }

  // Shifts and masks.

  function ShiftRight(a: nat, k: nat): nat
    decreases k
  {
    if k == 0 then a else ShiftRight(a / 2, k - 1)
  }

  function ShiftLeft(a: nat, k: nat): nat
    decreases k
  {
    if k == 0 then a else ShiftLeft(2 * a, k - 1)
  }

  function BitAnd(a: nat, b: nat): nat
    decreases a
  {
    if a == 0 then 0 else 2 * BitAnd(a / 2, b / 2) + if a % 2 == 1 && b % 2 == 1 then 1 else 0
  }

  function BitOr(a: nat, b: nat): nat
    decreases a + b
  {
    if a + b == 0 then 0 else 2 * BitOr(a / 2, b / 2) + if a % 2 == 1 || b % 2 == 1 then 1 else 0
  }

  lemma {:induction false} ShiftRightDivides(a: nat, k: nat)
    ensures ShiftRight(a, k) == a / Pow2(k)
    decreases k
  {
    if k > 0 {
      ShiftRightDivides(a / 2, k - 1);
      NestedDivision(a, Pow2(k - 1), 2);
      assert Pow2(k) == Pow2(k - 1) * 2;
    }
  }

  lemma {:induction false} ShiftLeftMultiplies(a: nat, k: nat)
    ensures ShiftLeft(a, k) == a * Pow2(k)
    decreases k
  {
    if k > 0 {
      ShiftLeftMultiplies(2 * a, k - 1);
      Associate(a, 2, Pow2(k - 1));
      assert a * Pow2(k) == a * (2 * Pow2(k - 1)) == 2 * a * Pow2(k - 1);
    }
  }

  lemma {:induction false} MaskIsRemainder(a: nat, k: nat)
    ensures BitAnd(a, Pow2(k) - 1) == a % Pow2(k)
  {
    hide BitAnd;
    if k == 0 {
      NothingMasked(a);
    } else if a == 0 {
      NothingLeft(Pow2(k));
    } else {
      MaskIsRemainder(a / 2, k - 1);
      MaskStep(a, Pow2(k - 1), Pow2(k));
    }
  }

  lemma NothingLeft(p: nat)
    requires p > 0
    ensures BitAnd(0, p - 1) == 0 % p
  {
    Quotient(0, p, 0, 0);
  }

  lemma MaskStep(a: nat, h: nat, p: nat)
    requires a > 0 && h > 0 && p == 2 * h && BitAnd(a / 2, h - 1) == a / 2 % h
    ensures BitAnd(a, p - 1) == a % p
  {
    hide BitAnd;
    LowBits(a, h);
    OddMask(a, h);
  }

  lemma OddMask(a: nat, h: nat)
    requires a > 0 && h > 0
    ensures BitAnd(a, 2 * h - 1) == 2 * BitAnd(a / 2, h - 1) + a % 2
  {
    assert (2 * h - 1) / 2 == h - 1 && (2 * h - 1) % 2 == 1;
  }

  lemma LowBits(a: nat, h: nat)
    requires h > 0
    ensures a % (2 * h) == 2 * (a / 2 % h) + a % 2
  {
    var q, r := a / 2 / h, a / 2 % h;
    Associate(2, h, q);
    Quotient(a, 2 * h, q, 2 * r + a % 2);
  }

  lemma {:induction false} NothingMasked(a: nat)
    ensures BitAnd(a, 0) == 0
  {
    if a > 0 { NothingMasked(a / 2); }
  }

  /** Below the lowest bit of a multiple of 2^n there is room for n bits. */
  lemma {:induction false} OrIsSum(a: nat, n: nat, b: nat)
    requires b < Pow2(n)
    ensures BitOr(a * Pow2(n), b) == a * Pow2(n) + b
  {
    if n == 0 {
      OrNothing(a);
    } else {
      var p, h := Pow2(n), Pow2(n - 1);
      Associate(a, 2, h);
      assert a * p == 2 * (a * h);
      OrIsSum(a, n - 1, b / 2);
    }
  }

  lemma {:induction false} OrNothing(a: nat)
    ensures BitOr(a, 0) == a
  {
    if a > 0 { OrNothing(a / 2); }
  }

  lemma {:induction false} Pow2Sum(a: nat, b: nat)
    ensures Pow2(a + b) == Pow2(a) * Pow2(b)
  {
    if a > 0 {
      Pow2Sum(a - 1, b);
      Associate(2, Pow2(a - 1), Pow2(b));
    }
  }

  /** With 2^s sets and lines of 2^l bytes, the shifts and masks that the code applies to an
      address, and to the tag and index of a victim, compute the quotients and remainders. */
  lemma ShiftsAndMasks(address: nat, tag: nat, s: nat, l: nat, index: nat)
    requires index < Pow2(s)
    ensures ShiftRight(address, s + l) == TagOf(address, Pow2(s), Pow2(l))
    ensures BitAnd(ShiftRight(address, l), Pow2(s) - 1) == IndexOf(address, Pow2(s), Pow2(l))
    ensures BitOr(ShiftLeft(tag, s + l), ShiftLeft(index, l)) == Rebuilt(tag, index, Pow2(s), Pow2(l))
  {
    Pow2Sum(s, l);
    ShiftRightDivides(address, s + l);
    ShiftRightDivides(address, l);
    MaskIsRemainder(address / Pow2(l), s);
    ShiftLeftMultiplies(tag, s + l);
    ShiftLeftMultiplies(index, l);
    Room(Pow2(l), index, Pow2(s));
    OrIsSum(tag, s + l, index * Pow2(l));
  }
}
