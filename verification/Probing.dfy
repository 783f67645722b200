/** Probe sequences of the open-addressing hash table. */
module Probing {
  import opened FiniteSets
  import opened Powers

  datatype Probe = Linear | Triangular

  /** get_next_pos of the two derived tables. */
  function GetNextPos(probe: Probe, pos: nat, step: nat, tableSize: nat): (r: nat)
    requires tableSize > 0
    ensures r < tableSize
  {
    match probe
    case Linear => (pos + step) % tableSize
    case Triangular => (pos + step * (step + 1) / 2) % tableSize
  }

  /** The i-th position looked at for a key with hash value h. */
  function Position(probe: Probe, h: nat, i: nat, tableSize: nat): (r: nat)
    requires tableSize > 0
    ensures r < tableSize
  {
    if i == 0 then h % tableSize else GetNextPos(probe, h % tableSize, i, tableSize)
  }

  ghost predicate IsPow2(n: nat) { exists k :: n == Pow2(k) }

  ghost predicate Divides(d: nat, x: int)
    requires d > 0
  {
    exists q: int :: x == d * q
  }

  /** A power of two that divides a product with an odd factor divides the other factor. */
  lemma {:induction false} OddFactor(m: nat, a: int, b: int)
    requires a % 2 == 1 && Divides(Pow2(m), a * b)
    ensures Divides(Pow2(m), b)
  {
    if m == 0 {
      assert b == 1 * b;
    } else {
      var q: int :| a * b == Pow2(m) * q;
      OddTimes(a, b, Pow2(m - 1) * q);
      var b' := b / 2;
      Halve(a, b', Pow2(m - 1), q);
      OddFactor(m - 1, a, b');
      var r: int :| b' == Pow2(m - 1) * r;
      assert b == Pow2(m) * r;
    }
  }

  lemma OddTimes(a: int, b: int, c: int)
    requires a % 2 == 1 && a * b == 2 * c
    ensures b % 2 == 0
  {
    var a' := a / 2;
    assert a * b == 2 * (a' * b) + b;
    assert b == 2 * (c - a' * b);
  }

  lemma Halve(a: int, b: int, p: nat, q: int)
    requires p > 0 && a * (2 * b) == 2 * p * q
    ensures Divides(p, a * b)
  {
    assert a * b == p * q;
  }

  function Offset(probe: Probe, i: nat): nat {
    if probe == Linear then i else i * (i + 1) / 2
  }

  lemma PositionIsOffset(probe: Probe, h: nat, i: nat, n: nat)
    requires n > 0
    ensures Position(probe, h, i, n) == (h % n + Offset(probe, i)) % n
  {
  }

  lemma EqualRemainders(p: nat, x: nat, y: nat, n: nat)
    requires n > 0 && (p + x) % n == (p + y) % n
    ensures Divides(n, y - x)
  {
    var a, b := (p + x) / n, (p + y) / n;
    assert p + x == n * a + (p + x) % n && p + y == n * b + (p + y) % n;
    assert y - x == n * (b - a);
  }

  lemma TooSmall(n: nat, x: nat)
    requires n > 0 && Divides(n, x) && 0 < x
    ensures x >= n
  {
    var q: int :| x == n * q;
    assert q >= 1;
  }

  lemma TriangleDifference(i: nat, j: nat)
    ensures 2 * (j * (j + 1) / 2 - i * (i + 1) / 2) == (j - i) * (j + i + 1)
  {
    Even(i);
    Even(j);
  }

  lemma {:induction false} Even(i: nat)
    ensures i * (i + 1) % 2 == 0
  {
    if i > 0 {
      Even(i - 1);
      assert i * (i + 1) == (i - 1) * i + 2 * i;
    }
  }

  /** Within one round of a power-of-two table no position repeats. */
  lemma DistinctPositions(probe: Probe, h: nat, i: nat, j: nat, n: nat)
    requires IsPow2(n) && i < j < n
    ensures Position(probe, h, i, n) != Position(probe, h, j, n)
  {
    hide Position, Offset;
    if Position(probe, h, i, n) == Position(probe, h, j, n) {
      PositionIsOffset(probe, h, i, n);
      PositionIsOffset(probe, h, j, n);
      EqualRemainders(h % n, Offset(probe, i), Offset(probe, j), n);
      NotDivided(probe, i, j, n);
    }
  }

  lemma NotDivided(probe: Probe, i: nat, j: nat, n: nat)
    requires IsPow2(n) && i < j < n
    ensures !Divides(n, Offset(probe, j) - Offset(probe, i))
  {
    if Divides(n, Offset(probe, j) - Offset(probe, i)) {
      if probe == Triangular {
        var k :| n == Pow2(k);
        TriangleDivided(i, j, k);
        var m := if (j - i) % 2 == 1 then j + i + 1 else j - i;
        TooSmall(2 * n, m);
      } else {
        TooSmall(n, j - i);
      }
    }
  }

  lemma TriangleProduct(i: nat, j: nat, k: nat)
    requires Divides(Pow2(k), Offset(Triangular, j) - Offset(Triangular, i))
    ensures Divides(Pow2(k + 1), (j - i) * (j + i + 1))
  {
    var q: int :| Offset(Triangular, j) - Offset(Triangular, i) == Pow2(k) * q;
    TriangleDifference(i, j);
    Twice(Pow2(k), q);
  }

  lemma Twice(n: nat, q: int)
    ensures 2 * (n * q) == (2 * n) * q
  {
  }

  lemma Commutes(a: int, b: int)
    ensures a * b == b * a
  {
  }

  lemma TriangleDivided(i: nat, j: nat, k: nat)
    requires i < j && Divides(Pow2(k), Offset(Triangular, j) - Offset(Triangular, i))
    ensures Divides(2 * Pow2(k), if (j - i) % 2 == 1 then j + i + 1 else j - i)
  {
    hide Offset, Divides;
    var a, b := j - i, j + i + 1;
    TriangleProduct(i, j, k);
    if a % 2 == 1 {
      OddFactor(k + 1, a, b);
    } else {
      Commutes(a, b);
      OddFactor(k + 1, b, a);
    }
  }

  /** One round visits every slot. */
  lemma EveryPositionReached(probe: Probe, h: nat, n: nat, p: nat)
    requires IsPow2(n) && p < n
    ensures exists i :: 0 <= i < n && Position(probe, h, i, n) == p
  {
    hide Position;
    var s: seq<nat> := seq(n, i requires 0 <= i < n => Position(probe, h, i, n));
    forall i, j | 0 <= i < j < |s| ensures s[i] != s[j] {
      DistinctPositions(probe, h, i, j, n);
    }
    Exhausts(s, n, p);
    var i :| 0 <= i < |s| && s[i] == p;
  }
}
