/** Counting: the numbers below n, and sequences without duplicates. */
module FiniteSets {

  ghost function UpTo(n: nat): (s: set<nat>)
    ensures forall v: nat :: v in s <==> v < n
    ensures |s| == n
  {
    if n == 0 then {} else UpTo(n - 1) + {n - 1}
  }

  /** A subset has at most n members, and n only when it is everything. */
  lemma SubsetCount(s: set<nat>, n: nat)
    requires s <= UpTo(n)
    ensures |s| <= n && (|s| == n ==> s == UpTo(n))
  {
    var rest := UpTo(n) - s;
    assert UpTo(n) == s + rest;
    assert |s| + |rest| == n;
  }

  ghost predicate NoDuplicates<T(!new)>(s: seq<T>) {
    forall i, j :: 0 <= i < j < |s| ==> s[i] != s[j]
  }

  ghost function Members<T(!new)>(s: seq<T>): set<T> { set x | x in s }

  lemma {:induction false} MembersCount<T(!new)>(s: seq<T>)
    requires NoDuplicates(s)
    ensures |Members(s)| == |s|
  {
    if s != [] {
      var init := s[..|s| - 1];
      MembersCount(init);
      assert s == init + [s[|s| - 1]];
      assert Members(s) == Members(init) + {s[|s| - 1]};
    }
  }

  /** n + 1 numbers below n repeat. */
  lemma Repeats(s: seq<nat>, n: nat) returns (i: nat, j: nat)
    requires (forall k :: 0 <= k < |s| ==> s[k] < n) && |s| > n
    ensures i < j < |s| && s[i] == s[j]
  {
    if NoDuplicates(s) {
      MembersCount(s);
      SubsetCount(Members(s), n);
      assert false;
    }
    i, j :| 0 <= i < j < |s| && s[i] == s[j];
  }

  /** n different numbers below n are all of them. */
  lemma Exhausts(s: seq<nat>, n: nat, v: nat)
    requires NoDuplicates(s) && |s| == n && (forall k :: 0 <= k < |s| ==> s[k] < n) && v < n
    ensures v in s
  {
    MembersCount(s);
    SubsetCount(Members(s), n);
    assert v in Members(s);
  }
}
