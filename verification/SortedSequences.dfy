/** Strictly increasing sequences, with and without a key. */
module SortedSequences {

  ghost predicate Sorted(s: seq<int>) {
    forall i, j :: 0 <= i < j < |s| ==> s[i] < s[j]
  }

  /** get_index: the first position whose key is not below t. */
  function GetIndex(s: seq<int>, t: int): (i: nat)
    ensures i <= |s| && (forall j :: 0 <= j < i ==> s[j] < t) && (i < |s| ==> s[i] >= t)
  {
    if s == [] || s[0] >= t then 0 else 1 + GetIndex(s[1..], t)
  }

  lemma GetIndexIs(s: seq<int>, t: int, i: nat)
    requires i <= |s| && (forall j :: 0 <= j < i ==> s[j] < t) && (i < |s| ==> s[i] >= t)
    ensures GetIndex(s, t) == i
  {
  }

  ghost function With(s: seq<int>, k: int): seq<int> {
    s[..GetIndex(s, k)] + [k] + s[GetIndex(s, k)..]
  }

  ghost function Without(s: seq<int>, k: int): seq<int>
    requires k in s && Sorted(s)
  {
    IndexOfMember(s, k);
    s[..GetIndex(s, k)] + s[GetIndex(s, k) + 1..]
  }

  lemma IndexOfMember(s: seq<int>, k: int)
    requires k in s && Sorted(s)
    ensures GetIndex(s, k) < |s| && s[GetIndex(s, k)] == k
  {
    var j :| 0 <= j < |s| && s[j] == k;
  }

  /** The in-order result of an insertion: sorted, with the new key and nothing else new. */
  lemma WithFacts(s: seq<int>, k: int)
    requires Sorted(s) && k !in s
    ensures Sorted(With(s, k)) && multiset(With(s, k)) == multiset(s) + multiset{k}
  {
    hide GetIndex;
    var i := GetIndex(s, k);
    assert s == s[..i] + s[i..];
    assert i < |s| ==> s[i] in s;
    assert forall j :: i <= j < |s| ==> k < s[j];
  }

  /** One more of the key, whether it was there or not. */
  lemma WithCounts(s: seq<int>, k: int)
    ensures multiset(With(s, k)) == multiset(s) + multiset{k}
    ensures Sorted(s) && k in s ==> multiset(With(s, k))[k] == 2
  {
    hide GetIndex;
    var i := GetIndex(s, k);
    assert s == s[..i] + s[i..];
    if Sorted(s) && k in s { OccursOnce(s, k); }
  }

  lemma OccursOnce(s: seq<int>, k: int)
    requires Sorted(s) && k in s
    ensures multiset(s)[k] == 1
  {
    hide Sorted;
    var i :| 0 <= i < |s| && s[i] == k;
    var a, b := s[..i], s[i + 1..];
    assert s == a + [k] + b;
    OthersDiffer(s, i);
    assert multiset(s) == multiset(a) + multiset{k} + multiset(b);
  }

  lemma OthersDiffer(s: seq<int>, i: nat)
    requires Sorted(s) && i < |s|
    ensures s[i] !in s[..i] && s[i] !in s[i + 1..]
  {
    var a, b := s[..i], s[i + 1..];
    assert forall j :: 0 <= j < |a| ==> a[j] == s[j];
    assert forall j :: 0 <= j < |b| ==> b[j] == s[i + 1 + j];
  }

  lemma WithoutFacts(s: seq<int>, k: int)
    requires Sorted(s) && k in s
    ensures Sorted(Without(s, k)) && multiset(Without(s, k)) == multiset(s) - multiset{k}
  {
    hide GetIndex;
    IndexOfMember(s, k);
    CutOut(s, GetIndex(s, k));
    StillSorted(s, GetIndex(s, k));
  }

  lemma CutOut(s: seq<int>, i: nat)
    requires i < |s|
    ensures multiset(s[..i] + s[i + 1..]) == multiset(s) - multiset{s[i]}
  {
    assert s == s[..i] + [s[i]] + s[i + 1..];
  }

  lemma StillSorted(s: seq<int>, i: nat)
    requires i < |s| && Sorted(s)
    ensures Sorted(s[..i] + s[i + 1..])
  {
    var t := s[..i] + s[i + 1..];
    assert forall j :: 0 <= j < |t| ==> t[j] == s[if j < i then j else j + 1];
  }

  lemma SortedParts(a: seq<int>, m: seq<int>, r: seq<int>)
    requires Sorted(a + m + r)
    ensures Sorted(a) && Sorted(m) && Sorted(r)
    ensures forall x, y :: x in a && y in m ==> x < y
    ensures forall x, y :: x in m && y in r ==> x < y
    ensures forall x, y :: x in a && y in r ==> x < y
  {
    var s := a + m + r;
    assert forall i :: 0 <= i < |a| ==> s[i] == a[i];
    assert forall i :: 0 <= i < |m| ==> s[|a| + i] == m[i];
    assert forall i :: 0 <= i < |r| ==> s[|a| + |m| + i] == r[i];
  }

  /** An insertion into the middle part is one into the whole. */
  lemma WithInside(a: seq<int>, m: seq<int>, r: seq<int>, k: int)
    requires (forall x :: x in a ==> x < k) && (r == [] || r[0] >= k)
    ensures With(a + m + r, k) == a + With(m, k) + r
  {
    hide GetIndex;
    var i := GetIndex(m, k);
    var s := a + m + r;
    assert forall j :: 0 <= j < |a| ==> a[j] in a;
    assert i == |m| && r != [] ==> s[|a| + i] == r[0];
    GetIndexIs(s, k, |a| + i);
    PutInside(a, m, r, i, k);
  }

  lemma PutInside(a: seq<int>, m: seq<int>, r: seq<int>, i: nat, k: int)
    requires i <= |m|
    ensures var s := a + m + r; s[..|a| + i] + [k] + s[|a| + i..] == a + (m[..i] + [k] + m[i..]) + r
  {
  }

  lemma WithoutInside(a: seq<int>, m: seq<int>, r: seq<int>, k: int)
    requires Sorted(a + m + r) && k in m
    ensures k in a + m + r && Sorted(m) && Without(a + m + r, k) == a + Without(m, k) + r
  {
    hide GetIndex, Sorted;
    SortedParts(a, m, r);
    IndexOfMember(m, k);
    IndexInside(a, m, r, k);
    CutInside(a, m, r, GetIndex(m, k));
  }

  lemma IndexInside(a: seq<int>, m: seq<int>, r: seq<int>, k: int)
    requires (forall x, y :: x in a && y in m ==> x < y) && k in m && Sorted(m)
    ensures k in a + m + r && GetIndex(a + m + r, k) == |a| + GetIndex(m, k)
  {
    hide GetIndex;
    IndexOfMember(m, k);
    var i := GetIndex(m, k);
    var s := a + m + r;
    assert forall j :: 0 <= j < |a| ==> a[j] in a;
    assert s[|a| + i] == m[i];
    GetIndexIs(s, k, |a| + i);
  }

  lemma CutInside(a: seq<int>, m: seq<int>, r: seq<int>, i: nat)
    requires i < |m|
    ensures var s := a + m + r; s[..|a| + i] + s[|a| + i + 1..] == a + (m[..i] + m[i + 1..]) + r
  {
  }
}
