/** One set of the cache: ways, their recency list, and the plain LRU stack they implement. */
module LruSets {
  import opened FiniteSets

  datatype AccessType = Read | Write | InstFetch | WriteBack

  /** cache_entry_c. */
  datatype Entry = Entry(valid: bool, dirty: bool, tag: nat)

  // The reference: a stack of tags, most recent first.

  function Without(l: seq<nat>, t: nat): seq<nat> {
    if l == [] then [] else if l[0] == t then l[1..] else [l[0]] + Without(l[1..], t)
  }

  function Touched(l: seq<nat>, t: nat): seq<nat> { [t] + Without(l, t) }

  /** A line is brought in, and with all ways in use the least recent one leaves. */
  function Filled(l: seq<nat>, t: nat, assoc: nat): seq<nat> {
    if |l| < assoc || l == [] then [t] + l else [t] + l[..|l| - 1]
  }

  /** One access to the stack. A write-back that hits is not a use. */
  function Stack(l: seq<nat>, t: nat, kind: AccessType, isFill: bool, assoc: nat): seq<nat> {
    if t in l then (if kind == WriteBack then l else Touched(l, t))
    else if isFill then Filled(l, t, assoc)
    else l
  }

  lemma ConsNoDuplicates(x: nat, l: seq<nat>)
    ensures NoDuplicates([x] + l) <==> NoDuplicates(l) && x !in l
  {
    var s := [x] + l;
    assert forall i :: 0 <= i < |l| ==> s[i + 1] == l[i];
    if NoDuplicates(s) {
      forall i | 0 <= i < |l| ensures l[i] != x { assert s[0] != s[i + 1]; }
      forall i, j | 0 <= i < j < |l| ensures l[i] != l[j] { assert s[i + 1] != s[j + 1]; }
    }
  }

  lemma {:induction false} WithoutFacts(l: seq<nat>, t: nat)
    requires NoDuplicates(l)
    ensures NoDuplicates(Without(l, t)) && t !in Without(l, t)
    ensures forall x :: x in Without(l, t) <==> x in l && x != t
    ensures |Without(l, t)| == if t in l then |l| - 1 else |l|
  {
    hide NoDuplicates;
    if l != [] {
      assert l == [l[0]] + l[1..];
      ConsNoDuplicates(l[0], l[1..]);
      WithoutFacts(l[1..], t);
      ConsNoDuplicates(l[0], Without(l[1..], t));
    }
  }

  lemma PrefixNoDuplicates(l: seq<nat>)
    requires NoDuplicates(l) && l != []
    ensures NoDuplicates(l[..|l| - 1]) && l[|l| - 1] !in l[..|l| - 1]
  {
  }

  /** The stack never holds a tag twice nor more tags than there are ways. */
  lemma StackFacts(l: seq<nat>, t: nat, kind: AccessType, isFill: bool, assoc: nat)
    requires NoDuplicates(l) && |l| <= assoc && assoc > 0
    ensures var l' := Stack(l, t, kind, isFill, assoc); NoDuplicates(l') && |l'| <= assoc
  {
    hide NoDuplicates;
    WithoutFacts(l, t);
    ConsNoDuplicates(t, Without(l, t));
    ConsNoDuplicates(t, l);
    if l != [] {
      PrefixNoDuplicates(l);
      ConsNoDuplicates(t, l[..|l| - 1]);
    }
  }

  /** What an access does to the tags held: on a fill the new one comes, and with all ways in
      use the least recent one, and only that one, goes. */
  lemma StackMembers(l: seq<nat>, t: nat, kind: AccessType, isFill: bool, assoc: nat, x: nat)
    requires NoDuplicates(l) && |l| <= assoc && assoc > 0
    ensures x in Stack(l, t, kind, isFill, assoc) <==>
      if t in l || !isFill then x in l
      else x == t || (x in l && (|l| == assoc ==> x != l[|l| - 1]))
  {
    hide NoDuplicates;
    WithoutFacts(l, t);
    if l != [] {
      PrefixNoDuplicates(l);
      assert l == l[..|l| - 1] + [l[|l| - 1]];
    }
  }

  // Inclusion between associativities.

  /** small is a subsequence of large. */
  ghost predicate Subsequence(small: seq<nat>, large: seq<nat>) {
    if small == [] then true
    else if large == [] then false
    else if small[0] == large[0] then Subsequence(small[1..], large[1..])
    else Subsequence(small, large[1..])
  }

  lemma {:induction false} SubsequenceMembers(a: seq<nat>, b: seq<nat>)
    requires Subsequence(a, b)
    ensures |a| <= |b| && forall x :: x in a ==> x in b
    decreases |b|
  {
    if a != [] && b != [] {
      assert a == [a[0]] + a[1..] && b == [b[0]] + b[1..];
      if a[0] == b[0] { SubsequenceMembers(a[1..], b[1..]); } else { SubsequenceMembers(a, b[1..]); }
    }
  }

  lemma {:induction false} SubsequenceTail(a: seq<nat>, b: seq<nat>)
    requires a != [] && Subsequence(a, b)
    ensures Subsequence(a[1..], b)
    decreases |b|, 0
  {
    if a[0] == b[0] {
      SubsequenceSkip(b[0], a[1..], b[1..]);
      assert b == [b[0]] + b[1..];
    } else {
      SubsequenceTail(a, b[1..]);
      SubsequenceSkip(b[0], a[1..], b[1..]);
      assert b == [b[0]] + b[1..];
    }
  }

  lemma {:induction false} SubsequenceSkip(y: nat, a: seq<nat>, b: seq<nat>)
    requires Subsequence(a, b)
    ensures Subsequence(a, [y] + b)
    decreases |b|, 1
  {
    assert ([y] + b)[1..] == b;
    if a != [] && a[0] == y && b != [] {
      SubsequenceTail(a, b);
    }
  }

  lemma SubsequenceCons(y: nat, a: seq<nat>, b: seq<nat>)
    requires Subsequence(a, b)
    ensures Subsequence([y] + a, [y] + b)
  {
    assert ([y] + a)[1..] == a && ([y] + b)[1..] == b;
  }

  lemma {:induction false} SubsequenceWithout(a: seq<nat>, b: seq<nat>, t: nat)
    requires Subsequence(a, b) && NoDuplicates(a) && NoDuplicates(b)
    ensures Subsequence(Without(a, t), Without(b, t))
    decreases |b|
  {
    hide NoDuplicates;
    if a != [] {
      assert a == [a[0]] + a[1..] && b == [b[0]] + b[1..];
      ConsNoDuplicates(a[0], a[1..]);
      ConsNoDuplicates(b[0], b[1..]);
      if a[0] == b[0] {
        if a[0] != t {
          SubsequenceWithout(a[1..], b[1..], t);
          SubsequenceCons(a[0], Without(a[1..], t), Without(b[1..], t));
        }
      } else if b[0] == t {
        SubsequenceMembers(a, b[1..]);
        WithoutAbsent(a, t);
      } else {
        SubsequenceWithout(a, b[1..], t);
        SubsequenceSkip(b[0], Without(a, t), Without(b[1..], t));
      }
    }
  }

  lemma {:induction false} WithoutAbsent(l: seq<nat>, t: nat)
    requires t !in l
    ensures Without(l, t) == l
  {
    if l != [] {
      assert l == [l[0]] + l[1..];
      WithoutAbsent(l[1..], t);
    }
  }

  lemma {:induction false} SubsequenceDropLast(a: seq<nat>, b: seq<nat>)
    requires Subsequence(a, b) && a != []
    ensures b != [] && Subsequence(a[..|a| - 1], b[..|b| - 1]) && Subsequence(a[..|a| - 1], b)
    decreases |b|
  {
    var a', b' := a[..|a| - 1], b[..|b| - 1];
    assert b == b' + [b[|b| - 1]];
    if a[0] == b[0] {
      if |a| > 1 {
        SubsequenceDropLast(a[1..], b[1..]);
        assert a' == [a[0]] + a[1..][..|a| - 2] && b' == [b[0]] + b[1..][..|b| - 2] && b == [b[0]] + b[1..];
        SubsequenceCons(a[0], a[1..][..|a| - 2], b[1..][..|b| - 2]);
        SubsequenceCons(a[0], a[1..][..|a| - 2], b[1..]);
      }
    } else {
      SubsequenceDropLast(a, b[1..]);
      assert b' == [b[0]] + b[1..][..|b| - 2] && b == [b[0]] + b[1..];
      SubsequenceSkip(b[0], a', b[1..][..|b| - 2]);
      SubsequenceSkip(b[0], a', b[1..]);
    }
  }

  /** The stack of the smaller cache within that of the larger one; until the smaller one is
      full, both hold the same tags. */
  ghost predicate Included(small: seq<nat>, a: nat, large: seq<nat>, b: nat) {
    && 0 < a <= b && |small| <= a && |large| <= b
    && NoDuplicates(small) && NoDuplicates(large)
    && Subsequence(small, large)
    && (|small| < a ==> forall x :: x in large ==> x in small)
  }

  /** Every access that is not a write-back keeps the inclusion. */
  lemma InclusionStep(small: seq<nat>, a: nat, large: seq<nat>, b: nat, t: nat, kind: AccessType, isFill: bool)
    requires Included(small, a, large, b) && kind != WriteBack
    ensures Included(Stack(small, t, kind, isFill, a), a, Stack(large, t, kind, isFill, b), b)
    ensures t in small ==> t in large
  {
    hide NoDuplicates, Without;
    SubsequenceMembers(small, large);
    StackFacts(small, t, kind, isFill, a);
    StackFacts(large, t, kind, isFill, b);
    WithoutFacts(small, t);
    WithoutFacts(large, t);
    if t in large {
      SubsequenceWithout(small, large, t);
      if t in small {
        SubsequenceCons(t, Without(small, t), Without(large, t));
      } else if isFill {
        WithoutAbsent(small, t);
        SubsequenceDropLast(small, Without(large, t));
        SubsequenceCons(t, small[..|small| - 1], Without(large, t));
      } else {
        WithoutAbsent(small, t);
        SubsequenceSkip(t, small, Without(large, t));
      }
    } else if isFill {
      InclusionFill(small, a, large, b, t);
    }
  }

  lemma InclusionFill(small: seq<nat>, a: nat, large: seq<nat>, b: nat, t: nat)
    requires Included(small, a, large, b) && t !in large && t !in small
    ensures Subsequence(Filled(small, t, a), Filled(large, t, b))
    ensures |Filled(small, t, a)| < a ==> forall x :: x in Filled(large, t, b) ==> x in Filled(small, t, a)
  {
    if |small| < a {
      SameMembersSameLength(small, large);
      SubsequenceCons(t, small, large);
    } else {
      SubsequenceDropLast(small, large);
      SubsequenceCons(t, small[..|small| - 1], large);
      SubsequenceCons(t, small[..|small| - 1], large[..|large| - 1]);
    }
  }

  lemma SameMembersSameLength(a: seq<nat>, b: seq<nat>)
    requires NoDuplicates(a) && NoDuplicates(b) && Subsequence(a, b) && forall x :: x in b ==> x in a
    ensures |a| == |b|
  {
    SubsequenceMembers(a, b);
    MembersCount(a);
    MembersCount(b);
    assert Members(a) == Members(b);
  }

  datatype Request = Request(tag: nat, kind: AccessType, isFill: bool)

  /** The stack after a trace, from an empty set. */
  function Run(trace: seq<Request>, assoc: nat): seq<nat> {
    if trace == [] then [] else
      var r := trace[|trace| - 1];
      Stack(Run(trace[..|trace| - 1], assoc), r.tag, r.kind, r.isFill, assoc)
  }

  /** The i-th request of the trace hits. */
  predicate HitAt(trace: seq<Request>, i: nat, assoc: nat)
    requires i < |trace|
  {
    trace[i].tag in Run(trace[..i], assoc)
  }

  ghost predicate NoWriteBack(trace: seq<Request>) {
    forall i :: 0 <= i < |trace| ==> trace[i].kind != WriteBack
  }

  lemma {:induction false} RunsIncluded(trace: seq<Request>, a: nat, b: nat)
    requires 0 < a <= b && NoWriteBack(trace)
    ensures Included(Run(trace, a), a, Run(trace, b), b)
  {
    if trace != [] {
      var r := trace[|trace| - 1];
      RunsIncluded(trace[..|trace| - 1], a, b);
      InclusionStep(Run(trace[..|trace| - 1], a), a, Run(trace[..|trace| - 1], b), b, r.tag, r.kind, r.isFill);
    }
  }

  /** More ways never turn a hit into a miss, on any trace of reads, writes and fetches,
      lookups included. */
  lemma HitsAreMonotone(trace: seq<Request>, i: nat, a: nat, b: nat)
    requires 0 < a <= b && i < |trace| && NoWriteBack(trace[..i])
    ensures HitAt(trace, i, a) ==> HitAt(trace, i, b)
  {
    RunsIncluded(trace[..i], a, b);
    SubsequenceMembers(Run(trace[..i], a), Run(trace[..i], b));
  }

  // Write-backs among the requests.

  /** n, n - 1, ..., k of them. */
  function Down(n: nat, k: nat): (l: seq<nat>)
    requires k <= n
    ensures |l| == k && forall i :: 0 <= i < k ==> l[i] == n - i
  {
    if k == 0 then [] else [n] + Down(n - 1, k - 1)
  }

  /** Reads that bring in the lines 1 to n. */
  function Fills(n: nat): seq<Request> {
    if n == 0 then [] else Fills(n - 1) + [Request(n, Read, true)]
  }

  lemma {:induction false} FillsRun(n: nat, assoc: nat)
    requires assoc > 0
    ensures Run(Fills(n), assoc) == Down(n, if n <= assoc then n else assoc)
  {
    if n > 0 {
      hide Run;
      FillsRun(n - 1, assoc);
      RunNext(Fills(n - 1), Request(n, Read, true), assoc);
      var k := if n - 1 <= assoc then n - 1 else assoc;
      var l := Down(n - 1, k);
      assert n !in l;
      if k == assoc { assert [n] + l[..k - 1] == Down(n, assoc); }
    } else {
      assert Fills(0) == [] && Down(0, 0) == [];
    }
  }

  /** Fills of all b lines of the larger set, a write-back of the oldest one, and one more fill. */
  function Sweep(b: nat): seq<Request> {
    Fills(b) + [Request(1, WriteBack, true)] + [Request(b + 1, Read, true)]
  }

  /** The write-back brings line 1 back into the smaller set, as its most recent line; in the
      larger one, where it hits, line 1 stays the least recent and leaves next. */
  lemma SweepRuns(a: nat, b: nat)
    requires 1 < a < b
    ensures 1 in Run(Sweep(b), a) && 1 !in Run(Sweep(b), b)
  {
    hide Run;
    var wb, last := Request(1, WriteBack, true), Request(b + 1, Read, true);
    FillsRun(b, a);
    RunNext(Fills(b), wb, a);
    RunNext(Fills(b) + [wb], last, a);
    var small := [1] + Down(b, a)[..a - 1];
    assert Run(Fills(b) + [wb], a) == small;
    assert b + 1 !in small && Run(Sweep(b), a) == [b + 1] + small[..a - 1];
    assert Run(Sweep(b), a)[1] == 1;
    FillsRun(b, b);
    RunNext(Fills(b), wb, b);
    RunNext(Fills(b) + [wb], last, b);
    assert Down(b, b)[b - 1] == 1;
    assert Run(Fills(b) + [wb], b) == Down(b, b);
  }

  /** One way holds the last line brought in, and so does any larger set, whatever the kinds. */
  lemma {:induction false} OneWayIncluded(trace: seq<Request>, b: nat)
    requires b > 0
    ensures |Run(trace, 1)| <= 1 && |Run(trace, b)| <= b && NoDuplicates(Run(trace, 1)) && NoDuplicates(Run(trace, b))
    ensures forall x :: x in Run(trace, 1) ==> x in Run(trace, b)
  {
    if trace != [] {
      var init, r := trace[..|trace| - 1], trace[|trace| - 1];
      OneWayIncluded(init, b);
      StackFacts(Run(init, 1), r.tag, r.kind, r.isFill, 1);
      StackFacts(Run(init, b), r.tag, r.kind, r.isFill, b);
      forall x | x in Run(trace, 1) ensures x in Run(trace, b) {
        var small := Run(init, 1);
        assert x in small ==> |small| == 1 && x == small[0];
        StackMembers(small, r.tag, r.kind, r.isFill, 1, x);
        StackMembers(Run(init, b), r.tag, r.kind, r.isFill, b, x);
      }
    }
  }

  /** More ways keep every hit of every trace. */
  ghost predicate KeepsHits(a: nat, b: nat) {
    forall trace, i: nat :: i < |trace| && HitAt(trace, i, a) ==> HitAt(trace, i, b)
  }

  /** A hit in a ways that is a miss in b. */
  lemma WriteBackBreaksInclusion(a: nat, b: nat) returns (trace: seq<Request>, i: nat)
    requires 1 < a < b
    ensures i < |trace| && HitAt(trace, i, a) && !HitAt(trace, i, b)
  {
    trace, i := Sweep(b) + [Request(1, Read, true)], |Sweep(b)|;
    assert trace[..i] == Sweep(b);
    SweepRuns(a, b);
  }

  /** With write-backs in the traces, more ways keep every hit exactly when there was one way
      before, or when the number stays the same. */
  lemma HitsKeptExactly(a: nat, b: nat)
    requires 0 < a <= b
    ensures KeepsHits(a, b) <==> a == 1 || a == b
  {
    hide Run;
    if a == 1 {
      forall trace, i: nat | i < |trace| && HitAt(trace, i, a) ensures HitAt(trace, i, b) {
        OneWayIncluded(trace[..i], b);
      }
    } else if a < b {
      var trace, i := WriteBackBreaksInclusion(a, b);
    }
  }

  lemma RunNext(trace: seq<Request>, r: Request, assoc: nat)
    ensures Run(trace + [r], assoc) == Stack(Run(trace, assoc), r.tag, r.kind, r.isFill, assoc)
  {
    assert (trace + [r])[..|trace|] == trace;
  }
}
