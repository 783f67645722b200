/** The stretches of array elements that B-tree nodes shift. */
module BTreeArrays {

  /** std::move of a range, with the effect of memmove. */
  method MoveRange<T>(src: array<T>, first: nat, last: nat, dst: array<T>, to: nat)
    requires first <= last <= src.Length && to + (last - first) <= dst.Length
    modifies dst
    ensures dst[..] == old(dst[..to] + src[first..last] + dst[to + (last - first)..])
  {
    ghost var (before, moved) := (dst[..], src[first..last]);
    forall i | 0 <= i < last - first {
      dst[to + i] := src[first + i];
    }
    assert dst[..to] == before[..to];
    assert forall i :: 0 <= i < last - first ==> dst[to + i] == moved[i];
    assert dst[to..to + (last - first)] == moved;
    assert dst[to + (last - first)..] == before[to + (last - first)..];
    assert dst[..] == dst[..to] + dst[to..to + (last - first)] + dst[to + (last - first)..];
  }

  ghost function Down<T>(s: seq<T>, from: nat, i: nat): seq<T>
    requires from <= i < |s|
  {
    s[..from] + s[from + 1..i + 1] + s[i..]
  }

  lemma OneDown<T>(s: seq<T>, from: nat, i: nat)
    requires from <= i && i + 1 < |s|
    ensures |Down(s, from, i)| == |s| && Down(s, from, i)[i + 1] == s[i + 1]
    ensures Down(s, from, i + 1) == Down(s, from, i)[i := s[i + 1]]
  {
  }

  /** The loop a[i] = a[i + 1], for i from `from` up to but not including `to`. */
  method ShiftDown<T>(a: array<T>, from: nat, to: nat)
    requires from <= to < a.Length
    modifies a
    ensures a[..] == old(a[..from] + a[from + 1..to + 1] + a[to..])
  {
    ghost var before := a[..];
    assert before == Down(before, from, from);
    var i := from;
    while i < to
      invariant from <= i <= to
      invariant a[..] == Down(before, from, i)
    {
      hide Down;
      OneDown(before, from, i);
      ghost var now := a[..];
      assert a[i + 1] == now[i + 1];
      a[i] := a[i + 1];
      assert a[..] == now[i := before[i + 1]];
      i := i + 1;
    }
  }

  ghost function Up<T>(s: seq<T>, i: nat, to: nat): seq<T>
    requires i <= to < |s|
  {
    s[..i + 1] + s[i..to] + s[to + 1..]
  }

  lemma OneUp<T>(s: seq<T>, i: nat, to: nat)
    requires 0 < i <= to < |s|
    ensures |Up(s, i, to)| == |s| && Up(s, i, to)[i - 1] == s[i - 1]
    ensures Up(s, i - 1, to) == Up(s, i, to)[i := s[i - 1]]
  {
  }

  /** The loop a[i + 1] = a[i], for i from `to` - 1 down to `from`. */
  method ShiftUp<T>(a: array<T>, from: nat, to: nat)
    requires from <= to < a.Length
    modifies a
    ensures a[..] == old(a[..from + 1] + a[from..to] + a[to + 1..])
  {
    ghost var before := a[..];
    assert before == Up(before, to, to);
    var i := to;
    while i > from
      invariant from <= i <= to
      invariant a[..] == Up(before, i, to)
    {
      hide Up;
      OneUp(before, i, to);
      ghost var now := a[..];
      assert a[i - 1] == now[i - 1];
      a[i] := a[i - 1];
      assert a[..] == now[i := before[i - 1]];
      i := i - 1;
    }
  }
}
