/** The cache tag store: sets of ways with an LRU list, accessed by address. */
module Caches {
  import opened FiniteSets
  import opened LruSets
  import opened CacheAddresses
  import opened DirtyLines

  /** The LRU list names every valid way once, and no two valid ways hold the same tag. */
  ghost predicate SetOk(es: seq<Entry>, lru: seq<nat>) {
    && NoDuplicates(lru)
    && (forall w: nat :: w in lru <==> w < |es| && es[w].valid)
    && forall v, w :: 0 <= v < w < |es| && es[v].valid && es[w].valid ==> es[v].tag != es[w].tag
  }

  /** The tags in recency order. */
  ghost function TagsOf(es: seq<Entry>, lru: seq<nat>): seq<nat> {
    if lru == [] then [] else [if lru[0] < |es| then es[lru[0]].tag else 0] + TagsOf(es, lru[1..])
  }

  /** The tags whose line has been written since it came in. */
  ghost function DirtyTags(es: seq<Entry>): set<nat> {
    set w | 0 <= w < |es| && es[w].valid && es[w].dirty :: es[w].tag
  }

  lemma {:induction false} TagsAt(es: seq<Entry>, lru: seq<nat>)
    ensures |TagsOf(es, lru)| == |lru|
    ensures forall i :: 0 <= i < |lru| && lru[i] < |es| ==> TagsOf(es, lru)[i] == es[lru[i]].tag
  {
    if lru != [] {
      TagsAt(es, lru[1..]);
    }
  }

  /** Only the tags of the listed ways matter. */
  lemma {:induction false} TagsSame(es: seq<Entry>, es': seq<Entry>, lru: seq<nat>)
    requires |es| == |es'| && forall w :: w in lru && w < |es| ==> es'[w].tag == es[w].tag
    ensures TagsOf(es', lru) == TagsOf(es, lru)
  {
    if lru != [] {
      TagsSame(es, es', lru[1..]);
    }
  }

  lemma {:induction false} TagsInit(es: seq<Entry>, lru: seq<nat>)
    requires lru != []
    ensures |TagsOf(es, lru)| == |lru|
    ensures TagsOf(es, lru[..|lru| - 1]) == TagsOf(es, lru)[..|lru| - 1]
  {
    TagsAt(es, lru);
    if |lru| > 1 {
      TagsInit(es, lru[1..]);
      TagsAt(es, lru[1..]);
      assert lru[..|lru| - 1] == [lru[0]] + lru[1..][..|lru| - 2];
    }
  }

  lemma {:induction false} TagsWithout(es: seq<Entry>, lru: seq<nat>, w: nat)
    requires w < |es| && forall v: nat :: v in lru && v != w ==> v < |es| && es[v].tag != es[w].tag
    ensures TagsOf(es, Without(lru, w)) == Without(TagsOf(es, lru), es[w].tag)
  {
    if lru != [] {
      assert lru == [lru[0]] + lru[1..];
      if lru[0] != w {
        assert lru[0] in lru && forall v: nat :: v in lru[1..] ==> v in lru;
        TagsWithout(es, lru[1..], w);
        TagsCons(es, lru[0], Without(lru[1..], w));
      }
    }
  }

  /** The stack holds exactly the tags of the valid ways. */
  lemma TagsMembers(es: seq<Entry>, lru: seq<nat>)
    requires SetOk(es, lru)
    ensures forall w :: 0 <= w < |es| && es[w].valid ==> es[w].tag in TagsOf(es, lru)
    ensures forall t :: t in TagsOf(es, lru) ==> exists w :: 0 <= w < |es| && es[w].valid && es[w].tag == t
    ensures NoDuplicates(TagsOf(es, lru)) && |lru| <= |es|
  {
    TagsAt(es, lru);
    var tags := TagsOf(es, lru);
    forall w | 0 <= w < |es| && es[w].valid ensures es[w].tag in tags {
      assert w in lru;
      var i :| 0 <= i < |lru| && lru[i] == w;
      assert tags[i] == es[w].tag;
    }
    forall i, j | 0 <= i < j < |tags| ensures tags[i] != tags[j] {
      assert lru[i] in lru && lru[j] in lru;
    }
    forall t | t in tags ensures exists w :: 0 <= w < |es| && es[w].valid && es[w].tag == t {
      var i :| 0 <= i < |tags| && tags[i] == t;
      assert lru[i] in lru;
    }
    MembersCount(lru);
    SubsetCount(Members(lru), |es|);
  }

  /** A hit in way w: it becomes the most recent one, unless a write-back hits. */
  lemma HitStep(es: seq<Entry>, lru: seq<nat>, w: nat, es': seq<Entry>, lru': seq<nat>, kind: AccessType)
    requires SetOk(es, lru) && w < |es| && es[w].valid
    requires lru' == if kind == WriteBack then lru else [w] + Without(lru, w)
    requires es' == es[w := es[w].(dirty := es[w].dirty || kind == Write || kind == WriteBack)]
    ensures SetOk(es', lru') && es[w].tag in TagsOf(es, lru)
    ensures forall isFill :: TagsOf(es', lru') == Stack(TagsOf(es, lru), es[w].tag, kind, isFill, |es|)
  {
    hide TagsOf, Without, NoDuplicates;
    TagsMembers(es, lru);
    WithoutFacts(lru, w);
    ConsNoDuplicates(w, Without(lru, w));
    TagsWithout(es, lru, w);
    TagsSame(es, es', lru');
    TagsCons(es, w, Without(lru, w));
  }

  lemma TagsCons(es: seq<Entry>, w: nat, lru: seq<nat>)
    requires w < |es|
    ensures TagsOf(es, [w] + lru) == [es[w].tag] + TagsOf(es, lru)
  {
    assert ([w] + lru)[1..] == lru;
  }

  /** A miss filled into an invalid way. */
  lemma FillFree(es: seq<Entry>, lru: seq<nat>, w: nat, e: Entry)
    requires SetOk(es, lru) && w < |es| && !es[w].valid && e.valid && e.tag !in TagsOf(es, lru)
    ensures SetOk(es[w := e], [w] + lru) && |lru| < |es|
    ensures forall kind :: TagsOf(es[w := e], [w] + lru) == Stack(TagsOf(es, lru), e.tag, kind, true, |es|)
    ensures |TagsOf(es, lru)| < |es|
  {
    hide TagsOf, NoDuplicates;
    TagsAt(es, lru);
    TagsMembers(es, lru);
    ConsNoDuplicates(w, lru);
    TagsSame(es, es[w := e], lru);
    TagsCons(es[w := e], w, lru);
    RoomLeft(es, lru, w);
  }

  lemma RoomLeft(es: seq<Entry>, lru: seq<nat>, w: nat)
    requires SetOk(es, lru) && w < |es| && !es[w].valid
    ensures |lru| < |es|
  {
    MembersCount(lru);
    SubsetCount(Members(lru), |es|);
    assert w !in Members(lru);
  }

  lemma AllInUse(es: seq<Entry>, lru: seq<nat>)
    requires SetOk(es, lru) && forall w :: 0 <= w < |es| ==> es[w].valid
    ensures |lru| == |es|
  {
    MembersCount(lru);
    assert Members(lru) == UpTo(|es|);
  }

  /** A miss with every way in use: the least recent way is refilled. */
  lemma FillEvict(es: seq<Entry>, lru: seq<nat>, e: Entry)
    requires SetOk(es, lru) && |es| > 0 && (forall w :: 0 <= w < |es| ==> es[w].valid)
    requires e.valid && e.tag !in TagsOf(es, lru)
    ensures |lru| == |es| && var w := lru[|lru| - 1]; w < |es| && |TagsOf(es, lru)| == |lru|
    ensures var w := lru[|lru| - 1];
            var init := lru[..|lru| - 1];
            && es[w].tag == TagsOf(es, lru)[|lru| - 1]
            && SetOk(es[w := e], [w] + init)
            && forall kind :: TagsOf(es[w := e], [w] + init) == Stack(TagsOf(es, lru), e.tag, kind, true, |es|)
  {
    hide TagsOf, NoDuplicates;
    AllInUse(es, lru);
    TagsAt(es, lru);
    var w := lru[|lru| - 1];
    var init := lru[..|lru| - 1];
    assert w in lru && lru == init + [w];
    TagsMembers(es, lru);
    PrefixNoDuplicates(lru);
    ConsNoDuplicates(w, init);
    TagsInit(es, lru);
    TagsSame(es, es[w := e], init);
    TagsCons(es[w := e], w, init);
    forall v: nat ensures v in [w] + init <==> v < |es| && es[w := e][v].valid {
      assert v in lru <==> v in [w] + init;
    }
  }

  lemma HitDirty(es: seq<Entry>, w: nat, kind: AccessType)
    requires w < |es| && es[w].valid
    ensures var es' := es[w := es[w].(dirty := es[w].dirty || kind == Write || kind == WriteBack)];
            DirtyTags(es') == if kind == Write || kind == WriteBack then DirtyTags(es) + {es[w].tag} else DirtyTags(es)
  {
    if kind == Write || kind == WriteBack {
      var es' := es[w := es[w].(dirty := true)];
      assert es'[w].valid && es'[w].dirty;
      forall t | t in DirtyTags(es) ensures t in DirtyTags(es') {
        var v :| 0 <= v < |es| && es[v].valid && es[v].dirty && es[v].tag == t;
        assert es'[v].valid && es'[v].dirty && es'[v].tag == t;
      }
    } else {
      assert es[w := es[w].(dirty := es[w].dirty)] == es;
    }
  }

  lemma FreeDirty(es: seq<Entry>, w: nat, e: Entry)
    requires w < |es| && !es[w].valid && e.valid
    ensures DirtyTags(es[w := e]) == DirtyTags(es) + if e.dirty then {e.tag} else {}
  {
    var es' := es[w := e];
    assert es'[w] == e;
    forall t | t in DirtyTags(es) ensures t in DirtyTags(es') {
      var v :| 0 <= v < |es| && es[v].valid && es[v].dirty && es[v].tag == t;
      assert es'[v] == es[v];
    }
  }

  lemma EvictDirty(es: seq<Entry>, lru: seq<nat>, w: nat, e: Entry)
    requires SetOk(es, lru) && w < |es| && es[w].valid && e.valid
    ensures DirtyTags(es[w := e]) == DirtyTags(es) - {es[w].tag} + if e.dirty then {e.tag} else {}
    ensures es[w].dirty <==> es[w].tag in DirtyTags(es)
  {
    var es' := es[w := e];
    assert es'[w] == e;
    forall t | t in DirtyTags(es) && t != es[w].tag ensures t in DirtyTags(es') {
      var v :| 0 <= v < |es| && es[v].valid && es[v].dirty && es[v].tag == t;
      assert es'[v] == es[v];
    }
    forall t | t in DirtyTags(es') ensures t in DirtyTags(es) - {es[w].tag} + if e.dirty then {e.tag} else {} {
      var v :| 0 <= v < |es'| && es'[v].valid && es'[v].dirty && es'[v].tag == t;
      if v != w { assert es[v].valid && es[v].dirty && es[v].tag != es[w].tag; }
    }
  }

  /** cache_set_c. */
  class CacheSet {
    const entries: array<Entry>
    var lru: seq<nat>

    ghost predicate Valid()
      reads this, entries
    {
      entries.Length > 0 && SetOk(entries[..], lru)
    }

    /** The tags held, most recent first. */
    ghost function Tags(): seq<nat>
      reads this, entries
    {
      TagsOf(entries[..], lru)
    }

    ghost function Dirty(): set<nat>
      reads this, entries
    {
      DirtyTags(entries[..])
    }

    constructor (assoc: nat)
      requires assoc > 0
      ensures Valid() && Tags() == [] && Dirty() == {} && entries.Length == assoc && fresh(entries)
    {
      entries := new Entry[assoc](_ => Entry(false, false, 0));
      lru := [];
    }

    /** The search loop of access: the way holding the tag, and the last invalid way seen. */
    method Find(tag: nat) returns (hit: bool, way: nat, invalid: int)
      requires Valid()
      ensures hit ==> way < entries.Length && entries[way].valid && entries[way].tag == tag
      ensures !hit ==> forall w :: 0 <= w < entries.Length && entries[w].valid ==> entries[w].tag != tag
      ensures -1 <= invalid < entries.Length && (invalid != -1 ==> !entries[invalid].valid)
      ensures !hit && invalid == -1 ==> forall w :: 0 <= w < entries.Length ==> entries[w].valid
      ensures !hit && invalid != -1 ==> forall w :: invalid < w < entries.Length ==> entries[w].valid
    {
      hit, way, invalid := false, 0, -1;
      for jj := 0 to entries.Length
        invariant -1 <= invalid < jj && (invalid != -1 ==> !entries[invalid].valid)
        invariant forall w :: 0 <= w < jj && entries[w].valid ==> entries[w].tag != tag
        invariant forall w :: invalid < w < jj ==> entries[w].valid
      {
        if entries[jj].tag == tag && entries[jj].valid {
          hit, way := true, jj;
          return;
        }
        if !entries[jj].valid {
          invalid := jj;
        }
      }
    }

    /** The part of access that concerns one set. */
    method Access(tag: nat, kind: AccessType, isFill: bool)
        returns (hit: bool, evicted: bool, victim: nat, dirtyVictim: bool)
      requires Valid()
      modifies this, entries
      ensures Valid() && Tags() == Stack(old(Tags()), tag, kind, isFill, entries.Length)
      ensures hit <==> tag in old(Tags())
      ensures evicted <==> !hit && isFill && |old(Tags())| == entries.Length
      ensures if evicted then victim == old(Tags())[entries.Length - 1] else victim == 0
      ensures dirtyVictim <==> evicted && victim in old(Dirty())
      ensures Dirty() == NextDirty(old(Dirty()), tag, kind, isFill, hit, evicted, victim)
    {
      hide SetOk, TagsOf, DirtyTags;
      evicted, victim, dirtyVictim := false, 0, false;
      var way, invalid;
      hit, way, invalid := Find(tag);
      TagsMembers(entries[..], lru);
      if hit {
        Use(way, kind, isFill);
      } else if isFill {
        evicted, victim, dirtyVictim := Fill(tag, kind, invalid);
      }
    }

    /** A hit: the recency list and the dirty bit. */
    method Use(way: nat, kind: AccessType, ghost isFill: bool)
      requires Valid() && way < entries.Length && entries[way].valid
      modifies this, entries
      ensures Valid() && Tags() == Stack(old(Tags()), old(entries[way].tag), kind, isFill, entries.Length)
      ensures Dirty() == if kind == Write || kind == WriteBack then old(Dirty()) + {old(entries[way].tag)}
        else old(Dirty())
    {
      hide SetOk, TagsOf, DirtyTags, Stack;
      ghost var es := entries[..];
      ghost var es' := es[way := es[way].(dirty := es[way].dirty || kind == Write || kind == WriteBack)];
      HitStep(es, lru, way, es', if kind == WriteBack then lru else [way] + Without(lru, way), kind);
      HitDirty(es, way, kind);
      if kind != WriteBack {
        lru := [way] + Without(lru, way);
      }
      if kind == Write || kind == WriteBack {
        entries[way] := entries[way].(dirty := true);
      }
      assert entries[..] == es';
    }

    /** A miss that brings the line in. */
    method Fill(tag: nat, kind: AccessType, invalid: int) returns (evicted: bool, victim: nat, dirtyVictim: bool)
      requires Valid() && tag !in Tags()
      requires -1 <= invalid < entries.Length && (invalid != -1 ==> !entries[invalid].valid)
      requires invalid == -1 ==> forall w :: 0 <= w < entries.Length ==> entries[w].valid
      modifies this, entries
      ensures Valid() && Tags() == Stack(old(Tags()), tag, kind, true, entries.Length)
      ensures evicted <==> |old(Tags())| == entries.Length
      ensures if evicted then victim == old(Tags())[entries.Length - 1] else victim == 0
      ensures dirtyVictim <==> evicted && victim in old(Dirty())
      ensures Dirty() == (if evicted then old(Dirty()) - {victim} else old(Dirty()))
        + (if kind == Write then {tag} else {})
    {
      hide SetOk, TagsOf, DirtyTags, Stack;
      evicted, victim, dirtyVictim := false, 0, false;
      ghost var es := entries[..];
      ghost var e := Entry(true, kind == Write, tag);
      var updateIdx: nat;
      if invalid != -1 {
        updateIdx := invalid;
        FillFree(es, lru, updateIdx, e);
        FreeDirty(es, updateIdx, e);
        lru := [updateIdx] + lru;
      } else {
        FillEvict(es, lru, e);
        updateIdx := lru[|lru| - 1];
        EvictDirty(es, lru, updateIdx, e);
        lru := lru[..|lru| - 1];
        lru := [updateIdx] + lru;
        evicted, victim := true, entries[updateIdx].tag;
        if entries[updateIdx].dirty {
          dirtyVictim := true;
        }
      }
      entries[updateIdx] := Entry(true, false, tag);
      if kind == Write {
        entries[updateIdx] := entries[updateIdx].(dirty := true);
      }
      assert entries[..] == es[updateIdx := e];
    }
  }

  // Whole caches: each set sees the requests whose address selects it.

  datatype Reference = Reference(address: nat, kind: AccessType, isFill: bool)

  ghost function Requests(trace: seq<Reference>, index: nat, numSets: nat, lineSize: nat): seq<Request>
    requires numSets > 0 && lineSize > 0
  {
    if trace == [] then [] else
      var r := trace[|trace| - 1];
      Requests(trace[..|trace| - 1], index, numSets, lineSize) +
      if IndexOf(r.address, numSets, lineSize) == index
        then [Request(TagOf(r.address, numSets, lineSize), r.kind, r.isFill)] else []
  }

  /** The line of the address is in the cache after the trace. */
  ghost predicate HitsAfter(trace: seq<Reference>, address: nat, numSets: nat, lineSize: nat, assoc: nat)
    requires numSets > 0 && lineSize > 0
  {
    TagOf(address, numSets, lineSize) in Run(Requests(trace, IndexOf(address, numSets, lineSize), numSets, lineSize),
      assoc)
  }

  lemma {:induction false} RequestKinds(trace: seq<Reference>, index: nat, numSets: nat, lineSize: nat)
    requires numSets > 0 && lineSize > 0 && forall i :: 0 <= i < |trace| ==> trace[i].kind != WriteBack
    ensures NoWriteBack(Requests(trace, index, numSets, lineSize))
  {
    hide TagOf, IndexOf;
    if trace != [] {
      RequestKinds(trace[..|trace| - 1], index, numSets, lineSize);
      assert trace[|trace| - 1].kind != WriteBack;
    }
  }

  /** With equal sets and line size, a cache with more ways holds every line that one with
      fewer ways holds, after any trace of reads, writes and fetches. */
  lemma MoreWaysHoldMore(trace: seq<Reference>, address: nat, numSets: nat, lineSize: nat, a: nat, b: nat)
    requires numSets > 0 && lineSize > 0 && 0 < a <= b
    requires forall i :: 0 <= i < |trace| ==> trace[i].kind != WriteBack
    ensures HitsAfter(trace, address, numSets, lineSize, a) ==> HitsAfter(trace, address, numSets, lineSize, b)
  {
    var index := IndexOf(address, numSets, lineSize);
    var rs := Requests(trace, index, numSets, lineSize);
    RequestKinds(trace, index, numSets, lineSize);
    RunsIncluded(rs, a, b);
    SubsequenceMembers(Run(rs, a), Run(rs, b));
  }

  /** A request moves only its own set, along the LRU stack. */
  lemma RunExtends(trace: seq<Reference>, r: Reference, index: nat, numSets: nat, lineSize: nat, assoc: nat)
    requires numSets > 0 && lineSize > 0
    ensures var before := Run(Requests(trace, index, numSets, lineSize), assoc);
            Run(Requests(trace + [r], index, numSets, lineSize), assoc) ==
              if IndexOf(r.address, numSets, lineSize) == index
              then Stack(before, TagOf(r.address, numSets, lineSize), r.kind, r.isFill, assoc) else before
  {
    hide TagOf, IndexOf;
    var rs := Requests(trace, index, numSets, lineSize);
    var t := trace + [r];
    assert t[..|t| - 1] == trace && t[|t| - 1] == r;
    var q := Request(TagOf(r.address, numSets, lineSize), r.kind, r.isFill);
    if IndexOf(r.address, numSets, lineSize) == index {
      assert Requests(t, index, numSets, lineSize) == rs + [q];
      assert (rs + [q])[..|rs + [q]| - 1] == rs;
    } else {
      assert Requests(t, index, numSets, lineSize) == rs + [] == rs;
    }
  }

  /** And its dirty lines. */
  lemma DirtyExtends(trace: seq<Reference>, r: Reference, index: nat, numSets: nat, lineSize: nat, assoc: nat)
    requires numSets > 0 && lineSize > 0 && assoc > 0
    ensures var rs := Requests(trace, index, numSets, lineSize);
            var l, tag := Run(rs, assoc), TagOf(r.address, numSets, lineSize);
            var hit := tag in l;
            var evicted := !hit && r.isFill && |l| == assoc;
            DirtyOf(Requests(trace + [r], index, numSets, lineSize), assoc) ==
              if IndexOf(r.address, numSets, lineSize) == index
              then NextDirty(DirtyOf(rs, assoc), tag, r.kind, r.isFill, hit, evicted,
                             if evicted then l[assoc - 1] else 0)
              else DirtyOf(rs, assoc)
  {
    hide TagOf, IndexOf, Run, DirtyOf, NextDirty;
    var rs := Requests(trace, index, numSets, lineSize);
    var t := trace + [r];
    assert t[..|t| - 1] == trace && t[|t| - 1] == r;
    var q := Request(TagOf(r.address, numSets, lineSize), r.kind, r.isFill);
    if IndexOf(r.address, numSets, lineSize) == index {
      assert Requests(t, index, numSets, lineSize) == rs + [q];
      DirtyNext(rs, q, assoc);
    } else {
      assert Requests(t, index, numSets, lineSize) == rs + [] == rs;
    }
  }

  /** Reference j brought in the line with this tag and index. */
  ghost predicate BroughtIn(trace: seq<Reference>, j: nat, tag: nat, index: nat, numSets: nat, lineSize: nat)
    requires numSets > 0 && lineSize > 0
  {
    && j < |trace| && trace[j].isFill
    && TagOf(trace[j].address, numSets, lineSize) == tag && IndexOf(trace[j].address, numSets, lineSize) == index
  }

  /** What a set holds was brought in by a fill. */
  lemma {:induction false} HeldWasBroughtIn(trace: seq<Reference>, tag: nat, index: nat, numSets: nat, lineSize: nat,
      assoc: nat)
    returns (j: nat)
    requires numSets > 0 && lineSize > 0 && assoc > 0
    requires tag in Run(Requests(trace, index, numSets, lineSize), assoc)
    ensures BroughtIn(trace, j, tag, index, numSets, lineSize)
  {
    hide TagOf, IndexOf, Run, Requests;
    NothingHeld(index, numSets, lineSize, assoc);
    var init, r := trace[..|trace| - 1], trace[|trace| - 1];
    assert trace == init + [r];
    RunExtends(init, r, index, numSets, lineSize, assoc);
    var before := Run(Requests(init, index, numSets, lineSize), assoc);
    if tag in before {
      j := HeldWasBroughtIn(init, tag, index, numSets, lineSize, assoc);
    } else {
      NewInStack(before, TagOf(r.address, numSets, lineSize), r.kind, r.isFill, assoc, tag);
      j := |init|;
    }
  }

  lemma NothingHeld(index: nat, numSets: nat, lineSize: nat, assoc: nat)
    requires numSets > 0 && lineSize > 0
    ensures Run(Requests([], index, numSets, lineSize), assoc) == []
  {
  }

  /** Only the tag of a fill is ever new. */
  lemma NewInStack(l: seq<nat>, t: nat, kind: AccessType, isFill: bool, assoc: nat, x: nat)
    requires x in Stack(l, t, kind, isFill, assoc) && x !in l
    ensures x == t && isFill
  {
    WithoutWithin(l, t);
  }

  lemma {:induction false} WithoutWithin(l: seq<nat>, t: nat)
    ensures forall x :: x in Without(l, t) ==> x in l
  {
    if l != [] { WithoutWithin(l[1..], t); }
  }

  /** Some fill of the trace brought in the block at this address. */
  ghost predicate BlockFilled(trace: seq<Reference>, block: nat, lineSize: nat)
    requires lineSize > 0
  {
    exists j :: 0 <= j < |trace| && trace[j].isFill && BlockOf(trace[j].address, lineSize) == block
  }

  /** The rebuilt address of a line held is the block address with which it was brought in. */
  lemma VictimFacts(trace: seq<Reference>, tag: nat, index: nat, numSets: nat, lineSize: nat, assoc: nat)
    requires numSets > 0 && lineSize > 0 && assoc > 0
    requires tag in Run(Requests(trace, index, numSets, lineSize), assoc)
    ensures BlockFilled(trace, Rebuilt(tag, index, numSets, lineSize), lineSize)
    ensures Rebuilt(tag, index, numSets, lineSize) == 0 <==> tag == 0 && index == 0
  {
    RebuiltZero(tag, index, numSets, lineSize);
    var j := HeldWasBroughtIn(trace, tag, index, numSets, lineSize, assoc);
    RebuildsBlock(trace[j].address, numSets, lineSize);
  }

  /** cache_base_c. */
  class CacheBase {
    ghost var trace: seq<Reference>
    const sets: seq<CacheSet>
    const numSets: nat
    const lineSize: nat
    const assoc: nat
    var victimAddr: nat
    var dirtyVictimAddr: nat
    var accesses: nat
    var hits: nat
    var misses: nat
    var writes: nat
    var writebacks: nat

    /** Every set is sound and stands alone. */
    ghost predicate SetsValid()
      reads sets, set i | 0 <= i < |sets| :: sets[i].entries
    {
      && |sets| == numSets > 0 && lineSize > 0 && assoc > 0
      && (forall i :: 0 <= i < |sets| ==> sets[i].Valid() && sets[i].entries.Length == assoc)
      && (forall i, j :: 0 <= i < j < |sets| ==> sets[i] != sets[j] && sets[i].entries != sets[j].entries)
    }

    ghost predicate Valid()
      reads this, sets, set i | 0 <= i < |sets| :: sets[i].entries
    {
      SetsValid() && accesses == hits + misses && writes <= accesses && FollowsTrace()
    }

    /** Every set's recency list is the LRU stack of the requests seen so far, and its dirty
        lines are those that these requests leave dirty. */
    ghost predicate FollowsTrace()
      requires SetsValid()
      reads this`trace, sets, set i | 0 <= i < |sets| :: sets[i].entries
    {
      forall i :: 0 <= i < |sets| ==>
        && sets[i].Tags() == Run(Requests(trace, i, numSets, lineSize), assoc)
        && sets[i].Dirty() == DirtyOf(Requests(trace, i, numSets, lineSize), assoc)
    }

    constructor (numberOfSets: nat, ways: nat, bytesPerLine: nat)
      requires numberOfSets > 0 && ways > 0 && bytesPerLine > 0
      ensures Valid() && numSets == numberOfSets && assoc == ways && lineSize == bytesPerLine
      ensures forall i :: 0 <= i < |sets| ==> sets[i].Tags() == [] && fresh(sets[i]) && fresh(sets[i].entries)
      ensures accesses == writebacks == 0 && trace == []
    {
      var ss: seq<CacheSet> := [];
      for ii := 0 to numberOfSets
        invariant |ss| == ii
        invariant forall i :: 0 <= i < ii ==> ss[i].Valid() && ss[i].entries.Length == ways
        invariant forall i :: 0 <= i < ii ==> ss[i].Tags() == [] && ss[i].Dirty() == {}
        invariant forall i :: 0 <= i < ii ==> fresh(ss[i]) && fresh(ss[i].entries)
        invariant forall i, j :: 0 <= i < j < ii ==> ss[i] != ss[j] && ss[i].entries != ss[j].entries
      {
        var one := new CacheSet(ways);
        ss := ss + [one];
      }
      sets, numSets, lineSize, assoc := ss, numberOfSets, bytesPerLine, ways;
      victimAddr, dirtyVictimAddr, trace := 0, 0, [];
      accesses, hits, misses, writes, writebacks := 0, 0, 0, 0, 0;
    }

    /** access: the set of the address follows the LRU stack, every other set stays as it is,
        and the victim addresses name the line that left. */
    method Access(address: nat, kind: AccessType, isFill: bool)
        returns (hit: bool, ghost evicted: bool, ghost victim: nat)
      requires Valid()
      modifies this, sets, set i | 0 <= i < |sets| :: sets[i].entries
      ensures Valid() && trace == old(trace) + [Reference(address, kind, isFill)]
      ensures hit <==> HitsAfter(old(trace), address, numSets, lineSize, assoc)
      ensures var index := IndexOf(address, numSets, lineSize);
              var tag := TagOf(address, numSets, lineSize);
              var before := old(sets[index].Tags());
              && sets[index].Tags() == Stack(before, tag, kind, isFill, assoc)
              && (hit <==> tag in before)
              && (evicted <==> !hit && isFill && |before| == assoc)
              && (if evicted then victim == before[|before| - 1] else victim == 0)
              && sets[index].Dirty() == NextDirty(old(sets[index].Dirty()), tag, kind, isFill, hit, evicted, victim)
      ensures forall i :: 0 <= i < |sets| && i != IndexOf(address, numSets, lineSize) ==>
                sets[i].Tags() == old(sets[i].Tags()) && sets[i].Dirty() == old(sets[i].Dirty())
      ensures var index := IndexOf(address, numSets, lineSize);
              var dirty := evicted && victim in DirtyOf(Requests(old(trace), index, numSets, lineSize), assoc);
              && victimAddr == (if evicted then Rebuilt(victim, index, numSets, lineSize) else 0)
              && dirtyVictimAddr == (if dirty then victimAddr else 0)
              && writebacks == old(writebacks) + (if dirty then 1 else 0)
              && (victimAddr == 0 <==> !evicted || (victim == 0 && index == 0))
      ensures evicted ==> BlockFilled(old(trace), victimAddr, lineSize)
      ensures var counted := (hit && !isFill) || (isFill && kind != WriteBack);
              && accesses == old(accesses) + (if counted then 1 else 0)
              && hits == old(hits) + (if counted && hit then 1 else 0)
              && misses == old(misses) + (if counted && !hit then 1 else 0)
              && writes == old(writes) + (if counted && kind == Write then 1 else 0)
    {
      hide SetOk, TagsOf, DirtyTags, Stack, TagOf, IndexOf, Rebuilt, Run, Requests, BlockFilled, DirtyOf, NextDirty;
      victimAddr, dirtyVictimAddr := 0, 0;
      var tag := TagOf(address, numSets, lineSize);
      var index := IndexOf(address, numSets, lineSize);
      var out, dirtyVictim, replaced;
      hit, replaced, out, dirtyVictim := AccessSet(index, tag, kind, isFill, Reference(address, kind, isFill));
      evicted, victim := replaced, out;
      if replaced {
        VictimFacts(old(trace), out, index, numSets, lineSize, assoc);
        Report(Rebuilt(out, index, numSets, lineSize), dirtyVictim);
      }
      Count(hit, kind, isFill);
    }

    /** The victim's address, and the write-back of a dirty one. */
    method Report(address: nat, dirtyVictim: bool)
      requires dirtyVictimAddr == 0 && SetsValid() && FollowsTrace()
      modifies `victimAddr, `dirtyVictimAddr, `writebacks
      ensures SetsValid() && FollowsTrace()
      ensures victimAddr == address && dirtyVictimAddr == (if dirtyVictim then address else 0)
      ensures writebacks == old(writebacks) + (if dirtyVictim then 1 else 0)
    {
      victimAddr := address;
      if dirtyVictim {
        writebacks := writebacks + 1;
        dirtyVictimAddr := victimAddr;
      }
    }

    /** The statistics: a lookup counts when it hits, a fill unless it is a write-back. */
    method Count(hit: bool, kind: AccessType, isFill: bool)
      requires SetsValid() && FollowsTrace() && accesses == hits + misses && writes <= accesses
      modifies `accesses, `hits, `misses, `writes
      ensures Valid()
      ensures var counted := (hit && !isFill) || (isFill && kind != WriteBack);
              && accesses == old(accesses) + (if counted then 1 else 0)
              && hits == old(hits) + (if counted && hit then 1 else 0)
              && misses == old(misses) + (if counted && !hit then 1 else 0)
              && writes == old(writes) + (if counted && kind == Write then 1 else 0)
    {
      if (hit && !isFill) || (isFill && kind != WriteBack) {
        accesses := accesses + 1;
        if hit { hits := hits + 1; } else { misses := misses + 1; }
        if kind == Write { writes := writes + 1; }
      }
    }

    /** One set is accessed; the others do not change. */
    method AccessSet(index: nat, tag: nat, kind: AccessType, isFill: bool, ghost r: Reference)
      returns (hit: bool, evicted: bool, victim: nat, dirtyVictim: bool)
      requires SetsValid() && index < |sets| && FollowsTrace() && r.kind == kind && r.isFill == isFill
      requires index == IndexOf(r.address, numSets, lineSize) && tag == TagOf(r.address, numSets, lineSize)
      modifies this`trace, sets[index], sets[index].entries
      ensures SetsValid() && trace == old(trace) + [r] && FollowsTrace()
      ensures forall i :: 0 <= i < |sets| && i != index ==>
        sets[i].Tags() == old(sets[i].Tags()) && sets[i].Dirty() == old(sets[i].Dirty())
      ensures sets[index].Tags() == Stack(old(sets[index].Tags()), tag, kind, isFill, assoc)
      ensures hit <==> tag in old(sets[index].Tags())
      ensures evicted <==> !hit && isFill && |old(sets[index].Tags())| == assoc
      ensures evicted ==> victim == old(sets[index].Tags())[assoc - 1]
      ensures dirtyVictim <==> evicted && victim in old(sets[index].Dirty())
      ensures sets[index].Dirty() == NextDirty(old(sets[index].Dirty()), tag, kind, isFill, hit, evicted, victim)
      ensures !evicted ==> victim == 0
    {
      hide SetOk, TagsOf, DirtyTags, Stack, TagOf, IndexOf, Run, Requests, DirtyOf, NextDirty;
      forall i | 0 <= i < |sets|
        ensures Run(Requests(trace + [r], i, numSets, lineSize), assoc) ==
          if i == index then Stack(sets[i].Tags(), tag, kind, isFill, assoc) else sets[i].Tags()
      {
        RunExtends(trace, r, i, numSets, lineSize, assoc);
      }
      ghost var l := sets[index].Tags();
      ghost var out := tag !in l && isFill && |l| == assoc;
      forall i | 0 <= i < |sets|
        ensures DirtyOf(Requests(trace + [r], i, numSets, lineSize), assoc) ==
          if i == index
          then NextDirty(sets[i].Dirty(), tag, kind, isFill, tag in l, out, if out then l[assoc - 1] else 0)
          else sets[i].Dirty()
      {
        DirtyExtends(trace, r, i, numSets, lineSize, assoc);
      }
      hit, evicted, victim, dirtyVictim := sets[index].Access(tag, kind, isFill);
      trace := trace + [r];
    }
  }

  /** A victim at address 0 goes unreported: in a cache of one line that holds line 0, the
      fill of line 1 evicts it, and its address is 0. */
  lemma VictimAtZero()
    ensures var trace := [Reference(0, Read, true)];
            && Run(Requests(trace, 0, 1, 1), 1) == [0] && IndexOf(1, 1, 1) == 0 && !HitsAfter(trace, 1, 1, 1, 1)
            && Rebuilt(0, 0, 1, 1) == 0
  {
    var trace := [Reference(0, Read, true)];
    assert trace[..0] == [];
    RunExtends([], trace[0], 0, 1, 1, 1);
    assert [] + trace == trace;
  }
}
