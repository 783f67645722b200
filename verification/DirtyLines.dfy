/** Which lines of a cache set are dirty, as a function of the requests the set has seen. */
module DirtyLines {
  import opened FiniteSets
  import opened LruSets

  /** Request i marks line t dirty: a write, or a write-back that hits. */
  ghost predicate Soils(rs: seq<Request>, i: nat, t: nat, assoc: nat) {
    i < |rs| && rs[i].tag == t && (rs[i].kind == Write || (rs[i].kind == WriteBack && t in Run(rs[..i], assoc)))
  }

  /** Line t has been in the set after each of the requests from k on. */
  ghost predicate HeldFrom(rs: seq<Request>, k: nat, t: nat, assoc: nat) {
    forall m {:trigger rs[..m]} :: k <= m <= |rs| ==> t in Run(rs[..m], assoc)
  }

  /** Line t was marked dirty and has not been out of the set since. */
  ghost predicate WrittenIn(rs: seq<Request>, t: nat, assoc: nat) {
    exists i: nat :: Soils(rs, i, t, assoc) && HeldFrom(rs, i + 1, t, assoc)
  }

  /** The dirty lines of the set. */
  ghost function DirtyOf(rs: seq<Request>, assoc: nat): set<nat> {
    set t | t in Run(rs, assoc) && WrittenIn(rs, t, assoc)
  }

  /** Which lines are dirty after an access. */
  ghost function NextDirty(d: set<nat>, tag: nat, kind: AccessType, isFill: bool, hit: bool, evicted: bool,
      victim: nat): set<nat> {
    if hit then (if kind == Write || kind == WriteBack then d + {tag} else d)
    else if isFill then (if evicted then d - {victim} else d) + (if kind == Write then {tag} else {})
    else d
  }

  /** Request j is the fill that brought line t in, which the set has held since. */
  ghost predicate FilledAt(rs: seq<Request>, j: nat, t: nat, assoc: nat) {
    && j < |rs| && rs[j].isFill && rs[j].tag == t
    && t !in Run(rs[..j], assoc) && HeldFrom(rs, j + 1, t, assoc)
  }

  /** A line held is dirty exactly when one of the requests since the fill that brought it in,
      that fill included, marked it. */
  lemma {:induction false} DirtySinceFill(rs: seq<Request>, t: nat, assoc: nat) returns (j: nat)
    requires assoc > 0 && t in Run(rs, assoc)
    ensures FilledAt(rs, j, t, assoc)
    ensures t in DirtyOf(rs, assoc) <==> exists i: nat :: j <= i && Soils(rs, i, t, assoc)
  {
    j := TheFill(rs, t, assoc);
    hide Run;
    if i: nat :| Soils(rs, i, t, assoc) && HeldFrom(rs, i + 1, t, assoc) {
      NotBefore(rs, i, j, t, assoc);
    }
    if i: nat :| j <= i && Soils(rs, i, t, assoc) {
      assert HeldFrom(rs, i + 1, t, assoc);
      assert WrittenIn(rs, t, assoc);
    }
  }

  lemma NotBefore(rs: seq<Request>, i: nat, j: nat, t: nat, assoc: nat)
    requires HeldFrom(rs, i + 1, t, assoc) && j <= |rs| && t !in Run(rs[..j], assoc)
    ensures j <= i
  {
    hide Run;
  }

  lemma {:induction false} TheFill(rs: seq<Request>, t: nat, assoc: nat) returns (j: nat)
    requires assoc > 0 && t in Run(rs, assoc)
    ensures FilledAt(rs, j, t, assoc)
  {
    var init, r := rs[..|rs| - 1], rs[|rs| - 1];
    assert rs == init + [r] && rs[..|rs|] == rs;
    RunNext(init, r, assoc);
    RunShape(init, assoc);
    StackMembers(Run(init, assoc), r.tag, r.kind, r.isFill, assoc, t);
    hide Run, Stack;
    if t in Run(init, assoc) {
      j := TheFill(init, t, assoc);
      assert rs[..j] == init[..j];
      forall m | j + 1 <= m <= |rs| ensures t in Run(rs[..m], assoc) {
        if m < |rs| { assert rs[..m] == init[..m]; }
      }
    } else {
      j := |init|;
    }
  }

  lemma {:induction false} RunShape(rs: seq<Request>, assoc: nat)
    requires assoc > 0
    ensures NoDuplicates(Run(rs, assoc)) && |Run(rs, assoc)| <= assoc
  {
    hide Stack, NoDuplicates;
    if rs == [] {
      NothingTwice();
    } else {
      var r := rs[|rs| - 1];
      RunShape(rs[..|rs| - 1], assoc);
      StackFacts(Run(rs[..|rs| - 1], assoc), r.tag, r.kind, r.isFill, assoc);
    }
  }

  lemma NothingTwice()
    ensures NoDuplicates<nat>([])
  {
  }

  /** How one request changes which lines have been written. */
  lemma WrittenNext(rs: seq<Request>, r: Request, t: nat, assoc: nat)
    requires t in Run(rs + [r], assoc)
    ensures WrittenIn(rs + [r], t, assoc) <==>
      || (t == r.tag && (r.kind == Write || (r.kind == WriteBack && t in Run(rs, assoc))))
      || (t in Run(rs, assoc) && WrittenIn(rs, t, assoc))
  {
    hide Run;
    var rs' := rs + [r];
    assert rs'[..|rs|] == rs && rs'[..|rs'|] == rs' && rs[..|rs|] == rs;
    assert forall m :: 0 <= m <= |rs| ==> rs'[..m] == rs[..m];
    if i: nat :| Soils(rs', i, t, assoc) && HeldFrom(rs', i + 1, t, assoc) {
      if i < |rs| {
        assert rs'[..i] == rs[..i] && Soils(rs, i, t, assoc);
        forall m | i + 1 <= m <= |rs| ensures t in Run(rs[..m], assoc) { assert rs'[..m] == rs[..m]; }
        assert HeldFrom(rs, i + 1, t, assoc);
      }
    }
    if t == r.tag && (r.kind == Write || (r.kind == WriteBack && t in Run(rs, assoc))) {
      assert Soils(rs', |rs|, t, assoc) && HeldFrom(rs', |rs| + 1, t, assoc);
    }
    if t in Run(rs, assoc) && WrittenIn(rs, t, assoc) {
      var i: nat :| Soils(rs, i, t, assoc) && HeldFrom(rs, i + 1, t, assoc);
      assert rs'[..i] == rs[..i] && Soils(rs', i, t, assoc);
      forall m | i + 1 <= m <= |rs'| ensures t in Run(rs'[..m], assoc) {
        if m <= |rs| { assert rs'[..m] == rs[..m]; }
      }
      assert HeldFrom(rs', i + 1, t, assoc);
    }
  }

  /** The dirty lines move along with every request. */
  lemma DirtyNext(rs: seq<Request>, r: Request, assoc: nat)
    requires assoc > 0
    ensures var l := Run(rs, assoc);
            var hit := r.tag in l;
            var evicted := !hit && r.isFill && |l| == assoc;
            DirtyOf(rs + [r], assoc)
            == NextDirty(DirtyOf(rs, assoc), r.tag, r.kind, r.isFill, hit, evicted, if evicted then l[assoc - 1] else 0)
  {
    RunNext(rs, r, assoc);
    RunShape(rs, assoc);
    hide Run, Stack, WrittenIn, NoDuplicates, DirtyOf, NextDirty;
    var l := Run(rs, assoc);
    var hit := r.tag in l;
    var evicted := !hit && r.isFill && |l| == assoc;
    var victim := if evicted then l[assoc - 1] else 0;
    forall t: nat
      ensures t in DirtyOf(rs + [r], assoc)
         <==> t in NextDirty(DirtyOf(rs, assoc), r.tag, r.kind, r.isFill, hit, evicted, victim)
    {
      StackMembers(l, r.tag, r.kind, r.isFill, assoc, t);
      DirtyMember(rs, assoc, t);
      DirtyMember(rs + [r], assoc, t);
      NextMember(DirtyOf(rs, assoc), r.tag, r.kind, r.isFill, hit, evicted, victim, t);
      if t in Run(rs + [r], assoc) { WrittenNext(rs, r, t, assoc); }
    }
  }

  lemma DirtyMember(rs: seq<Request>, assoc: nat, t: nat)
    ensures t in DirtyOf(rs, assoc) <==> t in Run(rs, assoc) && WrittenIn(rs, t, assoc)
  {
    hide Run, WrittenIn;
  }

  lemma NextMember(d: set<nat>, tag: nat, kind: AccessType, isFill: bool, hit: bool, evicted: bool, victim: nat, t: nat)
    ensures t in NextDirty(d, tag, kind, isFill, hit, evicted, victim) <==>
      || (t == tag && ((kind == Write && (hit || isFill)) || (kind == WriteBack && hit)))
      || (t in d && !(!hit && isFill && evicted && t == victim))
  {
  }

  /** A write-back that brings a line in leaves it dirty exactly when the line was there already. */
  lemma WriteBackMarksExactly(rs: seq<Request>, t: nat, assoc: nat)
    requires assoc > 0
    ensures t in DirtyOf(rs + [Request(t, WriteBack, true)], assoc) <==> t in Run(rs, assoc)
  {
    var r := Request(t, WriteBack, true);
    RunNext(rs, r, assoc);
    RunShape(rs, assoc);
    StackMembers(Run(rs, assoc), t, WriteBack, true, assoc, t);
    hide Run, Stack, WrittenIn, NoDuplicates;
    WrittenNext(rs, r, t, assoc);
  }
}
