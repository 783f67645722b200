/** The open-addressing hash table: puts, gets and doublings. */
module HashTables {
  import opened FiniteSets
  import opened Powers
  import opened Probing

  /** HashSlot: a key-value pair with its two flags. */
  datatype Slot = Slot(key: int, value: int, empty: bool, removed: bool)

  const INITIAL_TABLE_SIZE := 64

  const UNUSED := Slot(0, 0, true, false)

  /** Slot p holds a key other than k. */
  ghost predicate Blocks(t: seq<Slot>, p: nat, k: int)
    requires p < |t|
  {
    !t[p].empty && t[p].key != k
  }

  /** The first i positions for k hold other keys. */
  ghost predicate BlockedFor(t: seq<Slot>, probe: Probe, h: nat, k: int, i: nat)
    requires |t| > 0
  {
    forall j :: 0 <= j < i ==> Blocks(t, Position(probe, h, j, |t|), k)
  }

  /** Looking for k ends at its i-th position, and no sooner. */
  ghost predicate StopsAt(t: seq<Slot>, probe: Probe, h: nat, k: int, i: nat) {
    i < |t| && BlockedFor(t, probe, h, k, i) && !Blocks(t, Position(probe, h, i, |t|), k)
  }

  /** Position p is where looking for k ends up when it is there. */
  ghost predicate OnPath(t: seq<Slot>, probe: Probe, h: nat, k: int, p: nat)
    requires |t| > 0
  {
    exists i :: 0 <= i < |t| && Position(probe, h, i, |t|) == p && BlockedFor(t, probe, h, k, i)
  }

  /** Every key sits where looking for it ends; nothing has been removed. */
  ghost predicate Placed(t: seq<Slot>, probe: Probe, hash: int -> nat) {
    |t| > 0 && forall p :: 0 <= p < |t| ==>
      !t[p].removed && (!t[p].empty ==> OnPath(t, probe, hash(t[p].key), t[p].key, p))
  }

  /** The occupied slots hold the map m. */
  ghost predicate Holds(t: seq<Slot>, m: map<int, int>) {
    && (forall p :: 0 <= p < |t| && !t[p].empty ==> t[p].key in m && m[t[p].key] == t[p].value)
    && forall k :: k in m ==> HasKey(t, k)
  }

  ghost predicate HasKey(t: seq<Slot>, k: int) {
    exists p :: 0 <= p < |t| && !t[p].empty && t[p].key == k
  }

  ghost function Occupied(t: seq<Slot>): (n: nat)
    ensures n <= |t|
  {
    if t == [] then 0 else Occupied(t[..|t| - 1]) + if t[|t| - 1].empty then 0 else 1
  }

  lemma {:induction false} EmptySlotExists(t: seq<Slot>)
    requires Occupied(t) < |t|
    ensures exists p :: 0 <= p < |t| && t[p].empty
  {
    var last := |t| - 1;
    if !t[last].empty {
      EmptySlotExists(t[..last]);
      var p :| 0 <= p < |t[..last]| && t[..last][p].empty;
      assert t[p].empty;
    }
  }

  lemma {:induction false} FilledCount(t: seq<Slot>, p: nat, s: Slot)
    requires p < |t| && t[p].empty && !s.empty
    ensures Occupied(t[p := s]) == Occupied(t) + 1
  {
    var last := |t| - 1;
    if p < last {
      FilledCount(t[..last], p, s);
      assert t[p := s][..last] == t[..last][p := s];
    } else {
      assert t[p := s][..last] == t[..last];
    }
  }

  /** A key is in one slot only, and looking for it finds that slot. */
  lemma FoundWhereLooked(t: seq<Slot>, probe: Probe, hash: int -> nat, k: int, i: nat, p: nat)
    requires Placed(t, probe, hash) && i < |t| && BlockedFor(t, probe, hash(k), k, i)
    requires !Blocks(t, Position(probe, hash(k), i, |t|), k)
    requires p < |t| && !t[p].empty && t[p].key == k
    ensures Position(probe, hash(k), i, |t|) == p
  {
    hide Position;
    assert OnPath(t, probe, hash(k), k, p);
    var j :| 0 <= j < |t| && Position(probe, hash(k), j, |t|) == p && BlockedFor(t, probe, hash(k), k, j);
    assert !Blocks(t, p, k);
  }

  /** In a table with room, looking for a key always stops. */
  lemma StopsSomewhere(t: seq<Slot>, probe: Probe, h: nat, k: int)
    requires IsPow2(|t|) && Occupied(t) < |t|
    ensures !BlockedFor(t, probe, h, k, |t|)
  {
    hide Position;
    EmptySlotExists(t);
    var p :| 0 <= p < |t| && t[p].empty;
    EveryPositionReached(probe, h, |t|, p);
    var i :| 0 <= i < |t| && Position(probe, h, i, |t|) == p;
    assert !Blocks(t, Position(probe, h, i, |t|), k);
  }

  /** Filling the empty slot where looking for a new key ends keeps every key findable. */
  lemma FillKeepsPlaced(t: seq<Slot>, probe: Probe, hash: int -> nat, k: int, v: int, i: nat)
    requires Placed(t, probe, hash) && i < |t| && BlockedFor(t, probe, hash(k), k, i)
    requires t[Position(probe, hash(k), i, |t|)].empty
    ensures Placed(t[Position(probe, hash(k), i, |t|) := Slot(k, v, false, false)], probe, hash)
  {
    hide Position;
    var n := |t|;
    var q := Position(probe, hash(k), i, n);
    var t' := t[q := Slot(k, v, false, false)];
    forall p | 0 <= p < n && !t'[p].empty ensures OnPath(t', probe, hash(t'[p].key), t'[p].key, p) {
      var key := t'[p].key;
      var h := hash(key);
      var j: nat;
      if p == q {
        j := i;
      } else {
        assert OnPath(t, probe, h, key, p);
        j :| 0 <= j < n && Position(probe, h, j, n) == p && BlockedFor(t, probe, h, key, j);
      }
      StillBlocked(t, t', probe, h, key, j, q);
    }
  }

  lemma StillBlocked(t: seq<Slot>, t': seq<Slot>, probe: Probe, h: nat, k: int, j: nat, q: nat)
    requires |t| == |t'| > 0 && q < |t| && t[q].empty && forall p :: 0 <= p < |t| && p != q ==> t'[p] == t[p]
    requires BlockedFor(t, probe, h, k, j)
    ensures BlockedFor(t', probe, h, k, j)
  {
    hide Position;
    forall x | 0 <= x < j ensures Blocks(t', Position(probe, h, x, |t'|), k) {
      assert Blocks(t, Position(probe, h, x, |t|), k);
    }
  }

  lemma FillHolds(t: seq<Slot>, m: map<int, int>, q: nat, k: int, v: int)
    requires Holds(t, m) && q < |t| && t[q].empty && k !in m
    ensures Holds(t[q := Slot(k, v, false, false)], m[k := v])
  {
    var t' := t[q := Slot(k, v, false, false)];
    forall x | x in m[k := v] ensures HasKey(t', x) {
      if x == k {
        assert !t'[q].empty && t'[q].key == k;
      } else {
        assert HasKey(t, x);
        var p :| 0 <= p < |t| && !t[p].empty && t[p].key == x;
        assert t'[p] == t[p];
      }
    }
  }

  /** Where looking for k ends tells whether k is there. */
  lemma LookupIsMembership(t: seq<Slot>, probe: Probe, hash: int -> nat, m: map<int, int>, k: int, i: nat)
    requires Placed(t, probe, hash) && Holds(t, m) && i < |t| && BlockedFor(t, probe, hash(k), k, i)
    requires !Blocks(t, Position(probe, hash(k), i, |t|), k)
    ensures var s := t[Position(probe, hash(k), i, |t|)];
            (k in m <==> !s.empty && s.key == k) && (k in m ==> s.value == m[k])
  {
    hide Position, Placed, BlockedFor;
    if k in m {
      assert HasKey(t, k);
      var p :| 0 <= p < |t| && !t[p].empty && t[p].key == k;
      FoundWhereLooked(t, probe, hash, k, i, p);
    }
  }

  /** The table after a pair with a new key, for which looking ends at the i-th position. */
  ghost function Filled(t: seq<Slot>, probe: Probe, hash: int -> nat, k: int, v: int, i: nat): seq<Slot>
    requires |t| > 0
  {
    t[Position(probe, hash(k), i, |t|) := Slot(k, v, false, false)]
  }

  /** t' is t with the pair of an occupied slot put in where looking for its key ends. */
  ghost predicate PutIn(t: seq<Slot>, probe: Probe, hash: int -> nat, s: Slot, t': seq<Slot>) {
    if s.empty then t' == t else exists i: nat :: PutAt(t, probe, hash, s, i, t')
  }

  ghost predicate PutAt(t: seq<Slot>, probe: Probe, hash: int -> nat, s: Slot, i: nat, t': seq<Slot>) {
    StopsAt(t, probe, hash(s.key), s.key, i) && t' == Filled(t, probe, hash, s.key, s.value, i)
  }

  /** t' is what n unused slots become when the pairs of t are put in, in the order of t. */
  ghost predicate Rehashed(t: seq<Slot>, n: nat, probe: Probe, hash: int -> nat, t': seq<Slot>)
    decreases |t|, 0
  {
    if t == [] then t' == seq(n, _ => UNUSED) else OneMorePut(t[..|t| - 1], t[|t| - 1], n, probe, hash, t')
  }

  ghost predicate OneMorePut(t: seq<Slot>, s: Slot, n: nat, probe: Probe, hash: int -> nat, t': seq<Slot>)
    decreases |t|, 1
  {
    exists mid :: Rehashed(t, n, probe, hash, mid) && PutIn(mid, probe, hash, s, t')
  }

  lemma StopsOnce(t: seq<Slot>, probe: Probe, h: nat, k: int, i: nat, j: nat)
    requires StopsAt(t, probe, h, k, i) && StopsAt(t, probe, h, k, j)
    ensures i == j
  {
    hide Position, Blocks;
  }

  /** The old table determines the doubled one slot by slot. */
  lemma {:induction false} RehashedOnce(t: seq<Slot>, n: nat, probe: Probe, hash: int -> nat, a: seq<Slot>,
                                        b: seq<Slot>)
    requires Rehashed(t, n, probe, hash, a) && Rehashed(t, n, probe, hash, b)
    ensures a == b
  {
    hide Position, Blocks, StopsAt, Filled;
    if t != [] {
      var init, s := t[..|t| - 1], t[|t| - 1];
      var m :| Rehashed(init, n, probe, hash, m) && PutIn(m, probe, hash, s, a);
      var m' :| Rehashed(init, n, probe, hash, m') && PutIn(m', probe, hash, s, b);
      RehashedOnce(init, n, probe, hash, m, m');
      if !s.empty {
        var i: nat :| PutAt(m, probe, hash, s, i, a);
        var j: nat :| PutAt(m, probe, hash, s, j, b);
        StopsOnce(m, probe, hash(s.key), s.key, i, j);
      }
    }
  }

  /** A pair counts only when its key is new. */
  ghost function AddFirst(m: map<int, int>, k: int, v: int): map<int, int> {
    if k in m then m else m[k := v]
  }

  /** The map after a sequence of puts. */
  ghost function AfterPuts(ps: seq<(int, int)>): map<int, int> {
    if ps == [] then map[] else AddFirst(AfterPuts(ps[..|ps| - 1]), ps[|ps| - 1].0, ps[|ps| - 1].1)
  }

  ghost predicate FirstPut(ps: seq<(int, int)>, i: nat) {
    i < |ps| && forall j :: 0 <= j < i ==> ps[j].0 != ps[i].0
  }

  /** A key is there when it was put at all, with the value of its first put. */
  lemma {:induction false} FirstPutWins(ps: seq<(int, int)>, k: int)
    ensures k in AfterPuts(ps) <==> exists i: nat :: FirstPut(ps, i) && ps[i].0 == k
    ensures forall i: nat :: FirstPut(ps, i) && ps[i].0 == k && k in AfterPuts(ps) ==> AfterPuts(ps)[k] == ps[i].1
  {
    if ps != [] {
      hide FirstPut;
      var last := |ps| - 1;
      var init := ps[..last];
      FirstPutWins(init, k);
      forall i: nat ensures FirstPut(ps, i) ==> i < |ps| ensures FirstPut(init, i) <==> i < last && FirstPut(ps, i) {
        FirstInPrefix(ps, i);
      }
      if k in AfterPuts(init) {
        var i: nat :| FirstPut(init, i) && init[i].0 == k;
        LastIsFirst(ps, init);
        assert ps[i] == init[i];
      } else if ps[last].0 == k {
        AllOthers(init, k);
        LastIsFirst(ps, init);
      }
    }
  }

  lemma FirstInPrefix(ps: seq<(int, int)>, i: nat)
    requires ps != []
    ensures FirstPut(ps, i) ==> i < |ps|
    ensures FirstPut(ps[..|ps| - 1], i) <==> i < |ps| - 1 && FirstPut(ps, i)
  {
    var init := ps[..|ps| - 1];
    assert i < |init| ==> forall j :: 0 <= j <= i ==> init[j] == ps[j];
  }

  lemma LastIsFirst(ps: seq<(int, int)>, init: seq<(int, int)>)
    requires ps != [] && init == ps[..|ps| - 1]
    ensures FirstPut(ps, |ps| - 1) <==> forall j :: 0 <= j < |init| ==> init[j].0 != ps[|ps| - 1].0
  {
    assert forall j :: 0 <= j < |init| ==> init[j] == ps[j];
  }

  /** A key with no first put was never put. */
  lemma {:induction false} AllOthers(ps: seq<(int, int)>, k: int)
    requires forall i: nat :: FirstPut(ps, i) ==> ps[i].0 != k
    ensures forall i :: 0 <= i < |ps| ==> ps[i].0 != k
  {
    if ps != [] {
      var last := |ps| - 1;
      var init := ps[..last];
      forall i: nat | FirstPut(init, i) ensures init[i].0 != k {
        assert FirstPut(ps, i);
      }
      AllOthers(init, k);
      assert forall j :: 0 <= j < last ==> ps[j] == init[j];
      assert ps[last].0 == k ==> FirstPut(ps, last);
    }
  }

  class HashTable {
    const hash: int -> nat
    const probe: Probe
    var tableSize: nat
    var size: nat
    var table: array<Slot>
    ghost var contents: map<int, int>

    /** Everything but the load bound. */
    ghost predicate Sound()
      reads this, table
    {
      && tableSize == table.Length && IsPow2(tableSize)
      && size == Occupied(table[..])
      && Placed(table[..], probe, hash) && Holds(table[..], contents)
    }

    ghost predicate Valid()
      reads this, table
    {
      Sound() && 2 * size <= tableSize
    }

    constructor (hashFunc: int -> nat, probing: Probe)
      ensures Valid() && contents == map[] && hash == hashFunc && probe == probing
      ensures fresh(table) && tableSize == INITIAL_TABLE_SIZE
    {
      hash, probe := hashFunc, probing;
      size, tableSize := 0, INITIAL_TABLE_SIZE;
      table := new Slot[INITIAL_TABLE_SIZE](_ => UNUSED);
      contents := map[];
      new;
      assert INITIAL_TABLE_SIZE == Pow2(6);
      AllEmpty(table[..]);
    }

    /** get_pos. */
    method GetPos(key: int) returns (p: nat)
      requires tableSize > 0
      ensures p == Position(probe, hash(key), 0, tableSize)
    {
      p := hash(key) % tableSize;
    }

    /** The value put first for the key, with the number of positions looked at, or -1. */
    method Get(key: int) returns (r: int, value: int)
      requires Valid()
      ensures key in contents ==> 1 <= r && StopsAt(table[..], probe, hash(key), key, r - 1) && value == contents[key]
      ensures key !in contents ==> r == -1
    {
      hide Occupied, IsPow2, Placed, Holds, Position, Blocks, BlockedFor;
      ghost var t := table[..];
      Room(t, probe, hash(key), key, size);
      var initPos := GetPos(key);
      var pos := initPos;
      var step := 1;
      NothingBlocked(t, probe, hash(key), key);
      while (!table[pos].empty || table[pos].removed) && table[pos].key != key && step < tableSize
        invariant 1 <= step <= tableSize && pos == Position(probe, hash(key), step - 1, tableSize)
        invariant BlockedFor(t, probe, hash(key), key, step - 1)
        decreases tableSize - step
      {
        NotRemoved(t, probe, hash, pos);
        StepOn(t, probe, hash(key), key, step, initPos);
        pos := GetNextPos(probe, initPos, step, tableSize);
        step := step + 1;
      }
      NotRemoved(t, probe, hash, pos);
      StopsInTime(t, probe, hash(key), key, step);
      LookupIsMembership(t, probe, hash, contents, key, step - 1);
      if !table[pos].empty && table[pos].key == key {
        return step, table[pos].value;
      }
      return -1, 0;
    }

    /** Adds a pair for a new key and reports the number of positions looked at; a key that
        is present keeps its value, and the answer is -1. The table doubles when it is more
        than half full. */
    method Put(key: int, value: int) returns (r: int)
      requires Valid()
      modifies this, table
      ensures Valid() && (table == old(table) || fresh(table))
      ensures key in old(contents) ==>
        && r == -1 && contents == old(contents) && tableSize == old(tableSize) && size == old(size)
        && table == old(table) && table[..] == old(table[..])
      ensures key !in old(contents) ==>
        && 1 <= r && StopsAt(old(table[..]), probe, hash(key), key, r - 1)
          && contents == AddFirst(old(contents), key, value) && size == old(size) + 1
        && var filled := Filled(old(table[..]), probe, hash, key, value, r - 1);
        if 2 * (old(size) + 1) > old(tableSize) then
          tableSize == 2 * old(tableSize) && Rehashed(filled, tableSize, probe, hash, table[..])
        else tableSize == old(tableSize) && table == old(table) && table[..] == filled
      decreases if 2 * (size + 1) > tableSize then 2 else 0, 0
    {
      hide Occupied, IsPow2, Placed, Holds, Position, Blocks, BlockedFor;
      ghost var t := table[..];
      Room(t, probe, hash(key), key, size);
      var initPos := GetPos(key);
      var pos := initPos;
      var step := 1;
      NothingBlocked(t, probe, hash(key), key);
      while !table[pos].empty && table[pos].key != key && step < tableSize
        invariant 1 <= step <= tableSize && pos == Position(probe, hash(key), step - 1, tableSize)
        invariant BlockedFor(t, probe, hash(key), key, step - 1)
        invariant table == old(table) && table[..] == t && tableSize == old(tableSize) == table.Length
        invariant size == old(size) && contents == old(contents)
        decreases tableSize - step
      {
        StepOn(t, probe, hash(key), key, step, initPos);
        pos := GetNextPos(probe, initPos, step, tableSize);
        step := step + 1;
      }
      StopsInTime(t, probe, hash(key), key, step);
      LookupIsMembership(t, probe, hash, contents, key, step - 1);
      if table[pos].empty {
        table[pos] := Slot(key, value, false, false);
        size := size + 1;
        FillKeepsPlaced(t, probe, hash, key, value, step - 1);
        FillHolds(t, contents, pos, key, value);
        FilledCount(t, pos, table[pos]);
        assert table[..] == t[pos := Slot(key, value, false, false)];
        contents := contents[key := value];
        if 2 * size > tableSize {
          EnlargeTable();
        }
        return step;
      }
      NotBlocking(t, pos, key);
      return -1;
    }

    /** Twice the slots, and every pair put again; none of these puts doubles the table. */
    method EnlargeTable()
      requires Sound()
      modifies this
      ensures Valid() && fresh(table)
      ensures contents == old(contents) && size == old(size) && tableSize == 2 * old(tableSize)
      ensures Rehashed(old(table[..]), tableSize, probe, hash, table[..])
      decreases 1
    {
      hide Occupied, IsPow2, Placed, Holds, Rehashed, StopsAt, Filled, Position, Blocks, BlockedFor, PutIn, PutAt;
      ghost var t := table[..];
      ghost var all := contents;
      var prevTable := CopyOfTable();
      table := new Slot[2 * tableSize](_ => UNUSED);
      size := 0;
      contents := map[];
      var prevTableSize := tableSize;
      tableSize := 2 * tableSize;
      DoubledPow2(prevTableSize);
      AllEmpty(table[..]);
      AllEmptyPlaced(table[..], probe, hash);
      AllEmpty(t[..0]);
      NothingYet(table[..], tableSize, probe, hash);
      for i := 0 to prevTableSize
        invariant fresh(table) && table != prevTable && prevTable[..] == t && tableSize == 2 * prevTableSize
        invariant Valid() && Holds(t[..i], contents) && size == Occupied(t[..i])
        invariant Rehashed(t[..i], tableSize, probe, hash, table[..])
      {
        if !prevTable[i].empty {
          PutAgain(prevTable[i], t, i);
        } else {
          OneMore(t, contents, i);
          NotPut(table[..], probe, hash, t[i]);
          RehashedNext(t, i, tableSize, probe, hash, table[..], table[..]);
        }
      }
      assert t[..prevTableSize] == t;
      SameMap(t, contents, all);
    }

    /** The slots, copied one at a time. */
    method CopyOfTable() returns (prevTable: array<Slot>)
      requires Sound()
      ensures fresh(prevTable) && prevTable[..] == table[..]
    {
      hide Occupied, IsPow2, Placed, Holds;
      prevTable := new Slot[tableSize](_ => UNUSED);
      for i := 0 to tableSize
        invariant prevTable[..i] == table[..i]
      {
        NotRemoved(table[..], probe, hash, i);
        prevTable[i] := Slot(table[i].key, table[i].value, table[i].empty, false);
      }
    }

    /** Puts the pair of slot i of the old table into the new one, which has room. */
    method PutAgain(slot: Slot, ghost t: seq<Slot>, ghost i: nat)
      requires Valid() && i < |t| && slot == t[i] && !slot.empty && 2 * |t| == tableSize
      requires Placed(t, probe, hash) && Holds(t[..i], contents) && size == Occupied(t[..i])
      requires Rehashed(t[..i], tableSize, probe, hash, table[..])
      modifies this, table
      ensures Valid() && table == old(table) && tableSize == old(tableSize)
      ensures Holds(t[..i + 1], contents) && size == Occupied(t[..i + 1])
      ensures Rehashed(t[..i + 1], tableSize, probe, hash, table[..])
      decreases 0, 1
    {
      hide Occupied, IsPow2, Placed, Holds, Rehashed, StopsAt, Filled, Position, Blocks, BlockedFor, PutIn, PutAt;
      ghost var before := table[..];
      OneMore(t, contents, i);
      NewHere(t, probe, hash, contents, i);
      var r := Put(slot.key, slot.value);
      WasPut(before, probe, hash, slot, r - 1, table[..]);
      RehashedNext(t, i, tableSize, probe, hash, before, table[..]);
    }
  }

  lemma NothingYet(t: seq<Slot>, n: nat, probe: Probe, hash: int -> nat)
    requires |t| == n && forall p :: 0 <= p < n ==> t[p] == UNUSED
    ensures Rehashed([], n, probe, hash, t)
  {
  }

  lemma WasPut(t: seq<Slot>, probe: Probe, hash: int -> nat, s: Slot, i: nat, t': seq<Slot>)
    requires !s.empty && StopsAt(t, probe, hash(s.key), s.key, i)
    requires |t| > 0 && t' == Filled(t, probe, hash, s.key, s.value, i)
    ensures PutIn(t, probe, hash, s, t')
  {
    assert PutAt(t, probe, hash, s, i, t');
  }

  lemma NotPut(t: seq<Slot>, probe: Probe, hash: int -> nat, s: Slot)
    requires s.empty
    ensures PutIn(t, probe, hash, s, t)
  {
  }

  lemma RehashedNext(t: seq<Slot>, i: nat, n: nat, probe: Probe, hash: int -> nat, mid: seq<Slot>, t': seq<Slot>)
    requires i < |t| && Rehashed(t[..i], n, probe, hash, mid) && PutIn(mid, probe, hash, t[i], t')
    ensures Rehashed(t[..i + 1], n, probe, hash, t')
  {
    assert t[..i + 1][..i] == t[..i];
  }

  lemma NotBlocking(t: seq<Slot>, p: nat, k: int)
    requires p < |t| && !Blocks(t, p, k)
    ensures t[p].empty || t[p].key == k
  {
  }

  lemma DoubledPow2(n: nat)
    requires IsPow2(n)
    ensures n > 0 && IsPow2(2 * n)
  {
    var k: nat :| n == Pow2(k);
    assert 2 * n == Pow2(k + 1);
  }

  lemma AllEmptyPlaced(t: seq<Slot>, probe: Probe, hash: int -> nat)
    requires |t| > 0 && forall p :: 0 <= p < |t| ==> t[p].empty && !t[p].removed
    ensures Placed(t, probe, hash)
  {
  }

  lemma SameMap(t: seq<Slot>, a: map<int, int>, b: map<int, int>)
    requires Holds(t, a) && Holds(t, b)
    ensures a == b
  {
    forall k | k in a ensures k in b && a[k] == b[k] { assert HasKey(t, k); }
    forall k | k in b ensures k in a { assert HasKey(t, k); }
  }

  /** A key met during re-insertion has not been met before. */
  lemma NewHere(t: seq<Slot>, probe: Probe, hash: int -> nat, m: map<int, int>, i: nat)
    requires Placed(t, probe, hash) && i < |t| && !t[i].empty && Holds(t[..i], m)
    ensures t[i].key !in m && Holds(t[..i + 1], m[t[i].key := t[i].value])
  {
    hide Placed;
    var k := t[i].key;
    assert k !in m by {
      if k in m {
        assert HasKey(t[..i], k);
        var p :| 0 <= p < |t[..i]| && !t[..i][p].empty && t[..i][p].key == k;
        OneSlotPerKey(t, probe, hash, p, i);
      }
    }
    var m' := m[k := t[i].value];
    forall x | x in m' ensures HasKey(t[..i + 1], x) {
      if x == k {
        assert t[..i + 1][i].key == k;
      } else {
        assert HasKey(t[..i], x);
        var p :| 0 <= p < |t[..i]| && !t[..i][p].empty && t[..i][p].key == x;
        assert t[..i + 1][p] == t[..i][p];
      }
    }
    assert forall p :: 0 <= p < i ==> t[..i + 1][p] == t[..i][p];
  }

  lemma OneSlotPerKey(t: seq<Slot>, probe: Probe, hash: int -> nat, p: nat, q: nat)
    requires Placed(t, probe, hash) && p < |t| && q < |t|
    requires !t[p].empty && !t[q].empty && t[p].key == t[q].key
    ensures p == q
  {
    hide Position;
    var k := t[p].key;
    assert OnPath(t, probe, hash(k), k, q);
    var i :| 0 <= i < |t| && Position(probe, hash(k), i, |t|) == q && BlockedFor(t, probe, hash(k), k, i);
    FoundWhereLooked(t, probe, hash, k, i, p);
  }

  lemma OneMore(t: seq<Slot>, m: map<int, int>, i: nat)
    requires i < |t|
    ensures Occupied(t[..i + 1]) == Occupied(t[..i]) + if t[i].empty then 0 else 1
    ensures Occupied(t[..i]) <= i
    ensures t[i].empty && Holds(t[..i], m) ==> Holds(t[..i + 1], m)
  {
    assert t[..i + 1][..i] == t[..i];
  }

  lemma Room(t: seq<Slot>, probe: Probe, h: nat, k: int, size: nat)
    requires IsPow2(|t|) && 2 * size <= |t| && size == Occupied(t)
    ensures |t| > 0 && !BlockedFor(t, probe, h, k, |t|)
  {
    StopsSomewhere(t, probe, h, k);
  }

  lemma NothingBlocked(t: seq<Slot>, probe: Probe, h: nat, k: int)
    requires |t| > 0
    ensures BlockedFor(t, probe, h, k, 0)
  {
  }

  lemma StepOn(t: seq<Slot>, probe: Probe, h: nat, k: int, step: nat, initPos: nat)
    requires 1 <= step < |t| && initPos == Position(probe, h, 0, |t|)
    requires BlockedFor(t, probe, h, k, step - 1)
    requires var p := Position(probe, h, step - 1, |t|); !t[p].empty && t[p].key != k
    ensures BlockedFor(t, probe, h, k, step)
    ensures GetNextPos(probe, initPos, step, |t|) == Position(probe, h, step, |t|)
  {
    hide GetNextPos;
    assert forall j :: 0 <= j < step - 1 ==> Blocks(t, Position(probe, h, j, |t|), k);
    assert Blocks(t, Position(probe, h, step - 1, |t|), k);
  }

  /** The bound on the step count never ends a search early. */
  lemma StopsInTime(t: seq<Slot>, probe: Probe, h: nat, k: int, step: nat)
    requires 1 <= step <= |t| && BlockedFor(t, probe, h, k, step - 1) && !BlockedFor(t, probe, h, k, |t|)
    requires var p := Position(probe, h, step - 1, |t|); t[p].empty || t[p].key == k || step == |t|
    ensures !Blocks(t, Position(probe, h, step - 1, |t|), k)
  {
    hide Position;
    if step == |t| {
      var j :| 0 <= j < |t| && !Blocks(t, Position(probe, h, j, |t|), k);
      assert j == step - 1;
    }
  }

  lemma NotRemoved(t: seq<Slot>, probe: Probe, hash: int -> nat, p: nat)
    requires Placed(t, probe, hash) && p < |t|
    ensures !t[p].removed
  {
  }

  lemma {:induction false} AllEmpty(t: seq<Slot>)
    requires forall p :: 0 <= p < |t| ==> t[p].empty
    ensures Occupied(t) == 0 && Holds(t, map[])
  {
    if t != [] {
      AllEmpty(t[..|t| - 1]);
    }
  }
}
