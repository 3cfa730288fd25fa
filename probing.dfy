/**
 * The slot table of the hash map as a value: slots, linear probing,
 * and the effect of get, set, remove and resize on it. The class in
 * hashmap.dfy is proved to follow these functions step by step.
 */
module Probing {
  import opened Wrappers
  import opened Djb2

  /** One position of the slot array: never written, live, or deleted (a tombstone that keeps its payload). */
  datatype Slot<V> = Empty | Live(key: Key, value: V) | Tomb(key: Key, value: V)

  /** The only error the source raises ('Key error'), plus the probe exhaustion it leaves undefined. */
  datatype MapError = KeyError | SlotsExhausted

  /**
   * The map's state: the slot array (its length is the capacity), the
   * `length` counter, the `_deleted` counter, and the unrelated
   * `deleted` property that a resize writes (None until then).
   */
  datatype Table<V> = Table(slots: seq<Slot<V>>, length: int, deletedCount: nat, deleted: Option<nat>)

  const DefaultCapacity: nat := 8
  const MaxLoadRatio: real := 0.9
  const SizeRatio: nat := 3

  /** `(length + 1) / capacity > MAX_LOAD_RATIO`, in integers. */
  predicate LoadExceeded(length: int, capacity: nat): (b: bool)
    ensures length + 1 > capacity ==> b
    ensures !b && capacity > 0 ==> length + 1 < capacity
  {
    10 * (length + 1) > 9 * capacity
  }

  lemma LoadExceededIsRatio(length: int, capacity: nat)
    requires capacity > 0
    ensures LoadExceeded(length, capacity) <==> (length + 1) as real / capacity as real > MaxLoadRatio
  {
    var x := (length + 1) as real;
    var c := capacity as real;
    assert x / c * c == x;
    if x / c > MaxLoadRatio {
      assert x > MaxLoadRatio * c;
    } else {
      assert x <= MaxLoadRatio * c;
    }
  }

  function EmptyTable<V>(capacity: nat): (t: Table<V>)
    requires capacity > 0
    ensures |t.slots| == capacity && t.length == 0 && t.deletedCount == 0 && t.deleted == None
    ensures forall j :: 0 <= j < capacity ==> t.slots[j] == Empty
  {
    Table(seq(capacity, _ => Empty), 0, 0, None)
  }

  // ---------------------------------------------------------------- probing

  /** The slot at which a probe for `key` may stop: a never-written slot or a live slot with that key. */
  predicate Stops<V>(slot: Slot<V>, key: Key): (b: bool)
    ensures slot.Tomb? ==> !b
    ensures slot.Empty? ==> b
    ensures b && !slot.Empty? ==> slot.key == key
  {
    slot.Empty? || (slot.Live? && slot.key == key)
  }

  /** The first index the probe for `key` visits in `n` slots: the hash modulo `n`. */
  function Start(key: Key, n: nat): (s: nat)
    requires n > 0
    ensures s < n
    ensures Hash(key) < n ==> s == Hash(key)
  {
    var h := Hash(key);
    if h < n then ModBelowTwice(h, n); h % n else h % n
  }

  /** The index visited at step `i` of the probe for `key` in `n` slots. */
  function ProbeIndex(key: Key, n: nat, i: nat): (j: nat)
    requires n > 0
    ensures j < n
    ensures Start(key, n) + i < n ==> j == Start(key, n) + i
    ensures n <= Start(key, n) + i < 2 * n ==> j == Start(key, n) + i - n
  {
    var x := Start(key, n) + i;
    if x < 2 * n then ModBelowTwice(x, n); x % n else x % n
  }

  /** The step at which the probe for `key` visits index `j`: the inverse of ProbeIndex. */
  function ProbeOffset(key: Key, n: nat, j: nat): (i: nat)
    requires n > 0 && j < n
    ensures i < n && ProbeIndex(key, n, i) == j
  {
    var s := Start(key, n);
    ModBelowTwice(j + (if j >= s then 0 else n), n);
    if j >= s then j - s else j + n - s
  }

  lemma ModBelowTwice(x: int, n: nat)
    requires 0 < n && 0 <= x < 2 * n
    ensures x % n == if x < n then x else x - n
  {
  }

  lemma OffsetOfIndex(key: Key, n: nat, i: nat)
    requires 0 < n && i < n
    ensures ProbeOffset(key, n, ProbeIndex(key, n, i)) == i
  {
    ModBelowTwice(Start(key, n) + i, n);
  }

  /** The first probe step at or after `i` whose slot stops the probe; |slots| when there is none. */
  function FirstStop<V>(slots: seq<Slot<V>>, key: Key, i: nat): (k: nat)
    requires 0 < |slots| && i <= |slots|
    ensures i <= k <= |slots|
    ensures k < |slots| ==> Stops(slots[ProbeIndex(key, |slots|, k)], key)
    ensures forall m :: i <= m < k ==> !Stops(slots[ProbeIndex(key, |slots|, m)], key)
    decreases |slots| - i
  {
    if i == |slots| then i
    else if Stops(slots[ProbeIndex(key, |slots|, i)], key) then i
    else FirstStop(slots, key, i + 1)
  }

  /**
   * `_findSlot`: scan the `capacity` indices once, starting at
   * hash mod capacity and wrapping, and return the first one that is
   * empty or holds the key live; None when the scan runs out.
   */
  function FindSlot<V>(slots: seq<Slot<V>>, key: Key): (r: Option<nat>)
    requires 0 < |slots|
    ensures r.Some? ==> r.value < |slots| && Stops(slots[r.value], key)
    ensures r.Some? ==> forall m :: 0 <= m < ProbeOffset(key, |slots|, r.value) ==>
                          !Stops(slots[ProbeIndex(key, |slots|, m)], key)
  {
    var k := FirstStop(slots, key, 0);
    if k == |slots| then None
    else
      OffsetOfIndex(key, |slots|, k);
      Some(ProbeIndex(key, |slots|, k))
  }

  /** The probe visits every index: it fails exactly when no slot stops it. */
  lemma FindSlotVisitsAll<V>(slots: seq<Slot<V>>, key: Key)
    requires 0 < |slots|
    ensures FindSlot(slots, key).None? <==> forall j :: 0 <= j < |slots| ==> !Stops(slots[j], key)
  {
    var n := |slots|;
    if FindSlot(slots, key).None? {
      forall j | 0 <= j < n ensures !Stops(slots[j], key) {
        var m := ProbeOffset(key, n, j);
        assert !Stops(slots[ProbeIndex(key, n, m)], key);
      }
    }
  }

  /** Of all the slots that stop the probe, the one returned is the earliest on the probe path. */
  lemma FindSlotIsFirst<V>(slots: seq<Slot<V>>, key: Key, j: nat)
    requires 0 < |slots| && j < |slots| && Stops(slots[j], key)
    ensures FindSlot(slots, key).Some?
    ensures ProbeOffset(key, |slots|, FindSlot(slots, key).value) <= ProbeOffset(key, |slots|, j)
  {
    FindSlotVisitsAll(slots, key);
    var n := |slots|;
    assert ProbeIndex(key, n, ProbeOffset(key, n, j)) == j;
  }

  // ---------------------------------------------------------------- counting

  function Count<V>(s: seq<Slot<V>>, p: Slot<V> -> bool): (c: nat)
    ensures c <= |s|
  {
    if s == [] then 0 else (if p(s[0]) then 1 else 0) + Count(s[1..], p)
  }

  predicate IsLive<V>(x: Slot<V>) { x.Live? }
  predicate IsTomb<V>(x: Slot<V>) { x.Tomb? }
  predicate IsWritten<V>(x: Slot<V>) { !x.Empty? }

  lemma {:induction false} CountUpdate<V>(s: seq<Slot<V>>, i: nat, x: Slot<V>, p: Slot<V> -> bool)
    requires i < |s|
    ensures Count(s[i := x], p) == Count(s, p) - (if p(s[i]) then 1 else 0) + (if p(x) then 1 else 0)
  {
    if i > 0 {
      assert s[i := x][1..] == s[1..][i - 1 := x];
      CountUpdate(s[1..], i - 1, x, p);
    }
  }

  lemma {:induction false} CountNone<V>(s: seq<Slot<V>>, p: Slot<V> -> bool)
    requires forall j :: 0 <= j < |s| ==> !p(s[j])
    ensures Count(s, p) == 0
  {
    if s != [] {
      CountNone(s[1..], p);
    }
  }

  lemma {:induction false} CountZero<V>(s: seq<Slot<V>>, p: Slot<V> -> bool)
    requires Count(s, p) == 0
    ensures forall j :: 0 <= j < |s| ==> !p(s[j])
  {
    if s != [] {
      CountZero(s[1..], p);
      assert forall j :: 1 <= j < |s| ==> s[j] == s[1..][j - 1];
    }
  }

  /** Every written slot is live or a tombstone. */
  lemma {:induction false} CountWritten<V>(s: seq<Slot<V>>)
    ensures Count(s, IsWritten) == Count(s, IsLive) + Count(s, IsTomb)
  {
    if s != [] {
      CountWritten(s[1..]);
    }
  }

  /** Fewer written slots than slots means some slot is still empty. */
  lemma {:induction false} SomeSlotEmpty<V>(s: seq<Slot<V>>) returns (j: nat)
    requires Count(s, IsWritten) < |s|
    ensures j < |s| && s[j].Empty?
  {
    if s[0].Empty? {
      j := 0;
    } else {
      var j' := SomeSlotEmpty(s[1..]);
      j := j' + 1;
    }
  }

  /** While some slot is unwritten, the probe for any key finds a slot. */
  lemma RoomMeansFound<V>(s: seq<Slot<V>>, key: Key)
    requires 0 < |s| && Count(s, IsWritten) < |s|
    ensures FindSlot(s, key).Some?
  {
    var j := SomeSlotEmpty(s);
    FindSlotIsFirst(s, key, j);
  }

  // ---------------------------------------------------------------- the invariant

  /** No key has two live slots. */
  ghost predicate UniqueLive<V>(s: seq<Slot<V>>)
  {
    forall i, j :: 0 <= i < |s| && 0 <= j < |s| ==> NotBothLive(s, i, j)
  }

  /** Two different slots do not hold the same key live. */
  ghost predicate NotBothLive<V>(s: seq<Slot<V>>, i: int, j: int)
    requires 0 <= i < |s| && 0 <= j < |s|
  {
    s[i].Live? && s[j].Live? && s[i].key == s[j].key ==> i == j
  }

  /** Every index before a live slot on its key's probe path has been written. */
  ghost predicate Chained<V>(s: seq<Slot<V>>)
    requires 0 < |s|
  {
    forall j, m :: 0 <= j < |s| && 0 <= m ==> ChainLink(s, j, m)
  }

  /** Probe step `m` for the key of slot `j`, if it comes before `j`, is at a written slot. */
  ghost predicate ChainLink<V>(s: seq<Slot<V>>, j: int, m: int)
    requires 0 <= j < |s| && 0 <= m
  {
    s[j].Live? && m < ProbeOffset(s[j].key, |s|, j) ==> !s[ProbeIndex(s[j].key, |s|, m)].Empty?
  }

  /** The slot-array invariant every operation preserves. */
  ghost predicate Valid<V>(t: Table<V>)
  {
    && 0 < |t.slots|
    && UniqueLive(t.slots)
    && Chained(t.slots)
    && Count(t.slots, IsLive) <= t.length
    && Count(t.slots, IsTomb) <= t.deletedCount
    && 10 * t.length <= 9 * |t.slots|
  }

  lemma EmptyTableValid<V>(capacity: nat)
    requires capacity > 0
    ensures Valid(EmptyTable<V>(capacity))
  {
    var t := EmptyTable<V>(capacity);
    CountNone(t.slots, IsLive);
    CountNone(t.slots, IsTomb);
  }

  // ---------------------------------------------------------------- reference lookup

  /** An independent definition of the map's contents: the first live slot holding `key`, by linear scan. */
  function Lookup<V>(s: seq<Slot<V>>, key: Key): Option<V>
  {
    if s == [] then None
    else if s[0].Live? && s[0].key == key then Some(s[0].value)
    else Lookup(s[1..], key)
  }

  lemma {:induction false} LookupAt<V>(s: seq<Slot<V>>, j: nat)
    requires j < |s| && s[j].Live?
    requires forall i :: 0 <= i < j ==> !(s[i].Live? && s[i].key == s[j].key)
    ensures Lookup(s, s[j].key) == Some(s[j].value)
  {
    if j > 0 {
      assert !(s[0].Live? && s[0].key == s[j].key);
      LookupAt(s[1..], j - 1);
    }
  }

  lemma {:induction false} LookupMissing<V>(s: seq<Slot<V>>, key: Key)
    requires forall j :: 0 <= j < |s| ==> !(s[j].Live? && s[j].key == key)
    ensures Lookup(s, key) == None
  {
    if s != [] {
      LookupMissing(s[1..], key);
    }
  }

  lemma {:induction false} LookupFound<V>(s: seq<Slot<V>>, key: Key) returns (j: nat)
    requires Lookup(s, key).Some?
    ensures j < |s| && s[j] == Live(key, Lookup(s, key).value)
  {
    if s[0].Live? && s[0].key == key {
      j := 0;
    } else {
      var j' := LookupFound(s[1..], key);
      j := j' + 1;
    }
  }

  /** Overwriting a slot that holds neither a live `key` before nor after leaves `key`'s lookup alone. */
  lemma {:induction false} LookupUpdateOther<V>(s: seq<Slot<V>>, i: nat, x: Slot<V>, key: Key)
    requires i < |s|
    requires !(s[i].Live? && s[i].key == key) && !(x.Live? && x.key == key)
    ensures Lookup(s[i := x], key) == Lookup(s, key)
  {
    if i > 0 {
      assert s[i := x][1..] == s[1..][i - 1 := x];
      LookupUpdateOther(s[1..], i - 1, x, key);
    }
  }

  /** Under the invariant, the probe for a key that has a live slot ends at that slot. */
  lemma LiveIsFound<V>(s: seq<Slot<V>>, j: nat)
    requires 0 < |s| && UniqueLive(s) && Chained(s)
    requires j < |s| && s[j].Live?
    ensures FindSlot(s, s[j].key) == Some(j)
  {
    var n := |s|;
    var key := s[j].key;
    FindSlotIsFirst(s, key, j);
    var i := FindSlot(s, key).value;
    assert ProbeIndex(key, n, ProbeOffset(key, n, i)) == i;
    assert ChainLink(s, j, ProbeOffset(key, n, i));
    assert !s[i].Empty?;
    assert NotBothLive(s, i, j);
  }

  // ---------------------------------------------------------------- get

  function ToResult<V>(o: Option<V>): Result<V, MapError>
  {
    match o
    case Some(v) => Success(v)
    case None => Failure(KeyError)
  }

  /** `get`: 'Key error' when the probe fails or ends at an empty slot, otherwise the value found. */
  function Get<V>(t: Table<V>, key: Key): (r: Result<V, MapError>)
    requires 0 < |t.slots|
    ensures r.Failure? ==> r.error == KeyError
    ensures r.Success? ==> Live(key, r.value) in t.slots
  {
    match FindSlot(t.slots, key)
    case None => Failure(KeyError)
    case Some(i) => if t.slots[i].Empty? then Failure(KeyError) else Success(t.slots[i].value)
  }

  /** Hashed lookup agrees with the linear-scan definition of the contents. */
  lemma GetIsLookup<V>(t: Table<V>, key: Key)
    requires Valid(t)
    ensures Get(t, key) == ToResult(Lookup(t.slots, key))
  {
    var s := t.slots;
    match FindSlot(s, key)
    case None =>
      FindSlotVisitsAll(s, key);
      LookupMissing(s, key);
    case Some(i) =>
      if s[i].Empty? {
        forall j | 0 <= j < |s| ensures !(s[j].Live? && s[j].key == key) {
          if s[j].Live? && s[j].key == key {
            LiveIsFound(s, j);
          }
        }
        LookupMissing(s, key);
      } else {
        forall i' | 0 <= i' < i ensures !(s[i'].Live? && s[i'].key == s[i].key) {
          assert NotBothLive(s, i', i);
        }
        LookupAt(s, i);
      }
  }

  // ---------------------------------------------------------------- set

  /** The part of `set` after the load check: write a live slot where the probe stops and count it. */
  function Place<V>(t: Table<V>, key: Key, value: V): (r: Result<Table<V>, MapError>)
    requires 0 < |t.slots|
    ensures r.Failure? <==> forall j :: 0 <= j < |t.slots| ==> !Stops(t.slots[j], key)
    ensures r.Failure? ==> r.error == SlotsExhausted
    ensures r.Success? ==> |r.value.slots| == |t.slots| && r.value.length == t.length + 1
    ensures r.Success? ==> r.value.deletedCount == t.deletedCount && r.value.deleted == t.deleted
  {
    FindSlotVisitsAll(t.slots, key);
    match FindSlot(t.slots, key)
    case None => Failure(SlotsExhausted)
    case Some(i) => Success(t.(slots := t.slots[i := Live(key, value)], length := t.length + 1))
  }

  lemma PlaceKeepsValid<V>(t: Table<V>, key: Key, value: V)
    requires Valid(t) && !LoadExceeded(t.length, |t.slots|) && Place(t, key, value).Success?
    ensures Valid(Place(t, key, value).value)
    ensures Count(Place(t, key, value).value.slots, IsTomb) == Count(t.slots, IsTomb)
  {
    var s := t.slots;
    var n := |s|;
    var i := FindSlot(s, key).value;
    var s' := s[i := Live(key, value)];
    assert Place(t, key, value).value.slots == s';
    forall a, b | 0 <= a < n && 0 <= b < n ensures NotBothLive(s', a, b) {
      if s'[a].Live? && s'[b].Live? && s'[a].key == s'[b].key {
        if a != i && b == i {
          LiveIsFound(s, a);
        } else if a == i && b != i {
          LiveIsFound(s, b);
        } else {
          assert NotBothLive(s, a, b);
        }
      }
    }
    forall j, m | 0 <= j < n && 0 <= m ensures ChainLink(s', j, m) {
      if s'[j].Live? && m < ProbeOffset(s'[j].key, n, j) {
        if j != i {
          assert ChainLink(s, j, m);
        } else {
          assert !Stops(s[ProbeIndex(key, n, m)], key);
        }
      }
    }
    CountUpdate(s, i, Live(key, value), IsLive);
    CountUpdate(s, i, Live(key, value), IsTomb);
  }

  /** What a successful placement does to the contents: `key` now maps to `value`, nothing else changes. */
  lemma PlaceLookup<V>(t: Table<V>, key: Key, value: V, other: Key)
    requires Valid(t) && !LoadExceeded(t.length, |t.slots|) && Place(t, key, value).Success?
    ensures Lookup(Place(t, key, value).value.slots, other) == if other == key then Some(value) else Lookup(t.slots, other)
  {
    var s := t.slots;
    var i := FindSlot(s, key).value;
    var s' := s[i := Live(key, value)];
    assert Place(t, key, value).value.slots == s';
    if other == key {
      PlaceKeepsValid(t, key, value);
      LiveIsFound(s', i);
      GetIsLookup(Place(t, key, value).value, key);
    } else {
      LookupUpdateOther(s, i, Live(key, value), other);
    }
  }

  /** Before placing into a table rebuilt by a resize: it is valid, has no tombstones, and has room for the rest. */
  ghost predicate Rebuilding<V>(acc: Table<V>, rest: seq<Slot<V>>)
  {
    && Valid(acc)
    && 0 <= acc.length
    && Count(acc.slots, IsWritten) <= acc.length
    && Count(acc.slots, IsTomb) == 0
    && 10 * (acc.length + Count(rest, IsWritten)) <= 9 * |acc.slots|
  }

  /** During a rebuild the probe always finds a slot, and the new table keeps the rebuild invariant. */
  lemma RebuildStep<V>(acc: Table<V>, rest: seq<Slot<V>>)
    requires Rebuilding(acc, rest) && rest != [] && !rest[0].Empty?
    ensures !LoadExceeded(acc.length, |acc.slots|)
    ensures Place(acc, rest[0].key, rest[0].value).Success?
    ensures Rebuilding(Place(acc, rest[0].key, rest[0].value).value, rest[1..])
  {
    var key, value := rest[0].key, rest[0].value;
    RoomMeansFound(acc.slots, key);
    var i := FindSlot(acc.slots, key).value;
    var s' := acc.slots[i := Live(key, value)];
    assert Place(acc, key, value).value.slots == s';
    PlaceKeepsValid(acc, key, value);
    CountUpdate(acc.slots, i, Live(key, value), IsWritten);
    CountUpdate(acc.slots, i, Live(key, value), IsTomb);
  }

  /**
   * `_resize`'s loop: re-`set` every written old slot, in index order,
   * tombstones included. Each step's load check is proved not to fire
   * (RebuildStep), so `set` is its placement half.
   */
  function Reinsert<V>(acc: Table<V>, rest: seq<Slot<V>>): (r: Table<V>)
    requires Rebuilding(acc, rest)
    ensures Rebuilding(r, [])
    ensures |r.slots| == |acc.slots| && r.length == acc.length + Count(rest, IsWritten)
    ensures r.deletedCount == acc.deletedCount && r.deleted == acc.deleted
    decreases |rest|
  {
    if rest == [] then acc
    else if rest[0].Empty? then Reinsert(acc, rest[1..])
    else
      RebuildStep(acc, rest);
      Reinsert(Place(acc, rest[0].key, rest[0].value).value, rest[1..])
  }

  /**
   * `_resize(size)`: a fresh array of `size` slots, `length` reset to 0,
   * the stray `deleted` property set to 0, `_deleted` kept, then every
   * written old slot re-set. The requires keeps the rebuild from
   * triggering a resize of its own; `set` calls it with three times
   * the capacity.
   */
  function Resize<V>(t: Table<V>, size: nat): (r: Table<V>)
    requires 0 < |t.slots| && 10 * |t.slots| <= 9 * size
    ensures Valid(r) && |r.slots| == size
    ensures r.length == Count(t.slots, IsWritten) && Count(r.slots, IsWritten) <= r.length
    ensures Count(r.slots, IsTomb) == 0
    ensures r.deletedCount == t.deletedCount && r.deleted == Some(0)
  {
    Reinsert(RebuildStart(t, size), t.slots)
  }

  /** The table a resize starts from, before any old slot is re-set. */
  function RebuildStart<V>(t: Table<V>, size: nat): (r: Table<V>)
    requires 0 < |t.slots| && 10 * |t.slots| <= 9 * size
    ensures Rebuilding(r, t.slots)
    ensures |r.slots| == size && r.length == 0 && r.deletedCount == t.deletedCount && r.deleted == Some(0)
    ensures forall j :: 0 <= j < size ==> r.slots[j].Empty?
  {
    var start := Table(seq(size, _ => Empty), 0, t.deletedCount, Some(0));
    CountNone(start.slots, IsLive);
    CountNone(start.slots, IsTomb);
    CountNone(start.slots, IsWritten);
    start
  }

  /** One iteration of the resize loop, in the terms the loop of `_resize` needs. */
  lemma ReinsertStep<V>(acc: Table<V>, rest: seq<Slot<V>>)
    requires Rebuilding(acc, rest) && rest != []
    ensures rest[0].Empty? ==> Rebuilding(acc, rest[1..]) && Reinsert(acc, rest) == Reinsert(acc, rest[1..])
    ensures !rest[0].Empty? ==>
              && !LoadExceeded(acc.length, |acc.slots|)
              && Set(acc, rest[0].key, rest[0].value).Success?
              && Rebuilding(Set(acc, rest[0].key, rest[0].value).value, rest[1..])
              && Reinsert(acc, rest) == Reinsert(Set(acc, rest[0].key, rest[0].value).value, rest[1..])
  {
    if !rest[0].Empty? {
      RebuildStep(acc, rest);
      RebuildSetIsPlace(acc, rest);
    }
  }

  /** The load check of `set`: grow to SIZE_RATIO times the capacity when it fires. */
  function Grow<V>(t: Table<V>): (r: Table<V>)
    requires 0 < |t.slots|
    ensures |r.slots| == if LoadExceeded(t.length, |t.slots|) then |t.slots| * SizeRatio else |t.slots|
    ensures !LoadExceeded(r.length, |r.slots|)
    ensures LoadExceeded(t.length, |t.slots|) ==> Count(r.slots, IsTomb) == 0 && Count(r.slots, IsWritten) < |r.slots|
  {
    if LoadExceeded(t.length, |t.slots|) then Resize(t, |t.slots| * SizeRatio) else t
  }

  /**
   * `set`: the load check, then the placement. It fails only when the
   * load check did not fire and every slot is a tombstone or another
   * key's live slot; it then leaves the table unchanged.
   */
  function Set<V>(t: Table<V>, key: Key, value: V): (r: Result<Table<V>, MapError>)
    requires 0 < |t.slots|
    ensures r.Failure? ==> r.error == SlotsExhausted && !LoadExceeded(t.length, |t.slots|)
    ensures r.Failure? <==> !LoadExceeded(t.length, |t.slots|) && FindSlot(t.slots, key).None?
    ensures r.Failure? ==> forall j :: 0 <= j < |t.slots| ==> !Stops(t.slots[j], key)
    ensures r.Success? ==> |r.value.slots| == if LoadExceeded(t.length, |t.slots|) then |t.slots| * SizeRatio else |t.slots|
    ensures r.Success? ==> r.value.deletedCount == t.deletedCount
    ensures r.Success? ==> r.value.deleted == if LoadExceeded(t.length, |t.slots|) then Some(0) else t.deleted
    ensures r.Success? ==> r.value.length == 1 + if LoadExceeded(t.length, |t.slots|) then Count(t.slots, IsWritten) else t.length
  {
    var g := Grow(t);
    if LoadExceeded(t.length, |t.slots|) then
      RoomMeansFound(g.slots, key);
      Place(g, key, value)
    else
      Place(g, key, value)
  }

  /** `set` reports a failure exactly when the load check does not fire and every slot is a tombstone or another key's. */
  lemma SetFailsExactlyWhenExhausted<V>(t: Table<V>, key: Key, value: V)
    requires 0 < |t.slots|
    ensures Set(t, key, value).Failure? <==>
              !LoadExceeded(t.length, |t.slots|) && forall j :: 0 <= j < |t.slots| ==> !Stops(t.slots[j], key)
  {
    FindSlotVisitsAll(t.slots, key);
  }

  // ---------------------------------------------------------------- remove

  /** `remove`: 'Key error' as for `get`; otherwise flag the live slot deleted, keeping key and value. */
  function Remove<V>(t: Table<V>, key: Key): (r: Result<Table<V>, MapError>)
    requires 0 < |t.slots|
    ensures r.Failure? ==> r.error == KeyError
    ensures r.Success? ==> |r.value.slots| == |t.slots| && r.value.length == t.length - 1
    ensures r.Success? ==> r.value.deletedCount == t.deletedCount + 1 && r.value.deleted == t.deleted
  {
    match FindSlot(t.slots, key)
    case None => Failure(KeyError)
    case Some(i) =>
      if t.slots[i].Empty? then Failure(KeyError)
      else Success(t.(slots := t.slots[i := Tomb(t.slots[i].key, t.slots[i].value)],
                      length := t.length - 1,
                      deletedCount := t.deletedCount + 1))
  }

  lemma RemoveKeepsValid<V>(t: Table<V>, key: Key)
    requires Valid(t) && Remove(t, key).Success?
    ensures Valid(Remove(t, key).value)
  {
    var s := t.slots;
    var n := |s|;
    var i := FindSlot(s, key).value;
    var s' := s[i := Tomb(s[i].key, s[i].value)];
    assert Remove(t, key).value.slots == s';
    forall a, b | 0 <= a < n && 0 <= b < n ensures NotBothLive(s', a, b) {
      assert NotBothLive(s, a, b);
    }
    forall j, m | 0 <= j < n && 0 <= m ensures ChainLink(s', j, m) {
      assert ChainLink(s, j, m);
    }
    CountUpdate(s, i, Tomb(s[i].key, s[i].value), IsLive);
    CountUpdate(s, i, Tomb(s[i].key, s[i].value), IsTomb);
  }

  // ---------------------------------------------------------------- what the operations mean

  /**
   * `set` then `get`: the key now maps to the new value. Without growth
   * every other key keeps its lookup and no written slot is emptied;
   * with growth every other key maps to what the resize carried over.
   */
  lemma SetSemantics<V>(t: Table<V>, key: Key, value: V, other: Key)
    requires Valid(t) && Set(t, key, value).Success?
    ensures Valid(Set(t, key, value).value)
    ensures Get(Set(t, key, value).value, key) == Success(value)
    ensures other != key && !LoadExceeded(t.length, |t.slots|) ==>
              Get(Set(t, key, value).value, other) == Get(t, other)
    ensures other != key && LoadExceeded(t.length, |t.slots|) ==>
              Get(Set(t, key, value).value, other) == ToResult(LastWritten(t.slots, other))
    ensures !LoadExceeded(t.length, |t.slots|) ==>
              forall j :: 0 <= j < |t.slots| && !t.slots[j].Empty? ==> !Set(t, key, value).value.slots[j].Empty?
  {
    var g := Grow(t);
    var t' := Set(t, key, value).value;
    PlaceKeepsValid(g, key, value);
    PlaceLookup(g, key, value, key);
    PlaceLookup(g, key, value, other);
    GetIsLookup(t', key);
    GetIsLookup(t', other);
    if LoadExceeded(t.length, |t.slots|) {
      ResizeLookup(t, |t.slots| * SizeRatio, other);
    } else {
      GetIsLookup(t, other);
    }
  }

  /** The `set` calls of a resize never trigger a nested resize: each is its placement half. */
  lemma RebuildSetIsPlace<V>(acc: Table<V>, rest: seq<Slot<V>>)
    requires Rebuilding(acc, rest) && rest != [] && !rest[0].Empty?
    ensures Set(acc, rest[0].key, rest[0].value) == Place(acc, rest[0].key, rest[0].value)
    ensures Set(acc, rest[0].key, rest[0].value).Success?
  {
    RebuildStep(acc, rest);
  }

  /** A second `set` of a live key rewrites that key's own slot. */
  lemma SetOverwritesInPlace<V>(t: Table<V>, i: nat, value: V)
    requires Valid(t) && i < |t.slots| && t.slots[i].Live?
    requires !LoadExceeded(t.length, |t.slots|)
    ensures Set(t, t.slots[i].key, value) ==
              Success(t.(slots := t.slots[i := Live(t.slots[i].key, value)], length := t.length + 1))
  {
    LiveIsFound(t.slots, i);
  }

  /**
   * Setting a key twice: the second value is the one `get` returns, and
   * when the second `set` does not grow the table it rewrites the slot
   * the first one wrote.
   */
  lemma SetTwice<V>(t: Table<V>, key: Key, v1: V, v2: V, t1: Table<V>)
    requires Valid(t) && Set(t, key, v1) == Success(t1)
    ensures Set(t1, key, v2).Success? && Get(Set(t1, key, v2).value, key) == Success(v2)
    ensures !LoadExceeded(t1.length, |t1.slots|) ==>
              exists i :: 0 <= i < |t1.slots| && t1.slots[i] == Live(key, v1) &&
                Set(t1, key, v2).value.slots == t1.slots[i := Live(key, v2)]
  {
    SetSemantics(t, key, v1, key);
    var i := FindSlot(t1.slots, key).value;
    assert t1.slots[i] == Live(key, v1);
    if !LoadExceeded(t1.length, |t1.slots|) {
      SetOverwritesInPlace(t1, i, v2);
    } else {
      RoomMeansFound(Grow(t1).slots, key);
    }
    SetSemantics(t1, key, v2, key);
  }

  lemma RemoveLookup<V>(t: Table<V>, key: Key, other: Key)
    requires Valid(t) && Remove(t, key).Success?
    ensures Lookup(Remove(t, key).value.slots, key) == None
    ensures other != key ==> Lookup(Remove(t, key).value.slots, other) == Lookup(t.slots, other)
  {
    var s := t.slots;
    var i := FindSlot(s, key).value;
    var x := Tomb(s[i].key, s[i].value);
    var s' := s[i := x];
    assert Remove(t, key).value.slots == s';
    forall j | 0 <= j < |s| ensures !(s'[j].Live? && s'[j].key == key) {
      assert NotBothLive(s, i, j);
    }
    LookupMissing(s', key);
    if other != key {
      LookupUpdateOther(s, i, x, other);
    }
  }

  /**
   * `remove` fails with 'Key error' exactly when `get` does; otherwise
   * `get` of the key fails afterwards, every other key keeps its
   * lookup, and no written slot is emptied.
   */
  lemma RemoveSemantics<V>(t: Table<V>, key: Key, other: Key)
    requires Valid(t)
    ensures Remove(t, key).Failure? <==> Get(t, key).Failure?
    ensures Remove(t, key).Success? ==> Valid(Remove(t, key).value)
    ensures Remove(t, key).Success? ==> Get(Remove(t, key).value, key) == Failure(KeyError)
    ensures Remove(t, key).Success? && other != key ==> Get(Remove(t, key).value, other) == Get(t, other)
    ensures Remove(t, key).Success? ==>
              forall j :: 0 <= j < |t.slots| && !t.slots[j].Empty? ==> !Remove(t, key).value.slots[j].Empty?
  {
    if Remove(t, key).Success? {
      var t' := Remove(t, key).value;
      RemoveKeepsValid(t, key);
      RemoveLookup(t, key, other);
      GetIsLookup(t', key);
      GetIsLookup(t', other);
      GetIsLookup(t, other);
    }
  }

  /**
   * When every slot is a tombstone the probe runs out: `set` of any key
   * fails (unless the load check grows the table) and `get` and
   * `remove` report 'Key error'.
   */
  lemma TombstonesExhaustProbe<V>(t: Table<V>, key: Key, value: V)
    requires 0 < |t.slots| && forall j :: 0 <= j < |t.slots| ==> t.slots[j].Tomb?
    ensures FindSlot(t.slots, key) == None
    ensures !LoadExceeded(t.length, |t.slots|) ==> Set(t, key, value) == Failure(SlotsExhausted)
    ensures Get(t, key) == Failure(KeyError) && Remove(t, key) == Failure(KeyError)
  {
    FindSlotVisitsAll(t.slots, key);
  }

  // ---------------------------------------------------------------- resize

  /** The value of the highest-indexed written slot (live or tombstone) that holds `key`. */
  function LastWritten<V>(s: seq<Slot<V>>, key: Key): Option<V>
  {
    if s == [] then None
    else match LastWritten(s[1..], key)
      case Some(v) => Some(v)
      case None => if !s[0].Empty? && s[0].key == key then Some(s[0].value) else None
  }

  lemma {:induction false} LastWrittenNone<V>(s: seq<Slot<V>>, key: Key)
    requires forall i :: 0 <= i < |s| ==> s[i].Empty? || s[i].key != key
    ensures LastWritten(s, key) == None
  {
    if s != [] {
      LastWrittenNone(s[1..], key);
    }
  }

  lemma {:induction false} LastWrittenAt<V>(s: seq<Slot<V>>, j: nat)
    requires j < |s| && !s[j].Empty?
    requires forall i :: j < i < |s| ==> s[i].Empty? || s[i].key != s[j].key
    ensures LastWritten(s, s[j].key) == Some(s[j].value)
  {
    if j == 0 {
      LastWrittenNone(s[1..], s[0].key);
    } else {
      LastWrittenAt(s[1..], j - 1);
    }
  }

  lemma {:induction false} LastWrittenSome<V>(s: seq<Slot<V>>, j: nat)
    requires j < |s| && !s[j].Empty?
    ensures LastWritten(s, s[j].key).Some?
  {
    if j > 0 {
      LastWrittenSome(s[1..], j - 1);
    } else if LastWritten(s[1..], s[0].key).None? {
      assert LastWritten(s, s[0].key) == Some(s[0].value);
    }
  }

  lemma {:induction false} ReinsertLookup<V>(acc: Table<V>, rest: seq<Slot<V>>, key: Key)
    requires Rebuilding(acc, rest)
    ensures Lookup(Reinsert(acc, rest).slots, key) ==
              match LastWritten(rest, key)
              case Some(v) => Some(v)
              case None => Lookup(acc.slots, key)
    decreases |rest|
  {
    if rest != [] {
      if rest[0].Empty? {
        ReinsertLookup(acc, rest[1..], key);
      } else {
        RebuildStep(acc, rest);
        ReinsertLookup(Place(acc, rest[0].key, rest[0].value).value, rest[1..], key);
        PlaceLookup(acc, rest[0].key, rest[0].value, key);
      }
    }
  }

  /** After a resize, a key maps to the value of its highest-indexed old slot, tombstones included. */
  lemma ResizeLookup<V>(t: Table<V>, size: nat, key: Key)
    requires 0 < |t.slots| && 10 * |t.slots| <= 9 * size
    ensures Lookup(Resize(t, size).slots, key) == LastWritten(t.slots, key)
  {
    var start := RebuildStart(t, size);
    ReinsertLookup(start, t.slots, key);
    LookupMissing(start.slots, key);
  }

  /**
   * Resize re-sets old slots in index order, so where a key has several
   * written slots the highest-indexed one wins, even a tombstone written
   * over a live slot's newer value; a key whose only slots are
   * tombstones becomes live again.
   */
  lemma ResizeHighestSlotWins<V>(t: Table<V>, size: nat, j: nat)
    requires 0 < |t.slots| && 10 * |t.slots| <= 9 * size
    requires j < |t.slots| && !t.slots[j].Empty?
    requires forall i :: j < i < |t.slots| ==> t.slots[i].Empty? || t.slots[i].key != t.slots[j].key
    ensures Get(Resize(t, size), t.slots[j].key) == Success(t.slots[j].value)
  {
    LastWrittenAt(t.slots, j);
    ResizeLookup(t, size, t.slots[j].key);
    GetIsLookup(Resize(t, size), t.slots[j].key);
  }

  /** Every removed key is retrievable again after the next resize. */
  lemma RemovedKeyComesBack<V>(t: Table<V>, key: Key, size: nat)
    requires Valid(t) && Remove(t, key).Success?
    requires 10 * |t.slots| <= 9 * size
    ensures Get(Resize(Remove(t, key).value, size), key).Success?
  {
    var t' := Remove(t, key).value;
    var i := FindSlot(t.slots, key).value;
    assert t'.slots[i].Tomb? && t'.slots[i].key == key;
    LastWrittenSome(t'.slots, i);
    ResizeLookup(t', size, key);
    GetIsLookup(Resize(t', size), key);
  }

  // ---------------------------------------------------------------- without removes

  /** With no tombstone and unique live keys, the resize's winner for a key is its live slot. */
  lemma LastWrittenIsLookup<V>(s: seq<Slot<V>>, key: Key)
    requires UniqueLive(s) && Count(s, IsTomb) == 0
    ensures LastWritten(s, key) == Lookup(s, key)
  {
    CountZero(s, IsTomb);
    if j :| 0 <= j < |s| && s[j].Live? && s[j].key == key {
      forall i | j < i < |s| ensures s[i].Empty? || s[i].key != key {
        assert NotBothLive(s, i, j);
      }
      forall i | 0 <= i < j ensures !(s[i].Live? && s[i].key == s[j].key) {
        assert NotBothLive(s, i, j);
      }
      LastWrittenAt(s, j);
      LookupAt(s, j);
    } else {
      LastWrittenNone(s, key);
      LookupMissing(s, key);
    }
  }

  /**
   * As long as nothing has been removed there is no tombstone, and `set`
   * always succeeds and leaves no tombstone behind.
   */
  lemma DictionarySetSucceeds<V>(t: Table<V>, key: Key, value: V)
    requires Valid(t) && Count(t.slots, IsTomb) == 0
    ensures Set(t, key, value).Success?
    ensures Valid(Set(t, key, value).value) && Count(Set(t, key, value).value.slots, IsTomb) == 0
  {
    var g := Grow(t);
    assert Set(t, key, value) == Place(g, key, value);
    if LoadExceeded(t.length, |t.slots|) {
      assert g == Resize(t, |t.slots| * SizeRatio);
    } else {
      assert g == t;
      CountWritten(t.slots);
      RoomMeansFound(t.slots, key);
    }
    PlaceKeepsValid(g, key, value);
  }

  /**
   * Without tombstones the map is a true dictionary: after `set` the key
   * maps to the new value and every other key keeps its value, growth
   * included.
   */
  lemma DictionarySet<V>(t: Table<V>, key: Key, value: V)
    requires Valid(t) && Count(t.slots, IsTomb) == 0
    ensures Set(t, key, value).Success?
    ensures forall other :: Lookup(Set(t, key, value).value.slots, other) ==
                              if other == key then Some(value) else Lookup(t.slots, other)
  {
    DictionarySetSucceeds(t, key, value);
    var t' := Set(t, key, value).value;
    forall other ensures Lookup(t'.slots, other) == if other == key then Some(value) else Lookup(t.slots, other) {
      SetSemantics(t, key, value, other);
      GetIsLookup(t', other);
      GetIsLookup(t, other);
      if LoadExceeded(t.length, |t.slots|) {
        LastWrittenIsLookup(t.slots, other);
      }
    }
  }
}
