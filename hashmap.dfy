/**
 * The `HashMap` class: the slot array and the counters are fields that
 * the methods update in place. Each method is proved to have the effect
 * of the matching function of module Probing on the abstract table.
 */
module HashMaps {
  import opened Wrappers
  import opened Djb2
  import opened Probing

  class HashMap<V> {
    var length: int
    var slots: array<Slot<V>>
    var capacity: nat
    /** `_deleted`: the number of removes, never reset. */
    var deletedCount: nat
    /** The `deleted` property that `_resize` writes instead of `_deleted`; None while it does not exist. */
    var deleted: Option<nat>

    ghost function Model(): Table<V>
      reads this, slots
    {
      Table(slots[..], length, deletedCount, deleted)
    }

    ghost predicate Valid()
      reads this, slots
    {
      capacity == slots.Length && Probing.Valid(Model())
    }

    constructor (initialCapacity: nat)
      requires initialCapacity > 0
      ensures Valid() && fresh(slots)
      ensures Model() == EmptyTable(initialCapacity)
    {
      length := 0;
      slots := new Slot<V>[initialCapacity](_ => Empty);
      capacity := initialCapacity;
      deletedCount := 0;
      deleted := None;
      new;
      assert slots[..] == EmptyTable<V>(initialCapacity).slots;
      EmptyTableValid<V>(initialCapacity);
    }

    /** `new HashMap` without an argument. */
    constructor Default()
      ensures Valid() && fresh(slots)
      ensures Model() == EmptyTable(DefaultCapacity)
    {
      length := 0;
      slots := new Slot<V>[DefaultCapacity](_ => Empty);
      capacity := DefaultCapacity;
      deletedCount := 0;
      deleted := None;
      new;
      assert slots[..] == EmptyTable<V>(DefaultCapacity).slots;
      EmptyTableValid<V>(DefaultCapacity);
    }

    /** `_hashString`: the loop over the key's code units with JavaScript's 32-bit operators. */
    static method HashString(key: Key) returns (h: nat)
      ensures h == Hash(key) && h < TwoTo32
    {
      var hash: int := Seed;
      var i := 0;
      while i < |key|
        invariant 0 <= i <= |key|
        invariant ToUint32(hash) == Hash(key[..i])
      {
        JsStepIsRecurrence(hash, key[i]);
        assert key[..i + 1][..i] == key[..i];
        hash := JsShiftLeft5(hash) + hash + key[i];
        hash := ToInt32(hash);
        i := i + 1;
      }
      assert key[..i] == key;
      h := ToUint32(hash);
    }

    /** `_findSlot`: the scan from hash mod capacity over `capacity` indices. */
    method FindSlot(key: Key) returns (index: Option<nat>)
      requires Valid()
      ensures index == Probing.FindSlot(slots[..], key)
    {
      var hash := HashString(key);
      var start := hash % capacity;
      var i := start;
      while i < start + capacity
        invariant start <= i <= start + capacity
        invariant forall m :: 0 <= m < i - start ==> !Stops(slots[ProbeIndex(key, capacity, m)], key)
      {
        var slot := slots[i % capacity];
        if slot.Empty? || (slot.Live? && slot.key == key) {
          assert ProbeIndex(key, capacity, i - start) == i % capacity;
          return Some(i % capacity);
        }
        i := i + 1;
      }
      return None;
    }

    /** `get`: no state changes; 'Key error' when the resolved slot is missing or empty. */
    method Get(key: Key) returns (r: Result<V, MapError>)
      requires Valid()
      ensures r == Probing.Get(Model(), key)
    {
      var index := FindSlot(key);
      if index.None? || slots[index.value].Empty? {
        return Failure(KeyError);
      }
      return Success(slots[index.value].value);
    }

    /**
     * `set`: grow first when the load check fires, then write a live
     * slot where the probe stops and count it, overwrite or not.
     */
    method Set(key: Key, value: V) returns (r: Outcome<MapError>)
      requires Valid()
      modifies this, slots
      ensures Valid()
      ensures slots == old(slots) || fresh(slots)
      ensures match Probing.Set(old(Model()), key, value)
              case Success(t) => r == Pass && Model() == t
              case Failure(e) => r == Fail(e) && Model() == old(Model())
      decreases if LoadExceeded(length, capacity) then 2 else 0
    {
      ghost var t := Model();
      if LoadExceeded(length, capacity) {
        Resize(capacity * SizeRatio);
      }
      assert Model() == Grow(t);
      var index := FindSlot(key);
      if index.None? {
        return Fail(SlotsExhausted);
      }
      PlaceKeepsValid(Model(), key, value);
      slots[index.value] := Live(key, value);
      length := length + 1;
      r := Pass;
    }

    /** `remove`: flag the found live slot deleted, keeping it written, and adjust both counters. */
    method Remove(key: Key) returns (r: Outcome<MapError>)
      requires Valid()
      modifies this, slots
      ensures Valid() && slots == old(slots)
      ensures match Probing.Remove(old(Model()), key)
              case Success(t) => r == Pass && Model() == t
              case Failure(e) => r == Fail(e) && Model() == old(Model())
    {
      var index := FindSlot(key);
      if index.None? || slots[index.value].Empty? {
        return Fail(KeyError);
      }
      RemoveKeepsValid(Model(), key);
      var slot := slots[index.value];
      slots[index.value] := Tomb(slot.key, slot.value);
      length := length - 1;
      deletedCount := deletedCount + 1;
      r := Pass;
    }

    /**
     * `_resize`: install an empty array of `size` slots, reset `length`,
     * write the stray `deleted` property, and `set` every written old
     * slot in index order.
     */
    method Resize(size: nat)
      requires Valid() && 10 * capacity <= 9 * size
      modifies this
      ensures Valid() && fresh(slots)
      ensures Model() == Probing.Resize(old(Model()), size)
      decreases 1
    {
      var oldSlots := slots;
      ghost var olds := oldSlots[..];
      capacity := size;
      length := 0;
      deleted := Some(0);
      slots := new Slot<V>[size](_ => Empty);
      assert slots[..] == seq(size, _ => Empty);
      assert Model() == RebuildStart(old(Model()), size);
      var i := 0;
      while i < oldSlots.Length
        invariant 0 <= i <= oldSlots.Length
        invariant fresh(slots) && capacity == slots.Length
        invariant oldSlots[..] == olds
        invariant Rebuilding(Model(), olds[i..])
        invariant Reinsert(Model(), olds[i..]) == Probing.Resize(old(Model()), size)
      {
        assert olds[i..][1..] == olds[i + 1..];
        ReinsertStep(Model(), olds[i..]);
        var slot := oldSlots[i];
        if !slot.Empty? {
          var _ := Set(slot.key, slot.value);
        }
        i := i + 1;
      }
    }
  }
}
