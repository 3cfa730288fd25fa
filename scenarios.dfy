/**
 * Concrete traces of the map with the keys "A" and "B". On two slots "A"
 * starts its probe at index 0 and "B" at index 1; on six slots they
 * start at 2 and 3; on eight slots "B" starts at 7. With two slots the
 * load check fires for every `set` made while `length` is 1 or more.
 */
module Scenarios {
  import opened Wrappers
  import opened Djb2
  import opened Probing

  /** The key "A". */
  const KeyA: Key := [65]
  /** The key "B". */
  const KeyB: Key := [66]

  lemma Starts()
    ensures Start(KeyA, 2) == 0 && Start(KeyB, 2) == 1
    ensures Start(KeyA, 6) == 2 && Start(KeyB, 6) == 3
    ensures Start(KeyB, 8) == 7
  {
    assert KeyA[..0] == [] && KeyB[..0] == [];
    assert Hash(KeyA) == 177638 && Hash(KeyB) == 177639;
  }

  /**
   * Overwriting counts as an insertion: after "B" is set twice in the
   * default table the map holds one key but `length` is 2.
   */
  lemma OverwriteIsCounted()
    ensures Set(EmptyTable<int>(DefaultCapacity), KeyB, 10)
            == Success(Table(seq(7, _ => Empty) + [Live(KeyB, 10)], 1, 0, None))
    ensures Set(Table(seq(7, _ => Empty) + [Live(KeyB, 10)], 1, 0, None), KeyB, 20)
            == Success(Table(seq(7, _ => Empty) + [Live(KeyB, 20)], 2, 0, None))
  {
    Starts();
    var t0 := EmptyTable<int>(DefaultCapacity);
    var blank: seq<Slot<int>> := seq(7, _ => Empty);
    assert t0.slots == blank + [Empty];
    assert FindSlot(t0.slots, KeyB) == Some(7);
    assert t0.slots[7 := Live(KeyB, 10)] == blank + [Live(KeyB, 10)];
    assert Grow(t0) == t0;
    var t1 := Table(blank + [Live(KeyB, 10)], 1, 0, None);
    assert FindSlot(t1.slots, KeyB) == Some(7);
    assert t1.slots[7 := Live(KeyB, 20)] == blank + [Live(KeyB, 20)];
    assert Grow(t1) == t1;
  }

  /**
   * Tombstones can fill a table: set and remove "B", then "A", in two
   * slots. Both slots are then tombstones while `length` is 0, so the
   * load check never fires and the probe for "A" runs out.
   */
  lemma TombstonesFillTable()
    ensures Set(EmptyTable<int>(2), KeyB, 10) == Success(Table([Empty, Live(KeyB, 10)], 1, 0, None))
    ensures Remove(Table([Empty, Live(KeyB, 10)], 1, 0, None), KeyB)
            == Success(Table([Empty, Tomb(KeyB, 10)], 0, 1, None))
    ensures Set(Table([Empty, Tomb(KeyB, 10)], 0, 1, None), KeyA, 30)
            == Success(Table([Live(KeyA, 30), Tomb(KeyB, 10)], 1, 1, None))
    ensures Remove(Table([Live(KeyA, 30), Tomb(KeyB, 10)], 1, 1, None), KeyA)
            == Success(Table([Tomb(KeyA, 30), Tomb(KeyB, 10)], 0, 2, None))
    ensures Set(Table([Tomb(KeyA, 30), Tomb(KeyB, 10)], 0, 2, None), KeyA, 40) == Failure(SlotsExhausted)
    ensures Get(Table([Tomb(KeyA, 30), Tomb(KeyB, 10)], 0, 2, None), KeyA) == Failure(KeyError)
  {
    Starts();
    var t0 := EmptyTable<int>(2);
    assert t0.slots == [Empty, Empty];
    assert FindSlot(t0.slots, KeyB) == Some(1);
    assert t0.slots[1 := Live(KeyB, 10)] == [Empty, Live(KeyB, 10)];
    assert Grow(t0) == t0;
    var t1 := Table([Empty, Live(KeyB, 10)], 1, 0, None);
    assert FindSlot(t1.slots, KeyB) == Some(1);
    assert t1.slots[1 := Tomb(KeyB, 10)] == [Empty, Tomb(KeyB, 10)];
    var t2 := Table([Empty, Tomb(KeyB, 10)], 0, 1, None);
    assert FindSlot(t2.slots, KeyA) == Some(0);
    assert t2.slots[0 := Live(KeyA, 30)] == [Live(KeyA, 30), Tomb(KeyB, 10)];
    assert Grow(t2) == t2;
    var t3 := Table([Live(KeyA, 30), Tomb(KeyB, 10)], 1, 1, None);
    assert FindSlot(t3.slots, KeyA) == Some(0);
    assert t3.slots[0 := Tomb(KeyA, 30)] == [Tomb(KeyA, 30), Tomb(KeyB, 10)];
    var t4 := Table([Tomb(KeyA, 30), Tomb(KeyB, 10)], 0, 2, None);
    FindSlotVisitsAll(t4.slots, KeyA);
    assert Grow(t4) == t4;
  }

  /** The two `set` calls of the stale-value rebuild: ("B", 20) goes to index 3, then 10 overwrites it. */
  lemma RebuildStaleSets()
    ensures Set(Table([Empty, Empty, Empty, Empty, Empty, Empty], 0, 1, Some(0)), KeyB, 20)
            == Success(Table([Empty, Empty, Empty, Live(KeyB, 20), Empty, Empty], 1, 1, Some(0)))
    ensures Set(Table([Empty, Empty, Empty, Live(KeyB, 20), Empty, Empty], 1, 1, Some(0)), KeyB, 10)
            == Success(Table([Empty, Empty, Empty, Live(KeyB, 10), Empty, Empty], 2, 1, Some(0)))
  {
    Starts();
    var e: Slot<int> := Empty;
    var r0 := Table([e, e, e, e, e, e], 0, 1, Some(0));
    assert FindSlot(r0.slots, KeyB) == Some(3);
    var r1 := Table([e, e, e, Live(KeyB, 20), e, e], 1, 1, Some(0));
    assert r0.slots[3 := Live(KeyB, 20)] == r1.slots;
    assert Grow(r0) == r0;
    assert FindSlot(r1.slots, KeyB) == Some(3);
    var r2 := Table([e, e, e, Live(KeyB, 10), e, e], 2, 1, Some(0));
    assert r1.slots[3 := Live(KeyB, 10)] == r2.slots;
    assert Grow(r1) == r1;
  }

  /** The rebuild of the stale-value run: index 0 puts ("B", 20) at 3, index 1 overwrites it with 10. */
  lemma RebuildStale()
    ensures Resize(Table([Live(KeyB, 20), Tomb(KeyB, 10)], 1, 1, None), 6)
            == Table([Empty, Empty, Empty, Live(KeyB, 10), Empty, Empty], 2, 1, Some(0))
  {
    var t3 := Table([Live(KeyB, 20), Tomb(KeyB, 10)], 1, 1, None);
    var e: Slot<int> := Empty;
    var r0 := RebuildStart(t3, 6);
    assert r0.slots == [e, e, e, e, e, e];
    RebuildStaleSets();
    ReinsertStep(r0, t3.slots);
    var r1 := Table([e, e, e, Live(KeyB, 20), e, e], 1, 1, Some(0));
    assert t3.slots[1..][1..] == [];
    ReinsertStep(r1, t3.slots[1..]);
  }

  /**
   * A stale value comes back on growth: "B" is set, removed and set
   * again, so its live slot (index 0) sits below its tombstone (index
   * 1). The next `set` grows the table, the rebuild re-sets index 0 and
   * then index 1, and "B" ends up with its removed value 10. `length`
   * is 3 for two keys, `_deleted` stays 1 and `deleted` is now 0.
   */
  lemma StaleValueAfterGrowth()
    ensures Set(Table([Empty, Tomb(KeyB, 10)], 0, 1, None), KeyB, 20)
            == Success(Table([Live(KeyB, 20), Tomb(KeyB, 10)], 1, 1, None))
    ensures Get(Table([Live(KeyB, 20), Tomb(KeyB, 10)], 1, 1, None), KeyB) == Success(20)
    ensures Set(Table([Live(KeyB, 20), Tomb(KeyB, 10)], 1, 1, None), KeyA, 30)
            == Success(Table([Empty, Empty, Live(KeyA, 30), Live(KeyB, 10), Empty, Empty], 3, 1, Some(0)))
    ensures Get(Table([Empty, Empty, Live(KeyA, 30), Live(KeyB, 10), Empty, Empty], 3, 1, Some(0)), KeyB)
            == Success(10)
  {
    Starts();
    var t2 := Table([Empty, Tomb(KeyB, 10)], 0, 1, None);
    assert ProbeIndex(KeyB, 2, 1) == 0;
    assert FirstStop(t2.slots, KeyB, 1) == 1;
    assert FindSlot(t2.slots, KeyB) == Some(0);
    assert t2.slots[0 := Live(KeyB, 20)] == [Live(KeyB, 20), Tomb(KeyB, 10)];
    assert Grow(t2) == t2;
    var t3 := Table([Live(KeyB, 20), Tomb(KeyB, 10)], 1, 1, None);
    assert FindSlot(t3.slots, KeyB) == Some(0);
    var e: Slot<int> := Empty;
    var r2 := Table([e, e, e, Live(KeyB, 10), e, e], 2, 1, Some(0));
    RebuildStale();
    assert Grow(t3) == r2;
    assert FindSlot(r2.slots, KeyA) == Some(2);
    var t4 := Table([e, e, Live(KeyA, 30), Live(KeyB, 10), e, e], 3, 1, Some(0));
    assert r2.slots[2 := Live(KeyA, 30)] == t4.slots;
    assert FindSlot(t4.slots, KeyB) == Some(3);
  }
}
