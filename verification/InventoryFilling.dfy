/** The inserting loop in memory, with or without slots to spare: what the item gains,
    what becomes of the free-slot count, and which slots are taken. */
module InventoryFilling {
  import opened Words
  import opened OrderedKeys
  import opened Inventory
  import opened InventoryBooks

  lemma {:induction false} DivMod(x: nat, d: nat)
    requires d > 0
    ensures x == d * (x / d) + x % d && 0 <= x % d < d
  {
  }

  lemma {:induction false} MulStep(n: nat, max: nat)
    ensures (n + 1) * max == n * max + max
  {
  }

  lemma {:induction false} SmallMultiple(d: int, k: int)
    requires d > 0 && -d < d * k < d
    ensures k == 0
  {
  }

  lemma {:induction false} Quotient(x: nat, n: nat, d: nat, r: nat)
    requires r < d && x == n * d + r
    ensures x / d == n && x % d == r
  {
    DivMod(x, d);
    var k := x / d - n;
    assert d * k == d * (x / d) - d * n;
    SmallMultiple(d, k);
  }

  lemma {:induction false} Remainder(x: nat, n: nat, d: nat, r: nat)
    requires r < d && x == n * d + r
    ensures Rest(x, d) == r
  {
    Quotient(x, n, d, r);
  }

  /** The slots the loop fills: the whole ones, and one more. */
  function SlotsFilled(max: nat, count: nat): (n: nat)
    requires max > 0
    ensures n > 0
  {
    count / max + 1
  }

  lemma {:induction false} FilledTurn(max: nat, count: nat)
    requires max > 0
    ensures count < max ==> SlotsFilled(max, count) == 1 && Rest(count, max) == count
    ensures count >= max ==> SlotsFilled(max, count) == SlotsFilled(max, count - max) + 1
    ensures count >= max ==> Rest(count, max) == Rest(count - max, max)
  {
    if count < max {
      Quotient(count, 0, max, count);
    } else {
      var n, r := (count - max) / max, (count - max) % max;
      DivMod(count - max, max);
      assert (n + 1) * max == max * n + max;
      Quotient(count, n + 1, max, r);
    }
  }

  // ---------- a table without free slots ----------

  ghost predicate Full(t: Table) {
    Shaped(t) && forall s :: 1 <= s <= SLOTS ==> !t.available[s]
  }

  lemma {:induction false} NoneUsable(t: Table, db: Db)
    requires Valid(t, db) && t.usable == 0
    ensures Full(t)
  {
    forall s: SlotNo | 1 <= s <= SLOTS ensures !t.available[s] { FullDb(db, s); }
  }

  /** An insert goes to the slot that `next` stays on. */
  lemma {:induction false} InsertedWhenFull(t: Table, id: Dword, quantity: Dword)
    requires Full(t)
    ensures var t' := Inserted(t, id, quantity);
            && Full(t') && t'.next == t.next && t'.usable == LowDword(t.usable - 1)
            && t'.slots == Put(t, id, t.next, quantity).slots
  {
  }

  lemma {:induction false} PutTwice(t: Table, t1: Table, id: Dword, s: SlotNo, a: Dword, b: Dword)
    requires t1.slots == Put(t, id, s, a).slots
    ensures Put(t1, id, s, b).slots == Put(t, id, s, b).slots
  {
    SlotsAfterPut(t, id, s, a, id);
    assert SlotsOf(t1, id) == SlotsOf(t, id)[s := a];
    assert SlotsOf(t1, id)[s := b] == SlotsOf(t, id)[s := b];
    assert t1.slots[id := SlotsOf(t1, id)[s := b]] == t.slots[id := SlotsOf(t, id)[s := b]];
  }

  /** Every turn overwrites the same slot, and the count of free slots runs below 0. */
  lemma {:induction false} FillingFull(t: Table, id: Dword, max: Dword, count: Dword)
    requires Full(t) && max > 0
    ensures var t' := InsertedAll(t, id, max, count).table;
            && Full(t') && t'.slots == Put(t, id, t.next, Rest(count, max)).slots
            && t'.usable == LowDword(t.usable - SlotsFilled(max, count))
    decreases count
  {
    assert Shaped(t);
    hide *;
    FilledTurn(max, count);
    InsertedWhenFull(t, id, Min(count, max));
    if count < max {
      InsertedAllLast(t, id, max, count);
      MinLess(count, max);
    } else {
      MinLess(max, count);
      var t1 := Inserted(t, id, max);
      InsertedAllMore(t, id, max, count);
      FullShaped(t1);
      FillingFull(t1, id, max, count - max);
      PutTwice(t, t1, id, t.next, max, Rest(count - max, max));
      LowDwordAdd(t.usable - 1, 0 - SlotsFilled(max, count - max));
    }
  }

  lemma {:induction false} FullShaped(t: Table)
    requires Full(t)
    ensures Shaped(t)
  {
  }

  lemma {:induction false} MinLess(a: int, b: int)
    requires a <= b
    ensures Min(a, b) == a == Min(b, a)
  {
  }

  // ---------- what the item gains ----------

  function HeldAt(m: Slots, s: SlotNo): nat {
    if s in m then m[s] else 0
  }

  /** What the loop adds to the item's total: all of `count` with a slot to spare. Otherwise
      the last slot taken is overwritten until only the part that fills no whole slot is in
      it; in a table that is full from the start, that slot held something before. */
  function FillGain(t: Table, id: Dword, max: Dword, count: Dword): int
    requires max > 0
  {
    if count < Capacity(t, max) then count
    else if t.usable > 0 then Capacity(t, max) - max + Rest(count, max)
    else Rest(count, max) - HeldAt(SlotsOf(t, id), t.next)
  }

  lemma {:induction false} PutChanges(t: Table, t': Table, id: Dword, s: SlotNo, quantity: Dword)
    requires t'.slots == Put(t, id, s, quantity).slots
    ensures Gained(t, t', id, quantity - HeldAt(SlotsOf(t, id), s))
  {
    SumPut(SlotsOf(t, id), s, quantity);
    SlotsAfterPut(t, id, s, quantity, id);
    assert SlotsOf(t', id) == SlotsOf(Put(t, id, s, quantity), id);
    forall other | other != id ensures SlotsOf(t', other) == SlotsOf(t, other) {
      SlotsAfterPut(t, id, s, quantity, other);
    }
  }

  /** The slot taken last holds what was put in, and `next` stays on it. */
  lemma {:induction false} InsertedLast(t: Table, db: Db, id: Dword, quantity: Dword)
    requires Valid(t, db) && t.usable == 1
    ensures Shaped(t) && Inserted(t, id, quantity).next == t.next
    ensures HeldAt(SlotsOf(Inserted(t, id, quantity), id), t.next) == quantity
  {
    TakenLast(t, db);
    SlotsAfterPut(Taken(t), id, t.next, quantity, id);
  }

  lemma {:induction false} FillGainTurn(t: Table, t1: Table, id: Dword, max: Dword, count: Dword)
    requires 0 < max <= count && count >= Capacity(t, max) && t.usable > 0 && t1.usable == t.usable - 1
    requires t.usable == 1 ==> HeldAt(SlotsOf(t1, id), t1.next) == max
    ensures FillGain(t, id, max, count) == max + FillGain(t1, id, max, count - max)
  {
    FilledTurn(max, count);
    CapacityStep(t, t1, max);
    hide Rest, Capacity, SlotsOf, HeldAt;
    if t1.usable == 0 { OneSlot(t, max); }
  }

  lemma {:induction false} OneSlot(t: Table, max: Dword)
    requires t.usable == 1
    ensures Capacity(t, max) == max
  {
  }

  /** The loop's outcome in memory, whatever the count: other items keep their slots. When
      no slot stays over, none is free afterwards and the free-slot count is below 0. */
  lemma {:induction false} FillingGains(t: Table, db: Db, id: Dword, max: Dword, count: Dword)
    requires Valid(t, db) && max > 0
    ensures Shaped(t) && Gained(t, InsertedAll(t, id, max, count).table, id, FillGain(t, id, max, count))
    ensures count >= Capacity(t, max) ==>
              var t' := InsertedAll(t, id, max, count).table;
              Full(t') && t'.usable == LowDword(t.usable - SlotsFilled(max, count))
    decreases count
  {
    hide *;
    ValidParts(t, db);
    if count < Capacity(t, max) {
      FillingSpare(t, db, id, max, count);
    } else if t.usable == 0 {
      FillingNone(t, db, id, max, count);
    } else {
      var db1 := FillingTurn(t, db, id, max, count);
      FillingGains(Inserted(t, id, max), db1, id, max, count - max);
      FillingAfterTurn(t, db, id, max, count);
    }
  }

  lemma {:induction false} FillingSpare(t: Table, db: Db, id: Dword, max: Dword, count: Dword)
    requires Valid(t, db) && max > 0 && count < Capacity(t, max)
    ensures Shaped(t) && Gained(t, InsertedAll(t, id, max, count).table, id, FillGain(t, id, max, count))
  {
    hide *;
    ValidParts(t, db);
    var db' := InsertedAllKeeps(t, db, id, max, count);
    InStepParts(t, db, id, count, InsertedAll(t, id, max, count), db');
    FillGainSpare(t, id, max, count);
  }

  lemma {:induction false} FillingNone(t: Table, db: Db, id: Dword, max: Dword, count: Dword)
    requires Valid(t, db) && max > 0 && t.usable == 0
    ensures Shaped(t)
    ensures var t' := InsertedAll(t, id, max, count).table;
            && Gained(t, t', id, FillGain(t, id, max, count))
            && Full(t') && t'.usable == LowDword(t.usable - SlotsFilled(max, count))
  {
    hide *;
    ValidParts(t, db);
    NoneUsable(t, db);
    FillingFull(t, id, max, count);
    PutChanges(t, InsertedAll(t, id, max, count).table, id, t.next, Rest(count, max));
    FillGainFull(t, id, max, count);
  }

  /** One turn with a free slot but too few for all. */
  lemma {:induction false} FillingTurn(t: Table, db: Db, id: Dword, max: Dword, count: Dword) returns (db1: Db)
    requires Valid(t, db) && max > 0 && t.usable > 0 && count >= Capacity(t, max)
    ensures Shaped(t) && count >= max && Valid(Inserted(t, id, max), db1)
    ensures Inserted(t, id, max).usable == t.usable - 1 && count - max >= Capacity(Inserted(t, id, max), max)
    ensures FillGain(t, id, max, count) == max + FillGain(Inserted(t, id, max), id, max, count - max)
  {
    hide *;
    ValidParts(t, db);
    var t1 := Inserted(t, id, max);
    db1 := db[t.next := Row(id, max)];
    InsertedKeeps(t, db, id, max);
    CapacityStep(t, t1, max);
    if t.usable == 1 { InsertedLast(t, db, id, max); }
    FillGainTurn(t, t1, id, max, count);
  }

  lemma {:induction false} FillingAfterTurn(t: Table, db: Db, id: Dword, max: Dword, count: Dword)
    requires Valid(t, db) && t.usable > 0 && 0 < max <= count
    requires Inserted(t, id, max).usable == t.usable - 1
    requires FillGain(t, id, max, count) == max + FillGain(Inserted(t, id, max), id, max, count - max)
    requires var t1 := Inserted(t, id, max);
             var t' := InsertedAll(t1, id, max, count - max).table;
             && Gained(t1, t', id, FillGain(t1, id, max, count - max))
             && Full(t') && t'.usable == LowDword(t1.usable - SlotsFilled(max, count - max))
    ensures var t' := InsertedAll(t, id, max, count).table;
            && Gained(t, t', id, FillGain(t, id, max, count))
            && Full(t') && t'.usable == LowDword(t.usable - SlotsFilled(max, count))
  {
    hide *;
    ValidParts(t, db);
    var t1 := Inserted(t, id, max);
    InsertedMirrored(t, db, id, max);
    InsertedAllMore(t, id, max, count);
    FilledTurn(max, count);
    GainedTwice(t, t1, InsertedAll(t, id, max, count).table, id, max, FillGain(t1, id, max, count - max));
  }

  lemma {:induction false} InStepParts(t: Table, db: Db, id: Dword, count: int, s: Step, db': Db)
    requires InStep(t, db, id, count, s, db')
    ensures Replayed(db, s.updates) == Some(db') && Valid(s.table, db') && Gained(t, s.table, id, count)
  {
  }

  lemma {:induction false} FillGainSpare(t: Table, id: Dword, max: Dword, count: Dword)
    requires max > 0 && count < Capacity(t, max)
    ensures FillGain(t, id, max, count) == count
  {
  }

  lemma {:induction false} FillGainFull(t: Table, id: Dword, max: Dword, count: Dword)
    requires max > 0 && t.usable == 0
    ensures FillGain(t, id, max, count) == Rest(count, max) - HeldAt(SlotsOf(t, id), t.next)
  {
  }

  lemma {:induction false} InsertedMirrored(t: Table, db: Db, id: Dword, quantity: Dword)
    requires Valid(t, db) && t.usable > 0
    ensures Shaped(t) && Gained(t, Inserted(t, id, quantity), id, quantity)
  {
    hide Mirrors, Inserted, Gained;
    NextIsFree(t, db);
    InsertedGains(t, db, id, quantity);
  }

  // ---------- which slots are taken ----------

  /** The number of free slots below `s`. */
  function FreeBelow(available: seq<bool>, s: nat): nat
    requires s <= |available|
  {
    if s <= 1 then 0 else FreeBelow(available, s - 1) + if available[s - 1] then 1 else 0
  }

  /** `s` is one of the `n` lowest free slots. */
  ghost predicate AmongLowest(t: Table, n: nat, s: SlotNo)
    requires Shaped(t)
  {
    1 <= s <= SLOTS && t.available[s] && FreeBelow(t.available, s) < n
  }

  /** The slot numbers that updates name. */
  ghost function Named(updates: seq<Update>): set<SlotNo> {
    set i | 0 <= i < |updates| :: updates[i].seqNo
  }

  lemma {:induction false} NamedCons(u: Update, updates: seq<Update>)
    ensures Named([u] + updates) == {u.seqNo} + Named(updates)
  {
    var all := [u] + updates;
    assert all[0] == u;
    forall s | s in Named(updates) ensures s in Named(all) {
      var i :| 0 <= i < |updates| && updates[i].seqNo == s;
      assert all[i + 1] == updates[i];
    }
  }

  lemma {:induction false} NoneFreeBelow(available: seq<bool>, s: nat)
    requires s <= |available| && forall j :: 1 <= j < s ==> !available[j]
    ensures FreeBelow(available, s) == 0
  {
    if s > 1 { NoneFreeBelow(available, s - 1); }
  }

  lemma {:induction false} FreeBelowTaken(available: seq<bool>, k: nat, s: nat)
    requires 1 <= k < |available| && s <= |available| && available[k]
    ensures FreeBelow(available[k := false], s) == FreeBelow(available, s) - if k < s then 1 else 0
  {
    if s > 1 { FreeBelowTaken(available, k, s - 1); }
  }

  /** The lowest free slot, and the lowest `n` once it is taken. */
  lemma {:induction false} LowestTurn(t: Table, db: Db, n: nat, s: SlotNo)
    requires Valid(t, db) && t.usable > 0
    ensures Shaped(t) && (AmongLowest(t, n + 1, s) <==> s == t.next || AmongLowest(Taken(t), n, s))
  {
    NoneFreeBelow(t.available, t.next);
    if 1 <= s <= SLOTS { FreeBelowTaken(t.available, t.next, s); }
  }

  /** With a slot to spare, the loop names exactly the lowest free slots, as many as it fills. */
  lemma {:induction false} FillingSlots(t: Table, db: Db, id: Dword, max: Dword, count: Dword)
    requires Valid(t, db) && max > 0 && count < Capacity(t, max)
    ensures Shaped(t)
    ensures forall s :: s in Named(InsertedAll(t, id, max, count).updates) <==> AmongLowest(t, SlotsFilled(max, count), s)
    decreases count
  {
    hide *;
    ValidParts(t, db);
    SomeRoom(t, max, count);
    FilledTurn(max, count);
    var n := SlotsFilled(max, count);
    if count < max {
      InsertedAllLast(t, id, max, count);
      NamedOne(Insert(id, t.next, count));
      forall s: SlotNo ensures s == t.next <==> AmongLowest(t, n, s) {
        LowestTurn(t, db, 0, s);
        NoneAmongZero(Taken(t), s);
      }
    } else {
      var t1, db1 := Inserted(t, id, max), db[t.next := Row(id, max)];
      InsertedKeeps(t, db, id, max);
      CapacityStep(t, t1, max);
      FillingSlots(t1, db1, id, max, count - max);
      InsertedAllMore(t, id, max, count);
      NamedCons(Insert(id, t.next, max), InsertedAll(t1, id, max, count - max).updates);
      forall s: SlotNo
        ensures s in Named(InsertedAll(t, id, max, count).updates) <==> AmongLowest(t, n, s)
      {
        LowestTurn(t, db, n - 1, s);
        LowestInserted(t, id, max, n - 1, s);
      }
    }
  }

  lemma {:induction false} NamedOne(u: Update)
    ensures Named([u]) == {u.seqNo}
  {
    assert [u][0] == u;
  }

  lemma {:induction false} NoneAmongZero(t: Table, s: SlotNo)
    requires Shaped(t)
    ensures !AmongLowest(t, 0, s)
  {
  }

  lemma {:induction false} LowestInserted(t: Table, id: Dword, quantity: Dword, n: nat, s: SlotNo)
    requires Shaped(t)
    ensures AmongLowest(Inserted(t, id, quantity), n, s) <==> AmongLowest(Taken(t), n, s)
  {
  }

  // ---------- slot by slot ----------

  /** In memory the loop does what its updates say. */
  lemma {:induction false} FillingStored(t: Table, id: Dword, max: Dword, count: Dword)
    requires Shaped(t) && max > 0
    ensures var s := InsertedAll(t, id, max, count);
            SlotsOf(s.table, id) == Stored(SlotsOf(t, id), s.updates)
    decreases count
  {
    hide *;
    if count < max {
      InsertedAllLast(t, id, max, count);
      InsertedHolds(t, id, count, id);
      StoredOne(SlotsOf(t, id), Insert(id, t.next, count));
    } else {
      var t1 := Inserted(t, id, max);
      InsertedAllMore(t, id, max, count);
      InsertedHolds(t, id, max, id);
      FillingStored(t1, id, max, count - max);
      StoredCons(SlotsOf(t, id), Insert(id, t.next, max), InsertedAll(t1, id, max, count - max).updates);
    }
  }

  lemma {:induction false} InsertedHolds(t: Table, id: Dword, quantity: Dword, other: Dword)
    requires Shaped(t)
    ensures var t' := Inserted(t, id, quantity);
            && Shaped(t') && t'.slots == Put(t, id, t.next, quantity).slots && t.next in SlotsOf(t', id)
            && SlotsOf(t', id) == SlotsOf(t, id)[t.next := quantity]
            && (other != id ==> SlotsOf(t', other) == SlotsOf(t, other))
  {
    SlotsAfterPut(Taken(t), id, t.next, quantity, id);
    SlotsAfterPut(Taken(t), id, t.next, quantity, other);
  }

  /** The quantity of the loop's update `i`: full slots, and the rest at the end. */
  ghost predicate Portion(u: Update, id: Dword, max: Dword, count: Dword, i: nat)
    requires max > 0
  {
    u.Insert? && u.id == id && u.quantity == if i < count / max then max else count % max
  }

  lemma {:induction false} PortionTurn(u: Update, id: Dword, max: Dword, count: Dword, i: nat)
    requires max > 0
    ensures count < max ==> (Portion(u, id, max, count, 0) <==> u.Insert? && u.id == id && u.quantity == count)
    ensures count >= max ==> (Portion(u, id, max, count, 0) <==> u.Insert? && u.id == id && u.quantity == max)
    ensures count >= max && i > 0 ==> (Portion(u, id, max, count, i) <==> Portion(u, id, max, count - max, i - 1))
  {
    if count < max {
      Quotient(count, 0, max, count);
    } else {
      var n, r := (count - max) / max, (count - max) % max;
      DivMod(count - max, max);
      MulStep(n, max);
      Quotient(count, n + 1, max, r);
    }
  }

  lemma {:induction false} FillingFullLayout(t: Table, id: Dword, max: Dword, count: Dword, i: nat)
    requires Full(t) && max > 0
    ensures Shaped(t)
    ensures var updates := InsertedAll(t, id, max, count).updates;
            && |updates| == SlotsFilled(max, count)
            && (i < |updates| ==> updates[i].seqNo == t.next && Portion(updates[i], id, max, count, i))
    decreases count
  {
    hide *;
    FullShaped(t);
    FilledTurn(max, count);
    if count < max {
      InsertedAllLast(t, id, max, count);
      PortionTurn(Insert(id, t.next, count), id, max, count, 0);
    } else {
      InsertedAllMore(t, id, max, count);
      InsertedWhenFull(t, id, max);
      PortionTurn(Insert(id, t.next, max), id, max, count, 0);
      FullShaped(Inserted(t, id, max));
      FillingFullLayout(Inserted(t, id, max), id, max, count - max, if i > 0 then i - 1 else 0);
      var rest := InsertedAll(Inserted(t, id, max), id, max, count - max).updates;
      if 0 < i <= |rest| { PortionTurn(rest[i - 1], id, max, count, i); }
    }
  }

  /** `s` is the free slot with `n` free slots below it. */
  ghost predicate FreeAt(t: Table, n: int, s: SlotNo)
    requires Shaped(t)
  {
    1 <= s <= SLOTS && t.available[s] && FreeBelow(t.available, s) == n
  }

  lemma {:induction false} FreeAtTurn(t: Table, db: Db, id: Dword, quantity: Dword, n: nat, s: SlotNo)
    requires Valid(t, db) && t.usable > 0
    ensures Shaped(t) && FreeAt(t, 0, t.next)
    ensures FreeAt(Inserted(t, id, quantity), n, s) ==> FreeAt(t, n + 1, s)
  {
    NoneFreeBelow(t.available, t.next);
    if 1 <= s <= SLOTS { FreeBelowTaken(t.available, t.next, s); }
  }

  /** The loop's updates, one by one: full slots and the rest, into the free slots in order;
      once there are none, all into the one taken last. */
  lemma {:induction false} FillingLayout(t: Table, db: Db, id: Dword, max: Dword, count: Dword, i: nat)
    requires Valid(t, db) && max > 0
    ensures Shaped(t)
    ensures var updates := InsertedAll(t, id, max, count).updates;
            && |updates| == SlotsFilled(max, count)
            && (i < |updates| ==>
                  && Portion(updates[i], id, max, count, i)
                  && if t.usable == 0 then updates[i].seqNo == t.next
                     else FreeAt(t, if i < t.usable then i else t.usable - 1, updates[i].seqNo))
    decreases count
  {
    hide *;
    ValidParts(t, db);
    if t.usable == 0 {
      NoneUsable(t, db);
      FillingFullLayout(t, id, max, count, i);
    } else if count < max {
      FilledTurn(max, count);
      InsertedAllLast(t, id, max, count);
      PortionTurn(Insert(id, t.next, count), id, max, count, 0);
      FreeAtTurn(t, db, id, count, 0, 1);
    } else {
      FilledTurn(max, count);
      InsertedAllMore(t, id, max, count);
      PortionTurn(Insert(id, t.next, max), id, max, count, 0);
      FreeAtTurn(t, db, id, max, 0, 1);
      if i > 0 { LaterLayout(t, db, id, max, count, i); } else { LaterLayout(t, db, id, max, count, 1); }
    }
  }

  lemma {:induction false} LaterLayout(t: Table, db: Db, id: Dword, max: Dword, count: Dword, i: nat)
    requires Valid(t, db) && 0 < max <= count && t.usable > 0 && i > 0
    ensures Shaped(t)
    ensures var updates := InsertedAll(Inserted(t, id, max), id, max, count - max).updates;
            && |updates| == SlotsFilled(max, count - max)
            && (i <= |updates| ==>
                  && Portion(updates[i - 1], id, max, count, i)
                  && FreeAt(t, if i < t.usable then i else t.usable - 1, updates[i - 1].seqNo))
    decreases count, 0
  {
    hide *;
    ValidParts(t, db);
    var t1 := Inserted(t, id, max);
    InsertedKeeps(t, db, id, max);
    FillingLayout(t1, db[t.next := Row(id, max)], id, max, count - max, i - 1);
    var updates := InsertedAll(t1, id, max, count - max).updates;
    if i <= |updates| {
      PortionTurn(updates[i - 1], id, max, count, i);
      if t.usable == 1 {
        InsertedLast(t, db, id, max);
        FreeAtTurn(t, db, id, max, 0, 1);
      } else {
        FreeAtTurn(t, db, id, max, if i < t.usable then i - 1 else t.usable - 2, updates[i - 1].seqNo);
      }
    }
  }
}
