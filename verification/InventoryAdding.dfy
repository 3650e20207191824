/** Adding to an item table: when it is accepted, when the database can follow, and when
    the total moves by exactly what was added. */
module InventoryAdding {
  import opened Words
  import opened OrderedKeys
  import opened Inventory
  import opened InventoryBooks
  import opened InventoryFilling

  /** Full slots sum to a multiple of `max`. */
  lemma {:induction false} FullSlotsSum(m: Slots, max: Dword) returns (n: nat)
    requires max > 0 && forall k :: k in m ==> m[k] == max
    ensures Sum(m) == n * max
    decreases |m|
  {
    if m == map[] {
      n := 0;
      EmptySum();
    } else {
      var k := Least(m.Keys);
      hide Sum;
      SumWithout(m, k);
      var n' := FullSlotsSum(Without(m, k), max);
      n := n' + 1;
      MulStep(n', max);
    }
  }

  /** An item whose total is no multiple of `max` has an open slot. */
  lemma {:induction false} OpenSlotExists(m: Slots, max: Dword)
    requires max > 0 && Rest(Sum(m), max) != 0
    ensures OpenSlot(m, max).Some?
  {
    if OpenSlot(m, max).None? {
      var keys: seq<SlotNo> := Sorted(m.Keys);
      forall k | k in m ensures m[k] == max {
        InSorted(m.Keys, k);
        var j :| 0 <= j < |keys| && keys[j] == k;
      }
      var n := FullSlotsSum(m, max);
      Remainder(Sum(m), n, max, 0);
    }
  }

  /** With every other slot full, the open slot holds the remainder of the total. */
  lemma {:induction false} PackedRemainder(m: Slots, max: Dword, s: SlotNo)
    requires max > 0 && s in m && m[s] < max && forall k :: k in m && k != s ==> m[k] == max
    ensures Rest(Sum(m), max) == m[s]
  {
    SumWithout(m, s);
    var n := FullSlotsSum(Without(m, s), max);
    Remainder(Sum(m), n, max, m[s]);
  }

  /** The held total fits 32 bits, and so does what the whole table could hold. */
  ghost predicate Countable(t: Table, item: Item) {
    && item.maxQuantity > 0 && (SLOTS + 1) * item.maxQuantity < 0x1_0000_0000
    && Sum(SlotsOf(t, item.id)) < 0x1_0000_0000
  }

  lemma {:induction false} PositiveMax(t: Table, item: Item)
    requires Countable(t, item)
    ensures item.maxQuantity > 0
  {
  }

  /** The held quantity that does not fill whole slots. */
  function RestHeld(t: Table, item: Item): (r: nat)
    requires item.maxQuantity > 0
    ensures r < item.maxQuantity
  {
    Rest(Sum(SlotsOf(t, item.id)), item.maxQuantity)
  }

  /** The quantity in the open slot that an add would fill first. */
  function OpenQuantity(t: Table, item: Item): nat {
    match OpenSlot(SlotsOf(t, item.id), item.maxQuantity)
    case None => 0
    case Some(s) => SlotsOf(t, item.id)[s]
  }

  lemma {:induction false} CapacityBound(t: Table, db: Db, max: Dword)
    requires Booked(t, db)
    ensures Capacity(t, max) <= SLOTS * max
  {
  }

  lemma {:induction false} LowIsExact(x: nat)
    requires x < 0x1_0000_0000
    ensures LowDword(x) == x
  {
  }

  /** In a valid table no room worked out by `addItem` and `isAddItem` wraps. */
  lemma {:induction false} NoWrap(t: Table, db: Db, item: Item)
    requires Valid(t, db) && Countable(t, item)
    ensures var max := item.maxQuantity;
            && Quantity(t, item.id) == Sum(SlotsOf(t, item.id))
            && LowDword(Capacity(t, max)) == Capacity(t, max) <= SLOTS * max
            && LowDword(Capacity(t, max) + max - RestHeld(t, item)) == Capacity(t, max) + max - RestHeld(t, item)
  {
    hide Capacity, Rest, LowDword, Mirrors, NextIsLowest;
    CapacityBound(t, db, item.maxQuantity);
    LowIsExact(Sum(SlotsOf(t, item.id)));
    LowIsExact(Capacity(t, item.maxQuantity));
    LowIsExact(Capacity(t, item.maxQuantity) + item.maxQuantity - RestHeld(t, item));
  }

  lemma {:induction false} AddedIs(t: Table, item: Item)
    requires Shaped(t) && item.maxQuantity > 0
    ensures Quantity(t, item.id) == Sum(SlotsOf(t, item.id)) ==>
              var id, max, rest := item.id, item.maxQuantity, RestHeld(t, item);
              Added(t, item) ==
              if rest == 0 then
                if LowDword(Capacity(t, max)) >= item.quantity then Done(InsertedAll(t, id, max, item.quantity)) else Rejected
              else if LowDword(Capacity(t, max) + max - rest) >= item.quantity then
                match OpenSlot(SlotsOf(t, id), max)
                case None => Undefined
                case Some(s) => Done(ToppedUp(t, item, s, rest))
              else Rejected
  {
  }

  /** The branches of `addItem` in exact arithmetic. */
  lemma {:induction false} AddedExactly(t: Table, db: Db, item: Item)
    requires Valid(t, db) && Countable(t, item)
    ensures Shaped(t)
    ensures var id, max, rest, capacity := item.id, item.maxQuantity, RestHeld(t, item), Capacity(t, item.maxQuantity);
            Added(t, item) ==
            if rest == 0 then
              if capacity >= item.quantity then Done(InsertedAll(t, id, max, item.quantity)) else Rejected
            else if capacity + max - rest >= item.quantity then
              match OpenSlot(SlotsOf(t, id), max)
              case None => Undefined
              case Some(s) => Done(ToppedUp(t, item, s, rest))
            else Rejected
  {
    hide *;
    ValidParts(t, db);
    PositiveMax(t, item);
    NoWrap(t, db, item);
    AddedIs(t, item);
  }

  /** The room for an item: the free slots, and what the remainder leaves of one slot. */
  function RoomFor(t: Table, item: Item): nat
    requires item.maxQuantity > 0
  {
    var rest := RestHeld(t, item);
    Capacity(t, item.maxQuantity) + if rest == 0 then 0 else item.maxQuantity - rest
  }

  /** When an add is accepted: exactly when the room can hold it, however large the
      quantity that is asked for. */
  lemma {:induction false} AddAccepts(t: Table, db: Db, item: Item)
    requires Valid(t, db) && Countable(t, item)
    ensures Shaped(t) && Added(t, item) != Undefined
    ensures Added(t, item).Done? <==> item.quantity <= RoomFor(t, item)
  {
    AddedExactly(t, db, item);
    if RestHeld(t, item) != 0 { OpenSlotExists(SlotsOf(t, item.id), item.maxQuantity); }
    RoomForMeans(t, item);
    hide *;
  }

  lemma {:induction false} RoomForMeans(t: Table, item: Item)
    requires item.maxQuantity > 0
    ensures var rest := RestHeld(t, item);
            RoomFor(t, item) == Capacity(t, item.maxQuantity) + if rest == 0 then 0 else item.maxQuantity - rest
  {
  }

  lemma {:induction false} CanAddRoom(t: Table, item: Item)
    requires item.maxQuantity > 0 && Quantity(t, item.id) == Sum(SlotsOf(t, item.id))
    ensures CanAdd(t, item) <==>
            LowDword(Capacity(t, item.maxQuantity) + item.maxQuantity - RestHeld(t, item)) >= item.quantity
  {
    hide Capacity, LowDword, Rest, Sum, SlotsOf, Quantity;
  }

  lemma {:induction false} CanAddIs(t: Table, db: Db, item: Item)
    requires Valid(t, db) && Countable(t, item)
    ensures item.maxQuantity > 0
    ensures CanAdd(t, item) <==>
            LowDword(Capacity(t, item.maxQuantity) + item.maxQuantity - RestHeld(t, item)) >= item.quantity
  {
    hide *;
    PositiveMax(t, item);
    NoWrap(t, db, item);
    CanAddRoom(t, item);
  }

  /** `isAddItem` promises one slot too many exactly when the held slots are all full. */
  lemma {:induction false} CanAddMeaning(t: Table, db: Db, item: Item)
    requires Valid(t, db) && Countable(t, item)
    ensures Added(t, item).Done? ==> CanAdd(t, item)
    ensures var rest, capacity := RestHeld(t, item), Capacity(t, item.maxQuantity);
            CanAdd(t, item) && !Added(t, item).Done? <==>
            rest == 0 && capacity < item.quantity <= capacity + item.maxQuantity
  {
    hide *;
    NoWrap(t, db, item);
    AddAccepts(t, db, item);
    RoomForMeans(t, item);
    CanAddIs(t, db, item);
  }

  lemma {:induction false} RoomIs(t: Table, item: Item)
    requires item.maxQuantity > 0
    ensures RestHeld(t, item) == Sum(SlotsOf(t, item.id)) % item.maxQuantity
    ensures Capacity(t, item.maxQuantity) == t.usable * item.maxQuantity
  {
    hide Sum, SlotsOf;
  }

  /** Acceptance and promise in numbers. */
  lemma {:induction false} AddInNumbers(t: Table, db: Db, item: Item)
    requires Valid(t, db) && Countable(t, item)
    ensures Shaped(t) && item.maxQuantity > 0
    ensures var max, rest := item.maxQuantity, Sum(SlotsOf(t, item.id)) % item.maxQuantity;
            && (Added(t, item).Done? <==> item.quantity <= t.usable * max + if rest == 0 then 0 else max - rest)
            && (Added(t, item) == Rejected <==> !Added(t, item).Done?)
            && (CanAdd(t, item) <==> item.quantity <= t.usable * max + max - rest)
  {
    hide *;
    PositiveMax(t, item);
    AddAccepts(t, db, item);
    RoomForMeans(t, item);
    RoomIs(t, item);
    NoWrap(t, db, item);
    CanAddIs(t, db, item);
  }

  /** Changing the quantity of a slot the item has. */
  lemma {:induction false} PutInStep(t: Table, db: Db, id: Dword, k: SlotNo, quantity: Dword) returns (db1: Db)
    requires Valid(t, db) && k in SlotsOf(t, id)
    ensures InStep(t, db, id, quantity - SlotsOf(t, id)[k], Step(Put(t, id, k, quantity), [Change(id, k, quantity)]), db1)
    ensures Put(t, id, k, quantity).usable == t.usable
  {
    hide *;
    var t1, row := Put(t, id, k, quantity), Row(id, quantity);
    db1 := db[k := row];
    ValidParts(t, db);
    HeldInDb(t, db, id, k);
    PutMirrors(t, db, id, k, quantity);
    HeldStaysBooked(t, db, k, row);
    PutBooks(t, db1, id, k, quantity);
    PutGains(t, id, k, quantity);
    ReplayChange(db, id, k, quantity);
    MakeInStep(t, db, id, quantity - SlotsOf(t, id)[k], Step(t1, [Change(id, k, quantity)]), db1);
  }

  lemma {:induction false} HeldInDb(t: Table, db: Db, id: Dword, k: SlotNo)
    requires Mirrors(t, db) && k in SlotsOf(t, id)
    ensures k in db
  {
  }

  lemma {:induction false} PutBooks(t: Table, db: Db, id: Dword, k: SlotNo, quantity: Dword)
    requires Booked(t, db) && NextIsLowest(t)
    ensures Shaped(Put(t, id, k, quantity))
    ensures Booked(Put(t, id, k, quantity), db) && NextIsLowest(Put(t, id, k, quantity))
    ensures Put(t, id, k, quantity).usable == t.usable
  {
  }

  lemma {:induction false} PutGains(t: Table, id: Dword, k: SlotNo, quantity: Dword)
    requires k in SlotsOf(t, id)
    ensures Gained(t, Put(t, id, k, quantity), id, quantity - SlotsOf(t, id)[k])
  {
    SumPut(SlotsOf(t, id), k, quantity);
    SlotsAfterPut(t, id, k, quantity, id);
    forall other | other != id
      ensures SlotsOf(Put(t, id, k, quantity), other) == SlotsOf(t, other)
    {
      SlotsAfterPut(t, id, k, quantity, other);
    }
  }

  lemma {:induction false} ReplayChange(db: Db, id: Dword, k: SlotNo, quantity: Dword)
    requires k in db
    ensures Replayed(db, [Change(id, k, quantity)]) == Some(db[k := Row(id, quantity)])
  {
  }

  lemma {:induction false} MakeInStep(t: Table, db: Db, id: Dword, count: int, s: Step, db': Db)
    requires Replayed(db, s.updates) == Some(db') && Gained(t, s.table, id, count)
    requires Shaped(s.table) && Mirrors(s.table, db') && Booked(s.table, db') && NextIsLowest(s.table)
    ensures InStep(t, db, id, count, s, db')
  {
  }

  lemma {:induction false} HeldStaysBooked(t: Table, db: Db, k: SlotNo, row: Row)
    requires Booked(t, db) && k in db
    ensures Booked(t, db[k := row])
  {
  }

  // ---------- topping up ----------

  /** What the open slot would be filled to, in 32 bits. */
  function FilledTo(t: Table, item: Item): Dword {
    LowDword(OpenQuantity(t, item) + item.quantity)
  }

  ghost predicate FitsOpenSlot(t: Table, item: Item) {
    FilledTo(t, item) <= item.maxQuantity
  }

  /** What goes to new slots after topping up: worked out from the remainder of the total,
      not from the slot that was topped up. */
  function Overflow(t: Table, item: Item): Dword
    requires item.maxQuantity > 0
  {
    LowDword(item.quantity - (item.maxQuantity - RestHeld(t, item)))
  }

  /** Whether the slots suffice: always for an open slot with room, otherwise one slot
      must stay over for the rest, even when the rest is 0. */
  ghost predicate HasSlots(t: Table, item: Item)
    requires item.maxQuantity > 0
  {
    var max, rest := item.maxQuantity, RestHeld(t, item);
    if rest == 0 then item.quantity < Capacity(t, max)
    else FitsOpenSlot(t, item) || 0 <= item.quantity - (max - rest) < Capacity(t, max)
  }

  /** The open slot filled to `max`, and `count` more inserted. */
  function Topped(t: Table, item: Item, k: SlotNo, count: Dword): Step
    requires Shaped(t) && item.maxQuantity > 0
  {
    var r := InsertedAll(Put(t, item.id, k, item.maxQuantity), item.id, item.maxQuantity, count);
    Step(r.table, [Change(item.id, k, item.maxQuantity)] + r.updates)
  }

  lemma {:induction false} ToppedMeans(t: Table, item: Item, k: SlotNo, count: Dword)
    requires Shaped(t) && item.maxQuantity > 0
    ensures var t1 := Put(t, item.id, k, item.maxQuantity);
            && Shaped(t1) && Capacity(t1, item.maxQuantity) == Capacity(t, item.maxQuantity)
            && var r := InsertedAll(t1, item.id, item.maxQuantity, count);
               Topped(t, item, k, count) == Step(r.table, [Change(item.id, k, item.maxQuantity)] + r.updates)
  {
  }

  /** An accepted add, when the item's slots are not all full. */
  lemma {:induction false} OpenSlotCase(t: Table, db: Db, item: Item) returns (k: SlotNo)
    requires Valid(t, db) && Countable(t, item) && RestHeld(t, item) != 0 && Added(t, item).Done?
    ensures OpenSlot(SlotsOf(t, item.id), item.maxQuantity) == Some(k)
    ensures k in SlotsOf(t, item.id) && OpenQuantity(t, item) == SlotsOf(t, item.id)[k]
    ensures Shaped(t) && Added(t, item) == Done(ToppedUp(t, item, k, RestHeld(t, item)))
  {
    AddedExactly(t, db, item);
    OpenSlotExists(SlotsOf(t, item.id), item.maxQuantity);
    k := OpenSlot(SlotsOf(t, item.id), item.maxQuantity).value;
    hide Mirrors, Booked, NextIsLowest, Sum, Rest, Capacity, OpenSlot, Added, ToppedUp, SlotsOf, Valid;
  }

  lemma {:induction false} ToppedUpIs(t: Table, item: Item, k: SlotNo)
    requires Shaped(t) && item.maxQuantity > 0 && k in SlotsOf(t, item.id)
    requires OpenQuantity(t, item) == SlotsOf(t, item.id)[k]
    ensures ToppedUp(t, item, k, RestHeld(t, item)) ==
            if FitsOpenSlot(t, item) then
              Step(Put(t, item.id, k, FilledTo(t, item)), [Change(item.id, k, FilledTo(t, item))])
            else Topped(t, item, k, Overflow(t, item))
  {
    hide InsertedAll, Put, SlotsOf, OpenQuantity, LowDword, RestHeld;
  }

  lemma {:induction false} ToppedInStep(t: Table, db: Db, item: Item, k: SlotNo, count: Dword) returns (db': Db)
    requires Valid(t, db) && item.maxQuantity > 0 && k in SlotsOf(t, item.id)
    requires count < Capacity(t, item.maxQuantity)
    ensures Shaped(t)
    ensures InStep(t, db, item.id, item.maxQuantity - SlotsOf(t, item.id)[k] + count, Topped(t, item, k, count), db')
  {
    hide *;
    var id, max: int, s: int := item.id, item.maxQuantity, SlotsOf(t, item.id)[k];
    ValidParts(t, db);
    var db1 := PutInStep(t, db, id, k, max);
    var t1, u := Put(t, id, k, max), Change(id, k, max);
    ToppedMeans(t, item, k, count);
    StillValid(t, db, id, max - s, Step(t1, [u]), db1);
    db' := InsertedAllKeeps(t1, db1, id, max, count);
    InStepThen(t, db, id, max - s, t1, u, db1, count, InsertedAll(t1, id, max, count), db');
  }

  lemma {:induction false} ToppedClashes(t: Table, own: Db, db: Db, item: Item, k: SlotNo, count: Dword)
    requires Valid(t, own) && own.Keys <= db.Keys && item.maxQuantity > 0 && k in SlotsOf(t, item.id)
    requires count >= Capacity(t, item.maxQuantity)
    ensures Shaped(t) && Replayed(db, Topped(t, item, k, count).updates) == None
  {
    hide *;
    var id, max: int, s: int := item.id, item.maxQuantity, SlotsOf(t, item.id)[k];
    ValidParts(t, own);
    HeldInDb(t, own, id, k);
    var own1 := PutInStep(t, own, id, k, max);
    var t1, u := Put(t, id, k, max), Change(id, k, max);
    ToppedMeans(t, item, k, count);
    StillValid(t, own, id, max - s, Step(t1, [u]), own1);
    InStepReplays(t, own, id, max - s, Step(t1, [u]), own1);
    ReplayChange(own, id, k, max);
    ReplayChange(db, id, k, max);
    InsertedAllClashes(t1, own1, db[k := Row(id, max)], id, max, count);
    ReplayOne(db, u);
    ReplayCons(db, u, InsertedAll(t1, id, max, count).updates);
  }

  // ---------- the three ways an add goes ----------

  /** With no open slot the whole quantity goes to new slots. */
  lemma {:induction false} AddWhole(t: Table, db: Db, item: Item)
    requires Valid(t, db) && Countable(t, item) && Added(t, item).Done? && RestHeld(t, item) == 0
    ensures Shaped(t) && item.maxQuantity > 0
    ensures Added(t, item).step == InsertedAll(t, item.id, item.maxQuantity, item.quantity)
  {
    hide *;
    PositiveMax(t, item);
    AddedExactly(t, db, item);
  }

  /** What fits the open slot goes there. */
  lemma {:induction false} AddFits(t: Table, db: Db, item: Item) returns (k: SlotNo)
    requires Valid(t, db) && Countable(t, item) && Added(t, item).Done?
    requires RestHeld(t, item) != 0 && FitsOpenSlot(t, item)
    ensures k in SlotsOf(t, item.id) && OpenQuantity(t, item) == SlotsOf(t, item.id)[k]
    ensures Added(t, item).step == Step(Put(t, item.id, k, FilledTo(t, item)), [Change(item.id, k, FilledTo(t, item))])
  {
    hide *;
    PositiveMax(t, item);
    k := OpenSlotCase(t, db, item);
    ToppedUpIs(t, item, k);
  }

  /** What does not fit fills the open slot, and the overflow goes to new slots. */
  lemma {:induction false} AddOverflows(t: Table, db: Db, item: Item) returns (k: SlotNo)
    requires Valid(t, db) && Countable(t, item) && Added(t, item).Done?
    requires RestHeld(t, item) != 0 && !FitsOpenSlot(t, item)
    ensures Shaped(t) && item.maxQuantity > 0
    ensures OpenSlot(SlotsOf(t, item.id), item.maxQuantity) == Some(k)
    ensures k in SlotsOf(t, item.id) && OpenQuantity(t, item) == SlotsOf(t, item.id)[k]
    ensures Added(t, item).step == Topped(t, item, k, Overflow(t, item))
  {
    hide *;
    PositiveMax(t, item);
    k := OpenSlotCase(t, db, item);
    ToppedUpIs(t, item, k);
  }

  lemma {:induction false} HasSlotsMeans(t: Table, item: Item)
    requires item.maxQuantity > 0
    ensures HasSlots(t, item) <==>
            var max, q, rest := item.maxQuantity, item.quantity, RestHeld(t, item);
            if rest == 0 then q < Capacity(t, max)
            else FitsOpenSlot(t, item) || (q >= max - rest && q - (max - rest) < Capacity(t, max))
  {
  }

  /** The overflow is exact when the topped-up slot takes no more than is there, and
      otherwise wraps to more than any table can hold. */
  lemma {:induction false} OverflowCount(t: Table, db: Db, item: Item)
    requires Valid(t, db) && Countable(t, item) && RestHeld(t, item) != 0 && !FitsOpenSlot(t, item)
    ensures var max, q, rest := item.maxQuantity, item.quantity, RestHeld(t, item);
            if HasSlots(t, item) then Overflow(t, item) == q - (max - rest) && Overflow(t, item) < Capacity(t, max)
            else Overflow(t, item) >= Capacity(t, max)
  {
    hide *;
    PositiveMax(t, item);
    ValidParts(t, db);
    CapacityBound(t, db, item.maxQuantity);
    HasSlotsMeans(t, item);
    CountableMax(t, item);
    OverflowIs(t, item);
    OverflowWraps(item.quantity, item.maxQuantity, RestHeld(t, item));
  }

  lemma {:induction false} CountableMax(t: Table, item: Item)
    requires Countable(t, item)
    ensures (SLOTS + 1) * item.maxQuantity < 0x1_0000_0000
  {
  }

  lemma {:induction false} OverflowIs(t: Table, item: Item)
    requires item.maxQuantity > 0
    ensures Overflow(t, item) == LowDword(item.quantity - (item.maxQuantity - RestHeld(t, item)))
  {
  }

  lemma {:induction false} OverflowWraps(q: Dword, max: Dword, rest: nat)
    requires rest < max && (SLOTS + 1) * max < 0x1_0000_0000
    ensures LowDword(q - (max - rest)) == if q >= max - rest then q - (max - rest) else 0x1_0000_0000 + q - (max - rest)
  {
  }

  // ---------- adds with slots to spare ----------

  lemma {:induction false} AddFitsInStep(t: Table, db: Db, item: Item) returns (db': Db)
    requires Valid(t, db) && Countable(t, item) && Added(t, item).Done?
    requires RestHeld(t, item) != 0 && FitsOpenSlot(t, item)
    ensures InStep(t, db, item.id, FilledTo(t, item) - OpenQuantity(t, item), Added(t, item).step, db')
  {
    hide *;
    var k := AddFits(t, db, item);
    db' := PutInStep(t, db, item.id, k, FilledTo(t, item));
  }

  lemma {:induction false} AddWholeInStep(t: Table, db: Db, item: Item) returns (db': Db)
    requires Valid(t, db) && Countable(t, item) && Added(t, item).Done? && HasSlots(t, item)
    requires RestHeld(t, item) == 0
    ensures InStep(t, db, item.id, item.quantity, Added(t, item).step, db')
  {
    hide *;
    PositiveMax(t, item);
    HasSlotsMeans(t, item);
    AddWhole(t, db, item);
    db' := InsertedAllKeeps(t, db, item.id, item.maxQuantity, item.quantity);
  }

  lemma {:induction false} AddOverflowInStep(t: Table, db: Db, item: Item) returns (db': Db)
    requires Valid(t, db) && Countable(t, item) && Added(t, item).Done? && HasSlots(t, item)
    requires RestHeld(t, item) != 0 && !FitsOpenSlot(t, item)
    ensures InStep(t, db, item.id, item.quantity + RestHeld(t, item) - OpenQuantity(t, item), Added(t, item).step, db')
  {
    hide *;
    var k := AddOverflows(t, db, item);
    OverflowCount(t, db, item);
    db' := ToppedInStep(t, db, item, k, Overflow(t, item));
  }

  /** Whether an add with slots to spare moves the total by what was asked for: no open slot
      is needed, or it holds the remainder of the total, or it has room for everything. */
  ghost predicate FillsExactly(t: Table, item: Item)
    requires item.maxQuantity > 0
  {
    || RestHeld(t, item) == 0
    || OpenQuantity(t, item) == RestHeld(t, item)
    || OpenQuantity(t, item) + item.quantity <= item.maxQuantity
  }

  lemma {:induction false} FillsMeans(t: Table, db: Db, item: Item)
    requires Valid(t, db) && Countable(t, item) && Added(t, item).Done? && RestHeld(t, item) != 0
    ensures FitsOpenSlot(t, item) ==> (FilledTo(t, item) - OpenQuantity(t, item) == item.quantity <==> FillsExactly(t, item))
    ensures !FitsOpenSlot(t, item) ==> (RestHeld(t, item) == OpenQuantity(t, item) <==> FillsExactly(t, item))
  {
    hide *;
    PositiveMax(t, item);
    ValidParts(t, db);
    CapacityBound(t, db, item.maxQuantity);
    AddAccepts(t, db, item);
    RoomForMeans(t, item);
    CountableMax(t, item);
    FillsIs(t, item);
    FilledWraps(OpenQuantity(t, item), item.quantity);
  }

  lemma {:induction false} FillsIs(t: Table, item: Item)
    requires item.maxQuantity > 0
    ensures FilledTo(t, item) == LowDword(OpenQuantity(t, item) + item.quantity)
    ensures FitsOpenSlot(t, item) <==> FilledTo(t, item) <= item.maxQuantity
    ensures FillsExactly(t, item) <==> RestHeld(t, item) == 0 || OpenQuantity(t, item) == RestHeld(t, item)
                                       || OpenQuantity(t, item) + item.quantity <= item.maxQuantity
  {
  }

  lemma {:induction false} FilledWraps(s: nat, q: Dword)
    ensures LowDword(s + q) == s + q <==> s + q < 0x1_0000_0000
    ensures LowDword(s + q) <= s + q
  {
  }

  /** The database follows every add whose slots suffice, and the table stays valid; the
      item gains what was asked for exactly when the slots are filled exactly. */
  lemma {:induction false} AddInStep(t: Table, db: Db, item: Item) returns (db': Db, gain: int)
    requires Valid(t, db) && Countable(t, item) && Added(t, item).Done? && HasSlots(t, item)
    ensures item.maxQuantity > 0 && InStep(t, db, item.id, gain, Added(t, item).step, db')
    ensures gain == AddGain(t, item)
    ensures gain == item.quantity <==> FillsExactly(t, item)
  {
    hide *;
    PositiveMax(t, item);
    GainWithSlots(t, db, item);
    if RestHeld(t, item) == 0 {
      gain := item.quantity;
      db' := AddWholeInStep(t, db, item);
      FillsWhole(t, item);
    } else if FitsOpenSlot(t, item) {
      gain := FilledTo(t, item) - OpenQuantity(t, item);
      db' := AddFitsInStep(t, db, item);
      FillsMeans(t, db, item);
    } else {
      gain := item.quantity + RestHeld(t, item) - OpenQuantity(t, item);
      db' := AddOverflowInStep(t, db, item);
      FillsMeans(t, db, item);
    }
  }

  lemma {:induction false} FillsWhole(t: Table, item: Item)
    requires item.maxQuantity > 0 && RestHeld(t, item) == 0
    ensures FillsExactly(t, item)
  {
  }

  // ---------- all accepted adds ----------

  /** What an accepted add does to the item's total in memory, worked out before the call. */
  function AddGain(t: Table, item: Item): int
    requires item.maxQuantity > 0
  {
    var id, max := item.id, item.maxQuantity;
    if RestHeld(t, item) == 0 then FillGain(t, id, max, item.quantity)
    else if FilledTo(t, item) <= max then FilledTo(t, item) - OpenQuantity(t, item)
    else match OpenSlot(SlotsOf(t, id), max)
         case None => 0
         case Some(k) => max - OpenQuantity(t, item) + FillGain(Put(t, id, k, max), id, max, Overflow(t, item))
  }

  lemma {:induction false} AddGainIs(t: Table, item: Item)
    requires item.maxQuantity > 0
    ensures var id, max := item.id, item.maxQuantity;
            && (RestHeld(t, item) == 0 ==> AddGain(t, item) == FillGain(t, id, max, item.quantity))
            && (RestHeld(t, item) != 0 && FitsOpenSlot(t, item) ==>
                  AddGain(t, item) == FilledTo(t, item) - OpenQuantity(t, item))
            && (RestHeld(t, item) != 0 && !FitsOpenSlot(t, item) ==>
                  match OpenSlot(SlotsOf(t, id), max)
                  case None => true
                  case Some(k) =>
                    AddGain(t, item)
                    == max - OpenQuantity(t, item) + FillGain(Put(t, id, k, max), id, max, Overflow(t, item)))
  {
  }

  lemma {:induction false} GainWithSlots(t: Table, db: Db, item: Item)
    requires Valid(t, db) && Countable(t, item) && Added(t, item).Done? && HasSlots(t, item)
    ensures item.maxQuantity > 0
    ensures AddGain(t, item) ==
            if RestHeld(t, item) == 0 then item.quantity
            else if FitsOpenSlot(t, item) then FilledTo(t, item) - OpenQuantity(t, item)
            else item.quantity + RestHeld(t, item) - OpenQuantity(t, item)
  {
    hide *;
    PositiveMax(t, item);
    ValidParts(t, db);
    AddGainIs(t, item);
    HasSlotsMeans(t, item);
    if RestHeld(t, item) == 0 {
      FillGainSpare(t, item.id, item.maxQuantity, item.quantity);
    } else if !FitsOpenSlot(t, item) {
      var k := AddOverflows(t, db, item);
      OverflowCount(t, db, item);
      ToppedMeans(t, item, k, Overflow(t, item));
      FillGainSpare(Put(t, item.id, k, item.maxQuantity), item.id, item.maxQuantity, Overflow(t, item));
    }
  }

  /** Filling the open slot, then the loop. */
  lemma {:induction false} ToppedGains(t: Table, db: Db, item: Item, k: SlotNo, count: Dword)
    requires Valid(t, db) && item.maxQuantity > 0 && k in SlotsOf(t, item.id)
    ensures Shaped(t)
    ensures var id, max := item.id, item.maxQuantity;
            Gained(t, Topped(t, item, k, count).table, id,
                   max - SlotsOf(t, id)[k] + FillGain(Put(t, id, k, max), id, max, count))
    ensures count >= Capacity(t, item.maxQuantity) ==>
              var t' := Topped(t, item, k, count).table;
              Full(t') && t'.usable == LowDword(t.usable - SlotsFilled(item.maxQuantity, count))
  {
    hide *;
    var id, max: int, s: int := item.id, item.maxQuantity, SlotsOf(t, item.id)[k];
    ValidParts(t, db);
    var db1 := PutInStep(t, db, id, k, max);
    var t1, u := Put(t, id, k, max), Change(id, k, max);
    ToppedMeans(t, item, k, count);
    InStepParts(t, db, id, max - s, Step(t1, [u]), db1);
    FillingGains(t1, db1, id, max, count);
    GainedTwice(t, t1, Topped(t, item, k, count).table, id, max - s, FillGain(t1, id, max, count));
  }

  /** Every accepted add changes the totals by `AddGain` and nothing else. One without slots
      to spare leaves no slot free and the count of free slots below 0. */
  lemma {:induction false} AddGains(t: Table, db: Db, item: Item)
    requires Valid(t, db) && Countable(t, item) && Added(t, item).Done?
    ensures item.maxQuantity > 0 && Gained(t, Added(t, item).step.table, item.id, AddGain(t, item))
    ensures !HasSlots(t, item) ==>
              var filled := SlotsFilled(item.maxQuantity, if RestHeld(t, item) == 0 then item.quantity else Overflow(t, item));
              Full(Added(t, item).step.table) && Added(t, item).step.table.usable == LowDword(t.usable - filled)
  {
    hide *;
    ValidParts(t, db);
    PositiveMax(t, item);
    AddGainIs(t, item);
    HasSlotsMeans(t, item);
    if RestHeld(t, item) == 0 {
      AddWhole(t, db, item);
      FillingGains(t, db, item.id, item.maxQuantity, item.quantity);
    } else if FitsOpenSlot(t, item) {
      var db' := AddFitsInStep(t, db, item);
      InStepParts(t, db, item.id, FilledTo(t, item) - OpenQuantity(t, item), Added(t, item).step, db');
    } else {
      var k := AddOverflows(t, db, item);
      OverflowCount(t, db, item);
      ToppedGains(t, db, item, k, Overflow(t, item));
    }
  }

  /** What the slot that the loop would overwrite holds, once the open slot is full. */
  function Overwritten(t: Table, item: Item): nat {
    match OpenSlot(SlotsOf(t, item.id), item.maxQuantity)
    case None => HeldAt(SlotsOf(t, item.id), t.next)
    case Some(k) => if k == t.next then item.maxQuantity else HeldAt(SlotsOf(t, item.id), t.next)
  }

  /** When an accepted add moves the total by what was asked for. Without slots to spare, an
      add that needs no open slot loses a whole slot's worth, unless the table was full
      already; one that tops up is exact only if the errors happen to cancel. */
  ghost predicate GainsExactly(t: Table, item: Item)
    requires item.maxQuantity > 0
  {
    var max, q, s := item.maxQuantity, item.quantity, OpenQuantity(t, item);
    if HasSlots(t, item) then FillsExactly(t, item)
    else if RestHeld(t, item) == 0 then t.usable == 0 && HeldAt(SlotsOf(t, item.id), t.next) == 0
    else if t.usable > 0 then Capacity(t, max) + Rest(Overflow(t, item), max) == q + s
    else max + Rest(Overflow(t, item), max) == q + s + Overwritten(t, item)
  }

  /** For every accepted add: exactly when the item gains what was asked for. */
  lemma {:induction false} AddExact(t: Table, db: Db, item: Item)
    requires Valid(t, db) && Countable(t, item) && Added(t, item).Done?
    ensures item.maxQuantity > 0 && Gained(t, Added(t, item).step.table, item.id, AddGain(t, item))
    ensures AddGain(t, item) == item.quantity <==> GainsExactly(t, item)
  {
    hide *;
    PositiveMax(t, item);
    AddGains(t, db, item);
    GainsExactlyMeans(t, item);
    if HasSlots(t, item) {
      var db', gain := AddInStep(t, db, item);
    } else if RestHeld(t, item) == 0 {
      ExactWithoutOpen(t, db, item);
    } else {
      ExactWithOpen(t, db, item);
    }
  }

  lemma {:induction false} GainsExactlyMeans(t: Table, item: Item)
    requires item.maxQuantity > 0
    ensures var max, q, s := item.maxQuantity, item.quantity, OpenQuantity(t, item);
            GainsExactly(t, item) <==>
            if HasSlots(t, item) then FillsExactly(t, item)
            else if RestHeld(t, item) == 0 then t.usable == 0 && HeldAt(SlotsOf(t, item.id), t.next) == 0
            else if t.usable > 0 then Capacity(t, max) + Rest(Overflow(t, item), max) == q + s
            else max + Rest(Overflow(t, item), max) == q + s + Overwritten(t, item)
  {
  }

  lemma {:induction false} FillGainWithout(t: Table, id: Dword, max: Dword, count: Dword)
    requires max > 0 && count >= Capacity(t, max)
    ensures FillGain(t, id, max, count) == if t.usable > 0 then Capacity(t, max) - max + Rest(count, max)
                                           else Rest(count, max) - HeldAt(SlotsOf(t, id), t.next)
  {
  }

  lemma {:induction false} ExactWithoutOpen(t: Table, db: Db, item: Item)
    requires Valid(t, db) && Countable(t, item) && Added(t, item).Done? && RestHeld(t, item) == 0 && !HasSlots(t, item)
    ensures item.maxQuantity > 0
    ensures AddGain(t, item) == item.quantity <==> t.usable == 0 && HeldAt(SlotsOf(t, item.id), t.next) == 0
  {
    hide *;
    PositiveMax(t, item);
    AddGainIs(t, item);
    HasSlotsMeans(t, item);
    AddAccepts(t, db, item);
    RoomForMeans(t, item);
    FillGainWithout(t, item.id, item.maxQuantity, item.quantity);
    WholeSlots(t, item.maxQuantity);
  }

  lemma {:induction false} WholeSlots(t: Table, max: Dword)
    requires max > 0
    ensures Rest(Capacity(t, max), max) == 0
    ensures t.usable == 0 ==> Capacity(t, max) == 0
  {
    Quotient(Capacity(t, max), t.usable, max, 0);
  }

  lemma {:induction false} ExactWithOpen(t: Table, db: Db, item: Item)
    requires Valid(t, db) && Countable(t, item) && Added(t, item).Done? && RestHeld(t, item) != 0 && !HasSlots(t, item)
    ensures item.maxQuantity > 0
    ensures var max, q, s := item.maxQuantity, item.quantity, OpenQuantity(t, item);
            AddGain(t, item) == q <==>
            if t.usable > 0 then Capacity(t, max) + Rest(Overflow(t, item), max) == q + s
            else max + Rest(Overflow(t, item), max) == q + s + Overwritten(t, item)
  {
    hide *;
    PositiveMax(t, item);
    AddGainIs(t, item);
    HasSlotsMeans(t, item);
    var k := AddOverflows(t, db, item);
    OverflowCount(t, db, item);
    ToppedMeans(t, item, k, Overflow(t, item));
    var t1 := Put(t, item.id, k, item.maxQuantity);
    FillGainWithout(t1, item.id, item.maxQuantity, Overflow(t, item));
    OverwrittenIs(t, item, k);
  }

  lemma {:induction false} OverwrittenIs(t: Table, item: Item, k: SlotNo)
    requires OpenSlot(SlotsOf(t, item.id), item.maxQuantity) == Some(k)
    ensures var t1 := Put(t, item.id, k, item.maxQuantity);
            t1.usable == t.usable && HeldAt(SlotsOf(t1, item.id), t1.next) == Overwritten(t, item)
  {
    SlotsAfterPut(t, item.id, k, item.maxQuantity, item.id);
    hide OpenSlot;
  }

  /** Without the slots, the updates reach for a row that is there already, in any
      database that has the table's rows. */
  lemma {:induction false} AddClashes(t: Table, own: Db, db: Db, item: Item)
    requires Valid(t, own) && own.Keys <= db.Keys && Countable(t, item) && Added(t, item).Done? && !HasSlots(t, item)
    ensures Replayed(db, Added(t, item).step.updates) == None
  {
    hide *;
    PositiveMax(t, item);
    HasSlotsMeans(t, item);
    if RestHeld(t, item) == 0 {
      AddWhole(t, own, item);
      InsertedAllClashes(t, own, db, item.id, item.maxQuantity, item.quantity);
    } else {
      var k := AddOverflows(t, own, item);
      OverflowCount(t, own, item);
      ToppedClashes(t, own, db, item, k, Overflow(t, item));
    }
  }

  // ---------- the updates of an add ----------

  lemma {:induction false} OpenSlotAt(m: Slots, max: Dword)
    ensures var keys: seq<SlotNo> := Sorted(m.Keys);
            var i := FirstOpen(m, keys, max);
            OpenSlot(m, max) == if i == |keys| then None else Some(keys[i])
  {
    hide Sorted, FirstOpen;
  }

  lemma {:induction false} KeysAscend(keys: seq<SlotNo>, i: nat, j: nat)
    requires Ascending(keys) && i < j < |keys|
    ensures keys[i] < keys[j]
  {
  }

  /** The open slot is the lowest that does not hold exactly `max`. */
  lemma {:induction false} OpenSlotIsLowest(m: Slots, max: Dword, k: SlotNo)
    requires OpenSlot(m, max) == Some(k)
    ensures k in m && m[k] != max && forall j :: j in m && j < k ==> m[j] == max
  {
    var keys: seq<SlotNo> := Sorted(m.Keys);
    hide *;
    OpenSlotAt(m, max);
    forall j | j in m && j < k ensures m[j] == max {
      InSorted(m.Keys, j);
      FullBelow(m, keys, max, FirstOpen(m, keys, max), j);
    }
  }

  lemma {:induction false} FullBelow(m: Slots, keys: seq<SlotNo>, max: Dword, i: nat, j: SlotNo)
    requires Ascending(keys) && i < |keys| && (forall h :: 0 <= h < |keys| ==> keys[h] in m)
    requires forall h :: 0 <= h < i ==> m[keys[h]] == max
    requires j in keys && j < keys[i]
    ensures j in m && m[j] == max
  {
    var h :| 0 <= h < |keys| && keys[h] == j;
    hide Ascending;
    KeysOrder(keys, h, i);
  }

  lemma {:induction false} KeysOrder(keys: seq<SlotNo>, i: nat, j: nat)
    requires Ascending(keys) && i < |keys| && j < |keys|
    ensures keys[i] < keys[j] <==> i < j
  {
  }

  lemma {:induction false} FilledInNumbers(t: Table, item: Item)
    requires item.maxQuantity > 0
    ensures FilledTo(t, item) == (OpenQuantity(t, item) + item.quantity) % 0x1_0000_0000
    ensures Overflow(t, item) == (item.quantity - (item.maxQuantity - Sum(SlotsOf(t, item.id)) % item.maxQuantity)) % 0x1_0000_0000
  {
    hide OpenQuantity, Sum, SlotsOf;
  }

  /** What an accepted add sends: the loop's updates alone when the total fills whole slots;
      otherwise first a change of the lowest slot that is not full, to the 32-bit sum or, when
      that exceeds the maximum, to the maximum and then the loop's updates for what the
      remainder of the total says is over. */
  lemma {:induction false} AddUpdates(t: Table, db: Db, item: Item) returns (k: SlotNo)
    requires Valid(t, db) && Countable(t, item) && Added(t, item).Done?
    ensures Shaped(t) && item.maxQuantity > 0
    ensures var id, max, q, m := item.id, item.maxQuantity, item.quantity, SlotsOf(t, item.id);
            var updates := Added(t, item).step.updates;
            if Sum(m) % max == 0 then updates == InsertedAll(t, id, max, q).updates
            else
              && k in m && m[k] != max && (forall j :: j in m && j < k ==> m[j] == max)
              && var filled: Dword, over: Dword :=
                   (m[k] + q) % 0x1_0000_0000, (q - (max - Sum(m) % max)) % 0x1_0000_0000;
                 if filled <= max then updates == [Change(id, k, filled)]
                 else updates == [Change(id, k, max)] + InsertedAll(Put(t, id, k, max), id, max, over).updates
  {
    hide *;
    ValidParts(t, db);
    PositiveMax(t, item);
    RoomIs(t, item);
    FilledInNumbers(t, item);
    k := 0;
    if RestHeld(t, item) == 0 {
      AddWhole(t, db, item);
    } else {
      k := OpenSlotCase(t, db, item);
      OpenSlotIsLowest(SlotsOf(t, item.id), item.maxQuantity, k);
      ToppedUpIs(t, item, k);
      FitsMeaning(t, item);
      ToppedMeans(t, item, k, Overflow(t, item));
    }
  }

  lemma {:induction false} FitsMeaning(t: Table, item: Item)
    ensures FitsOpenSlot(t, item) <==> FilledTo(t, item) <= item.maxQuantity
  {
    hide FilledTo;
  }

  // ---------- which slots an add takes ----------

  /** The number of new slots an add with slots to spare fills. */
  function NewSlots(t: Table, item: Item): nat
    requires item.maxQuantity > 0
  {
    if RestHeld(t, item) == 0 then SlotsFilled(item.maxQuantity, item.quantity)
    else if FilledTo(t, item) <= item.maxQuantity then 0
    else SlotsFilled(item.maxQuantity, Overflow(t, item))
  }

  /** The slots an add names: the lowest free ones, and perhaps one that the item has. */
  lemma {:induction false} AddNames(t: Table, db: Db, item: Item, s: SlotNo)
    requires Valid(t, db) && Countable(t, item) && Added(t, item).Done? && HasSlots(t, item)
    ensures Shaped(t) && item.maxQuantity > 0
    ensures AmongLowest(t, NewSlots(t, item), s) ==> s in Named(Added(t, item).step.updates)
    ensures s in Named(Added(t, item).step.updates) ==> AmongLowest(t, NewSlots(t, item), s) || s in SlotsOf(t, item.id)
  {
    hide *;
    ValidParts(t, db);
    PositiveMax(t, item);
    HasSlotsMeans(t, item);
    NewSlotsIs(t, item);
    if RestHeld(t, item) == 0 {
      AddWhole(t, db, item);
      FillingSlots(t, db, item.id, item.maxQuantity, item.quantity);
    } else if FitsOpenSlot(t, item) {
      var k := AddFits(t, db, item);
      NamedOne(Change(item.id, k, FilledTo(t, item)));
      NoneAmongZero(t, s);
    } else {
      var k := AddOverflows(t, db, item);
      OverflowCount(t, db, item);
      ToppedNames(t, db, item, k, Overflow(t, item), s);
    }
  }

  lemma {:induction false} NewSlotsIs(t: Table, item: Item)
    requires item.maxQuantity > 0
    ensures NewSlots(t, item) == if RestHeld(t, item) == 0 then SlotsFilled(item.maxQuantity, item.quantity)
                                 else if FitsOpenSlot(t, item) then 0
                                 else SlotsFilled(item.maxQuantity, Overflow(t, item))
  {
  }

  lemma {:induction false} ToppedNames(t: Table, db: Db, item: Item, k: SlotNo, count: Dword, s: SlotNo)
    requires Valid(t, db) && item.maxQuantity > 0 && k in SlotsOf(t, item.id)
    requires count < Capacity(t, item.maxQuantity)
    ensures Shaped(t)
    ensures s in Named(Topped(t, item, k, count).updates) <==>
            s == k || AmongLowest(t, SlotsFilled(item.maxQuantity, count), s)
  {
    hide *;
    var id, max: int := item.id, item.maxQuantity;
    ValidParts(t, db);
    var db1 := PutInStep(t, db, id, k, max);
    var t1, u := Put(t, id, k, max), Change(id, k, max);
    ToppedMeans(t, item, k, count);
    StillValid(t, db, id, max - SlotsOf(t, id)[k], Step(t1, [u]), db1);
    FillingSlots(t1, db1, id, max, count);
    NamedCons(u, InsertedAll(t1, id, max, count).updates);
    LowestAfterPut(t, id, k, max, SlotsFilled(max, count), s);
  }

  lemma {:induction false} LowestAfterPut(t: Table, id: Dword, k: SlotNo, quantity: Dword, n: nat, s: SlotNo)
    requires Shaped(t)
    ensures Shaped(Put(t, id, k, quantity))
    ensures AmongLowest(Put(t, id, k, quantity), n, s) <==> AmongLowest(t, n, s)
  {
  }
}
