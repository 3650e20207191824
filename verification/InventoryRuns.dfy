/** One inventory table over its calls: loading rows, what one call does, and where the
    code does not keep its books. */
module InventoryRuns {
  import opened Words
  import opened OrderedKeys
  import opened Inventory
  import opened InventoryBooks
  import opened InventoryFilling
  import opened InventoryAdding
  import opened InventoryRemoving

  lemma {:induction false} EmptyIsValid()
    ensures Valid(EMPTY, map[])
  {
    assert forall id :: SlotsOf(EMPTY, id) == map[];
    hide SlotsOf;
  }

  // ---------- loading ----------

  lemma {:induction false} LoadedBooks(t: Table, db: Db, id: Dword, quantity: Dword, s: SlotNo)
    requires Booked(t, db) && NextIsLowest(t) && 1 <= s <= SLOTS && s !in db
    ensures Booked(Loaded(t, id, quantity, s), db[s := Row(id, quantity)])
  {
    FreeMeansUsable(t, db, s);
    LoadedFields(t, id, quantity, s);
    hide Loaded, NextIsLowest;
    TookBooks(t, Loaded(t, id, quantity, s), db, Row(id, quantity), s);
  }

  lemma {:induction false} LoadedFields(t: Table, id: Dword, quantity: Dword, s: SlotNo)
    requires Shaped(t) && 1 <= s <= SLOTS
    ensures var t' := Loaded(t, id, quantity, s);
            && Shaped(t') && t'.available == t.available[s := false] && t'.usable == LowDword(t.usable - 1)
            && (t.next >= 1 ==> t'.next >= 1)
  {
    hide NextFree, Put;
  }

  lemma {:induction false} LoadedNext(t: Table, db: Db, id: Dword, quantity: Dword, s: SlotNo)
    requires Booked(t, db) && NextIsLowest(t) && 1 <= s <= SLOTS && s !in db
    ensures Shaped(t) && NextIsLowest(Loaded(t, id, quantity, s))
  {
    FreeMeansUsable(t, db, s);
    LoadedBooks(t, db, id, quantity, s);
    var t', db' := Loaded(t, id, quantity, s), db[s := Row(id, quantity)];
    if t.next == s && t'.usable > 0 {
      var free := SomeFree(t', db');
      assert t.available[free] && free > s;
    }
  }

  /** A row loaded into a free slot. */
  lemma {:induction false} LoadedKeeps(t: Table, db: Db, id: Dword, quantity: Dword, s: SlotNo)
    requires Valid(t, db) && 1 <= s <= SLOTS && s !in db
    ensures Shaped(t) && Valid(Loaded(t, id, quantity, s), db[s := Row(id, quantity)])
  {
    hide *;
    ValidParts(t, db);
    LoadedBooks(t, db, id, quantity, s);
    LoadedNext(t, db, id, quantity, s);
    PutMirrors(t, db, id, s, quantity);
    LoadedSlots(t, id, quantity, s);
    SameMirror(Put(t, id, s, quantity), Loaded(t, id, quantity, s), db[s := Row(id, quantity)]);
    MakeValid(Loaded(t, id, quantity, s), db[s := Row(id, quantity)]);
  }

  /** A row loaded into the last free slot: no later slot is free, and `next` stays there. */
  lemma {:induction false} LoadedLast(t: Table, db: Db, id: Dword, quantity: Dword, s: SlotNo)
    requires Valid(t, db) && t.usable == 1 && 1 <= s <= SLOTS && s !in db
    ensures Shaped(t) && Loaded(t, id, quantity, s).next == s && Loaded(t, id, quantity, s).usable == 0
  {
    ValidParts(t, db);
    var db' := db[s := Row(id, quantity)];
    LastFree(t, db, s);
    LoadedBooks(t, db, id, quantity, s);
    var later := NextFree(t.available[s := false], s + 1);
    hide Mirrors, NextIsLowest, Valid;
    if later <= SLOTS { FullDb(db', later); }
  }

  lemma {:induction false} LastFree(t: Table, db: Db, s: SlotNo)
    requires Booked(t, db) && NextIsLowest(t) && t.usable == 1 && 1 <= s <= SLOTS && s !in db
    ensures t.next == s
  {
    FullDb(db[t.next := Row(0, 0)], s);
  }

  lemma {:induction false} LoadedSlots(t: Table, id: Dword, quantity: Dword, s: SlotNo)
    requires Shaped(t) && s <= SLOTS
    ensures Loaded(t, id, quantity, s).slots == Put(t, id, s, quantity).slots
  {
  }

  lemma {:induction false} MakeValid(t: Table, db: Db)
    requires Mirrors(t, db) && Booked(t, db) && NextIsLowest(t)
    ensures Valid(t, db)
  {
  }

  lemma {:induction false} SameSlots(t1: Table, t2: Table, db: Db)
    requires Mirrors(t1, db) && Mirrors(t2, db)
    ensures t1.slots == t2.slots
  {
    forall id ensures SlotsOf(t1, id) == SlotsOf(t2, id) {
      HeldAlike(t1, t2, db, id);
      HeldAlike(t2, t1, db, id);
    }
    forall id ensures id in t1.slots <==> id in t2.slots {
      HasSome(t1, db, id);
      HasSome(t2, db, id);
    }
    assert t1.slots.Keys == t2.slots.Keys;
    forall id | id in t1.slots ensures t1.slots[id] == t2.slots[id] {
      assert SlotsOf(t1, id) == SlotsOf(t2, id);
    }
  }

  lemma {:induction false} HeldAlike(t1: Table, t2: Table, db: Db, id: Dword)
    requires Mirrors(t1, db) && Mirrors(t2, db)
    ensures forall s :: s in SlotsOf(t1, id) ==> s in SlotsOf(t2, id) && SlotsOf(t2, id)[s] == SlotsOf(t1, id)[s]
  {
    forall s | s in SlotsOf(t1, id)
      ensures s in SlotsOf(t2, id) && SlotsOf(t2, id)[s] == SlotsOf(t1, id)[s]
    {
      assert db[s] == Row(id, SlotsOf(t1, id)[s]);
      assert s in SlotsOf(t2, db[s].id);
    }
  }

  lemma {:induction false} HasSome(t: Table, db: Db, id: Dword)
    requires Mirrors(t, db)
    ensures id in t.slots <==> SlotsOf(t, id) != map[]
  {
  }

  /** A valid table is determined by its database rows, except for the next slot of a
      table that is full. */
  lemma {:induction false} ValidIsUnique(t1: Table, t2: Table, db: Db)
    requires Valid(t1, db) && Valid(t2, db)
    ensures t1.(next := t2.next) == t2
    ensures |db| < SLOTS ==> t1 == t2
  {
    SameSlots(t1, t2, db);
    forall s: SlotNo | 0 <= s <= SLOTS ensures t1.available[s] == t2.available[s] {}
    assert t1.available == t2.available;
  }

  // ---------- one call ----------

  datatype Call = Add(item: Item) | Remove(item: Item)

  /** What one call does to the table; a refused call does nothing. */
  ghost function Performed(t: Table, call: Call): Step {
    var outcome :=
      match call
      case Add(item) => if Shaped(t) && item.maxQuantity > 0 then Added(t, item) else Undefined
      case Remove(item) => if Shaped(t) && InRange(SlotsOf(t, item.id)) then Removed(t, item) else Undefined;
    if outcome.Done? then outcome.step else Step(t, [])
  }

  /** Whether a call is accepted, as its caller can tell beforehand. */
  ghost predicate Accepts(t: Table, call: Call) {
    match call
    case Add(item) => item.maxQuantity > 0 && item.quantity <= RoomFor(t, item)
    case Remove(item) => item.quantity <= Sum(SlotsOf(t, item.id))
  }

  /** The quantity of `id` a call moves in or out. */
  ghost function Moved(t: Table, call: Call, id: Dword): int {
    if call.item.id != id || !Accepts(t, call) then 0
    else if call.Add? then call.item.quantity
    else 0 - call.item.quantity
  }

  /** A call the table handles faithfully, if it accepts it: an add that has slots to spare
      and fills them exactly, or a removal after which the next slot is the lowest free one. */
  ghost predicate Safe(t: Table, call: Call) {
    Accepts(t, call) ==>
      match call
      case Add(item) => item.maxQuantity > 0 && HasSlots(t, item) && FillsExactly(t, item)
      case Remove(item) => KeepsNext(t, item.id, item.quantity)
  }

  lemma {:induction false} CallMeans(t: Table, call: Call)
    ensures match call
            case Add(item) =>
              && (item.maxQuantity > 0 ==> (Accepts(t, call) <==> item.quantity <= RoomFor(t, item)))
              && (Safe(t, call) && Accepts(t, call) ==>
                    item.maxQuantity > 0 && HasSlots(t, item) && FillsExactly(t, item))
            case Remove(item) =>
              && (Accepts(t, call) <==> item.quantity <= Sum(SlotsOf(t, item.id)))
              && (Safe(t, call) && Accepts(t, call) ==> KeepsNext(t, item.id, item.quantity))
  {
    hide RoomFor, Sum, SlotsOf, HasSlots, FillsExactly, KeepsNext;
  }

  lemma {:induction false} MovedIs(t: Table, call: Call, id: Dword)
    ensures Moved(t, call, id) == if call.item.id != id || !Accepts(t, call) then 0
                                  else if call.Add? then call.item.quantity else 0 - call.item.quantity
  {
    hide Accepts;
  }

  lemma {:induction false} PerformedIs(t: Table, call: Call)
    requires Shaped(t) && call.item.maxQuantity > 0 && InRange(SlotsOf(t, call.item.id))
    ensures var outcome := if call.Add? then Added(t, call.item) else Removed(t, call.item);
            Performed(t, call) == if outcome.Done? then outcome.step else Step(t, [])
  {
    hide Added, Removed, SlotsOf;
  }

  /** The source accepts exactly the calls that `Accepts` says. */
  lemma {:induction false} AcceptedCall(t: Table, db: Db, call: Call)
    requires Valid(t, db) && Countable(t, call.item)
    ensures Shaped(t) && call.item.maxQuantity > 0 && InRange(SlotsOf(t, call.item.id))
    ensures var outcome := if call.Add? then Added(t, call.item) else Removed(t, call.item);
            && (outcome.Done? <==> Accepts(t, call))
            && Performed(t, call) == if Accepts(t, call) then outcome.step else Step(t, [])
  {
    hide *;
    PositiveMax(t, call.item);
    ValidParts(t, db);
    HeldInRange(t, db, call.item.id);
    CallMeans(t, call);
    PerformedIs(t, call);
    if call.Add? {
      AddAccepts(t, db, call.item);
    } else {
      RemoveAccepts(t, db, call.item);
      CountableSum(t, call.item);
      LowDwordIs(Sum(SlotsOf(t, call.item.id)));
    }
  }

  lemma {:induction false} CountableSum(t: Table, item: Item)
    requires Countable(t, item)
    ensures Sum(SlotsOf(t, item.id)) < 0x1_0000_0000
    ensures Sum(SlotsOf(t, item.id)) / 0x1_0000_0000 == 0
  {
  }

  /** One safe call: the table stays valid, its rows in the database follow, and every
      item's total moves by what was accepted. */
  lemma {:induction false} SafeCall(t: Table, db: Db, call: Call) returns (db': Db)
    requires Valid(t, db) && Countable(t, call.item) && Safe(t, call)
    ensures Replayed(db, Performed(t, call).updates) == Some(db') && Valid(Performed(t, call).table, db')
    ensures Gained(t, Performed(t, call).table, call.item.id, Moved(t, call, call.item.id))
  {
    hide *;
    AcceptedCall(t, db, call);
    CallMeans(t, call);
    MovedIs(t, call, call.item.id);
    if !Accepts(t, call) {
      db' := db;
      ReplayNothing(db);
      GainedNothing(t, call.item.id);
    } else if call.Add? {
      var gain;
      db', gain := AddInStep(t, db, call.item);
      InStepParts(t, db, call.item.id, gain, Added(t, call.item).step, db');
    } else {
      db' := RemoveInStep(t, db, call.item);
      RemovedParts(t, db, call.item.id, call.item.quantity, Removed(t, call.item).step, db');
    }
  }

  /** In memory every accepted call does to its item's slots what its updates say, in order,
      and nothing to other items' slots; whether or not the database can follow. */
  lemma {:induction false} MemoryFollowsUpdates(t: Table, db: Db, call: Call)
    requires Valid(t, db) && Countable(t, call.item)
    ensures var s := Performed(t, call);
            && SlotsOf(s.table, call.item.id) == Stored(SlotsOf(t, call.item.id), s.updates)
            && forall other :: other != call.item.id ==> SlotsOf(s.table, other) == SlotsOf(t, other)
  {
    hide *;
    var id := call.item.id;
    AcceptedCall(t, db, call);
    if !Accepts(t, call) {
      StoredNothing(SlotsOf(t, id));
    } else if call.Add? {
      AddStored(t, db, call.item);
      AddGains(t, db, call.item);
      GainedOthers(t, Performed(t, call).table, id, AddGain(t, call.item));
    } else {
      var m := SlotsOf(t, id);
      RemovedBranches(t, call.item);
      DrainedStored(t, m, id, Sorted(m.Keys), call.item.quantity);
      SlotsOfWith(Drained(t, m, id, Sorted(m.Keys), call.item.quantity).table, id,
                  Drained(t, m, id, Sorted(m.Keys), call.item.quantity).left, id);
      var db' := RemoveInStep(t, db, call.item);
      RemovedParts(t, db, id, call.item.quantity, Removed(t, call.item).step, db');
      GainedOthers(t, Performed(t, call).table, id, 0 - call.item.quantity);
    }
  }

  lemma {:induction false} StoredNothing(m: Slots)
    ensures Stored(m, []) == m
  {
  }

  lemma {:induction false} GainedOthers(t: Table, t': Table, id: Dword, count: int)
    requires Gained(t, t', id, count)
    ensures forall other :: other != id ==> SlotsOf(t', other) == SlotsOf(t, other)
  {
    hide SlotsOf;
  }

  lemma {:induction false} AddStored(t: Table, db: Db, item: Item)
    requires Valid(t, db) && Countable(t, item) && Added(t, item).Done?
    ensures var s := Added(t, item).step; SlotsOf(s.table, item.id) == Stored(SlotsOf(t, item.id), s.updates)
  {
    hide *;
    var id, max, m := item.id, item.maxQuantity, SlotsOf(t, item.id);
    ValidParts(t, db);
    PositiveMax(t, item);
    if RestHeld(t, item) == 0 {
      AddWhole(t, db, item);
      FillingStored(t, id, max, item.quantity);
    } else if FitsOpenSlot(t, item) {
      var k := AddFits(t, db, item);
      StoredOne(m, Change(id, k, FilledTo(t, item)));
      SlotsAfterPut(t, id, k, FilledTo(t, item), id);
    } else {
      var k := AddOverflows(t, db, item);
      ToppedMeans(t, item, k, Overflow(t, item));
      SlotsAfterPut(t, id, k, max, id);
      FillingStored(Put(t, id, k, max), id, max, Overflow(t, item));
      StoredCons(m, Change(id, k, max), InsertedAll(Put(t, id, k, max), id, max, Overflow(t, item)).updates);
    }
  }

  lemma {:induction false} ReplayNothing(db: Db)
    ensures Replayed(db, []) == Some(db)
  {
  }

  lemma {:induction false} GainedNothing(t: Table, id: Dword)
    ensures Gained(t, t, id, 0)
  {
  }

  lemma {:induction false} GainedEach(t: Table, t': Table, id: Dword, count: int)
    requires Gained(t, t', id, count)
    ensures forall other ::
              Sum(SlotsOf(t', other)) == Sum(SlotsOf(t, other)) + if other == id then count else 0
  {
  }

  lemma {:induction false} RemovedParts(t: Table, db: Db, id: Dword, count: nat, s: Step, db': Db)
    requires RemovedInStep(t, db, id, count, s, db')
    ensures Replayed(db, s.updates) == Some(db') && Gained(t, s.table, id, 0 - count)
    ensures Shaped(s.table) && Consistent(s.table, db')
    ensures Valid(s.table, db') <==> KeepsNext(t, id, count)
  {
    hide Replayed, Gained, KeepsNext, NextIsLowest, Mirrors, Booked;
  }

  // ---------- where the code does not keep its books ----------

  /** With `next` on a taken slot, the next inserted row meets one that is there. In memory
      the slot then serves two items, which no database rows can mirror, or the quantity it
      held is lost. */
  lemma {:induction false} TakenNextClashes(t: Table, db: Db, id: Dword, quantity: Dword)
    requires Consistent(t, db) && !t.available[t.next]
    ensures Replayed(db, [Insert(id, t.next, quantity)]) == None
    ensures t.next in db
    ensures db[t.next].id != id ==> forall db' :: !Mirrors(Inserted(t, id, quantity), db')
    ensures db[t.next].id == id ==> Gained(t, Inserted(t, id, quantity), id, quantity - db[t.next].quantity)
  {
    assert 1 <= t.next <= SLOTS && t.next in db;
    var t', holder := Inserted(t, id, quantity), db[t.next].id;
    hide Replayed, Booked, Inserted, SlotsOf, Sum;
    RefusedInsert(db, id, t.next, quantity, [Insert(id, t.next, quantity)]);
    RowHeld(t, db, t.next);
    InsertedHolds(t, id, quantity, holder);
    if holder != id {
      forall db' ensures !Mirrors(t', db') {
        if Mirrors(t', db') {
          HeldRow(t', db', id, t.next);
          HeldRow(t', db', holder, t.next);
        }
      }
    } else {
      PutChanges(t, t', id, t.next, quantity);
    }
  }

  /** Take the last free slot, then give back a slot above it: the next row inserted goes
      to the slot just taken. */
  lemma {:induction false} FullThenFreedClashes(t: Table, db: Db, row: Row, k: SlotNo, later: Row)
    requires Valid(t, db) && t.usable == 1 && k in db && k > t.next
    ensures Shaped(t) && k <= SLOTS
    ensures var full := Inserted(t, row.id, row.quantity);
            var db' := db[t.next := row] - {k};
            && Freed(full, k).next == t.next
            && Replayed(db', [Insert(later.id, Freed(full, k).next, later.quantity)]) == None
  {
    TakenLast(t, db);
  }

  /** Filling a table to its last slot exactly is accepted, and then refused by the database.
      In memory a whole slot's worth is lost and the count of free slots wraps. */
  lemma {:induction false} ExactFillClashes(t: Table, db: Db, item: Item)
    requires Valid(t, db) && Countable(t, item) && RestHeld(t, item) == 0
    requires t.usable > 0 && item.quantity == Capacity(t, item.maxQuantity)
    ensures Shaped(t) && Added(t, item).Done? && Replayed(db, Added(t, item).step.updates) == None
    ensures Gained(t, Added(t, item).step.table, item.id, item.quantity - item.maxQuantity)
    ensures Added(t, item).step.table.usable == 0xFFFF_FFFF
  {
    hide *;
    PositiveMax(t, item);
    AddAccepts(t, db, item);
    RoomForMeans(t, item);
    HasSlotsMeans(t, item);
    AddClashes(t, db, db, item);
    AddGains(t, db, item);
    AddGainIs(t, item);
    FillGainWithout(t, item.id, item.maxQuantity, item.quantity);
    WholeSlots(t, item.maxQuantity);
    SlotsOfCapacity(t, item.maxQuantity);
  }

  lemma {:induction false} SlotsOfCapacity(t: Table, max: Dword)
    requires max > 0
    ensures LowDword(t.usable - SlotsFilled(max, Capacity(t, max))) == 0xFFFF_FFFF
  {
    Quotient(Capacity(t, max), t.usable, max, 0);
  }

  lemma {:induction false} OpenSlotIs(m: Slots, max: Dword, s: SlotNo)
    requires s in m && m[s] != max && forall k :: k in m && k < s ==> m[k] == max
    ensures OpenSlot(m, max) == Some(s)
  {
    var keys: seq<SlotNo> := Sorted(m.Keys);
    hide *;
    InSorted(m.Keys, s);
    var j :| 0 <= j < |keys| && keys[j] == s;
    forall h | 0 <= h < j ensures m[keys[h]] == max { KeysAscend(keys, h, j); }
    FirstOpenAt(m, keys, max, j);
    OpenSlotAt(m, max);
  }

  lemma {:induction false} FirstOpenAt(m: Slots, keys: seq<SlotNo>, max: Dword, j: nat)
    requires forall i :: 0 <= i < |keys| ==> keys[i] in m
    requires j < |keys| && m[keys[j]] != max && forall h :: 0 <= h < j ==> m[keys[h]] == max
    ensures FirstOpen(m, keys, max) == j
  {
    hide FirstOpen;
  }

  /** A valid table after one inserted slot, with the item's slots written out. */
  lemma {:induction false} OneMoreSlot(t: Table, db: Db, id: Dword, quantity: Dword) returns (t': Table, db': Db)
    requires Valid(t, db) && t.usable > 1
    ensures Shaped(t) && t' == Inserted(t, id, quantity) && Valid(t', db') && t'.usable == t.usable - 1
    ensures SlotsOf(t', id) == SlotsOf(t, id)[t.next := quantity]
    ensures Sum(SlotsOf(t', id)) == Sum(SlotsOf(t, id)) + quantity
  {
    hide *;
    ValidParts(t, db);
    t', db' := Inserted(t, id, quantity), db[t.next := Row(id, quantity)];
    InsertedKeeps(t, db, id, quantity);
    InsertedSum(t, db, id, quantity, id);
    InsertedSlots(t, id, quantity);
  }

  lemma {:induction false} InsertedSlots(t: Table, id: Dword, quantity: Dword)
    requires Shaped(t)
    ensures SlotsOf(Inserted(t, id, quantity), id) == SlotsOf(t, id)[t.next := quantity]
  {
  }

  lemma {:induction false} WholeAdd(t: Table, db: Db, quantity: Dword, n: nat)
    requires Valid(t, db) && t.usable >= 100 && quantity <= 100
    requires Sum(SlotsOf(t, 1)) == n * 10 < 1000
    ensures Shaped(t) && Performed(t, Add(Item(1, 10, quantity))) == InsertedAll(t, 1, 10, quantity)
  {
    var item := Item(1, 10, quantity);
    Remainder(Sum(SlotsOf(t, 1)), n, 10, 0);
    assert Countable(t, item) && RestHeld(t, item) == 0 && Capacity(t, 10) >= 1000;
    hide *;
    RoomForMeans(t, item);
    CallMeans(t, Add(item));
    AcceptedCall(t, db, Add(item));
    AddWhole(t, db, item);
  }

  lemma {:induction false} OverflowAdd(t: Table, db: Db, m: Slots, a: SlotNo, b: SlotNo)
    requires Valid(t, db) && t.usable >= 100 && SlotsOf(t, 1) == m && Sum(m) == 15
    requires a < b && m == map[a := 10, b := 0, b + 1 := 5]
    ensures Shaped(t) && Sum(SlotsOf(Performed(t, Add(Item(1, 10, 12))).table, 1)) == 32
  {
    var item := Item(1, 10, 12);
    OverflowState(t, m, a, b);
    hide *;
    PositiveMax(t, item);
    RoomForMeans(t, item);
    CallMeans(t, Add(item));
    AcceptedCall(t, db, Add(item));
    HasSlotsMeans(t, item);
    var db', gain := AddInStep(t, db, item);
    GainWithSlots(t, db, item);
    InStepParts(t, db, 1, gain, Added(t, item).step, db');
    GainedEach(t, Added(t, item).step.table, 1, gain);
  }

  lemma {:induction false} OverflowState(t: Table, m: Slots, a: SlotNo, b: SlotNo)
    requires t.usable >= 100 && SlotsOf(t, 1) == m && Sum(m) == 15
    requires a < b && m == map[a := 10, b := 0, b + 1 := 5]
    ensures var item := Item(1, 10, 12);
            && Countable(t, item) && RestHeld(t, item) == 5 && OpenQuantity(t, item) == 0
            && FilledTo(t, item) == 12 && !FitsOpenSlot(t, item) && Capacity(t, 10) >= 1000
  {
    hide Sum, SlotsOf, OpenSlot, Rest;
    Remainder(15, 1, 10, 5);
    FirstOpenIs(m, a, b);
  }

  lemma {:induction false} FirstOpenIs(m: Slots, a: SlotNo, b: SlotNo)
    requires a < b && m == map[a := 10, b := 0, b + 1 := 5]
    ensures OpenSlot(m, 10) == Some(b) && m[b] == 0
  {
    hide OpenSlot;
    OpenSlotIs(m, 10, b);
  }

  /** Three adds, of 10, 5 and 12 pieces at 10 to a slot: the first leaves an empty slot
      behind; the third fills that one but counts from the other. 27 pieces were put in
      and 32 are held. */
  lemma {:induction false} ThreeAddsMakeFive()
    ensures var t1 := Performed(EMPTY, Add(Item(1, 10, 10))).table;
            var t2 := Performed(t1, Add(Item(1, 10, 5))).table;
            Sum(SlotsOf(Performed(t2, Add(Item(1, 10, 12))).table, 1)) == 32
  {
    hide *;
    var e := EMPTY;
    EmptyIsValid();
    EmptyHolds();
    var t0, db0 := OneMoreSlot(e, map[], 1, 10);
    var t1, db1 := OneMoreSlot(t0, db0, 1, 0);
    var t2, db2 := OneMoreSlot(t1, db1, 1, 5);
    WholeAdd(e, map[], 10, 0);
    InsertedAllMore(e, 1, 10, 10);
    InsertedAllLast(t0, 1, 10, 0);
    WholeAdd(t1, db1, 5, 1);
    InsertedAllLast(t1, 1, 10, 5);
    NextInOrder();
    OverflowAdd(t2, db2, SlotsOf(t2, 1), 1, 2);
  }

  lemma {:induction false} EmptyHolds()
    ensures SlotsOf(EMPTY, 1) == map[] && Sum(SlotsOf(EMPTY, 1)) == 0 && EMPTY.usable == 128
  {
  }

  lemma {:induction false} NextInOrder()
    ensures var t0 := Inserted(EMPTY, 1, 10);
            EMPTY.next == 1 && t0.next == 2 && Inserted(t0, 1, 0).next == 3
  {
  }
}
