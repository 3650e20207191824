/** Removing from an item table: the exact amount leaves, the database follows, and what
    becomes of the next slot to use. */
module InventoryRemoving {
  import opened Words
  import opened OrderedKeys
  import opened Inventory
  import opened InventoryBooks
  import opened InventoryFilling
  import opened InventoryAdding

  /** The slots an update list gives back. */
  function FreedSlots(updates: seq<Update>): set<SlotNo> {
    set i | 0 <= i < |updates| && updates[i].Delete? :: updates[i].seqNo
  }

  lemma {:induction false} SlotsOfWith(t: Table, id: Dword, m: Slots, other: Dword)
    ensures SlotsOf(WithSlots(t, id, m), other) == if other == id then m else SlotsOf(t, other)
  {
  }

  /** Giving back one slot of the item whose slots are `m`. */
  lemma {:induction false} FreedMirrors(t: Table, t': Table, db: Db, id: Dword, m: Slots, k: SlotNo)
    requires Mirrors(WithSlots(t, id, m), db) && k in m && t'.slots == t.slots
    ensures k in db && Mirrors(WithSlots(t', id, Without(m, k)), db - {k})
  {
    hide *;
    var w, w', db' := WithSlots(t, id, m), WithSlots(t', id, Without(m, k)), db - {k};
    SlotsOfWith(t, id, m, id);
    HeldInDb(w, db, id, k);
    forall other, s | s in SlotsOf(w', other)
      ensures s in db' && db'[s] == Row(other, SlotsOf(w', other)[s])
    {
      FreedHeld(t, t', db, id, m, k, other, s);
    }
    forall s | s in db' ensures s in SlotsOf(w', db'[s].id) {
      FreedRow(t, t', db, id, m, k, s);
    }
    forall other | other in w'.slots ensures w'.slots[other] != map[] {
      FreedNonempty(t, t', db, id, m, k, other);
    }
    MakeMirrors(w', db');
  }

  lemma {:induction false} MakeMirrors(t: Table, db: Db)
    requires forall id, s :: s in SlotsOf(t, id) ==> s in db && db[s] == Row(id, SlotsOf(t, id)[s])
    requires forall s :: s in db ==> s in SlotsOf(t, db[s].id)
    requires forall id :: id in t.slots ==> t.slots[id] != map[]
    ensures Mirrors(t, db)
  {
    hide SlotsOf;
  }

  /** What a mirroring database says of one held slot, and of one row. */
  lemma {:induction false} HeldRow(t: Table, db: Db, id: Dword, s: SlotNo)
    requires Mirrors(t, db) && s in SlotsOf(t, id)
    ensures s in db && db[s] == Row(id, SlotsOf(t, id)[s])
  {
    hide SlotsOf;
  }

  lemma {:induction false} RowHeld(t: Table, db: Db, s: SlotNo)
    requires Mirrors(t, db) && s in db
    ensures s in SlotsOf(t, db[s].id) && db[s] == Row(db[s].id, SlotsOf(t, db[s].id)[s])
  {
    hide SlotsOf;
  }

  lemma {:induction false} FreedHeld(t: Table, t': Table, db: Db, id: Dword, m: Slots, k: SlotNo, other: Dword,
                                     s: SlotNo)
    requires Mirrors(WithSlots(t, id, m), db) && k in m && t'.slots == t.slots
    requires s in SlotsOf(WithSlots(t', id, Without(m, k)), other)
    ensures s in db - {k} && (db - {k})[s] == Row(other, SlotsOf(WithSlots(t', id, Without(m, k)), other)[s])
  {
    SlotsOfWith(t, id, m, other);
    SlotsOfWith(t', id, Without(m, k), other);
    SlotsOfWith(t, id, m, id);
    hide Mirrors, SlotsOf, WithSlots;
    HeldRow(WithSlots(t, id, m), db, other, s) by { SameHeld(t, t', other); }
    HeldRow(WithSlots(t, id, m), db, id, k);
    assert s != k;
    assert (db - {k})[s] == db[s];
    SameHeld(t, t', other);
  }

  lemma {:induction false} SameHeld(t: Table, t': Table, id: Dword)
    requires t'.slots == t.slots
    ensures SlotsOf(t', id) == SlotsOf(t, id)
  {
  }

  lemma {:induction false} FreedRow(t: Table, t': Table, db: Db, id: Dword, m: Slots, k: SlotNo, s: SlotNo)
    requires Mirrors(WithSlots(t, id, m), db) && t'.slots == t.slots && s in db - {k}
    ensures s in SlotsOf(WithSlots(t', id, Without(m, k)), (db - {k})[s].id)
  {
    assert (db - {k})[s] == db[s];
    SlotsOfWith(t, id, m, db[s].id);
    SlotsOfWith(t', id, Without(m, k), db[s].id);
    SameHeld(t, t', db[s].id);
    hide Mirrors, SlotsOf, WithSlots;
    RowHeld(WithSlots(t, id, m), db, s);
  }

  lemma {:induction false} FreedNonempty(t: Table, t': Table, db: Db, id: Dword, m: Slots, k: SlotNo, other: Dword)
    requires Mirrors(WithSlots(t, id, m), db) && t'.slots == t.slots && other in WithSlots(t', id, Without(m, k)).slots
    ensures WithSlots(t', id, Without(m, k)).slots[other] != map[]
  {
    hide SlotsOf;
    if other != id { assert other in WithSlots(t, id, m).slots; }
  }

  lemma {:induction false} FreedFields(t: Table, k: SlotNo)
    requires Shaped(t) && 1 <= k <= SLOTS && t.next >= 1
    ensures var t' := Freed(t, k);
            t'.available == t.available[k := true] && t'.usable == LowDword(t.usable + 1) && t'.next >= 1
  {
  }

  lemma {:induction false} FreedBooks(t: Table, db: Db, k: SlotNo)
    requires Booked(t, db) && k in db
    ensures Shaped(t) && k <= SLOTS && Booked(Freed(t, k), db - {k}) && Freed(t, k).usable == t.usable + 1
  {
    var db' := db - {k};
    assert db == db'[k := db[k]];
    assert |db| == |db'| + 1;
    FreedFields(t, k);
    hide Freed;
    forall s: SlotNo | 1 <= s <= SLOTS ensures Freed(t, k).available[s] <==> s !in db' {}
  }

  /** The bookkeeping after giving back the slots in `freed`. */
  ghost predicate BooksFreed(t: Table, t': Table, freed: set<SlotNo>)
    requires Shaped(t) && Shaped(t')
  {
    && (forall s :: 0 <= s <= SLOTS ==> (t'.available[s] <==> t.available[s] || s in freed))
    && t'.next <= t.next && (t'.next == t.next || t'.next in freed)
    && forall s :: s in freed ==> t'.next <= s <= SLOTS
  }

  lemma {:induction false} BooksFreedOne(t: Table, k: SlotNo)
    requires Shaped(t) && k <= SLOTS
    ensures BooksFreed(t, Freed(t, k), {k})
  {
  }

  lemma {:induction false} BooksFreedThen(t: Table, t1: Table, t2: Table, k: SlotNo, freed: set<SlotNo>)
    requires Shaped(t) && Shaped(t1) && Shaped(t2)
    requires BooksFreed(t, t1, {k}) && BooksFreed(t1, t2, freed)
    ensures BooksFreed(t, t2, {k} + freed)
  {
  }

  lemma {:induction false} FreedSlotsCons(u: Update, updates: seq<Update>)
    ensures FreedSlots([u] + updates) == (if u.Delete? then {u.seqNo} else {}) + FreedSlots(updates)
  {
    var all := [u] + updates;
    forall s | s in FreedSlots(updates) ensures s in FreedSlots(all) {
      var i :| 0 <= i < |updates| && updates[i].Delete? && updates[i].seqNo == s;
      assert all[i + 1] == updates[i];
    }
    if u.Delete? { assert all[0] == u; }
  }

  /** After giving slots back, `next` is the lowest free slot exactly when the table was
      not full, or nothing was freed, or something at or below `next` was. */
  lemma {:induction false} NextAfterFreeing(t: Table, t': Table, db: Db, db': Db, freed: set<SlotNo>)
    requires Booked(t, db) && NextIsLowest(t) && Booked(t', db') && BooksFreed(t, t', freed)
    ensures NextIsLowest(t') <==> t.usable > 0 || freed == {} || exists s :: s in freed && s <= t.next
  {
    NoneBelowNext(t, db);
    if freed != {} {
      var s :| s in freed;
      FreeMeansUsable(t', db', s);
    }
    if t.usable == 0 {
      FullClashes(t, db);
      assert !t.available[t.next];
      if freed == {} { NothingFree(t, t', db, db'); }
    }
  }

  /** No slot below `next` is free, full table or not. */
  lemma {:induction false} NoneBelowNext(t: Table, db: Db)
    requires Booked(t, db) && NextIsLowest(t)
    ensures forall s :: 1 <= s < t.next ==> !t.available[s]
  {
    if t.usable == 0 {
      forall s: SlotNo | 1 <= s < t.next ensures !t.available[s] { FullDb(db, s); }
    }
  }

  lemma {:induction false} FreeMeansUsable(t: Table, db: Db, s: SlotNo)
    requires Booked(t, db) && 1 <= s <= SLOTS && t.available[s]
    ensures t.usable > 0
  {
    if t.usable == 0 { FullDb(db, s); }
  }

  lemma {:induction false} NothingFree(t: Table, t': Table, db: Db, db': Db)
    requires Booked(t, db) && t.usable == 0 && Booked(t', db')
    requires forall s :: 0 <= s <= SLOTS ==> (t'.available[s] <==> t.available[s])
    ensures t'.usable == 0
  {
    if t'.usable > 0 {
      var s := SomeFree(t', db');
      FreeMeansUsable(t, db, s);
    }
  }

  /** The database mirrors the table in which the item's slots are `m`. */
  ghost predicate Draining(t: Table, db: Db, id: Dword, m: Slots) {
    Mirrors(WithSlots(t, id, m), db) && Booked(t, db)
  }

  ghost predicate DrainInStep(t: Table, db: Db, id: Dword, m: Slots, count: nat, d: Drain, db': Db)
    requires Shaped(t) && Shaped(d.table)
  {
    && Replayed(db, d.updates) == Some(db') && Draining(d.table, db', id, d.left)
    && Sum(d.left) + count == Sum(m) && d.table.slots == t.slots
    && BooksFreed(t, d.table, FreedSlots(d.updates))
  }

  ghost predicate Covers(keys: seq<SlotNo>, m: Slots) {
    KeysOf(keys, m) && forall k :: k in m ==> k in keys
  }

  /** Emptying the last slot. */
  lemma {:induction false} DrainSlot(t: Table, db: Db, id: Dword, m: Slots, k: SlotNo)
    requires Draining(t, db, id, m) && k in m
    ensures Shaped(t) && k <= SLOTS && k in db && Draining(Freed(t, k), db - {k}, id, Without(m, k))
    ensures Replayed(db, [Delete(id, k)]) == Some(db - {k}) && Sum(Without(m, k)) + m[k] == Sum(m)
    ensures BooksFreed(t, Freed(t, k), {k})
  {
    hide *;
    DrainingParts(t, db, id, m);
    FreedMirrors(t, t, db, id, m, k);
    FreedBooks(t, db, k);
    FreedMirrors(t, Freed(t, k), db, id, m, k) by { FreedSameSlots(t, k); }
    MakeDraining(Freed(t, k), db - {k}, id, Without(m, k));
    ReplayOne(db, Delete(id, k));
    ExecutedDelete(db, id, k);
    SumWithout(m, k);
    BooksFreedOne(t, k);
  }

  lemma {:induction false} DrainingParts(t: Table, db: Db, id: Dword, m: Slots)
    requires Draining(t, db, id, m)
    ensures Shaped(t) && Mirrors(WithSlots(t, id, m), db) && Booked(t, db)
  {
  }

  lemma {:induction false} MakeDraining(t: Table, db: Db, id: Dword, m: Slots)
    requires Mirrors(WithSlots(t, id, m), db) && Booked(t, db)
    ensures Draining(t, db, id, m)
  {
  }

  lemma {:induction false} FreedSameSlots(t: Table, k: SlotNo)
    requires Shaped(t) && k <= SLOTS
    ensures Freed(t, k).slots == t.slots
  {
  }

  lemma {:induction false} ExecutedDelete(db: Db, id: Dword, k: SlotNo)
    requires k in db
    ensures Executed(db, Delete(id, k)) == Some(db - {k})
  {
  }

  /** Taking part of a slot. */
  lemma {:induction false} DrainPart(t: Table, db: Db, id: Dword, m: Slots, k: SlotNo, quantity: Dword)
    requires Draining(t, db, id, m) && k in m
    ensures k in db && Draining(t, db[k := Row(id, quantity)], id, m[k := quantity])
    ensures Replayed(db, [Change(id, k, quantity)]) == Some(db[k := Row(id, quantity)])
    ensures Sum(m[k := quantity]) == Sum(m) + quantity - m[k]
  {
    hide *;
    DrainingParts(t, db, id, m);
    var w := WithSlots(t, id, m);
    SlotsOfWith(t, id, m, id);
    HeldInDb(w, db, id, k);
    PutMirrors(w, db, id, k, quantity);
    PutWith(t, id, m, k, quantity);
    HeldStaysBooked(t, db, k, Row(id, quantity));
    MakeDraining(t, db[k := Row(id, quantity)], id, m[k := quantity]);
    ReplayChange(db, id, k, quantity);
    SumPut(m, k, quantity);
  }

  lemma {:induction false} PutWith(t: Table, id: Dword, m: Slots, k: SlotNo, quantity: Dword)
    requires k in m
    ensures Put(WithSlots(t, id, m), id, k, quantity) == WithSlots(t, id, m[k := quantity])
  {
  }

  lemma {:induction false} LastKey(keys: seq<SlotNo>, m: Slots)
    requires Covers(keys, m) && keys != []
    ensures var k := keys[|keys| - 1]; k in m && Covers(keys[..|keys| - 1], Without(m, k))
  {
  }

  /** A removal that ends with one slot. */
  lemma {:induction false} DrainLast(t: Table, db: Db, id: Dword, m: Slots, k: SlotNo, count: Dword)
    returns (db': Db, d: Drain)
    requires Draining(t, db, id, m) && k in m && count <= m[k]
    ensures Shaped(t) && k <= SLOTS && Shaped(d.table) && DrainInStep(t, db, id, m, count, d, db')
    ensures d == if count == m[k] then Drain(Freed(t, k), Without(m, k), [Delete(id, k)])
                 else Drain(t, m[k := m[k] - count], [Change(id, k, m[k] - count)])
  {
    hide *;
    DrainSlot(t, db, id, m, k);
    if count == m[k] {
      db', d := db - {k}, Drain(Freed(t, k), Without(m, k), [Delete(id, k)]);
      FreedByOne(Delete(id, k));
      FreedSameSlots(t, k);
    } else {
      DrainPart(t, db, id, m, k, m[k] - count);
      db', d := db[k := Row(id, m[k] - count)], Drain(t, m[k := m[k] - count], [Change(id, k, m[k] - count)]);
      FreedByOne(Change(id, k, m[k] - count));
      BooksFreedNone(t);
    }
    MakeDrainInStep(t, db, id, m, count, d, db');
  }

  lemma {:induction false} BooksFreedNone(t: Table)
    requires Shaped(t)
    ensures BooksFreed(t, t, {})
  {
  }

  lemma {:induction false} MakeDrainInStep(t: Table, db: Db, id: Dword, m: Slots, count: nat, d: Drain, db': Db)
    requires Shaped(t) && Shaped(d.table) && Replayed(db, d.updates) == Some(db') && Draining(d.table, db', id, d.left)
    requires Sum(d.left) + count == Sum(m) && d.table.slots == t.slots
    requires BooksFreed(t, d.table, FreedSlots(d.updates))
    ensures DrainInStep(t, db, id, m, count, d, db')
  {
  }

  lemma {:induction false} FreedByOne(u: Update)
    ensures FreedSlots([u]) == if u.Delete? then {u.seqNo} else {}
  {
    if u.Delete? { assert [u][0] == u; }
  }

  lemma {:induction false} DrainedNothing(t: Table, db: Db, id: Dword, m: Slots, count: Dword)
    requires Draining(t, db, id, m) && Covers([], m) && count <= Sum(m)
    ensures Shaped(t) && DrainInStep(t, db, id, m, count, Drain(t, m, []), db)
  {
  }

  /** The turns of the removing loop. */
  lemma {:induction false} DrainedTurn(t: Table, m: Slots, id: Dword, keys: seq<SlotNo>, count: Dword)
    requires Shaped(t) && KeysOf(keys, m)
    ensures keys == [] ==> Drained(t, m, id, keys, count) == Drain(t, m, [])
    ensures keys != [] ==>
              var k := keys[|keys| - 1];
              && k in m && k <= SLOTS && KeysOf(keys[..|keys| - 1], Without(m, k))
              && Drained(t, m, id, keys, count) ==
                 if count == m[k] then Drain(Freed(t, k), Without(m, k), [Delete(id, k)])
                 else if count < m[k] then Drain(t, m[k := m[k] - count], [Change(id, k, m[k] - count)])
                 else
                   var d := Drained(Freed(t, k), Without(m, k), id, keys[..|keys| - 1], count - m[k]);
                   Drain(d.table, d.left, [Delete(id, k)] + d.updates)
  {
  }

  lemma {:induction false} CoversKeys(keys: seq<SlotNo>, m: Slots)
    requires Covers(keys, m)
    ensures KeysOf(keys, m)
  {
  }

  /** The removing loop: the database follows, and exactly `count` leaves the item. */
  lemma {:induction false} DrainedInStep(t: Table, db: Db, id: Dword, m: Slots, keys: seq<SlotNo>, count: Dword)
    returns (db': Db)
    requires Draining(t, db, id, m) && Covers(keys, m) && count <= Sum(m)
    ensures Shaped(t) && KeysOf(keys, m) && DrainInStep(t, db, id, m, count, Drained(t, m, id, keys, count), db')
    decreases |keys|
  {
    hide *;
    DrainingParts(t, db, id, m);
    CoversKeys(keys, m);
    DrainedTurn(t, m, id, keys, count);
    if keys == [] {
      DrainedNothing(t, db, id, m, count);
      db' := db;
    } else {
      var k, others := keys[|keys| - 1], keys[..|keys| - 1];
      if count <= m[k] {
        var d;
        db', d := DrainLast(t, db, id, m, k, count);
      } else {
        LastKey(keys, m);
        DrainSlot(t, db, id, m, k);
        FreedSameSlots(t, k);
        var t1, m1 := Freed(t, k), Without(m, k);
        db' := DrainedInStep(t1, db - {k}, id, m1, others, count - m[k]);
        DrainThen(t, db, id, m, k, m[k], count - m[k], t1, Drained(t1, m1, id, others, count - m[k]), db');
      }
    }
  }

  lemma {:induction false} DrainThen(t: Table, db: Db, id: Dword, m: Slots, k: SlotNo, a: nat, b: nat,
                                     t1: Table, d: Drain, db': Db)
    requires Shaped(t) && Shaped(t1) && Shaped(d.table) && k in m && t1.slots == t.slots
    requires Replayed(db, [Delete(id, k)]) == Some(db - {k}) && Sum(Without(m, k)) + a == Sum(m)
    requires BooksFreed(t, t1, {k}) && DrainInStep(t1, db - {k}, id, Without(m, k), b, d, db')
    ensures DrainInStep(t, db, id, m, a + b, Drain(d.table, d.left, [Delete(id, k)] + d.updates), db')
  {
    hide Mirrors, Booked, Sum, WithSlots, FreedSlots, BooksFreed;
    ReplayOne(db, Delete(id, k));
    ReplayCons(db, Delete(id, k), d.updates);
    FreedSlotsCons(Delete(id, k), d.updates);
    BooksFreedThen(t, t1, d.table, k, FreedSlots(d.updates));
  }

  lemma {:induction false} SortedCovers(m: Slots)
    requires InRange(m)
    ensures Covers(Sorted(m.Keys), m)
  {
    forall k | k in m ensures k in Sorted(m.Keys) { InSorted(m.Keys, k); }
  }

  lemma {:induction false} HeldInRange(t: Table, db: Db, id: Dword)
    requires Mirrors(t, db) && Booked(t, db)
    ensures Shaped(t) && InRange(SlotsOf(t, id))
  {
    forall k | k in SlotsOf(t, id) ensures k <= SLOTS {
      HeldInDb(t, db, id, k);
      assert 1 <= k <= SLOTS;
    }
  }

  lemma {:induction false} WithOwnSlots(t: Table, db: Db, id: Dword)
    requires Mirrors(t, db)
    ensures WithSlots(t, id, SlotsOf(t, id)) == t
  {
  }

  // ---------- which slots a removal empties ----------

  /** The slots of an item above slot `s`. */
  function Above(m: Slots, s: SlotNo): Slots {
    map k | k in m && k > s :: m[k]
  }

  /** Taking `count` from the last slot on reaches slot `s` and empties it. */
  ghost predicate Empties(m: Slots, count: nat, s: SlotNo) {
    && s in m && Sum(Above(m, s)) + m[s] <= count
    && (Above(m, s) == map[] || Sum(Above(m, s)) < count)
  }

  ghost function Emptied(m: Slots, count: nat): set<SlotNo> {
    set s | s in m && Empties(m, count, s)
  }

  lemma {:induction false} AboveLast(m: Slots, k: SlotNo, s: SlotNo)
    requires k in m && (forall j :: j in m ==> j <= k)
    ensures Above(m, k) == map[]
    ensures s != k && s in m ==>
              && Above(m, s) != map[] && Above(Without(m, k), s) == Without(Above(m, s), k)
              && Sum(Above(m, s)) == m[k] + Sum(Above(Without(m, k), s))
  {
    if s != k && s in m {
      assert k in Above(m, s);
      SumWithout(Above(m, s), k);
    }
  }

  lemma {:induction false} EmptiesLast(m: Slots, k: SlotNo, count: nat, s: SlotNo)
    requires k in m && (forall j :: j in m ==> j <= k)
    ensures Empties(m, count, k) <==> m[k] <= count
    ensures s != k && count <= m[k] ==> !Empties(m, count, s)
    ensures s != k && count > m[k] ==> (Empties(m, count, s) <==> Empties(Without(m, k), count - m[k], s))
  {
    AboveLast(m, k, s);
    EmptySum();
    hide Sum, Above;
  }

  lemma {:induction false} LastIsGreatest(keys: seq<SlotNo>, m: Slots)
    requires Covers(keys, m) && keys != []
    ensures var k := keys[|keys| - 1]; k in m && forall j :: j in m ==> j <= k
  {
  }

  /** The loop frees exactly the slots that the quantity before the call says. */
  lemma {:induction false} DrainedFrees(t: Table, m: Slots, id: Dword, keys: seq<SlotNo>, count: Dword, s: SlotNo)
    requires Shaped(t) && Covers(keys, m)
    ensures KeysOf(keys, m) && (s in FreedSlots(Drained(t, m, id, keys, count).updates) <==> Empties(m, count, s))
    decreases |keys|
  {
    hide *;
    CoversKeys(keys, m);
    DrainedTurn(t, m, id, keys, count);
    if keys == [] {
      NothingEmptied(m, count, s);
    } else {
      var k, others := keys[|keys| - 1], keys[..|keys| - 1];
      LastIsGreatest(keys, m);
      LastKey(keys, m);
      EmptiesLast(m, k, count, s);
      FreedByOne(Delete(id, k));
      if count > m[k] {
        FreedShaped(t, k);
        var d := Drained(Freed(t, k), Without(m, k), id, others, count - m[k]);
        DrainedFrees(Freed(t, k), Without(m, k), id, others, count - m[k], s);
        FreedSlotsCons(Delete(id, k), d.updates);
        if s == k { NotEmptiedTwice(m, k, count - m[k]); }
      } else if count < m[k] {
        FreedByOne(Change(id, k, m[k] - count));
      }
    }
  }

  lemma {:induction false} FreedShaped(t: Table, k: SlotNo)
    requires Shaped(t) && k <= SLOTS
    ensures Shaped(Freed(t, k))
  {
  }

  lemma {:induction false} NothingEmptied(m: Slots, count: nat, s: SlotNo)
    requires Covers([], m)
    ensures !Empties(m, count, s) && FreedSlots([]) == {}
  {
  }

  lemma {:induction false} NotEmptiedTwice(m: Slots, k: SlotNo, count: nat)
    ensures !Empties(Without(m, k), count, k)
  {
  }

  /** Taking `count` from the last slot on gets as far as slot `s`. */
  ghost predicate Reaches(m: Slots, count: nat, s: SlotNo) {
    s in m && (Above(m, s) == map[] || Sum(Above(m, s)) < count)
  }

  /** The update for a slot that is reached: emptied, or left with what is not taken. */
  ghost predicate TakesFrom(u: Update, id: Dword, m: Slots, count: nat, s: SlotNo)
    requires s in m
  {
    u.id == id && u.seqNo == s &&
    if Empties(m, count, s) then u.Delete? else u.Change? && u.quantity == m[s] + Sum(Above(m, s)) - count
  }

  lemma {:induction false} ReachesLast(m: Slots, k: SlotNo, count: nat, s: SlotNo)
    requires k in m && (forall j :: j in m ==> j <= k)
    ensures Reaches(m, count, k)
    ensures s != k && count <= m[k] ==> !Reaches(m, count, s)
    ensures s != k && count > m[k] ==> (Reaches(m, count, s) <==> Reaches(Without(m, k), count - m[k], s))
  {
    AboveLast(m, k, s);
    EmptySum();
    hide Sum, Above;
  }

  lemma {:induction false} TakesFromLast(u: Update, id: Dword, m: Slots, count: nat, k: SlotNo)
    requires k in m && (forall j :: j in m ==> j <= k)
    ensures TakesFrom(u, id, m, count, k) <==>
            u.id == id && u.seqNo == k && if m[k] <= count then u.Delete? else u.Change? && u.quantity == m[k] - count
  {
    AboveLast(m, k, k);
    EmptiesLast(m, k, count, k);
    EmptySum();
    hide Sum, Above, Empties;
  }

  lemma {:induction false} TakesFromBelow(u: Update, id: Dword, m: Slots, count: nat, k: SlotNo, s: SlotNo)
    requires k in m && (forall j :: j in m ==> j <= k) && s in m && s != k && count > m[k]
    ensures s in Without(m, k)
    ensures TakesFrom(u, id, m, count, s) <==> TakesFrom(u, id, Without(m, k), count - m[k], s)
  {
    AboveLast(m, k, s);
    EmptiesLast(m, k, count, s);
    hide Sum, Above, Empties;
  }

  /** The loop's updates one by one, from the last slot down: they go as far as the quantity
      reaches, and each takes what is left to take. */
  lemma {:induction false} DrainedUpdates(t: Table, m: Slots, id: Dword, keys: seq<SlotNo>, count: Dword, i: nat)
    requires Shaped(t) && Covers(keys, m) && i < |keys|
    ensures KeysOf(keys, m)
    ensures var updates, s := Drained(t, m, id, keys, count).updates, keys[|keys| - 1 - i];
            && s in m
            && (i < |updates| <==> Reaches(m, count, s))
            && (i < |updates| ==> TakesFrom(updates[i], id, m, count, s))
    decreases |keys|
  {
    hide *;
    CoversKeys(keys, m);
    DrainedTurn(t, m, id, keys, count);
    LastIsGreatest(keys, m);
    LastKey(keys, m);
    var k, others, s := keys[|keys| - 1], keys[..|keys| - 1], keys[|keys| - 1 - i];
    KeyHeld(keys, m, |keys| - 1 - i);
    ReachesLast(m, k, count, s);
    TakesFromLast(Drained(t, m, id, keys, count).updates[0], id, m, count, k);
    if i > 0 {
      KeysApart(keys, m, |keys| - 1 - i, |keys| - 1);
      if count > m[k] {
        FreedShaped(t, k);
        DrainedUpdates(Freed(t, k), Without(m, k), id, others, count - m[k], i - 1);
        assert others[|others| - 1 - (i - 1)] == s;
        var rest := Drained(Freed(t, k), Without(m, k), id, others, count - m[k]).updates;
        if i <= |rest| { TakesFromBelow(rest[i - 1], id, m, count, k, s); }
      }
    }
  }

  lemma {:induction false} KeyHeld(keys: seq<SlotNo>, m: Slots, i: nat)
    requires KeysOf(keys, m) && i < |keys|
    ensures keys[i] in m
  {
  }

  lemma {:induction false} KeysApart(keys: seq<SlotNo>, m: Slots, i: nat, j: nat)
    requires KeysOf(keys, m) && i < j < |keys|
    ensures keys[i] != keys[j]
  {
  }

  /** In memory the loop does what its updates say. */
  lemma {:induction false} DrainedStored(t: Table, m: Slots, id: Dword, keys: seq<SlotNo>, count: Dword)
    requires Shaped(t) && KeysOf(keys, m)
    ensures Drained(t, m, id, keys, count).left == Stored(m, Drained(t, m, id, keys, count).updates)
    decreases |keys|
  {
    hide *;
    DrainedTurn(t, m, id, keys, count);
    if keys == [] {
      StoredCons(m, Delete(id, 0), []);
    } else {
      var k := keys[|keys| - 1];
      if count > m[k] {
        FreedShaped(t, k);
        DrainedStored(Freed(t, k), Without(m, k), id, keys[..|keys| - 1], count - m[k]);
        StoredCons(m, Delete(id, k), Drained(Freed(t, k), Without(m, k), id, keys[..|keys| - 1], count - m[k]).updates);
      } else if count == m[k] {
        StoredOne(m, Delete(id, k));
      } else {
        StoredOne(m, Change(id, k, m[k] - count));
      }
    }
  }

  lemma {:induction false} EmptiedIs(t: Table, m: Slots, id: Dword, count: Dword)
    requires Shaped(t) && InRange(m)
    ensures KeysOf(Sorted(m.Keys), m) && FreedSlots(Drained(t, m, id, Sorted(m.Keys), count).updates) == Emptied(m, count)
  {
    hide *;
    SortedCovers(m);
    CoversKeys(Sorted(m.Keys), m);
    forall s: SlotNo
      ensures s in FreedSlots(Drained(t, m, id, Sorted(m.Keys), count).updates) <==> s in Emptied(m, count)
    {
      DrainedFrees(t, m, id, Sorted(m.Keys), count, s);
      InEmptied(m, count, s);
    }
  }

  lemma {:induction false} InEmptied(m: Slots, count: nat, s: SlotNo)
    ensures s in Emptied(m, count) <==> Empties(m, count, s)
  {
  }

  // ---------- removing ----------

  /** Whether the next slot to use will be the lowest free one: always in a table that is
      not full; in a full one, if nothing is emptied, or something at or below `next`. */
  ghost predicate KeepsNext(t: Table, id: Dword, count: nat) {
    var emptied := Emptied(SlotsOf(t, id), count);
    t.usable > 0 || emptied == {} || exists k :: k in emptied && k <= t.next
  }

  /** What a removal of `count` must come to. */
  ghost predicate RemovedInStep(t: Table, db: Db, id: Dword, count: nat, s: Step, db': Db) {
    && Shaped(s.table) && Replayed(db, s.updates) == Some(db')
    && Consistent(s.table, db') && Gained(t, s.table, id, 0 - count)
    && (NextIsLowest(s.table) <==> KeepsNext(t, id, count))
  }

  lemma {:induction false} SumBound(m: Slots, max: nat)
    requires forall k :: k in m ==> m[k] <= max
    ensures Sum(m) <= |m| * max
    decreases |m|
  {
    if m == map[] {
      EmptySum();
    } else {
      var k := Least(m.Keys);
      hide Sum;
      SumWithout(m, k);
      WithoutSize(m, k);
      SumBound(Without(m, k), max);
      MulStep(|m| - 1, max);
    }
  }

  lemma {:induction false} WithoutSize(m: Slots, k: SlotNo)
    requires k in m
    ensures |Without(m, k)| == |m| - 1
  {
    assert Without(m, k).Keys == m.Keys - {k};
  }

  /** Slots that hold at most `max` each, in a valid table. */
  lemma {:induction false} StackBound(t: Table, db: Db, id: Dword, max: Dword)
    requires Valid(t, db) && forall k :: k in SlotsOf(t, id) ==> SlotsOf(t, id)[k] <= max
    ensures Sum(SlotsOf(t, id)) <= SLOTS * max
  {
    var m := SlotsOf(t, id);
    forall k | k in m ensures 1 <= k <= SLOTS { HeldInDb(t, db, id, k); }
    hide Valid, SlotsOf, Mirrors, Booked, NextIsLowest, Sum;
    SumBound(m, max);
    RangeBound(m.Keys, SLOTS);
    assert |m| == |m.Keys|;
    MulBound(|m|, SLOTS, max);
  }

  lemma {:induction false} MulBound(a: nat, b: nat, max: nat)
    requires a <= b
    ensures a * max <= b * max
  {
  }

  /** `removeItem` never gives out more than is held. It gives out anything up to that while
      no slot holds more than its maximum; in general whole multiples of 2^32 do not count. */
  lemma {:induction false} RemoveAccepts(t: Table, db: Db, item: Item)
    requires Valid(t, db)
    ensures Shaped(t) && InRange(SlotsOf(t, item.id)) && Removed(t, item) != Undefined
    ensures var m := SlotsOf(t, item.id);
            && (Removed(t, item).Done? ==> item.quantity <= Sum(m))
            && ((forall k :: k in m ==> m[k] <= item.maxQuantity) && SLOTS * item.maxQuantity < 0x1_0000_0000 ==>
                  (Removed(t, item).Done? <==> item.quantity <= Sum(m)))
            && (Removed(t, item).Done? <==> item.quantity <= Sum(m) - 0x1_0000_0000 * (Sum(m) / 0x1_0000_0000))
  {
    hide *;
    var m := SlotsOf(t, item.id);
    ValidParts(t, db);
    HeldInRange(t, db, item.id);
    RemovedBranches(t, item);
    LowDwordIs(Sum(m));
    if (forall k :: k in m ==> m[k] <= item.maxQuantity) && SLOTS * item.maxQuantity < 0x1_0000_0000 {
      StackBound(t, db, item.id, item.maxQuantity);
    }
  }

  lemma {:induction false} LowDwordIs(x: nat)
    ensures LowDword(x) == x - 0x1_0000_0000 * (x / 0x1_0000_0000)
    ensures x < 0x1_0000_0000 ==> LowDword(x) == x
  {
  }

  /** It takes exactly what was asked for, from this item only, and the database follows. */
  lemma {:induction false} RemoveInStep(t: Table, db: Db, item: Item) returns (db': Db)
    requires Valid(t, db) && Shaped(t) && InRange(SlotsOf(t, item.id)) && Removed(t, item).Done?
    ensures RemovedInStep(t, db, item.id, item.quantity, Removed(t, item).step, db')
  {
    hide *;
    var id, m := item.id, SlotsOf(t, item.id);
    ValidParts(t, db);
    RemovedBranches(t, item);
    SortedCovers(m);
    WithOwnSlots(t, db, id);
    MakeDraining(t, db, id, m);
    db' := DrainedInStep(t, db, id, m, Sorted(m.Keys), item.quantity);
    EmptiedIs(t, m, id, item.quantity);
    DrainedTable(t, db, id, m, item.quantity, Drained(t, m, id, Sorted(m.Keys), item.quantity), db');
  }

  lemma {:induction false} RemovedBranches(t: Table, item: Item)
    requires Shaped(t) && InRange(SlotsOf(t, item.id))
    ensures var m := SlotsOf(t, item.id);
            && KeysOf(Sorted(m.Keys), m)
            && var d := Drained(t, m, item.id, Sorted(m.Keys), item.quantity);
               if LowDword(Sum(m)) >= item.quantity then
                 item.quantity <= Sum(m) && Removed(t, item) == Done(Step(WithSlots(d.table, item.id, d.left), d.updates))
               else Removed(t, item) == Rejected
  {
  }

  lemma {:induction false} DrainedTable(t: Table, db: Db, id: Dword, m: Slots, count: nat, d: Drain, db': Db)
    requires Booked(t, db) && NextIsLowest(t) && Shaped(d.table) && m == SlotsOf(t, id)
    requires DrainInStep(t, db, id, m, count, d, db') && FreedSlots(d.updates) == Emptied(m, count)
    ensures RemovedInStep(t, db, id, count, Step(WithSlots(d.table, id, d.left), d.updates), db')
  {
    hide *;
    var t' := WithSlots(d.table, id, d.left);
    DrainParts(t, db, id, m, count, d, db');
    WithSlotsBooks(t, d.table, id, d.left, db', FreedSlots(d.updates));
    DrainGains(t, d.table, id, d.left, count);
    NextAfterFreeing(t, t', db, db', FreedSlots(d.updates));
    MakeRemoved(t, db, id, count, Step(t', d.updates), db');
  }

  lemma {:induction false} DrainParts(t: Table, db: Db, id: Dword, m: Slots, count: nat, d: Drain, db': Db)
    requires Booked(t, db) && Shaped(d.table) && DrainInStep(t, db, id, m, count, d, db')
    ensures Shaped(t) && Replayed(db, d.updates) == Some(db')
    ensures Mirrors(WithSlots(d.table, id, d.left), db') && Booked(d.table, db')
    ensures Sum(d.left) + count == Sum(m) && d.table.slots == t.slots && BooksFreed(t, d.table, FreedSlots(d.updates))
  {
  }

  lemma {:induction false} WithSlotsBooks(t: Table, t1: Table, id: Dword, m: Slots, db: Db, freed: set<SlotNo>)
    requires Shaped(t) && Booked(t1, db) && BooksFreed(t, t1, freed)
    ensures Shaped(WithSlots(t1, id, m)) && Booked(WithSlots(t1, id, m), db) && BooksFreed(t, WithSlots(t1, id, m), freed)
  {
  }

  lemma {:induction false} DrainGains(t: Table, t1: Table, id: Dword, left: Slots, count: nat)
    requires t1.slots == t.slots && Sum(left) + count == Sum(SlotsOf(t, id))
    ensures Gained(t, WithSlots(t1, id, left), id, 0 - count)
  {
  }

  lemma {:induction false} MakeRemoved(t: Table, db: Db, id: Dword, count: nat, s: Step, db': Db)
    requires Shaped(s.table) && Replayed(db, s.updates) == Some(db') && Gained(t, s.table, id, 0 - count)
    requires Mirrors(s.table, db') && Booked(s.table, db')
    requires var emptied := Emptied(SlotsOf(t, id), count);
             NextIsLowest(s.table) <==> t.usable > 0 || emptied == {} || exists k :: k in emptied && k <= t.next
    ensures RemovedInStep(t, db, id, count, s, db')
  {
    hide Mirrors, Booked, NextIsLowest, Gained, Replayed, Emptied, SlotsOf;
  }
}
