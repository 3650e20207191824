/** The books of an item table: its slot numbers, its totals and the database rows it
    mirrors, and what taking and filling slots keeps of them. */
module InventoryBooks {
  import opened Words
  import opened OrderedKeys
  import opened Inventory

  // ---------- quantities ----------

  lemma {:induction false} EmptySum()
    ensures Sum(map[]) == 0
  {
  }

  lemma {:induction false} SumWithout(m: Slots, k: SlotNo)
    requires k in m
    ensures Sum(m) == m[k] + Sum(Without(m, k))
    decreases |m|
  {
    var first := Least(m.Keys);
    if k != first {
      SumWithout(Without(m, first), k);
      var rest := Without(m, k);
      assert first in rest;
      LeastIsUnique(rest.Keys, first);
      assert Without(Without(m, first), k) == Without(rest, first);
    }
  }

  lemma {:induction false} LeastIsUnique(ids: set<int>, k: int)
    requires IsLeast(ids, k)
    ensures Least(ids) == k
  {
  }

  /** Setting one slot changes the sum by the difference. */
  lemma {:induction false} SumPut(m: Slots, k: SlotNo, quantity: Dword)
    ensures Sum(m[k := quantity]) == Sum(m) + quantity - (if k in m then m[k] else 0)
  {
    SumWithout(m[k := quantity], k);
    if k in m {
      SumWithout(m, k);
      assert Without(m[k := quantity], k) == Without(m, k);
    } else {
      assert Without(m[k := quantity], k) == m;
    }
  }

  // ---------- the database ----------

  datatype Row = Row(id: Dword, quantity: Dword)

  /** The rows of one user, by slot number. */
  type Db = map<SlotNo, Row>

  /** The effect of one update; None when an insert meets a taken slot number, or a
      change or delete finds no row. */
  function Executed(db: Db, u: Update): Option<Db> {
    match u
    case Insert(id, s, q) => if s in db then None else Some(db[s := Row(id, q)])
    case Change(id, s, q) => if s in db then Some(db[s := Row(id, q)]) else None
    case Delete(id, s) => if s in db then Some(db - {s}) else None
  }

  function Replayed(db: Db, updates: seq<Update>): Option<Db>
    decreases |updates|
  {
    if updates == [] then Some(db)
    else
      match Executed(db, updates[0])
      case None => None
      case Some(db') => Replayed(db', updates[1..])
  }

  /** The slots of one item after the updates, each overwriting what was there. */
  function Stored(m: Slots, updates: seq<Update>): Slots
    decreases |updates|
  {
    if updates == [] then m
    else
      var m' :=
        match updates[0]
        case Insert(_, s, q) => m[s := q]
        case Change(_, s, q) => m[s := q]
        case Delete(_, s) => Without(m, s);
      Stored(m', updates[1..])
  }

  lemma {:induction false} StoredCons(m: Slots, u: Update, updates: seq<Update>)
    ensures Stored(m, [u] + updates)
         == Stored(if u.Delete? then Without(m, u.seqNo) else m[u.seqNo := u.quantity], updates)
    ensures Stored(m, []) == m
  {
    assert ([u] + updates)[1..] == updates;
  }

  lemma {:induction false} StoredOne(m: Slots, u: Update)
    ensures Stored(m, [u]) == if u.Delete? then Without(m, u.seqNo) else m[u.seqNo := u.quantity]
  {
    assert [u][1..] == [];
  }

  // ---------- consistency ----------

  /** The database holds exactly the table's slots, and no slot number serves two items. */
  ghost predicate Mirrors(t: Table, db: Db) {
    && (forall id, s :: s in SlotsOf(t, id) ==> s in db && db[s] == Row(id, SlotsOf(t, id)[s]))
    && (forall s :: s in db ==> s in SlotsOf(t, db[s].id))
    && (forall id :: id in t.slots ==> t.slots[id] != map[])
  }

  /** Slot numbers run from 1 to 128; the free ones are marked and counted. */
  ghost predicate Booked(t: Table, db: Db) {
    && Shaped(t) && t.next >= 1 && t.available[0]
    && (forall s :: s in db ==> 1 <= s <= SLOTS)
    && (forall s :: 1 <= s <= SLOTS ==> (t.available[s] <==> s !in db))
    && t.usable == SLOTS - |db|
  }

  /** While any slot is free, the next slot to use is the lowest free one. */
  ghost predicate NextIsLowest(t: Table)
    requires Shaped(t)
  {
    t.usable > 0 ==> t.next >= 1 && t.available[t.next] && forall s :: 1 <= s < t.next ==> !t.available[s]
  }

  ghost predicate Consistent(t: Table, db: Db) {
    Mirrors(t, db) && Booked(t, db)
  }

  ghost predicate Valid(t: Table, db: Db) {
    Consistent(t, db) && NextIsLowest(t)
  }

  lemma {:induction false} ValidParts(t: Table, db: Db)
    requires Valid(t, db)
    ensures Shaped(t) && Mirrors(t, db) && Booked(t, db) && NextIsLowest(t)
  {
  }

  // ---------- taking and freeing slots ----------

  lemma {:induction false} FullCount(ids: set<SlotNo>, n: nat)
    requires forall s {:trigger s in ids} :: s in ids <==> 1 <= s <= n
    requires n < 0x1_0000_0000
    ensures |ids| == n
    decreases n
  {
    if n == 0 {
      assert ids == {};
    } else {
      assert n in ids;
      FullCount(ids - {n}, n - 1);
    }
  }

  /** A table that is not full has a free slot. */
  lemma {:induction false} SomeFree(t: Table, db: Db) returns (s: SlotNo)
    requires Booked(t, db) && t.usable > 0
    ensures 1 <= s <= SLOTS && t.available[s] && s !in db
  {
    if forall s: SlotNo :: 1 <= s <= SLOTS ==> s in db.Keys {
      FullCount(db.Keys, SLOTS);
    }
    s :| 1 <= s <= SLOTS && s !in db.Keys;
  }

  /** Marking one free slot as taken, and counting it. */
  lemma {:induction false} TookBooks(t: Table, t': Table, db: Db, row: Row, s: SlotNo)
    requires Booked(t, db) && 1 <= s <= SLOTS && s !in db && t.usable > 0
    requires Shaped(t') && t'.available == t.available[s := false] && t'.usable == LowDword(t.usable - 1) && t'.next >= 1
    ensures Booked(t', db[s := row])
  {
    var db' := db[s := row];
    assert |db'| == |db| + 1;
    forall k: SlotNo | 1 <= k <= SLOTS ensures t'.available[k] <==> k !in db' {}
  }

  lemma {:induction false} TakenFields(t: Table)
    requires Shaped(t) && t.next >= 1
    ensures var t', later := Taken(t), NextFree(t.available, t.next + 1);
            && t'.available == t.available[t.next := false] && t'.usable == LowDword(t.usable - 1)
            && t'.next == (if later <= SLOTS then later else t.next) >= 1
  {
    hide NextFree;
  }

  lemma {:induction false} TakenNext(t: Table, db: Db, row: Row)
    requires Booked(t, db) && NextIsLowest(t) && t.usable > 0 && Booked(Taken(t), db[t.next := row])
    ensures NextIsLowest(Taken(t))
  {
    TakenFields(t);
    var t', later := Taken(t), NextFree(t.available, t.next + 1);
    if t'.usable > 0 {
      var s := SomeFree(t', db[t.next := row]);
      hide Booked, Taken;
      assert t.available[s] && s > t.next;
      assert later <= s;
    }
  }

  lemma {:induction false} TakenBooks(t: Table, db: Db, row: Row)
    requires Booked(t, db) && NextIsLowest(t) && t.usable > 0
    ensures t.next !in db && Booked(Taken(t), db[t.next := row]) && NextIsLowest(Taken(t))
  {
    TakenFields(t);
    hide Taken;
    TookBooks(t, Taken(t), db, row, t.next);
    TakenNext(t, db, row);
  }

  /** When the last free slot is taken, `next` stays on it. */
  lemma {:induction false} TakenLast(t: Table, db: Db)
    requires Booked(t, db) && NextIsLowest(t) && t.usable == 1
    ensures Taken(t).usable == 0 && Taken(t).next == t.next
  {
    var db' := db[t.next := Row(0, 0)];
    TakenBooks(t, db, Row(0, 0));
    var later := NextFree(t.available, t.next + 1);
    if later <= SLOTS {
      assert later !in db';
      FullDb(db', later);
    }
  }

  lemma {:induction false} FullDb(db: Db, s: SlotNo)
    requires |db| == SLOTS && (forall k :: k in db ==> 1 <= k <= SLOTS)
    requires 1 <= s <= SLOTS
    ensures s in db
  {
    if s !in db {
      var ids := db.Keys + {s};
      RangeBound(ids, SLOTS);
    }
  }

  lemma {:induction false} RangeBound(ids: set<SlotNo>, n: nat)
    requires forall s :: s in ids ==> 1 <= s <= n
    requires n < 0x1_0000_0000
    ensures |ids| <= n
    decreases n
  {
    if n == 0 {
      assert ids == {};
    } else {
      RangeBound(ids - {n}, n - 1);
    }
  }

  lemma {:induction false} SlotsAfterPut(t: Table, id: Dword, s: SlotNo, quantity: Dword, other: Dword)
    ensures SlotsOf(Put(t, id, s, quantity), other)
         == if other == id then SlotsOf(t, id)[s := quantity] else SlotsOf(t, other)
  {
  }

  /** Storing a quantity in a slot that is free, or that the item already has. */
  lemma {:induction false} PutMirrors(t: Table, db: Db, id: Dword, s: SlotNo, quantity: Dword)
    requires Mirrors(t, db) && (s !in db || s in SlotsOf(t, id))
    ensures Mirrors(Put(t, id, s, quantity), db[s := Row(id, quantity)])
  {
    var t', db' := Put(t, id, s, quantity), db[s := Row(id, quantity)];
    forall other, k | k in SlotsOf(t', other)
      ensures k in db' && db'[k] == Row(other, SlotsOf(t', other)[k])
    {
      SlotsAfterPut(t, id, s, quantity, other);
      if other != id || k != s { assert k in SlotsOf(t, other); }
    }
    forall k | k in db' ensures k in SlotsOf(t', db'[k].id) {
      SlotsAfterPut(t, id, s, quantity, db'[k].id);
    }
    forall other | other in t'.slots ensures t'.slots[other] != map[] {
      if other == id { assert s in t'.slots[id]; }
    }
  }

  lemma {:induction false} SameMirror(t: Table, t': Table, db: Db)
    requires Mirrors(t, db) && t'.slots == t.slots
    ensures Mirrors(t', db)
  {
    assert forall id :: SlotsOf(t', id) == SlotsOf(t, id);
  }

  lemma {:induction false} NextIsFree(t: Table, db: Db)
    requires Booked(t, db) && NextIsLowest(t) && t.usable > 0
    ensures t.next !in db
    ensures Taken(t).usable == t.usable - 1
  {
  }

  /** One inserted slot: the database takes the row. */
  lemma {:induction false} InsertedKeeps(t: Table, db: Db, id: Dword, quantity: Dword)
    requires Valid(t, db) && t.usable > 0
    ensures t.next !in db && Valid(Inserted(t, id, quantity), db[t.next := Row(id, quantity)])
    ensures Inserted(t, id, quantity).usable == t.usable - 1
  {
    assert Shaped(t);
    hide Mirrors, Booked, NextIsLowest, Taken;
    var row, taken := Row(id, quantity), Taken(t);
    NextIsFree(t, db);
    TakenBooks(t, db, row);
    TakenSlots(t);
    SameMirror(t, taken, db);
    PutMirrors(taken, db, id, t.next, quantity);
    SameBooks(taken, Inserted(t, id, quantity), db[t.next := row]);
  }

  lemma {:induction false} TakenSlots(t: Table)
    requires Shaped(t)
    ensures Taken(t).slots == t.slots
  {
  }

  /** The bookkeeping does not look at the slots' contents. */
  lemma {:induction false} SameBooks(t: Table, t': Table, db: Db)
    requires Booked(t, db) && NextIsLowest(t)
    requires t' == t.(slots := t'.slots)
    ensures Booked(t', db) && NextIsLowest(t')
  {
  }

  /** The item gains what is inserted into a free slot; other items keep their slots. */
  lemma {:induction false} InsertedSum(t: Table, db: Db, id: Dword, quantity: Dword, other: Dword)
    requires Mirrors(t, db) && Shaped(t) && t.next !in db
    ensures Sum(SlotsOf(Inserted(t, id, quantity), id)) == Sum(SlotsOf(t, id)) + quantity
    ensures other != id ==> SlotsOf(Inserted(t, id, quantity), other) == SlotsOf(t, other)
  {
    SlotsAfterPut(Taken(t), id, t.next, quantity, id);
    SlotsAfterPut(Taken(t), id, t.next, quantity, other);
    SumPut(SlotsOf(t, id), t.next, quantity);
    assert SlotsOf(Taken(t), id) == SlotsOf(t, id);
  }

  lemma {:induction false} ReplayCons(db: Db, u: Update, updates: seq<Update>)
    ensures Replayed(db, [u] + updates) == match Executed(db, u) case None => None case Some(db') => Replayed(db', updates)
  {
  }

  lemma {:induction false} ReplayOne(db: Db, u: Update)
    ensures Replayed(db, [u]) == Executed(db, u)
  {
  }

  lemma {:induction false} CapacityStep(t: Table, t': Table, max: Dword)
    requires t.usable > 0 ==> t'.usable == t.usable - 1
    ensures t.usable == 0 ==> Capacity(t, max) == 0
    ensures t.usable > 0 ==> Capacity(t, max) >= max && Capacity(t', max) == Capacity(t, max) - max
  {
  }

  /** `t'` holds `count` more of the item than `t`, and the same of everything else. */
  ghost predicate Gained(t: Table, t': Table, id: Dword, count: int) {
    && Sum(SlotsOf(t', id)) == Sum(SlotsOf(t, id)) + count
    && forall other :: other != id ==> SlotsOf(t', other) == SlotsOf(t, other)
  }

  lemma {:induction false} GainedTwice(t: Table, t1: Table, t2: Table, id: Dword, a: int, b: int)
    requires Gained(t, t1, id, a) && Gained(t1, t2, id, b)
    ensures Gained(t, t2, id, a + b)
  {
  }

  lemma {:induction false} InsertedGains(t: Table, db: Db, id: Dword, quantity: Dword)
    requires Mirrors(t, db) && Shaped(t) && t.next !in db
    ensures Gained(t, Inserted(t, id, quantity), id, quantity)
  {
    hide Mirrors, Inserted, SlotsOf, Sum;
    InsertedSum(t, db, id, quantity, id);
    forall other | other != id
      ensures SlotsOf(Inserted(t, id, quantity), other) == SlotsOf(t, other)
    {
      InsertedSum(t, db, id, quantity, other);
    }
  }

  /** The database takes the step's updates and mirrors the new table, which holds
      `count` more of the item. */
  ghost predicate InStep(t: Table, db: Db, id: Dword, count: int, s: Step, db': Db) {
    Replayed(db, s.updates) == Some(db') && Valid(s.table, db') && Gained(t, s.table, id, count)
  }

  lemma {:induction false} InsertedInStep(t: Table, db: Db, id: Dword, quantity: Dword) returns (db1: Db)
    requires Valid(t, db) && t.usable > 0
    ensures Shaped(t) && t.next !in db && db1 == db[t.next := Row(id, quantity)]
    ensures InStep(t, db, id, quantity, Step(Inserted(t, id, quantity), [Insert(id, t.next, quantity)]), db1)
    ensures Inserted(t, id, quantity).usable == t.usable - 1
  {
    assert Shaped(t);
    hide Mirrors, Booked, NextIsLowest, Inserted, Gained;
    db1 := db[t.next := Row(id, quantity)];
    InsertedKeeps(t, db, id, quantity);
    InsertedGains(t, db, id, quantity);
    ReplayOne(db, Insert(id, t.next, quantity));
  }

  lemma {:induction false} InStepThen(t: Table, db: Db, id: Dword, a: int, t1: Table, u: Update, db1: Db,
                                      b: int, s: Step, db2: Db)
    requires InStep(t, db, id, a, Step(t1, [u]), db1) && InStep(t1, db1, id, b, s, db2)
    ensures InStep(t, db, id, a + b, Step(s.table, [u] + s.updates), db2)
  {
    hide Mirrors, Booked, NextIsLowest, Gained;
    GainedTwice(t, t1, s.table, id, a, b);
    ReplayOne(db, u);
    ReplayCons(db, u, s.updates);
  }

  /** The inserting loop while the free slots suffice. */
  lemma {:induction false} InsertedAllKeeps(t: Table, db: Db, id: Dword, max: Dword, count: Dword) returns (db': Db)
    requires Valid(t, db) && max > 0 && count < Capacity(t, max)
    ensures InStep(t, db, id, count, InsertedAll(t, id, max, count), db')
    decreases count
  {
    hide *;
    SomeRoom(t, max, count);
    if count < max {
      db' := InsertedInStep(t, db, id, count);
      InsertedAllLast(t, id, max, count);
    } else {
      var db1 := InsertedInStep(t, db, id, max);
      var t1, u := Inserted(t, id, max), Insert(id, t.next, max);
      CapacityStep(t, t1, max);
      StillValid(t, db, id, max, Step(t1, [u]), db1);
      db' := InsertedAllKeeps(t1, db1, id, max, count - max);
      InStepThen(t, db, id, max, t1, u, db1, count - max, InsertedAll(t1, id, max, count - max), db');
      InsertedAllMore(t, id, max, count);
    }
  }

  lemma {:induction false} InsertedAllLast(t: Table, id: Dword, max: Dword, count: Dword)
    requires Shaped(t) && count < max
    ensures InsertedAll(t, id, max, count) == Step(Inserted(t, id, count), [Insert(id, t.next, count)])
  {
  }

  lemma {:induction false} SomeRoom(t: Table, max: Dword, count: nat)
    requires count < Capacity(t, max)
    ensures t.usable > 0
  {
  }

  lemma {:induction false} InsertedAllMore(t: Table, id: Dword, max: Dword, count: Dword)
    requires Shaped(t) && 0 < max <= count
    ensures var s := InsertedAll(Inserted(t, id, max), id, max, count - max);
            InsertedAll(t, id, max, count) == Step(s.table, [Insert(id, t.next, max)] + s.updates)
  {
  }

  lemma {:induction false} InStepReplays(t: Table, db: Db, id: Dword, count: int, s: Step, db': Db)
    requires InStep(t, db, id, count, s, db')
    ensures Replayed(db, s.updates) == Some(db')
  {
  }

  lemma {:induction false} StillValid(t: Table, db: Db, id: Dword, count: int, s: Step, db': Db)
    requires InStep(t, db, id, count, s, db')
    ensures Valid(s.table, db')
  {
  }

  lemma {:induction false} FullClashes(t: Table, db: Db)
    requires Booked(t, db) && t.usable == 0
    ensures t.next in db
  {
    FullDb(db, t.next);
  }

  /** With too few free slots the loop comes to a slot number that is taken, so a database
      that has the table's rows, and perhaps others, refuses a row. */
  lemma {:induction false} InsertedAllClashes(t: Table, own: Db, db: Db, id: Dword, max: Dword, count: Dword)
    requires Valid(t, own) && own.Keys <= db.Keys && max > 0 && count >= Capacity(t, max)
    ensures Shaped(t) && Replayed(db, InsertedAll(t, id, max, count).updates) == None
    decreases count
  {
    hide *;
    ValidParts(t, own);
    var first := Min(count, max);
    FirstInsert(t, id, max, count);
    if t.next in db {
      RefusedInsert(db, id, t.next, first, InsertedAll(t, id, max, count).updates);
    } else {
      var t1 := Inserted(t, id, max);
      var own', db' := ClashTurn(t, own, db, id, max, count);
      InsertedAllClashes(t1, own', db', id, max, count - max);
      InsertedAllMore(t, id, max, count);
      ReplayInsert(db, id, t.next, max, InsertedAll(t1, id, max, count - max).updates);
    }
  }

  lemma {:induction false} ClashTurn(t: Table, own: Db, db: Db, id: Dword, max: Dword, count: Dword)
    returns (own': Db, db': Db)
    requires Valid(t, own) && own.Keys <= db.Keys && max > 0 && count >= Capacity(t, max) && t.next !in db
    ensures Shaped(t) && count >= max && db' == db[t.next := Row(id, max)]
    ensures Valid(Inserted(t, id, max), own') && own'.Keys <= db'.Keys
    ensures count - max >= Capacity(Inserted(t, id, max), max)
  {
    hide *;
    ValidParts(t, own);
    own', db' := own[t.next := Row(id, max)], db[t.next := Row(id, max)];
    SomeUsable(t, own, db);
    InsertedKeeps(t, own, id, max);
    CapacityStep(t, Inserted(t, id, max), max);
  }

  /** The first update is an insert into `t.next`. */
  lemma {:induction false} FirstInsert(t: Table, id: Dword, max: Dword, count: Dword)
    requires Shaped(t) && max > 0
    ensures Min(count, max) == (if count < max then count else max)
    ensures var s := InsertedAll(t, id, max, count);
            s.updates != [] && s.updates[0] == Insert(id, t.next, Min(count, max))
  {
  }

  lemma {:induction false} RefusedInsert(db: Db, id: Dword, s: SlotNo, quantity: Dword, updates: seq<Update>)
    requires updates != [] && updates[0] == Insert(id, s, quantity) && s in db
    ensures Replayed(db, updates) == None
  {
  }

  lemma {:induction false} ReplayInsert(db: Db, id: Dword, s: SlotNo, quantity: Dword, updates: seq<Update>)
    requires s !in db
    ensures Replayed(db, [Insert(id, s, quantity)] + updates) == Replayed(db[s := Row(id, quantity)], updates)
  {
    ReplayCons(db, Insert(id, s, quantity), updates);
  }

  lemma {:induction false} SomeUsable(t: Table, own: Db, db: Db)
    requires Valid(t, own) && own.Keys <= db.Keys && t.next !in db
    ensures t.usable > 0
  {
    if t.usable == 0 { FullClashes(t, own); }
  }
}
