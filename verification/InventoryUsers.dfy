/** A user's whole inventory: one table per kind of item, over the one database table that
    keeps the rows of all kinds by slot number. Calls, runs of calls, and reloading. */
module InventoryUsers {
  import opened Words
  import opened OrderedKeys
  import opened Inventory
  import opened InventoryBooks
  import opened InventoryFilling
  import opened InventoryAdding
  import opened InventoryRemoving
  import opened InventoryRuns

  const KINDS: nat := 5

  type Kind = k: nat | k < KINDS

  /** What the item list says of an item. */
  datatype Listing = Listing(kind: Kind, maxQuantity: Dword)

  type Catalog = map<Dword, Listing>

  function KindOf(c: Catalog, id: Dword): Kind {
    if id in c then c[id].kind else 0
  }

  function MaxOf(c: Catalog, id: Dword): Dword {
    if id in c then c[id].maxQuantity else 0
  }

  /** `inventories`, by kind. Every table numbers its slots from 1. */
  type User = seq<Table>

  /** The rows of one kind, and all others. */
  function RowsOf(c: Catalog, db: Db, k: Kind): Db {
    map s | s in db && KindOf(c, db[s].id) == k :: db[s]
  }

  function RowsBut(c: Catalog, db: Db, k: Kind): Db {
    map s | s in db && KindOf(c, db[s].id) != k :: db[s]
  }

  /** No row holds more than its item's maximum. */
  ghost predicate Stacked(c: Catalog, db: Db) {
    forall s :: s in db ==> db[s].quantity <= MaxOf(c, db[s].id)
  }

  /** Each table is valid for the rows of its kind. */
  ghost predicate UserBooks(c: Catalog, u: User, db: Db) {
    |u| == KINDS && forall k: Kind :: Valid(u[k], RowsOf(c, db, k))
  }

  ghost predicate UserValid(c: Catalog, u: User, db: Db) {
    UserBooks(c, u, db) && Stacked(c, db)
  }

  lemma {:induction false} UserParts(c: Catalog, u: User, db: Db, k: Kind)
    requires UserValid(c, u, db)
    ensures UserBooks(c, u, db) && Stacked(c, db) && |u| == KINDS && Valid(u[k], RowsOf(c, db, k)) && Shaped(u[k])
  {
    hide Mirrors, Booked, NextIsLowest, RowsOf;
    ValidParts(u[k], RowsOf(c, db, k));
  }

  // ---------- updates among other rows ----------

  lemma {:induction false} SplitRows(c: Catalog, db: Db, k: Kind)
    ensures RowsOf(c, db, k) + RowsBut(c, db, k) == db
    ensures RowsOf(c, db, k).Keys !! RowsBut(c, db, k).Keys
  {
    assert forall s :: s in db <==> s in RowsOf(c, db, k) + RowsBut(c, db, k);
  }

  lemma {:induction false} ExecutedAmong(own: Db, theirs: Db, u: Update)
    requires own.Keys !! theirs.Keys && Executed(own, u).Some?
    ensures u.seqNo in theirs ==> Executed(own + theirs, u) == None
    ensures u.seqNo !in theirs ==>
              && Executed(own + theirs, u) == Some(Executed(own, u).value + theirs)
              && Executed(own, u).value.Keys !! theirs.Keys
  {
    if u.seqNo !in theirs {
      match u
      case Insert(id, s, q) => assert (own + theirs)[s := Row(id, q)] == own[s := Row(id, q)] + theirs;
      case Change(id, s, q) => assert (own + theirs)[s := Row(id, q)] == own[s := Row(id, q)] + theirs;
      case Delete(id, s) => assert (own + theirs) - {s} == (own - {s}) + theirs;
    }
  }

  /** Updates that suit a table's own rows leave all other rows as they are, and are carried
      out, exactly when they name no slot number of another row. */
  lemma {:induction false} ReplayedAmong(own: Db, theirs: Db, updates: seq<Update>, own': Db)
    requires own.Keys !! theirs.Keys && Replayed(own, updates) == Some(own')
    ensures Named(updates) !! theirs.Keys ==>
              Replayed(own + theirs, updates) == Some(own' + theirs) && own'.Keys !! theirs.Keys
    ensures !(Named(updates) !! theirs.Keys) ==> Replayed(own + theirs, updates) == None
    decreases |updates|
  {
    if updates == [] {
      NamedNothing();
    } else {
      var first, rest := updates[0], updates[1..];
      assert updates == [first] + rest;
      hide *;
      ReplayCons(own, first, rest);
      ReplayCons(own + theirs, first, rest);
      NamedCons(first, rest);
      ExecutedAmong(own, theirs, first);
      if first.seqNo !in theirs {
        ReplayedAmong(Executed(own, first).value, theirs, rest, own');
        assert Named(updates) !! theirs.Keys <==> Named(rest) !! theirs.Keys;
      } else {
        assert first.seqNo in Named(updates);
      }
    }
  }

  lemma {:induction false} NamedNothing()
    ensures Named([]) == {}
  {
  }

  // ---------- one call of a user ----------

  /** The table a call goes to. */
  function TableFor(c: Catalog, u: User, call: Call): Table
    requires |u| == KINDS
  {
    u[KindOf(c, call.item.id)]
  }

  ghost function Served(c: Catalog, u: User, call: Call): (u': User)
    requires |u| == KINDS
    ensures |u'| == KINDS
  {
    u[KindOf(c, call.item.id) := Performed(TableFor(c, u, call), call).table]
  }

  /** The item is as the item list has it, with a maximum small enough for a full table to
      be counted in 32 bits. */
  ghost predicate Listed(c: Catalog, item: Item) {
    && item.id in c && item.maxQuantity == c[item.id].maxQuantity
    && item.maxQuantity > 0 && (SLOTS + 1) * item.maxQuantity < 0x1_0000_0000
  }

  ghost predicate Formed(u: User) {
    |u| == KINDS && forall k: Kind :: Shaped(u[k])
  }

  /** None of the new slots an add takes has a number that another kind's table uses. */
  ghost predicate SlotsApart(c: Catalog, u: User, item: Item)
    requires Formed(u) && item.maxQuantity > 0
  {
    var k := KindOf(c, item.id);
    forall j: Kind, s: SlotNo :: j != k && AmongLowest(u[k], NewSlots(u[k], item), s) ==> u[j].available[s]
  }

  ghost predicate UserSafe(c: Catalog, u: User, call: Call)
    requires |u| == KINDS
  {
    && Listed(c, call.item) && Safe(TableFor(c, u, call), call)
    && (call.Add? && Accepts(TableFor(c, u, call), call) && Formed(u) ==> SlotsApart(c, u, call.item))
  }

  lemma {:induction false} HeldKind(c: Catalog, t: Table, db: Db, k: Kind, id: Dword)
    requires Mirrors(t, RowsOf(c, db, k)) && SlotsOf(t, id) != map[]
    ensures KindOf(c, id) == k
  {
    var s :| s in SlotsOf(t, id);
    HeldRow(t, RowsOf(c, db, k), id, s);
    assert RowsOf(c, db, k)[s].id == id;
  }

  lemma {:induction false} HeldStacked(c: Catalog, u: User, db: Db, id: Dword)
    requires UserValid(c, u, db)
    ensures |u| == KINDS
    ensures var m := SlotsOf(u[KindOf(c, id)], id); forall s :: s in m ==> m[s] <= MaxOf(c, id)
  {
    var k := KindOf(c, id);
    UserParts(c, u, db, k);
    ValidParts(u[k], RowsOf(c, db, k));
    hide Valid, Mirrors, Booked, NextIsLowest, SlotsOf, UserBooks;
    forall s | s in SlotsOf(u[k], id) ensures SlotsOf(u[k], id)[s] <= MaxOf(c, id) {
      HeldRow(u[k], RowsOf(c, db, k), id, s);
    }
  }

  /** The totals of a valid user fit 32 bits. */
  lemma {:induction false} UserCountable(c: Catalog, u: User, db: Db, item: Item)
    requires UserValid(c, u, db) && Listed(c, item)
    ensures |u| == KINDS && Countable(u[KindOf(c, item.id)], item)
  {
    var k := KindOf(c, item.id);
    UserParts(c, u, db, k);
    HeldStacked(c, u, db, item.id);
    hide Valid, UserValid, UserBooks, Stacked, RowsOf, SlotsOf, Sum;
    StackBound(u[k], RowsOf(c, db, k), item.id, item.maxQuantity);
  }

  // ---------- slots keep to the maximum ----------

  ghost predicate Capped(m: Slots, max: Dword) {
    forall s :: s in m ==> m[s] <= max
  }

  lemma {:induction false} PutCapped(t: Table, t': Table, id: Dword, s: SlotNo, quantity: Dword, max: Dword)
    requires Capped(SlotsOf(t, id), max) && quantity <= max && t'.slots == Put(t, id, s, quantity).slots
    ensures Capped(SlotsOf(t', id), max)
  {
    SlotsAfterPut(t, id, s, quantity, id);
    assert SlotsOf(t', id) == SlotsOf(Put(t, id, s, quantity), id);
  }

  lemma {:induction false} FillingCapped(t: Table, id: Dword, max: Dword, count: Dword)
    requires Shaped(t) && max > 0 && Capped(SlotsOf(t, id), max)
    ensures Capped(SlotsOf(InsertedAll(t, id, max, count).table, id), max)
    decreases count
  {
    hide *;
    if count < max {
      InsertedHolds(t, id, count, id);
      PutCapped(t, Inserted(t, id, count), id, t.next, count, max);
      InsertedAllLast(t, id, max, count);
    } else {
      InsertedHolds(t, id, max, id);
      PutCapped(t, Inserted(t, id, max), id, t.next, max, max);
      InsertedShaped(t, id, max);
      FillingCapped(Inserted(t, id, max), id, max, count - max);
      InsertedAllMore(t, id, max, count);
    }
  }

  lemma {:induction false} InsertedShaped(t: Table, id: Dword, quantity: Dword)
    requires Shaped(t)
    ensures Shaped(Inserted(t, id, quantity))
  {
  }

  lemma {:induction false} AddCapped(t: Table, db: Db, item: Item)
    requires Valid(t, db) && Countable(t, item) && Added(t, item).Done? && Capped(SlotsOf(t, item.id), item.maxQuantity)
    ensures Capped(SlotsOf(Added(t, item).step.table, item.id), item.maxQuantity)
  {
    hide *;
    var id, max := item.id, item.maxQuantity;
    ValidParts(t, db);
    PositiveMax(t, item);
    if RestHeld(t, item) == 0 {
      AddWhole(t, db, item);
      FillingCapped(t, id, max, item.quantity);
    } else if FitsOpenSlot(t, item) {
      var k := AddFits(t, db, item);
      FillsIs(t, item);
      PutCapped(t, Put(t, id, k, FilledTo(t, item)), id, k, FilledTo(t, item), max);
    } else {
      var k := AddOverflows(t, db, item);
      ToppedMeans(t, item, k, Overflow(t, item));
      PutCapped(t, Put(t, id, k, max), id, k, max, max);
      FillingCapped(Put(t, id, k, max), id, max, Overflow(t, item));
    }
  }

  lemma {:induction false} DrainedCapped(t: Table, m: Slots, id: Dword, keys: seq<SlotNo>, count: Dword, max: Dword)
    requires Shaped(t) && KeysOf(keys, m) && Capped(m, max)
    ensures Capped(Drained(t, m, id, keys, count).left, max)
    decreases |keys|
  {
    DrainedTurn(t, m, id, keys, count);
    if keys != [] {
      var k := keys[|keys| - 1];
      if count > m[k] {
        DrainedCapped(Freed(t, k), Without(m, k), id, keys[..|keys| - 1], count - m[k], max);
      }
    }
  }

  lemma {:induction false} RemoveCapped(t: Table, item: Item, max: Dword)
    requires Shaped(t) && InRange(SlotsOf(t, item.id)) && Removed(t, item).Done? && Capped(SlotsOf(t, item.id), max)
    ensures Capped(SlotsOf(Removed(t, item).step.table, item.id), max)
  {
    hide *;
    var id, m := item.id, SlotsOf(t, item.id);
    RemovedBranches(t, item);
    var d := Drained(t, m, id, Sorted(m.Keys), item.quantity);
    DrainedCapped(t, m, id, Sorted(m.Keys), item.quantity, max);
    SlotsOfWith(d.table, id, d.left, id);
  }

  lemma {:induction false} CallCapped(t: Table, db: Db, call: Call)
    requires Valid(t, db) && Countable(t, call.item) && Capped(SlotsOf(t, call.item.id), call.item.maxQuantity)
    ensures Capped(SlotsOf(Performed(t, call).table, call.item.id), call.item.maxQuantity)
  {
    hide *;
    AcceptedCall(t, db, call);
    if Accepts(t, call) {
      if call.Add? { AddCapped(t, db, call.item); } else { RemoveCapped(t, call.item, call.item.maxQuantity); }
    }
  }

  // ---------- the other kinds ----------

  /** The rows after a call on one kind, given its own new rows. */
  lemma {:induction false} RowsAfter(c: Catalog, db: Db, k: Kind, own': Db, j: Kind)
    requires own'.Keys !! RowsBut(c, db, k).Keys
    requires forall s :: s in own' ==> KindOf(c, own'[s].id) == k
    ensures RowsOf(c, own' + RowsBut(c, db, k), j) == if j == k then own' else RowsOf(c, db, j)
  {
    var theirs := RowsBut(c, db, k);
    var db' := own' + theirs;
    forall s: SlotNo
      ensures s in RowsOf(c, db', j) <==> s in if j == k then own' else RowsOf(c, db, j)
    {
    }
  }

  /** A call leaves its table's rows all of its kind. */
  lemma {:induction false} OwnKind(c: Catalog, t: Table, db: Db, k: Kind, t': Table, own': Db, id: Dword, gain: int)
    requires Mirrors(t, RowsOf(c, db, k)) && Mirrors(t', own') && Gained(t, t', id, gain) && KindOf(c, id) == k
    ensures forall s :: s in own' ==> KindOf(c, own'[s].id) == k
  {
    hide Mirrors, SlotsOf, Sum, RowsOf;
    forall s | s in own' ensures KindOf(c, own'[s].id) == k {
      RowHeld(t', own', s);
      if own'[s].id != id {
        assert SlotsOf(t, own'[s].id) == SlotsOf(t', own'[s].id);
        HeldKind(c, t, db, k, own'[s].id);
      }
    }
  }

  lemma {:induction false} OwnStacked(c: Catalog, t: Table, own: Db, t': Table, own': Db, id: Dword, gain: int)
    requires Stacked(c, own) && Mirrors(t, own) && Mirrors(t', own') && Gained(t, t', id, gain)
    requires Capped(SlotsOf(t', id), MaxOf(c, id))
    ensures Stacked(c, own')
  {
    hide Mirrors, SlotsOf, Sum;
    forall s | s in own' ensures own'[s].quantity <= MaxOf(c, own'[s].id) {
      RowHeld(t', own', s);
      if own'[s].id != id {
        assert SlotsOf(t, own'[s].id) == SlotsOf(t', own'[s].id);
        HeldRow(t, own, own'[s].id, s);
      }
    }
  }

  /** The rows of all kinds but `k` are the same. */
  ghost predicate OthersIntact(c: Catalog, db: Db, db': Db, k: Kind) {
    forall j: Kind :: j != k ==> RowsOf(c, db', j) == RowsOf(c, db, j)
  }

  /** Own new rows beside everyone else's old ones. */
  lemma {:induction false} JoinedRows(c: Catalog, u: User, db: Db, call: Call, own': Db, gain: int) returns (db': Db)
    requires UserValid(c, u, db) && Listed(c, call.item) && |u| == KINDS
    requires var k := KindOf(c, call.item.id);
             var t' := Performed(TableFor(c, u, call), call).table;
             && Mirrors(t', own') && own'.Keys !! RowsBut(c, db, k).Keys
             && Gained(u[k], t', call.item.id, gain)
    ensures db' == own' + RowsBut(c, db, KindOf(c, call.item.id))
    ensures OthersIntact(c, db, db', KindOf(c, call.item.id)) && RowsOf(c, db', KindOf(c, call.item.id)) == own'
    ensures Stacked(c, db')
  {
    hide *;
    var id, k, t := call.item.id, KindOf(c, call.item.id), TableFor(c, u, call);
    var t' := Performed(t, call).table;
    TableForIs(c, u, call);
    UserParts(c, u, db, k);
    ValidParts(t, RowsOf(c, db, k));
    db' := own' + RowsBut(c, db, k);
    OwnKind(c, t, db, k, t', own', id, gain);
    RowsAfter(c, db, k, own', k);
    forall j: Kind | j != k ensures RowsOf(c, db', j) == RowsOf(c, db, j) { RowsAfter(c, db, k, own', j); }
    MakeOthersIntact(c, db, db', k);
    CappedUser(c, u, db, call);
    StackedRows(c, db, k);
    OwnStacked(c, t, RowsOf(c, db, k), t', own', id, gain);
    StackedJoin(c, own', RowsBut(c, db, k));
  }

  lemma {:induction false} TableForIs(c: Catalog, u: User, call: Call)
    requires |u| == KINDS
    ensures TableFor(c, u, call) == u[KindOf(c, call.item.id)]
  {
  }

  lemma {:induction false} MakeOthersIntact(c: Catalog, db: Db, db': Db, k: Kind)
    requires forall j: Kind | j != k :: RowsOf(c, db', j) == RowsOf(c, db, j)
    ensures OthersIntact(c, db, db', k)
  {
    hide RowsOf;
  }

  lemma {:induction false} CappedUser(c: Catalog, u: User, db: Db, call: Call)
    requires UserValid(c, u, db) && Listed(c, call.item)
    ensures |u| == KINDS && Capped(SlotsOf(Performed(TableFor(c, u, call), call).table, call.item.id), MaxOf(c, call.item.id))
  {
    hide *;
    var id, k := call.item.id, KindOf(c, call.item.id);
    UserCountable(c, u, db, call.item);
    UserParts(c, u, db, k);
    TableForIs(c, u, call);
    HeldStacked(c, u, db, id);
    ListedMax(c, call.item);
    MakeCapped(SlotsOf(u[k], id), MaxOf(c, id));
    CallCapped(u[k], RowsOf(c, db, k), call);
  }

  lemma {:induction false} MakeCapped(m: Slots, max: Dword)
    requires forall s :: s in m ==> m[s] <= max
    ensures Capped(m, max)
  {
  }

  lemma {:induction false} ListedMax(c: Catalog, item: Item)
    requires Listed(c, item)
    ensures MaxOf(c, item.id) == item.maxQuantity > 0
  {
  }

  lemma {:induction false} StackedRows(c: Catalog, db: Db, k: Kind)
    requires Stacked(c, db)
    ensures Stacked(c, RowsOf(c, db, k)) && Stacked(c, RowsBut(c, db, k))
  {
  }

  lemma {:induction false} StackedJoin(c: Catalog, a: Db, b: Db)
    requires Stacked(c, a) && Stacked(c, b)
    ensures Stacked(c, a + b)
  {
  }

  lemma {:induction false} UserAfter(c: Catalog, u: User, db: Db, call: Call, db': Db)
    requires UserValid(c, u, db) && Stacked(c, db') && OthersIntact(c, db, db', KindOf(c, call.item.id))
    requires Valid(Performed(TableFor(c, u, call), call).table, RowsOf(c, db', KindOf(c, call.item.id)))
    ensures UserValid(c, Served(c, u, call), db')
  {
    hide Valid, Performed, RowsOf, Stacked, KindOf;
    var u' := Served(c, u, call);
    forall j: Kind ensures Valid(u'[j], RowsOf(c, db', j)) {
      if j != KindOf(c, call.item.id) { assert u'[j] == u[j] && Valid(u[j], RowsOf(c, db, j)); }
    }
  }

  // ---------- adds and removals of a user ----------

  /** Which numbers other kinds use, read off the tables. */
  lemma {:induction false} TheirSlots(c: Catalog, u: User, db: Db, k: Kind, s: SlotNo)
    requires UserValid(c, u, db) && 1 <= s <= SLOTS
    ensures Formed(u) && (s in RowsBut(c, db, k) <==> exists j: Kind :: j != k && !u[j].available[s])
  {
    UserFormed(c, u, db);
    hide Valid, UserValid, UserBooks, Stacked;
    forall j: Kind ensures s in RowsOf(c, db, j) <==> !u[j].available[s] {
      UserParts(c, u, db, j);
      TakenIsRow(u[j], RowsOf(c, db, j), s);
    }
    if s in RowsBut(c, db, k) {
      var j := KindOf(c, db[s].id);
      assert s in RowsOf(c, db, j);
    }
  }

  lemma {:induction false} TakenIsRow(t: Table, db: Db, s: SlotNo)
    requires Valid(t, db) && 1 <= s <= SLOTS
    ensures Shaped(t) && (s in db <==> !t.available[s])
  {
    ValidParts(t, db);
    hide Mirrors, NextIsLowest, Valid;
  }

  lemma {:induction false} UserFormed(c: Catalog, u: User, db: Db)
    requires UserValid(c, u, db)
    ensures Formed(u)
  {
    forall k: Kind ensures Shaped(u[k]) { UserParts(c, u, db, k); }
    hide Valid;
  }

  lemma {:induction false} NamesApart(c: Catalog, u: User, db: Db, item: Item)
    requires UserValid(c, u, db) && Listed(c, item) && |u| == KINDS
    requires var t := u[KindOf(c, item.id)]; Accepts(t, Add(item)) && item.maxQuantity > 0 && HasSlots(t, item)
    ensures Formed(u) && item.maxQuantity > 0
    ensures SlotsApart(c, u, item) <==>
            Named(Performed(u[KindOf(c, item.id)], Add(item)).updates) !! RowsBut(c, db, KindOf(c, item.id)).Keys
  {
    hide *;
    var k := KindOf(c, item.id);
    var t, own, theirs := u[k], RowsOf(c, db, k), RowsBut(c, db, k);
    var names := Named(Performed(t, Add(item)).updates);
    UserFormed(c, u, db);
    UserParts(c, u, db, k);
    UserCountable(c, u, db, item);
    AcceptedCall(t, own, Add(item));
    SplitRows(c, db, k);
    if SlotsApart(c, u, item) {
      forall s | s in names && s in theirs ensures false {
        AddNames(t, own, item, s);
        if s in SlotsOf(t, item.id) {
          ValidParts(t, own);
          HeldInDb(t, own, item.id, s);
        } else {
          ApartMeans(c, u, item, s);
          LowestInRange(t, NewSlots(t, item), s);
          TheirSlots(c, u, db, k, s);
        }
      }
      assert names !! theirs.Keys;
    } else {
      var j, s := NotApart(c, u, item);
      AddNames(t, own, item, s);
      LowestInRange(t, NewSlots(t, item), s);
      TheirSlots(c, u, db, k, s);
      assert s in names && s in theirs;
    }
  }

  lemma {:induction false} ApartMeans(c: Catalog, u: User, item: Item, s: SlotNo)
    requires Formed(u) && item.maxQuantity > 0 && SlotsApart(c, u, item)
    requires var t := u[KindOf(c, item.id)]; AmongLowest(t, NewSlots(t, item), s)
    ensures s <= SLOTS && forall j: Kind :: j != KindOf(c, item.id) ==> u[j].available[s]
  {
    hide NewSlots, KindOf;
  }

  lemma {:induction false} NotApart(c: Catalog, u: User, item: Item) returns (j: Kind, s: SlotNo)
    requires Formed(u) && item.maxQuantity > 0 && !SlotsApart(c, u, item)
    ensures s <= SLOTS && j != KindOf(c, item.id) && !u[j].available[s]
    ensures var t := u[KindOf(c, item.id)]; AmongLowest(t, NewSlots(t, item), s)
  {
    hide NewSlots, KindOf;
    var k := KindOf(c, item.id);
    j, s :| j != k && AmongLowest(u[k], NewSlots(u[k], item), s) && !u[j].available[s];
  }

  lemma {:induction false} LowestInRange(t: Table, n: nat, s: SlotNo)
    requires Shaped(t) && AmongLowest(t, n, s)
    ensures 1 <= s <= SLOTS && t.available[s]
  {
  }

  /** An accepted add: the database carries it out exactly when the table has slots to spare
      and none of the new slots' numbers is used by another kind. It then leaves the other
      kinds' rows alone. */
  lemma {:induction false} UserAdd(c: Catalog, u: User, db: Db, item: Item)
    requires UserValid(c, u, db) && Listed(c, item) && |u| == KINDS && Accepts(u[KindOf(c, item.id)], Add(item))
    ensures Formed(u) && item.maxQuantity > 0
    ensures var k := KindOf(c, item.id);
            var outcome := Replayed(db, Performed(u[k], Add(item)).updates);
            && (outcome.Some? <==> HasSlots(u[k], item) && SlotsApart(c, u, item))
            && (outcome.Some? ==> OthersIntact(c, db, outcome.value, k) && UserValid(c, Served(c, u, Add(item)), outcome.value))
  {
    hide *;
    var k, call := KindOf(c, item.id), Add(item);
    var t, own, theirs := u[k], RowsOf(c, db, k), RowsBut(c, db, k);
    UserFormed(c, u, db);
    UserParts(c, u, db, k);
    TableForIs(c, u, call);
    UserCountable(c, u, db, item);
    AcceptedCall(t, own, call);
    SplitRows(c, db, k);
    if HasSlots(t, item) {
      NamesApart(c, u, db, item);
      var own', gain := AddInStep(t, own, item);
      InStepParts(t, own, item.id, gain, Added(t, item).step, own');
      ReplayedAmong(own, theirs, Added(t, item).step.updates, own');
      if SlotsApart(c, u, item) { UserAdded(c, u, db, item, own', gain); }
    } else {
      assert own.Keys <= db.Keys;
      AddClashes(t, own, db, item);
    }
  }

  lemma {:induction false} UserAdded(c: Catalog, u: User, db: Db, item: Item, own': Db, gain: int)
    requires UserValid(c, u, db) && Listed(c, item) && |u| == KINDS
    requires var k := KindOf(c, item.id);
             var t' := Performed(u[k], Add(item)).table;
             own'.Keys !! RowsBut(c, db, k).Keys && Valid(t', own') && Gained(u[k], t', item.id, gain)
    ensures var k := KindOf(c, item.id);
            var db' := own' + RowsBut(c, db, k);
            OthersIntact(c, db, db', k) && UserValid(c, Served(c, u, Add(item)), db')
  {
    hide *;
    var call := Add(item);
    TableForIs(c, u, call);
    ValidParts(Performed(TableFor(c, u, call), call).table, own');
    var db' := JoinedRows(c, u, db, call, own', gain);
    UserAfter(c, u, db, call, db');
  }

  /** An accepted removal: the database always carries it out, and leaves the other kinds'
      rows alone. The user stays valid exactly when the next slot stays the lowest free one. */
  lemma {:induction false} UserRemove(c: Catalog, u: User, db: Db, item: Item) returns (db': Db)
    requires UserValid(c, u, db) && Listed(c, item) && |u| == KINDS && Accepts(u[KindOf(c, item.id)], Remove(item))
    ensures Replayed(db, Performed(u[KindOf(c, item.id)], Remove(item)).updates) == Some(db')
    ensures OthersIntact(c, db, db', KindOf(c, item.id))
    ensures UserValid(c, Served(c, u, Remove(item)), db') <==> KeepsNext(u[KindOf(c, item.id)], item.id, item.quantity)
  {
    hide *;
    var k, call := KindOf(c, item.id), Remove(item);
    var t, own, theirs := u[k], RowsOf(c, db, k), RowsBut(c, db, k);
    UserParts(c, u, db, k);
    TableForIs(c, u, call);
    UserCountable(c, u, db, item);
    AcceptedCall(t, own, call);
    SplitRows(c, db, k);
    var own' := RemoveInStep(t, own, item);
    var s := Removed(t, item).step;
    RemovedParts(t, own, item.id, item.quantity, s, own');
    ConsistentParts(s.table, own');
    RemoveNamesOwn(t, own, item, theirs);
    ReplayedAmong(own, theirs, s.updates, own');
    db' := JoinedRows(c, u, db, call, own', 0 - item.quantity);
    if KeepsNext(t, item.id, item.quantity) {
      UserAfter(c, u, db, call, db');
    } else {
      if UserValid(c, Served(c, u, call), db') { ServedValid(c, u, call, db'); }
    }
  }

  lemma {:induction false} ServedValid(c: Catalog, u: User, call: Call, db': Db)
    requires |u| == KINDS && UserValid(c, Served(c, u, call), db')
    ensures Valid(Performed(TableFor(c, u, call), call).table, RowsOf(c, db', KindOf(c, call.item.id)))
  {
    hide Valid, Performed, RowsOf, Stacked, KindOf;
    assert Served(c, u, call)[KindOf(c, call.item.id)] == Performed(TableFor(c, u, call), call).table;
  }

  lemma {:induction false} ConsistentParts(t: Table, db: Db)
    requires Consistent(t, db)
    ensures Mirrors(t, db) && Booked(t, db)
  {
  }

  lemma {:induction false} DrainedNames(t: Table, m: Slots, id: Dword, keys: seq<SlotNo>, count: Dword)
    requires Shaped(t) && KeysOf(keys, m)
    ensures Named(Drained(t, m, id, keys, count).updates) <= m.Keys
    decreases |keys|
  {
    hide *;
    DrainedTurn(t, m, id, keys, count);
    if keys == [] {
      NamedNothing();
    } else {
      var k := keys[|keys| - 1];
      NamedOne(Delete(id, k));
      if count > m[k] {
        FreedShaped(t, k);
        DrainedNames(Freed(t, k), Without(m, k), id, keys[..|keys| - 1], count - m[k]);
        NamedCons(Delete(id, k), Drained(Freed(t, k), Without(m, k), id, keys[..|keys| - 1], count - m[k]).updates);
        WithoutKeys(m, k);
      } else if count < m[k] {
        NamedOne(Change(id, k, m[k] - count));
      }
    }
  }

  lemma {:induction false} WithoutKeys(m: Slots, k: SlotNo)
    ensures Without(m, k).Keys <= m.Keys
  {
  }

  /** A removal names only slots of its item. */
  lemma {:induction false} RemoveNamesOwn(t: Table, own: Db, item: Item, theirs: Db)
    requires Valid(t, own) && own.Keys !! theirs.Keys
    requires Shaped(t) && InRange(SlotsOf(t, item.id)) && Removed(t, item).Done?
    ensures Named(Removed(t, item).step.updates) !! theirs.Keys
  {
    hide *;
    var m := SlotsOf(t, item.id);
    ValidParts(t, own);
    RemovedBranches(t, item);
    DrainedNames(t, m, item.id, Sorted(m.Keys), item.quantity);
    forall s | s in m ensures s in own { HeldInDb(t, own, item.id, s); }
  }

  // ---------- runs of calls ----------

  ghost predicate SafeRun(c: Catalog, u: User, calls: seq<Call>)
    decreases |calls|
  {
    |u| == KINDS && (calls == [] || (UserSafe(c, u, calls[0]) && SafeRun(c, Served(c, u, calls[0]), calls[1..])))
  }

  ghost function Final(c: Catalog, u: User, calls: seq<Call>): (u': User)
    requires |u| == KINDS
    ensures |u'| == KINDS
    decreases |calls|
  {
    if calls == [] then u else Final(c, Served(c, u, calls[0]), calls[1..])
  }

  /** Everything the calls send to the database. */
  ghost function Sent(c: Catalog, u: User, calls: seq<Call>): seq<Update>
    requires |u| == KINDS
    decreases |calls|
  {
    if calls == [] then []
    else Performed(TableFor(c, u, calls[0]), calls[0]).updates + Sent(c, Served(c, u, calls[0]), calls[1..])
  }

  /** What a user holds of an item. */
  ghost function Held(c: Catalog, u: User, id: Dword): nat
    requires |u| == KINDS
  {
    Sum(SlotsOf(u[KindOf(c, id)], id))
  }

  ghost function MovedByAll(c: Catalog, u: User, calls: seq<Call>, id: Dword): int
    requires |u| == KINDS
    decreases |calls|
  {
    if calls == [] then 0
    else Moved(TableFor(c, u, calls[0]), calls[0], id) + MovedByAll(c, Served(c, u, calls[0]), calls[1..], id)
  }

  /** One safe call of a user, accepted or not. */
  lemma {:induction false} UserCall(c: Catalog, u: User, db: Db, call: Call) returns (db': Db)
    requires UserValid(c, u, db) && |u| == KINDS && UserSafe(c, u, call)
    ensures Replayed(db, Performed(TableFor(c, u, call), call).updates) == Some(db')
    ensures UserValid(c, Served(c, u, call), db')
    ensures forall id :: Held(c, Served(c, u, call), id) == Held(c, u, id) + Moved(TableFor(c, u, call), call, id)
  {
    hide *;
    var k := KindOf(c, call.item.id);
    var t := u[k];
    TableForIs(c, u, call);
    SafeMeans(c, u, call);
    UserParts(c, u, db, k);
    UserCountable(c, u, db, call.item);
    var own' := SafeCall(t, RowsOf(c, db, k), call);
    forall id ensures Held(c, Served(c, u, call), id) == Held(c, u, id) + Moved(t, call, id) {
      HeldAfter(c, u, call, id);
    }
    AcceptedCall(t, RowsOf(c, db, k), call);
    CallMeans(t, call);
    if !Accepts(t, call) {
      db' := db;
      ReplayNothing(db);
      ServedNothing(c, u, call);
    } else if call.Add? {
      UserFormed(c, u, db);
      UserAdd(c, u, db, call.item);
      db' := Replayed(db, Performed(t, call).updates).value;
    } else {
      db' := UserRemove(c, u, db, call.item);
    }
  }

  lemma {:induction false} SafeMeans(c: Catalog, u: User, call: Call)
    requires |u| == KINDS && UserSafe(c, u, call)
    ensures Listed(c, call.item) && call.item.maxQuantity > 0 && Safe(TableFor(c, u, call), call)
    ensures call.Add? && Accepts(TableFor(c, u, call), call) && Formed(u) ==> SlotsApart(c, u, call.item)
  {
    hide Safe, Accepts, SlotsApart, TableFor, Formed;
  }

  lemma {:induction false} ServedNothing(c: Catalog, u: User, call: Call)
    requires |u| == KINDS && Performed(TableFor(c, u, call), call).table == TableFor(c, u, call)
    ensures Served(c, u, call) == u
  {
    hide Performed;
  }

  lemma {:induction false} HeldAfter(c: Catalog, u: User, call: Call, id: Dword)
    requires |u| == KINDS
    requires var t := u[KindOf(c, call.item.id)];
             Gained(t, Performed(t, call).table, call.item.id, Moved(t, call, call.item.id))
    ensures Held(c, Served(c, u, call), id) == Held(c, u, id) + Moved(TableFor(c, u, call), call, id)
  {
    hide Performed, SlotsOf, Sum, KindOf, Accepts;
  }

  /** Any run of safe calls: the user stays valid, the one database accepts every update and
      mirrors all tables, and no item is lost or made: each total is what it was plus all
      accepted adds minus all accepted removals. */
  lemma {:induction false} Ledger(c: Catalog, u: User, db: Db, calls: seq<Call>) returns (db': Db)
    requires UserValid(c, u, db) && SafeRun(c, u, calls)
    ensures |u| == KINDS && Replayed(db, Sent(c, u, calls)) == Some(db') && UserValid(c, Final(c, u, calls), db')
    ensures forall id :: Held(c, Final(c, u, calls), id) == Held(c, u, id) + MovedByAll(c, u, calls, id)
    decreases |calls|
  {
    if calls == [] {
      db' := db;
    } else {
      hide UserValid, UserSafe, Performed, Moved, Held, Replayed, Served;
      var first, u1 := calls[0], Served(c, u, calls[0]);
      var db1 := UserCall(c, u, db, first);
      db' := Ledger(c, u1, db1, calls[1..]);
      ReplayConcat(db, Performed(TableFor(c, u, first), first).updates, Sent(c, u1, calls[1..]), db1);
    }
  }

  lemma {:induction false} ReplayConcat(db: Db, a: seq<Update>, b: seq<Update>, db1: Db)
    requires Replayed(db, a) == Some(db1)
    ensures Replayed(db, a + b) == Replayed(db1, b)
    decreases |a|
  {
    if a == [] {
      assert a + b == b;
    } else {
      assert (a + b)[1..] == a[1..] + b;
      ReplayConcat(Executed(db, a[0]).value, a[1..], b, db1);
    }
  }

  lemma {:induction false} ReplayConcatNone(db: Db, a: seq<Update>, b: seq<Update>)
    requires Replayed(db, a) == None
    ensures Replayed(db, a + b) == None
    decreases |a|
  {
    if a != [] {
      assert (a + b)[1..] == a[1..] + b;
      if Executed(db, a[0]).Some? { ReplayConcatNone(Executed(db, a[0]).value, a[1..], b); }
    }
  }

  // ---------- loading ----------

  /** Saved rows, in whatever order the database lists them. */
  ghost predicate SavedRows(rows: seq<Update>) {
    forall i :: 0 <= i < |rows| ==> rows[i].Insert? && 1 <= rows[i].seqNo <= SLOTS
  }

  function LoadedRow(c: Catalog, u: User, row: Update): (u': User)
    requires |u| == KINDS && row.Insert? && row.seqNo <= SLOTS && Shaped(u[KindOf(c, row.id)])
    ensures |u'| == KINDS
  {
    u[KindOf(c, row.id) := Loaded(u[KindOf(c, row.id)], row.id, row.quantity, row.seqNo)]
  }

  lemma {:induction false} LoadedRowFormed(c: Catalog, u: User, row: Update)
    requires Formed(u) && row.Insert? && row.seqNo <= SLOTS
    ensures Formed(LoadedRow(c, u, row))
  {
    hide Loaded, KindOf;
  }

  function LoadedAll(c: Catalog, u: User, rows: seq<Update>): (u': User)
    requires Formed(u) && SavedRows(rows)
    ensures |u'| == KINDS
    decreases |rows|
  {
    if rows == [] then u
    else
      LoadedRowFormed(c, u, rows[0]);
      LoadedAll(c, LoadedRow(c, u, rows[0]), rows[1..])
  }

  lemma {:induction false} BooksParts(c: Catalog, u: User, db: Db, k: Kind)
    requires UserBooks(c, u, db)
    ensures |u| == KINDS && Valid(u[k], RowsOf(c, db, k)) && Shaped(u[k])
  {
    hide Mirrors, Booked, NextIsLowest, RowsOf;
    ValidParts(u[k], RowsOf(c, db, k));
  }

  lemma {:induction false} BooksFormed(c: Catalog, u: User, db: Db)
    requires UserBooks(c, u, db)
    ensures Formed(u)
  {
    forall k: Kind ensures Shaped(u[k]) { BooksParts(c, u, db, k); }
    hide Valid;
  }

  lemma {:induction false} RowsWith(c: Catalog, db: Db, s: SlotNo, row: Row, k: Kind)
    requires s !in db
    ensures RowsOf(c, db[s := row], k) == if k == KindOf(c, row.id) then RowsOf(c, db, k)[s := row] else RowsOf(c, db, k)
  {
  }

  lemma {:induction false} LoadedRowKeeps(c: Catalog, u: User, db: Db, row: Update)
    requires UserBooks(c, u, db) && row.Insert? && 1 <= row.seqNo <= SLOTS && row.seqNo !in db
    ensures Formed(u) && UserBooks(c, LoadedRow(c, u, row), db[row.seqNo := Row(row.id, row.quantity)])
  {
    BooksFormed(c, u, db);
    hide *;
    var k, r, s := KindOf(c, row.id), Row(row.id, row.quantity), row.seqNo;
    FormedShape(u, k);
    forall j: Kind ensures Valid(LoadedRow(c, u, row)[j], RowsOf(c, db[s := r], j)) {
      BooksParts(c, u, db, j);
      RowsWith(c, db, s, r, j);
      LoadedRowAt(c, u, row, j);
      NoRowOf(c, db, k, s);
      if j == k { LoadedKeeps(u[k], RowsOf(c, db, k), row.id, row.quantity, s); }
    }
    MakeBooks(c, LoadedRow(c, u, row), db[s := r]);
  }

  lemma {:induction false} FormedShape(u: User, k: Kind)
    requires Formed(u)
    ensures |u| == KINDS && Shaped(u[k])
  {
  }

  lemma {:induction false} NoRowOf(c: Catalog, db: Db, k: Kind, s: SlotNo)
    requires s !in db
    ensures s !in RowsOf(c, db, k)
  {
  }

  lemma {:induction false} LoadedRowAt(c: Catalog, u: User, row: Update, j: Kind)
    requires Formed(u) && row.Insert? && row.seqNo <= SLOTS
    ensures LoadedRow(c, u, row)[j]
         == if j == KindOf(c, row.id) then Loaded(u[j], row.id, row.quantity, row.seqNo) else u[j]
  {
    hide Loaded, KindOf;
  }

  lemma {:induction false} MakeBooks(c: Catalog, u: User, db: Db)
    requires |u| == KINDS && forall k: Kind :: Valid(u[k], RowsOf(c, db, k))
    ensures UserBooks(c, u, db)
  {
    hide Valid, RowsOf;
  }

  lemma {:induction false} LoadedAllKeeps(c: Catalog, u: User, db: Db, rows: seq<Update>, db': Db)
    requires UserBooks(c, u, db) && SavedRows(rows) && Replayed(db, rows) == Some(db')
    ensures Formed(u) && UserBooks(c, LoadedAll(c, u, rows), db')
    decreases |rows|
  {
    BooksFormed(c, u, db);
    if rows != [] {
      var r := rows[0];
      hide UserBooks, LoadedRow;
      LoadedRowKeeps(c, u, db, r);
      LoadedRowFormed(c, u, r);
      LoadedAllKeeps(c, LoadedRow(c, u, r), db[r.seqNo := Row(r.id, r.quantity)], rows[1..], db');
    }
  }

  lemma {:induction false} LoadedAllSnoc(c: Catalog, u: User, db: Db, init: seq<Update>, row: Update, db': Db)
    requires UserBooks(c, u, db) && SavedRows(init + [row]) && Replayed(db, init + [row]) == Some(db')
    ensures Formed(u) && SavedRows(init) && row.Insert? && 1 <= row.seqNo <= SLOTS
    ensures Replayed(db, init).Some? && UserBooks(c, LoadedAll(c, u, init), Replayed(db, init).value)
    ensures row.seqNo !in Replayed(db, init).value && Formed(LoadedAll(c, u, init))
    ensures db' == Replayed(db, init).value[row.seqNo := Row(row.id, row.quantity)]
    ensures LoadedAll(c, u, init + [row]) == LoadedRow(c, LoadedAll(c, u, init), row)
  {
    hide *;
    BooksFormed(c, u, db);
    SavedSnoc(init, row);
    if Replayed(db, init).None? { ReplayConcatNone(db, init, [row]); }
    var db1 := Replayed(db, init).value;
    ReplayConcat(db, init, [row], db1);
    InsertExecuted(db1, row, db');
    LoadedAllKeeps(c, u, db, init, db1);
    BooksFormed(c, LoadedAll(c, u, init), db1);
    LoadedSnoc(c, u, init, row);
  }

  lemma {:induction false} SavedSnoc(init: seq<Update>, row: Update)
    ensures SavedRows(init + [row]) <==> SavedRows(init) && row.Insert? && 1 <= row.seqNo <= SLOTS
  {
    if SavedRows(init + [row]) {
      forall i | 0 <= i < |init| ensures init[i].Insert? && 1 <= init[i].seqNo <= SLOTS {
        assert (init + [row])[i] == init[i];
      }
      assert (init + [row])[|init|] == row;
    }
  }

  lemma {:induction false} InsertExecuted(db: Db, row: Update, db': Db)
    requires row.Insert? && Replayed(db, [row]) == Some(db')
    ensures row.seqNo !in db && db' == db[row.seqNo := Row(row.id, row.quantity)]
  {
    ReplayOne(db, row);
  }

  lemma {:induction false} LoadedSnoc(c: Catalog, u: User, init: seq<Update>, row: Update)
    requires Formed(u) && SavedRows(init + [row]) && SavedRows(init) && row.Insert? && row.seqNo <= SLOTS
    requires Formed(LoadedAll(c, u, init))
    ensures LoadedAll(c, u, init + [row]) == LoadedRow(c, LoadedAll(c, u, init), row)
    decreases |init|
  {
    hide LoadedRow, Formed, SavedRows;
    if init == [] {
      assert (init + [row])[1..] == [];
    } else {
      assert (init + [row])[1..] == init[1..] + [row];
      SavedHead(init);
      SavedHead(init + [row]);
      FormedShape(u, KindOf(c, init[0].id));
      LoadedRowFormed(c, u, init[0]);
      LoadedSnoc(c, LoadedRow(c, u, init[0]), init[1..], row);
    }
  }

  lemma {:induction false} SavedHead(rows: seq<Update>)
    requires SavedRows(rows) && rows != []
    ensures SavedRows(rows[1..]) && rows[0].Insert? && 1 <= rows[0].seqNo <= SLOTS
  {
  }

  /** The slot number of the last row of a kind; 0 when there is none. */
  function LastSlot(c: Catalog, rows: seq<Update>, k: Kind): SlotNo
    decreases |rows|
  {
    if rows == [] then 0
    else
      var last := rows[|rows| - 1];
      if KindOf(c, last.id) == k then last.seqNo else LastSlot(c, rows[..|rows| - 1], k)
  }

  lemma {:induction false} LastSlotSnoc(c: Catalog, init: seq<Update>, row: Update, k: Kind)
    ensures LastSlot(c, init + [row], k) == if KindOf(c, row.id) == k then row.seqNo else LastSlot(c, init, k)
  {
    assert (init + [row])[..|init|] == init;
  }

  /** Loading fills a kind's table with its last row, and `next` is left on that row's slot. */
  lemma {:induction false} FilledByLast(c: Catalog, u: User, db: Db, rows: seq<Update>, db': Db, k: Kind)
    requires UserBooks(c, u, db) && SavedRows(rows) && Replayed(db, rows) == Some(db')
    requires |RowsOf(c, db, k)| < SLOTS == |RowsOf(c, db', k)|
    ensures Formed(u) && LoadedAll(c, u, rows)[k].next == LastSlot(c, rows, k)
    decreases |rows|
  {
    hide *;
    BooksFormed(c, u, db);
    if rows == [] {
      ReplayNothing(db);
    } else {
      var init, row := rows[..|rows| - 1], rows[|rows| - 1];
      assert rows == init + [row];
      LoadedAllSnoc(c, u, db, init, row, db');
      var u1, db1 := LoadedAll(c, u, init), Replayed(db, init).value;
      LastSlotSnoc(c, init, row, k);
      LoadedRowAt(c, u1, row, k);
      RowsWith(c, db1, row.seqNo, Row(row.id, row.quantity), k);
      if KindOf(c, row.id) == k {
        NoRowOf(c, db1, k, row.seqNo);
        BooksParts(c, u1, db1, k);
        OneMoreRow(u1[k], RowsOf(c, db1, k), row.seqNo, Row(row.id, row.quantity));
        LoadedLast(u1[k], RowsOf(c, db1, k), row.id, row.quantity, row.seqNo);
      } else {
        FilledByLast(c, u, db, init, db1, k);
      }
    }
  }

  lemma {:induction false} OneMoreRow(t: Table, db: Db, s: SlotNo, row: Row)
    requires Valid(t, db) && s !in db && |db[s := row]| == SLOTS
    ensures t.usable == 1
  {
    assert |db[s := row]| == |db| + 1;
    ValidParts(t, db);
    hide Valid, Mirrors, NextIsLowest;
  }

  /** A user who has just come in. */
  const NEW_USER: User := [EMPTY, EMPTY, EMPTY, EMPTY, EMPTY]

  lemma {:induction false} NewUserValid(c: Catalog)
    ensures UserValid(c, NEW_USER, map[]) && Formed(NEW_USER)
  {
    EmptyIsValid();
    forall k: Kind ensures RowsOf(c, map[], k) == map[] && NEW_USER[k] == EMPTY {}
    hide Valid, EMPTY, RowsOf;
    MakeBooks(c, NEW_USER, map[]);
    BooksFormed(c, NEW_USER, map[]);
  }

  /** Logging out and in again: loading the saved rows of all kinds, in any order, into a new
      user rebuilds every table slot for slot. Only the next slot of a full table may be
      another: it is that of the kind's last row in the list. */
  lemma {:induction false} Reload(c: Catalog, u: User, db: Db, rows: seq<Update>, k: Kind)
    requires UserBooks(c, u, db) && SavedRows(rows) && Replayed(map[], rows) == Some(db)
    ensures |u| == KINDS && Formed(NEW_USER)
    ensures |RowsOf(c, db, k)| < SLOTS ==> LoadedAll(c, NEW_USER, rows)[k] == u[k]
    ensures |RowsOf(c, db, k)| >= SLOTS ==> LoadedAll(c, NEW_USER, rows)[k] == u[k].(next := LastSlot(c, rows, k))
  {
    hide *;
    NewUserValid(c);
    UserParts(c, NEW_USER, map[], k);
    LoadedAllKeeps(c, NEW_USER, map[], rows, db);
    BooksParts(c, u, db, k);
    BooksParts(c, LoadedAll(c, NEW_USER, rows), db, k);
    ValidIsUnique(LoadedAll(c, NEW_USER, rows)[k], u[k], RowsOf(c, db, k));
    if |RowsOf(c, db, k)| >= SLOTS {
      AtMostSlots(u[k], RowsOf(c, db, k));
      NoRows(c, k);
      FilledByLast(c, NEW_USER, map[], rows, db, k);
      SameButNext(LoadedAll(c, NEW_USER, rows)[k], u[k]);
    }
  }

  lemma {:induction false} SameButNext(a: Table, b: Table)
    requires a.(next := b.next) == b
    ensures a == b.(next := a.next)
  {
  }

  lemma {:induction false} NoRows(c: Catalog, k: Kind)
    ensures RowsOf(c, map[], k) == map[] && |RowsOf(c, map[], k)| < SLOTS
  {
  }

  lemma {:induction false} AtMostSlots(t: Table, db: Db)
    requires Valid(t, db)
    ensures |db| <= SLOTS
  {
  }

  // ---------- two kinds on one slot ----------

  lemma {:induction false} NewTableAdd(c: Catalog, item: Item)
    requires Listed(c, item)
    ensures item.maxQuantity > 0 && Shaped(EMPTY) && EMPTY.next == 1 <= SLOTS
    ensures NewSlots(EMPTY, item) > 0 && AmongLowest(EMPTY, NewSlots(EMPTY, item), 1)
  {
    EmptySum();
    assert SlotsOf(EMPTY, item.id) == map[];
    hide Sum, SlotsFilled;
    Quotient(0, 0, item.maxQuantity, 0);
  }

  lemma {:induction false} NewUserTables(k: Kind)
    ensures |NEW_USER| == KINDS && NEW_USER[k] == EMPTY
  {
    hide EMPTY;
  }

  lemma {:induction false} ServedTable(c: Catalog, u: User, call: Call, j: Kind)
    requires |u| == KINDS
    ensures Served(c, u, call)[j]
         == if j == KindOf(c, call.item.id) then Performed(TableFor(c, u, call), call).table else u[j]
  {
    hide Performed, KindOf;
  }

  lemma {:induction false} FillingTakes(t: Table, id: Dword, max: Dword, count: Dword, s: SlotNo)
    requires Shaped(t) && max > 0 && s <= SLOTS
    requires !t.available[s] || s == t.next
    ensures !InsertedAll(t, id, max, count).table.available[s]
    decreases count
  {
    if count >= max { FillingTakes(Inserted(t, id, max), id, max, count - max, s); }
  }

  /** The first add to a new table takes slot 1. */
  lemma {:induction false} FirstSlotTaken(c: Catalog, item: Item)
    requires Listed(c, item) && Accepts(EMPTY, Add(item))
    ensures Shaped(Performed(EMPTY, Add(item)).table) && !Performed(EMPTY, Add(item)).table.available[1]
  {
    hide *;
    EmptyIsValid();
    NewTableAdd(c, item);
    NewTableCountable(c, item);
    AcceptedCall(EMPTY, map[], Add(item));
    AddWhole(EMPTY, map[], item);
    FillingTakes(EMPTY, item.id, item.maxQuantity, item.quantity, 1);
  }

  lemma {:induction false} NewTableCountable(c: Catalog, item: Item)
    requires Listed(c, item)
    ensures Countable(EMPTY, item) && RestHeld(EMPTY, item) == 0
  {
    EmptySum();
    assert SlotsOf(EMPTY, item.id) == map[];
    hide Sum;
    Quotient(0, 0, item.maxQuantity, 0);
  }

  /** The first item of one kind and the first of another both take slot 1: whatever a new
      user is given of two kinds, the database refuses the second. */
  lemma {:induction false} SecondKindClashes(c: Catalog, a: Item, b: Item)
    requires Listed(c, a) && Listed(c, b) && KindOf(c, a.id) != KindOf(c, b.id)
    requires Accepts(EMPTY, Add(a)) && Accepts(EMPTY, Add(b))
    ensures Replayed(map[], Performed(EMPTY, Add(a)).updates + Performed(EMPTY, Add(b)).updates) == None
  {
    hide *;
    var first, second := Performed(EMPTY, Add(a)).updates, Performed(EMPTY, Add(b)).updates;
    NewUserValid(c);
    NewUserTables(KindOf(c, a.id));
    NewUserTables(KindOf(c, b.id));
    UserAdd(c, NEW_USER, map[], a);
    match Replayed(map[], first)
    case None => ReplayConcatNone(map[], first, second);
    case Some(db) =>
      ReplayConcat(map[], first, second, db);
      var u := Served(c, NEW_USER, Add(a));
      ServedTable(c, NEW_USER, Add(a), KindOf(c, b.id));
      ServedTable(c, NEW_USER, Add(a), KindOf(c, a.id));
      TableForIs(c, NEW_USER, Add(a));
      FirstSlotTaken(c, a);
      NewTableAdd(c, b);
      UserAdd(c, u, db, b);
      if SlotsApart(c, u, b) { ApartMeans(c, u, b, 1); }
  }

  /** One token and one box, as the item list has them, are enough. */
  lemma {:induction false} TokenThenBoxClashes()
    ensures var token, box := Item(1, 2, 1), Item(334, 999, 1);
            Replayed(map[], Performed(EMPTY, Add(token)).updates + Performed(EMPTY, Add(box)).updates) == None
  {
    var c := map[1 := Listing(1, 2), 334 := Listing(2, 999)];
    var token, box := Item(1, 2, 1), Item(334, 999, 1);
    assert Listed(c, token) && Listed(c, box) && KindOf(c, 1) != KindOf(c, 334);
    assert Capacity(EMPTY, 2) == 256 && Capacity(EMPTY, 999) == 127872;
    hide *;
    RoomForMeans(EMPTY, token);
    RoomForMeans(EMPTY, box);
    CallMeans(EMPTY, Add(token));
    CallMeans(EMPTY, Add(box));
    SecondKindClashes(c, token, box);
  }
}
