/** The inventory operations as the server runs them: in place, with their loops. */
module ItemTables {
  import opened Words
  import opened OrderedKeys
  import opened Inventory
  import opened InventoryBooks
  import opened InventoryAdding
  import opened InventoryRemoving

  class ItemTable {
    var slots: map<Dword, Slots>
    const available: array<bool>
    var next: Dword
    var usable: Dword

    ghost predicate Sound()
      reads this
    {
      available.Length == SLOTS + 1 && next <= SLOTS
    }

    ghost function Value(): (t: Table)
      reads this, available
      requires Sound()
      ensures Shaped(t)
    {
      Table(slots, available[..], next, usable)
    }

    function Held(id: Dword): (m: Slots)
      reads this, available
      ensures Sound() ==> m == SlotsOf(Value(), id)
    {
      if id in slots then slots[id] else map[]
    }

    function FreeRoom(max: Dword): (r: nat)
      reads this, available
      ensures Sound() ==> r == Capacity(Value(), max)
    {
      usable * max
    }

    constructor ()
      ensures Sound() && fresh(available) && Value() == EMPTY
      ensures slots == map[] && next == 1 && usable == 128
      ensures available.Length == 129 && forall i :: 0 <= i < 129 ==> available[i]
    {
      slots := map[];
      available := new bool[SLOTS + 1](_ => true);
      next, usable := 1, SLOTS;
    }

    method Clear()
      requires Sound()
      modifies this, available
      ensures Sound() && Value() == EMPTY
    {
      slots := map[];
      forall i | 0 <= i < available.Length {
        available[i] := true;
      }
      next, usable := 1, SLOTS;
    }

    method GetItemQuantity(id: Dword) returns (total: Dword)
      requires Sound()
      ensures total == Quantity(Value(), id)
    {
      total := 0;
      if id in slots {
        total := Total(slots[id]);
      }
      hide Sum;
      EmptySum();
    }

    /** The adding loop. */
    static method Total(m: Slots) returns (total: Dword)
      ensures total == LowDword(Sum(m))
    {
      total := 0;
      var keys: seq<SlotNo> := Sorted(m.Keys);
      ghost var rest := m;
      hide *;
      SumStart(m);
      for i := 0 to |keys|
        invariant Summing(m, rest, keys[i..], total)
      {
        SumTurnAt(m, rest, keys, i, total);
        rest := Without(rest, keys[i]);
        total := LowDword(total + m[keys[i]]);
      }
      SumEnd(m, rest, keys[|keys|..], total);
    }

    method IsAddItem(item: Item) returns (ok: bool)
      requires Sound() && item.maxQuantity > 0
      ensures ok == CanAdd(Value(), item)
    {
      var total := GetItemQuantity(item.id);
      ok := LowDword(FreeRoom(item.maxQuantity) + item.maxQuantity - Rest(total, item.maxQuantity)) >= item.quantity;
    }

    /** The first free slot number after `from`, or `from` when there is none. */
    method LaterFree(from: nat) returns (i: nat)
      requires Sound() && from <= SLOTS
      ensures i == (var later := NextFree(available[..], from + 1); if later <= SLOTS then later else from)
    {
      i := from + 1;
      while i <= SLOTS
        invariant from < i <= SLOTS + 1
        invariant NextFree(available[..], from + 1) == NextFree(available[..], i)
      {
        if available[i] {
          return;
        }
        i := i + 1;
      }
      i := from;
    }

    method GetNextSlotSeq() returns (taken: SlotNo)
      requires Sound()
      modifies this`next, this`usable, available
      ensures Sound() && taken == old(next) && Value() == Taken(old(Value()))
    {
      taken := next;
      next := LaterFree(next);
      usable := LowDword(usable - 1);
      available[taken] := false;
    }

    method InsertSlot(id: Dword, quantity: Dword) returns (u: Update)
      requires Sound()
      modifies this`slots, this`next, this`usable, available
      ensures Sound() && Value() == Inserted(old(Value()), id, quantity) && u == Insert(id, old(next), quantity)
    {
      var seqNo := GetNextSlotSeq();
      slots := slots[id := Held(id)[seqNo := quantity]];
      u := Insert(id, seqNo, quantity);
    }

    /** The loop that `addItem` runs in two places. */
    method InsertMany(id: Dword, max: Dword, count: Dword) returns (updates: seq<Update>)
      requires Sound() && max > 0
      modifies this`slots, this`next, this`usable, available
      ensures Sound() && Step(Value(), updates) == InsertedAll(old(Value()), id, max, count)
    {
      updates := [];
      var addCount: Dword := count;
      ghost var t0 := Value();
      FillStart(t0, id, max, count);
      while addCount >= max
        invariant Sound() && FillingAt(t0, id, max, count, Value(), addCount, updates)
        decreases addCount
      {
        hide *;
        FillTurn(t0, id, max, count, Value(), addCount, updates);
        var u := InsertSlot(id, max);
        updates := updates + [u];
        addCount := addCount - max;
      }
      hide *;
      FillEnd(t0, id, max, count, Value(), addCount, updates);
      var last := InsertSlot(id, addCount);
      updates := updates + [last];
    }

    /** None is `nullopt`. An item whose total is no multiple of `max` must have an open
        slot; the source returns nothing otherwise. */
    method AddItem(item: Item) returns (updates: Option<seq<Update>>)
      requires Sound() && item.maxQuantity > 0 && Added(Value(), item) != Undefined
      modifies this`slots, this`next, this`usable, available
      ensures Sound()
      ensures match Added(old(Value()), item)
              case Done(s) => updates == Some(s.updates) && Value() == s.table
              case _ => updates == None && Value() == old(Value())
    {
      hide Added, InsertedAll, ToppedUp, Rest, LowDword, Quantity, OpenSlot, SlotsOf, Capacity, FreeRoom, Held;
      var id, max := item.id, item.maxQuantity;
      AddedBranches(Value(), item);
      RestBelow(Quantity(Value(), id), max);
      var total := GetItemQuantity(id);
      var rest := Rest(total, max);
      if rest == 0 {
        if LowDword(FreeRoom(max)) >= item.quantity {
          var inserted := InsertMany(id, max, item.quantity);
          return Some(inserted);
        }
        return None;
      }
      if LowDword(FreeRoom(max) + max - rest) < item.quantity {
        return None;
      }
      var open := FindOpen(Held(id), max);
      var ups := TopUp(item, open, rest);
      return Some(ups);
    }

    /** The search for the first slot that is not full. */
    method FindOpen(m: Slots, max: Dword) returns (open: SlotNo)
      requires OpenSlot(m, max).Some?
      ensures OpenSlot(m, max) == Some(open)
    {
      var keys: seq<SlotNo> := Sorted(m.Keys);
      var i := 0;
      assert keys[0..] == keys;
      while m[keys[i]] == max
        invariant 0 <= i < |keys| && (forall j :: 0 <= j < |keys| ==> keys[j] in m)
        invariant i + FirstOpen(m, keys[i..], max) == FirstOpen(m, keys, max) < |keys|
        decreases |keys| - i
      {
        assert keys[i..][1..] == keys[i + 1..];
        i := i + 1;
      }
      open := keys[i];
    }

    /** Sets the quantity of one slot of an item. */
    method PutSlot(id: Dword, seqNo: SlotNo, quantity: Dword)
      requires Sound()
      modifies this`slots
      ensures Sound() && Value() == Put(old(Value()), id, seqNo, quantity)
    {
      slots := slots[id := Held(id)[seqNo := quantity]];
    }

    method TopUp(item: Item, open: SlotNo, rest: nat) returns (updates: seq<Update>)
      requires Sound() && item.maxQuantity > 0 && open in SlotsOf(Value(), item.id) && rest < item.maxQuantity
      modifies this`slots, this`next, this`usable, available
      ensures Sound() && Step(Value(), updates) == ToppedUp(old(Value()), item, open, rest)
    {
      hide InsertedAll, Put, SlotsOf, LowDword, Value, Sound;
      var id, max := item.id, item.maxQuantity;
      var m: Slots := Held(id);
      var filled := LowDword(m[open] + item.quantity);
      if max >= filled {
        PutSlot(id, open, filled);
        return [Change(id, open, filled)];
      }
      PutSlot(id, open, max);
      var more := InsertMany(id, max, LowDword(item.quantity - (max - rest)));
      return [Change(id, open, max)] + more;
    }

    method DeleteSlot(id: Dword, seqNo: SlotNo) returns (u: Update)
      requires Sound() && seqNo <= SLOTS
      modifies this`next, this`usable, available
      ensures Sound() && Value() == Freed(old(Value()), seqNo) && u == Delete(id, seqNo)
    {
      available[seqNo] := true;
      usable := LowDword(usable + 1);
      next := Min(next, seqNo);
      u := Delete(id, seqNo);
    }

    /** Deletes a slot, counts it and notes the update. */
    method CountDeleted(id: Dword, seqNo: SlotNo, slotDeleteCount: Dword, ups: seq<Update>)
      returns (counted: Dword, noted: seq<Update>)
      requires Sound() && seqNo <= SLOTS
      modifies this`next, this`usable, available
      ensures Sound() && Value() == Freed(old(Value()), seqNo)
      ensures counted == LowDword(slotDeleteCount + 1) && noted == ups + [Delete(id, seqNo)]
    {
      hide *;
      counted := LowDword(slotDeleteCount + 1);
      var u := DeleteSlot(id, seqNo);
      noted := ups + [u];
    }

    /** The slots emptied by the loop are erased together afterwards, which is why their
        count starts at minus one. */
    method RemoveItem(item: Item) returns (updates: Option<seq<Update>>)
      requires Sound() && InRange(SlotsOf(Value(), item.id))
      modifies this, available
      ensures Sound()
      ensures match Removed(old(Value()), item)
              case Done(s) => updates == Some(s.updates) && Value() == s.table
              case _ => updates == None && Value() == old(Value())
    {
      hide *;
      var id := item.id;
      RemovedBranches(Value(), item);
      var total := GetItemQuantity(id);
      QuantityOf(Value(), id, SlotsOf(Value(), id));
      if total < item.quantity {
        return None;
      }
      var m := Held(id);
      var keys: seq<SlotNo> := Sorted(m.Keys);
      ghost var t0 := Value();
      var slot, ups, slotDeleteCount := DrainSlots(id, m, keys, item.quantity);
      DrainDoneMeans(t0, m, id, keys, item.quantity, Value(), slot, ups, slotDeleteCount);
      if slotDeleteCount != 0xFFFF_FFFF {
        slot := Erased(slot, keys[|keys| - 1 - slotDeleteCount..]);
      } else {
        ErasedNothing(slot, keys);
      }
      StoreSlots(id, slot);
      return Some(ups);
    }

    /** An item left without slots is no longer held. */
    method StoreSlots(id: Dword, slot: Slots)
      requires Sound()
      modifies this`slots
      ensures Sound() && Value() == WithSlots(old(Value()), id, slot)
    {
      slots := if slot == map[] then slots - {id} else slots[id := slot];
    }

    /** The loop over the slots from the last to the first. */
    method DrainSlots(id: Dword, slots0: Slots, keys: seq<SlotNo>, count: Dword)
      returns (slot: Slots, ups: seq<Update>, slotDeleteCount: Dword)
      requires Sound() && KeysOf(keys, slots0)
      modifies this`next, this`usable, available
      ensures Sound()
      ensures DrainDone(old(Value()), slots0, id, keys, count, Value(), slot, ups, slotDeleteCount)
    {
      ups, slotDeleteCount := [], 0xFFFF_FFFF;
      hide *;
      ghost var t0, t := Value(), Value();
      var removeCount: Dword := count;
      var i: nat := |keys|;
      DrainStart(t, slots0, id, keys, count);
      while i > 0
        invariant Sound() && t == Value()
        invariant DrainingAt(t0, slots0, id, keys, count, t, i, removeCount, ups, slotDeleteCount)
      {
        assert Sound();
        DrainKey(t0, slots0, id, keys, count, t, i, removeCount, ups, slotDeleteCount);
        var slotSeq := keys[i - 1];
        var slotQuantity := slots0[slotSeq];
        if removeCount > slotQuantity {
          DrainMore(t0, slots0, id, keys, count, t, i, removeCount, ups, slotDeleteCount);
          removeCount := removeCount - slotQuantity;
          slotDeleteCount, ups := CountDeleted(id, slotSeq, slotDeleteCount, ups);
          t := Freed(t, slotSeq);
          i := i - 1;
        } else if removeCount == slotQuantity {
          DrainExactly(t0, slots0, id, keys, count, t, i, removeCount, ups, slotDeleteCount);
          slotDeleteCount, ups := CountDeleted(id, slotSeq, slotDeleteCount, ups);
          return slots0, ups, slotDeleteCount;
        } else {
          DrainPartly(t0, slots0, id, keys, count, t, i, removeCount, ups, slotDeleteCount);
          ups := ups + [Change(id, slotSeq, slotQuantity - removeCount)];
          return slots0[slotSeq := slotQuantity - removeCount], ups, slotDeleteCount;
        }
      }
      DrainEnd(t0, slots0, id, keys, count, t, removeCount, ups, slotDeleteCount);
      slot := slots0;
    }

    /** Loads one row. */
    method SetItem(id: Dword, quantity: Dword, seqNo: SlotNo)
      requires Sound() && seqNo <= SLOTS
      modifies this, available
      ensures Sound() && Value() == Loaded(old(Value()), id, quantity, seqNo)
    {
      hide Put, NextFree, LowDword;
      PutSlot(id, seqNo, quantity);
      available[seqNo] := false;
      usable := LowDword(usable - 1);
      if next == seqNo {
        next := LaterFree(next);
      } else {
        next := Min(next, seqNo);
      }
    }
  }

  // ---------- the loops' proofs ----------

  /** What the inserting loop still has to do completes what it has done. */
  ghost predicate FillingAt(t0: Table, id: Dword, max: Dword, count: Dword, t: Table, left: Dword, updates: seq<Update>)
    requires max > 0
  {
    && Shaped(t0) && Shaped(t)
    && var s := InsertedAll(t, id, max, left);
       InsertedAll(t0, id, max, count) == Step(s.table, updates + s.updates)
  }

  lemma {:induction false} FillStart(t: Table, id: Dword, max: Dword, count: Dword)
    requires Shaped(t) && max > 0
    ensures FillingAt(t, id, max, count, t, count, [])
  {
    hide InsertedAll;
  }

  lemma {:induction false} FillTurn(t0: Table, id: Dword, max: Dword, count: Dword, t: Table, left: Dword,
                                    updates: seq<Update>)
    requires 0 < max <= left && FillingAt(t0, id, max, count, t, left, updates)
    ensures Shaped(t)
    ensures FillingAt(t0, id, max, count, Inserted(t, id, max), left - max, updates + [Insert(id, t.next, max)])
  {
    InsertedAllMore(t, id, max, left);
    hide InsertedAll, Inserted;
    var u, s := Insert(id, t.next, max), InsertedAll(Inserted(t, id, max), id, max, left - max);
    assert updates + ([u] + s.updates) == (updates + [u]) + s.updates;
  }

  lemma {:induction false} FillEnd(t0: Table, id: Dword, max: Dword, count: Dword, t: Table, left: Dword,
                                   updates: seq<Update>)
    requires left < max && FillingAt(t0, id, max, count, t, left, updates)
    ensures Shaped(t0) && Shaped(t)
    ensures InsertedAll(t0, id, max, count) == Step(Inserted(t, id, left), updates + [Insert(id, t.next, left)])
  {
    InsertedAllLast(t, id, max, left);
    hide InsertedAll, Inserted;
  }

  /** `rest` are the slots still to add, and `keys` their numbers in order. */
  ghost predicate Summing(m: Slots, rest: Slots, keys: seq<SlotNo>, total: Dword) {
    && keys == Sorted(rest.Keys)
    && (forall k :: k in rest ==> k in m && rest[k] == m[k])
    && LowDword(total + Sum(rest)) == LowDword(Sum(m))
  }

  lemma {:induction false} SumStart(m: Slots)
    ensures var keys: seq<SlotNo> := Sorted(m.Keys); Summing(m, m, keys[0..], 0)
  {
    hide Sorted, Sum;
  }

  lemma {:induction false} SumTurn(m: Slots, rest: Slots, keys: seq<SlotNo>, total: Dword)
    requires Summing(m, rest, keys, total) && keys != []
    ensures keys[0] in m && Summing(m, Without(rest, keys[0]), keys[1..], LowDword(total + m[keys[0]]))
  {
    hide Sum, Sorted, LowDword;
    SortedTurn(rest, keys);
    var k := keys[0];
    SumWithout(rest, k);
    LowDwordAdd(total + m[k], Sum(Without(rest, k)));
  }

  lemma {:induction false} SumTurnAt(m: Slots, rest: Slots, keys: seq<SlotNo>, i: nat, total: Dword)
    requires i < |keys| && Summing(m, rest, keys[i..], total)
    ensures keys[i] in m && Summing(m, Without(rest, keys[i]), keys[i + 1..], LowDword(total + m[keys[i]]))
  {
    hide *;
    var here := keys[i..];
    assert here[0] == keys[i] && here[1..] == keys[i + 1..];
    SumTurn(m, rest, here, total);
  }

  lemma {:induction false} SortedTurn(rest: Slots, keys: seq<SlotNo>)
    requires keys == Sorted(rest.Keys) && keys != []
    ensures keys[0] in rest && keys[1..] == Sorted(Without(rest, keys[0]).Keys)
  {
    var k := Least(rest.Keys);
    assert Without(rest, k).Keys == rest.Keys - {k};
    assert keys == [k] + Sorted(rest.Keys - {k});
  }

  lemma {:induction false} NothingLeft(rest: Slots, keys: seq<SlotNo>)
    requires keys == Sorted(rest.Keys) && keys == []
    ensures rest == map[] && Sum(rest) == 0
  {
    hide Sum;
    assert |rest.Keys| == 0;
    assert rest == map[];
    EmptySum();
  }

  lemma {:induction false} SumEnd(m: Slots, rest: Slots, keys: seq<SlotNo>, total: Dword)
    requires Summing(m, rest, keys, total) && keys == []
    ensures total == LowDword(Sum(m))
  {
    hide Sum, Sorted, LowDword;
    NothingLeft(rest, keys);
    LowIsExact(total);
  }

  lemma {:induction false} QuantityOf(t: Table, id: Dword, m: Slots)
    requires SlotsOf(t, id) == m
    ensures Quantity(t, id) == LowDword(Sum(m))
  {
  }

  /** `addItem` branch by branch. */
  lemma {:induction false} AddedBranches(t: Table, item: Item)
    requires Shaped(t) && item.maxQuantity > 0
    ensures var id, max := item.id, item.maxQuantity;
            var rest := Rest(Quantity(t, id), max);
            && (rest == 0 && LowDword(Capacity(t, max)) >= item.quantity ==>
                  Added(t, item) == Done(InsertedAll(t, id, max, item.quantity)))
            && (rest == 0 && LowDword(Capacity(t, max)) < item.quantity ==> Added(t, item) == Rejected)
            && (rest != 0 && LowDword(Capacity(t, max) + max - rest) < item.quantity ==> Added(t, item) == Rejected)
            && (rest != 0 && LowDword(Capacity(t, max) + max - rest) >= item.quantity ==>
                  match OpenSlot(SlotsOf(t, id), max)
                  case None => Added(t, item) == Undefined
                  case Some(s) => s in SlotsOf(t, id) && Added(t, item) == Done(ToppedUp(t, item, s, rest)))
  {
  }

  lemma {:induction false} RestBelow(total: nat, max: nat)
    requires max > 0
    ensures Rest(total, max) < max
  {
  }

  function Erased(m: Slots, keys: seq<SlotNo>): Slots {
    m - (set k | k in keys)
  }

  lemma {:induction false} ErasedNothing(m: Slots, keys: seq<SlotNo>)
    ensures Erased(m, keys[|keys|..]) == m
  {
  }

  /** The loop's count of emptied slots, less one, in 32 bits. */
  function Deletions(keys: seq<SlotNo>, i: nat): Dword
    requires i <= |keys| <= 129
  {
    if i == |keys| then 0xFFFF_FFFF else |keys| - i - 1
  }

  lemma {:induction false} CountingUp(keys: seq<SlotNo>, i: nat)
    requires 0 < i <= |keys| <= 129
    ensures LowDword(Deletions(keys, i) + 1) == Deletions(keys, i - 1)
  {
  }

  lemma {:induction false} FewKeys(keys: seq<SlotNo>, m: Slots)
    requires KeysOf(keys, m)
    ensures |keys| <= 129
  {
    if keys != [] { AscendingBound(keys, |keys| - 1); }
  }

  lemma {:induction false} AscendingBound(keys: seq<SlotNo>, i: nat)
    requires Ascending(keys) && i < |keys|
    ensures keys[i] >= i
    decreases i
  {
    if i > 0 { AscendingBound(keys, i - 1); }
  }

  /** The loop has emptied the slots from position `i` on, and counted them. */
  ghost predicate DrainingAt(t0: Table, m: Slots, id: Dword, keys: seq<SlotNo>, count: Dword,
                             t: Table, i: nat, left: Dword, ups: seq<Update>, deletions: Dword)
  {
    && Shaped(t0) && Shaped(t) && i <= |keys| <= 129 && deletions == Deletions(keys, i)
    && KeysOf(keys, m) && KeysOf(keys[..i], Erased(m, keys[i..]))
    && var d := Drained(t, Erased(m, keys[i..]), id, keys[..i], left);
       Drained(t0, m, id, keys, count) == Drain(d.table, d.left, ups + d.updates)
  }

  /** The loop has ended: erasing the counted slots from `slot` completes the removal. */
  ghost predicate DrainDone(t0: Table, m: Slots, id: Dword, keys: seq<SlotNo>, count: Dword,
                            t: Table, slot: Slots, ups: seq<Update>, deletions: Dword)
  {
    && Shaped(t0) && KeysOf(keys, m)
    && (deletions == 0xFFFF_FFFF || deletions < |keys|)
    && var first := if deletions == 0xFFFF_FFFF then |keys| else |keys| - 1 - deletions;
       Drained(t0, m, id, keys, count) == Drain(t, Erased(slot, keys[first..]), ups)
  }

  lemma {:induction false} DrainDoneMeans(t0: Table, m: Slots, id: Dword, keys: seq<SlotNo>, count: Dword,
                                          t: Table, slot: Slots, ups: seq<Update>, deletions: Dword)
    requires DrainDone(t0, m, id, keys, count, t, slot, ups, deletions)
    ensures Shaped(t0) && KeysOf(keys, m) && (deletions == 0xFFFF_FFFF || deletions < |keys|)
    ensures var first := if deletions == 0xFFFF_FFFF then |keys| else |keys| - 1 - deletions;
            Drained(t0, m, id, keys, count) == Drain(t, Erased(slot, keys[first..]), ups)
  {
  }

  lemma {:induction false} MakeDrainDone(t0: Table, m: Slots, id: Dword, keys: seq<SlotNo>, count: Dword,
                                         t: Table, slot: Slots, ups: seq<Update>, i: nat)
    requires Shaped(t0) && KeysOf(keys, m) && i <= |keys| <= 129
    requires Drained(t0, m, id, keys, count) == Drain(t, Erased(slot, keys[i..]), ups)
    ensures DrainDone(t0, m, id, keys, count, t, slot, ups, Deletions(keys, i))
  {
  }

  lemma {:induction false} DrainStart(t: Table, m: Slots, id: Dword, keys: seq<SlotNo>, count: Dword)
    requires Shaped(t) && KeysOf(keys, m)
    ensures DrainingAt(t, m, id, keys, count, t, |keys|, count, [], 0xFFFF_FFFF)
    ensures Erased(m, keys[|keys|..]) == m
  {
    FewKeys(keys, m);
    assert keys[..|keys|] == keys;
    assert Erased(m, keys[|keys|..]) == m;
    hide Drained, KeysOf;
  }

  lemma {:induction false} ErasedTurn(m: Slots, keys: seq<SlotNo>, i: nat)
    requires KeysOf(keys, m) && 0 < i <= |keys|
    ensures var k, left := keys[i - 1], Erased(m, keys[i..]);
            && k in m && k in left && left[k] == m[k] && k <= SLOTS
            && Without(left, k) == Erased(m, keys[i - 1..])
            && KeysOf(keys[..i - 1], Without(left, k))
  {
  }

  lemma {:induction false} ErasedUpdate(m: Slots, keys: seq<SlotNo>, i: nat, q: Dword)
    requires KeysOf(keys, m) && 0 < i <= |keys|
    ensures Erased(m, keys[i..])[keys[i - 1] := q] == Erased(m[keys[i - 1] := q], keys[i..])
  {
  }

  /** One turn of the loop: the slot it looks at, and its three branches. */
  lemma {:induction false} DrainKey(t0: Table, m: Slots, id: Dword, keys: seq<SlotNo>, count: Dword,
                                    t: Table, i: nat, left: Dword, ups: seq<Update>, deletions: Dword)
    requires DrainingAt(t0, m, id, keys, count, t, i, left, ups, deletions) && 0 < i
    ensures Shaped(t) && i <= |keys| && keys[i - 1] in m && keys[i - 1] <= SLOTS
  {
    hide *;
    DrainingAtParts(t0, m, id, keys, count, t, i, left, ups, deletions);
    ErasedTurn(m, keys, i);
  }

  lemma {:induction false} DrainMore(t0: Table, m: Slots, id: Dword, keys: seq<SlotNo>, count: Dword,
                                     t: Table, i: nat, left: Dword, ups: seq<Update>, deletions: Dword)
    requires DrainingAt(t0, m, id, keys, count, t, i, left, ups, deletions) && 0 < i <= |keys|
    requires keys[i - 1] in m && keys[i - 1] <= SLOTS && left > m[keys[i - 1]] && Shaped(t)
    ensures var k := keys[i - 1];
            DrainingAt(t0, m, id, keys, count, Freed(t, k), i - 1, left - m[k], ups + [Delete(id, k)], LowDword(deletions + 1))
  {
    hide *;
    var k, now := DrainAt(t0, m, id, keys, count, t, i, left, ups, deletions);
    var d := Drained(Freed(t, k), Without(now, k), id, keys[..i - 1], left - m[k]);
    assert ups + ([Delete(id, k)] + d.updates) == (ups + [Delete(id, k)]) + d.updates;
    MakeDrainingAt(t0, m, id, keys, count, Freed(t, k), i - 1, left - m[k], ups + [Delete(id, k)]);
  }

  lemma {:induction false} DrainExactly(t0: Table, m: Slots, id: Dword, keys: seq<SlotNo>, count: Dword,
                                        t: Table, i: nat, left: Dword, ups: seq<Update>, deletions: Dword)
    requires DrainingAt(t0, m, id, keys, count, t, i, left, ups, deletions) && 0 < i <= |keys|
    requires keys[i - 1] in m && keys[i - 1] <= SLOTS && left == m[keys[i - 1]] && Shaped(t)
    ensures var k := keys[i - 1];
            DrainDone(t0, m, id, keys, count, Freed(t, k), m, ups + [Delete(id, k)], LowDword(deletions + 1))
  {
    hide *;
    var k, now := DrainAt(t0, m, id, keys, count, t, i, left, ups, deletions);
    MakeDrainDone(t0, m, id, keys, count, Freed(t, k), m, ups + [Delete(id, k)], i - 1);
  }

  lemma {:induction false} DrainPartly(t0: Table, m: Slots, id: Dword, keys: seq<SlotNo>, count: Dword,
                                       t: Table, i: nat, left: Dword, ups: seq<Update>, deletions: Dword)
    requires DrainingAt(t0, m, id, keys, count, t, i, left, ups, deletions) && 0 < i <= |keys|
    requires keys[i - 1] in m && left < m[keys[i - 1]]
    ensures var k := keys[i - 1];
            DrainDone(t0, m, id, keys, count, t, m[k := m[k] - left], ups + [Change(id, k, m[k] - left)], deletions)
  {
    hide *;
    var k, now := DrainAt(t0, m, id, keys, count, t, i, left, ups, deletions);
    ErasedUpdate(m, keys, i, m[k] - left);
    MakeDrainDone(t0, m, id, keys, count, t, m[k := m[k] - left], ups + [Change(id, k, m[k] - left)], i);
  }

  /** The slots not yet looked at, and what remains to be done on them. */
  lemma {:induction false} DrainAt(t0: Table, m: Slots, id: Dword, keys: seq<SlotNo>, count: Dword,
                                   t: Table, i: nat, left: Dword, ups: seq<Update>, deletions: Dword)
    returns (k: SlotNo, now: Slots)
    requires DrainingAt(t0, m, id, keys, count, t, i, left, ups, deletions) && 0 < i
    ensures Shaped(t0) && Shaped(t) && KeysOf(keys, m) && i <= |keys| <= 129 && k == keys[i - 1] <= SLOTS
    ensures deletions == Deletions(keys, i) && LowDword(deletions + 1) == Deletions(keys, i - 1)
    ensures now == Erased(m, keys[i..]) && k in m && k in now && now[k] == m[k]
    ensures Without(now, k) == Erased(m, keys[i - 1..]) && KeysOf(keys[..i - 1], Without(now, k))
    ensures Drained(t0, m, id, keys, count) ==
            if left == now[k] then Drain(Freed(t, k), Without(now, k), ups + [Delete(id, k)])
            else if left < now[k] then Drain(t, now[k := now[k] - left], ups + [Change(id, k, now[k] - left)])
            else
              var d := Drained(Freed(t, k), Without(now, k), id, keys[..i - 1], left - now[k]);
              Drain(d.table, d.left, ups + ([Delete(id, k)] + d.updates))
  {
    hide *;
    DrainingAtParts(t0, m, id, keys, count, t, i, left, ups, deletions);
    var here := keys[..i];
    k, now := keys[i - 1], Erased(m, keys[i..]);
    CountingUp(keys, i);
    ErasedTurn(m, keys, i);
    DrainedTurn(t, now, id, here, left);
    assert here[|here| - 1] == k && here[..|here| - 1] == keys[..i - 1];
  }

  lemma {:induction false} DrainingAtParts(t0: Table, m: Slots, id: Dword, keys: seq<SlotNo>, count: Dword,
                                           t: Table, i: nat, left: Dword, ups: seq<Update>, deletions: Dword)
    requires DrainingAt(t0, m, id, keys, count, t, i, left, ups, deletions)
    ensures Shaped(t0) && Shaped(t) && i <= |keys| <= 129 && deletions == Deletions(keys, i)
    ensures KeysOf(keys, m) && KeysOf(keys[..i], Erased(m, keys[i..]))
    ensures var d := Drained(t, Erased(m, keys[i..]), id, keys[..i], left);
            Drained(t0, m, id, keys, count) == Drain(d.table, d.left, ups + d.updates)
  {
    hide Drained, Erased, KeysOf, Shaped, Deletions;
  }

  lemma {:induction false} MakeDrainingAt(t0: Table, m: Slots, id: Dword, keys: seq<SlotNo>, count: Dword,
                                          t: Table, i: nat, left: Dword, ups: seq<Update>)
    requires Shaped(t0) && Shaped(t) && i <= |keys| <= 129 && KeysOf(keys, m) && KeysOf(keys[..i], Erased(m, keys[i..]))
    requires var d := Drained(t, Erased(m, keys[i..]), id, keys[..i], left);
             Drained(t0, m, id, keys, count) == Drain(d.table, d.left, ups + d.updates)
    ensures DrainingAt(t0, m, id, keys, count, t, i, left, ups, Deletions(keys, i))
  {
    hide Drained, Erased, KeysOf, Shaped, Deletions;
  }

  lemma {:induction false} DrainEnd(t0: Table, m: Slots, id: Dword, keys: seq<SlotNo>, count: Dword,
                                    t: Table, left: Dword, ups: seq<Update>, deletions: Dword)
    requires DrainingAt(t0, m, id, keys, count, t, 0, left, ups, deletions)
    ensures DrainDone(t0, m, id, keys, count, t, m, ups, deletions)
  {
    hide *;
    DrainingAtParts(t0, m, id, keys, count, t, 0, left, ups, deletions);
    DrainedTurn(t, Erased(m, keys[0..]), id, keys[..0], left);
    ErasedAll(m, keys);
    MakeDrainDone(t0, m, id, keys, count, t, m, ups, 0);
  }

  lemma {:induction false} ErasedAll(m: Slots, keys: seq<SlotNo>)
    ensures keys[..0] == [] && keys[0..] == keys
  {
  }
}
