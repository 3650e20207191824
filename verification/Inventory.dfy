/** One item table of a user's inventory: numbered slots, the bookkeeping that finds
    free ones, and the updates sent to the database. */
module Inventory {
  import opened Words
  import opened OrderedKeys

  const SLOTS: nat := 128

  type SlotNo = Dword
  type Slots = map<SlotNo, Dword>

  datatype Item = Item(id: Dword, maxQuantity: Dword, quantity: Dword)

  datatype Update =
    | Insert(id: Dword, seqNo: SlotNo, quantity: Dword)
    | Change(id: Dword, seqNo: SlotNo, quantity: Dword)
    | Delete(id: Dword, seqNo: SlotNo)

  /** `st_inventory`: the slots of each item, which slot numbers are free, the slot to
      use next, and how many are free. Slot 0 of `available` is never used. */
  datatype Table = Table(slots: map<Dword, Slots>, available: seq<bool>, next: Dword, usable: Dword)

  const EMPTY: Table := Table(map[], seq(SLOTS + 1, _ => true), 1, SLOTS)

  /** The slots of one item; none when the item is not held. */
  function SlotsOf(t: Table, id: Dword): Slots {
    if id in t.slots then t.slots[id] else map[]
  }

  function Without(m: Slots, k: SlotNo): Slots {
    m - {k}
  }

  /** The unbounded sum of the quantities, smallest slot first. */
  function Sum(m: Slots): nat
    decreases |m|
  {
    if m == map[] then 0
    else
      var k := Least(m.Keys);
      m[k] + Sum(Without(m, k))
  }

  /** `getItemQuantity`. */
  function Quantity(t: Table, id: Dword): Dword {
    LowDword(Sum(SlotsOf(t, id)))
  }

  /** The part of a total that does not fill whole slots. */
  function Rest(total: nat, max: nat): (r: nat)
    requires max > 0
    ensures r < max
  {
    total % max
  }

  /** What the free slots can hold when each takes `max`. */
  function Capacity(t: Table, max: Dword): nat {
    t.usable * max
  }

  /** The first free slot number from `from` on, or the table's end. */
  function NextFree(available: seq<bool>, from: nat): (i: nat)
    requires from <= |available|
    ensures from <= i <= |available| && (i < |available| ==> available[i])
    ensures forall j :: from <= j < i ==> !available[j]
    decreases |available| - from
  {
    if from == |available| || available[from] then from else NextFree(available, from + 1)
  }

  ghost predicate Shaped(t: Table) {
    |t.available| == SLOTS + 1 && t.next <= SLOTS
  }

  // ---------- the operations as functions ----------

  /** `getNextSlotSeq`: the slot taken is `t.next`. With no later free slot, `next` stays. */
  function Taken(t: Table): (t': Table)
    requires Shaped(t)
    ensures Shaped(t')
  {
    var later := NextFree(t.available, t.next + 1);
    t.(next := if later <= SLOTS then later else t.next,
       usable := LowDword(t.usable - 1),
       available := t.available[t.next := false])
  }

  function Put(t: Table, id: Dword, seqNo: SlotNo, quantity: Dword): Table {
    t.(slots := t.slots[id := SlotsOf(t, id)[seqNo := quantity]])
  }

  /** `insertSlot`. */
  function Inserted(t: Table, id: Dword, quantity: Dword): (t': Table)
    requires Shaped(t)
    ensures Shaped(t')
  {
    Put(Taken(t), id, t.next, quantity)
  }

  datatype Step = Step(table: Table, updates: seq<Update>)

  /** The inserting loop: full slots while they last, then one more slot with the rest,
      even when the rest is 0. */
  function InsertedAll(t: Table, id: Dword, max: Dword, count: Dword): (s: Step)
    requires Shaped(t) && max > 0
    ensures Shaped(s.table)
    decreases count
  {
    if count >= max then
      var s := InsertedAll(Inserted(t, id, max), id, max, count - max);
      Step(s.table, [Insert(id, t.next, max)] + s.updates)
    else
      Step(Inserted(t, id, count), [Insert(id, t.next, count)])
  }

  /** The position of the first slot that does not hold exactly `max`. */
  function FirstOpen(m: Slots, keys: seq<SlotNo>, max: Dword): (i: nat)
    requires forall i :: 0 <= i < |keys| ==> keys[i] in m
    ensures i <= |keys| && (i < |keys| ==> m[keys[i]] != max)
    ensures forall j :: 0 <= j < i ==> m[keys[j]] == max
  {
    if keys == [] || m[keys[0]] != max then 0 else 1 + FirstOpen(m, keys[1..], max)
  }

  /** The first slot, in slot order, that does not hold exactly `max`. */
  function OpenSlot(m: Slots, max: Dword): (s: Option<SlotNo>)
    ensures s.Some? ==> s.value in m && m[s.value] != max
  {
    var keys: seq<SlotNo> := Sorted(m.Keys);
    var i := FirstOpen(m, keys, max);
    if i == |keys| then None else Some(keys[i])
  }

  /** Rejected is `nullopt`; Undefined is the path that leaves the function without a value. */
  datatype Outcome = Rejected | Done(step: Step) | Undefined

  /** `addItem`. */
  function Added(t: Table, item: Item): Outcome
    requires Shaped(t) && item.maxQuantity > 0
  {
    var max, id := item.maxQuantity, item.id;
    var rest := Rest(Quantity(t, id), max);
    if rest == 0 then
      if LowDword(Capacity(t, max)) >= item.quantity then Done(InsertedAll(t, id, max, item.quantity)) else Rejected
    else if LowDword(Capacity(t, max) + max - rest) >= item.quantity then
      match OpenSlot(SlotsOf(t, id), max)
      case None => Undefined
      case Some(s) => Done(ToppedUp(t, item, s, rest))
    else Rejected
  }

  /** Filling an open slot, and inserting what does not fit it. */
  function ToppedUp(t: Table, item: Item, seqNo: SlotNo, rest: nat): (s: Step)
    requires Shaped(t) && item.maxQuantity > 0 && seqNo in SlotsOf(t, item.id) && rest < item.maxQuantity
    ensures Shaped(s.table)
  {
    var max, id := item.maxQuantity, item.id;
    var filled := LowDword(SlotsOf(t, id)[seqNo] + item.quantity);
    if max >= filled then
      Step(Put(t, id, seqNo, filled), [Change(id, seqNo, filled)])
    else
      var s := InsertedAll(Put(t, id, seqNo, max), id, max, LowDword(item.quantity - (max - rest)));
      Step(s.table, [Change(id, seqNo, max)] + s.updates)
  }

  /** `isAddItem`. */
  function CanAdd(t: Table, item: Item): bool
    requires item.maxQuantity > 0
  {
    var max := item.maxQuantity;
    LowDword(Capacity(t, max) + max - Rest(Quantity(t, item.id), max)) >= item.quantity
  }

  /** `deleteSlot`, which leaves the slot's quantity in place. */
  function Freed(t: Table, seqNo: SlotNo): (t': Table)
    requires Shaped(t) && seqNo <= SLOTS
    ensures Shaped(t')
  {
    t.(available := t.available[seqNo := true], usable := LowDword(t.usable + 1), next := Min(t.next, seqNo))
  }

  /** The removing loop over `keys` from the last to the first: the slots left, the
      bookkeeping after freeing the emptied ones, and the updates. */
  datatype Drain = Drain(table: Table, left: Slots, updates: seq<Update>)

  function Drained(t: Table, m: Slots, id: Dword, keys: seq<SlotNo>, count: Dword): (d: Drain)
    requires Shaped(t) && KeysOf(keys, m)
    ensures Shaped(d.table)
    decreases |keys|
  {
    if keys == [] then Drain(t, m, [])
    else
      var k, others := keys[|keys| - 1], keys[..|keys| - 1];
      if count > m[k] then
        var d := Drained(Freed(t, k), Without(m, k), id, others, count - m[k]);
        Drain(d.table, d.left, [Delete(id, k)] + d.updates)
      else if count == m[k] then Drain(Freed(t, k), Without(m, k), [Delete(id, k)])
      else Drain(t, m[k := m[k] - count], [Change(id, k, m[k] - count)])
  }

  ghost predicate KeysOf(keys: seq<SlotNo>, m: Slots) {
    Ascending(keys) && forall i :: 0 <= i < |keys| ==> keys[i] in m && keys[i] <= SLOTS
  }

  /** The table with the slots of one item replaced; an item without slots is not held. */
  function WithSlots(t: Table, id: Dword, m: Slots): Table {
    t.(slots := if m == map[] then t.slots - {id} else t.slots[id := m])
  }

  ghost predicate InRange(m: Slots) {
    forall k :: k in m ==> k <= SLOTS
  }

  /** `removeItem`. */
  function Removed(t: Table, item: Item): Outcome
    requires Shaped(t) && InRange(SlotsOf(t, item.id))
  {
    var id, m := item.id, SlotsOf(t, item.id);
    if Quantity(t, id) >= item.quantity then
      var keys: seq<SlotNo> := Sorted(m.Keys);
      var d := Drained(t, m, id, keys, item.quantity);
      Done(Step(WithSlots(d.table, id, d.left), d.updates))
    else Rejected
  }

  /** `setItem`, which loads one row from the database. */
  function Loaded(t: Table, id: Dword, quantity: Dword, seqNo: SlotNo): (t': Table)
    requires Shaped(t) && seqNo <= SLOTS
    ensures Shaped(t')
  {
    var av := t.available[seqNo := false];
    var later := NextFree(av, t.next + 1);
    Put(t, id, seqNo, quantity).(
      available := av,
      usable := LowDword(t.usable - 1),
      next := if t.next != seqNo then Min(t.next, seqNo) else if later <= SLOTS then later else t.next)
  }
}
