/** A user's tables as the server keeps them: one object per kind, changed in place. */
module UserInventories {
  import opened Words
  import opened Inventory
  import opened InventoryUsers
  import opened ItemTables

  class UserInventory {
    /** `inventories`, by kind. */
    const tables: seq<ItemTable>

    ghost predicate Sound()
      reads this, tables
    {
      && |tables| == KINDS && (forall k: Kind :: tables[k].Sound())
      && (forall j: Kind, k: Kind :: j != k ==> tables[j] != tables[k] && tables[j].available != tables[k].available)
    }

    ghost function Values(): (u: User)
      reads this, tables, set t | t in tables :: t.available
      requires Sound()
      ensures |u| == KINDS && forall k: Kind :: u[k] == tables[k].Value()
    {
      seq(KINDS, k requires 0 <= k < KINDS reads this, tables, set t | t in tables :: t.available
                   requires Sound() => tables[k].Value())
    }

    constructor ()
      ensures Sound() && Values() == NEW_USER
      ensures forall t :: t in tables ==> fresh(t) && fresh(t.available)
    {
      var made: seq<ItemTable> := [];
      for i := 0 to KINDS
        invariant |made| == i
        invariant forall k :: 0 <= k < i ==> fresh(made[k]) && fresh(made[k].available)
        invariant forall k :: 0 <= k < i ==> made[k].Sound() && made[k].Value() == EMPTY
        invariant forall j, k :: 0 <= j < k < i ==> made[j] != made[k] && made[j].available != made[k].available
      {
        hide *;
        var t := new ItemTable();
        made := made + [t];
      }
      tables := made;
      new;
      hide EMPTY;
      forall k: Kind ensures NEW_USER[k] == EMPTY { NewUserTables(k); }
    }

    /** Empties every table but the first: the source's loop starts at 1. */
    method Clear()
      requires Sound()
      modifies tables, set t | t in tables :: t.available
      ensures Sound() && Values() == [old(Values())[0], EMPTY, EMPTY, EMPTY, EMPTY]
    {
      for i := 1 to KINDS
        invariant Sound()
        invariant forall k: Kind :: tables[k].Value() == if 1 <= k < i then EMPTY else old(Values())[k]
      {
        tables[i].Clear();
      }
    }

    method AddItem(k: Kind, item: Item) returns (updates: Option<seq<Update>>)
      requires Sound() && item.maxQuantity > 0 && Added(Values()[k], item) != Undefined
      modifies tables[k], tables[k].available
      ensures Sound()
      ensures match Added(old(Values())[k], item)
              case Done(s) => updates == Some(s.updates) && Values() == old(Values())[k := s.table]
              case _ => updates == None && Values() == old(Values())
    {
      hide Added, ItemTable.Value, ItemTable.Sound;
      updates := tables[k].AddItem(item);
    }

    method RemoveItem(k: Kind, item: Item) returns (updates: Option<seq<Update>>)
      requires Sound() && InRange(SlotsOf(Values()[k], item.id))
      modifies tables[k], tables[k].available
      ensures Sound()
      ensures match Removed(old(Values())[k], item)
              case Done(s) => updates == Some(s.updates) && Values() == old(Values())[k := s.table]
              case _ => updates == None && Values() == old(Values())
    {
      hide Removed, SlotsOf, InRange, ItemTable.Value, ItemTable.Sound;
      updates := tables[k].RemoveItem(item);
    }

    method SetItem(k: Kind, id: Dword, quantity: Dword, seqNo: SlotNo)
      requires Sound() && seqNo <= SLOTS
      modifies tables[k], tables[k].available
      ensures Sound() && Values() == old(Values())[k := Loaded(old(Values())[k], id, quantity, seqNo)]
    {
      tables[k].SetItem(id, quantity, seqNo);
    }
  }
}
