/** The character statistics store: a byte-keyed map of 32-bit quantities. */
module CharacterStats {

  import opened Words
  import opened OrderedKeys

  const DUMMY: Byte := 0
  const STR: Byte := 1
  const DEX: Byte := 2
  const INT: Byte := 3
  const LUK: Byte := 4

  datatype StatsEntry = StatsEntry(id: Byte, quantity: Dword, name: string)

  type Stats = map<Byte, Dword>

  datatype Op = Set(id: Byte, quantity: Dword) | Add(id: Byte, quantity: Dword) | Clear

  /** A quantity as `operator[]` reads it: a missing one is 0. */
  function Quantity(m: Stats, id: Byte): Dword {
    if id in m then m[id] else 0
  }

  function Apply(m: Stats, op: Op): Stats {
    match op
    case Set(id, q) => m[id := q]
    case Add(id, q) => m[id := LowDword(Quantity(m, id) + q)]
    case Clear => map[]
  }

  function Run(m: Stats, ops: seq<Op>): Stats {
    if ops == [] then m else Apply(Run(m, ops[..|ops| - 1]), ops[|ops| - 1])
  }

  function Keys(m: Stats): (keys: seq<Byte>)
    ensures AllIn(keys, m) && Ascending(keys) && |keys| == |m|
  {
    Sorted(m.Keys)
  }

  ghost predicate AllIn(keys: seq<Byte>, m: Stats) {
    forall i :: 0 <= i < |keys| ==> keys[i] in m
  }

  lemma {:induction false} InKeys(m: Stats, id: Byte)
    ensures id in Keys(m) <==> id in m
  {
    InSorted(m.Keys, id);
  }

  /** An entry of the store; None where `map::at` throws. */
  function Entry(m: Stats, id: Byte): Option<StatsEntry> {
    if id == STR then if id in m then Some(StatsEntry(id, m[id], "str")) else None
    else if id == DEX then if id in m then Some(StatsEntry(id, m[id], "dex")) else None
    else if id == INT then if id in m then Some(StatsEntry(id, m[id], "int")) else None
    else if id == LUK then if id in m then Some(StatsEntry(id, m[id], "luk")) else None
    else Some(StatsEntry(DUMMY, 0, ""))
  }

  /** The entry pushed for a key of the store. */
  function Listed(m: Stats, id: Byte): StatsEntry
    requires id in m
  {
    Entry(m, id).value
  }

  function Listing(m: Stats): seq<StatsEntry> {
    var keys := Keys(m);
    seq(|keys|, i requires 0 <= i < |keys| => Listed(m, keys[i]))
  }

  class CStats {
    var stats: Stats

    constructor ()
      ensures stats == map[]
    {
      stats := map[];
    }

    method SetStats(id: Byte, quantity: Dword)
      modifies this
      ensures stats == Apply(old(stats), Set(id, quantity)) == old(stats)[id := quantity]
    {
      stats := stats[id := quantity];
    }

    method AddStats(id: Byte, quantity: Dword) returns (total: Dword)
      modifies this
      ensures stats == Apply(old(stats), Add(id, quantity))
      ensures total == ((if id in old(stats) then old(stats[id]) else 0) + quantity) % 0x1_0000_0000
      ensures stats == old(stats)[id := total]
    {
      if id !in stats {
        stats := stats[id := 0];
      }
      stats := stats[id := LowDword(stats[id] + quantity)];
      total := stats[id];
    }

    method GetStats(id: Byte) returns (entry: Option<StatsEntry>)
      ensures entry == Entry(stats, id)
      ensures id == 1 ==> entry == if 1 in stats then Some(StatsEntry(1, stats[1], "str")) else None
      ensures id == 2 ==> entry == if 2 in stats then Some(StatsEntry(2, stats[2], "dex")) else None
      ensures id == 3 ==> entry == if 3 in stats then Some(StatsEntry(3, stats[3], "int")) else None
      ensures id == 4 ==> entry == if 4 in stats then Some(StatsEntry(4, stats[4], "luk")) else None
      ensures id == 0 || id > 4 ==> entry == Some(StatsEntry(0, 0, ""))
    {
      match id
      case 1 => entry := At(id, "str");
      case 2 => entry := At(id, "dex");
      case 3 => entry := At(id, "int");
      case 4 => entry := At(id, "luk");
      case _ => entry := Some(StatsEntry(DUMMY, 0, ""));
    }

    /** The entry built on `map::at`. */
    method At(id: Byte, name: string) returns (entry: Option<StatsEntry>)
      ensures entry == if id in stats then Some(StatsEntry(id, stats[id], name)) else None
    {
      if id in stats {
        entry := Some(StatsEntry(id, stats[id], name));
      } else {
        entry := None;
      }
    }

    /** No lookup made here misses, so the list is always delivered. */
    method GetStatsList() returns (list: seq<StatsEntry>)
      ensures list == Listing(stats)
    {
      list := [];
      var keys := Keys(stats);
      for i := 0 to |keys|
        invariant list == Listing(stats)[..i]
      {
        var entry := GetStats(keys[i]);
        list := list + [entry.value];
      }
    }

    method Size() returns (n: nat)
      ensures n == |stats|
    {
      n := |stats|;
    }

    method Clear()
      modifies this
      ensures stats == Apply(old(stats), Op.Clear) == map[]
    {
      stats := map[];
    }
  }

  // ---------- the meaning of a whole history ----------

  /** The position just after the last Clear. */
  function AfterClear(ops: seq<Op>): (k: nat)
    ensures k <= |ops| && (k > 0 ==> ops[k - 1].Clear?)
    ensures forall i :: k <= i < |ops| ==> !ops[i].Clear?
  {
    if ops == [] then 0
    else if ops[|ops| - 1].Clear? then |ops|
    else AfterClear(ops[..|ops| - 1])
  }

  /** The position just after the last Set of `id`. */
  function AfterSet(ops: seq<Op>, id: Byte): (k: nat)
    ensures k <= |ops| && (k > 0 ==> ops[k - 1].Set? && ops[k - 1].id == id)
    ensures forall i :: k <= i < |ops| && ops[i].Set? ==> ops[i].id != id
  {
    if ops == [] then 0
    else if ops[|ops| - 1].Set? && ops[|ops| - 1].id == id then |ops|
    else AfterSet(ops[..|ops| - 1], id)
  }

  /** The unbounded sum of all adds to `id`. */
  function AddTotal(ops: seq<Op>, id: Byte): nat {
    if ops == [] then 0
    else
      var op := ops[|ops| - 1];
      AddTotal(ops[..|ops| - 1], id) + if op.Add? && op.id == id then op.quantity else 0
  }

  ghost predicate Touched(ops: seq<Op>, id: Byte) {
    exists i :: 0 <= i < |ops| && !ops[i].Clear? && ops[i].id == id
  }

  /** The value `id` starts from: its last Set, or what the store held. */
  function Base(m: Stats, ops: seq<Op>, id: Byte): Dword {
    var k := AfterSet(ops, id);
    if k > 0 then ops[k - 1].quantity else Quantity(m, id)
  }

  /** The adds to `id` since its last Set. */
  function AddsSinceSet(ops: seq<Op>, id: Byte): nat {
    AddTotal(ops[AfterSet(ops, id)..], id)
  }

  lemma {:induction false} TouchedSnoc(init: seq<Op>, op: Op, id: Byte)
    ensures Touched(init + [op], id) <==> Touched(init, id) || (!op.Clear? && op.id == id)
  {
    var ops := init + [op];
    if Touched(init, id) {
      var i :| 0 <= i < |init| && !init[i].Clear? && init[i].id == id;
      assert ops[i].id == id;
    }
    if !op.Clear? && op.id == id {
      assert ops[|init|].id == id;
    }
  }

  lemma {:induction false} AddTotalSnoc(init: seq<Op>, op: Op, id: Byte)
    ensures AddTotal(init + [op], id) == AddTotal(init, id) + if op.Add? && op.id == id then op.quantity else 0
  {
  }

  lemma {:induction false} SinceSetSnoc(init: seq<Op>, op: Op, id: Byte)
    ensures AfterSet(init + [op], id) == if op.Set? && op.id == id then |init| + 1 else AfterSet(init, id)
    ensures AddsSinceSet(init + [op], id) ==
            if op.Clear? || op.id != id then AddsSinceSet(init, id)
            else if op.Set? then 0
            else AddsSinceSet(init, id) + op.quantity
  {
    var ops := init + [op];
    assert ops[..|init|] == init;
    if op.Set? && op.id == id {
      assert ops[|ops|..] == [];
    } else {
      var k := AfterSet(init, id);
      assert ops[k..] == init[k..] + [op];
      AddTotalSnoc(init[k..], op, id);
    }
  }

  lemma {:induction false} BaseSnoc(m: Stats, init: seq<Op>, op: Op, id: Byte)
    ensures Base(m, init + [op], id) == if op.Set? && op.id == id then op.quantity else Base(m, init, id)
  {
  }

  lemma {:induction false} RunSnoc(m: Stats, init: seq<Op>, op: Op)
    ensures Run(m, init + [op]) == Apply(Run(m, init), op)
  {
  }

  ghost predicate NoClear(ops: seq<Op>) {
    forall i :: 0 <= i < |ops| ==> !ops[i].Clear?
  }

  lemma {:induction false} Presence(m: Stats, ops: seq<Op>, id: Byte)
    requires NoClear(ops)
    ensures id in Run(m, ops) <==> id in m || Touched(ops, id)
    decreases |ops|
  {
    if ops != [] {
      var init, op := ops[..|ops| - 1], ops[|ops| - 1];
      assert ops == init + [op];
      Presence(m, init, id);
      TouchedSnoc(init, op, id);
    }
  }

  lemma {:induction false} ValueStep(before: Stats, base: Dword, sum: nat, op: Op, id: Byte)
    requires !op.Clear? && Quantity(before, id) == LowDword(base + sum)
    ensures Quantity(Apply(before, op), id) ==
            if op.id != id then LowDword(base + sum)
            else if op.Set? then op.quantity
            else LowDword(base + (sum + op.quantity))
  {
  }

  lemma {:induction false} LowIsQuantity(op: Op)
    requires !op.Clear?
    ensures LowDword(op.quantity + 0) == op.quantity
  {
  }

  lemma {:induction false} ValueSnoc(m: Stats, init: seq<Op>, op: Op, id: Byte)
    requires !op.Clear?
    requires Quantity(Run(m, init), id) == LowDword(Base(m, init, id) + AddsSinceSet(init, id))
    ensures Quantity(Run(m, init + [op]), id) == LowDword(Base(m, init + [op], id) + AddsSinceSet(init + [op], id))
  {
    hide *;
    var base, sum := Base(m, init, id), AddsSinceSet(init, id);
    BaseSnoc(m, init, op, id);
    SinceSetSnoc(init, op, id);
    RunSnoc(m, init, op);
    ValueStep(Run(m, init), base, sum, op, id);
    LowIsQuantity(op);
  }

  lemma {:induction false} Value(m: Stats, ops: seq<Op>, id: Byte)
    requires NoClear(ops)
    ensures Quantity(Run(m, ops), id) == LowDword(Base(m, ops, id) + AddsSinceSet(ops, id))
    decreases |ops|
  {
    if ops == [] {
    } else {
      var init, op := ops[..|ops| - 1], ops[|ops| - 1];
      assert ops == init + [op] && NoClear(init) && !op.Clear?;
      Value(m, init, id);
      ValueSnoc(m, init, op, id);
    }
  }

  lemma {:induction false} HistoryWithoutClear(m: Stats, ops: seq<Op>, id: Byte)
    requires NoClear(ops)
    ensures id in Run(m, ops) <==> id in m || Touched(ops, id)
    ensures Quantity(Run(m, ops), id) == LowDword(Base(m, ops, id) + AddsSinceSet(ops, id))
  {
    Presence(m, ops, id);
    Value(m, ops, id);
  }

  lemma {:induction false} RunConcat(m: Stats, a: seq<Op>, b: seq<Op>)
    ensures Run(m, a + b) == Run(Run(m, a), b)
    decreases |b|
  {
    if b == [] {
      assert a + b == a;
    } else {
      var n := |b| - 1;
      RunConcat(m, a, b[..n]);
      assert (a + b)[..|a + b| - 1] == a + b[..n];
    }
  }

  /** The history forgets everything up to its last Clear. */
  lemma {:induction false} ClearForgets(m: Stats, ops: seq<Op>)
    ensures Run(m, ops) == Run(if AfterClear(ops) > 0 then map[] else m, ops[AfterClear(ops)..])
  {
    var k := AfterClear(ops);
    RunConcat(m, ops[..k], ops[k..]);
    assert ops == ops[..k] + ops[k..];
    if k > 0 { assert ops[..k][k - 1].Clear?; }
  }

  /** A new store after any sequence of calls: which ids it holds and what each is worth. */
  lemma {:induction false} History(ops: seq<Op>, id: Byte)
    ensures var since := ops[AfterClear(ops)..];
            && (id in Run(map[], ops) <==> Touched(since, id))
            && Quantity(Run(map[], ops), id)
            == LowDword(Base(map[], since, id) + AddsSinceSet(since, id))
  {
    ClearForgets(map[], ops);
    HistoryWithoutClear(map[], ops[AfterClear(ops)..], id);
  }

  // ---------- histories of adds ----------

  ghost predicate OnlyAdds(ops: seq<Op>) {
    forall i :: 0 <= i < |ops| ==> ops[i].Add?
  }

  lemma {:induction false} AddTotalConcat(a: seq<Op>, b: seq<Op>, id: Byte)
    ensures AddTotal(a + b, id) == AddTotal(a, id) + AddTotal(b, id)
    decreases |b|
  {
    if b == [] {
      assert a + b == a;
    } else {
      var n := |b| - 1;
      AddTotalConcat(a, b[..n], id);
      assert (a + b)[..|a + b| - 1] == a + b[..n];
    }
  }

  function Without(ops: seq<Op>, j: nat): seq<Op>
    requires j < |ops|
  {
    ops[..j] + ops[j + 1..]
  }

  lemma {:induction false} AddTotalWithout(ops: seq<Op>, j: nat, id: Byte)
    requires j < |ops|
    ensures AddTotal(ops, id) == AddTotal(Without(ops, j), id) + AddTotal([ops[j]], id)
  {
    assert ops == ops[..j] + [ops[j]] + ops[j + 1..];
    AddTotalConcat(ops[..j] + [ops[j]], ops[j + 1..], id);
    AddTotalConcat(ops[..j], [ops[j]], id);
    AddTotalConcat(ops[..j], ops[j + 1..], id);
  }

  lemma {:induction false} MultisetWithout(ops: seq<Op>, j: nat)
    requires j < |ops|
    ensures multiset(Without(ops, j)) == multiset(ops) - multiset{ops[j]}
  {
    assert ops == ops[..j] + [ops[j]] + ops[j + 1..];
  }

  /** The call matching the first of `a`, and what is left on both sides. */
  lemma {:induction false} MatchFirst(a: seq<Op>, b: seq<Op>) returns (j: nat)
    requires a != [] && multiset(a) == multiset(b)
    ensures j < |b| && b[j] == a[0] && multiset(Without(a, 0)) == multiset(Without(b, j))
  {
    assert a[0] in multiset(b);
    j :| 0 <= j < |b| && b[j] == a[0];
    MultisetWithout(a, 0);
    MultisetWithout(b, j);
  }

  lemma {:induction false} AddTotalPermutes(a: seq<Op>, b: seq<Op>, id: Byte)
    requires multiset(a) == multiset(b)
    ensures AddTotal(a, id) == AddTotal(b, id)
    decreases |a|
  {
    if a == [] {
      assert |multiset(b)| == 0;
    } else {
      var j := MatchFirst(a, b);
      AddTotalPermutes(Without(a, 0), Without(b, j), id);
      AddTotalWithout(a, 0, id);
      AddTotalWithout(b, j, id);
    }
  }

  lemma {:induction false} AddsMeaning(m: Stats, ops: seq<Op>, id: Byte)
    requires OnlyAdds(ops)
    ensures id in Run(m, ops) <==> id in m || Touched(ops, id)
    ensures Quantity(Run(m, ops), id) == LowDword(Quantity(m, id) + AddTotal(ops, id))
  {
    HistoryWithoutClear(m, ops, id);
    assert AfterSet(ops, id) == 0 && ops[0..] == ops;
  }

  /** The order of adds does not matter. */
  lemma {:induction false} AddsCommute(m: Stats, a: seq<Op>, b: seq<Op>)
    requires OnlyAdds(a) && multiset(a) == multiset(b)
    ensures Run(m, a) == Run(m, b)
  {
    forall i | 0 <= i < |b| ensures b[i].Add? { assert b[i] in multiset(a); }
    forall id: Byte
      ensures id in Run(m, a) <==> id in Run(m, b)
      ensures Quantity(Run(m, a), id) == Quantity(Run(m, b), id)
    {
      AddsMeaning(m, a, id);
      AddsMeaning(m, b, id);
      AddTotalPermutes(a, b, id);
      if Touched(a, id) { TouchedPermutes(a, b, id); }
      if Touched(b, id) { TouchedPermutes(b, a, id); }
    }
    SameStats(Run(m, a), Run(m, b));
  }

  lemma {:induction false} SameStats(a: Stats, b: Stats)
    requires forall id: Byte :: (id in a <==> id in b) && Quantity(a, id) == Quantity(b, id)
    ensures a == b
  {
  }

  lemma {:induction false} TouchedPermutes(a: seq<Op>, b: seq<Op>, id: Byte)
    requires multiset(a) == multiset(b) && Touched(a, id)
    ensures Touched(b, id)
  {
    var i :| 0 <= i < |a| && !a[i].Clear? && a[i].id == id;
    assert a[i] in multiset(b);
    var j :| 0 <= j < |b| && b[j] == a[i];
  }

  /** Any number of adds to one id is one add of their sum, wrapped to 32 bits; below
      2^32 the total is exact. */
  ghost predicate AddsTo(ops: seq<Op>, id: Byte) {
    forall i :: 0 <= i < |ops| ==> ops[i].Add? && ops[i].id == id
  }

  lemma {:induction false} AddsMergeAt(m: Stats, ops: seq<Op>, id: Byte, other: Byte)
    requires AddsTo(ops, id) && ops != []
    ensures other in Run(m, ops) <==> other in m || other == id
    ensures Quantity(Run(m, ops), other) ==
            if other == id then LowDword(Quantity(m, id) + AddTotal(ops, id)) else Quantity(m, other)
  {
    AddsMeaning(m, ops, other);
    assert ops[0].id == id;
    if other != id { NoAdds(ops, other); }
  }

  /** Any number of adds to one id is one add of their sum, wrapped to 32 bits. */
  lemma {:induction false} AddsMerge(m: Stats, ops: seq<Op>, id: Byte)
    requires AddsTo(ops, id) && ops != []
    ensures Run(m, ops) == Apply(m, Add(id, LowDword(AddTotal(ops, id))))
  {
    var one := Apply(m, Add(id, LowDword(AddTotal(ops, id))));
    LowDwordAdd(Quantity(m, id), AddTotal(ops, id));
    assert Quantity(one, id) == LowDword(Quantity(m, id) + AddTotal(ops, id));
    forall other: Byte
      ensures (other in Run(m, ops) <==> other in one) && Quantity(Run(m, ops), other) == Quantity(one, other)
    {
      AddsMergeAt(m, ops, id, other);
    }
    SameStats(Run(m, ops), one);
  }

  /** The total is exact as long as it stays below 2^32, and only then. */
  lemma {:induction false} AddsExact(m: Stats, ops: seq<Op>, id: Byte)
    requires AddsTo(ops, id)
    ensures Quantity(Run(m, ops), id) == Quantity(m, id) + AddTotal(ops, id)
       <==> Quantity(m, id) + AddTotal(ops, id) < 0x1_0000_0000
  {
    AddsMeaning(m, ops, id);
  }

  lemma {:induction false} NoAdds(ops: seq<Op>, id: Byte)
    requires OnlyAdds(ops) && forall i :: 0 <= i < |ops| ==> ops[i].id != id
    ensures AddTotal(ops, id) == 0
    decreases |ops|
  {
    if ops != [] { NoAdds(ops[..|ops| - 1], id); }
  }

  // ---------- the listing ----------

  predicate Known(id: Byte) {
    1 <= id <= 4
  }

  /** The list has one entry per key, in ascending key order; an entry has the id, the
      quantity and the name for the four known ids, and is the dummy for every other. */
  lemma {:induction false} ListingAgrees(m: Stats, i: nat)
    ensures |Listing(m)| == |m| == |Keys(m)|
    ensures i < |m| ==> ListingEntryAgrees(m, Keys(m)[i], Listing(m)[i])
  {
  }

  /** With only known ids in the store, the list's ids ascend strictly. */
  lemma {:induction false} ListingAscends(m: Stats, i: nat, j: nat)
    requires !HoldsOther(m) && i < j < |Listing(m)|
    ensures Listing(m)[i].id < Listing(m)[j].id
  {
  }

  ghost predicate ListingEntryAgrees(m: Stats, k: Byte, entry: StatsEntry) {
    && k in m
    && Entry(m, k) == Some(entry)
    && (k == 1 ==> entry == StatsEntry(1, m[1], "str"))
    && (k == 2 ==> entry == StatsEntry(2, m[2], "dex"))
    && (k == 3 ==> entry == StatsEntry(3, m[3], "int"))
    && (k == 4 ==> entry == StatsEntry(4, m[4], "luk"))
    && (k == 0 || k > 4 ==> entry == StatsEntry(0, 0, ""))
  }

  /** A lookup misses exactly when a known id is asked for that is not held. */
  lemma {:induction false} EntryMisses(m: Stats, id: Byte)
    ensures Entry(m, id) == None <==> 1 <= id <= 4 && id !in m
  {
  }

  // ---------- save and restore ----------

  /** The calls a restore makes, one `setStats` per saved entry. */
  function Replay(list: seq<StatsEntry>): seq<Op> {
    seq(|list|, i requires 0 <= i < |list| => Set(list[i].id, list[i].quantity))
  }

  function Restored(m: Stats): Stats {
    Run(map[], Replay(Listing(m)))
  }

  /** What survives: the known ids, and id 0 with value 0 if any other id existed. */
  function Surviving(m: Stats): Stats {
    var known := map k | k in m && Known(k) :: m[k];
    if HoldsOther(m) then known[DUMMY := 0] else known
  }

  predicate HoldsOther(m: Stats) {
    exists k :: k in m && !Known(k)
  }

  ghost predicate HasUnknown(keys: seq<Byte>) {
    exists i :: 0 <= i < |keys| && !Known(keys[i])
  }

  lemma {:induction false} HasUnknownSnoc(init: seq<Byte>, k: Byte)
    ensures HasUnknown(init + [k]) <==> HasUnknown(init) || !Known(k)
  {
    var keys := init + [k];
    if HasUnknown(init) {
      var i :| 0 <= i < |init| && !Known(init[i]);
      assert keys[i] == init[i];
    }
    if !Known(k) { assert keys[|init|] == k; }
  }

  /** `r` holds of `id` what replaying the entries of `keys` leaves there. */
  ghost predicate Replayed(m: Stats, keys: seq<Byte>, r: Stats, id: Byte) {
    && (id in r <==> (Known(id) && id in keys) || (id == DUMMY && HasUnknown(keys)))
    && Quantity(r, id) == if Known(id) && id in keys then Quantity(m, id) else 0
  }

  lemma {:induction false} ReplayedSnoc(m: Stats, init: seq<Byte>, k: Byte, r: Stats, id: Byte)
    requires k in m && Replayed(m, init, r, id)
    ensures Replayed(m, init + [k], r[Listed(m, k).id := Listed(m, k).quantity], id)
  {
    HasUnknownSnoc(init, k);
    assert id in init + [k] <==> id in init || id == k;
  }

  /** The calls that restore the entries of `keys`. */
  function Saves(m: Stats, keys: seq<Byte>): seq<Op>
    requires AllIn(keys, m)
  {
    seq(|keys|, i requires 0 <= i < |keys| => Set(Listed(m, keys[i]).id, Listed(m, keys[i]).quantity))
  }

  lemma {:induction false} SavesReplay(m: Stats, keys: seq<Byte>, id: Byte)
    requires AllIn(keys, m)
    ensures Replayed(m, keys, Run(map[], Saves(m, keys)), id)
    decreases |keys|
  {
    if keys != [] {
      var init, k := keys[..|keys| - 1], keys[|keys| - 1];
      SavesReplay(m, init, id);
      assert keys == init + [k];
      ReplayedSnoc(m, init, k, Run(map[], Saves(m, init)), id);
      assert Saves(m, keys) == Saves(m, init) + [Set(Listed(m, k).id, Listed(m, k).quantity)];
      RunSnoc(map[], Saves(m, init), Set(Listed(m, k).id, Listed(m, k).quantity));
    }
  }

  lemma {:induction false} OtherKeys(m: Stats)
    ensures HasUnknown(Keys(m)) <==> HoldsOther(m)
  {
    var keys := Keys(m);
    if HasUnknown(keys) {
      var i :| 0 <= i < |keys| && !Known(keys[i]);
      assert keys[i] in m;
    }
    if HoldsOther(m) {
      var k :| k in m && !Known(k);
      InKeys(m, k);
      var i :| 0 <= i < |keys| && keys[i] == k;
    }
  }

  lemma {:induction false} RestoredValue(m: Stats, id: Byte)
    ensures id in Restored(m) <==> id in Surviving(m)
    ensures Quantity(Restored(m), id) == Quantity(Surviving(m), id)
  {
    SavesReplay(m, Keys(m), id);
    assert Replay(Listing(m)) == Saves(m, Keys(m));
    OtherKeys(m);
    InKeys(m, id);
  }

  /** Saving the list and replaying it into a cleared store. */
  lemma {:induction false} RestoredIsSurviving(m: Stats)
    ensures Restored(m) == Surviving(m)
  {
    forall id: Byte
      ensures id in Restored(m) <==> id in Surviving(m)
      ensures Quantity(Restored(m), id) == Quantity(Surviving(m), id)
    {
      RestoredValue(m, id);
    }
    SameStats(Restored(m), Surviving(m));
  }

  /** It is lossless exactly when the store holds nothing beyond the four ids except
      possibly id 0 with value 0. */
  lemma {:induction false} SaveRestoreLossless(m: Stats)
    ensures Restored(m) == m <==> forall k :: k in m && !Known(k) ==> k == DUMMY && m[k] == 0
  {
    RestoredIsSurviving(m);
    var s := Surviving(m);
    if s == m {
      forall k | k in m && !Known(k) ensures k == DUMMY && m[k] == 0 {
        assert k in s;
      }
    }
    if forall k :: k in m && !Known(k) ==> k == DUMMY && m[k] == 0 {
      assert s.Keys == m.Keys;
    }
  }

  /** A second save and restore changes nothing. */
  lemma {:induction false} SaveRestoreTwice(m: Stats)
    ensures Restored(Restored(m)) == Restored(m)
  {
    RestoredIsSurviving(m);
    RestoredIsSurviving(Surviving(m));
    SurvivingIsStable(m);
  }

  lemma {:induction false} SurvivingIsStable(m: Stats)
    ensures Surviving(Surviving(m)) == Surviving(m)
  {
  }
}
