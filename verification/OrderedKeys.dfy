/** The iteration order of `std::map`: its keys in ascending order. */
module OrderedKeys {

  ghost predicate Ascending(keys: seq<int>) {
    forall i, j :: 0 <= i < j < |keys| ==> keys[i] < keys[j]
  }

  ghost predicate IsLeast(ids: set<int>, k: int) {
    k in ids && forall j :: j in ids ==> k <= j
  }

  lemma {:induction false} HasMember(ids: set<int>)
    ensures ids == {} || exists k :: k in ids
  {
    if forall k: int :: k !in ids { assert ids == {}; }
  }

  lemma {:induction false} LeastExists(ids: set<int>) returns (k: int)
    requires ids != {}
    ensures IsLeast(ids, k)
    decreases |ids|
  {
    HasMember(ids);
    var some :| some in ids;
    var others := ids - {some};
    assert forall i :: i in ids <==> i == some || i in others;
    if others == {} {
      k := some;
    } else {
      var j := LeastExists(others);
      k := if j < some then j else some;
    }
  }

  function Least(ids: set<int>): (k: int)
    requires ids != {}
    ensures IsLeast(ids, k)
  {
    assert exists k :: IsLeast(ids, k) by { var _ := LeastExists(ids); }
    var k :| k in ids && forall j :: j in ids ==> k <= j;
    k
  }

  function Sorted(ids: set<int>): (keys: seq<int>)
    ensures forall i :: 0 <= i < |keys| ==> keys[i] in ids
    ensures Ascending(keys) && |keys| == |ids|
    decreases |ids|
  {
    if ids == {} then [] else [Least(ids)] + Sorted(ids - {Least(ids)})
  }

  lemma {:induction false} InSorted(ids: set<int>, id: int)
    ensures id in Sorted(ids) <==> id in ids
    decreases |ids|
  {
    if ids != {} { InSorted(ids - {Least(ids)}, id); }
  }
}
