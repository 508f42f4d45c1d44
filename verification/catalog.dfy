/**
  The static item catalog of the checklist: eleven diagnostic questions,
  four of which belong only to the full (extended) question set.
  Question labels and scoring instructions are opaque text and are not
  carried by the model; an item is its id and its `onlyFull` flag.
 */
module Catalog {

  datatype Item = Item(id: int, onlyFull: bool)

  /** The catalog in on-screen order. */
  const Items: seq<Item> := [
    Item(1, false), Item(2, false), Item(3, true), Item(4, true),
    Item(5, false), Item(6, false), Item(7, true), Item(8, false),
    Item(9, false), Item(10, false), Item(11, true)
  ]

  /** The ids occurring in a sequence of items. */
  function Ids(items: seq<Item>): set<int>
  {
    set i | 0 <= i < |items| :: items[i].id
  }

  /** No id occurs twice. */
  predicate DistinctIds(items: seq<Item>)
  {
    forall i, j :: 0 <= i < j < |items| ==> items[i].id != items[j].id
  }

  /** The number of items flagged `onlyFull`. */
  function OnlyFullCount(items: seq<Item>): (n: nat)
    ensures n <= |items|
  {
    if |items| == 0 then 0
    else (if items[0].onlyFull then 1 else 0) + OnlyFullCount(items[1..])
  }

  const CatalogIds: set<int> := Ids(Items)

  /** Ids of a non-empty sequence: its head's id plus the ids of its tail. */
  lemma {:induction false} IdsCons(items: seq<Item>)
    requires |items| > 0
    ensures Ids(items) == {items[0].id} + Ids(items[1..])
  {
    forall k | k in Ids(items) ensures k in {items[0].id} + Ids(items[1..]) {
      var i :| 0 <= i < |items| && items[i].id == k;
      if i > 0 {
        assert items[1..][i - 1] == items[i];
      }
    }
    forall k | k in Ids(items[1..]) ensures k in Ids(items) {
      var i :| 0 <= i < |items[1..]| && items[1..][i].id == k;
      assert items[i + 1].id == k;
    }
  }

  /** In a sequence with distinct ids, the head's id does not recur in the tail. */
  lemma {:induction false} DistinctHead(items: seq<Item>)
    requires |items| > 0 && DistinctIds(items)
    ensures DistinctIds(items[1..])
    ensures items[0].id !in Ids(items[1..])
  {
    forall i | 0 <= i < |items[1..]| ensures items[1..][i].id != items[0].id {
      assert items[1..][i] == items[i + 1];
    }
  }

  /** Each of the numbers 1..11 is a catalog id. */
  lemma InCatalog(k: int)
    requires 1 <= k <= 11
    ensures k in CatalogIds
  {
    assert Items[k - 1].id == k;
  }

  /**
    The catalog's shape: eleven items numbered 1..11 in order, so the ids
    are unique and exhaustive, and exactly four are full-version only
    (items 3, 4, 7 and 11).
   */
  lemma CatalogShape()
    ensures |Items| == 11
    ensures forall i :: 0 <= i < |Items| ==> Items[i].id == i + 1
    ensures DistinctIds(Items)
    ensures forall k :: k in CatalogIds <==> 1 <= k <= 11
    ensures OnlyFullCount(Items) == 4
    ensures forall i :: 0 <= i < |Items| ==> (Items[i].onlyFull <==> Items[i].id in {3, 4, 7, 11})
  {
    forall k | 1 <= k <= 11 ensures k in CatalogIds {
      assert Items[k - 1].id == k;
    }
  }
}
