/** `duplicate_ids` of shiny_treeview/utils.py: collect every id in
    pre-order, remember the ids seen before, and return the repeated ones
    sorted. */
module Duplicates {
  import opened Tree
  import opened Forest
  import opened StringOrder

  /** The ids that occur at least twice in `ids`. */
  ghost function Repeated(ids: seq<string>): set<string> {
    set x | x in ids && multiset(ids)[x] >= 2
  }

  /** No id is repeated exactly when all ids are distinct. */
  lemma RepeatedEmptyIffDistinct(ids: seq<string>)
    ensures Repeated(ids) == {} <==> Distinct(ids)
  {
    if !Distinct(ids) {
      var i, j :| 0 <= i < j < |ids| && ids[i] == ids[j];
      TwoPositionsCount(ids, i, j);
      assert ids[i] in Repeated(ids);
    }
    if Repeated(ids) != {} {
      var x :| x in Repeated(ids);
      RepeatedAtTwoPositions(ids, x);
    }
  }

  lemma RepeatedAtTwoPositions(ids: seq<string>, x: string)
    requires x in Repeated(ids)
    ensures !Distinct(ids)
  {
    var i :| 0 <= i < |ids| && ids[i] == x;
    var rest := ids[..i] + ids[i + 1..];
    assert ids == ids[..i] + [x] + ids[i + 1..];
    assert multiset(ids) == multiset(rest) + multiset{x};
    assert x in multiset(rest);
    var j :| 0 <= j < |rest| && rest[j] == x;
    if j < i {
      assert ids[j] == x;
    } else {
      assert ids[j + 1] == x;
    }
  }

  lemma TwoPositionsCount(ids: seq<string>, i: nat, j: nat)
    requires i < j < |ids| && ids[i] == ids[j]
    ensures multiset(ids)[ids[i]] >= 2
  {
    var x := ids[i];
    assert ids == ids[..i] + [x] + ids[i + 1..j] + [x] + ids[j + 1..];
    assert multiset(ids) == multiset(ids[..i]) + multiset{x} + multiset(ids[i + 1..j]) + multiset{x} + multiset(ids[j + 1..]);
  }

  /** The pre-order listing of one more top-level node extends the listing
      by that node's id and then its subtree's ids. */
  lemma PreorderIdsStep(items: seq<Node>, k: nat)
    requires k < |items|
    ensures PreorderIds(items[..k + 1]) == PreorderIds(items[..k]) + [items[k].id] + PreorderIds(items[k].children)
  {
    var item := items[k];
    PreorderIdsAppend(items[..k], [item]);
    assert items[..k + 1] == items[..k] + [item];
    assert PreorderIds([item]) == [item.id] + PreorderIds(item.children) + PreorderIds([]);
  }

  /** Seeing one more id adds it to the repeated ones exactly when it was
      seen before. */
  lemma RepeatedStep(ids: seq<string>, k: nat)
    requires k < |ids|
    ensures Repeated(ids[..k + 1]) == Repeated(ids[..k]) + (if ids[k] in ids[..k] then {ids[k]} else {})
  {
    var s := ids[..k];
    var x := ids[k];
    assert ids[..k + 1] == s + [x];
    assert multiset(s + [x]) == multiset(s) + multiset{x};
  }

  /** `_collect_all_ids(items)`: every id, in pre-order. */
  method CollectAllIds(items: seq<Node>) returns (allIds: seq<string>)
    ensures allIds == PreorderIds(items)
    decreases items
  {
    allIds := [];
    for k := 0 to |items|
      invariant allIds == PreorderIds(items[..k])
    {
      var item := items[k];
      allIds := allIds + [item.id];
      if item.children != [] {
        var sub := CollectAllIds(item.children);
        allIds := allIds + sub;
      }
      PreorderIdsStep(items, k);
    }
    assert items[..|items|] == items;
  }

  /** `sorted(s)` for a set of ids: its elements in strictly ascending order. */
  method SortedIds(s: set<string>) returns (r: seq<string>)
    ensures StrictlyAscending(r)
    ensures forall x :: x in r <==> x in s
  {
    r := [];
    var rest := s;
    while rest != {}
      invariant StrictlyAscending(r)
      invariant forall x :: x in r <==> x in s && x !in rest
      invariant rest <= s
      decreases rest
    {
      var x :| x in rest;
      r := InsertSorted(r, x);
      assert forall y :: y in r <==> y in multiset(r);
      rest := rest - {x};
    }
  }

  /** `duplicate_ids(items)`: the ids that occur more than once anywhere in
      the forest, in strictly ascending order; empty exactly when all ids are
      unique. */
  method DuplicateIds(items: seq<Node>) returns (dups: seq<string>)
    ensures StrictlyAscending(dups)
    ensures forall x :: x in dups <==> x in Repeated(PreorderIds(items))
    ensures dups == [] <==> Distinct(PreorderIds(items))
  {
    var allIds := CollectAllIds(items);
    var seenIds: set<string> := {};
    var duplicateIds: set<string> := {};
    for k := 0 to |allIds|
      invariant seenIds == set x | x in allIds[..k]
      invariant duplicateIds == Repeated(allIds[..k])
    {
      var itemId := allIds[k];
      RepeatedStep(allIds, k);
      if itemId in seenIds {
        duplicateIds := duplicateIds + {itemId};
      } else {
        seenIds := seenIds + {itemId};
      }
    }
    assert allIds[..|allIds|] == allIds;
    dups := SortedIds(duplicateIds);
    RepeatedEmptyIffDistinct(allIds);
    if dups == [] {
      assert duplicateIds == {};
    } else {
      assert dups[0] in duplicateIds;
    }
  }
}
