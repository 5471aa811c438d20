/** `stratify` of shiny_treeview/utils.py: turn a flat item list with a
    parallel list of parent ids into a forest. The new items live in an
    arena (position `k` holds the copy of item `k`), children are lists of
    arena positions, and the finished forest is read out of the arena. */
module Stratify {
  import opened Wrappers
  import opened Tree
  import opened Forest
  import opened StratifySpec

  /** The four `ValueError`s that `stratify` raises, in the order it checks
      for them. */
  datatype StratifyError =
    | LengthMismatch
    | DuplicateIds
    | UnknownParent(parentId: string, index: nat)
    | CircularReference

  /** Every id that the parent map mentions, as key or as parent. */
  ghost function Names(pm: map<string, Option<string>>): set<string> {
    pm.Keys + set k | k in pm && pm[k].Some? :: pm[k].value
  }

  /** `_has_circular_reference`: walk up from every item, remembering the
      ids seen; a repeat means a cycle. True exactly when some item's parent
      chain never reaches a root. */
  method HasCircularReference(items: seq<Node>, parentIds: seq<Option<string>>) returns (found: bool)
    requires |items| == |parentIds|
    ensures found <==> !Acyclic(items, parentIds)
  {
    var parentMap := ParentMap(items, parentIds);
    for k := 0 to |items|
      invariant forall j :: 0 <= j < k ==> ReachesRoot(parentMap, items[j].id)
    {
      var itemId := items[k].id;
      var visited: set<string> := {};
      var currentId := if itemId in parentMap then parentMap[itemId] else None;
      ghost var steps := 1;
      while currentId.Some?
        invariant steps >= 1 && currentId == Walk(parentMap, Some(itemId), steps)
        invariant forall t :: 1 <= t < steps ==> Walk(parentMap, Some(itemId), t).Some?
        invariant forall t :: 1 <= t < steps ==> Walk(parentMap, Some(itemId), t).value in visited
        invariant forall v :: v in visited ==> exists t :: 1 <= t < steps && Walk(parentMap, Some(itemId), t) == Some(v)
        invariant visited <= Names(parentMap)
        decreases Names(parentMap) - visited
      {
        WalkOne(parentMap, Some(itemId), steps - 1);
        if currentId.value in visited {
          ghost var t :| 1 <= t < steps && Walk(parentMap, Some(itemId), t) == currentId;
          forall m: nat
            ensures Walk(parentMap, Some(itemId), m) != None
          {
            RepeatNeverEnds(parentMap, Some(itemId), t, steps, m);
          }
          return true;
        }
        visited := visited + {currentId.value};
        WalkOne(parentMap, Some(itemId), steps);
        currentId := if currentId.value in parentMap then parentMap[currentId.value] else None;
        steps := steps + 1;
      }
    }
    return false;
  }

  /** `dataclasses.replace(item, children=[])`: the item with its own
      fields and no children. */
  function Bare(item: Node): (r: Node)
    ensures r.id == item.id && r.children == []
  {
    item.(children := [])
  }

  /** The finished forest read out of the arena: node `i` with, below it,
      the nodes its child list names, to depth `fuel`. */
  function Materialize(arena: seq<Node>, kids: seq<seq<nat>>, i: nat, fuel: nat): Node
    requires |kids| == |arena| && i < |arena|
    requires forall j, m :: 0 <= j < |kids| && 0 <= m < |kids[j]| ==> kids[j][m] < |arena|
    decreases fuel
  {
    arena[i].(children :=
      if fuel == 0 then []
      else seq(|kids[i]|, m requires 0 <= m < |kids[i]| => Materialize(arena, kids, kids[i][m], fuel - 1)))
  }

  /** An arena that holds the child-less copy of each item and, for each,
      the positions of the items that name it as parent, reads out as the
      forest that the parent ids describe. */
  lemma {:induction false} MaterializeIsGrow(items: seq<Node>, parentIds: seq<Option<string>>,
                                             arena: seq<Node>, kids: seq<seq<nat>>, i: nat, fuel: nat)
    requires |items| == |parentIds| == |arena| == |kids| && i < |items|
    requires forall j :: 0 <= j < |items| ==> arena[j] == Bare(items[j])
    requires forall j :: 0 <= j < |items| ==> kids[j] == Children(parentIds, Some(items[j].id))
    ensures forall j, m :: 0 <= j < |kids| && 0 <= m < |kids[j]| ==> kids[j][m] < |arena|
    ensures Materialize(arena, kids, i, fuel) == Grow(items, parentIds, i, fuel)
    decreases fuel
  {
    if fuel > 0 {
      var cs := Children(parentIds, Some(items[i].id));
      var mine := Materialize(arena, kids, i, fuel).children;
      var spec := GrowAll(items, parentIds, cs, fuel - 1);
      forall m | 0 <= m < |cs|
        ensures mine[m] == spec[m]
      {
        MaterializeIsGrow(items, parentIds, arena, kids, cs[m], fuel - 1);
        GrowAllAt(items, parentIds, cs, fuel - 1, m);
      }
      assert mine == spec;
    }
  }

  /** The roots named by `rootItems`, each read out of the arena. */
  function MaterializeRoots(arena: seq<Node>, kids: seq<seq<nat>>, rootItems: seq<nat>, fuel: nat): (r: seq<Node>)
    requires |kids| == |arena|
    requires forall j, m :: 0 <= j < |kids| && 0 <= m < |kids[j]| ==> kids[j][m] < |arena|
    requires forall j :: 0 <= j < |rootItems| ==> rootItems[j] < |arena|
    ensures |r| == |rootItems|
  {
    seq(|rootItems|, j requires 0 <= j < |rootItems| => Materialize(arena, kids, rootItems[j], fuel))
  }

  /** What the arena loop and the populate loop leave behind reads out, from
      the root list, as the forest that the parent ids describe. */
  lemma ReadOutIsSpecForest(items: seq<Node>, parentIds: seq<Option<string>>, arena: seq<Node>,
                            childrenMap: map<string, seq<nat>>, kids: seq<seq<nat>>, rootItems: seq<nat>)
    requires |items| == |parentIds| == |arena| == |kids|
    requires forall j :: 0 <= j < |items| ==> arena[j] == Bare(items[j])
    requires rootItems == Children(parentIds, None)
    requires forall p :: Children(parentIds, Some(p)) == if p in childrenMap then childrenMap[p] else []
    requires forall j :: 0 <= j < |items| ==>
      kids[j] == if items[j].id in childrenMap then childrenMap[items[j].id] else []
    ensures forall j, m :: 0 <= j < |kids| && 0 <= m < |kids[j]| ==> kids[j][m] < |arena|
    ensures forall j :: 0 <= j < |rootItems| ==> rootItems[j] < |arena|
    ensures MaterializeRoots(arena, kids, rootItems, |items|) == SpecForest(items, parentIds)
  {
    assert forall j :: 0 <= j < |items| ==> kids[j] == Children(parentIds, Some(items[j].id));
    if items != [] {
      MaterializeIsGrow(items, parentIds, arena, kids, 0, 0);
    }
    var roots := MaterializeRoots(arena, kids, rootItems, |items|);
    forall j | 0 <= j < |rootItems|
      ensures roots[j] == SpecForest(items, parentIds)[j]
    {
      MaterializeIsGrow(items, parentIds, arena, kids, rootItems[j], |items|);
      GrowAllAt(items, parentIds, rootItems, |items|, j);
    }
  }

  /** The ids of the items are unique exactly when there are as many
      different ids as items. */
  lemma IdCount(items: seq<Node>)
    ensures |set j | 0 <= j < |items| :: items[j].id| == |items| <==> Distinct(Ids(items))
  {
    var ids := Ids(items);
    assert (set j | 0 <= j < |items| :: items[j].id) == set x | x in ids;
    DistinctCard(ids);
  }

  /** `item_map = {item.id: item for item in items}`, with each id sent to
      the position of its item (the last one, if an id repeats). */
  method BuildItemMap(items: seq<Node>) returns (itemMap: map<string, nat>)
    ensures itemMap.Keys == set j | 0 <= j < |items| :: items[j].id
    ensures forall x :: x in itemMap ==> itemMap[x] < |items| && items[itemMap[x]].id == x
  {
    itemMap := map[];
    for k := 0 to |items|
      invariant itemMap.Keys == set j | 0 <= j < k :: items[j].id
      invariant forall x :: x in itemMap ==> itemMap[x] < k && items[itemMap[x]].id == x
    {
      itemMap := itemMap[items[k].id := k];
    }
  }

  /** The loop over `zip(items, parent_ids)`: the arena of child-less
      copies, the child positions collected under each parent id, and the
      root positions, all in input order. */
  method BuildArena(items: seq<Node>, parentIds: seq<Option<string>>)
    returns (arena: seq<Node>, childrenMap: map<string, seq<nat>>, rootItems: seq<nat>)
    requires |items| == |parentIds|
    ensures |arena| == |items|
    ensures forall j :: 0 <= j < |items| ==> arena[j] == Bare(items[j])
    ensures rootItems == Children(parentIds, None)
    ensures forall p :: Children(parentIds, Some(p)) == if p in childrenMap then childrenMap[p] else []
  {
    arena := [];
    childrenMap := map[];
    rootItems := [];
    for k := 0 to |items|
      invariant |arena| == k
      invariant forall j :: 0 <= j < k ==> arena[j] == Bare(items[j])
      invariant rootItems == ChildrenBelow(parentIds, k, None)
      invariant childrenMap == ChildrenMapBelow(parentIds, k)
    {
      var newItem := Bare(items[k]);
      arena := arena + [newItem];
      match parentIds[k] {
        case None =>
          rootItems := rootItems + [k];
        case Some(parentId) =>
          var siblings := if parentId in childrenMap then childrenMap[parentId] else [];
          childrenMap := childrenMap[parentId := siblings + [k]];
      }
    }
    ChildrenMapBelowSpec(parentIds, |parentIds|);
  }

  /** The map from parent id to child positions that the arena loop has
      built after looking at the first `n` entries. */
  ghost function ChildrenMapBelow(parentIds: seq<Option<string>>, n: nat): map<string, seq<nat>>
    requires n <= |parentIds|
  {
    if n == 0 then map[]
    else
      var m := ChildrenMapBelow(parentIds, n - 1);
      match parentIds[n - 1]
      case None => m
      case Some(p) => m[p := (if p in m then m[p] else []) + [n - 1]]
  }

  /** That map sends each parent id to its children among the first `n`
      entries, and leaves out the ids with none. */
  lemma ChildrenMapBelowSpec(parentIds: seq<Option<string>>, n: nat)
    requires n <= |parentIds|
    ensures forall p ::
      ChildrenBelow(parentIds, n, Some(p)) == (if p in ChildrenMapBelow(parentIds, n) then ChildrenMapBelow(parentIds, n)[p] else [])
  {
    forall p
      ensures ChildrenBelow(parentIds, n, Some(p)) ==
        (if p in ChildrenMapBelow(parentIds, n) then ChildrenMapBelow(parentIds, n)[p] else [])
    {
      ChildrenMapBelowAt(parentIds, n, p);
    }
  }

  /** ChildrenMapBelowSpec for one parent id. */
  lemma {:induction false} ChildrenMapBelowAt(parentIds: seq<Option<string>>, n: nat, p: string)
    requires n <= |parentIds|
    ensures ChildrenBelow(parentIds, n, Some(p)) ==
      (if p in ChildrenMapBelow(parentIds, n) then ChildrenMapBelow(parentIds, n)[p] else [])
  {
    if n > 0 {
      ChildrenMapBelowAt(parentIds, n - 1, p);
      var m := ChildrenMapBelow(parentIds, n - 1);
      var below := ChildrenBelow(parentIds, n - 1, Some(p));
      assert below == (if p in m then m[p] else []);
      match parentIds[n - 1]
      case None =>
        assert ChildrenBelow(parentIds, n, Some(p)) == below + [];
      case Some(q) =>
        var m' := m[q := (if q in m then m[q] else []) + [n - 1]];
        assert ChildrenMapBelow(parentIds, n) == m';
        if q == p {
          assert ChildrenBelow(parentIds, n, Some(p)) == below + [n - 1];
        } else {
          assert ChildrenBelow(parentIds, n, Some(p)) == below + [];
          assert (p in m') == (p in m);
        }
    }
  }

  /** "Populate children for all items": each collected child list becomes
      the child list of the item with that id. */
  method LinkChildren(items: seq<Node>, itemMap: map<string, nat>, childrenMap: map<string, seq<nat>>)
    returns (kids: seq<seq<nat>>)
    requires Distinct(Ids(items))
    requires forall x :: x in itemMap ==> itemMap[x] < |items| && items[itemMap[x]].id == x
    requires forall j :: 0 <= j < |items| ==> items[j].id in itemMap
    ensures |kids| == |items|
    ensures forall j :: 0 <= j < |items| ==>
      kids[j] == if items[j].id in childrenMap then childrenMap[items[j].id] else []
  {
    kids := seq(|items|, _ => []);
    var pending := childrenMap.Keys;
    while pending != {}
      invariant pending <= childrenMap.Keys
      invariant |kids| == |items|
      invariant forall j :: 0 <= j < |items| ==>
        kids[j] == if items[j].id in childrenMap && items[j].id !in pending then childrenMap[items[j].id] else []
      decreases pending
    {
      var parentId :| parentId in pending;
      if parentId in itemMap {
        var at := itemMap[parentId];
        forall j | 0 <= j < |items| && items[j].id == parentId
          ensures j == at
        {
          assert Ids(items)[j] == Ids(items)[at];
        }
        kids := kids[at := childrenMap[parentId]];
      }
      pending := pending - {parentId};
    }
  }

  /** The arena loop followed by the populate loop: the arena, its child
      lists and its roots, which read out as the described forest. */
  method BuildLinkedArena(items: seq<Node>, parentIds: seq<Option<string>>, itemMap: map<string, nat>)
    returns (arena: seq<Node>, kids: seq<seq<nat>>, rootItems: seq<nat>)
    requires |items| == |parentIds| && Distinct(Ids(items))
    requires forall x :: x in itemMap ==> itemMap[x] < |items| && items[itemMap[x]].id == x
    requires forall j :: 0 <= j < |items| ==> items[j].id in itemMap
    ensures |kids| == |arena|
    ensures forall j, m :: 0 <= j < |kids| && 0 <= m < |kids[j]| ==> kids[j][m] < |arena|
    ensures forall j :: 0 <= j < |rootItems| ==> rootItems[j] < |arena|
    ensures MaterializeRoots(arena, kids, rootItems, |items|) == SpecForest(items, parentIds)
  {
    var childrenMap;
    arena, childrenMap, rootItems := BuildArena(items, parentIds);
    kids := LinkChildren(items, itemMap, childrenMap);
    ReadOutIsSpecForest(items, parentIds, arena, childrenMap, kids, rootItems);
  }

  /** The position of the first item, at `k` or later, that names an
      unknown parent, or `|parentIds|` when there is none. */
  function FirstUnknownParent(items: seq<Node>, parentIds: seq<Option<string>>, k: nat): (i: nat)
    requires k <= |parentIds|
    ensures k <= i <= |parentIds|
    ensures i < |parentIds| ==> UnknownParentAt(items, parentIds, i)
    ensures forall j :: k <= j < i ==> !UnknownParentAt(items, parentIds, j)
    decreases |parentIds| - k
  {
    if k == |parentIds| || UnknownParentAt(items, parentIds, k) then k
    else FirstUnknownParent(items, parentIds, k + 1)
  }

  /** An unknown parent with none before it is the first one. */
  lemma {:induction false} FirstUnknownParentIs(items: seq<Node>, parentIds: seq<Option<string>>, k: nat, i: nat)
    requires k <= i < |parentIds| && UnknownParentAt(items, parentIds, i)
    requires forall j :: k <= j < i ==> !UnknownParentAt(items, parentIds, j)
    ensures FirstUnknownParent(items, parentIds, k) == i
    decreases i - k
  {
    if k < i {
      FirstUnknownParentIs(items, parentIds, k + 1, i);
    }
  }

  /** What `stratify` returns: the first check that fails, in the order
      lengths, unique ids, known parents, acyclicity; otherwise the forest
      that the parent ids describe. */
  ghost function Outcome(items: seq<Node>, parentIds: seq<Option<string>>): Result<seq<Node>, StratifyError> {
    if |items| != |parentIds| then Failure(LengthMismatch)
    else if !Distinct(Ids(items)) then Failure(DuplicateIds)
    else if !ParentsKnown(items, parentIds) then
      var i := FirstUnknownParent(items, parentIds, 0);
      Failure(UnknownParent(parentIds[i].value, i))
    else if !Acyclic(items, parentIds) then Failure(CircularReference)
    else Success(SpecForest(items, parentIds))
  }

  /** Each error of `stratify` names exactly the condition that failed, an
      unknown parent is reported at its first position, and success comes
      exactly with well-formed input and returns the described forest. */
  lemma OutcomeMeaning(items: seq<Node>, parentIds: seq<Option<string>>)
    ensures var r := Outcome(items, parentIds);
      && (|items| != |parentIds| ==> r == Failure(LengthMismatch))
      && (|items| == |parentIds| ==> (r == Failure(DuplicateIds) <==> !Distinct(Ids(items))))
      && (r.Failure? && r.error.UnknownParent? ==>
        && |items| == |parentIds| && Distinct(Ids(items))
        && r.error.index < |parentIds| && parentIds[r.error.index] == Some(r.error.parentId)
        && UnknownParentAt(items, parentIds, r.error.index)
        && forall j :: 0 <= j < r.error.index ==> !UnknownParentAt(items, parentIds, j))
      && (|items| == |parentIds| && Distinct(Ids(items)) && !ParentsKnown(items, parentIds) ==>
        r.Failure? && r.error.UnknownParent?)
      && (r == Failure(CircularReference) <==>
        |items| == |parentIds| && Distinct(Ids(items)) && ParentsKnown(items, parentIds) && !Acyclic(items, parentIds))
      && (r.Success? <==> WellFormed(items, parentIds))
      && (r.Success? ==> r.value == SpecForest(items, parentIds))
  {
  }

  /** An item with the given id and label, no caption, no children. */
  function Leaf(id: string, labelText: string): (n: Node)
    ensures n.id == id && n.labelText == labelText && n.caption == "" && n.children == [] && !n.disabled
  {
    Node(id, labelText, "", [], false)
  }

  /** One item and two parent entries: the length error. */
  lemma MismatchedLengthsExample()
    ensures Outcome([Leaf("root", "Root")], [None, Some("root")]) == Failure(LengthMismatch)
  {
  }

  /** Two items with the same id: the duplicate error, although both are
      roots. */
  lemma DuplicateIdsExample()
    ensures Outcome([Leaf("duplicate", "First"), Leaf("duplicate", "Second")], [None, None]) == Failure(DuplicateIds)
  {
    var items := [Leaf("duplicate", "First"), Leaf("duplicate", "Second")];
    assert Ids(items)[0] == Ids(items)[1];
  }

  /** A parent that is not an item, at index 0. */
  lemma UnknownParentExample()
    ensures Outcome([Leaf("child", "Child")], [Some("nonexistent")]) == Failure(UnknownParent("nonexistent", 0))
  {
    var items := [Leaf("child", "Child")];
    var parentIds := [Some("nonexistent")];
    assert Ids(items) == ["child"];
    assert UnknownParentAt(items, parentIds, 0);
  }

  /** The chain `a -> b -> c -> a` comes back to `a` after three steps, so it
      never reaches "no parent". */
  lemma CircularReferenceExample()
    ensures Outcome([Leaf("a", "A"), Leaf("b", "B"), Leaf("c", "C")], [Some("b"), Some("c"), Some("a")])
      == Failure(CircularReference)
  {
    var items := [Leaf("a", "A"), Leaf("b", "B"), Leaf("c", "C")];
    var parentIds := [Some("b"), Some("c"), Some("a")];
    assert Ids(items) == ["a", "b", "c"];
    assert ParentsKnown(items, parentIds);
    var pm := ParentMap(items, parentIds);
    ParentMapAt(items, parentIds, 0);
    ParentMapAt(items, parentIds, 1);
    ParentMapAt(items, parentIds, 2);
    assert Walk(pm, Some("a"), 3) == Some("a");
    forall k: nat
      ensures Walk(pm, Some("a"), k) != None
    {
      RepeatNeverEnds(pm, Some("a"), 0, 3, k);
    }
    assert !ReachesRoot(pm, items[0].id);
  }

  /** An item that is its own parent is a cycle of length one. */
  lemma SelfParentExample()
    ensures Outcome([Leaf("a", "A")], [Some("a")]) == Failure(CircularReference)
  {
    var items := [Leaf("a", "A")];
    var parentIds := [Some("a")];
    assert Ids(items) == ["a"];
    assert ParentsKnown(items, parentIds);
    var pm := ParentMap(items, parentIds);
    ParentMapAt(items, parentIds, 0);
    assert Walk(pm, Some("a"), 1) == Some("a");
    forall k: nat
      ensures Walk(pm, Some("a"), k) != None
    {
      RepeatNeverEnds(pm, Some("a"), 0, 1, k);
    }
    assert !ReachesRoot(pm, items[0].id);
  }

  /** `stratify(items, parent_ids)`: check lengths, unique ids, known
      parents and acyclicity, in that order, reporting the first that
      fails; otherwise the roots, in input order, each with its
      descendants. */
  method Stratify(items: seq<Node>, parentIds: seq<Option<string>>) returns (r: Result<seq<Node>, StratifyError>)
    ensures r == Outcome(items, parentIds)
  {
    if |items| != |parentIds| {
      return Failure(LengthMismatch);
    }

    var itemMap := BuildItemMap(items);
    IdCount(items);
    if |itemMap| != |items| {
      return Failure(DuplicateIds);
    }
    assert forall x :: x in itemMap <==> x in Ids(items);

    for i := 0 to |parentIds|
      invariant forall j :: 0 <= j < i ==> !UnknownParentAt(items, parentIds, j)
    {
      if parentIds[i].Some? && parentIds[i].value !in itemMap {
        FirstUnknownParentIs(items, parentIds, 0, i);
        return Failure(UnknownParent(parentIds[i].value, i));
      }
    }

    var arena, kids, rootItems := BuildLinkedArena(items, parentIds, itemMap);

    var cyclic := HasCircularReference(items, parentIds);
    if cyclic {
      return Failure(CircularReference);
    }

    return Success(MaterializeRoots(arena, kids, rootItems, |items|));
  }
}
