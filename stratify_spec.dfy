/** Specification of `stratify` in shiny_treeview/utils.py: parent chains,
    the children of each item in input order, and the forest that the
    parent-id list describes. */
module StratifySpec {
  import opened Wrappers
  import opened Tree
  import opened Forest

  /** The ids of the flat item list, in order. */
  function Ids(items: seq<Node>): (r: seq<string>)
    ensures |r| == |items|
    ensures forall i :: 0 <= i < |items| ==> r[i] == items[i].id
  {
    seq(|items|, i requires 0 <= i < |items| => items[i].id)
  }

  /** `{item.id: parent_id for item, parent_id in zip(items, parent_ids)}`:
      a later item overrides an earlier one with the same id. */
  function ParentMap(items: seq<Node>, parentIds: seq<Option<string>>): (pm: map<string, Option<string>>)
    requires |items| == |parentIds|
    ensures pm.Keys == set i | 0 <= i < |items| :: items[i].id
    decreases |items|
  {
    if items == [] then map[]
    else
      var n := |items| - 1;
      ParentMap(items[..n], parentIds[..n])[items[n].id := parentIds[n]]
  }

  /** With unique ids, the parent map sends each item's id to its parent id. */
  lemma {:induction false} ParentMapAt(items: seq<Node>, parentIds: seq<Option<string>>, i: nat)
    requires |items| == |parentIds| && Distinct(Ids(items)) && i < |items|
    ensures ParentMap(items, parentIds)[items[i].id] == parentIds[i]
    decreases |items|
  {
    var n := |items| - 1;
    if i < n {
      assert Ids(items[..n]) == Ids(items)[..n];
      assert items[i].id != items[n].id by { assert Ids(items)[i] != Ids(items)[n]; }
      ParentMapAt(items[..n], parentIds[..n], i);
      assert items[..n][i] == items[i];
    }
  }

  /** One step of the walk in `_has_circular_reference`:
      `parent_map.get(current_id)`, and None stays None. */
  function Step(pm: map<string, Option<string>>, current: Option<string>): Option<string> {
    if current.Some? && current.value in pm then pm[current.value] else None
  }

  /** `k` steps up the parent chain from `current`. */
  function Walk(pm: map<string, Option<string>>, current: Option<string>, k: nat): Option<string>
    decreases k
  {
    if k == 0 then current else Walk(pm, Step(pm, current), k - 1)
  }

  /** The parent chain of `id` ends at "no parent". */
  ghost predicate ReachesRoot(pm: map<string, Option<string>>, id: string) {
    exists k: nat :: Walk(pm, Some(id), k) == None
  }

  /** No item's parent chain runs forever. */
  ghost predicate Acyclic(items: seq<Node>, parentIds: seq<Option<string>>)
    requires |items| == |parentIds|
  {
    forall i :: 0 <= i < |items| ==> ReachesRoot(ParentMap(items, parentIds), items[i].id)
  }

  /** Item `i` names a parent that is not among the items. */
  predicate UnknownParentAt(items: seq<Node>, parentIds: seq<Option<string>>, i: nat)
    requires i < |parentIds|
  {
    parentIds[i].Some? && parentIds[i].value !in Ids(items)
  }

  /** Every named parent is one of the items. */
  predicate ParentsKnown(items: seq<Node>, parentIds: seq<Option<string>>) {
    forall i :: 0 <= i < |parentIds| ==> !UnknownParentAt(items, parentIds, i)
  }

  /** The input passes every check of `stratify`. */
  ghost predicate WellFormed(items: seq<Node>, parentIds: seq<Option<string>>) {
    && |items| == |parentIds|
    && Distinct(Ids(items))
    && ParentsKnown(items, parentIds)
    && Acyclic(items, parentIds)
  }

  /** The positions below `n`, in increasing order, whose parent entry is
      `parent`. */
  function ChildrenBelow(parentIds: seq<Option<string>>, n: nat, parent: Option<string>): (r: seq<nat>)
    requires n <= |parentIds|
    ensures forall j :: 0 <= j < |r| ==> r[j] < n
  {
    if n == 0 then []
    else ChildrenBelow(parentIds, n - 1, parent) + (if parentIds[n - 1] == parent then [n - 1] else [])
  }

  /** The positions, in increasing order, whose parent entry is `parent`
      (None selects the roots); `ChildrenSpec` states this. */
  function Children(parentIds: seq<Option<string>>, parent: Option<string>): (r: seq<nat>)
    ensures forall j :: 0 <= j < |r| ==> r[j] < |parentIds|
  {
    ChildrenBelow(parentIds, |parentIds|, parent)
  }

  /** `ChildrenBelow` lists exactly the positions below `n` whose entry is
      `parent`, each once and in increasing order. */
  lemma {:induction false} ChildrenBelowSpec(parentIds: seq<Option<string>>, n: nat, parent: Option<string>)
    requires n <= |parentIds|
    ensures forall k: nat {:trigger k in ChildrenBelow(parentIds, n, parent)} ::
      k in ChildrenBelow(parentIds, n, parent) <==> k < n && parentIds[k] == parent
    ensures forall j :: 0 <= j < |ChildrenBelow(parentIds, n, parent)| ==>
      parentIds[ChildrenBelow(parentIds, n, parent)[j]] == parent
    ensures forall a, b :: 0 <= a < b < |ChildrenBelow(parentIds, n, parent)| ==>
      ChildrenBelow(parentIds, n, parent)[a] < ChildrenBelow(parentIds, n, parent)[b]
  {
    if n > 0 {
      ChildrenBelowSpec(parentIds, n - 1, parent);
      var front := ChildrenBelow(parentIds, n - 1, parent);
      var r := ChildrenBelow(parentIds, n, parent);
      var last := if parentIds[n - 1] == parent then [n - 1] else [];
      assert r == front + last;
      forall k: nat
        ensures k in r <==> k < n && parentIds[k] == parent
      {
        assert (k in r) == (k in front || k in last);
      }
    }
  }

  /** `Children` lists exactly the positions whose entry is `parent`, each
      once and in increasing order. */
  lemma ChildrenSpec(parentIds: seq<Option<string>>, parent: Option<string>)
    ensures forall k: nat {:trigger k in Children(parentIds, parent)} ::
      k in Children(parentIds, parent) <==> k < |parentIds| && parentIds[k] == parent
    ensures forall j :: 0 <= j < |Children(parentIds, parent)| ==> parentIds[Children(parentIds, parent)[j]] == parent
    ensures forall a, b :: 0 <= a < b < |Children(parentIds, parent)| ==>
      Children(parentIds, parent)[a] < Children(parentIds, parent)[b]
  {
    ChildrenBelowSpec(parentIds, |parentIds|, parent);
  }

  /** Item `i` with its children attached below it, to depth `fuel`. */
  function Grow(items: seq<Node>, parentIds: seq<Option<string>>, i: nat, fuel: nat): (n: Node)
    requires |items| == |parentIds| && i < |items|
    ensures n.id == items[i].id
    decreases fuel, 0
  {
    items[i].(children :=
      if fuel == 0 then [] else GrowAll(items, parentIds, Children(parentIds, Some(items[i].id)), fuel - 1))
  }

  /** Grow for each position of `idx`. */
  function GrowAll(items: seq<Node>, parentIds: seq<Option<string>>, idx: seq<nat>, fuel: nat): (r: seq<Node>)
    requires |items| == |parentIds| && forall j :: 0 <= j < |idx| ==> idx[j] < |items|
    ensures |r| == |idx|
    decreases fuel, 1, |idx|
  {
    if idx == [] then [] else [Grow(items, parentIds, idx[0], fuel)] + GrowAll(items, parentIds, idx[1..], fuel)
  }

  lemma {:induction false} GrowAllAt(items: seq<Node>, parentIds: seq<Option<string>>, idx: seq<nat>, fuel: nat, j: nat)
    requires |items| == |parentIds| && forall k :: 0 <= k < |idx| ==> idx[k] < |items|
    requires j < |idx|
    ensures GrowAll(items, parentIds, idx, fuel)[j] == Grow(items, parentIds, idx[j], fuel)
    decreases j
  {
    if j > 0 {
      GrowAllAt(items, parentIds, idx[1..], fuel, j - 1);
    }
  }

  /** The forest that the parent ids describe: the roots in input order, each
      grown to the depth of the whole list. */
  function SpecForest(items: seq<Node>, parentIds: seq<Option<string>>): seq<Node>
    requires |items| == |parentIds|
  {
    GrowAll(items, parentIds, Children(parentIds, None), |items|)
  }

  /** Node `n` copies id, label, caption and disabled from item `i`, and its
      children are rebuilt, one each and in input order, from exactly the
      items that name item `i` as parent. */
  ghost predicate RebuiltFrom(items: seq<Node>, parentIds: seq<Option<string>>, n: Node, i: nat)
    requires |items| == |parentIds|
    decreases n
  {
    && i < |items|
    && n.id == items[i].id && n.labelText == items[i].labelText
    && n.caption == items[i].caption && n.disabled == items[i].disabled
    && var kids := Children(parentIds, Some(items[i].id));
      && |n.children| == |kids|
      && forall j :: 0 <= j < |kids| ==> RebuiltFrom(items, parentIds, n.children[j], kids[j])
  }

  // Walks

  lemma {:induction false} WalkAdd(pm: map<string, Option<string>>, current: Option<string>, a: nat, b: nat)
    ensures Walk(pm, current, a + b) == Walk(pm, Walk(pm, current, a), b)
    decreases a
  {
    if a > 0 {
      WalkAdd(pm, Step(pm, current), a - 1, b);
    }
  }

  lemma WalkOne(pm: map<string, Option<string>>, current: Option<string>, k: nat)
    ensures Walk(pm, current, k + 1) == Step(pm, Walk(pm, current, k))
  {
    WalkAdd(pm, current, k, 1);
  }

  lemma {:induction false} WalkFromNone(pm: map<string, Option<string>>, k: nat)
    ensures Walk(pm, None, k) == None
  {
    if k > 0 {
      WalkFromNone(pm, k - 1);
    }
  }

  /** Once the walk has reached "no parent" it stays there. */
  lemma WalkStaysNone(pm: map<string, Option<string>>, current: Option<string>, a: nat, b: nat)
    requires a <= b && Walk(pm, current, a) == None
    ensures Walk(pm, current, b) == None
  {
    WalkAdd(pm, current, a, b - a);
    WalkFromNone(pm, b - a);
  }

  /** A walk that revisits an id is periodic from there on and never reaches
      "no parent". */
  lemma {:induction false} RepeatNeverEnds(pm: map<string, Option<string>>, current: Option<string>, a: nat, b: nat, m: nat)
    requires a < b && Walk(pm, current, a) == Walk(pm, current, b) != None
    ensures Walk(pm, current, m) != None
    decreases m
  {
    if m <= b {
      if Walk(pm, current, m) == None {
        WalkStaysNone(pm, current, m, b);
      }
    } else {
      RepeatNeverEnds(pm, current, a, b, m - (b - a));
      WalkAdd(pm, current, b, m - b);
      WalkAdd(pm, current, a, m - b);
    }
  }

  /** On a chain that reaches a root, no id occurs twice. */
  lemma NoRepeatBeforeRoot(pm: map<string, Option<string>>, id: string, a: nat, b: nat)
    requires ReachesRoot(pm, id) && a < b && Walk(pm, Some(id), a) != None
    ensures Walk(pm, Some(id), a) != Walk(pm, Some(id), b)
  {
    var k: nat :| Walk(pm, Some(id), k) == None;
    if Walk(pm, Some(id), a) == Walk(pm, Some(id), b) {
      RepeatNeverEnds(pm, Some(id), a, b, k);
    }
  }
}
