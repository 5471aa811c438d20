/** What `stratify` builds when every check passes: each root in input
    order, each item's children in input order with the item's own fields,
    and every item exactly once in the whole forest. */
module StratifyShape {
  import opened Wrappers
  import opened Tree
  import opened Forest
  import opened StratifySpec

  /** Every parent that the map names is itself a key, and every key's
      chain reaches a root. */
  ghost predicate Closed(pm: map<string, Option<string>>) {
    && (forall x {:trigger pm[x]} :: x in pm && pm[x].Some? ==> pm[x].value in pm)
    && (forall x {:trigger ReachesRoot(pm, x)} :: x in pm ==> ReachesRoot(pm, x))
  }

  /** `pm` is the parent map of the items: keyed by their (unique) ids,
      each sent to that item's parent entry, and nothing else. */
  ghost predicate Describes(pm: map<string, Option<string>>, items: seq<Node>, parentIds: seq<Option<string>>) {
    && |items| == |parentIds|
    && (forall i, j :: 0 <= i < j < |items| ==> items[i].id != items[j].id)
    && (forall i :: 0 <= i < |items| ==> items[i].id in pm && pm[items[i].id] == parentIds[i])
    && |pm.Keys| == |items|
    && Closed(pm)
  }

  /** Every key of a describing map is the id of an item. */
  lemma KeyIsItem(pm: map<string, Option<string>>, items: seq<Node>, parentIds: seq<Option<string>>, x: string)
    requires Describes(pm, items, parentIds) && x in pm
    ensures exists i :: 0 <= i < |items| && items[i].id == x
  {
    var ids := seq(|items|, i requires 0 <= i < |items| => items[i].id);
    var idSet := set y | y in ids;
    DistinctCard(ids);
    assert idSet <= pm.Keys;
    if x !in idSet {
      assert idSet <= pm.Keys - {x};
      SubsetCard(idSet, pm.Keys - {x});
    }
    var i :| 0 <= i < |ids| && ids[i] == x;
  }

  lemma {:induction false} SubsetCard(a: set<string>, b: set<string>)
    requires a <= b
    ensures |a| <= |b|
    decreases b
  {
    if a != {} {
      var y :| y in a;
      SubsetCard(a - {y}, b - {y});
    }
  }

  /** `ancestor` is `id` itself or one of its first `f` ancestors. */
  ghost predicate AncestorWithin(pm: map<string, Option<string>>, id: string, ancestor: string, f: nat) {
    exists d: nat :: d <= f && Walk(pm, Some(id), d) == Some(ancestor)
  }

  /** Input that passes every check is described by its parent map, which
      has one key per item. */
  lemma WellFormedDescribed(items: seq<Node>, parentIds: seq<Option<string>>)
    requires WellFormed(items, parentIds)
    ensures Describes(ParentMap(items, parentIds), items, parentIds)
  {
    var pm := ParentMap(items, parentIds);
    var ids := Ids(items);
    forall i, j | 0 <= i < j < |items|
      ensures items[i].id != items[j].id
    {
      assert ids[i] != ids[j];
    }
    forall i | 0 <= i < |items|
      ensures items[i].id in pm && pm[items[i].id] == parentIds[i]
    {
      ParentMapAt(items, parentIds, i);
    }
    assert |pm.Keys| == |items| by {
      assert pm.Keys == set x | x in ids;
      DistinctCard(ids);
    }
    ParentMapClosed(items, parentIds);
  }

  /** With unique ids, known parents and no cycle, the parent map is closed. */
  lemma ParentMapClosed(items: seq<Node>, parentIds: seq<Option<string>>)
    requires WellFormed(items, parentIds)
    ensures Closed(ParentMap(items, parentIds))
  {
    var pm := ParentMap(items, parentIds);
    var ids := Ids(items);
    forall x | x in pm && pm[x].Some?
      ensures pm[x].value in pm
    {
      var i :| 0 <= i < |items| && items[i].id == x;
      ParentMapAt(items, parentIds, i);
      assert !UnknownParentAt(items, parentIds, i);
      var j :| 0 <= j < |ids| && ids[j] == pm[x].value;
      assert items[j].id == pm[x].value;
    }
  }

  /** Under a closed map every id, key or not, reaches a root. */
  lemma EveryIdReachesRoot(pm: map<string, Option<string>>, x: string)
    requires Closed(pm)
    ensures ReachesRoot(pm, x)
  {
    if x !in pm {
      assert Walk(pm, Some(x), 1) == None;
    }
  }

  /** Every id on the chain of a key is a key. */
  lemma {:induction false} WalkInKeys(pm: map<string, Option<string>>, x: string, d: nat)
    requires Closed(pm) && x in pm && Walk(pm, Some(x), d).Some?
    ensures Walk(pm, Some(x), d).value in pm
  {
    if d > 0 {
      WalkOne(pm, Some(x), d - 1);
      WalkInKeys(pm, x, d - 1);
    }
  }

  /** A chain that reaches a root has a last id before it. */
  lemma {:induction false} LastBeforeRoot(pm: map<string, Option<string>>, x: string, k: nat)
    requires Walk(pm, Some(x), k) == None
    ensures exists d: nat :: d < k && Walk(pm, Some(x), d).Some? && Walk(pm, Some(x), d + 1) == None
  {
    if Walk(pm, Some(x), k - 1).Some? {
      assert k - 1 + 1 == k;
    } else {
      LastBeforeRoot(pm, x, k - 1);
    }
  }

  /** Pigeonhole: a chain from a key ends in fewer steps than there are keys. */
  lemma HopsBound(pm: map<string, Option<string>>, x: string, d: nat)
    requires Closed(pm) && x in pm && Walk(pm, Some(x), d).Some?
    ensures d < |pm.Keys|
  {
    forall t: nat | t <= d
      ensures Walk(pm, Some(x), t).Some?
    {
      if Walk(pm, Some(x), t) == None {
        WalkStaysNone(pm, Some(x), t, d);
      }
    }
    var s := seq(d + 1, t requires 0 <= t <= d => Walk(pm, Some(x), t).value);
    forall a, b | 0 <= a < b < |s|
      ensures s[a] != s[b]
    {
      NoRepeatBeforeRoot(pm, x, a, b);
    }
    DistinctCard(s);
    forall y | y in s
      ensures y in pm
    {
      var t :| 0 <= t < |s| && s[t] == y;
      WalkInKeys(pm, x, t);
    }
    SubsetCard((set y | y in s), pm.Keys);
  }

  /** Two keys with the same parent cannot lie on one chain at different
      distances. */
  lemma SameParentOrdered(pm: map<string, Option<string>>, x: string, a: string, d1: nat, b: string, d2: nat)
    requires Closed(pm) && a in pm && b in pm && d1 < d2
    requires Walk(pm, Some(x), d1) == Some(a) && Walk(pm, Some(x), d2) == Some(b)
    ensures pm[a] != pm[b]
  {
    EveryIdReachesRoot(pm, x);
    WalkOne(pm, Some(x), d1);
    WalkOne(pm, Some(x), d2);
    if pm[a] == None {
      if Walk(pm, Some(x), d2 + 1) == None {
        WalkStaysNone(pm, Some(x), d1 + 1, d2);
      }
    } else if pm[a] == pm[b] {
      NoRepeatBeforeRoot(pm, x, d1 + 1, d2 + 1);
    }
  }

  /** Two items with the same parent entry on one chain are the same item. */
  lemma SameParentUnique(pm: map<string, Option<string>>, items: seq<Node>, parentIds: seq<Option<string>>,
                         x: string, c1: nat, d1: nat, c2: nat, d2: nat)
    requires Describes(pm, items, parentIds) && c1 < |items| && c2 < |items|
    requires parentIds[c1] == parentIds[c2]
    requires Walk(pm, Some(x), d1) == Some(items[c1].id) && Walk(pm, Some(x), d2) == Some(items[c2].id)
    ensures c1 == c2
  {
    if d1 < d2 {
      SameParentOrdered(pm, x, items[c1].id, d1, items[c2].id, d2);
    } else if d2 < d1 {
      SameParentOrdered(pm, x, items[c2].id, d2, items[c1].id, d1);
    }
  }

  /** The pre-order ids of item `i` grown to depth `f`. */
  function NodeIds(items: seq<Node>, parentIds: seq<Option<string>>, i: nat, f: nat): seq<string>
    requires |items| == |parentIds| && i < |items|
  {
    var g := Grow(items, parentIds, i, f);
    [g.id] + PreorderIds(g.children)
  }

  /** The pre-order ids of the items `cs` grown to depth `f`. */
  function ListedIds(items: seq<Node>, parentIds: seq<Option<string>>, cs: seq<nat>, f: nat): seq<string>
    requires |items| == |parentIds| && forall j :: 0 <= j < |cs| ==> cs[j] < |items|
  {
    PreorderIds(GrowAll(items, parentIds, cs, f))
  }

  lemma ListedIdsCons(items: seq<Node>, parentIds: seq<Option<string>>, cs: seq<nat>, f: nat)
    requires |items| == |parentIds| && forall j :: 0 <= j < |cs| ==> cs[j] < |items|
    requires cs != []
    ensures ListedIds(items, parentIds, cs, f)
      == NodeIds(items, parentIds, cs[0], f) + ListedIds(items, parentIds, cs[1..], f)
  {
    var g := Grow(items, parentIds, cs[0], f);
    var rest := GrowAll(items, parentIds, cs[1..], f);
    assert GrowAll(items, parentIds, cs, f) == [g] + rest;
    assert PreorderIds([g] + rest) == [g.id] + PreorderIds(g.children) + PreorderIds(rest);
  }

  lemma NodeIdsInner(items: seq<Node>, parentIds: seq<Option<string>>, i: nat, f: nat)
    requires |items| == |parentIds| && i < |items| && f > 0
    ensures NodeIds(items, parentIds, i, f)
      == [items[i].id] + ListedIds(items, parentIds, Children(parentIds, Some(items[i].id)), f - 1)
  {
  }

  /** One of the items `cs` is `x` or among its first `f` ancestors. */
  ghost predicate SomeWithin(pm: map<string, Option<string>>, items: seq<Node>, cs: seq<nat>, x: string, f: nat) {
    exists j :: 0 <= j < |cs| && cs[j] < |items| && AncestorWithin(pm, x, items[cs[j]].id, f)
  }

  lemma SomeWithinCons(pm: map<string, Option<string>>, items: seq<Node>, cs: seq<nat>, x: string, f: nat)
    requires cs != [] && cs[0] < |items|
    ensures SomeWithin(pm, items, cs, x, f)
      <==> AncestorWithin(pm, x, items[cs[0]].id, f) || SomeWithin(pm, items, cs[1..], x, f)
  {
    if SomeWithin(pm, items, cs[1..], x, f) {
      var j :| 0 <= j < |cs[1..]| && cs[1..][j] < |items| && AncestorWithin(pm, x, items[cs[1..][j]].id, f);
      assert cs[j + 1] == cs[1..][j];
    }
    if SomeWithin(pm, items, cs, x, f) {
      var j :| 0 <= j < |cs| && cs[j] < |items| && AncestorWithin(pm, x, items[cs[j]].id, f);
      if j > 0 {
        assert cs[1..][j - 1] == cs[j];
      }
    }
  }

  lemma CountConcat(a: seq<string>, b: seq<string>, x: string)
    ensures multiset(a + b)[x] == multiset(a)[x] + multiset(b)[x]
  {
  }

  /** Item `i` is among the first `f` ancestors of `x` (or is `x`) exactly
      when it is `x` or one of its children is among the first `f - 1`, and
      not both. */
  lemma AncestorStep(pm: map<string, Option<string>>, items: seq<Node>, parentIds: seq<Option<string>>,
                     i: nat, f: nat, x: string)
    requires Describes(pm, items, parentIds) && i < |items| && f > 0
    ensures var kids := Children(parentIds, Some(items[i].id));
      && (AncestorWithin(pm, x, items[i].id, f) <==> x == items[i].id || SomeWithin(pm, items, kids, x, f - 1))
      && !(x == items[i].id && SomeWithin(pm, items, kids, x, f - 1))
  {
    var kids := Children(parentIds, Some(items[i].id));
    if SomeWithin(pm, items, kids, x, f - 1) {
      ChildAncestor(pm, items, parentIds, i, f, x);
    }
    if x == items[i].id {
      assert Walk(pm, Some(x), 0) == Some(items[i].id);
    } else if AncestorWithin(pm, x, items[i].id, f) {
      AncestorThroughChild(pm, items, parentIds, i, f, x);
    }
  }

  /** If a child of item `i` is among the first `f - 1` ancestors of `x`,
      item `i` is a strict one among the first `f`. */
  lemma ChildAncestor(pm: map<string, Option<string>>, items: seq<Node>, parentIds: seq<Option<string>>,
                      i: nat, f: nat, x: string)
    requires Describes(pm, items, parentIds) && i < |items| && f > 0
    requires SomeWithin(pm, items, Children(parentIds, Some(items[i].id)), x, f - 1)
    ensures AncestorWithin(pm, x, items[i].id, f) && x != items[i].id
  {
    var kids := Children(parentIds, Some(items[i].id));
    var j :| 0 <= j < |kids| && kids[j] < |items| && AncestorWithin(pm, x, items[kids[j]].id, f - 1);
    var d: nat :| d <= f - 1 && Walk(pm, Some(x), d) == Some(items[kids[j]].id);
    ChildrenSpec(parentIds, Some(items[i].id));
    WalkOne(pm, Some(x), d);
    assert Walk(pm, Some(x), d + 1) == Some(items[i].id);
    if x == items[i].id {
      EveryIdReachesRoot(pm, x);
      NoRepeatBeforeRoot(pm, x, 0, d + 1);
    }
  }

  /** A strict ancestor `i` of `x` among its first `f` is reached through one
      of item `i`'s children. */
  lemma AncestorThroughChild(pm: map<string, Option<string>>, items: seq<Node>, parentIds: seq<Option<string>>,
                             i: nat, f: nat, x: string)
    requires Describes(pm, items, parentIds) && i < |items| && f > 0
    requires AncestorWithin(pm, x, items[i].id, f) && x != items[i].id
    ensures SomeWithin(pm, items, Children(parentIds, Some(items[i].id)), x, f - 1)
  {
    var kids := Children(parentIds, Some(items[i].id));
    var d: nat :| d <= f && Walk(pm, Some(x), d) == Some(items[i].id);
    WalkOne(pm, Some(x), d - 1);
    var y := Walk(pm, Some(x), d - 1).value;
    KeyIsItem(pm, items, parentIds, y);
    var c :| 0 <= c < |items| && items[c].id == y;
    assert parentIds[c] == Some(items[i].id);
    ChildrenSpec(parentIds, Some(items[i].id));
    assert c in kids;
    var j :| 0 <= j < |kids| && kids[j] == c;
    assert Walk(pm, Some(x), d - 1) == Some(items[kids[j]].id);
    assert AncestorWithin(pm, x, items[kids[j]].id, f - 1);
  }

  lemma AncestorWithinZero(pm: map<string, Option<string>>, x: string, y: string)
    ensures AncestorWithin(pm, x, y, 0) <==> x == y
  {
    assert Walk(pm, Some(x), 0) == Some(x);
  }

  /** `x` occurs once in `[here] + below` when it is `here` or occurs once
      in `below`, but not both. */
  lemma OnceCount(here: string, below: seq<string>, x: string, once: bool, inBelow: bool)
    requires multiset(below)[x] == if inBelow then 1 else 0
    requires once <==> x == here || inBelow
    requires !(x == here && inBelow)
    ensures multiset([here] + below)[x] == if once then 1 else 0
  {
    assert multiset([here] + below) == multiset{here} + multiset(below);
  }

  lemma LeafCount(pm: map<string, Option<string>>, items: seq<Node>, parentIds: seq<Option<string>>, i: nat, x: string)
    requires |items| == |parentIds| && i < |items|
    ensures multiset(NodeIds(items, parentIds, i, 0))[x] == if AncestorWithin(pm, x, items[i].id, 0) then 1 else 0
  {
    var g := Grow(items, parentIds, i, 0);
    assert g.children == [];
    assert NodeIds(items, parentIds, i, 0) == [items[i].id];
    AncestorWithinZero(pm, x, items[i].id);
  }

  /** How often `x` occurs in the pre-order listing of item `i` grown to
      depth `f`: once if item `i` is `x` or one of its first `f` ancestors,
      otherwise never. */
  lemma {:induction false} GrowCount(pm: map<string, Option<string>>, items: seq<Node>, parentIds: seq<Option<string>>,
                                     i: nat, f: nat, x: string)
    requires Describes(pm, items, parentIds) && i < |items|
    ensures multiset(NodeIds(items, parentIds, i, f))[x]
      == if AncestorWithin(pm, x, items[i].id, f) then 1 else 0
    decreases f, 0
  {
    if f == 0 {
      LeafCount(pm, items, parentIds, i, x);
    } else {
      var kids := Children(parentIds, Some(items[i].id));
      NodeIdsInner(items, parentIds, i, f);
      ChildrenSpec(parentIds, Some(items[i].id));
      GrowAllCount(pm, items, parentIds, kids, Some(items[i].id), f - 1, x);
      AncestorStep(pm, items, parentIds, i, f, x);
      OnceCount(items[i].id, ListedIds(items, parentIds, kids, f - 1), x,
                AncestorWithin(pm, x, items[i].id, f), SomeWithin(pm, items, kids, x, f - 1));
    }
  }

  /** How often `x` occurs in the pre-order listing of the items `cs`, all
      with the same parent entry and in increasing order, grown to depth `f`:
      once if one of them is `x` or among its first `f` ancestors. */
  lemma {:induction false} GrowAllCount(pm: map<string, Option<string>>, items: seq<Node>, parentIds: seq<Option<string>>,
                                        cs: seq<nat>, parent: Option<string>, f: nat, x: string)
    requires Describes(pm, items, parentIds)
    requires forall j :: 0 <= j < |cs| ==> cs[j] < |items| && parentIds[cs[j]] == parent
    requires forall a, b :: 0 <= a < b < |cs| ==> cs[a] < cs[b]
    ensures multiset(ListedIds(items, parentIds, cs, f))[x]
      == if SomeWithin(pm, items, cs, x, f) then 1 else 0
    decreases f, 1, |cs|
  {
    if cs != [] {
      ListedIdsCons(items, parentIds, cs, f);
      CountConcat(NodeIds(items, parentIds, cs[0], f), ListedIds(items, parentIds, cs[1..], f), x);
      GrowCount(pm, items, parentIds, cs[0], f, x);
      GrowAllCount(pm, items, parentIds, cs[1..], parent, f, x);
      SomeWithinCons(pm, items, cs, x, f);
      if AncestorWithin(pm, x, items[cs[0]].id, f) {
        NotTwice(pm, items, parentIds, cs, parent, f, x);
      }
    }
  }

  /** Of items with the same parent entry, at most one lies on the chain of
      `x`. */
  lemma NotTwice(pm: map<string, Option<string>>, items: seq<Node>, parentIds: seq<Option<string>>,
                 cs: seq<nat>, parent: Option<string>, f: nat, x: string)
    requires Describes(pm, items, parentIds) && cs != []
    requires forall j :: 0 <= j < |cs| ==> cs[j] < |items| && parentIds[cs[j]] == parent
    requires forall a, b :: 0 <= a < b < |cs| ==> cs[a] < cs[b]
    requires AncestorWithin(pm, x, items[cs[0]].id, f)
    ensures !SomeWithin(pm, items, cs[1..], x, f)
  {
    if SomeWithin(pm, items, cs[1..], x, f) {
      var rest := cs[1..];
      var j :| 0 <= j < |rest| && rest[j] < |items| && AncestorWithin(pm, x, items[rest[j]].id, f);
      assert rest[j] == cs[j + 1];
      var d1: nat :| d1 <= f && Walk(pm, Some(x), d1) == Some(items[cs[0]].id);
      var d2: nat :| d2 <= f && Walk(pm, Some(x), d2) == Some(items[cs[j + 1]].id);
      SameParentUnique(pm, items, parentIds, x, cs[0], d1, cs[j + 1], d2);
    }
  }

  /** In a sequence without repeats every member occurs once. */
  lemma {:induction false} DistinctCount(s: seq<string>, x: string)
    requires Distinct(s)
    ensures multiset(s)[x] == if x in s then 1 else 0
  {
    if s != [] {
      assert s == [s[0]] + s[1..];
      DistinctCount(s[1..], x);
      forall j | 0 <= j < |s[1..]|
        ensures s[1..][j] != s[0]
      {
        assert s[1..][j] == s[j + 1];
      }
    }
  }

  /** Every item appears exactly once in the forest that the parent ids
      describe, and nothing else appears. */
  lemma SpecForestListsEachItemOnce(items: seq<Node>, parentIds: seq<Option<string>>)
    requires WellFormed(items, parentIds)
    ensures multiset(PreorderIds(SpecForest(items, parentIds))) == multiset(Ids(items))
  {
    var pm := ParentMap(items, parentIds);
    WellFormedDescribed(items, parentIds);
    forall x
      ensures multiset(PreorderIds(SpecForest(items, parentIds)))[x] == multiset(Ids(items))[x]
    {
      DistinctCount(Ids(items), x);
      ForestCount(pm, items, parentIds, x);
      if x in Ids(items) {
        var i :| 0 <= i < |items| && Ids(items)[i] == x;
        assert items[i].id == x;
      }
    }
  }

  lemma ForestCount(pm: map<string, Option<string>>, items: seq<Node>, parentIds: seq<Option<string>>, x: string)
    requires Describes(pm, items, parentIds)
    ensures multiset(ListedIds(items, parentIds, Children(parentIds, None), |items|))[x] == if x in pm then 1 else 0
  {
    var roots := Children(parentIds, None);
    ChildrenSpec(parentIds, None);
    GrowAllCount(pm, items, parentIds, roots, None, |items|, x);
    if x in pm {
      ChainHasRoot(pm, items, parentIds, x);
    } else {
      OnlyKeysHaveRoots(pm, items, parentIds, x);
    }
  }

  /** The chain of a key reaches one of the roots within as many steps as
      there are items. */
  lemma ChainHasRoot(pm: map<string, Option<string>>, items: seq<Node>, parentIds: seq<Option<string>>, x: string)
    requires Describes(pm, items, parentIds) && x in pm
    ensures SomeWithin(pm, items, Children(parentIds, None), x, |items|)
  {
    var roots := Children(parentIds, None);
    EveryIdReachesRoot(pm, x);
    var k: nat :| Walk(pm, Some(x), k) == None;
    LastBeforeRoot(pm, x, k);
    var d: nat :| d < k && Walk(pm, Some(x), d).Some? && Walk(pm, Some(x), d + 1) == None;
    WalkInKeys(pm, x, d);
    HopsBound(pm, x, d);
    var y := Walk(pm, Some(x), d).value;
    KeyIsItem(pm, items, parentIds, y);
    var r :| 0 <= r < |items| && items[r].id == y;
    WalkOne(pm, Some(x), d);
    assert parentIds[r] == None;
    ChildrenSpec(parentIds, None);
    assert r in roots;
    var j :| 0 <= j < |roots| && roots[j] == r;
    assert AncestorWithin(pm, x, items[roots[j]].id, |items|);
  }

  /** An id that is not a key has no item on its chain. */
  lemma OnlyKeysHaveRoots(pm: map<string, Option<string>>, items: seq<Node>, parentIds: seq<Option<string>>, x: string)
    requires Describes(pm, items, parentIds) && x !in pm
    ensures !SomeWithin(pm, items, Children(parentIds, None), x, |items|)
  {
    var roots := Children(parentIds, None);
    if SomeWithin(pm, items, roots, x, |items|) {
      var j :| 0 <= j < |roots| && roots[j] < |items| && AncestorWithin(pm, x, items[roots[j]].id, |items|);
      var d: nat :| d <= |items| && Walk(pm, Some(x), d) == Some(items[roots[j]].id);
      assert Walk(pm, Some(x), 1) == None;
      WalkStaysNone(pm, Some(x), 1, d);
    }
  }

  /** Item `i`, which is `d` steps below a root, grown with enough depth is
      rebuilt completely from the input. */
  lemma {:induction false} GrowRebuilt(pm: map<string, Option<string>>, items: seq<Node>, parentIds: seq<Option<string>>,
                                       i: nat, f: nat, d: nat)
    requires Describes(pm, items, parentIds) && i < |items|
    requires Walk(pm, Some(items[i].id), d).Some? && Walk(pm, Some(items[i].id), d + 1) == None
    requires d + f >= |items| - 1
    ensures GrowsBack(items, parentIds, i, f)
    decreases f
  {
    var kids := Children(parentIds, Some(items[i].id));
    ChildrenSpec(parentIds, Some(items[i].id));
    if kids == [] {
      RebuiltLeaf(items, parentIds, i, f);
    } else {
      ChildDepth(pm, items, parentIds, i, d, kids[0]);
      forall j | 0 <= j < |kids|
        ensures GrowsBack(items, parentIds, kids[j], f - 1)
      {
        ChildDepth(pm, items, parentIds, i, d, kids[j]);
        GrowRebuilt(pm, items, parentIds, kids[j], f - 1, d + 1);
      }
      RebuiltInner(items, parentIds, i, f);
    }
  }

  /** Item `i` grown to depth `f` is rebuilt completely from the input. */
  ghost predicate GrowsBack(items: seq<Node>, parentIds: seq<Option<string>>, i: nat, f: nat)
    requires |items| == |parentIds| && i < |items|
  {
    RebuiltFrom(items, parentIds, Grow(items, parentIds, i, f), i)
  }

  lemma RebuiltLeaf(items: seq<Node>, parentIds: seq<Option<string>>, i: nat, f: nat)
    requires |items| == |parentIds| && i < |items| && Children(parentIds, Some(items[i].id)) == []
    ensures GrowsBack(items, parentIds, i, f)
  {
    assert |Grow(items, parentIds, i, f).children| == 0;
  }

  lemma RebuiltInner(items: seq<Node>, parentIds: seq<Option<string>>, i: nat, f: nat)
    requires |items| == |parentIds| && i < |items| && f > 0
    requires forall j :: 0 <= j < |Children(parentIds, Some(items[i].id))| ==>
      GrowsBack(items, parentIds, Children(parentIds, Some(items[i].id))[j], f - 1)
    ensures GrowsBack(items, parentIds, i, f)
  {
    var kids := Children(parentIds, Some(items[i].id));
    forall j | 0 <= j < |kids|
      ensures RebuiltFrom(items, parentIds, GrowAll(items, parentIds, kids, f - 1)[j], kids[j])
    {
      GrowAllAt(items, parentIds, kids, f - 1, j);
      assert GrowsBack(items, parentIds, kids[j], f - 1);
    }
  }

  /** A child of an item `d` steps below a root is `d + 1` steps below it,
      and that still leaves fewer steps than items. */
  lemma ChildDepth(pm: map<string, Option<string>>, items: seq<Node>, parentIds: seq<Option<string>>,
                   i: nat, d: nat, c: nat)
    requires Describes(pm, items, parentIds) && i < |items| && c < |items|
    requires parentIds[c] == Some(items[i].id)
    requires Walk(pm, Some(items[i].id), d).Some? && Walk(pm, Some(items[i].id), d + 1) == None
    ensures Walk(pm, Some(items[c].id), d + 1).Some? && Walk(pm, Some(items[c].id), d + 2) == None
    ensures d + 1 < |items|
  {
    assert Walk(pm, Some(items[c].id), 1) == Some(items[i].id);
    WalkAdd(pm, Some(items[c].id), 1, d);
    WalkAdd(pm, Some(items[c].id), 1, d + 1);
    HopsBound(pm, items[c].id, 1 + d);
  }

  /** The forest that the parent ids describe has one tree per item without
      parent, in input order, each rebuilt completely from the input. */
  lemma SpecForestRebuilt(items: seq<Node>, parentIds: seq<Option<string>>)
    requires WellFormed(items, parentIds)
    ensures var roots := Children(parentIds, None);
      var forest := SpecForest(items, parentIds);
      |forest| == |roots| && forall j :: 0 <= j < |roots| ==> RebuiltFrom(items, parentIds, forest[j], roots[j])
  {
    var pm := ParentMap(items, parentIds);
    var roots := Children(parentIds, None);
    WellFormedDescribed(items, parentIds);
    ChildrenSpec(parentIds, None);
    forall j | 0 <= j < |roots|
      ensures RebuiltFrom(items, parentIds, SpecForest(items, parentIds)[j], roots[j])
    {
      var r := roots[j];
      assert Walk(pm, Some(items[r].id), 1) == None;
      GrowAllAt(items, parentIds, roots, |items|, j);
      GrowRebuilt(pm, items, parentIds, r, |items|, 0);
      assert GrowsBack(items, parentIds, r, |items|);
    }
  }
}
