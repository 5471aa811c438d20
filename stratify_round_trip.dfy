/** The round trip of `stratify` in shiny_treeview/utils.py: list a forest
    in pre-order as childless items with their parents' ids, stratify that
    list, and the same forest comes back. */
module StratifyRoundTrip {
  import opened Wrappers
  import opened Tree
  import opened Forest
  import opened StratifySpec
  import opened StratifyShape
  import opened Stratify
  import opened Stretch

  /** The nodes of a forest in pre-order, each with its children removed. */
  function FlatItems(forest: seq<Node>): (r: seq<Node>)
    ensures |r| == |PreorderIds(forest)|
    decreases forest
  {
    if forest == [] then []
    else [forest[0].(children := [])] + FlatItems(forest[0].children) + FlatItems(forest[1..])
  }

  /** The flattened items carry the forest's ids in pre-order. */
  lemma {:induction false} FlatItemsIds(forest: seq<Node>)
    ensures Ids(FlatItems(forest)) == PreorderIds(forest)
    decreases forest
  {
    if forest != [] {
      var n := forest[0];
      FlatItemsIds(n.children);
      FlatItemsIds(forest[1..]);
      var a := FlatItems(n.children);
      var b := FlatItems(forest[1..]);
      assert Ids([n.(children := [])] + a + b) == [n.id] + Ids(a) + Ids(b);
    }
  }

  /** The parent id of each node of `FlatItems(forest)`, the roots getting
      `parent`. */
  function FlatParents(forest: seq<Node>, parent: Option<string>): (r: seq<Option<string>>)
    ensures |r| == |PreorderIds(forest)|
    decreases forest
  {
    if forest == [] then []
    else [parent] + FlatParents(forest[0].children, Some(forest[0].id)) + FlatParents(forest[1..], parent)
  }

  /** A forest as the two parallel lists that `stratify` takes. */
  function Flatten(forest: seq<Node>): (seq<Node>, seq<Option<string>>) {
    (FlatItems(forest), FlatParents(forest, None))
  }

  /** The positions of the roots of `forest` in its flattened lists, when
      those start at position `offset`. */
  function RootPositions(forest: seq<Node>, offset: nat): (r: seq<nat>)
    ensures |r| == |forest|
    decreases forest
  {
    if forest == [] then []
    else [offset] + RootPositions(forest[1..], offset + 1 + |PreorderIds(forest[0].children)|)
  }

  /** The root positions start at the offset and increase strictly. */
  lemma {:induction false} RootPositionsIncreasing(forest: seq<Node>, offset: nat)
    ensures forall j :: 0 <= j < |RootPositions(forest, offset)| ==> offset <= RootPositions(forest, offset)[j]
    ensures forall a, b :: 0 <= a < b < |RootPositions(forest, offset)| ==>
      RootPositions(forest, offset)[a] < RootPositions(forest, offset)[b]
    decreases forest
  {
    if forest != [] {
      var next := offset + 1 + |PreorderIds(forest[0].children)|;
      var r := RootPositions(forest, offset);
      var later := RootPositions(forest[1..], next);
      RootPositionsIncreasing(forest[1..], next);
      assert r == [offset] + later;
      forall a, b | 0 <= a < b < |r|
        ensures r[a] < r[b]
      {
        assert r[b] == later[b - 1];
        if a > 0 {
          assert r[a] == later[a - 1];
        }
      }
    }
  }

  lemma {:induction false} DistinctSplit(s: seq<string>, t: seq<string>)
    requires Distinct(s + t)
    ensures Distinct(s) && Distinct(t)
    ensures forall x :: x in s ==> x !in t
  {
    forall i, j | 0 <= i < j < |s|
      ensures s[i] != s[j]
    {
      assert (s + t)[i] == s[i] && (s + t)[j] == s[j];
    }
    forall i, j | 0 <= i < j < |t|
      ensures t[i] != t[j]
    {
      assert (s + t)[|s| + i] == t[i] && (s + t)[|s| + j] == t[j];
    }
    forall x | x in s
      ensures x !in t
    {
      var i :| 0 <= i < |s| && s[i] == x;
      forall j | 0 <= j < |t|
        ensures t[j] != x
      {
        assert (s + t)[i] == x && (s + t)[|s| + j] == t[j];
      }
    }
  }

  /** Position `k` of the flattened lists holds a root of `forest`. */
  predicate RootAt(forest: seq<Node>, k: nat)
    decreases forest
  {
    && forest != []
    && var c := |PreorderIds(forest[0].children)|;
      (k == 0 || (k > c && RootAt(forest[1..], k - 1 - c)))
  }

  /** The flattened lists of a non-empty forest: its first root, that
      root's subtree, then the later roots' subtrees. */
  lemma {:induction false} FlatUnfold(forest: seq<Node>, parent: Option<string>)
    requires forest != []
    ensures var n := forest[0];
      && PreorderIds(forest) == [n.id] + PreorderIds(n.children) + PreorderIds(forest[1..])
      && FlatParents(forest, parent) == [parent] + FlatParents(n.children, Some(n.id)) + FlatParents(forest[1..], parent)
  {
  }

  lemma {:induction false} FlatItemsUnfold(forest: seq<Node>)
    requires forest != []
    ensures FlatItems(forest) == [forest[0].(children := [])] + FlatItems(forest[0].children) + FlatItems(forest[1..])
  {
  }

  /** `RootPositions` lists exactly the root positions, shifted by the
      offset. */
  lemma {:induction false} RootPositionsMembers(forest: seq<Node>, offset: nat, x: nat)
    ensures x in RootPositions(forest, offset) <==>
      offset <= x < offset + |PreorderIds(forest)| && RootAt(forest, x - offset)
    decreases forest
  {
    if forest != [] {
      var c := |PreorderIds(forest[0].children)|;
      FlatUnfold(forest, None);
      RootPositionsMembers(forest[1..], offset + 1 + c, x);
    }
  }

  /** Entry `k` of the flattened parents is `parent` at a root position, and
      otherwise the id of a node listed before position `k`. */
  lemma {:induction false} FlatParentsShape(forest: seq<Node>, parent: Option<string>, k: nat)
    requires k < |PreorderIds(forest)|
    ensures RootAt(forest, k) ==> FlatParents(forest, parent)[k] == parent
    ensures !RootAt(forest, k) ==>
      FlatParents(forest, parent)[k].Some? && FlatParents(forest, parent)[k].value in PreorderIds(forest)[..k]
    decreases forest, 1
  {
    var c := |PreorderIds(forest[0].children)|;
    if k == 0 {
      FlatUnfold(forest, parent);
    } else if k < 1 + c {
      ShapeInChildren(forest, parent, k);
    } else {
      ShapeInLater(forest, parent, k);
    }
  }

  /** FlatParentsShape at a position inside the first root's subtree. */
  lemma {:induction false} ShapeInChildren(forest: seq<Node>, parent: Option<string>, k: nat)
    requires forest != [] && 1 <= k < 1 + |PreorderIds(forest[0].children)|
    ensures !RootAt(forest, k)
    ensures FlatParents(forest, parent)[k].Some? && FlatParents(forest, parent)[k].value in PreorderIds(forest)[..k]
    decreases forest, 0
  {
    var n := forest[0];
    var rest := forest[1..];
    FlatUnfold(forest, parent);
    FlatParentsShape(n.children, Some(n.id), k - 1);
    ShapeBelow(PreorderIds(forest), n.id, PreorderIds(n.children), PreorderIds(rest),
      FlatParents(forest, parent), parent, FlatParents(n.children, Some(n.id)), FlatParents(rest, parent), k);
  }

  /** FlatParentsShape at a position among the later roots' subtrees. */
  lemma {:induction false} ShapeInLater(forest: seq<Node>, parent: Option<string>, k: nat)
    requires forest != [] && 1 + |PreorderIds(forest[0].children)| <= k < |PreorderIds(forest)|
    ensures RootAt(forest, k) ==> FlatParents(forest, parent)[k] == parent
    ensures !RootAt(forest, k) ==>
      FlatParents(forest, parent)[k].Some? && FlatParents(forest, parent)[k].value in PreorderIds(forest)[..k]
    decreases forest, 0
  {
    var n := forest[0];
    var rest := forest[1..];
    var c := |PreorderIds(n.children)|;
    FlatUnfold(forest, parent);
    FlatParentsShape(rest, parent, k - 1 - c);
    ShapeAfter(PreorderIds(forest), n.id, PreorderIds(n.children), PreorderIds(rest),
      FlatParents(forest, parent), parent, FlatParents(n.children, Some(n.id)), FlatParents(rest, parent), k);
  }

  /** FlatParentsShape inside the first root's subtree. */
  lemma {:induction false} ShapeBelow(ids: seq<string>, x: string, a: seq<string>, b: seq<string>, fp: seq<Option<string>>,
                   parent: Option<string>, below: seq<Option<string>>, after: seq<Option<string>>, k: nat)
    requires ids == [x] + a + b && fp == [parent] + below + after && |below| == |a| && 1 <= k <= |a|
    requires below[k - 1] == Some(x) || (below[k - 1].Some? && below[k - 1].value in a[..k - 1])
    ensures fp[k].Some? && fp[k].value in ids[..k]
  {
    assert fp[k] == below[k - 1];
    assert ids[0] == x;
    if below[k - 1] != Some(x) {
      var m :| 0 <= m < k - 1 && a[m] == below[k - 1].value;
      assert ids[1 + m] == a[m];
    }
  }

  /** FlatParentsShape among the later roots' subtrees. */
  lemma {:induction false} ShapeAfter(ids: seq<string>, x: string, a: seq<string>, b: seq<string>, fp: seq<Option<string>>,
                   parent: Option<string>, below: seq<Option<string>>, after: seq<Option<string>>, k: nat)
    requires ids == [x] + a + b && fp == [parent] + below + after && |below| == |a| && |after| == |b|
    requires 1 + |a| <= k < |ids|
    ensures fp[k] == after[k - 1 - |a|]
    ensures after[k - 1 - |a|].Some? && after[k - 1 - |a|].value in b[..k - 1 - |a|] ==> fp[k].value in ids[..k]
  {
    var k' := k - 1 - |a|;
    assert fp[k] == after[k'];
    if after[k'].Some? && after[k'].value in b[..k'] {
      var m :| 0 <= m < k' && b[m] == after[k'].value;
      assert ids[1 + |a| + m] == b[m];
    }
  }

  /** Past a common first element, a later member of a strictly increasing
      list is a later member of any list holding all its members. */
  lemma {:induction false} TailMember(a: seq<nat>, b: seq<nat>, x: nat)
    requires a != [] && b != [] && a[0] == b[0]
    requires forall i, j :: 0 <= i < j < |a| ==> a[i] < a[j]
    requires forall y :: y in a ==> y in b
    requires x in a[1..]
    ensures x in b[1..]
  {
    var i :| 0 <= i < |a[1..]| && a[1..][i] == x;
    assert a[0] < a[i + 1] == x && x in a;
    var j :| 0 <= j < |b| && b[j] == x;
    assert j != 0 && b[1..][j - 1] == x;
  }

  /** Two strictly increasing position lists with the same members are
      equal. */
  lemma {:induction false} IncreasingUnique(a: seq<nat>, b: seq<nat>)
    requires forall i, j :: 0 <= i < j < |a| ==> a[i] < a[j]
    requires forall i, j :: 0 <= i < j < |b| ==> b[i] < b[j]
    requires forall x :: x in a <==> x in b
    ensures a == b
  {
    if a != [] {
      assert a[0] in a;
    }
    if b != [] {
      assert b[0] in b;
    }
    if a != [] && b != [] {
      assert b[0] in a && a[0] in b;
      var i0 :| 0 <= i0 < |a| && a[i0] == b[0];
      var j0 :| 0 <= j0 < |b| && b[j0] == a[0];
      assert a[0] <= a[i0] && b[0] <= b[j0];
      forall x
        ensures x in a[1..] <==> x in b[1..]
      {
        if x in a[1..] {
          TailMember(a, b, x);
        }
        if x in b[1..] {
          TailMember(b, a, x);
        }
      }
      IncreasingUnique(a[1..], b[1..]);
      assert a == [a[0]] + a[1..] && b == [b[0]] + b[1..];
    }
  }

  /** The ids of a forest with unique ids: the first root's, its subtree's
      and the later roots' subtrees' are apart and each without repeats. */
  lemma {:induction false} IdsSplit(forest: seq<Node>)
    requires forest != [] && Distinct(PreorderIds(forest))
    ensures var n := forest[0];
      var a := PreorderIds(n.children);
      var b := PreorderIds(forest[1..]);
      && |PreorderIds(forest)| == 1 + |a| + |b|
      && Distinct(a) && Distinct(b)
      && n.id in PreorderIds(forest) && n.id !in a && n.id !in b
      && (forall x :: x in a ==> x !in b && x in PreorderIds(forest))
      && (forall x :: x in b ==> x in PreorderIds(forest))
  {
    var n := forest[0];
    var a := PreorderIds(n.children);
    var b := PreorderIds(forest[1..]);
    assert PreorderIds(forest) == [n.id] + (a + b);
    DistinctSplit([n.id], a + b);
    DistinctSplit(a, b);
  }

  /** A parents' entry inside a flattened stretch is the roots' parent at a
      root position and otherwise one of the stretch's own ids. */
  lemma {:induction false} StretchEntry(parentIds: seq<Option<string>>, forest: seq<Node>, parent: Option<string>, offset: nat, k: nat)
    requires Matches(parentIds, offset, FlatParents(forest, parent))
    requires offset <= k < offset + |PreorderIds(forest)|
    ensures RootAt(forest, k - offset) ==> parentIds[k] == parent
    ensures !RootAt(forest, k - offset) ==> parentIds[k].Some? && parentIds[k].value in PreorderIds(forest)
  {
    var ids := PreorderIds(forest);
    assert parentIds[k] == FlatParents(forest, parent)[k - offset];
    FlatParentsShape(forest, parent, k - offset);
    if !RootAt(forest, k - offset) {
      var m :| 0 <= m < k - offset && ids[..k - offset][m] == parentIds[k].value;
      assert ids[m] == ids[..k - offset][m];
    }
  }

  /** `forest` sits in the parallel lists from position `offset` on, with
      `parent` for its roots, and no entry outside that stretch names one of
      its nodes as parent. */
  ghost predicate Embedded(items: seq<Node>, parentIds: seq<Option<string>>, forest: seq<Node>,
                           parent: Option<string>, offset: nat)
  {
    var ids := PreorderIds(forest);
    && |items| == |parentIds|
    && Matches(items, offset, FlatItems(forest))
    && Matches(parentIds, offset, FlatParents(forest, parent))
    && Distinct(ids)
    && (parent.Some? ==> parent.value !in ids)
    && forall k :: 0 <= k < |parentIds| && !(offset <= k < offset + |ids|) && parentIds[k].Some? ==>
      parentIds[k].value !in ids
  }

  /** The parents' stretch of an embedded forest starts with the first
      root's parent, */
  lemma {:induction false} ParentAtRoot(parentIds: seq<Option<string>>, forest: seq<Node>, parent: Option<string>, offset: nat)
    requires forest != [] && Matches(parentIds, offset, FlatParents(forest, parent))
    ensures parentIds[offset] == parent
  {
    FlatUnfold(forest, parent);
    MatchesHead(parentIds, offset, FlatParents(forest, parent), parent,
      FlatParents(forest[0].children, Some(forest[0].id)), FlatParents(forest[1..], parent));
  }

  /** goes on with the entries of that root's subtree, */
  lemma {:induction false} ParentsBelow(parentIds: seq<Option<string>>, forest: seq<Node>, parent: Option<string>, offset: nat)
    requires forest != [] && Matches(parentIds, offset, FlatParents(forest, parent))
    ensures Matches(parentIds, offset + 1, FlatParents(forest[0].children, Some(forest[0].id)))
  {
    FlatUnfold(forest, parent);
    MatchesMiddle(parentIds, offset, FlatParents(forest, parent), parent,
      FlatParents(forest[0].children, Some(forest[0].id)), FlatParents(forest[1..], parent));
  }

  /** and ends with the later roots' subtrees'. */
  lemma {:induction false} ParentsAfter(parentIds: seq<Option<string>>, forest: seq<Node>, parent: Option<string>, offset: nat)
    requires forest != [] && Matches(parentIds, offset, FlatParents(forest, parent))
    ensures Matches(parentIds, offset + 1 + |PreorderIds(forest[0].children)|, FlatParents(forest[1..], parent))
  {
    FlatUnfold(forest, parent);
    MatchesLast(parentIds, offset, FlatParents(forest, parent), parent,
      FlatParents(forest[0].children, Some(forest[0].id)), FlatParents(forest[1..], parent),
      offset + 1 + |PreorderIds(forest[0].children)|);
  }

  /** The items' stretch of an embedded forest starts with the first root
      without its children, */
  lemma {:induction false} ItemAtRoot(items: seq<Node>, forest: seq<Node>, offset: nat)
    requires forest != [] && Matches(items, offset, FlatItems(forest))
    ensures items[offset] == forest[0].(children := [])
  {
    FlatItemsUnfold(forest);
    MatchesHead(items, offset, FlatItems(forest), forest[0].(children := []),
      FlatItems(forest[0].children), FlatItems(forest[1..]));
  }

  /** goes on with the items of that root's subtree, */
  lemma {:induction false} ItemsBelow(items: seq<Node>, forest: seq<Node>, offset: nat)
    requires forest != [] && Matches(items, offset, FlatItems(forest))
    ensures Matches(items, offset + 1, FlatItems(forest[0].children))
  {
    FlatItemsUnfold(forest);
    MatchesMiddle(items, offset, FlatItems(forest), forest[0].(children := []),
      FlatItems(forest[0].children), FlatItems(forest[1..]));
  }

  /** and ends with the later roots' subtrees'. */
  lemma {:induction false} ItemsAfter(items: seq<Node>, forest: seq<Node>, offset: nat)
    requires forest != [] && Matches(items, offset, FlatItems(forest))
    ensures Matches(items, offset + 1 + |PreorderIds(forest[0].children)|, FlatItems(forest[1..]))
  {
    FlatItemsUnfold(forest);
    MatchesLast(items, offset, FlatItems(forest), forest[0].(children := []),
      FlatItems(forest[0].children), FlatItems(forest[1..]), offset + 1 + |PreorderIds(forest[0].children)|);
  }

  /** Outside the first root's subtree, no entry of an embedded forest's
      parents names a node of that subtree. */
  lemma {:induction false} OutsideChildren(items: seq<Node>, parentIds: seq<Option<string>>, forest: seq<Node>,
                                           parent: Option<string>, offset: nat, k: nat)
    requires forest != [] && Embedded(items, parentIds, forest, parent, offset)
    requires k < |parentIds| && !(offset + 1 <= k < offset + 1 + |PreorderIds(forest[0].children)|)
    requires parentIds[k].Some?
    ensures parentIds[k].value !in PreorderIds(forest[0].children)
  {
    var c := |PreorderIds(forest[0].children)|;
    IdsSplit(forest);
    if k == offset {
      ParentAtRoot(parentIds, forest, parent, offset);
    } else if offset + 1 + c <= k < offset + |PreorderIds(forest)| {
      LaterNameNoChild(parentIds, forest, parent, offset, k);
    }
  }

  /** Within the later roots' subtrees, no entry names a node of the first
      root's subtree. */
  lemma {:induction false} LaterNameNoChild(parentIds: seq<Option<string>>, forest: seq<Node>,
                                            parent: Option<string>, offset: nat, k: nat)
    requires forest != [] && Matches(parentIds, offset, FlatParents(forest, parent))
    requires Distinct(PreorderIds(forest)) && (parent.Some? ==> parent.value !in PreorderIds(forest))
    requires offset + 1 + |PreorderIds(forest[0].children)| <= k < offset + |PreorderIds(forest)|
    requires parentIds[k].Some?
    ensures parentIds[k].value !in PreorderIds(forest[0].children)
  {
    IdsSplit(forest);
    ParentsAfter(parentIds, forest, parent, offset);
    StretchEntry(parentIds, forest[1..], parent, offset + 1 + |PreorderIds(forest[0].children)|, k);
  }

  /** Outside the later roots' subtrees, no entry of an embedded forest's
      parents names a node of those subtrees. */
  lemma {:induction false} OutsideLater(items: seq<Node>, parentIds: seq<Option<string>>, forest: seq<Node>,
                                        parent: Option<string>, offset: nat, k: nat)
    requires forest != [] && Embedded(items, parentIds, forest, parent, offset)
    requires k < |parentIds| && !(offset + 1 + |PreorderIds(forest[0].children)| <= k < offset + |PreorderIds(forest)|)
    requires parentIds[k].Some?
    ensures parentIds[k].value !in PreorderIds(forest[1..])
  {
    var c := |PreorderIds(forest[0].children)|;
    IdsSplit(forest);
    if k == offset {
      ParentAtRoot(parentIds, forest, parent, offset);
    } else if offset + 1 <= k < offset + 1 + c {
      ChildNameNotLater(parentIds, forest, parent, offset, k);
    }
  }

  /** Within the first root's subtree, no entry names a node of the later
      roots' subtrees. */
  lemma {:induction false} ChildNameNotLater(parentIds: seq<Option<string>>, forest: seq<Node>,
                                             parent: Option<string>, offset: nat, k: nat)
    requires forest != [] && Matches(parentIds, offset, FlatParents(forest, parent))
    requires Distinct(PreorderIds(forest))
    requires offset + 1 <= k < offset + 1 + |PreorderIds(forest[0].children)|
    requires parentIds[k].Some?
    ensures parentIds[k].value !in PreorderIds(forest[1..])
  {
    IdsSplit(forest);
    ParentsBelow(parentIds, forest, parent, offset);
    StretchEntry(parentIds, forest[0].children, Some(forest[0].id), offset + 1, k);
  }

  /** The first root's subtree of an embedded forest is embedded right after
      it, with that root's id as parent. */
  lemma {:induction false} EmbeddedChildren(items: seq<Node>, parentIds: seq<Option<string>>, forest: seq<Node>,
                                            parent: Option<string>, offset: nat)
    requires forest != [] && Embedded(items, parentIds, forest, parent, offset)
    ensures Embedded(items, parentIds, forest[0].children, Some(forest[0].id), offset + 1)
  {
    ItemsBelow(items, forest, offset);
    ParentsBelow(parentIds, forest, parent, offset);
    IdsSplit(forest);
    forall k | 0 <= k < |parentIds| && !(offset + 1 <= k < offset + 1 + |PreorderIds(forest[0].children)|)
               && parentIds[k].Some?
      ensures parentIds[k].value !in PreorderIds(forest[0].children)
    {
      OutsideChildren(items, parentIds, forest, parent, offset, k);
    }
  }

  /** The later roots' subtrees of an embedded forest are embedded after the
      first root's, with the same parent. */
  lemma {:induction false} EmbeddedRest(items: seq<Node>, parentIds: seq<Option<string>>, forest: seq<Node>,
                                        parent: Option<string>, offset: nat)
    requires forest != [] && Embedded(items, parentIds, forest, parent, offset)
    ensures Embedded(items, parentIds, forest[1..], parent, offset + 1 + |PreorderIds(forest[0].children)|)
  {
    var start := offset + 1 + |PreorderIds(forest[0].children)|;
    ItemsAfter(items, forest, offset);
    ParentsAfter(parentIds, forest, parent, offset);
    IdsSplit(forest);
    forall k | 0 <= k < |parentIds| && !(start <= k < start + |PreorderIds(forest[1..])|) && parentIds[k].Some?
      ensures parentIds[k].value !in PreorderIds(forest[1..])
    {
      OutsideLater(items, parentIds, forest, parent, offset, k);
    }
  }

  /** Within the first root's subtree, an entry names that root exactly at
      the positions of its children. */
  lemma {:induction false} NamesFirstRootBelow(parentIds: seq<Option<string>>, forest: seq<Node>,
                                               parent: Option<string>, offset: nat, k: nat)
    requires forest != [] && Matches(parentIds, offset, FlatParents(forest, parent))
    requires Distinct(PreorderIds(forest))
    requires offset + 1 <= k < offset + 1 + |PreorderIds(forest[0].children)|
    ensures parentIds[k] == Some(forest[0].id) <==> RootAt(forest[0].children, k - (offset + 1))
  {
    IdsSplit(forest);
    ParentsBelow(parentIds, forest, parent, offset);
    StretchEntry(parentIds, forest[0].children, Some(forest[0].id), offset + 1, k);
  }

  /** Within the later roots' subtrees, no entry names the first root. */
  lemma {:induction false} NamesFirstRootAfter(parentIds: seq<Option<string>>, forest: seq<Node>,
                                               parent: Option<string>, offset: nat, k: nat)
    requires forest != [] && Matches(parentIds, offset, FlatParents(forest, parent))
    requires Distinct(PreorderIds(forest)) && (parent.Some? ==> parent.value !in PreorderIds(forest))
    requires offset + 1 + |PreorderIds(forest[0].children)| <= k < offset + |PreorderIds(forest)|
    ensures parentIds[k] != Some(forest[0].id)
  {
    var c := |PreorderIds(forest[0].children)|;
    IdsSplit(forest);
    ParentsAfter(parentIds, forest, parent, offset);
    StretchEntry(parentIds, forest[1..], parent, offset + 1 + c, k);
  }

  /** Entry `k` of the parents names the first root of an embedded forest
      exactly when `k` is the position of one of that root's children. */
  lemma {:induction false} NamesFirstRoot(items: seq<Node>, parentIds: seq<Option<string>>, forest: seq<Node>,
                                          parent: Option<string>, offset: nat, k: nat)
    requires forest != [] && Embedded(items, parentIds, forest, parent, offset) && k < |parentIds|
    ensures parentIds[k] == Some(forest[0].id) <==>
      offset + 1 <= k < offset + 1 + |PreorderIds(forest[0].children)| && RootAt(forest[0].children, k - (offset + 1))
  {
    var c := |PreorderIds(forest[0].children)|;
    assert forest[0].id in PreorderIds(forest) by { FlatUnfold(forest, parent); }
    if k == offset {
      ParentAtRoot(parentIds, forest, parent, offset);
    } else if offset + 1 <= k < offset + 1 + c {
      NamesFirstRootBelow(parentIds, forest, parent, offset, k);
    } else if offset + 1 + c <= k < offset + |PreorderIds(forest)| {
      NamesFirstRootAfter(parentIds, forest, parent, offset, k);
    }
  }

  /** The items naming the first root of an embedded forest as parent are
      exactly its children, in order. */
  lemma {:induction false} ChildrenOfEmbedded(items: seq<Node>, parentIds: seq<Option<string>>, forest: seq<Node>,
                                              parent: Option<string>, offset: nat)
    requires forest != [] && Embedded(items, parentIds, forest, parent, offset)
    ensures Children(parentIds, Some(forest[0].id)) == RootPositions(forest[0].children, offset + 1)
  {
    var n := forest[0];
    var kids := Children(parentIds, Some(n.id));
    var below := RootPositions(n.children, offset + 1);
    IdsSplit(forest);
    ChildrenSpec(parentIds, Some(n.id));
    forall k: nat
      ensures k in kids <==> k in below
    {
      RootPositionsMembers(n.children, offset + 1, k);
      if k < |parentIds| {
        NamesFirstRoot(items, parentIds, forest, parent, offset, k);
      }
    }
    RootPositionsIncreasing(n.children, offset + 1);
    IncreasingUnique(kids, below);
  }

  /** Each root of `forest` is rebuilt from the item at its position in the
      flattened lists, when those start at position `offset`. */
  ghost predicate AllRebuilt(items: seq<Node>, parentIds: seq<Option<string>>, forest: seq<Node>, offset: nat)
    requires |items| == |parentIds|
    decreases forest
  {
    forest != [] ==>
      && RebuiltFrom(items, parentIds, forest[0], offset)
      && AllRebuilt(items, parentIds, forest[1..], offset + 1 + |PreorderIds(forest[0].children)|)
  }

  /** AllRebuilt, root by root, at the positions RootPositions lists. */
  lemma {:induction false} AllRebuiltAt(items: seq<Node>, parentIds: seq<Option<string>>, forest: seq<Node>, offset: nat)
    requires |items| == |parentIds| && AllRebuilt(items, parentIds, forest, offset)
    ensures forall j :: 0 <= j < |forest| ==> RebuiltFrom(items, parentIds, forest[j], RootPositions(forest, offset)[j])
    decreases forest
  {
    if forest != [] {
      var next := offset + 1 + |PreorderIds(forest[0].children)|;
      var later := RootPositions(forest[1..], next);
      AllRebuiltAt(items, parentIds, forest[1..], next);
      assert RootPositions(forest, offset) == [offset] + later;
      forall j | 1 <= j < |forest|
        ensures RebuiltFrom(items, parentIds, forest[j], RootPositions(forest, offset)[j])
      {
        assert forest[j] == forest[1..][j - 1];
      }
    }
  }

  /** The first root of an embedded forest, once its children are rebuilt,
      is rebuilt from the item at `offset`. */
  lemma {:induction false} RebuiltFirst(items: seq<Node>, parentIds: seq<Option<string>>, forest: seq<Node>,
                                        parent: Option<string>, offset: nat)
    requires forest != [] && Embedded(items, parentIds, forest, parent, offset)
    requires AllRebuilt(items, parentIds, forest[0].children, offset + 1)
    ensures RebuiltFrom(items, parentIds, forest[0], offset)
  {
    AllRebuiltAt(items, parentIds, forest[0].children, offset + 1);
    ItemAtRoot(items, forest, offset);
    ChildrenOfEmbedded(items, parentIds, forest, parent, offset);
  }

  /** Every root of an embedded forest is rebuilt, by the specification of
      `stratify`, from the item at its position. */
  lemma {:induction false} EmbeddedRebuilt(items: seq<Node>, parentIds: seq<Option<string>>, forest: seq<Node>,
                                           parent: Option<string>, offset: nat)
    requires Embedded(items, parentIds, forest, parent, offset)
    ensures AllRebuilt(items, parentIds, forest, offset)
    decreases forest, 1
  {
    if forest != [] {
      ChildrenRebuilt(items, parentIds, forest, parent, offset);
      LaterRootsRebuilt(items, parentIds, forest, parent, offset);
      RebuiltFirst(items, parentIds, forest, parent, offset);
    }
  }

  /** The first root's children are rebuilt. */
  lemma {:induction false} ChildrenRebuilt(items: seq<Node>, parentIds: seq<Option<string>>, forest: seq<Node>,
                                           parent: Option<string>, offset: nat)
    requires forest != [] && Embedded(items, parentIds, forest, parent, offset)
    ensures AllRebuilt(items, parentIds, forest[0].children, offset + 1)
    decreases forest, 0
  {
    EmbeddedChildren(items, parentIds, forest, parent, offset);
    EmbeddedRebuilt(items, parentIds, forest[0].children, Some(forest[0].id), offset + 1);
  }

  /** The later roots are rebuilt. */
  lemma {:induction false} LaterRootsRebuilt(items: seq<Node>, parentIds: seq<Option<string>>, forest: seq<Node>,
                                             parent: Option<string>, offset: nat)
    requires forest != [] && Embedded(items, parentIds, forest, parent, offset)
    ensures AllRebuilt(items, parentIds, forest[1..], offset + 1 + |PreorderIds(forest[0].children)|)
    decreases forest, 0
  {
    EmbeddedRest(items, parentIds, forest, parent, offset);
    EmbeddedRebuilt(items, parentIds, forest[1..], parent, offset + 1 + |PreorderIds(forest[0].children)|);
  }

  /** A node rebuilt from an item is determined by the item. */
  lemma {:induction false} RebuiltUnique(items: seq<Node>, parentIds: seq<Option<string>>, n: Node, m: Node, i: nat)
    requires |items| == |parentIds|
    requires RebuiltFrom(items, parentIds, n, i) && RebuiltFrom(items, parentIds, m, i)
    ensures n == m
    decreases n
  {
    var kids := Children(parentIds, Some(items[i].id));
    forall j | 0 <= j < |kids|
      ensures n.children[j] == m.children[j]
    {
      RebuiltUnique(items, parentIds, n.children[j], m.children[j], kids[j]);
    }
    assert n.children == m.children;
  }

  /** The flattened lists of a forest with unique ids pass every check of
      `stratify`. */
  lemma {:induction false} FlattenWellFormed(forest: seq<Node>)
    requires Distinct(PreorderIds(forest))
    ensures WellFormed(FlatItems(forest), FlatParents(forest, None))
  {
    var items := FlatItems(forest);
    var parentIds := FlatParents(forest, None);
    var ids := PreorderIds(forest);
    FlatItemsIds(forest);
    forall i | 0 <= i < |parentIds|
      ensures !UnknownParentAt(items, parentIds, i)
    {
      FlatParentsShape(forest, None, i);
    }
    forall i | 0 <= i < |items|
      ensures ReachesRoot(ParentMap(items, parentIds), items[i].id)
    {
      FlatReachesRoot(forest, i);
    }
  }

  /** Each parent comes before its child, so every chain is cut short by
      the roots. */
  lemma {:induction false} FlatReachesRoot(forest: seq<Node>, i: nat)
    requires Distinct(PreorderIds(forest)) && i < |PreorderIds(forest)|
    ensures ReachesRoot(ParentMap(FlatItems(forest), FlatParents(forest, None)), FlatItems(forest)[i].id)
    decreases i
  {
    var items := FlatItems(forest);
    var parentIds := FlatParents(forest, None);
    var ids := PreorderIds(forest);
    var pm := ParentMap(items, parentIds);
    FlatItemsIds(forest);
    assert Ids(items)[i] == items[i].id;
    ParentMapAt(items, parentIds, i);
    var here := Some(items[i].id);
    assert Walk(pm, here, 1) == parentIds[i];
    FlatParentsShape(forest, None, i);
    if parentIds[i] != None {
      var m :| 0 <= m < i && ids[..i][m] == parentIds[i].value;
      assert items[m].id == parentIds[i].value;
      FlatReachesRoot(forest, m);
      var k: nat :| Walk(pm, Some(items[m].id), k) == None;
      WalkAdd(pm, here, 1, k);
    }
  }

  /** The items without a parent in the flattened lists are exactly the
      roots, in order. */
  lemma {:induction false} TopRoots(forest: seq<Node>)
    ensures Children(FlatParents(forest, None), None) == RootPositions(forest, 0)
  {
    var parentIds := FlatParents(forest, None);
    var roots := Children(parentIds, None);
    var top := RootPositions(forest, 0);
    ChildrenSpec(parentIds, None);
    forall k: nat
      ensures k in roots <==> k in top
    {
      RootPositionsMembers(forest, 0, k);
      if k < |parentIds| {
        FlatParentsShape(forest, None, k);
      }
    }
    RootPositionsIncreasing(forest, 0);
    IncreasingUnique(roots, top);
  }

  /** Flattening a forest whose ids are unique and stratifying the result
      gives back the same forest: the same nodes, with children in the same
      order, at every depth. */
  lemma {:induction false} StratifyFlattenRoundTrip(forest: seq<Node>)
    requires Distinct(PreorderIds(forest))
    ensures Outcome(Flatten(forest).0, Flatten(forest).1) == Success(forest)
  {
    var items := FlatItems(forest);
    var parentIds := FlatParents(forest, None);
    FlattenWellFormed(forest);
    assert Embedded(items, parentIds, forest, None, 0);
    EmbeddedRebuilt(items, parentIds, forest, None, 0);
    AllRebuiltAt(items, parentIds, forest, 0);
    var roots := Children(parentIds, None);
    TopRoots(forest);
    var spec := SpecForest(items, parentIds);
    SpecForestRebuilt(items, parentIds);
    forall j | 0 <= j < |forest|
      ensures spec[j] == forest[j]
    {
      RebuiltUnique(items, parentIds, spec[j], forest[j], roots[j]);
    }
    assert spec == forest;
  }
}
