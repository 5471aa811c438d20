/** `get_tree_path` of shiny_treeview/utils.py: a depth-first, pre-order
    search that returns the ids from a root down to the first node carrying
    the target id. */
module TreePath {
  import opened Wrappers
  import opened Tree
  import opened Forest

  /** `_search_recursive(items, target_id, path)`: each node is tested
      before its children, and a sibling's whole subtree before the next
      sibling; the first hit returns `path` extended down to it. */
  function SearchRecursive(items: seq<Node>, targetId: string, path: seq<string>): Option<seq<string>>
    decreases items
  {
    if items == [] then None
    else
      var item := items[0];
      var currentPath := path + [item.id];
      if item.id == targetId then Some(currentPath)
      else
        var result := if item.children != [] then SearchRecursive(item.children, targetId, currentPath) else None;
        if result.Some? then result else SearchRecursive(items[1..], targetId, path)
  }

  /** The search finds the first node in pre-order whose id is the target,
      and returns that node's root-to-node path; it finds nothing exactly
      when no node at any depth has the id. */
  lemma {:induction false} SearchIsFirstPreorderMatch(items: seq<Node>, targetId: string, path: seq<string>)
    ensures var ids := PreorderIds(items);
      SearchRecursive(items, targetId, path) ==
        if targetId in ids then Some(PreorderPaths(items, path)[IndexOf(ids, targetId)]) else None
    decreases items
  {
    if items != [] {
      var item := items[0];
      var here := path + [item.id];
      SearchIsFirstPreorderMatch(item.children, targetId, here);
      SearchIsFirstPreorderMatch(items[1..], targetId, path);
      var a := PreorderIds(item.children);
      var b := PreorderIds(items[1..]);
      assert PreorderIds(items) == [item.id] + a + b;
      assert PreorderPaths(items, path) == [here] + PreorderPaths(item.children, here) + PreorderPaths(items[1..], path);
      if item.id == targetId {
        assert IndexOf(PreorderIds(items), targetId) == 0;
      } else if targetId in a {
        FoundAmongChildren(items, targetId, path);
      } else if targetId in b {
        FoundAmongLaterSiblings(items, targetId, path);
      }
    }
  }

  /** The step of SearchIsFirstPreorderMatch where the first match lies in
      the first node's subtree. */
  lemma FoundAmongChildren(items: seq<Node>, targetId: string, path: seq<string>)
    requires items != [] && items[0].id != targetId
    requires targetId in PreorderIds(items[0].children)
    requires var here := path + [items[0].id];
      SearchRecursive(items[0].children, targetId, here)
        == Some(PreorderPaths(items[0].children, here)[IndexOf(PreorderIds(items[0].children), targetId)])
    ensures var ids := PreorderIds(items);
      targetId in ids && SearchRecursive(items, targetId, path) == Some(PreorderPaths(items, path)[IndexOf(ids, targetId)])
  {
    var item := items[0];
    var here := path + [item.id];
    var a := PreorderIds(item.children);
    var b := PreorderIds(items[1..]);
    var ids := PreorderIds(items);
    assert ids == [item.id] + (a + b);
    assert PreorderPaths(items, path) == [here] + PreorderPaths(item.children, here) + PreorderPaths(items[1..], path);
    var j := IndexOf(a, targetId);
    IndexOfInFront(a, b, targetId);
    IndexOfAfterPrefix([item.id], a + b, targetId);
    assert IndexOf(ids, targetId) == 1 + j;
  }

  /** The step of SearchIsFirstPreorderMatch where the first match lies after
      the first node's subtree. */
  lemma FoundAmongLaterSiblings(items: seq<Node>, targetId: string, path: seq<string>)
    requires items != [] && items[0].id != targetId
    requires targetId !in PreorderIds(items[0].children) && targetId in PreorderIds(items[1..])
    requires SearchRecursive(items[0].children, targetId, path + [items[0].id]) == None
    requires SearchRecursive(items[1..], targetId, path)
      == Some(PreorderPaths(items[1..], path)[IndexOf(PreorderIds(items[1..]), targetId)])
    ensures var ids := PreorderIds(items);
      targetId in ids && SearchRecursive(items, targetId, path) == Some(PreorderPaths(items, path)[IndexOf(ids, targetId)])
  {
    var item := items[0];
    var here := path + [item.id];
    var a := PreorderIds(item.children);
    var b := PreorderIds(items[1..]);
    var ids := PreorderIds(items);
    assert ids == ([item.id] + a) + b;
    assert PreorderPaths(items, path) == [here] + PreorderPaths(item.children, here) + PreorderPaths(items[1..], path);
    var j := IndexOf(b, targetId);
    IndexOfAfterPrefix([item.id] + a, b, targetId);
    assert IndexOf(ids, targetId) == 1 + |a| + j;
  }

  lemma {:induction false} IndexOfAfterPrefix(front: seq<string>, s: seq<string>, x: string)
    requires x !in front && x in s
    ensures IndexOf(front + s, x) == |front| + IndexOf(s, x)
  {
    if front == [] {
      assert front + s == s;
    } else {
      assert (front + s)[0] == front[0] != x;
      assert (front + s)[1..] == front[1..] + s;
      IndexOfAfterPrefix(front[1..], s, x);
    }
  }

  lemma IndexOfInFront(s: seq<string>, rest: seq<string>, x: string)
    requires x in s
    ensures IndexOf(s + rest, x) == IndexOf(s, x)
  {
    var t := IndexOf(s, x);
    var sr := s + rest;
    forall j | 0 <= j < t ensures sr[j] != x {
      assert sr[j] == s[j];
    }
    IndexOfIsFirst(sr, x, t);
  }

  /** The first occurrence is the only position with no earlier occurrence. */
  lemma IndexOfIsFirst(s: seq<string>, x: string, k: nat)
    requires k < |s| && s[k] == x && forall j :: 0 <= j < k ==> s[j] != x
    ensures IndexOf(s, x) == k
  {
  }

  /** `get_tree_path(items, id)`. A returned path ends with the target id and
      is a chain: a root id, then a child of that root, and so on. None is
      returned exactly when no node at any depth has the id. */
  function GetTreePath(items: seq<Node>, id: string): (r: Option<seq<string>>)
    ensures r.Some? <==> id in PreorderIds(items)
    ensures r.Some? ==> |r.value| > 0 && r.value[|r.value| - 1] == id && IsChain(items, r.value)
  {
    SearchFromRootIsChain(items, id);
    SearchRecursive(items, id, [])
  }

  lemma SearchFromRootIsChain(items: seq<Node>, id: string)
    ensures var r := SearchRecursive(items, id, []);
      && (r.Some? <==> id in PreorderIds(items))
      && (r.Some? ==> |r.value| > 0 && r.value[|r.value| - 1] == id && IsChain(items, r.value))
  {
    SearchIsFirstPreorderMatch(items, id, []);
    var ids := PreorderIds(items);
    if id in ids {
      PreorderPathIsChain(items, [], IndexOf(ids, id));
      assert PreorderPaths(items, [])[IndexOf(ids, id)][0..] == PreorderPaths(items, [])[IndexOf(ids, id)];
    }
  }

  /** An empty forest has no path to any id. */
  lemma EmptyForestHasNoPath(id: string)
    ensures GetTreePath([], id) == None
  {
  }

  /** With unique ids, the path to a root is that root alone. */
  lemma {:induction false} RootPath(items: seq<Node>, i: nat)
    requires i < |items| && Distinct(PreorderIds(items))
    ensures GetTreePath(items, items[i].id) == Some([items[i].id])
  {
    RootSearch(items, i, []);
    assert [] + [items[i].id] == [items[i].id];
  }

  lemma {:induction false} RootSearch(items: seq<Node>, i: nat, path: seq<string>)
    requires i < |items| && Distinct(PreorderIds(items))
    ensures SearchRecursive(items, items[i].id, path) == Some(path + [items[i].id])
  {
    var x := items[i].id;
    if i > 0 {
      var a := PreorderIds(items[0].children);
      var b := PreorderIds(items[1..]);
      assert PreorderIds(items) == [items[0].id] + a + b;
      assert items[1..][i - 1] == items[i];
      assert x in b by {
        assert b == [items[1..][0].id] + PreorderIds(items[1..][0].children) + PreorderIds(items[1..][1..]);
        RootIdListed(items[1..], i - 1);
      }
      var k :| 0 <= k < |b| && b[k] == x;
      assert PreorderIds(items)[1 + |a| + k] == x;
      assert PreorderIds(items)[0] == items[0].id;
      assert x != items[0].id;
      assert x !in a by {
        forall j | 0 <= j < |a| ensures a[j] != x {
          assert PreorderIds(items)[1 + j] == a[j];
        }
      }
      SearchIsFirstPreorderMatch(items[0].children, x, path + [items[0].id]);
      assert Distinct(b) by {
        forall p, q | 0 <= p < q < |b| ensures b[p] != b[q] {
          assert PreorderIds(items)[1 + |a| + p] == b[p];
          assert PreorderIds(items)[1 + |a| + q] == b[q];
        }
      }
      RootSearch(items[1..], i - 1, path);
    }
  }

  lemma {:induction false} RootIdListed(items: seq<Node>, i: nat)
    requires i < |items|
    ensures items[i].id in PreorderIds(items)
  {
    if i > 0 {
      RootIdListed(items[1..], i - 1);
      assert items[1..][i - 1] == items[i];
    }
  }
}
