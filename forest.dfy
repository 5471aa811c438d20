/** Specification vocabulary for forests (ordered sequences of root nodes):
    the pre-order listing of ids, the root-to-node id path of every node in
    that same order, and what it means for an id sequence to be a path. */
module Forest {
  import opened Tree

  /** The ids of all nodes, each node before its children and earlier
      siblings' subtrees before later siblings. */
  function PreorderIds(items: seq<Node>): seq<string>
    decreases items
  {
    if items == [] then []
    else [items[0].id] + PreorderIds(items[0].children) + PreorderIds(items[1..])
  }

  /** For each node, in the order of PreorderIds, the ids from a root down to
      the node, each prefixed with `prefix`. */
  function PreorderPaths(items: seq<Node>, prefix: seq<string>): (r: seq<seq<string>>)
    ensures |r| == |PreorderIds(items)|
    decreases items
  {
    if items == [] then []
    else
      var here := prefix + [items[0].id];
      [here] + PreorderPaths(items[0].children, here) + PreorderPaths(items[1..], prefix)
  }

  /** `q` names a root of `items`, then a child of that root, and so on. */
  ghost predicate IsChain(items: seq<Node>, q: seq<string>)
    decreases |q|
  {
    && q != []
    && exists i :: 0 <= i < |items| && items[i].id == q[0] && (|q| == 1 || IsChain(items[i].children, q[1..]))
  }

  predicate Distinct(s: seq<string>) {
    forall i, j :: 0 <= i < j < |s| ==> s[i] != s[j]
  }

  /** The position of the first occurrence of `x` in `s`. */
  function IndexOf(s: seq<string>, x: string): (r: nat)
    requires x in s
    ensures r < |s| && s[r] == x
    ensures forall j :: 0 <= j < r ==> s[j] != x
  {
    if s[0] == x then 0 else 1 + IndexOf(s[1..], x)
  }

  lemma {:induction false} PreorderIdsAppend(a: seq<Node>, b: seq<Node>)
    ensures PreorderIds(a + b) == PreorderIds(a) + PreorderIds(b)
  {
    if a == [] {
      assert a + b == b;
    } else {
      assert (a + b)[0] == a[0] && (a + b)[1..] == a[1..] + b;
      PreorderIdsAppend(a[1..], b);
    }
  }

  lemma ChainInTail(items: seq<Node>, q: seq<string>)
    requires items != [] && IsChain(items[1..], q)
    ensures IsChain(items, q)
  {
    var i :| 0 <= i < |items[1..]| && items[1..][i].id == q[0]
      && (|q| == 1 || IsChain(items[1..][i].children, q[1..]));
    assert items[i + 1] == items[1..][i];
  }

  lemma ChainThroughFirst(items: seq<Node>, q: seq<string>)
    requires items != [] && IsChain(items[0].children, q)
    ensures IsChain(items, [items[0].id] + q)
  {
    assert ([items[0].id] + q)[1..] == q;
  }

  /** Every entry of PreorderPaths extends the prefix by a chain of `items`
      that ends at the node listed at the same position of PreorderIds. */
  lemma {:induction false} PreorderPathIsChain(items: seq<Node>, prefix: seq<string>, k: nat)
    requires k < |PreorderIds(items)|
    ensures var p := PreorderPaths(items, prefix)[k];
      && |p| > |prefix| && p[..|prefix|] == prefix
      && IsChain(items, p[|prefix|..])
      && p[|p| - 1] == PreorderIds(items)[k]
  {
    var n := items[0];
    var here := prefix + [n.id];
    var a := PreorderIds(n.children);
    var pa := PreorderPaths(n.children, here);
    var pb := PreorderPaths(items[1..], prefix);
    assert PreorderIds(items) == [n.id] + a + PreorderIds(items[1..]);
    assert PreorderPaths(items, prefix) == [here] + pa + pb;
    var p := PreorderPaths(items, prefix)[k];
    if k == 0 {
      assert p == here;
      assert p[|prefix|..] == [n.id];
    } else if k - 1 < |a| {
      assert p == pa[k - 1];
      assert PreorderIds(items)[k] == a[k - 1];
      PreorderPathIsChain(n.children, here, k - 1);
      PrefixedChain(items, prefix, p);
    } else {
      var k' := k - 1 - |a|;
      assert p == pb[k'];
      assert PreorderIds(items)[k] == PreorderIds(items[1..])[k'];
      PreorderPathIsChain(items[1..], prefix, k');
      ChainInTail(items, p[|prefix|..]);
    }
  }

  lemma PrefixedChain(items: seq<Node>, prefix: seq<string>, p: seq<string>)
    requires items != []
    requires var here := prefix + [items[0].id];
      |p| > |here| && p[..|here|] == here && IsChain(items[0].children, p[|here|..])
    ensures |p| > |prefix| && p[..|prefix|] == prefix && IsChain(items, p[|prefix|..])
  {
    var here := prefix + [items[0].id];
    var q := p[|here|..];
    assert p == here + q by {
      assert p == p[..|here|] + p[|here|..];
    }
    assert p[..|prefix|] == prefix;
    assert p[|prefix|..] == [items[0].id] + q;
    ChainThroughFirst(items, q);
  }

  /** A sequence has as many different members as positions exactly when no
      member repeats. */
  lemma {:induction false} DistinctCard(s: seq<string>)
    ensures |set x | x in s| <= |s|
    ensures |set x | x in s| == |s| <==> Distinct(s)
  {
    if s != [] {
      var t := s[1..];
      DistinctCard(t);
      assert (set x | x in s) == {s[0]} + set x | x in t;
      if s[0] in t {
        var j :| 0 <= j < |t| && t[j] == s[0];
        assert s[j + 1] == s[0];
      } else {
        if Distinct(t) {
          forall i, j | 0 <= i < j < |s|
            ensures s[i] != s[j]
          {
            if i > 0 {
              assert s[i] == t[i - 1] && s[j] == t[j - 1];
            } else {
              assert s[j] == t[j - 1];
            }
          }
        } else {
          var i, j :| 0 <= i < j < |t| && t[i] == t[j];
          assert s[i + 1] == s[j + 1];
        }
      }
    }
  }
}
