/** `input_treeview` of shiny_treeview/ui.py, up to the payload it embeds
    in the page: the duplicate-id check, the normalisation of `selected` and
    `expanded` to lists, the automatic expansion of the selected items'
    ancestors, and the payload record itself. */
module Ui {
  import opened Wrappers
  import opened JsonValue
  import opened Tree
  import opened Forest
  import opened TreePath
  import opened Duplicates
  import opened StringOrder
  import Client

  /** A `selected` or `expanded` argument: None, one id, or a list of ids. */
  datatype IdArg = Omitted | One(id: string) | Many(ids: seq<string>)

  /** An explicit `selected` or `expanded` argument as a list: None and the
      empty string give no ids, any other string gives itself, a list is
      passed through unchanged (repeats included). */
  function NormalizeIds(arg: IdArg): (r: seq<string>)
    ensures arg.Many? ==> r == arg.ids
    ensures !arg.Many? ==> |r| <= 1
    ensures forall x :: x in r <==> (arg.One? && x == arg.id && x != "") || (arg.Many? && x in arg.ids)
  {
    match arg
    case Omitted => []
    case One(id) => if id != "" then [id] else []
    case Many(ids) => ids
  }

  /** `list(dict.fromkeys(s))`: each element once, at its first occurrence. */
  function Dedup(s: seq<string>): (r: seq<string>)
    ensures Distinct(r)
    ensures forall x :: x in r <==> x in s
    ensures |r| <= |s|
  {
    if s == [] then []
    else
      var front := Dedup(s[..|s| - 1]);
      assert forall x :: x in s <==> x in s[..|s| - 1] || x == s[|s| - 1];
      if s[|s| - 1] in front then front else front + [s[|s| - 1]]
  }

  /** Dedup keeps the order of first occurrences. */
  lemma {:induction false} DedupKeepsFirstOrder(s: seq<string>, x: string, y: string)
    requires x in s && y in s
    ensures x in Dedup(s) && y in Dedup(s)
    ensures IndexOf(Dedup(s), x) < IndexOf(Dedup(s), y) <==> IndexOf(s, x) < IndexOf(s, y)
  {
    var p := s[..|s| - 1];
    var last := s[|s| - 1];
    var front := Dedup(p);
    assert s == p + [last];
    if x in p {
      IndexOfInFront(p, [last], x);
    }
    if y in p {
      IndexOfInFront(p, [last], y);
    }
    if x in p && y in p {
      DedupKeepsFirstOrder(p, x, y);
      if last !in front {
        IndexOfInFront(front, [last], x);
        IndexOfInFront(front, [last], y);
      }
    } else if x in p {
      // y is `last`, first seen at the end of s
      IndexOfAfterPrefix(p, [last], y);
      IndexOfInFront(front, [last], x);
      IndexOfAfterPrefix(front, [last], y);
    } else if y in p {
      IndexOfAfterPrefix(p, [last], x);
      IndexOfInFront(front, [last], y);
      IndexOfAfterPrefix(front, [last], x);
    }
  }

  /** A list without repeats comes through Dedup unchanged. */
  lemma {:induction false} DedupOfDistinct(s: seq<string>)
    requires Distinct(s)
    ensures Dedup(s) == s
  {
    if s != [] {
      var p := s[..|s| - 1];
      assert Distinct(p);
      DedupOfDistinct(p);
      assert s == p + [s[|s| - 1]];
    }
  }

  /** `get_tree_path(items, id)[:-1]` when there is a path, otherwise
      nothing: the ids strictly above `id`, from a root down. */
  function StrictAncestors(items: seq<Node>, id: string): (r: seq<string>)
    ensures id !in PreorderIds(items) ==> r == []
    ensures id in PreorderIds(items) ==> IsChain(items, r + [id])
  {
    match GetTreePath(items, id)
    case None => []
    case Some(p) =>
      assert p == p[..|p| - 1] + [id];
      p[..|p| - 1]
  }

  /** With unique ids, a root has no ancestors. */
  lemma RootHasNoAncestors(items: seq<Node>, i: nat)
    requires i < |items| && Distinct(PreorderIds(items))
    ensures StrictAncestors(items, items[i].id) == []
  {
    RootPath(items, i);
  }

  /** The concatenation, in the order of `selected`, of each selected id's
      strict ancestors, before de-duplication. */
  function Ancestors(items: seq<Node>, selected: seq<string>): (r: seq<string>)
    ensures forall x :: x in r <==> exists j :: 0 <= j < |selected| && x in StrictAncestors(items, selected[j])
  {
    if selected == [] then []
    else
      var front := selected[..|selected| - 1];
      var r := Ancestors(items, front) + StrictAncestors(items, selected[|selected| - 1]);
      assert forall j :: 0 <= j < |front| ==> front[j] == selected[j];
      r
  }

  /** Ancestors of a concatenated selection concatenate. */
  lemma {:induction false} AncestorsAppend(items: seq<Node>, a: seq<string>, b: seq<string>)
    ensures Ancestors(items, a + b) == Ancestors(items, a) + Ancestors(items, b)
  {
    if b != [] {
      var b' := b[..|b| - 1];
      assert (a + b)[..|a + b| - 1] == a + b';
      AncestorsAppend(items, a, b');
    } else {
      assert a + b == a;
    }
  }

  /** The automatically expanded ids for a selection. */
  function AutoExpanded(items: seq<Node>, selected: seq<string>): (r: seq<string>)
    ensures Distinct(r)
    ensures forall x :: x in r <==> exists j :: 0 <= j < |selected| && x in StrictAncestors(items, selected[j])
  {
    Dedup(Ancestors(items, selected))
  }

  /** Each expanded id lies on the root path of some selected id, above it. */
  lemma AutoExpandedAreAncestors(items: seq<Node>, selected: seq<string>, x: string)
    requires x in AutoExpanded(items, selected)
    ensures exists j, q :: 0 <= j < |selected| && IsChain(items, q + [selected[j]]) && x in q
  {
    var j :| 0 <= j < |selected| && x in StrictAncestors(items, selected[j]);
    var q := StrictAncestors(items, selected[j]);
    assert IsChain(items, q + [selected[j]]);
  }

  /** Ids that are roots or not in the tree expand nothing. */
  lemma {:induction false} RootsAndStrangersExpandNothing(items: seq<Node>, selected: seq<string>)
    requires Distinct(PreorderIds(items))
    requires forall j :: 0 <= j < |selected| ==>
      selected[j] !in PreorderIds(items) || exists i :: 0 <= i < |items| && items[i].id == selected[j]
    ensures AutoExpanded(items, selected) == []
  {
    forall j | 0 <= j < |selected|
      ensures StrictAncestors(items, selected[j]) == []
    {
      if selected[j] in PreorderIds(items) {
        var i :| 0 <= i < |items| && items[i].id == selected[j];
        RootHasNoAncestors(items, i);
      }
    }
    NoAncestorsAtAll(items, selected);
  }

  lemma {:induction false} NoAncestorsAtAll(items: seq<Node>, selected: seq<string>)
    requires forall j :: 0 <= j < |selected| ==> StrictAncestors(items, selected[j]) == []
    ensures Ancestors(items, selected) == []
  {
    if selected != [] {
      var front := selected[..|selected| - 1];
      assert forall j :: 0 <= j < |front| ==> front[j] == selected[j];
      NoAncestorsAtAll(items, front);
    }
  }

  /** The auto-expansion loop: collect every selected id's strict ancestors,
      in order, then drop repeats keeping first occurrences. */
  method AutoExpand(items: seq<Node>, selectedItems: seq<string>) returns (expandedItems: seq<string>)
    ensures expandedItems == AutoExpanded(items, selectedItems)
  {
    expandedItems := [];
    for k := 0 to |selectedItems|
      invariant expandedItems == Ancestors(items, selectedItems[..k])
    {
      var treePath := GetTreePath(items, selectedItems[k]);
      assert selectedItems[..k + 1][..k] == selectedItems[..k];
      if treePath.Some? {
        expandedItems := expandedItems + treePath.value[..|treePath.value| - 1];
      }
    }
    assert selectedItems[..|selectedItems|] == selectedItems;
    expandedItems := Dedup(expandedItems);
  }

  /** A forest with the ids the UI tests select from: two folders of two
      files each (the last one disabled) and a standalone root. */
  function SampleForest(): seq<Node> {
    [Node("folder1", "Folder 1", "", [Node("file1", "File 1", "", [], false), Node("file2", "File 2", "", [], false)], false),
     Node("folder2", "Folder 2", "", [Node("file3", "File 3", "", [], false), Node("file4", "File 4", "", [], true)], false),
     Node("standalone", "Standalone", "", [], false)]
  }

  lemma AncestorsOfFile1()
    ensures Ancestors(SampleForest(), ["file1"]) == ["folder1"]
  {
    var f := SampleForest();
    var kids := f[0].children;
    assert kids[0].id == "file1" && f[0].id == "folder1";
    assert f[0].id != "file1" by { assert "folder1"[1] != "file1"[1]; }
    assert SearchRecursive(kids, "file1", [] + ["folder1"]) == Some([] + ["folder1"] + ["file1"]);
    assert [] + ["folder1"] + ["file1"] == ["folder1", "file1"];
    assert GetTreePath(f, "file1") == Some(["folder1", "file1"]);
    assert StrictAncestors(f, "file1") == ["folder1"];
    assert ["file1"][..0] == [];
  }

  /** Selecting "file1" expands its folder. */
  lemma SelectingFile1ExpandsFolder1()
    ensures AutoExpanded(SampleForest(), ["file1"]) == ["folder1"]
  {
    AncestorsOfFile1();
    assert Dedup(["folder1"]) == ["folder1"];
  }

  lemma PathToFile3()
    ensures GetTreePath(SampleForest(), "file3") == Some(["folder2", "file3"])
  {
    var f := SampleForest();
    var kids1 := f[0].children;
    var kids2 := f[1].children;
    assert f[0].id == "folder1" && f[1].id == "folder2" && kids1[0].id == "file1" && kids1[1].id == "file2" && kids2[0].id == "file3";
    assert "folder1"[1] != "file3"[1] && "folder2"[1] != "file3"[1] && "file1"[4] != "file3"[4] && "file2"[4] != "file3"[4];
    assert kids1[1..][1..] == [] && |kids1[1..][0].children| == 0 && |kids1[0].children| == 0;
    assert SearchRecursive(kids1[1..], "file3", ["folder1"]) == None;
    assert SearchRecursive(kids1, "file3", ["folder1"]) == None;
    assert SearchRecursive(f, "file3", []) == SearchRecursive(f[1..], "file3", []);
    assert f[1..][0] == f[1];
    assert SearchRecursive(kids2, "file3", [] + ["folder2"]) == Some([] + ["folder2"] + ["file3"]);
    assert [] + ["folder2"] + ["file3"] == ["folder2", "file3"];
    assert SearchRecursive(f[1..], "file3", []) == Some(["folder2", "file3"]);
  }

  lemma AncestorsOfFile1AndFile3()
    ensures Ancestors(SampleForest(), ["file1", "file3"]) == ["folder1", "folder2"]
  {
    AncestorsOfFile3();
    AncestorsOfFile1();
    assert ["file1", "file3"][..1] == ["file1"];
  }

  lemma AncestorsOfFile3()
    ensures StrictAncestors(SampleForest(), "file3") == ["folder2"]
  {
    PathToFile3();
  }

  /** Selecting "file1" and "file3" expands both folders, in that order. */
  lemma SelectingFile1AndFile3ExpandsBothFolders()
    ensures AutoExpanded(SampleForest(), ["file1", "file3"]) == ["folder1", "folder2"]
  {
    AncestorsOfFile1AndFile3();
    assert Distinct(["folder1", "folder2"]) by { assert "folder1"[6] != "folder2"[6]; }
    DedupOfDistinct(["folder1", "folder2"]);
  }

  /** The expanded ids: the normalised argument when given, otherwise the
      automatic expansion of the normalised selection. */
  function ExpandedIds(items: seq<Node>, selected: IdArg, expanded: IdArg): (r: seq<string>)
    ensures expanded.Omitted? ==> r == AutoExpanded(items, NormalizeIds(selected))
    ensures !expanded.Omitted? ==> r == NormalizeIds(expanded)
  {
    if expanded.Omitted? then AutoExpanded(items, NormalizeIds(selected)) else NormalizeIds(expanded)
  }

  /** The dict that `json.dumps` turns into the page's script text. */
  datatype Payload = Payload(items: seq<Json>, multiple: bool, selected: seq<string>, expanded: seq<string>)

  /** The error raised for a forest with repeated ids, naming them. */
  datatype InputError = DuplicateTreeItemIds(ids: seq<string>)

  /** The payload as a JSON object, keys in the order the dict literal
      gives them. */
  function PayloadJson(p: Payload): (r: Json)
    ensures r.JObj? && |r.fields| == 4
    ensures r.fields[0] == ("items", JArr(p.items)) && r.fields[1] == ("multiple", JBool(p.multiple))
    ensures r.fields[2] == ("selected", StringArray(p.selected)) && r.fields[3] == ("expanded", StringArray(p.expanded))
  {
    JObj([("items", JArr(p.items)), ("multiple", JBool(p.multiple)),
          ("selected", StringArray(p.selected)), ("expanded", StringArray(p.expanded))])
  }

  /** What each key of the payload holds. */
  lemma PayloadKeys(p: Payload)
    ensures var f := PayloadJson(p).fields;
      && Lookup(f, "items") == Some(JArr(p.items))
      && Lookup(f, "multiple") == Some(JBool(p.multiple))
      && Lookup(f, "selected") == Some(StringArray(p.selected))
      && Lookup(f, "expanded") == Some(StringArray(p.expanded))
  {
    var f := PayloadJson(p).fields;
    assert "items"[0] != "multiple"[0] && "items"[0] != "selected"[0] && "items"[0] != "expanded"[0];
    assert "multiple"[0] != "selected"[0] && "multiple"[0] != "expanded"[0] && "selected"[0] != "expanded"[0];
    assert f == [f[0]] + [f[1]] + [f[2]] + [f[3]];
    LookupParts([f[0]], [f[1]], [f[2]], [f[3]], "items");
    LookupParts([f[0]], [f[1]], [f[2]], [f[3]], "multiple");
    LookupParts([f[0]], [f[1]], [f[2]], [f[3]], "selected");
    LookupParts([f[0]], [f[1]], [f[2]], [f[3]], "expanded");
  }

  /** The browser reads back exactly what was sent: the items as shown
      (captions dropped), `multiple`, and both id lists unchanged. */
  lemma BrowserReadsPayload(items: seq<Node>, p: Payload)
    requires p.items == ToDictsWithCaption(items)
    ensures Client.ReadConfig(Some(PayloadJson(p)))
      == Client.Config(Client.ShownAll(items), p.multiple, p.selected, p.expanded)
  {
    PayloadKeys(p);
    Client.ValidateToDictsWithCaption(items);
    Client.ParseStringArrayRoundTrip(p.selected, []);
    Client.ParseStringArrayRoundTrip(p.expanded, []);
  }

  /** `input_treeview`: refuse a forest with a repeated id anywhere, listing
      the repeated ids in ascending order; otherwise the payload of the
      serialised roots, `multiple` as given and the normalised lists. */
  method InputTreeview(items: seq<Node>, multiple: bool, selected: IdArg, expanded: IdArg)
    returns (r: Result<Payload, InputError>)
    ensures r.Failure? <==> !Distinct(PreorderIds(items))
    ensures r.Failure? ==> StrictlyAscending(r.error.ids)
    ensures r.Failure? ==> forall x :: x in r.error.ids <==> x in Repeated(PreorderIds(items))
    ensures r.Success? ==> r.value.items == ToDictsWithCaption(items) && r.value.multiple == multiple
    ensures r.Success? ==> r.value.selected == NormalizeIds(selected)
    ensures r.Success? ==> r.value.expanded == ExpandedIds(items, selected, expanded)
  {
    var duplicates := DuplicateIds(items);
    if duplicates != [] {
      return Failure(DuplicateTreeItemIds(duplicates));
    }
    var selectedItems := NormalizeIds(selected);
    var expandedItems;
    if expanded.Omitted? {
      expandedItems := AutoExpand(items, selectedItems);
    } else {
      expandedItems := NormalizeIds(expanded);
    }
    r := Success(Payload(ToDictsWithCaption(items), multiple, selectedItems, expandedItems));
  }
}
