/** The tree node of shiny_treeview/tree.py (the exported `TreeItem`):
    construction-time validation of its own fields and the serialiser that
    drops default values before the payload is sent to the browser. */
module Tree {
  import opened Wrappers
  import opened JsonValue

  /** A tree node; `labelText` is the source's `label` field. Children are
      owned by value, so a node is never its own descendant. */
  datatype Node = Node(id: string, labelText: string, caption: string, children: seq<Node>, disabled: bool)

  /** The construction failures that survive static typing, in the order the
      checks run. */
  datatype ValidationError = IdEmptyOrWhitespace | LabelBlank

  /** Python's `string.whitespace`: space, tab, line feed, carriage return,
      vertical tab and form feed. */
  predicate IsAsciiWhitespace(c: char) {
    c == ' ' || c == '\t' || c == '\n' || c == '\r' || c == '\U{0B}' || c == '\U{0C}'
  }

  /** Characters that Python's `str.strip()` (no argument) removes: those for
      which `str.isspace()` holds. */
  predicate IsSpace(c: char) {
    || IsAsciiWhitespace(c)
    || '\U{1C}' <= c <= '\U{1F}'
    || c == '\U{85}' || c == '\U{A0}' || c == '\U{1680}'
    || '\U{2000}' <= c <= '\U{200A}'
    || c == '\U{2028}' || c == '\U{2029}' || c == '\U{202F}' || c == '\U{205F}' || c == '\U{3000}'
  }

  /** An id must be non-empty and free of `string.whitespace` characters. */
  predicate ValidId(id: string) {
    id != [] && forall i :: 0 <= i < |id| ==> !IsAsciiWhitespace(id[i])
  }

  /** `s.lstrip()`. */
  function LeftStrip(s: string): (r: string)
    ensures |r| <= |s| && r == s[|s| - |r|..]
    ensures r == [] || !IsSpace(r[0])
    ensures forall i :: 0 <= i < |s| - |r| ==> IsSpace(s[i])
  {
    if s == [] || !IsSpace(s[0]) then s else LeftStrip(s[1..])
  }

  /** `s.rstrip()`. */
  function RightStrip(s: string): (r: string)
    ensures |r| <= |s| && r == s[..|r|]
    ensures r == [] || !IsSpace(r[|r| - 1])
    ensures forall i :: |r| <= i < |s| ==> IsSpace(s[i])
  {
    if s == [] || !IsSpace(s[|s| - 1]) then s else RightStrip(s[..|s| - 1])
  }

  /** `s.strip()`: the longest middle slice of `s` that starts and ends
      with a non-space character. */
  function Strip(s: string): (r: string)
    ensures r == [] || (!IsSpace(r[0]) && !IsSpace(r[|r| - 1]))
  {
    RightStrip(LeftStrip(s))
  }

  /** A label is rejected exactly when every character of it is a space
      character (the empty label included). */
  lemma StripEmptyIffAllSpace(s: string)
    ensures Strip(s) == [] <==> forall i :: 0 <= i < |s| ==> IsSpace(s[i])
  {
    var l := LeftStrip(s);
    if Strip(s) == [] {
      assert l == [];
    } else if forall i :: 0 <= i < |s| ==> IsSpace(s[i]) {
      if l != [] {
        assert l[0] == s[|s| - |l|];
      }
    }
  }

  /** `TreeItem(id, label, caption, children, disabled)`: `__post_init__`
      checks the id, then the label; a failing check is the one reported.
      Only the node's own fields are checked: children are taken as they
      are, so ids repeated among descendants are accepted here. */
  function NewItem(id: string, labelText: string, caption: string, children: seq<Node>, disabled: bool)
    : (r: Result<Node, ValidationError>)
    ensures !ValidId(id) ==> r == Failure(IdEmptyOrWhitespace)
    ensures ValidId(id) && (forall i :: 0 <= i < |labelText| ==> IsSpace(labelText[i])) ==> r == Failure(LabelBlank)
    ensures r.Success? <==> ValidId(id) && exists i :: 0 <= i < |labelText| && !IsSpace(labelText[i])
    ensures r.Success? ==> r.value == Node(id, labelText, caption, children, disabled)
  {
    StripEmptyIffAllSpace(labelText);
    if id == [] || exists i :: 0 <= i < |id| && IsAsciiWhitespace(id[i]) then Failure(IdEmptyOrWhitespace)
    else if Strip(labelText) == [] then Failure(LabelBlank)
    else Success(Node(id, labelText, caption, children, disabled))
  }

  /** Every node of the tree passed the construction checks. */
  ghost predicate ValidTree(n: Node) {
    && ValidId(n.id)
    && Strip(n.labelText) != []
    && forall i :: 0 <= i < |n.children| ==> ValidTree(n.children[i])
  }

  /** Construction from valid children yields a valid tree. */
  lemma NewItemValid(id: string, labelText: string, caption: string, children: seq<Node>, disabled: bool)
    requires forall i :: 0 <= i < |children| ==> ValidTree(children[i])
    requires NewItem(id, labelText, caption, children, disabled).Success?
    ensures ValidTree(NewItem(id, labelText, caption, children, disabled).value)
  {
    StripEmptyIffAllSpace(labelText);
  }

  /** Construction does not look at descendants: a parent may have a child
      with its own id. */
  lemma NewItemAcceptsRepeatedIds()
    ensures NewItem("a", "A", "", [Node("a", "A", "", [], false)], false).Success?
  {
    assert ValidId("a") by { assert !IsAsciiWhitespace("a"[0]); }
    assert !IsSpace("A"[0]);
  }

  /** The serialised fields of a node, given its already serialised
      children: `id` and `label` always; `caption` only when non-empty,
      `disabled: true` only when set, `children` only when there are some. */
  function NodeFields(id: string, labelText: string, caption: string, disabled: bool, kids: seq<Json>): seq<(string, Json)> {
    [("id", JStr(id)), ("label", JStr(labelText))]
    + (if caption != "" then [("caption", JStr(caption))] else [])
    + (if disabled then [("disabled", JBool(true))] else [])
    + (if kids != [] then [("children", JArr(kids))] else [])
  }

  /** What each key of NodeFields holds. */
  lemma NodeFieldsKeys(id: string, labelText: string, caption: string, disabled: bool, kids: seq<Json>)
    ensures var f := NodeFields(id, labelText, caption, disabled, kids);
      && Lookup(f, "id") == Some(JStr(id))
      && Lookup(f, "label") == Some(JStr(labelText))
      && Lookup(f, "caption") == (if caption != "" then Some(JStr(caption)) else None)
      && Lookup(f, "disabled") == (if disabled then Some(JBool(true)) else None)
      && Lookup(f, "children") == (if kids != [] then Some(JArr(kids)) else None)
  {
    var a: seq<(string, Json)> := [("id", JStr(id)), ("label", JStr(labelText))];
    var c: seq<(string, Json)> := if caption != "" then [("caption", JStr(caption))] else [];
    var d: seq<(string, Json)> := if disabled then [("disabled", JBool(true))] else [];
    var e: seq<(string, Json)> := if kids != [] then [("children", JArr(kids))] else [];
    KeyNames();
    LookupParts(a, c, d, e, "id");
    LookupParts(a, c, d, e, "label");
    LookupParts(a, c, d, e, "caption");
    LookupParts(a, c, d, e, "disabled");
    LookupParts(a, c, d, e, "children");
  }

  /** `TreeItem._to_dict()`: the fields of NodeFields, with the children
      serialised the same way (ToDictWithCaptionKeys states them key by
      key). */
  function ToDictWithCaption(n: Node): (r: Json)
    ensures r.JObj? && |r.fields| >= 2
    ensures r.fields[..2] == [("id", JStr(n.id)), ("label", JStr(n.labelText))]
    decreases n, 0
  {
    JObj(NodeFields(n.id, n.labelText, n.caption, n.disabled, ToDictsWithCaption(n.children)))
  }

  /** `[x._to_dict() for x in ns]`. */
  function ToDictsWithCaption(ns: seq<Node>): (r: seq<Json>)
    ensures |r| == |ns|
    ensures forall i :: 0 <= i < |ns| ==> r[i] == ToDictWithCaption(ns[i])
    decreases ns, 1
  {
    if ns == [] then [] else [ToDictWithCaption(ns[0])] + ToDictsWithCaption(ns[1..])
  }

  /** What each key of `_to_dict()` holds. */
  lemma ToDictWithCaptionKeys(n: Node)
    ensures var f := ToDictWithCaption(n).fields;
      && Lookup(f, "id") == Some(JStr(n.id))
      && Lookup(f, "label") == Some(JStr(n.labelText))
      && Lookup(f, "caption") == (if n.caption != "" then Some(JStr(n.caption)) else None)
      && Lookup(f, "disabled") == (if n.disabled then Some(JBool(true)) else None)
      && Lookup(f, "children") == (if n.children != [] then Some(JArr(ToDictsWithCaption(n.children))) else None)
  {
    NodeFieldsKeys(n.id, n.labelText, n.caption, n.disabled, ToDictsWithCaption(n.children));
  }

  /** `_to_dict()` emits no key besides those five. */
  lemma ToDictWithCaptionOnlyKnownKeys(n: Node)
    ensures forall p :: p in ToDictWithCaption(n).fields ==>
      p.0 == "id" || p.0 == "label" || p.0 == "caption" || p.0 == "disabled" || p.0 == "children"
  {
    var f := ToDictWithCaption(n).fields;
    forall p | p in f
      ensures p.0 == "id" || p.0 == "label" || p.0 == "caption" || p.0 == "disabled" || p.0 == "children"
    {
      var i :| 0 <= i < |f| && f[i] == p;
    }
  }

  /** The five serialised keys are pairwise distinct. */
  lemma KeyNames()
    ensures "id" != "label" && "id" != "caption" && "id" != "disabled" && "id" != "children"
    ensures "label" != "caption" && "label" != "disabled" && "label" != "children"
    ensures "caption" != "disabled" && "caption" != "children" && "disabled" != "children"
  {
    assert "id"[0] != "label"[0] && "id"[0] != "caption"[0] && "id"[0] != "disabled"[0];
    assert "label"[0] != "caption"[0] && "label"[0] != "disabled"[0] && "label"[0] != "children"[0];
    assert "caption"[1] != "children"[1] && |"id"| != |"children"| && "disabled"[0] != "children"[0];
  }

  lemma LookupParts(a: seq<(string, Json)>, c: seq<(string, Json)>, d: seq<(string, Json)>, e: seq<(string, Json)>, key: string)
    ensures Lookup(a + c + d + e, key) ==
      if Lookup(e, key).Some? then Lookup(e, key)
      else if Lookup(d, key).Some? then Lookup(d, key)
      else if Lookup(c, key).Some? then Lookup(c, key)
      else Lookup(a, key)
  {
    LookupAppend(a + c + d, e, key);
    LookupAppend(a + c, d, key);
    LookupAppend(a, c, key);
  }
}
