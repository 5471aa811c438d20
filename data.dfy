/** The older, caption-less `TreeItem` of shiny_treeview/data.py, which
    shiny_treeview/utils.py and shiny_treeview/treeview.py use. It is the same
    node type with the caption left at "", and its own serialiser that never
    emits a caption. */
module Data {
  import opened Wrappers
  import opened JsonValue
  import opened Tree

  /** `TreeItem(id, label, children, disabled)` of data.py: the same checks,
      in the same order, as the captioned item, with no caption field. */
  function NewLegacyItem(id: string, labelText: string, children: seq<Node>, disabled: bool)
    : (r: Result<Node, ValidationError>)
    ensures !ValidId(id) ==> r == Failure(IdEmptyOrWhitespace)
    ensures ValidId(id) && (forall i :: 0 <= i < |labelText| ==> IsSpace(labelText[i])) ==> r == Failure(LabelBlank)
    ensures r.Success? <==> ValidId(id) && exists i :: 0 <= i < |labelText| && !IsSpace(labelText[i])
    ensures r.Success? ==> r.value == Node(id, labelText, "", children, disabled)
  {
    StripEmptyIffAllSpace(labelText);
    if id == [] || exists i :: 0 <= i < |id| && IsAsciiWhitespace(id[i]) then Failure(IdEmptyOrWhitespace)
    else if Strip(labelText) == [] then Failure(LabelBlank)
    else Success(Node(id, labelText, "", children, disabled))
  }

  /** `TreeItem.to_dict()` of data.py: `id` and `label` always, `disabled:
      true` only when set, `children` only when there are some; the fields
      of NodeFields with no caption. */
  function ToDict(n: Node): (r: Json)
    ensures r.JObj? && |r.fields| >= 2
    ensures r.fields[..2] == [("id", JStr(n.id)), ("label", JStr(n.labelText))]
    decreases n, 0
  {
    JObj(NodeFields(n.id, n.labelText, "", n.disabled, ToDicts(n.children)))
  }

  /** `[x.to_dict() for x in ns]`. */
  function ToDicts(ns: seq<Node>): (r: seq<Json>)
    ensures |r| == |ns|
    ensures forall i :: 0 <= i < |ns| ==> r[i] == ToDict(ns[i])
    decreases ns, 1
  {
    if ns == [] then [] else [ToDict(ns[0])] + ToDicts(ns[1..])
  }

  /** What each key of `to_dict()` holds; there is never a caption. */
  lemma ToDictKeys(n: Node)
    ensures var f := ToDict(n).fields;
      && Lookup(f, "id") == Some(JStr(n.id))
      && Lookup(f, "label") == Some(JStr(n.labelText))
      && Lookup(f, "caption") == None
      && Lookup(f, "disabled") == (if n.disabled then Some(JBool(true)) else None)
      && Lookup(f, "children") == (if n.children != [] then Some(JArr(ToDicts(n.children))) else None)
  {
    NodeFieldsKeys(n.id, n.labelText, "", n.disabled, ToDicts(n.children));
  }

  /** No node of the tree has a caption. */
  predicate CaptionFree(n: Node) {
    n.caption == "" && forall i :: 0 <= i < |n.children| ==> CaptionFree(n.children[i])
  }

  /** Items built by data.py's constructor from caption-free children are
      caption-free. */
  lemma NewLegacyItemCaptionFree(id: string, labelText: string, children: seq<Node>, disabled: bool)
    requires forall i :: 0 <= i < |children| ==> CaptionFree(children[i])
    requires NewLegacyItem(id, labelText, children, disabled).Success?
    ensures CaptionFree(NewLegacyItem(id, labelText, children, disabled).value)
  {
  }

  /** The two serialisers agree on caption-free trees: the only difference
      between them is the caption key. */
  lemma {:induction false} ToDictAgreesWithoutCaptions(n: Node)
    requires CaptionFree(n)
    ensures ToDict(n) == ToDictWithCaption(n)
    decreases n, 0
  {
    ToDictsAgreeWithoutCaptions(n.children);
  }

  lemma {:induction false} ToDictsAgreeWithoutCaptions(ns: seq<Node>)
    requires forall i :: 0 <= i < |ns| ==> CaptionFree(ns[i])
    ensures ToDicts(ns) == ToDictsWithCaption(ns)
    decreases ns, 1
  {
    forall i | 0 <= i < |ns| ensures ToDict(ns[i]) == ToDictWithCaption(ns[i]) {
      ToDictAgreesWithoutCaptions(ns[i]);
    }
  }

  /** The captioned constructor with an empty caption builds the same item as
      data.py's constructor. */
  lemma NewItemWithoutCaption(id: string, labelText: string, children: seq<Node>, disabled: bool)
    ensures NewItem(id, labelText, "", children, disabled) == NewLegacyItem(id, labelText, children, disabled)
  {
  }
}
