/** The browser side of srcts/index.ts: the configuration record that the
    input binding's `setup` reads out of the parsed JSON payload, keeping
    only well-formed tree items (`validateTreeItems`) and string ids
    (`parseStringArray`). */
module Client {
  import opened Wrappers
  import opened JsonValue
  import opened Tree
  import Data

  /** The TypeScript `TreeItem` that survives validation: `id` and `label`
      (here `labelText`) always; `disabled` only when the input's was a boolean; `children`
      only when at least one child survived, so the empty sequence stands
      for an absent `children` property. */
  datatype ClientItem = ClientItem(id: string, labelText: string, disabled: Option<bool>, children: seq<ClientItem>)

  /** JavaScript truthiness of a parsed JSON value (`!!v`). */
  predicate Truthy(v: Json) {
    match v
    case JNull => false
    case JBool(b) => b
    case JNum(n) => n != 0.0
    case JStr(s) => s != ""
    case JArr(_) => true
    case JObj(_) => true
  }

  /** `typeof v === 'object'`: objects, arrays and `null`. */
  predicate IsObjectType(v: Json) {
    v.JObj? || v.JArr? || v.JNull?
  }

  /** The string elements of `vs`, in order (`vs.filter(x => typeof x ===
      'string')`). */
  function StringsOf(vs: seq<Json>): (r: seq<string>)
    ensures |r| <= |vs|
    ensures forall x :: x in r <==> JStr(x) in vs
  {
    if vs == [] then []
    else
      var rest := StringsOf(vs[1..]);
      assert forall v :: v in vs <==> v == vs[0] || v in vs[1..];
      if vs[0].JStr? then [vs[0].s] + rest else rest
  }

  /** `parseStringArray(value, fallback)`. */
  function ParseStringArray(value: Json, fallback: seq<string>): (r: seq<string>)
    ensures !value.JArr? ==> r == fallback
    ensures value.JArr? ==> forall x :: x in r <==> JStr(x) in value.elems
  {
    if value.JArr? then StringsOf(value.elems) else fallback
  }

  /** The filter keeps order: filtering a concatenation concatenates the
      filtered parts. Together with the one-element case this determines
      StringsOf completely. */
  lemma {:induction false} StringsOfAppend(a: seq<Json>, b: seq<Json>)
    ensures StringsOf(a + b) == StringsOf(a) + StringsOf(b)
  {
    if a != [] {
      assert (a + b)[0] == a[0] && (a + b)[1..] == a[1..] + b;
      StringsOfAppend(a[1..], b);
    } else {
      assert a + b == b;
    }
  }

  lemma StringsOfOne(v: Json)
    ensures StringsOf([v]) == if v.JStr? then [v.s] else []
  {
    assert [v][1..] == [];
  }

  /** A list of ids serialised by the Python side parses back unchanged. */
  lemma {:induction false} ParseStringArrayRoundTrip(ids: seq<string>, fallback: seq<string>)
    ensures ParseStringArray(StringArray(ids), fallback) == ids
  {
    var elems := StringArray(ids).elems;
    if ids != [] {
      assert elems == [JStr(ids[0])] + StringArray(ids[1..]).elems;
      StringsOfAppend([JStr(ids[0])], StringArray(ids[1..]).elems);
      StringsOfOne(JStr(ids[0]));
      ParseStringArrayRoundTrip(ids[1..], fallback);
    } else {
      assert elems == [];
    }
  }

  /** `validateItem(item)`: null (None) unless the item is a truthy object
      whose `id` and `label` are strings; otherwise the item cut down to
      `id`, `label`, a boolean `disabled`, and the children that validate
      in turn (kept only when there is at least one). */
  function ValidateItem(item: Json): (r: Option<ClientItem>)
    ensures r.None? <==>
      !(item.JObj? && Property(item, "id").Some? && Property(item, "id").value.JStr?
        && Property(item, "label").Some? && Property(item, "label").value.JStr?)
    ensures r.Some? ==>
      && r.value.id == Property(item, "id").value.s
      && r.value.labelText == Property(item, "label").value.s
    decreases item, 0
  {
    if !Truthy(item) || !IsObjectType(item) then None
    else
      var id := Property(item, "id");
      var labelText := Property(item, "label");
      if !(id.Some? && id.value.JStr?) || !(labelText.Some? && labelText.value.JStr?) then None
      else
        var disabled := Property(item, "disabled");
        var children := Property(item, "children");
        Some(ClientItem(
          id.value.s,
          labelText.value.s,
          if disabled.Some? && disabled.value.JBool? then Some(disabled.value.b) else None,
          if children.Some? && children.value.JArr? then ValidateAll(children.value.elems) else []))
  }

  /** `items.map(validateItem).filter(x => x !== null)`: the items that
      validate, in order. */
  function ValidateAll(items: seq<Json>): (r: seq<ClientItem>)
    ensures |r| <= |items|
    ensures forall c :: c in r <==> exists i :: 0 <= i < |items| && ValidateItem(items[i]) == Some(c)
    decreases items, 1
  {
    if items == [] then []
    else
      var first := ValidateItem(items[0]);
      var rest := ValidateAll(items[1..]);
      assert forall c :: (exists i :: 0 <= i < |items| && ValidateItem(items[i]) == Some(c)) <==>
        first == Some(c) || exists i :: 0 <= i < |items[1..]| && ValidateItem(items[1..][i]) == Some(c) by {
        forall c, i | 0 <= i < |items| && ValidateItem(items[i]) == Some(c) && i > 0
          ensures ValidateItem(items[1..][i - 1]) == Some(c)
        {
        }
      }
      (if first.Some? then [first.value] else []) + rest
  }

  /** The filter keeps order: validating a concatenation concatenates the
      validated parts. */
  lemma {:induction false} ValidateAllAppend(a: seq<Json>, b: seq<Json>)
    ensures ValidateAll(a + b) == ValidateAll(a) + ValidateAll(b)
  {
    if a != [] {
      assert (a + b)[0] == a[0] && (a + b)[1..] == a[1..] + b;
      ValidateAllAppend(a[1..], b);
    } else {
      assert a + b == b;
    }
  }

  /** A validated item keeps `disabled` only as a boolean, and has children
      exactly when the input's `children` is an array with at least one
      valid child. */
  lemma ValidatedFields(item: Json)
    requires ValidateItem(item).Some?
    ensures var c := ValidateItem(item).value; var d := Property(item, "disabled");
      c.disabled == if d.Some? && d.value.JBool? then Some(d.value.b) else None
    ensures var c := ValidateItem(item).value; var ch := Property(item, "children");
      c.children != [] <==>
        ch.Some? && ch.value.JArr? && exists i :: 0 <= i < |ch.value.elems| && ValidateItem(ch.value.elems[i]).Some?
  {
    var ch := Property(item, "children");
    if ch.Some? && ch.value.JArr? {
      var cs := ch.value.elems;
      var r := ValidateAll(cs);
      if r != [] {
        assert r[0] in r;
      }
      if exists i :: 0 <= i < |cs| && ValidateItem(cs[i]).Some? {
        var i :| 0 <= i < |cs| && ValidateItem(cs[i]).Some?;
        assert ValidateItem(cs[i]).value in ValidateAll(cs);
      }
    }
  }

  /** `validateTreeItems(items)`: nothing unless `items` is an array. */
  function ValidateTreeItems(items: Json): (r: seq<ClientItem>)
    ensures !items.JArr? ==> r == []
    ensures items.JArr? ==> forall c :: c in r <==> exists i :: 0 <= i < |items.elems| && ValidateItem(items.elems[i]) == Some(c)
  {
    if items.JArr? then ValidateAll(items.elems) else []
  }

  /** The configuration the component is rendered with. */
  datatype Config = Config(items: seq<ClientItem>, multiple: bool, selected: seq<string>, expanded: seq<string>)

  /** `x ?? []`: an absent property or `null` becomes the empty array. */
  function OrEmpty(p: Option<Json>): (r: Json)
    ensures p.None? || p.value.JNull? ==> r == JArr([])
    ensures p.Some? && !p.value.JNull? ==> r == p.value
  {
    if p.None? || p.value.JNull? then JArr([]) else p.value
  }

  /** `Boolean(x)`, where an absent property is `undefined` and so false. */
  predicate BooleanOf(p: Option<Json>) {
    p.Some? && Truthy(p.value)
  }

  /** The configuration `setup` assembles from the parsed script text;
      None stands for `JSON.parse` throwing, which yields the all-empty
      fallback. */
  function ReadConfig(parsed: Option<Json>): (c: Config)
    ensures parsed.None? ==> c == Config([], false, [], [])
    ensures forall x :: x in c.selected ==>
      parsed.Some? && Property(parsed.value, "selected").Some?
        && Property(parsed.value, "selected").value.JArr? && JStr(x) in Property(parsed.value, "selected").value.elems
    ensures forall x :: x in c.expanded ==>
      parsed.Some? && Property(parsed.value, "expanded").Some?
        && Property(parsed.value, "expanded").value.JArr? && JStr(x) in Property(parsed.value, "expanded").value.elems
  {
    match parsed
    case None => Config([], false, [], [])
    case Some(raw) =>
      Config(
        ValidateTreeItems(OrEmpty(Property(raw, "items"))),
        BooleanOf(Property(raw, "multiple")),
        ParseStringArray(OrEmpty(Property(raw, "selected")), []),
        ParseStringArray(OrEmpty(Property(raw, "expanded")), []))
  }

  /** What the browser keeps of a node: everything but the caption, with
      `disabled` present only when set. */
  function Shown(n: Node): (c: ClientItem)
    ensures c.id == n.id && c.labelText == n.labelText
    ensures c.disabled == (if n.disabled then Some(true) else None)
    ensures |c.children| == |n.children|
    decreases n, 0
  {
    ClientItem(n.id, n.labelText, if n.disabled then Some(true) else None, ShownAll(n.children))
  }

  function ShownAll(ns: seq<Node>): (r: seq<ClientItem>)
    ensures |r| == |ns|
    ensures forall i :: 0 <= i < |ns| ==> r[i] == Shown(ns[i])
    decreases ns, 1
  {
    if ns == [] then [] else [Shown(ns[0])] + ShownAll(ns[1..])
  }

  /** The serialised fields of a node validate to the node's id, label,
      `disabled` flag and validated children. */
  lemma ValidateNodeFields(id: string, labelText: string, caption: string, disabled: bool, kids: seq<Json>)
    ensures ValidateItem(JObj(NodeFields(id, labelText, caption, disabled, kids)))
      == Some(ClientItem(id, labelText, if disabled then Some(true) else None, ValidateAll(kids)))
  {
    var d := if disabled then Some(JBool(true)) else None;
    var ch := if kids != [] then Some(JArr(kids)) else None;
    NodeFieldsKeys(id, labelText, caption, disabled, kids);
    ValidateObject(NodeFields(id, labelText, caption, disabled, kids), id, labelText, d, ch);
  }

  /** An object whose `id` and `label` are strings validates; what it keeps
      of `disabled` and `children` depends only on those two properties. */
  lemma ValidateObject(fields: seq<(string, Json)>, id: string, labelText: string, d: Option<Json>, ch: Option<Json>)
    requires Lookup(fields, "id") == Some(JStr(id)) && Lookup(fields, "label") == Some(JStr(labelText))
    requires Lookup(fields, "disabled") == d && Lookup(fields, "children") == ch
    ensures ValidateItem(JObj(fields)) == Some(ClientItem(id, labelText,
      if d.Some? && d.value.JBool? then Some(d.value.b) else None,
      if ch.Some? && ch.value.JArr? then ValidateAll(ch.value.elems) else []))
  {
  }

  /** Every node serialised by `_to_dict()` (tree.py) passes validation and
      comes back as its Shown form: nothing is dropped but the caption. */
  lemma {:induction false} ValidateToDictWithCaption(n: Node)
    ensures ValidateItem(ToDictWithCaption(n)) == Some(Shown(n))
    decreases n, 0
  {
    ValidateNodeFields(n.id, n.labelText, n.caption, n.disabled, ToDictsWithCaption(n.children));
    ValidateToDictsWithCaption(n.children);
  }

  lemma {:induction false} ValidateToDictsWithCaption(ns: seq<Node>)
    ensures ValidateAll(ToDictsWithCaption(ns)) == ShownAll(ns)
    decreases ns, 1
  {
    if ns != [] {
      var js := ToDictsWithCaption(ns);
      assert js[1..] == ToDictsWithCaption(ns[1..]);
      ValidateToDictWithCaption(ns[0]);
      ValidateToDictsWithCaption(ns[1..]);
    }
  }

  /** The same for `to_dict()` of data.py. */
  lemma {:induction false} ValidateToDict(n: Node)
    ensures ValidateItem(Data.ToDict(n)) == Some(Shown(n))
    decreases n, 0
  {
    ValidateNodeFields(n.id, n.labelText, "", n.disabled, Data.ToDicts(n.children));
    ValidateToDicts(n.children);
  }

  lemma {:induction false} ValidateToDicts(ns: seq<Node>)
    ensures ValidateAll(Data.ToDicts(ns)) == ShownAll(ns)
    decreases ns, 1
  {
    if ns != [] {
      var js := Data.ToDicts(ns);
      assert js[1..] == Data.ToDicts(ns[1..]);
      ValidateToDict(ns[0]);
      ValidateToDicts(ns[1..]);
    }
  }
}
