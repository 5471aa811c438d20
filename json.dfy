/** JSON values as they cross the Python/JavaScript boundary: the Python side
    builds them as dicts and lists, the browser side receives what
    `JSON.parse` produced. An object is its ordered list of key/value pairs
    (Python dicts keep insertion order); looking a key up finds the last pair
    with that key, which is what `JSON.parse` keeps when a key repeats. */
module JsonValue {
  import opened Wrappers

  datatype Json =
    | JNull
    | JBool(b: bool)
    | JNum(n: real)
    | JStr(s: string)
    | JArr(elems: seq<Json>)
    | JObj(fields: seq<(string, Json)>)

  /** The value stored under `key`, or None when the object has no such key. */
  function Lookup(fields: seq<(string, Json)>, key: string): (r: Option<Json>)
    ensures r.Some? ==> (key, r.value) in fields
    ensures r.None? <==> forall p :: p in fields ==> p.0 != key
  {
    if fields == [] then None
    else if fields[|fields| - 1].0 == key then Some(fields[|fields| - 1].1)
    else
      var r := Lookup(fields[..|fields| - 1], key);
      assert forall p :: p in fields ==> p in fields[..|fields| - 1] || p == fields[|fields| - 1];
      r
  }

  /** The property `key` of a JavaScript value: only objects carry the
      properties this model reads (`id`, `label`, `disabled`, `children`,
      `items`, `multiple`, `selected`, `expanded`); on anything else the
      property is `undefined` (None). */
  function Property(v: Json, key: string): (r: Option<Json>)
    ensures r.Some? ==> v.JObj? && (key, r.value) in v.fields
  {
    if v.JObj? then Lookup(v.fields, key) else None
  }

  /** A JSON array of JSON strings. */
  function StringArray(ids: seq<string>): (r: Json)
    ensures r.JArr? && |r.elems| == |ids|
    ensures forall i :: 0 <= i < |ids| ==> r.elems[i] == JStr(ids[i])
  {
    JArr(seq(|ids|, i requires 0 <= i < |ids| => JStr(ids[i])))
  }

  /** A key found in the later part of a concatenation shadows the earlier part. */
  lemma {:induction false} LookupAppend(a: seq<(string, Json)>, b: seq<(string, Json)>, key: string)
    ensures Lookup(a + b, key) == if Lookup(b, key).Some? then Lookup(b, key) else Lookup(a, key)
  {
    if b != [] {
      assert (a + b)[..|a + b| - 1] == a + b[..|b| - 1];
      LookupAppend(a, b[..|b| - 1], key);
    } else {
      assert a + b == a;
    }
  }
}
