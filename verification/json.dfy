/**
 The JSON document model: serde_json's dynamically typed `Value`, with the
 two object accesses the patch uses — reading a member (`get`) and
 overwriting an existing member through the reference `get_mut` hands out.
 */
module Json {
  import opened Outcomes

  /** A JSON value. Numbers keep their literal text (the patch never looks at
      them); object members keep their order. */
  datatype Json =
    | Null
    | Bool(b: bool)
    | Number(literal: string)
    | Str(s: string)
    | Arr(items: seq<Json>)
    | Obj(fields: seq<(string, Json)>)

  type Fields = seq<(string, Json)>

  /** The member names of an object, in order. */
  function Keys(fields: Fields): (ks: seq<string>)
    ensures |ks| == |fields|
    ensures forall j :: 0 <= j < |fields| ==> ks[j] == fields[j].0
  {
    seq(|fields|, j requires 0 <= j < |fields| => fields[j].0)
  }

  /** Position of the first member named `key`, if any. */
  function KeyIndex(fields: Fields, key: string): (r: Option<nat>)
    ensures r.Some? ==> r.value < |fields| && fields[r.value].0 == key
    ensures r.Some? ==> forall j :: 0 <= j < r.value ==> fields[j].0 != key
    ensures r.None? <==> key !in Keys(fields)
  {
    if |fields| == 0 then None
    else if fields[0].0 == key then Some(0)
    else
      match KeyIndex(fields[1..], key)
      case None => None
      case Some(i) => Some(i + 1)
  }

  /** The value of member `key`, if the object has one. */
  function Lookup(fields: Fields, key: string): Option<Json>
  {
    match KeyIndex(fields, key)
    case None => None
    case Some(i) => Some(fields[i].1)
  }

  /** `Value::get(key)`: the member of an object; nothing for any other value. */
  function Get(v: Json, key: string): Option<Json>
  {
    if v.Obj? then Lookup(v.fields, key) else None
  }

  /** `b` has the member names of `a`, and the same values except perhaps
      under `key`. */
  ghost predicate AgreeExcept(a: Fields, b: Fields, key: string)
  {
    Keys(a) == Keys(b) && forall k :: k != key ==> Lookup(b, k) == Lookup(a, k)
  }

  /** Writing `v` through `get_mut(key)`: the existing member `key` gets the
      new value in place; an object without that member is left as it is. */
  function Update(fields: Fields, key: string, v: Json): (r: Fields)
    ensures AgreeExcept(fields, r, key)
    ensures Lookup(r, key) == (if key in Keys(fields) then Some(v) else None)
  {
    match KeyIndex(fields, key)
    case None => fields
    case Some(i) =>
      var r := fields[i := (key, v)];
      assert Keys(r) == Keys(fields);
      forall k | k != key ensures Lookup(r, k) == Lookup(fields, k) {
        SameKeysSameIndex(r, fields, k);
      }
      SameKeysSameIndex(r, fields, key);
      r
  }

  /** Lookup positions depend on the member names only. */
  lemma SameKeysSameIndex(a: Fields, b: Fields, key: string)
    requires Keys(a) == Keys(b)
    ensures KeyIndex(a, key) == KeyIndex(b, key)
  {
  }

  /** A second write to the same member wins outright: the first leaves no trace. */
  lemma UpdateTwice(fields: Fields, key: string, v: Json, w: Json)
    ensures Update(Update(fields, key, v), key, w) == Update(fields, key, w)
  {
  }
}
