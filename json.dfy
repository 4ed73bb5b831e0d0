/**
 * JSON values as `json.loads` returns them and `json.dumps` reads them:
 * objects keep their keys in insertion order, numbers are integers.
 */
module Json {
  import opened Wrappers

  datatype Value =
    | Null
    | Bool(b: bool)
    | Num(n: int)
    | Str(s: string)
    | Arr(items: seq<Value>)
    | Obj(fields: seq<Field>)

  datatype Field = Field(key: string, val: Value)

  /** The value stored under `key` in an object (its first occurrence), or None. */
  function Get(v: Value, key: string): (r: Option<Value>)
    ensures r.Some? <==> v.Obj? && exists i :: 0 <= i < |v.fields| && v.fields[i].key == key
    ensures r.Some? ==> exists i :: 0 <= i < |v.fields| && v.fields[i] == Field(key, r.value)
  {
    if v.Obj? then Find(v.fields, key) else None
  }

  function Find(fields: seq<Field>, key: string): (r: Option<Value>)
    ensures r.Some? <==> exists i :: 0 <= i < |fields| && fields[i].key == key
    ensures r.Some? ==> exists i :: 0 <= i < |fields| && fields[i] == Field(key, r.value)
  {
    if fields == [] then None
    else if fields[0].key == key then Some(fields[0].val)
    else
      var r := Find(fields[1..], key);
      assert r.Some? ==> exists i :: 0 <= i < |fields[1..]| && fields[1..][i] == Field(key, r.value);
      assert (exists i :: 0 <= i < |fields| && fields[i].key == key) ==> exists i :: 0 <= i < |fields[1..]| && fields[1..][i].key == key;
      r
  }

  /** No key occurs twice: what `json.dumps` writes for a dict. */
  predicate DistinctKeys(fields: seq<Field>) {
    forall j, k :: 0 <= j < k < |fields| ==> fields[j].key != fields[k].key
  }

  /** In an object without repeated keys, each key looks up the value stored beside it. */
  lemma {:induction false} GetAt(fields: seq<Field>, i: nat)
    requires DistinctKeys(fields) && i < |fields|
    ensures Get(Obj(fields), fields[i].key) == Some(fields[i].val)
  {
    var r := Get(Obj(fields), fields[i].key);
    var j :| 0 <= j < |fields| && fields[j] == Field(fields[i].key, r.value);
    assert fields[j].key == fields[i].key;
    assert j == i;
  }

  /** The keys of an object, in order. */
  function Keys(fields: seq<Field>): (r: seq<string>)
    ensures |r| == |fields| && forall i :: 0 <= i < |fields| ==> r[i] == fields[i].key
  {
    seq(|fields|, i requires 0 <= i < |fields| => fields[i].key)
  }
}
