/**
 * `_deep_translate` as the source runs it: on Python objects in the heap,
 * rewriting the "id" entries of dicts in place while it iterates over
 * them. Dicts and lists are mutable containers; strings, numbers, booleans
 * and None are immutable values stored in them. The walk is proved to
 * leave behind exactly `PipeCodec.Translate` of the value it started from.
 */
module DeepTranslate {
  import opened Json
  import PipeCodec

  /** A Python object held in a container: an immutable scalar or a reference to a container. */
  datatype PyValue =
    | PyNone
    | PyBool(b: bool)
    | PyInt(n: int)
    | PyStr(s: string)
    | PyRef(c: Container)

  /**
   * A Python dict or list. For a dict, `keys[i]` is stored with `vals[i]`
   * in insertion order; a list has no keys. `Repr` is the container and
   * every container below it; JSON parsing builds trees, so the children's
   * footprints are disjoint and never hold their parent.
   */
  class Container {
    const isList: bool
    var keys: seq<string>
    var vals: seq<PyValue>
    ghost var Repr: set<Container>

    ghost predicate Valid()
      reads this, Repr
      decreases Repr
    {
      && this in Repr
      && (if isList then keys == [] else |keys| == |vals|)
      && (forall i, j :: 0 <= i < j < |keys| ==> keys[i] != keys[j])
      && (forall i :: 0 <= i < |vals| && vals[i].PyRef? ==>
            && vals[i].c in Repr
            && vals[i].c.Repr <= Repr
            && this !in vals[i].c.Repr
            && vals[i].c.Valid())
      && (forall i, j :: 0 <= i < |vals| && 0 <= j < |vals| && i != j && vals[i].PyRef? && vals[j].PyRef? ==>
            vals[i].c.Repr !! vals[j].c.Repr)
    }

    /** The JSON value of the item at position `k`. */
    ghost function ItemModel(k: nat): Value
      reads this, Repr
      requires Valid() && k < |vals|
      decreases Repr, 0
    {
      match vals[k]
      case PyNone => Null
      case PyBool(b) => Bool(b)
      case PyInt(n) => Num(n)
      case PyStr(s) => Str(s)
      case PyRef(c) => c.Model()
    }

    ghost function ItemModels(n: nat): (r: seq<Value>)
      reads this, Repr
      requires Valid() && n <= |vals|
      ensures |r| == n && forall k :: 0 <= k < n ==> r[k] == ItemModel(k)
      decreases Repr, n + 1
    {
      if n == 0 then [] else ItemModels(n - 1) + [ItemModel(n - 1)]
    }

    /** The JSON value this container holds. */
    ghost function Model(): (r: Value)
      reads this, Repr
      requires Valid()
      ensures r.Arr? || r.Obj?
      decreases Repr, |vals| + 2
    {
      Assemble(isList, keys, ItemModels(|vals|))
    }

    /** What the walk turns item `k`, whose value was `x`, into. */
    ghost function Step(k: nat, x: Value): Value
      reads this
      requires isList || k < |keys|
    {
      if isList then PipeCodec.Translate(x) else PipeCodec.TranslateEntry(keys[k], x)
    }
  }

  /** The JSON array, or the JSON object with `keys`, holding `items`. */
  function Assemble(isList: bool, keys: seq<string>, items: seq<Value>): (r: Value)
    requires isList || |keys| == |items|
    ensures r.Arr? || r.Obj?
  {
    if isList then Arr(items)
    else Obj(seq(|items|, i requires 0 <= i < |items| => Field(keys[i], items[i])))
  }

  /** Translating a container item by item translates the container. */
  lemma {:induction false} TranslateAssembled(isList: bool, keys: seq<string>, before: seq<Value>, after: seq<Value>)
    requires isList || |keys| == |before|
    requires |after| == |before|
    requires forall k :: 0 <= k < |before| ==>
      after[k] == if isList then PipeCodec.Translate(before[k]) else PipeCodec.TranslateEntry(keys[k], before[k])
    ensures PipeCodec.Translate(Assemble(isList, keys, before)) == Assemble(isList, keys, after)
  {
  }

  /**
   * `_deep_translate` on a dict or a list: every "id" string of a dict is
   * replaced by its translation, every dict or list item is walked, and
   * nothing else changes.
   */
  method TranslateContainer(c: Container)
    requires c.Valid()
    modifies c.Repr
    ensures c.Valid() && c.Repr == old(c.Repr)
    ensures forall o :: o in c.Repr ==> o.Repr == old(o.Repr)
    ensures c.Model() == PipeCodec.Translate(old(c.Model()))
    decreases c.Repr, 2
  {
    ghost var before := c.ItemModels(|c.vals|);
    var i := 0;
    while i < |c.vals|
      invariant 0 <= i <= |c.vals| == |before|
      invariant c.Valid() && c.Repr == old(c.Repr) && c.keys == old(c.keys)
      invariant forall o :: o in c.Repr ==> o.Repr == old(o.Repr)
      invariant forall k :: 0 <= k < |c.vals| ==>
        c.ItemModel(k) == if k < i then c.Step(k, before[k]) else before[k]
    {
      TranslateItem(c, i);
      i := i + 1;
    }
    TranslateAssembled(c.isList, c.keys, before, c.ItemModels(|c.vals|));
  }

  /** One pass of the loop in `_deep_translate`: item `i` is rewritten or walked, the others keep their values. */
  method TranslateItem(c: Container, i: nat)
    requires c.Valid() && i < |c.vals|
    modifies c.Repr
    ensures c.Valid() && c.Repr == old(c.Repr) && c.keys == old(c.keys) && |c.vals| == old(|c.vals|)
    ensures forall o :: o in c.Repr ==> o.Repr == old(o.Repr)
    ensures c.ItemModel(i) == c.Step(i, old(c.ItemModel(i)))
    ensures forall k :: 0 <= k < |c.vals| && k != i ==> c.ItemModel(k) == old(c.ItemModel(k))
    decreases c.Repr, 1
  {
    var item := c.vals[i];
    if !c.isList && c.keys[i] == "id" && item.PyStr? {
      RewriteId(c, i);
    } else if item.PyRef? {
      WalkChild(c, i);
    } else {
      ghost var x := c.ItemModel(i);
      assert !x.Arr? && !x.Obj? && (x.Str? <==> item.PyStr?);
      assert PipeCodec.Translate(x) == x;
    }
  }

  /** `obj[key] = _translate_id(value)` for the "id" entry at position `i` of a dict. */
  method RewriteId(c: Container, i: nat)
    requires c.Valid() && !c.isList && i < |c.vals| && c.keys[i] == "id" && c.vals[i].PyStr?
    modifies c
    ensures c.Valid() && c.Repr == old(c.Repr) && c.keys == old(c.keys)
    ensures c.vals == old(c.vals)[i := PyStr(PipeCodec.TranslateId(old(c.vals[i].s)))]
    ensures c.ItemModel(i) == c.Step(i, old(c.ItemModel(i)))
    ensures forall k :: 0 <= k < |c.vals| && k != i ==> c.ItemModel(k) == old(c.ItemModel(k))
  {
    ghost var models := c.ItemModels(|c.vals|);
    c.vals := c.vals[i := PyStr(PipeCodec.TranslateId(c.vals[i].s))];
    forall k | 0 <= k < |c.vals| && k != i ensures c.ItemModel(k) == models[k] {
      if c.vals[k].PyRef? {
        var d := c.vals[k].c;
        assert d in d.Repr && c !in d.Repr;
      }
    }
  }

  /** `_deep_translate(value)` for the dict or list held at position `i`. */
  method WalkChild(c: Container, i: nat)
    requires c.Valid() && i < |c.vals| && c.vals[i].PyRef?
    modifies c.Repr
    ensures c.Valid() && c.Repr == old(c.Repr) && c.keys == old(c.keys) && c.vals == old(c.vals)
    ensures forall o :: o in c.Repr ==> o.Repr == old(o.Repr)
    ensures c.ItemModel(i) == c.Step(i, old(c.ItemModel(i)))
    ensures forall k :: 0 <= k < |c.vals| && k != i ==> c.ItemModel(k) == old(c.ItemModel(k))
    decreases c.Repr, 0
  {
    ghost var models := c.ItemModels(|c.vals|);
    var child := c.vals[i].c;
    TranslateContainer(child);
    assert c.ItemModel(i) == PipeCodec.Translate(models[i]);
    forall k | 0 <= k < |c.vals| && k != i ensures c.ItemModel(k) == models[k] {
      if c.vals[k].PyRef? {
        var d := c.vals[k].c;
        assert d in d.Repr && c !in d.Repr;
      }
    }
  }

  /** The JSON value of a Python object. */
  ghost function ModelOf(x: PyValue): Value
    reads if x.PyRef? then {x.c} + x.c.Repr else {}
    requires x.PyRef? ==> x.c.Valid()
  {
    match x
    case PyNone => Null
    case PyBool(b) => Bool(b)
    case PyInt(n) => Num(n)
    case PyStr(s) => Str(s)
    case PyRef(c) => c.Model()
  }

  /** `_deep_translate(obj)`: scalars are left alone, dicts and lists are walked. */
  method Walk(x: PyValue)
    requires x.PyRef? ==> x.c.Valid()
    modifies if x.PyRef? then x.c.Repr else {}
    ensures x.PyRef? ==> x.c.Valid() && x.c.Repr == old(x.c.Repr)
    ensures ModelOf(x) == PipeCodec.Translate(old(ModelOf(x)))
  {
    if x.PyRef? {
      TranslateContainer(x.c);
    }
  }
}
