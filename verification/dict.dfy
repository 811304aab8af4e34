/**
  Python's `dict` with string keys: a key maps to one value, and iteration
  follows first-insertion order. Assigning to an existing key replaces its
  value and keeps its place.
 */
module PyDict {

  /** No key is listed twice. */
  predicate Distinct(ks: seq<string>) {
    forall i, j :: 0 <= i < j < |ks| ==> ks[i] != ks[j]
  }

  datatype Dict<V> = Dict(keys: seq<string>, vals: map<string, V>) {

    /** `keys` is the iteration order of exactly the mapped keys. */
    predicate Valid() {
      && Distinct(keys)
      && (forall k :: k in vals ==> k in keys)
      && (forall i :: 0 <= i < |keys| ==> keys[i] in vals)
    }

    /** `d[k] = v` */
    function Put(k: string, v: V): (d: Dict<V>)
      ensures Valid() ==> d.Valid()
      ensures d.vals == vals[k := v]
      ensures d.keys == if k in vals then keys else keys + [k]
    {
      if k in vals then Dict(keys, vals[k := v]) else Dict(keys + [k], vals[k := v])
    }
  }

  /** `{}` */
  function Empty<V>(): (d: Dict<V>)
    ensures d.Valid() && d.keys == [] && d.vals == map[]
  {
    Dict([], map[])
  }

  /** `for k in ks: d[k] = v` */
  function PutAll<V>(d: Dict<V>, ks: seq<string>, v: V): (r: Dict<V>)
    ensures d.Valid() ==> r.Valid()
  {
    if ks == [] then d
    else PutAll(d, ks[..|ks| - 1], v).Put(ks[|ks| - 1], v)
  }

  /** After `PutAll` the keys are the earlier ones plus the listed ones. */
  lemma {:induction false} PutAllKeys<V>(d: Dict<V>, ks: seq<string>, v: V, k: string)
    ensures k in PutAll(d, ks, v).vals <==> k in d.vals || k in ks
  {
    if ks != [] {
      var init, last := ks[..|ks| - 1], ks[|ks| - 1];
      PutAllKeys(d, init, v, k);
      var prev := PutAll(d, init, v);
      assert PutAll(d, ks, v) == prev.Put(last, v);
      assert k in PutAll(d, ks, v).vals <==> k in prev.vals || k == last;
      if k in init {
        var i :| 0 <= i < |init| && init[i] == k;
        assert ks[i] == k;
      }
      if k in ks && k != last {
        var i :| 0 <= i < |ks| && ks[i] == k;
        assert init[i] == k;
      }
    }
  }

  /** After `PutAll` every listed key maps to `v` and the other keys keep their values. */
  lemma {:induction false} PutAllValues<V>(d: Dict<V>, ks: seq<string>, v: V, k: string)
    requires k in d.vals || k in ks
    ensures k in PutAll(d, ks, v).vals
    ensures PutAll(d, ks, v).vals[k] == if k in ks then v else d.vals[k]
  {
    PutAllKeys(d, ks, v, k);
    if ks != [] {
      var init := ks[..|ks| - 1];
      assert k in ks <==> k in init || k == ks[|ks| - 1] by {
        assert ks == init + [ks[|ks| - 1]];
      }
      if k != ks[|ks| - 1] {
        PutAllValues(d, init, v, k);
      }
    }
  }
}
