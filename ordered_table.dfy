/**
  A Python `dict` with string keys, as the assembler uses it: an association
  list that keeps its keys in first-insertion order. Assigning to a key that
  is already present replaces its value in place, so the key keeps its
  position; assigning to a new key appends it. `values()` lists the values in
  key order.
*/
module OrderedTables {
  import opened Options

  type Table<V> = seq<(string, V)>

  /** The keys in insertion order (`list(d.keys())`). */
  function Keys<V>(t: Table<V>): (keys: seq<string>)
    ensures |keys| == |t| && forall i :: 0 <= i < |t| ==> keys[i] == t[i].0
  {
    seq(|t|, i requires 0 <= i < |t| => t[i].0)
  }

  /** The values in key order (`list(d.values())`). */
  function Values<V>(t: Table<V>): (values: seq<V>)
    ensures |values| == |t| && forall i :: 0 <= i < |t| ==> values[i] == t[i].1
  {
    seq(|t|, i requires 0 <= i < |t| => t[i].1)
  }

  /** No key is listed twice, as in every Python dict. */
  predicate DistinctKeys<V>(t: Table<V>) {
    forall i, j :: 0 <= i < j < |t| ==> t[i].0 != t[j].0
  }

  /** `d[key]`, with `None` where Python raises `KeyError`. */
  function Lookup<V>(t: Table<V>, key: string): (r: Option<V>)
    ensures r.None? <==> key !in Keys(t)
    ensures r.Some? ==> (key, r.value) in t
  {
    if t == [] then None
    else if t[0].0 == key then Some(t[0].1)
    else
      KeysCons(t);
      Lookup(t[1..], key)
  }

  /** `d[key] = value`: the entry of `key` gets the new value where it
      stands, or a new entry goes at the end. */
  function Bind<V>(t: Table<V>, key: string, value: V): (r: Table<V>)
    ensures |r| == if key in Keys(t) then |t| else |t| + 1
    ensures Extends(t, r)
  {
    if t == [] then [(key, value)]
    else if t[0].0 == key then [(key, value)] + t[1..]
    else
      KeysCons(t);
      [t[0]] + Bind(t[1..], key, value)
  }

  /** `u` lists the keys of `t` first, at the same positions: no key has
      been removed or moved. */
  predicate Extends<V>(t: Table<V>, u: Table<V>) {
    |t| <= |u| && forall i :: 0 <= i < |t| ==> u[i].0 == t[i].0
  }

  lemma KeysCons<V>(t: Table<V>)
    requires t != []
    ensures Keys(t) == [t[0].0] + Keys(t[1..])
    ensures Values(t) == [t[0].1] + Values(t[1..])
  {
  }

  /** The keys and values of a concatenation. */
  lemma KeysAppend<V>(t: Table<V>, u: Table<V>)
    ensures Keys(t + u) == Keys(t) + Keys(u)
    ensures Values(t + u) == Values(t) + Values(u)
  {
  }

  /** After `d[key] = value`, `d[key]` is `value` and every other key reads
      as before. */
  lemma {:induction false} BindLookup<V>(t: Table<V>, key: string, value: V, other: string)
    ensures Lookup(Bind(t, key, value), key) == Some(value)
    ensures other != key ==> Lookup(Bind(t, key, value), other) == Lookup(t, other)
    decreases |t|
  {
    if t != [] && t[0].0 != key {
      KeysCons(t);
      BindLookup(t[1..], key, value, other);
    }
  }

  /** Rebinding a present key keeps the order of the keys and changes the
      value at that key's position only; binding a new key appends it. */
  lemma {:induction false} BindOrder<V>(t: Table<V>, key: string, value: V)
    ensures key in Keys(t) ==> Keys(Bind(t, key, value)) == Keys(t)
    ensures key !in Keys(t) ==> Bind(t, key, value) == t + [(key, value)]
    decreases |t|
  {
    if t != [] && t[0].0 != key {
      KeysCons(t);
      BindOrder(t[1..], key, value);
      KeysCons(Bind(t, key, value));
    } else if t != [] {
      KeysCons(t);
      KeysCons(Bind(t, key, value));
    }
  }

  /** Lookup in a table extended at the end: keys of the first part keep
      their values, keys new to it are looked up in the extension. */
  lemma {:induction false} LookupAppend<V>(t: Table<V>, u: Table<V>, key: string)
    ensures key in Keys(t) ==> Lookup(t + u, key) == Lookup(t, key)
    ensures key !in Keys(t) ==> Lookup(t + u, key) == Lookup(u, key)
    decreases |t|
  {
    if t != [] {
      var tu := t + u;
      assert tu[0] == t[0];
      if t[0].0 != key {
        assert tu[1..] == t[1..] + u;
        KeysCons(t);
        LookupAppend(t[1..], u, key);
        assert Lookup(tu, key) == Lookup(tu[1..], key);
      }
    } else {
      assert t + u == u;
    }
  }

  /** The first entry of a key in a table with distinct keys is its only
      one. */
  lemma LookupDistinct<V>(t: Table<V>, i: nat)
    requires DistinctKeys(t) && i < |t|
    ensures Lookup(t, t[i].0) == Some(t[i].1)
  {
    LookupAppend(t[..i], t[i..], t[i].0);
    assert t == t[..i] + t[i..];
  }
}
