/** Insertion-ordered maps as lists of pairs. */
module Assoc {
  import opened Options

  /** No key twice. */
  ghost predicate Distinct<K, V>(es: seq<(K, V)>) {
    forall i, j :: 0 <= i < j < |es| ==> es[i].0 != es[j].0
  }

  /** Setting a key gives it its value where it is, or adds it at the end. */
  function Upserted<K(==), V>(es: seq<(K, V)>, key: K, value: V): seq<(K, V)> {
    if es == [] then [(key, value)]
    else if es[0].0 == key then [(key, value)] + es[1..]
    else [es[0]] + Upserted(es[1..], key, value)
  }

  /** The pairs with other keys, in the same relative order. */
  function Without<K(==), V>(es: seq<(K, V)>, key: K): seq<(K, V)> {
    if es == [] then []
    else (if es[0].0 == key then [] else [es[0]]) + Without(es[1..], key)
  }

  function Find<K(==), V>(es: seq<(K, V)>, key: K): Option<V> {
    if es == [] then None
    else if es[0].0 == key then Some(es[0].1)
    else Find(es[1..], key)
  }

  ghost predicate HasKey<K, V>(es: seq<(K, V)>, key: K) {
    exists i :: 0 <= i < |es| && es[i].0 == key
  }

  lemma {:induction false} UpsertedAt<K, V>(es: seq<(K, V)>, key: K, value: V, i: nat)
    requires Distinct(es) && i < |es| && es[i].0 == key
    ensures Upserted(es, key, value) == es[i := (key, value)]
  {
    if i == 0 {
      assert es[0 := (key, value)] == [(key, value)] + es[1..];
    } else {
      UpsertedAt(es[1..], key, value, i - 1);
      assert es[i := (key, value)] == [es[0]] + es[1..][i - 1 := (key, value)];
    }
  }

  lemma {:induction false} UpsertedNew<K, V>(es: seq<(K, V)>, key: K, value: V)
    requires !HasKey(es, key)
    ensures Upserted(es, key, value) == es + [(key, value)]
  {
    if es != [] {
      forall i | 0 <= i < |es[1..]| ensures es[1..][i].0 != key {
        assert es[i + 1].0 != key;
      }
      UpsertedNew(es[1..], key, value);
    }
  }

  lemma {:induction false} WithoutAbsent<K, V>(es: seq<(K, V)>, key: K)
    requires forall i :: 0 <= i < |es| ==> es[i].0 != key
    ensures Without(es, key) == es
  {
    if es != [] {
      WithoutAbsent(es[1..], key);
    }
  }

  lemma {:induction false} WithoutAt<K, V>(es: seq<(K, V)>, key: K, i: nat)
    requires Distinct(es) && i < |es| && es[i].0 == key
    ensures Without(es, key) == es[..i] + es[i + 1..]
  {
    if i == 0 {
      WithoutAbsent(es[1..], key);
    } else {
      WithoutAt(es[1..], key, i - 1);
      assert es[..i] + es[i + 1..] == [es[0]] + (es[1..][..i - 1] + es[1..][i..]);
    }
  }

  lemma {:induction false} FindAt<K, V>(es: seq<(K, V)>, key: K, i: nat)
    requires Distinct(es) && i < |es| && es[i].0 == key
    ensures Find(es, key) == Some(es[i].1)
  {
    if i > 0 {
      FindAt(es[1..], key, i - 1);
    }
  }

  lemma {:induction false} FindAbsent<K, V>(es: seq<(K, V)>, key: K)
    requires forall i :: 0 <= i < |es| ==> es[i].0 != key
    ensures Find(es, key) == None
  {
    if es != [] {
      FindAbsent(es[1..], key);
    }
  }

  lemma {:induction false} FindIffHasKey<K, V>(es: seq<(K, V)>, key: K)
    ensures Find(es, key).Some? <==> HasKey(es, key)
  {
    if es != [] {
      FindIffHasKey(es[1..], key);
      if HasKey(es[1..], key) {
        var i :| 0 <= i < |es[1..]| && es[1..][i].0 == key;
        assert es[i + 1].0 == key;
      }
      if HasKey(es, key) && es[0].0 != key {
        var i :| 0 <= i < |es| && es[i].0 == key;
        assert es[1..][i - 1].0 == key;
      }
    }
  }

  /** Setting a key changes what is found for that key and no other. */
  lemma {:induction false} FindUpserted<K, V>(es: seq<(K, V)>, key: K, value: V, k: K)
    ensures Find(Upserted(es, key, value), k) == if k == key then Some(value) else Find(es, k)
  {
    if es != [] && es[0].0 != key {
      FindUpserted(es[1..], key, value, k);
    }
  }

  /** A deleted key is not found, every other is as before. */
  lemma {:induction false} FindWithout<K, V>(es: seq<(K, V)>, key: K, k: K)
    ensures Find(Without(es, key), k) == if k == key then None else Find(es, k)
  {
    if es != [] {
      FindWithout(es[1..], key, k);
      var rest := Without(es[1..], key);
      assert es[0].0 == key ==> Without(es, key) == rest;
      assert es[0].0 != key ==> Without(es, key)[1..] == rest;
    }
  }

  /** The key list has no duplicates, holds exactly the stored keys, and the position
      index inverts it. */
  ghost predicate Indexed<K, V>(order: seq<K>, items: map<K, V>, index: map<K, int>) {
    && (forall i :: 0 <= i < |order| ==> order[i] in index && index[order[i]] == i)
    && items.Keys == index.Keys
    && (forall k :: k in index ==> 0 <= index[k] < |order| && order[index[k]] == k)
  }

  /** The pairs in key order. */
  function Pairs<K, V>(order: seq<K>, items: map<K, V>): (es: seq<(K, V)>)
    requires forall k :: k in order ==> k in items
    ensures |es| == |order|
    ensures forall i :: 0 <= i < |es| ==> es[i] == (order[i], items[order[i]])
  {
    seq(|order|, i requires 0 <= i < |order| => (order[i], items[order[i]]))
  }

  function ValuesOf<K, V>(es: seq<(K, V)>): (vs: seq<V>)
    ensures |vs| == |es|
    ensures forall i :: 0 <= i < |vs| ==> vs[i] == es[i].1
  {
    seq(|es|, i requires 0 <= i < |es| => es[i].1)
  }

  lemma PairsDistinct<K, V>(order: seq<K>, items: map<K, V>, index: map<K, int>)
    requires Indexed(order, items, index)
    ensures Distinct(Pairs(order, items))
    ensures forall k :: HasKey(Pairs(order, items), k) <==> k in items
  {
    var es := Pairs(order, items);
    forall k ensures HasKey(es, k) <==> k in items {
      if k in items {
        assert es[index[k]].0 == k;
      }
    }
  }

  lemma SetOld<K, V>(order: seq<K>, items: map<K, V>, index: map<K, int>, key: K, value: V)
    requires Indexed(order, items, index) && key in items
    ensures Indexed(order, items[key := value], index)
    ensures Pairs(order, items[key := value]) == Upserted(Pairs(order, items), key, value)
  {
    PairsDistinct(order, items, index);
    UpsertedAt(Pairs(order, items), key, value, index[key]);
  }

  lemma SetNew<K, V>(order: seq<K>, items: map<K, V>, index: map<K, int>, key: K, value: V)
    requires Indexed(order, items, index) && key !in items
    ensures Indexed(order + [key], items[key := value], index[key := |order|])
    ensures Pairs(order + [key], items[key := value]) == Upserted(Pairs(order, items), key, value)
  {
    PairsDistinct(order, items, index);
    UpsertedNew(Pairs(order, items), key, value);
    forall k | k in order + [key] ensures k in items[key := value] {}
  }

  /** The index gives every key its position. */
  ghost predicate Positioned<K>(order: seq<K>, index: map<K, int>) {
    forall i :: 0 <= i < |order| ==> order[i] in index && index[order[i]] == i
  }

  /** Distinct keys, all in the index, the first pos of them at their positions. */
  ghost predicate PositionedUpTo<K>(order: seq<K>, index: map<K, int>, pos: nat) {
    && (forall i, j :: 0 <= i < j < |order| ==> order[i] != order[j])
    && (forall i :: 0 <= i < |order| ==> order[i] in index)
    && (forall i :: 0 <= i < pos && i < |order| ==> index[order[i]] == i)
  }

  /** Deleting a key, once the keys behind it have been given their new positions. */
  lemma Deleted<K, V>(order: seq<K>, items: map<K, V>, index: map<K, int>, key: K, order': seq<K>, index': map<K, int>)
    requires Indexed(order, items, index) && key in index
    requires order' == order[..index[key]] + order[index[key] + 1..]
    requires index'.Keys == index.Keys - {key}
    requires Positioned(order', index')
    ensures Indexed(order', items - {key}, index')
    ensures forall k :: k in order' ==> k in items - {key}
    ensures Pairs(order', items - {key}) == Without(Pairs(order, items), key)
  {
    var pos := index[key];
    forall k | k in index' ensures 0 <= index'[k] < |order'| && order'[index'[k]] == k {
      assert order[index[k]] == k && index[k] != pos;
      var i := if index[k] < pos then index[k] else index[k] - 1;
      assert order'[i] == k;
    }
    PairsWithout(order, items, index, key);
  }

  lemma AtKey<K, V>(order: seq<K>, items: map<K, V>, index: map<K, int>, key: K)
    requires Indexed(order, items, index) && key in index
    ensures key in items && 0 <= index[key] < |order| && order[index[key]] == key
  {
  }

  /** With the key at its position taken out, the other keys are still distinct and
      indexed, and those before it still at their positions. */
  lemma TakenOut<K, V>(order: seq<K>, items: map<K, V>, index: map<K, int>, key: K, order': seq<K>, index': map<K, int>)
    requires Indexed(order, items, index) && key in index
    requires order' == order[..index[key]] + order[index[key] + 1..] && index' == index - {key}
    ensures PositionedUpTo(order', index', index[key])
  {
    var pos := index[key];
    assert forall j :: 0 <= j < |order'| ==> order'[j] == order[if j < pos then j else j + 1];
    assert forall i, j :: 0 <= i < j < |order| ==> order[i] != order[j];
  }

  lemma PairsWithout<K, V>(order: seq<K>, items: map<K, V>, index: map<K, int>, key: K)
    requires Indexed(order, items, index) && key in items
    ensures var order' := order[..index[key]] + order[index[key] + 1..];
            && (forall k :: k in order' ==> k in items - {key})
            && Pairs(order', items - {key}) == Without(Pairs(order, items), key)
  {
    hide Pairs, Without, Distinct;
    var pos, es := index[key], Pairs(order, items);
    var order' := order[..pos] + order[pos + 1..];
    PairsDistinct(order, items, index);
    WithoutAt(es, key, pos);
    forall k | k in order' ensures k in items - {key} {}
    hide Indexed;
    assert Pairs(order', items - {key}) == es[..pos] + es[pos + 1..];
  }

  /** Setting the entries of a map one after another rebuilds it. */
  lemma UpsertNext<K, V>(es: seq<(K, V)>, i: nat, j: nat)
    requires Distinct(es) && i <= j < |es|
    ensures Upserted(es[i..j], es[j].0, es[j].1) == es[i..j + 1]
  {
    assert !HasKey(es[i..j], es[j].0);
    UpsertedNew(es[i..j], es[j].0, es[j].1);
  }
}

/** The ordered map: a key list, the values by key, the position of each key, and a
    cache of the values in order. */
module OrderedMaps {
  import opened Options
  import opened Assoc

  class OrderedMap<K(==), V> {
    var order: seq<K>
    var items: map<K, V>
    var index: map<K, int>
    var valuesCache: seq<V>
    var valuesDirty: bool

    ghost predicate InStep()
      reads this
    {
      Indexed(order, items, index)
    }

    ghost function Entries(): seq<(K, V)>
      requires InStep()
      reads this
    {
      Pairs(order, items)
    }

    /** A clean cache with something in it is the values in key order. */
    ghost predicate Valid()
      reads this
    {
      InStep() && (!valuesDirty && valuesCache != [] ==> valuesCache == ValuesOf(Entries()))
    }

    constructor ()
      ensures Valid() && Entries() == []
    {
      order, items, index, valuesCache, valuesDirty := [], map[], map[], [], false;
    }

    method InvalidateValuesCache()
      modifies this`valuesCache, this`valuesDirty
      ensures valuesCache == [] && valuesDirty
    {
      valuesCache, valuesDirty := [], true;
    }

    method Set(key: K, value: V)
      requires Valid()
      modifies this
      ensures Valid() && Entries() == Upserted(old(Entries()), key, value)
    {
      if key in items {
        SetOld(order, items, index, key, value);
      } else {
        SetNew(order, items, index, key, value);
        order := order + [key];
        index := index[key := |order| - 1];
      }
      items := items[key := value];
      InvalidateValuesCache();
    }

    method Get(key: K) returns (r: Option<V>)
      requires Valid()
      ensures r == Find(Entries(), key)
    {
      PairsDistinct(order, items, index);
      if key in items {
        FindAt(Entries(), key, index[key]);
        return Some(items[key]);
      }
      FindAbsent(Entries(), key);
      return None;
    }

    method At(pos: int) returns (r: Option<(K, V)>)
      requires Valid()
      ensures r == if 0 <= pos < |Entries()| then Some(Entries()[pos]) else None
    {
      if pos < 0 || pos >= |order| {
        return None;
      }
      return Some((order[pos], items[order[pos]]));
    }

    /** Removing a key keeps the other entries in the same relative order. */
    method Delete(key: K) returns (ok: bool)
      requires Valid()
      modifies this
      ensures Valid() && Entries() == Without(old(Entries()), key)
      ensures ok <==> HasKey(old(Entries()), key)
    {
      PairsDistinct(order, items, index);
      if key !in index {
        WithoutAbsent(Entries(), key);
        return false;
      }
      TakeOut(key);
      return true;
    }

    method TakeOut(key: K)
      requires Valid() && key in index
      modifies this
      ensures Valid() && Entries() == Without(old(Entries()), key)
    {
      AtKey(order, items, index, key);
      hide Indexed, Positioned, PositionedUpTo, Pairs, Without, HasKey, Distinct, ValuesOf;
      var pos := index[key];
      ghost var o, m, x := order, items, index;
      items := items - {key};
      index := index - {key};
      order := order[..pos] + order[pos + 1..];
      TakenOut(o, m, x, key, order, index);
      ReindexFrom(pos);
      Deleted(o, m, x, key, order, index);
      InvalidateValuesCache();
    }

    /** Gives the keys from pos on the positions they now have. */
    method ReindexFrom(pos: nat)
      requires pos <= |order|
      requires PositionedUpTo(order, index, pos)
      modifies this`index
      ensures index.Keys == old(index.Keys) && Positioned(order, index)
    {
      var i := pos;
      while i < |order|
        invariant pos <= i <= |order|
        invariant index.Keys == old(index.Keys) && PositionedUpTo(order, index, i)
      {
        index := index[order[i] := i];
        i := i + 1;
      }
    }

    method Keys() returns (keys: seq<K>)
      requires Valid()
      ensures |keys| == |Entries()| && forall i :: 0 <= i < |keys| ==> keys[i] == Entries()[i].0
    {
      return order;
    }

    /** Whether or not the cache answers, the values come in key order. */
    method Values() returns (values: seq<V>)
      requires Valid()
      modifies this`valuesCache, this`valuesDirty
      ensures Valid() && Entries() == old(Entries())
      ensures values == ValuesOf(Entries())
    {
      if |order| == 0 {
        return [];
      }
      if !valuesDirty && |valuesCache| > 0 {
        return valuesCache;
      }
      values := [];
      for i := 0 to |order|
        invariant Valid() && Entries() == old(Entries())
        invariant values == ValuesOf(Entries())[..i]
      {
        values := values + [items[order[i]]];
      }
      valuesCache, valuesDirty := values, false;
    }

    method Clone() returns (out: OrderedMap<K, V>)
      requires Valid()
      ensures fresh(out) && out.Valid() && out.Entries() == Entries()
    {
      out := new OrderedMap();
      out.order, out.items, out.index := order, items, index;
    }

    /** A new map of the entries from position i up to position j. */
    method Slice(i: nat, j: nat) returns (out: OrderedMap<K, V>)
      requires Valid() && i <= j <= |order|
      ensures fresh(out) && out.Valid() && out.Entries() == Entries()[i..j]
    {
      PairsDistinct(order, items, index);
      ghost var all := Entries();
      hide Upserted, Indexed, Distinct;
      out := new OrderedMap();
      var pos := i;
      while pos < j
        invariant i <= pos <= j
        invariant fresh(out) && out.Valid() && out.Entries() == all[i..pos]
      {
        var entry := At(pos);
        UpsertNext(all, i, pos);
        out.Set(entry.value.0, entry.value.1);
        pos := pos + 1;
      }
    }

    method Take(n: int) returns (out: OrderedMap<K, V>)
      requires Valid()
      ensures fresh(out) && out.Valid()
      ensures out.Entries() == Entries()[..Clamp(n, |Entries()|)]
    {
      if n <= 0 || |order| == 0 {
        out := new OrderedMap();
      } else if n >= |order| {
        out := Clone();
      } else {
        out := Slice(0, n);
      }
    }

    method Drop(n: int) returns (out: OrderedMap<K, V>)
      requires Valid()
      ensures fresh(out) && out.Valid()
      ensures out.Entries() == Entries()[Clamp(n, |Entries()|)..]
    {
      if |order| == 0 {
        out := new OrderedMap();
      } else if n <= 0 {
        out := Clone();
      } else if n >= |order| {
        out := new OrderedMap();
      } else {
        out := Slice(n, |order|);
      }
    }
  }

  function Distance(a: int, b: int): nat {
    if a <= b then b - a else a - b
  }

  /** The position nearest to n. */
  function Clamp(n: int, length: nat): (k: nat)
    ensures k <= length && forall i :: 0 <= i <= length ==> Distance(n, k) <= Distance(n, i)
  {
    if n <= 0 then 0 else if n >= length then length else n
  }

  // ----- whole runs

  /** Take and Drop go on with the map they return. */
  datatype Op<K, V> =
    | OpSet(key: K, value: V)
    | OpDelete(key: K)
    | OpGet(key: K)
    | OpAt(pos: int)
    | OpValues
    | OpTake(n: int)
    | OpDrop(n: int)

  datatype Answer<K, V> = Nothing | Flag(ok: bool) | Value(value: Option<V>) | Pair(pair: Option<(K, V)>) | All(values: seq<V>)

  /** The same operation on a list of pairs: the list afterwards and the answer. */
  ghost function OnPairs<K, V>(es: seq<(K, V)>, op: Op<K, V>): (seq<(K, V)>, Answer<K, V>) {
    match op
    case OpSet(k, v) => (Upserted(es, k, v), Nothing)
    case OpDelete(k) => (Without(es, k), Flag(Find(es, k).Some?))
    case OpGet(k) => (es, Value(Find(es, k)))
    case OpAt(pos) => (es, Pair(if 0 <= pos < |es| then Some(es[pos]) else None))
    case OpValues => (es, All(ValuesOf(es)))
    case OpTake(n) => (es[..Clamp(n, |es|)], Nothing)
    case OpDrop(n) => (es[Clamp(n, |es|)..], Nothing)
  }

  ghost function AfterRun<K, V>(script: seq<Op<K, V>>): (seq<(K, V)>, seq<Answer<K, V>>) {
    if script == [] then ([], [])
    else
      var n := |script| - 1;
      var (es, answers) := AfterRun(script[..n]);
      var (es', answer) := OnPairs(es, script[n]);
      (es', answers + [answer])
  }

  method Perform<K(==), V>(m: OrderedMap<K, V>, op: Op<K, V>) returns (next: OrderedMap<K, V>, answer: Answer<K, V>)
    requires m.Valid()
    modifies m
    ensures next.Valid() && (next == m || fresh(next))
    ensures (next.Entries(), answer) == OnPairs(old(m.Entries()), op)
  {
    hide Upserted, Without, Indexed, Pairs, ValuesOf;
    next, answer := m, Nothing;
    match op
    case OpSet(k, v) => m.Set(k, v);
    case OpDelete(k) =>
      FindIffHasKey(m.Entries(), k);
      var ok := m.Delete(k);
      answer := Flag(ok);
    case OpGet(k) =>
      var v := m.Get(k);
      answer := Value(v);
    case OpAt(pos) =>
      var e := m.At(pos);
      answer := Pair(e);
    case OpValues =>
      var vs := m.Values();
      answer := All(vs);
    case OpTake(n) => next := m.Take(n);
    case OpDrop(n) => next := m.Drop(n);
  }

  /** Every run of operations from the empty map, with reads of the cached values in
      between, gives the keys and the answers of the same run on a list of pairs. */
  method Replay<K(==), V>(script: seq<Op<K, V>>) returns (keys: seq<K>, answers: seq<Answer<K, V>>)
    ensures answers == AfterRun(script).1
    ensures |keys| == |AfterRun(script).0| && forall i :: 0 <= i < |keys| ==> keys[i] == AfterRun(script).0[i].0
  {
    hide OnPairs;
    var m := new OrderedMap<K, V>();
    answers := [];
    for n := 0 to |script|
      invariant fresh(m) && m.Valid() && (m.Entries(), answers) == AfterRun(script[..n])
    {
      assert script[..n + 1][..n] == script[..n];
      var answer;
      m, answer := Perform(m, script[n]);
      answers := answers + [answer];
    }
    assert script[..|script|] == script;
    keys := m.Keys();
  }
}
