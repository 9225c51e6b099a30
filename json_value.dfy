/** JSON values as the diff engine sees them: the value kinds of RFC 8259, section 3,
    with integer numbers, and objects as ordered lists of (key, value) fields so that
    the iteration order of `for ... in` and `Map` is explicit. */
module JsonValue {
  import opened Optional

  datatype Json =
    | JNull
    | JBool(b: bool)
    | JNum(n: int)
    | JStr(s: string)
    | JArr(items: seq<Json>)
    | JObj(fields: seq<(string, Json)>)

  /** The keys of a field list, in order. */
  function KeysOf<T>(fs: seq<(string, T)>): (ks: seq<string>)
  {
    seq(|fs|, i requires 0 <= i < |fs| => fs[i].0)
  }

  /** No key occurs twice. */
  predicate Distinct(ks: seq<string>)
  {
    forall i, j | 0 <= i < j < |ks| :: ks[i] != ks[j]
  }

  /** No two fields share a key. */
  predicate DistinctKeys<T>(fs: seq<(string, T)>)
  {
    Distinct(KeysOf(fs))
  }

  /** Two different fields of a list with distinct keys have different keys. */
  lemma DistinctKeysAt<T>(fs: seq<(string, T)>, i: nat, j: nat)
    requires DistinctKeys(fs) && i < |fs| && j < |fs| && i != j
    ensures fs[i].0 != fs[j].0
  {
    assert KeysOf(fs)[i] == fs[i].0 && KeysOf(fs)[j] == fs[j].0;
  }

  /** A JSON value as JavaScript can hold it: no object has a key twice, at any depth. */
  predicate WellFormed(j: Json)
    decreases j
  {
    match j
    case JArr(items) => forall i | 0 <= i < |items| :: WellFormed(items[i])
    case JObj(fs) => DistinctKeys(fs) && forall i | 0 <= i < |fs| :: WellFormed(fs[i].1)
    case _ => true
  }

  /** Position of the first field named `key`, scanning from `from`. */
  function IndexFrom<T>(fs: seq<(string, T)>, key: string, from: nat): (r: Option<nat>)
    ensures r.Some? ==> from <= r.value < |fs| && fs[r.value].0 == key
    ensures r.Some? ==> forall i | from <= i < r.value :: fs[i].0 != key
    ensures r.None? ==> forall i | from <= i < |fs| :: fs[i].0 != key
    decreases |fs| - from
  {
    if from >= |fs| then None
    else if fs[from].0 == key then Some(from)
    else IndexFrom(fs, key, from + 1)
  }

  function IndexOf<T>(fs: seq<(string, T)>, key: string): Option<nat>
  {
    IndexFrom(fs, key, 0)
  }

  /** `obj[key]` and `map.get(key)`: the value of the field named `key`, if any. */
  function Get<T>(fs: seq<(string, T)>, key: string): Option<T>
  {
    match IndexOf(fs, key)
    case Some(i) => Some(fs[i].1)
    case None => None
  }

  /** `obj[key] = v` and `map.set(key, v)`: overwrite the field in place, or append it. */
  function Put<T>(fs: seq<(string, T)>, key: string, v: T): (r: seq<(string, T)>)
    ensures Get(r, key) == Some(v)
    ensures forall k | k != key :: Get(r, k) == Get(fs, k)
    ensures IndexOf(fs, key).None? ==> r == fs + [(key, v)]
    ensures IndexOf(fs, key).Some? ==> KeysOf(r) == KeysOf(fs)
  {
    match IndexOf(fs, key)
    case Some(i) =>
      var r := fs[i := (key, v)];
      assert IndexOf(r, key) == Some(i) by { IndexFromUnique(r, key, 0, i); }
      forall k | k != key ensures Get(r, k) == Get(fs, k) {
        IndexFromSkip(fs, r, k, 0, i);
      }
      r
    case None =>
      var r := fs + [(key, v)];
      assert IndexOf(r, key) == Some(|fs|) by { IndexFromUnique(r, key, 0, |fs|); }
      forall k | k != key ensures Get(r, k) == Get(fs, k) {
        GetAppend(fs, (key, v), k);
      }
      r
  }

  /** The keys `ks` without `key`, in their order. */
  function DropKey(ks: seq<string>, key: string): seq<string>
  {
    if ks == [] then []
    else if ks[0] == key then DropKey(ks[1..], key)
    else [ks[0]] + DropKey(ks[1..], key)
  }

  /** `delete obj[key]`: every field named `key` is dropped, the rest keep their order. */
  function Remove<T>(fs: seq<(string, T)>, key: string): (r: seq<(string, T)>)
    ensures Get(r, key) == None
    ensures forall k | k != key :: Get(r, k) == Get(fs, k)
    ensures forall i | 0 <= i < |r| :: r[i] in fs
    ensures KeysOf(r) == DropKey(KeysOf(fs), key)
    decreases |fs|
  {
    if fs == [] then []
    else
      var rest := Remove(fs[1..], key);
      assert KeysOf(fs)[1..] == KeysOf(fs[1..]);
      if fs[0].0 == key then
        assert forall k | k != key :: Get(fs, k) == Get(fs[1..], k) by {
          forall k | k != key ensures Get(fs, k) == Get(fs[1..], k) { IndexFromShift(fs, k); }
        }
        rest
      else
        var r := [fs[0]] + rest;
        assert r[1..] == rest;
        assert KeysOf(r) == [fs[0].0] + KeysOf(rest);
        IndexFromShift(r, key);
        forall k | k != key ensures Get(r, k) == Get(fs, k) {
          IndexFromShift(r, k);
          IndexFromShift(fs, k);
        }
        r
  }

  lemma IndexFromUnique<T>(fs: seq<(string, T)>, key: string, from: nat, i: nat)
    requires from <= i < |fs| && fs[i].0 == key
    requires forall k | from <= k < i :: fs[k].0 != key
    ensures IndexFrom(fs, key, from) == Some(i)
    decreases i - from
  {
    if from < i { IndexFromUnique(fs, key, from + 1, i); }
  }

  /** Changing the value at position `i` (with key `key`) does not move any other key's first position. */
  lemma IndexFromSkip<T>(fs: seq<(string, T)>, r: seq<(string, T)>, k: string, from: nat, i: nat)
    requires |r| == |fs| && i < |fs| && r[i].0 == fs[i].0 && fs[i].0 != k
    requires forall m | 0 <= m < |fs| && m != i :: r[m] == fs[m]
    ensures Get(r, k) == Get(fs, k)
    ensures IndexFrom(r, k, from) == IndexFrom(fs, k, from)
    decreases |fs| - from
  {
    if from < |fs| { IndexFromSkip(fs, r, k, from + 1, i); }
    if from == 0 {
      assert IndexOf(r, k) == IndexOf(fs, k);
      match IndexOf(fs, k)
      case Some(m) => assert m != i;
      case None =>
    }
  }

  lemma IndexFromAppend<T>(fs: seq<(string, T)>, x: (string, T), k: string, from: nat)
    requires x.0 != k
    ensures IndexFrom(fs + [x], k, from) == IndexFrom(fs, k, from)
    decreases |fs| + 1 - from
  {
    if from < |fs| {
      assert (fs + [x])[from] == fs[from];
      IndexFromAppend(fs, x, k, from + 1);
    } else if from == |fs| {
      assert (fs + [x])[from] == x;
    }
  }

  /** Appending a field with another key does not change what `Get` finds. */
  lemma GetAppend<T>(fs: seq<(string, T)>, x: (string, T), k: string)
    requires x.0 != k
    ensures Get(fs + [x], k) == Get(fs, k)
  {
    IndexFromAppend(fs, x, k, 0);
    match IndexOf(fs, k)
    case Some(m) => assert (fs + [x])[m] == fs[m];
    case None =>
  }

  /** Looking a key up in a list that starts with another key is looking it up in the rest. */
  lemma IndexFromShift<T>(fs: seq<(string, T)>, k: string)
    requires fs != []
    ensures fs[0].0 == k ==> Get(fs, k) == Some(fs[0].1)
    ensures fs[0].0 != k ==> Get(fs, k) == Get(fs[1..], k)
  {
    if fs[0].0 != k { IndexFromTail(fs, k, 1); }
  }

  lemma IndexFromTail<T>(fs: seq<(string, T)>, k: string, from: nat)
    requires fs != [] && 1 <= from && fs[0].0 != k
    ensures IndexFrom(fs, k, from) == (match IndexFrom(fs[1..], k, from - 1)
                                       case Some(m) => Some(m + 1)
                                       case None => None)
    decreases |fs| - from
  {
    if from < |fs| {
      assert fs[1..][from - 1] == fs[from];
      if fs[from].0 != k { IndexFromTail(fs, k, from + 1); }
    }
  }

  /** A key is present exactly when it is one of the field list's keys. */
  lemma GetPresent<T>(fs: seq<(string, T)>, key: string)
    ensures Get(fs, key).Some? <==> key in KeysOf(fs)
  {
    if key in KeysOf(fs) {
      var i :| 0 <= i < |fs| && KeysOf(fs)[i] == key;
      assert fs[i].0 == key;
    }
    match IndexOf(fs, key)
    case Some(i) => assert KeysOf(fs)[i] == key;
    case None =>
  }

  /** In a list with distinct keys, the field at position `i` is what `Get` finds. */
  lemma GetAt<T>(fs: seq<(string, T)>, i: nat)
    requires DistinctKeys(fs) && i < |fs|
    ensures Get(fs, fs[i].0) == Some(fs[i].1)
  {
    forall k | 0 <= k < i ensures fs[k].0 != fs[i].0 {
      assert KeysOf(fs)[k] == fs[k].0 && KeysOf(fs)[i] == fs[i].0;
    }
    IndexFromUnique(fs, fs[i].0, 0, i);
  }

  /** JavaScript truthiness of a present value: `null`, `false`, `0` and `""` are falsy,
      every array and object (even an empty one) is truthy. */
  function Truthy(j: Json): (t: bool)
    ensures !t <==> j in {JNull, JBool(false), JNum(0), JStr("")}
    ensures j.JArr? || j.JObj? ==> t
  {
    match j
    case JNull => false
    case JBool(b) => b
    case JNum(n) => n != 0
    case JStr(s) => s != ""
    case JArr(_) => true
    case JObj(_) => true
  }

  /** Truthiness of a possibly `undefined` value; `undefined` is falsy. */
  predicate TruthyOpt(o: Option<Json>)
  {
    o.Some? && Truthy(o.value)
  }

  /** Number of nodes of a value: the measure by which the recursion of the diff terminates. */
  function Size(j: Json): nat
    decreases j, 1, 0
  {
    match j
    case JArr(_) => 1 + ItemsSize(j, 0)
    case JObj(_) => 1 + FieldsSize(j, 0)
    case _ => 1
  }

  function ItemsSize(j: Json, k: nat): nat
    requires j.JArr?
    decreases j, 0, |j.items| - k
  {
    if k >= |j.items| then 0 else Size(j.items[k]) + ItemsSize(j, k + 1)
  }

  function FieldsSize(j: Json, k: nat): nat
    requires j.JObj?
    decreases j, 0, |j.fields| - k
  {
    if k >= |j.fields| then 0 else Size(j.fields[k].1) + FieldsSize(j, k + 1)
  }

  function OptSize(o: Option<Json>): nat
  {
    if o.Some? then Size(o.value) else 0
  }

  lemma {:induction false} ItemSmaller(j: Json, i: nat, k: nat)
    requires j.JArr? && k <= i < |j.items|
    ensures Size(j.items[i]) <= ItemsSize(j, k)
    decreases i - k
  {
    if k < i { ItemSmaller(j, i, k + 1); }
  }

  lemma {:induction false} FieldSmaller(j: Json, i: nat, k: nat)
    requires j.JObj? && k <= i < |j.fields|
    ensures Size(j.fields[i].1) <= FieldsSize(j, k)
    decreases i - k
  {
    if k < i { FieldSmaller(j, i, k + 1); }
  }

  /** An element of an array is smaller than the array. */
  lemma ItemSize(xs: seq<Json>, i: nat)
    requires i < |xs|
    ensures Size(xs[i]) < Size(JArr(xs))
  {
    ItemSmaller(JArr(xs), i, 0);
  }

  /** A member of an object, looked up by key, is smaller than the object. */
  lemma GetSize(fs: seq<(string, Json)>, key: string)
    ensures OptSize(Get(fs, key)) < Size(JObj(fs))
  {
    match IndexOf(fs, key)
    case Some(i) => FieldSmaller(JObj(fs), i, 0);
    case None =>
  }

  lemma FieldSize(fs: seq<(string, Json)>, i: nat)
    requires i < |fs|
    ensures Size(fs[i].1) < Size(JObj(fs))
  {
    FieldSmaller(JObj(fs), i, 0);
  }
}
