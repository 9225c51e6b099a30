/** The primitives that json_diff.ts imports from ./diff.ts: the diff result tags,
    deep equality and the longest common subsequence. diff.ts itself is not part of
    this model; these definitions state what json_diff.ts relies on. */
module Diff {
  import opened Optional
  import opened JsonValue

  /** `DiffResult<JSONValue>` with its `DiffType` tag. */
  datatype DiffResult =
    | Common(value: Json)
    | Added(value: Json)
    | Removed(value: Json)
    | Updated(value: Json, oldValue: Json)

  /** `equal`: deep structural equality; arrays element by element, objects by key set
      and per-key value, ignoring key order; no coercion between kinds. */
  predicate Equal(a: Json, b: Json)
    decreases a, 1
  {
    match a
    case JArr(xs) =>
      b.JArr? && |xs| == |b.items| &&
      forall i | 0 <= i < |xs| :: Equal(xs[i], b.items[i])
    case JObj(fs) =>
      b.JObj? &&
      (forall i | 0 <= i < |fs| :: FieldMatched(a, i, b)) &&
      (forall j | 0 <= j < |b.fields| :: b.fields[j].0 in KeysOf(fs))
    case _ => a == b
  }

  /** Field `i` of object `a` has a field with the same key and an equal value in object `b`. */
  predicate FieldMatched(a: Json, i: nat, b: Json)
    requires a.JObj? && i < |a.fields| && b.JObj?
    decreases a, 0
  {
    exists j | 0 <= j < |b.fields| ::
      b.fields[j].0 == a.fields[i].0 && Equal(a.fields[i].1, b.fields[j].1)
  }

  /** `equal(x, y)` where either side may be `undefined`: `undefined` equals only itself. */
  predicate EqualOpt(a: Option<Json>, b: Option<Json>)
  {
    match (a, b)
    case (Some(x), Some(y)) => Equal(x, y)
    case (None, None) => true
    case _ => false
  }

  /** Every value is equal to itself. */
  lemma {:induction false} EqualRefl(a: Json)
    ensures Equal(a, a)
    decreases a
  {
    match a
    case JArr(xs) =>
      forall i | 0 <= i < |xs| ensures Equal(xs[i], xs[i]) { EqualRefl(xs[i]); }
    case JObj(fs) =>
      forall i | 0 <= i < |fs| ensures FieldMatched(a, i, a) {
        EqualRefl(fs[i].1);
        assert a.fields[i].0 == fs[i].0 && Equal(fs[i].1, a.fields[i].1);
      }
      forall j | 0 <= j < |fs| ensures fs[j].0 in KeysOf(fs) { assert KeysOf(fs)[j] == fs[j].0; }
    case _ =>
  }

  /** `s` occurs in `t` as a subsequence under `Equal`, matched greedily from the left,
      which is how compare_ looks for each LCS element in its inputs. */
  predicate Embeds(s: seq<Json>, t: seq<Json>)
    decreases |t|
  {
    if s == [] then true
    else if t == [] then false
    else if Equal(s[0], t[0]) then Embeds(s[1..], t[1..])
    else Embeds(s, t[1..])
  }

  /** A subsequence of `t` stays one when an element is put in front of `t`. */
  lemma {:induction false} EmbedsCons(s: seq<Json>, x: Json, t: seq<Json>)
    requires Embeds(s, t)
    ensures Embeds(s, [x] + t)
    decreases |s| + |t|, 1
  {
    assert ([x] + t)[1..] == t;
    if s != [] && Equal(s[0], x) {
      EmbedsDropFirst(s, t);
    }
  }

  /** Dropping the first element of an embedded sequence keeps it embedded. */
  lemma {:induction false} EmbedsDropFirst(s: seq<Json>, t: seq<Json>)
    requires s != [] && Embeds(s, t)
    ensures Embeds(s[1..], t)
    decreases |s| + |t|, 0
  {
    if Equal(s[0], t[0]) {
      if s[1..] != [] { EmbedsCons(s[1..], t[0], t[1..]); }
      assert [t[0]] + t[1..] == t;
    } else {
      EmbedsDropFirst(s, t[1..]);
      EmbedsCons(s[1..], t[0], t[1..]);
      assert [t[0]] + t[1..] == t;
    }
  }

  /** `longestCommonSubsequence(a, b)`: a common subsequence of both arguments under `Equal`,
      with elements taken from `a`. Only that it is common is stated, not that it is longest. */
  function Lcs(a: seq<Json>, b: seq<Json>): (s: seq<Json>)
    ensures Embeds(s, a) && Embeds(s, b)
    ensures |s| <= |a| && |s| <= |b|
    decreases |a| + |b|
  {
    if a == [] || b == [] then []
    else if Equal(a[0], b[0]) then
      var rest := Lcs(a[1..], b[1..]);
      EqualRefl(a[0]);
      assert ([a[0]] + rest)[1..] == rest;
      [a[0]] + rest
    else
      var l1 := Lcs(a[1..], b);
      var l2 := Lcs(a, b[1..]);
      if |l1| >= |l2| then
        EmbedsCons(l1, a[0], a[1..]);
        assert [a[0]] + a[1..] == a;
        l1
      else
        EmbedsCons(l2, b[0], b[1..]);
        assert [b[0]] + b[1..] == b;
        l2
  }

  /** The common subsequence of a sequence with itself is the whole sequence. */
  lemma {:induction false} LcsSelf(a: seq<Json>)
    ensures Lcs(a, a) == a
    decreases |a|
  {
    if a != [] {
      EqualRefl(a[0]);
      LcsSelf(a[1..]);
      assert [a[0]] + a[1..] == a;
    }
  }
}
