/** What compare_ and isModified promise, proved about the JsonDiff model: the rules for
    absent and mismatched arguments, the shape of array and map diffs, the meaning of
    isModified, and that a value compared with itself is unmodified. */
module JsonDiffProps {
  import opened Optional
  import opened JsonValue
  import opened Diff
  import opened JsonDiff

  // ---------------------------------------------------------------------------
  // Absent arguments and kind mismatches (json_diff.ts lines 98-118, 157-164, 178-187)

  /** compare_ with one side `undefined`, and with values of different kinds. */
  lemma CompareKinds(actual: Option<Json>, base: Option<Json>)
    requires actual.Some? || base.Some?
    ensures actual.None? ==> CompareOpt(actual, base) == Leaf(Removed(base.value))
    ensures actual.Some? && base.None? ==> CompareOpt(actual, base) == Leaf(Added(actual.value))
    ensures actual.Some? && base.Some? && actual.value.JArr? && !base.value.JArr? ==>
              CompareOpt(actual, base) == Leaf(Updated(actual.value, base.value))
    ensures actual.Some? && base.Some? && actual.value.JObj? && !base.value.JObj? ==>
              CompareOpt(actual, base) == Leaf(Updated(actual.value, base.value))
  {
  }

  /** Two scalars give `common` exactly when they are identical, `updated` otherwise. */
  lemma CompareScalars(a: Json, b: Json)
    requires !a.JArr? && !a.JObj?
    ensures Compare(a, b).Leaf?
    ensures Compare(a, b).result.Common? <==> a == b
    ensures a == b ==> Compare(a, b) == Leaf(Common(a))
    ensures a != b ==> Compare(a, b) == Leaf(Updated(a, b))
  {
  }

  // ---------------------------------------------------------------------------
  // The array walk (lines 119-156)

  /** The integers `lo`, `lo + 1`, ..., `hi - 1`. */
  function Range(lo: nat, hi: nat): (r: seq<nat>)
    ensures |r| == if lo <= hi then hi - lo else 0
    ensures forall k | 0 <= k < |r| :: r[k] == lo + k
    decreases hi - lo
  {
    if lo >= hi then [] else [lo] + Range(lo + 1, hi)
  }

  /** The base positions a trace of moves consumes, in order. */
  function BaseSide(t: seq<Step>): seq<nat>
  {
    if t == [] then []
    else
      (match t[0]
       case Anchor(_, _, bi) => [bi]
       case Paired(_, bi) => [bi]
       case RemovedAt(bi) => [bi]
       case AddedAt(_) => []) + BaseSide(t[1..])
  }

  /** The actual positions a trace of moves consumes, in order. */
  function ActualSide(t: seq<Step>): seq<nat>
  {
    if t == [] then []
    else
      (match t[0]
       case Anchor(_, ai, _) => [ai]
       case Paired(ai, _) => [ai]
       case RemovedAt(_) => []
       case AddedAt(ai) => [ai]) + ActualSide(t[1..])
  }

  /** The LCS positions a trace of moves takes as anchors, in order. */
  function AnchorSide(t: seq<Step>): seq<nat>
  {
    if t == [] then []
    else (if t[0].Anchor? then [t[0].li] else []) + AnchorSide(t[1..])
  }

  /** Every anchor joins an LCS element to an equal actual element and an equal base element. */
  predicate AnchorsMatch(t: seq<Step>, xs: seq<Json>, ys: seq<Json>, lcs: seq<Json>)
  {
    forall k | 0 <= k < |t| && t[k].Anchor? ::
      t[k].li < |lcs| && t[k].ai < |xs| && t[k].bi < |ys| &&
      Equal(lcs[t[k].li], xs[t[k].ai]) && Equal(lcs[t[k].li], ys[t[k].bi])
  }

  /** When the LCS embeds in what is left of both inputs, the walk consumes every remaining
      base element and every remaining actual element exactly once and in order, and takes
      every remaining LCS element as an anchor, each joined to equal elements on both sides. */
  lemma {:induction false} WalkConsumes(xs: seq<Json>, ys: seq<Json>, lcs: seq<Json>, i: nat, ai: nat, bi: nat)
    requires i <= |lcs| && ai <= |xs| && bi <= |ys|
    requires Embeds(lcs[i..], xs[ai..]) && Embeds(lcs[i..], ys[bi..])
    ensures BaseSide(Walk(xs, ys, lcs, i, ai, bi)) == Range(bi, |ys|)
    ensures ActualSide(Walk(xs, ys, lcs, i, ai, bi)) == Range(ai, |xs|)
    ensures AnchorSide(Walk(xs, ys, lcs, i, ai, bi)) == Range(i, |lcs|)
    ensures AnchorsMatch(Walk(xs, ys, lcs, i, ai, bi), xs, ys, lcs)
    decreases |lcs| + 1 - i, |ys| - bi, |xs| - ai
  {
    var t := Walk(xs, ys, lcs, i, ai, bi);
    if bi < |ys| && !EqualAt(lcs, i, ys[bi]) {
      assert ys[bi..][1..] == ys[bi + 1..];
      if ai < |xs| && !EqualAt(lcs, i, xs[ai]) {
        assert xs[ai..][1..] == xs[ai + 1..];
        WalkConsumes(xs, ys, lcs, i, ai + 1, bi + 1);
        assert t == [Paired(ai, bi)] + Walk(xs, ys, lcs, i, ai + 1, bi + 1);
        assert t[1..] == Walk(xs, ys, lcs, i, ai + 1, bi + 1);
      } else {
        WalkConsumes(xs, ys, lcs, i, ai, bi + 1);
        assert t == [RemovedAt(bi)] + Walk(xs, ys, lcs, i, ai, bi + 1);
        assert t[1..] == Walk(xs, ys, lcs, i, ai, bi + 1);
      }
    } else if ai < |xs| && !EqualAt(lcs, i, xs[ai]) {
      assert xs[ai..][1..] == xs[ai + 1..];
      WalkConsumes(xs, ys, lcs, i, ai + 1, bi);
      assert t == [AddedAt(ai)] + Walk(xs, ys, lcs, i, ai + 1, bi);
      assert t[1..] == Walk(xs, ys, lcs, i, ai + 1, bi);
    } else if i < |lcs| {
      assert lcs[i..] != [] && lcs[i..][0] == lcs[i];
      assert bi < |ys| && ai < |xs|;
      assert lcs[i..][1..] == lcs[i + 1..];
      assert xs[ai..][1..] == xs[ai + 1..];
      assert ys[bi..][1..] == ys[bi + 1..];
      WalkConsumes(xs, ys, lcs, i + 1, ai + 1, bi + 1);
      assert t == [Anchor(i, ai, bi)] + Walk(xs, ys, lcs, i + 1, ai + 1, bi + 1);
      assert t[1..] == Walk(xs, ys, lcs, i + 1, ai + 1, bi + 1);
    } else {
      assert t == [];
    }
  }

  /** The walk pushes exactly one entry per move. */
  lemma {:induction false} ArrayEntriesAt(xs: seq<Json>, ys: seq<Json>, lcs: seq<Json>, t: seq<Step>)
    requires forall k | 0 <= k < |t| :: StepFits(t[k], xs, ys, lcs)
    ensures |ArrayEntries(xs, ys, lcs, t)| == |t|
    ensures forall k | 0 <= k < |t| :: ArrayEntries(xs, ys, lcs, t)[k] == StepEntry(xs, ys, lcs, t[k])
    decreases |t|
  {
    if t != [] {
      ArrayEntriesAt(xs, ys, lcs, t[1..]);
    }
  }

  /** The diff of two arrays: one entry per move of the walk; the moves consume all of `base`
      and all of `actual` in order; the anchors are the LCS in order, each pushed as a
      `common` leaf of its element. */
  lemma CompareArrays(xs: seq<Json>, ys: seq<Json>)
    ensures var lcs := Lcs(xs, ys);
            var t := Walk(xs, ys, lcs, 0, 0, 0);
            Compare(JArr(xs), JArr(ys)) == DArr(ArrayEntries(xs, ys, lcs, t)) &&
            |ArrayEntries(xs, ys, lcs, t)| == |t| &&
            BaseSide(t) == Range(0, |ys|) &&
            ActualSide(t) == Range(0, |xs|) &&
            AnchorSide(t) == Range(0, |lcs|) &&
            AnchorsMatch(t, xs, ys, lcs) &&
            forall k | 0 <= k < |t| && t[k].Anchor? ::
              ArrayEntries(xs, ys, lcs, t)[k] == Leaf(Common(lcs[t[k].li]))
  {
    var lcs := Lcs(xs, ys);
    var t := Walk(xs, ys, lcs, 0, 0, 0);
    assert lcs[0..] == lcs && xs[0..] == xs && ys[0..] == ys;
    WalkConsumes(xs, ys, lcs, 0, 0, 0);
    ArrayEntriesAt(xs, ys, lcs, t);
  }

  // ---------------------------------------------------------------------------
  // The map diff of two objects (lines 165-176)

  /** `key` is a key of one of the two objects. */
  predicate KeyOfEither(af: seq<(string, Json)>, bf: seq<(string, Json)>, key: string)
  {
    key in KeysOf(af) || key in KeysOf(bf)
  }

  /** The entry of the map diff for one key: the key's values compared on their own. */
  function KeyEntry(af: seq<(string, Json)>, bf: seq<(string, Json)>, key: string): (e: (string, JsonDiff))
    requires KeyOfEither(af, bf, key)
    ensures e.0 == key
  {
    GetPresent(af, key);
    GetPresent(bf, key);
    (key, CompareOpt(Get(af, key), Get(bf, key)))
  }

  /** The entries for the keys `ks`, in that order. */
  function MapEntries(af: seq<(string, Json)>, bf: seq<(string, Json)>, ks: seq<string>): (m: seq<(string, JsonDiff)>)
    requires forall n | 0 <= n < |ks| :: KeyOfEither(af, bf, ks[n])
    ensures KeysOf(m) == ks
  {
    seq(|ks|, n requires 0 <= n < |ks| => KeyEntry(af, bf, ks[n]))
  }

  /** The keys among the first `k` fields of `af` that `bf` does not have, in order. */
  function NewKeys(af: seq<(string, Json)>, bf: seq<(string, Json)>, k: nat): (r: seq<string>)
    requires k <= |af|
    ensures forall n | 0 <= n < |r| :: r[n] in KeysOf(af)[..k] && r[n] !in KeysOf(bf)
    ensures forall j | 0 <= j < k && af[j].0 !in KeysOf(bf) :: af[j].0 in r
    ensures DistinctKeys(af) ==> Distinct(r)
  {
    if k == 0 then []
    else
      var prev := NewKeys(af, bf, k - 1);
      assert KeysOf(af)[..k] == KeysOf(af)[..k - 1] + [af[k - 1].0];
      if af[k - 1].0 in KeysOf(bf) then prev
      else
        assert DistinctKeys(af) ==> af[k - 1].0 !in KeysOf(af)[..k - 1] by {
          if DistinctKeys(af) {
            forall j | 0 <= j < k - 1 ensures af[j].0 != af[k - 1].0 {
              DistinctKeysAt(af, j, k - 1);
            }
            assert forall j | 0 <= j < k - 1 :: KeysOf(af)[..k - 1][j] == af[j].0;
          }
        }
        prev + [af[k - 1].0]
  }

  /** Writing a key the entries do not have yet appends its entry. */
  lemma AppendEntry(af: seq<(string, Json)>, bf: seq<(string, Json)>, ks: seq<string>, key: string,
                    acc: seq<(string, JsonDiff)>)
    requires forall n | 0 <= n < |ks| :: KeyOfEither(af, bf, ks[n])
    requires KeyOfEither(af, bf, key) && key !in ks
    requires acc == MapEntries(af, bf, ks)
    ensures Put(acc, key, CompareOpt(Get(af, key), Get(bf, key))) == MapEntries(af, bf, ks + [key])
  {
    GetPresent(acc, key);
    assert MapEntries(af, bf, ks + [key]) == acc + [KeyEntry(af, bf, key)];
  }

  /** The loop over the base keys builds, for distinct keys, one entry per base key in base order. */
  lemma {:induction false} BaseLoopBuilds(af: seq<(string, Json)>, bf: seq<(string, Json)>, k: nat,
                                          acc: seq<(string, JsonDiff)>)
    requires DistinctKeys(bf) && k <= |bf|
    requires forall n | 0 <= n < |bf| :: KeyOfEither(af, bf, KeysOf(bf)[n])
    requires acc == MapEntries(af, bf, KeysOf(bf)[..k])
    ensures BaseLoop(af, bf, k, acc) == MapEntries(af, bf, KeysOf(bf))
    decreases |bf| - k
  {
    if k == |bf| {
      assert KeysOf(bf)[..k] == KeysOf(bf);
    } else {
      var key := bf[k].0;
      assert key !in KeysOf(bf)[..k] by {
        assert forall j | 0 <= j < k :: KeysOf(bf)[..k][j] == bf[j].0;
      }
      GetAt(bf, k);
      assert KeysOf(bf)[k] == key;
      assert KeysOf(bf)[..k + 1] == KeysOf(bf)[..k] + [key];
      AppendEntry(af, bf, KeysOf(bf)[..k], key, acc);
      BaseLoopBuilds(af, bf, k + 1, Put(acc, key, CompareOpt(Get(af, key), Some(bf[k].1))));
    }
  }

  /** One step of the loop over the actual keys: a key already in the entries is a base key and
      adds no new key; any other key is a new key, and writing its `added` entry appends it. */
  lemma ActualStep(af: seq<(string, Json)>, bf: seq<(string, Json)>, k: nat, acc: seq<(string, JsonDiff)>)
    requires DistinctKeys(af) && k < |af|
    requires forall n | 0 <= n < |bf| :: KeyOfEither(af, bf, KeysOf(bf)[n])
    requires acc == MapEntries(af, bf, KeysOf(bf) + NewKeys(af, bf, k))
    ensures Get(acc, af[k].0).Some? ==> NewKeys(af, bf, k + 1) == NewKeys(af, bf, k)
    ensures Get(acc, af[k].0).None? ==>
              Put(acc, af[k].0, CompareOpt(Some(af[k].1), None)) == MapEntries(af, bf, KeysOf(bf) + NewKeys(af, bf, k + 1))
  {
    var key := af[k].0;
    var ks := KeysOf(bf) + NewKeys(af, bf, k);
    assert key !in KeysOf(af)[..k] by {
      assert forall j | 0 <= j < k :: KeysOf(af)[..k][j] == af[j].0;
    }
    assert key !in NewKeys(af, bf, k);
    GetPresent(acc, key);
    if key !in KeysOf(bf) {
      assert KeysOf(af)[k] == key;
      assert KeyOfEither(af, bf, key);
      GetAt(af, k);
      GetPresent(bf, key);
      AppendEntry(af, bf, ks, key, acc);
      assert ks + [key] == KeysOf(bf) + NewKeys(af, bf, k + 1);
    }
  }

  /** The loop over the actual keys then appends one entry per actual-only key, in actual order. */
  lemma {:induction false} ActualLoopBuilds(af: seq<(string, Json)>, bf: seq<(string, Json)>, k: nat,
                                            acc: seq<(string, JsonDiff)>)
    requires DistinctKeys(af) && k <= |af|
    requires forall n | 0 <= n < |bf| :: KeyOfEither(af, bf, KeysOf(bf)[n])
    requires acc == MapEntries(af, bf, KeysOf(bf) + NewKeys(af, bf, k))
    ensures ActualLoop(af, k, acc) == MapEntries(af, bf, KeysOf(bf) + NewKeys(af, bf, |af|))
    decreases |af| - k
  {
    if k < |af| {
      ActualStep(af, bf, k, acc);
      if Get(acc, af[k].0).Some? {
        ActualLoopBuilds(af, bf, k + 1, acc);
      } else {
        ActualLoopBuilds(af, bf, k + 1, Put(acc, af[k].0, CompareOpt(Some(af[k].1), None)));
      }
    }
  }

  /** The diff of two objects with distinct keys: one entry per base key in base order, then
      one per actual-only key in actual order, each the key's two values compared. */
  lemma CompareObjects(af: seq<(string, Json)>, bf: seq<(string, Json)>)
    requires DistinctKeys(af) && DistinctKeys(bf)
    ensures forall n | 0 <= n < |KeysOf(bf) + NewKeys(af, bf, |af|)| ::
              KeyOfEither(af, bf, (KeysOf(bf) + NewKeys(af, bf, |af|))[n])
    ensures Compare(JObj(af), JObj(bf)) == DMap(MapEntries(af, bf, KeysOf(bf) + NewKeys(af, bf, |af|)))
  {
    var ks := KeysOf(bf) + NewKeys(af, bf, |af|);
    assert KeysOf(af)[..|af|] == KeysOf(af);
    assert KeysOf(bf)[..0] == [];
    BaseLoopBuilds(af, bf, 0, []);
    ActualLoopBuilds(af, bf, 0, MapEntries(af, bf, KeysOf(bf)));
  }

  /** Per key, for objects with distinct keys: the map diff has each key of either object
      exactly once, and nothing else; a key's entry compares its two values; a key only in
      `base` is `removed`, a key only in `actual` is `added`. */
  lemma {:induction false} CompareObjectsKeys(af: seq<(string, Json)>, bf: seq<(string, Json)>)
    requires DistinctKeys(af) && DistinctKeys(bf)
    ensures Compare(JObj(af), JObj(bf)).DMap?
    ensures DistinctKeys(Compare(JObj(af), JObj(bf)).fields)
    ensures forall key :: key in KeysOf(Compare(JObj(af), JObj(bf)).fields) <==> KeyOfEither(af, bf, key)
    ensures forall key | Get(af, key).Some? || Get(bf, key).Some? ::
              Get(Compare(JObj(af), JObj(bf)).fields, key) == Some(CompareOpt(Get(af, key), Get(bf, key)))
    ensures forall key | Get(af, key).None? && Get(bf, key).None? ::
              Get(Compare(JObj(af), JObj(bf)).fields, key).None?
    ensures forall key | Get(af, key).None? && Get(bf, key).Some? ::
              Get(Compare(JObj(af), JObj(bf)).fields, key) == Some(Leaf(Removed(Get(bf, key).value)))
    ensures forall key | Get(af, key).Some? && Get(bf, key).None? ::
              Get(Compare(JObj(af), JObj(bf)).fields, key) == Some(Leaf(Added(Get(af, key).value)))
  {
    CompareObjects(af, bf);
    var news := NewKeys(af, bf, |af|);
    var ks := KeysOf(bf) + news;
    var m := MapEntries(af, bf, ks);
    assert KeysOf(af)[..|af|] == KeysOf(af);
    assert Distinct(ks) by {
      forall i, j | 0 <= i < j < |ks| ensures ks[i] != ks[j] {
        if j < |bf| {
          assert ks[i] == bf[i].0 && ks[j] == bf[j].0;
        } else if i >= |bf| {
          assert ks[i] == news[i - |bf|] && ks[j] == news[j - |bf|];
        } else {
          assert ks[i] in KeysOf(bf) && ks[j] == news[j - |bf|];
        }
      }
    }
    assert DistinctKeys(m) by {
      forall i, j | 0 <= i < j < |m| ensures m[i].0 != m[j].0 {
        assert KeysOf(m)[i] == m[i].0 && KeysOf(m)[j] == m[j].0;
      }
    }
    forall key ensures key in ks <==> KeyOfEither(af, bf, key) {
      if key in KeysOf(af) && key !in KeysOf(bf) {
        var j :| 0 <= j < |af| && KeysOf(af)[j] == key;
        assert af[j].0 == key;
      }
    }
    forall key | KeyOfEither(af, bf, key) ensures Get(m, key) == Some(CompareOpt(Get(af, key), Get(bf, key))) {
      var n :| 0 <= n < |ks| && ks[n] == key;
      GetAt(m, n);
      GetPresent(af, key);
      GetPresent(bf, key);
    }
    forall key ensures Get(af, key).Some? || Get(bf, key).Some? <==> KeyOfEither(af, bf, key) {
      GetPresent(af, key);
      GetPresent(bf, key);
    }
    forall key | !KeyOfEither(af, bf, key) ensures Get(m, key).None? {
      GetPresent(m, key);
    }
  }

  // ---------------------------------------------------------------------------
  // isModified (lines 83-96)

  /** The leaf results of a diff, left to right. */
  function Leaves(d: JsonDiff): seq<DiffResult>
    decreases d, 1
  {
    match d
    case Leaf(r) => [r]
    case _ => ChildLeaves(d, 0)
  }

  /** The leaf results of the children of an array or map diff, from child `k` on. */
  function ChildLeaves(d: JsonDiff, k: nat): seq<DiffResult>
    requires !d.Leaf?
    decreases d, 0, if d.DArr? then |d.entries| - k else |d.fields| - k
  {
    if d.DArr? then
      if k >= |d.entries| then [] else Leaves(d.entries[k]) + ChildLeaves(d, k + 1)
    else
      if k >= |d.fields| then [] else Leaves(d.fields[k].1) + ChildLeaves(d, k + 1)
  }

  /** Some result in the list is not `common`. */
  predicate AnyChange(rs: seq<DiffResult>)
  {
    exists i | 0 <= i < |rs| :: !rs[i].Common?
  }

  lemma AnyChangeConcat(a: seq<DiffResult>, b: seq<DiffResult>)
    ensures AnyChange(a + b) <==> AnyChange(a) || AnyChange(b)
  {
    if AnyChange(a + b) {
      var i :| 0 <= i < |a + b| && !(a + b)[i].Common?;
      if i >= |a| { assert b[i - |a|] == (a + b)[i]; }
    }
    if AnyChange(a) {
      var i :| 0 <= i < |a| && !a[i].Common?;
      assert (a + b)[i] == a[i];
    }
    if AnyChange(b) {
      var i :| 0 <= i < |b| && !b[i].Common?;
      assert (a + b)[|a| + i] == b[i];
    }
  }

  /** `isModified(d)` holds exactly when some leaf of `d` is not `common`; so an empty array
      or map diff, and any diff whose leaves are all `common`, is unmodified. */
  lemma {:induction false} IsModifiedLeaves(d: JsonDiff)
    ensures IsModified(d) <==> AnyChange(Leaves(d))
    decreases d, 1
  {
    if d.Leaf? {
      assert Leaves(d)[0] == d.result;
    } else {
      ChildrenModified(d, 0);
    }
  }

  lemma {:induction false} ChildrenModified(d: JsonDiff, k: nat)
    requires !d.Leaf?
    ensures d.DArr? ==> (AnyChange(ChildLeaves(d, k)) <==> exists i | k <= i < |d.entries| :: IsModified(d.entries[i]))
    ensures d.DMap? ==> (AnyChange(ChildLeaves(d, k)) <==> exists i | k <= i < |d.fields| :: IsModified(d.fields[i].1))
    decreases d, 0, if d.DArr? then |d.entries| - k else |d.fields| - k
  {
    if d.DArr? && k < |d.entries| {
      IsModifiedLeaves(d.entries[k]);
      ChildrenModified(d, k + 1);
      AnyChangeConcat(Leaves(d.entries[k]), ChildLeaves(d, k + 1));
    } else if d.DMap? && k < |d.fields| {
      IsModifiedLeaves(d.fields[k].1);
      ChildrenModified(d, k + 1);
      AnyChangeConcat(Leaves(d.fields[k].1), ChildLeaves(d, k + 1));
    }
  }

  // ---------------------------------------------------------------------------
  // Identity: compare(x, x) (lines 119-187 with 83-96)

  /** Walking a sequence against itself with itself as the LCS takes only anchors. */
  lemma {:induction false} WalkSelf(xs: seq<Json>, i: nat)
    requires i <= |xs|
    ensures forall k | 0 <= k < |Walk(xs, xs, xs, i, i, i)| :: Walk(xs, xs, xs, i, i, i)[k].Anchor?
    decreases |xs| - i
  {
    if i < |xs| {
      EqualRefl(xs[i]);
      WalkSelf(xs, i + 1);
      assert Walk(xs, xs, xs, i, i, i) == [Anchor(i, i, i)] + Walk(xs, xs, xs, i + 1, i + 1, i + 1);
    }
  }

  /** A value compared with itself is unmodified: every array entry is an anchor and every
      object key compares a value with itself. */
  lemma {:induction false} CompareSelf(x: Json)
    requires WellFormed(x)
    ensures !IsModified(Compare(x, x))
    decreases Size(x)
  {
    match x
    case JArr(xs) =>
      LcsSelf(xs);
      WalkSelf(xs, 0);
      var t := Walk(xs, xs, xs, 0, 0, 0);
      ArrayEntriesAt(xs, xs, xs, t);
    case JObj(af) =>
      CompareObjectsKeys(af, af);
      var m := Compare(x, x).fields;
      forall n | 0 <= n < |m| ensures !IsModified(m[n].1) {
        var key := m[n].0;
        assert KeysOf(m)[n] == key;
        assert KeyOfEither(af, af, key);
        var j :| 0 <= j < |af| && KeysOf(af)[j] == key;
        GetAt(af, j);
        GetAt(m, n);
        FieldSize(af, j);
        CompareSelf(af[j].1);
      }
    case _ =>
  }

  // ---------------------------------------------------------------------------
  // Worked example: base [1, 2, 3] changed to actual [1, 3, 4]

  /** The LCS of the example: [1, 3]. */
  lemma ExampleLcs()
    ensures Lcs([JNum(1), JNum(3), JNum(4)], [JNum(1), JNum(2), JNum(3)]) == [JNum(1), JNum(3)]
  {
    var xs, ys := [JNum(1), JNum(3), JNum(4)], [JNum(1), JNum(2), JNum(3)];
    assert Lcs(xs[2..], ys[2..]) == [];
    assert Lcs(xs[1..], ys[2..]) == [JNum(3)];
    assert Lcs(xs[1..], ys[1..]) == [JNum(3)];
  }

  /** The walk of the example: anchor 1, remove 2, anchor 3, add 4. */
  lemma ExampleWalk()
    ensures Walk([JNum(1), JNum(3), JNum(4)], [JNum(1), JNum(2), JNum(3)], [JNum(1), JNum(3)], 0, 0, 0)
         == [Anchor(0, 0, 0), RemovedAt(1), Anchor(1, 1, 2), AddedAt(2)]
  {
    var xs, ys, lcs := [JNum(1), JNum(3), JNum(4)], [JNum(1), JNum(2), JNum(3)], [JNum(1), JNum(3)];
    assert Walk(xs, ys, lcs, 3, 4, 4) == [];
    assert Walk(xs, ys, lcs, 2, 3, 3) == [];
    assert Walk(xs, ys, lcs, 2, 2, 3) == [AddedAt(2)] + Walk(xs, ys, lcs, 2, 3, 3);
    assert Walk(xs, ys, lcs, 1, 1, 2) == [Anchor(1, 1, 2)] + Walk(xs, ys, lcs, 2, 2, 3);
    assert Walk(xs, ys, lcs, 1, 1, 1) == [RemovedAt(1)] + Walk(xs, ys, lcs, 1, 1, 2);
    assert Walk(xs, ys, lcs, 0, 0, 0) == [Anchor(0, 0, 0)] + Walk(xs, ys, lcs, 1, 1, 1);
  }

  /** The diff: 1 common, 2 removed, 3 common, 4 added. */
  lemma ExampleCompare()
    ensures Compare(JArr([JNum(1), JNum(3), JNum(4)]), JArr([JNum(1), JNum(2), JNum(3)]))
         == DArr([Leaf(Common(JNum(1))), Leaf(Removed(JNum(2))), Leaf(Common(JNum(3))), Leaf(Added(JNum(4)))])
  {
    var xs, ys, lcs := [JNum(1), JNum(3), JNum(4)], [JNum(1), JNum(2), JNum(3)], [JNum(1), JNum(3)];
    ExampleLcs();
    ExampleWalk();
    var t := [Anchor(0, 0, 0), RemovedAt(1), Anchor(1, 1, 2), AddedAt(2)];
    ArrayEntriesAt(xs, ys, lcs, t);
  }

  // ---------------------------------------------------------------------------
  // Worked example: base {a: 1, b: 2} changed to actual {a: 1, b: 3, c: 4}

  lemma ExampleMapKeys()
    ensures NewKeys([("a", JNum(1)), ("b", JNum(3)), ("c", JNum(4))], [("a", JNum(1)), ("b", JNum(2))], 3) == ["c"]
  {
    var af := [("a", JNum(1)), ("b", JNum(3)), ("c", JNum(4))];
    var bf := [("a", JNum(1)), ("b", JNum(2))];
    assert KeysOf(bf) == ["a", "b"];
    assert NewKeys(af, bf, 0) == [];
    assert NewKeys(af, bf, 1) == [];
    assert NewKeys(af, bf, 2) == [];
  }

  lemma ExampleMapEntries()
    ensures forall n | 0 <= n < 3 :: KeyOfEither([("a", JNum(1)), ("b", JNum(3)), ("c", JNum(4))], [("a", JNum(1)), ("b", JNum(2))], ["a", "b", "c"][n])
    ensures MapEntries([("a", JNum(1)), ("b", JNum(3)), ("c", JNum(4))], [("a", JNum(1)), ("b", JNum(2))], ["a", "b", "c"])
         == [("a", Leaf(Common(JNum(1)))), ("b", Leaf(Updated(JNum(3), JNum(2)))), ("c", Leaf(Added(JNum(4))))]
  {
    var af := [("a", JNum(1)), ("b", JNum(3)), ("c", JNum(4))];
    var bf := [("a", JNum(1)), ("b", JNum(2))];
    assert KeysOf(af) == ["a", "b", "c"];
    assert Get(af, "a") == Some(JNum(1)) && Get(bf, "a") == Some(JNum(1));
    assert Get(af, "b") == Some(JNum(3)) && Get(bf, "b") == Some(JNum(2));
    assert Get(af, "c") == Some(JNum(4)) && Get(bf, "c") == None;
    CompareScalars(JNum(1), JNum(1));
    CompareScalars(JNum(3), JNum(2));
    assert KeyEntry(af, bf, "a") == ("a", Leaf(Common(JNum(1))));
    assert KeyEntry(af, bf, "b") == ("b", Leaf(Updated(JNum(3), JNum(2))));
    assert KeyEntry(af, bf, "c") == ("c", Leaf(Added(JNum(4))));
  }

  /** The diff: `a` common, `b` updated from 2 to 3, `c` added. */
  lemma ExampleMapCompare()
    ensures Compare(JObj([("a", JNum(1)), ("b", JNum(3)), ("c", JNum(4))]), JObj([("a", JNum(1)), ("b", JNum(2))]))
         == DMap([("a", Leaf(Common(JNum(1)))), ("b", Leaf(Updated(JNum(3), JNum(2)))), ("c", Leaf(Added(JNum(4))))])
  {
    var af := [("a", JNum(1)), ("b", JNum(3)), ("c", JNum(4))];
    var bf := [("a", JNum(1)), ("b", JNum(2))];
    assert KeysOf(bf) == ["a", "b"];
    assert KeysOf(af) == ["a", "b", "c"];
    assert DistinctKeys(af) && DistinctKeys(bf);
    CompareObjects(af, bf);
    ExampleMapKeys();
    assert KeysOf(bf) + NewKeys(af, bf, |af|) == ["a", "b", "c"];
    ExampleMapEntries();
  }
}
