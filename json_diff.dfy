/** The structural diff of json_diff.ts: `compare`/`compare_`, which turns two JSON
    values into a diff tree, and `isModified`, which asks whether a diff tree holds a change. */
module JsonDiff {
  import opened Optional
  import opened JsonValue
  import opened Diff

  /** `JSONDiff`: a leaf result, an array-level diff or a map-level diff (a `Map`, whose
      insertion order is kept). */
  datatype JsonDiff =
    | Leaf(result: DiffResult)
    | DArr(entries: seq<JsonDiff>)
    | DMap(fields: seq<(string, JsonDiff)>)

  /** One move of the array walk of compare_: an LCS element `li` found at `actual[ai]` and
      `base[bi]`; an actual element compared against a base element; a base element removed;
      an actual element added. */
  datatype Step =
    | Anchor(li: nat, ai: nat, bi: nat)
    | Paired(ai: nat, bi: nat)
    | RemovedAt(bi: nat)
    | AddedAt(ai: nat)

  /** `equal(LCS[i], x)`; past the end of the LCS, `LCS[i]` is `undefined` and equals no value. */
  predicate EqualAt(lcs: seq<Json>, i: nat, x: Json)
  {
    i < |lcs| && Equal(lcs[i], x)
  }

  predicate StepFits(s: Step, xs: seq<Json>, ys: seq<Json>, lcs: seq<Json>)
  {
    match s
    case Anchor(li, _, _) => li < |lcs|
    case Paired(ai, bi) => ai < |xs| && bi < |ys|
    case RemovedAt(bi) => bi < |ys|
    case AddedAt(ai) => ai < |xs|
  }

  /** The moves of the loop at json_diff.ts lines 121-155 from LCS index `i`, actual index `ai`
      and base index `bi` on. The first inner loop runs while the base element is not the
      current LCS element, the second while the actual element is not; after both an anchor
      is taken and both indices advance. */
  function Walk(xs: seq<Json>, ys: seq<Json>, lcs: seq<Json>, i: nat, ai: nat, bi: nat): (t: seq<Step>)
    ensures forall k | 0 <= k < |t| :: StepFits(t[k], xs, ys, lcs)
    decreases |lcs| + 1 - i, |ys| - bi, |xs| - ai
  {
    if i > |lcs| then []
    else if bi < |ys| && !EqualAt(lcs, i, ys[bi]) then
      if ai < |xs| && !EqualAt(lcs, i, xs[ai]) then [Paired(ai, bi)] + Walk(xs, ys, lcs, i, ai + 1, bi + 1)
      else [RemovedAt(bi)] + Walk(xs, ys, lcs, i, ai, bi + 1)
    else if ai < |xs| && !EqualAt(lcs, i, xs[ai]) then [AddedAt(ai)] + Walk(xs, ys, lcs, i, ai + 1, bi)
    else (if i < |lcs| then [Anchor(i, ai, bi)] else []) + Walk(xs, ys, lcs, i + 1, ai + 1, bi + 1)
  }

  /** The diff entry each move pushes. */
  function StepEntry(xs: seq<Json>, ys: seq<Json>, lcs: seq<Json>, s: Step): JsonDiff
    requires StepFits(s, xs, ys, lcs)
    decreases Size(JArr(xs)), 0, 0
  {
    match s
    case Anchor(li, _, _) => Leaf(Common(lcs[li]))
    case Paired(ai, bi) => ItemSize(xs, ai); CompareOpt(Some(xs[ai]), Some(ys[bi]))
    case RemovedAt(bi) => Leaf(Removed(ys[bi]))
    case AddedAt(ai) => Leaf(Added(xs[ai]))
  }

  function ArrayEntries(xs: seq<Json>, ys: seq<Json>, lcs: seq<Json>, t: seq<Step>): seq<JsonDiff>
    requires forall k | 0 <= k < |t| :: StepFits(t[k], xs, ys, lcs)
    decreases Size(JArr(xs)), 0, |t| + 1
  {
    if t == [] then [] else [StepEntry(xs, ys, lcs, t[0])] + ArrayEntries(xs, ys, lcs, t[1..])
  }

  /** The loop over the base object's keys (lines 166-170), from field `k` on. */
  function BaseLoop(af: seq<(string, Json)>, bf: seq<(string, Json)>, k: nat, acc: seq<(string, JsonDiff)>)
    : seq<(string, JsonDiff)>
    decreases Size(JObj(af)), 0, |bf| - k
  {
    if k >= |bf| then acc
    else
      GetSize(af, bf[k].0);
      BaseLoop(af, bf, k + 1, Put(acc, bf[k].0, CompareOpt(Get(af, bf[k].0), Some(bf[k].1))))
  }

  /** The loop over the actual object's keys (lines 171-175): a key already in the diff is skipped. */
  function ActualLoop(af: seq<(string, Json)>, k: nat, acc: seq<(string, JsonDiff)>): seq<(string, JsonDiff)>
    decreases Size(JObj(af)), 0, |af| - k
  {
    if k >= |af| then acc
    else if Get(acc, af[k].0).Some? then ActualLoop(af, k + 1, acc)
    else
      FieldSize(af, k);
      ActualLoop(af, k + 1, Put(acc, af[k].0, CompareOpt(Some(af[k].1), None)))
  }

  /** `compare_(actual?, base?)`. Its callers never pass two `undefined` values. */
  function CompareOpt(actual: Option<Json>, base: Option<Json>): JsonDiff
    requires actual.Some? || base.Some?
    decreases OptSize(actual), 1, 0
  {
    if actual.None? then Leaf(Removed(base.value))
    else if base.None? then Leaf(Added(actual.value))
    else
      var a, b := actual.value, base.value;
      if a.JArr? then
        if !b.JArr? then Leaf(Updated(a, b))
        else
          var lcs := Lcs(a.items, b.items);
          DArr(ArrayEntries(a.items, b.items, lcs, Walk(a.items, b.items, lcs, 0, 0, 0)))
      else if a.JObj? then
        if !b.JObj? then Leaf(Updated(a, b))
        else DMap(ActualLoop(a.fields, 0, BaseLoop(a.fields, b.fields, 0, [])))
      else if a == b then Leaf(Common(a))
      else Leaf(Updated(a, b))
  }

  /** `compare(actual, base)`. */
  function Compare(actual: Json, base: Json): JsonDiff
  {
    CompareOpt(Some(actual), Some(base))
  }

  /** compare_ as the source runs it. The array loop and the two object loops are in
      CompareArraysM and CompareObjectsM. */
  method CompareM(actual: Option<Json>, base: Option<Json>) returns (d: JsonDiff)
    requires actual.Some? || base.Some?
    ensures d == CompareOpt(actual, base)
    decreases OptSize(actual), 4
  {
    if actual.None? {
      return Leaf(Removed(base.value));
    }
    if base.None? {
      return Leaf(Added(actual.value));
    }
    var a, b := actual.value, base.value;
    if a.JArr? {
      if !b.JArr? {
        return Leaf(Updated(a, b));
      }
      var entries := CompareArraysM(a.items, b.items);
      return DArr(entries);
    }
    if a.JObj? {
      if !b.JObj? {
        return Leaf(Updated(a, b));
      }
      var fields := CompareObjectsM(a.fields, b.fields);
      return DMap(fields);
    }
    if a == b {
      return Leaf(Common(a));
    }
    return Leaf(Updated(a, b));
  }

  /** The entries the array walk pushes from a given state on. */
  function EntriesFrom(xs: seq<Json>, ys: seq<Json>, lcs: seq<Json>, i: nat, ai: nat, bi: nat): seq<JsonDiff>
  {
    ArrayEntries(xs, ys, lcs, Walk(xs, ys, lcs, i, ai, bi))
  }

  // One step of the walk, stated for the accumulator `acc` of the entries pushed so far:
  // pushing the step's entry keeps `acc + the entries still to come` equal to the whole.

  lemma EntriesPaired(xs: seq<Json>, ys: seq<Json>, lcs: seq<Json>, i: nat, ai: nat, bi: nat,
                      acc: seq<JsonDiff>, sub: JsonDiff, whole: seq<JsonDiff>)
    requires i <= |lcs| && bi < |ys| && !EqualAt(lcs, i, ys[bi]) && ai < |xs| && !EqualAt(lcs, i, xs[ai])
    requires sub == CompareOpt(Some(xs[ai]), Some(ys[bi]))
    requires acc + EntriesFrom(xs, ys, lcs, i, ai, bi) == whole
    ensures (acc + [sub]) + EntriesFrom(xs, ys, lcs, i, ai + 1, bi + 1) == whole
  {
    var t := Walk(xs, ys, lcs, i, ai, bi);
    assert t == [Paired(ai, bi)] + Walk(xs, ys, lcs, i, ai + 1, bi + 1);
    assert t[1..] == Walk(xs, ys, lcs, i, ai + 1, bi + 1);
    assert ArrayEntries(xs, ys, lcs, t) == [StepEntry(xs, ys, lcs, t[0])] + ArrayEntries(xs, ys, lcs, t[1..]);
    assert EntriesFrom(xs, ys, lcs, i, ai, bi) == [sub] + EntriesFrom(xs, ys, lcs, i, ai + 1, bi + 1);
  }

  lemma EntriesRemoved(xs: seq<Json>, ys: seq<Json>, lcs: seq<Json>, i: nat, ai: nat, bi: nat,
                       acc: seq<JsonDiff>, whole: seq<JsonDiff>)
    requires i <= |lcs| && bi < |ys| && !EqualAt(lcs, i, ys[bi]) && !(ai < |xs| && !EqualAt(lcs, i, xs[ai]))
    requires acc + EntriesFrom(xs, ys, lcs, i, ai, bi) == whole
    ensures (acc + [Leaf(Removed(ys[bi]))]) + EntriesFrom(xs, ys, lcs, i, ai, bi + 1) == whole
  {
    var t := Walk(xs, ys, lcs, i, ai, bi);
    assert t == [RemovedAt(bi)] + Walk(xs, ys, lcs, i, ai, bi + 1);
    assert t[1..] == Walk(xs, ys, lcs, i, ai, bi + 1);
    assert ArrayEntries(xs, ys, lcs, t) == [StepEntry(xs, ys, lcs, t[0])] + ArrayEntries(xs, ys, lcs, t[1..]);
    assert EntriesFrom(xs, ys, lcs, i, ai, bi) == [Leaf(Removed(ys[bi]))] + EntriesFrom(xs, ys, lcs, i, ai, bi + 1);
  }

  lemma EntriesAdded(xs: seq<Json>, ys: seq<Json>, lcs: seq<Json>, i: nat, ai: nat, bi: nat,
                     acc: seq<JsonDiff>, whole: seq<JsonDiff>)
    requires i <= |lcs| && !(bi < |ys| && !EqualAt(lcs, i, ys[bi])) && ai < |xs| && !EqualAt(lcs, i, xs[ai])
    requires acc + EntriesFrom(xs, ys, lcs, i, ai, bi) == whole
    ensures (acc + [Leaf(Added(xs[ai]))]) + EntriesFrom(xs, ys, lcs, i, ai + 1, bi) == whole
  {
    var t := Walk(xs, ys, lcs, i, ai, bi);
    assert t == [AddedAt(ai)] + Walk(xs, ys, lcs, i, ai + 1, bi);
    assert t[1..] == Walk(xs, ys, lcs, i, ai + 1, bi);
    assert ArrayEntries(xs, ys, lcs, t) == [StepEntry(xs, ys, lcs, t[0])] + ArrayEntries(xs, ys, lcs, t[1..]);
    assert EntriesFrom(xs, ys, lcs, i, ai, bi) == [Leaf(Added(xs[ai]))] + EntriesFrom(xs, ys, lcs, i, ai + 1, bi);
  }

  lemma EntriesAnchor(xs: seq<Json>, ys: seq<Json>, lcs: seq<Json>, i: nat, ai: nat, bi: nat,
                      acc: seq<JsonDiff>, common: seq<JsonDiff>, whole: seq<JsonDiff>)
    requires i <= |lcs| && !(bi < |ys| && !EqualAt(lcs, i, ys[bi])) && !(ai < |xs| && !EqualAt(lcs, i, xs[ai]))
    requires common == if i < |lcs| then [Leaf(Common(lcs[i]))] else []
    requires acc + EntriesFrom(xs, ys, lcs, i, ai, bi) == whole
    ensures (acc + common) + EntriesFrom(xs, ys, lcs, i + 1, ai + 1, bi + 1) == whole
  {
    var t := Walk(xs, ys, lcs, i, ai, bi);
    if i < |lcs| {
      assert t == [Anchor(i, ai, bi)] + Walk(xs, ys, lcs, i + 1, ai + 1, bi + 1);
      assert t[1..] == Walk(xs, ys, lcs, i + 1, ai + 1, bi + 1);
      assert ArrayEntries(xs, ys, lcs, t) == [StepEntry(xs, ys, lcs, t[0])] + ArrayEntries(xs, ys, lcs, t[1..]);
    } else {
      assert t == Walk(xs, ys, lcs, i + 1, ai + 1, bi + 1);
    }
    assert EntriesFrom(xs, ys, lcs, i, ai, bi) == common + EntriesFrom(xs, ys, lcs, i + 1, ai + 1, bi + 1);
  }

  /** Past the last LCS index the walk has nothing left to push. */
  lemma EntriesDone(xs: seq<Json>, ys: seq<Json>, lcs: seq<Json>, i: nat, ai: nat, bi: nat)
    requires i > |lcs|
    ensures EntriesFrom(xs, ys, lcs, i, ai, bi) == []
  {
  }

  /** The array branch of compare_ (lines 119-156): an index-driven walk pushing onto `diff`,
      one round per LCS element plus a final round for the tails. */
  method CompareArraysM(xs: seq<Json>, ys: seq<Json>) returns (diff: seq<JsonDiff>)
    ensures diff == EntriesFrom(xs, ys, Lcs(xs, ys), 0, 0, 0)
    decreases Size(JArr(xs)), 3
  {
    diff := WalkLoop(xs, ys, Lcs(xs, ys));
  }

  /** The `for` loop over the LCS indices (lines 121-155) for a given common subsequence. */
  method WalkLoop(xs: seq<Json>, ys: seq<Json>, lcs: seq<Json>) returns (diff: seq<JsonDiff>)
    ensures diff == EntriesFrom(xs, ys, lcs, 0, 0, 0)
    decreases Size(JArr(xs)), 2
  {
    diff := [];
    ghost var whole := EntriesFrom(xs, ys, lcs, 0, 0, 0);
    var ai, bi := 0, 0;
    var i := 0;
    while i <= |lcs|
      invariant i <= |lcs| + 1
      invariant diff + EntriesFrom(xs, ys, lcs, i, ai, bi) == whole
      decreases |lcs| + 1 - i
    {
      diff, ai, bi := Round(xs, ys, lcs, i, ai, bi, diff, whole);
      i := i + 1;
    }
    EntriesDone(xs, ys, lcs, i, ai, bi);
  }

  /** One round of the `for` loop (lines 124-154): the two inner loops, the `common` entry
      for `LCS[i]` when there is one, and both cursors stepping past it. */
  method Round(xs: seq<Json>, ys: seq<Json>, lcs: seq<Json>, i: nat, ai0: nat, bi0: nat,
               diff0: seq<JsonDiff>, ghost whole: seq<JsonDiff>)
    returns (diff: seq<JsonDiff>, ai: nat, bi: nat)
    requires i <= |lcs|
    requires diff0 + EntriesFrom(xs, ys, lcs, i, ai0, bi0) == whole
    ensures diff + EntriesFrom(xs, ys, lcs, i + 1, ai, bi) == whole
    decreases Size(JArr(xs)), 1
  {
    diff, ai, bi := MismatchRun(xs, ys, lcs, i, ai0, bi0, diff0, whole);
    diff, ai := AddedRun(xs, ys, lcs, i, ai, bi, diff, whole);
    var common := if i < |lcs| then [Leaf(Common(lcs[i]))] else [];
    EntriesAnchor(xs, ys, lcs, i, ai, bi, diff, common, whole);
    diff := diff + common;
    bi := bi + 1;
    ai := ai + 1;
  }

  /** The first inner loop of a round (lines 124-137): while the base element is not the
      LCS element, pair it with a non-matching actual element or report it removed. */
  method MismatchRun(xs: seq<Json>, ys: seq<Json>, lcs: seq<Json>, i: nat, ai0: nat, bi0: nat,
                     diff0: seq<JsonDiff>, ghost whole: seq<JsonDiff>)
    returns (diff: seq<JsonDiff>, ai: nat, bi: nat)
    requires i <= |lcs|
    requires diff0 + EntriesFrom(xs, ys, lcs, i, ai0, bi0) == whole
    ensures !(bi < |ys| && !EqualAt(lcs, i, ys[bi]))
    ensures diff + EntriesFrom(xs, ys, lcs, i, ai, bi) == whole
    decreases Size(JArr(xs)), 0
  {
    diff := diff0;
    ai, bi := ai0, bi0;
    while bi < |ys| && !EqualAt(lcs, i, ys[bi])
      invariant diff + EntriesFrom(xs, ys, lcs, i, ai, bi) == whole
      decreases |ys| - bi
    {
      if ai < |xs| && !EqualAt(lcs, i, xs[ai]) {
        ItemSize(xs, ai);
        var sub := CompareM(Some(xs[ai]), Some(ys[bi]));
        EntriesPaired(xs, ys, lcs, i, ai, bi, diff, sub, whole);
        diff := diff + [sub];
        ai := ai + 1;
      } else {
        EntriesRemoved(xs, ys, lcs, i, ai, bi, diff, whole);
        diff := diff + [Leaf(Removed(ys[bi]))];
      }
      bi := bi + 1;
    }
  }

  /** The second inner loop of a round (lines 138-146): report actual elements that are not
      the LCS element as added. */
  method AddedRun(xs: seq<Json>, ys: seq<Json>, lcs: seq<Json>, i: nat, ai0: nat, bi: nat,
                  diff0: seq<JsonDiff>, ghost whole: seq<JsonDiff>)
    returns (diff: seq<JsonDiff>, ai: nat)
    requires i <= |lcs| && !(bi < |ys| && !EqualAt(lcs, i, ys[bi]))
    requires diff0 + EntriesFrom(xs, ys, lcs, i, ai0, bi) == whole
    ensures !(ai < |xs| && !EqualAt(lcs, i, xs[ai]))
    ensures diff + EntriesFrom(xs, ys, lcs, i, ai, bi) == whole
  {
    diff := diff0;
    ai := ai0;
    while ai < |xs| && !EqualAt(lcs, i, xs[ai])
      invariant diff + EntriesFrom(xs, ys, lcs, i, ai, bi) == whole
      decreases |xs| - ai
    {
      EntriesAdded(xs, ys, lcs, i, ai, bi, diff, whole);
      diff := diff + [Leaf(Added(xs[ai]))];
      ai := ai + 1;
    }
  }

  /** The object branch of compare_ (lines 165-176): for-in over the base keys, then over
      the actual keys not yet in the `Map`. */
  method CompareObjectsM(af: seq<(string, Json)>, bf: seq<(string, Json)>) returns (diff: seq<(string, JsonDiff)>)
    ensures diff == ActualLoop(af, 0, BaseLoop(af, bf, 0, []))
    decreases Size(JObj(af)), 0
  {
    diff := [];
    for k := 0 to |bf|
      invariant BaseLoop(af, bf, k, diff) == BaseLoop(af, bf, 0, [])
    {
      var key := bf[k].0;
      GetSize(af, key);
      var sub := CompareM(Get(af, key), Some(bf[k].1));
      diff := Put(diff, key, sub);
    }
    for k := 0 to |af|
      invariant ActualLoop(af, k, diff) == ActualLoop(af, 0, BaseLoop(af, bf, 0, []))
    {
      var key := af[k].0;
      if Get(diff, key).None? {
        FieldSize(af, k);
        var sub := CompareM(Some(af[k].1), None);
        diff := Put(diff, key, sub);
      }
    }
  }

  /** `isModified`: some leaf of the diff is not `common`. */
  function IsModified(d: JsonDiff): (m: bool)
    ensures d.DArr? && d.entries == [] ==> !m
    ensures d.DMap? && d.fields == [] ==> !m
    decreases d
  {
    match d
    case DArr(es) => exists i | 0 <= i < |es| :: IsModified(es[i])
    case DMap(fs) => exists i | 0 <= i < |fs| :: IsModified(fs[i].1)
    case Leaf(r) => !r.Common?
  }
}
