/** `apply` of json_diff.ts: replaying a diff tree onto a third value, with the `conflict`
    flag that its inner `applyDiff` sets. The specification functions (`Applied` and its two
    loops) describe the result and whether a conflict was flagged; the class `Applier`
    mirrors the source's loops and its captured `conflict` variable, and is proved against them. */
module JsonDiffApply {
  import opened Optional
  import opened JsonValue
  import opened Diff
  import opened JsonDiff
  import opened JsonDiffProps

  /** `target[j]`: the element at `j`, or `undefined` past the end. */
  function At(ts: seq<Json>, j: nat): (r: Option<Json>)
    ensures r.Some? <==> j < |ts|
    ensures r.Some? ==> r.value == ts[j]
  {
    if j < |ts| then Some(ts[j]) else None
  }

  /** The elements of `ts` from position `j` on (none when `j` is past the end). */
  function Drop(ts: seq<Json>, j: nat): (r: seq<Json>)
    ensures j <= |ts| ==> r == ts[j..]
    ensures j >= |ts| ==> r == []
  {
    if j <= |ts| then ts[j..] else []
  }

  /** `applyDiff(diff, target)`: the result (`None` for `undefined`) and whether this call
      flagged a conflict. */
  function Applied(d: JsonDiff, target: Option<Json>): (Option<Json>, bool)
    decreases d, 2
  {
    match d
    case DArr(_) =>
      if target.Some? && target.value.JArr? then
        var (res, c) := AppliedArray(d, target.value.items, 0, 0);
        (Some(JArr(res)), c)
      else (target, false)
    case DMap(_) =>
      if target.Some? && target.value.JObj? then
        var (fs, c) := AppliedMap(d, target.value.fields, 0);
        (Some(JObj(fs)), c)
      else (target, false)
    case Leaf(r) =>
      match r
      case Common(_) => (target, false)
      case Added(v) => (Some(v), false)
      case Updated(v, _) => (Some(v), true)
      case Removed(_) => (None, false)
  }

  /** One entry of an array diff against the target element `tj` at the cursor (lines 29-49):
      what it pushes, whether it flags a conflict, and whether the cursor moves on. A nested
      diff whose result is `undefined` pushes nothing. */
  function ArrayStep(e: JsonDiff, tj: Option<Json>): (r: (seq<Json>, bool, bool))
    decreases e, 3
  {
    match e
    case Leaf(Common(_)) => (if TruthyOpt(tj) then [tj.value] else [], false, true)
    case Leaf(Updated(v, o)) =>
      var kept := if TruthyOpt(tj) then [tj.value] else [];
      if !EqualOpt(Some(o), tj) && !EqualOpt(Some(v), tj) then (kept + [v], true, true)
      else (kept, false, true)
    case Leaf(Added(v)) => ([v], false, false)
    case Leaf(Removed(_)) => ([], false, false)
    case _ =>
      var (sub, c) := Applied(e, tj);
      (if sub.Some? then [sub.value] else [], c, true)
  }

  /** The array loop of applyDiff (lines 26-54) from entry `i` with the target cursor at `j`:
      what it pushes, including the target's remaining elements, and whether it conflicts. */
  function AppliedArray(d: JsonDiff, ts: seq<Json>, i: nat, j: nat): (seq<Json>, bool)
    requires d.DArr?
    decreases d, 1, |d.entries| - i
  {
    if i >= |d.entries| then (Drop(ts, j), false)
    else
      var (pushed, c, advance) := ArrayStep(d.entries[i], At(ts, j));
      var (rest, c') := AppliedArray(d, ts, i + 1, if advance then j + 1 else j);
      (pushed + rest, c || c')
  }

  /** Lines 62-64: `target[key] = result`, or `delete target[key]` when the result is
      `undefined`. Afterwards reading the key gives the result, and no other key changes. */
  function Store(tf: seq<(string, Json)>, key: string, r: Option<Json>): (w: seq<(string, Json)>)
    ensures Get(w, key) == r
    ensures forall k | k != key :: Get(w, k) == Get(tf, k)
  {
    if r.Some? then Put(tf, key, r.value) else Remove(tf, key)
  }

  /** The map loop of applyDiff (lines 61-65) from entry `k`, on the target's fields `tf`:
      each key's value is replaced by the nested result, or deleted when that is `undefined`. */
  function AppliedMap(d: JsonDiff, tf: seq<(string, Json)>, k: nat): (seq<(string, Json)>, bool)
    requires d.DMap?
    decreases d, 1, |d.fields| - k
  {
    if k >= |d.fields| then (tf, false)
    else
      var key := d.fields[k].0;
      var (r, c) := Applied(d.fields[k].1, Get(tf, key));
      var next := Store(tf, key, r);
      var (fin, c') := AppliedMap(d, next, k + 1);
      (fin, c || c')
  }

  /** The state of one `apply` call: the `conflict` variable that applyDiff captures. */
  class Applier {
    var conflict: bool

    constructor()
      ensures !conflict
    {
      conflict := false;
    }

    /** `applyDiff`: returns the merged value and raises `conflict` exactly when the
        specification says this call conflicts; a raised flag is never lowered. */
    method ApplyDiff(d: JsonDiff, target: Option<Json>) returns (r: Option<Json>)
      modifies this
      ensures r == Applied(d, target).0
      ensures conflict == (old(conflict) || Applied(d, target).1)
      decreases d, 2
    {
      match d
      case DArr(_) =>
        if target.Some? && target.value.JArr? {
          var res := ApplyArray(d, target.value.items);
          return Some(JArr(res));
        }
        return target;
      case DMap(_) =>
        if target.Some? && target.value.JObj? {
          var fs := ApplyMap(d, target.value.fields);
          return Some(JObj(fs));
        }
        return target;
      case Leaf(res) =>
        if res.Common? {
          return target;
        }
        if res.Added? {
          return Some(res.value);
        }
        if res.Updated? {
          conflict := true;
          return Some(res.value);
        }
        return None;
    }

    /** The array branch: cursor `i` over the diff, cursor `j` over the target, `j`
        stepped back for `added` and `removed` entries before the shared `j++`. */
    method ApplyArray(d: JsonDiff, ts: seq<Json>) returns (res: seq<Json>)
      requires d.DArr?
      modifies this
      ensures res == AppliedArray(d, ts, 0, 0).0
      ensures conflict == (old(conflict) || AppliedArray(d, ts, 0, 0).1)
      decreases d, 1
    {
      var es := d.entries;
      ghost var total := (AppliedArray(d, ts, 0, 0).0, old(conflict) || AppliedArray(d, ts, 0, 0).1);
      res := [];
      var j: int := 0;
      var i := 0;
      while i < |es|
        invariant 0 <= i <= |es| && 0 <= j
        invariant res + AppliedArray(d, ts, i, j).0 == total.0
        invariant (conflict || AppliedArray(d, ts, i, j).1) == total.1
        decreases |es| - i
      {
        ArrayStepAcc(d, ts, i, j, res, conflict, total);
        var pushed, advance := ApplyEntry(es[i], At(ts, j));
        res := res + pushed;
        if !advance {
          j := j - 1;
        }
        i, j := i + 1, j + 1;
      }
      res := ApplyTail(ts, j, res);
    }

    /** The tail loop (lines 51-53): the target's elements from the cursor on, appended
        unchanged. */
    static method ApplyTail(ts: seq<Json>, j0: nat, res0: seq<Json>) returns (res: seq<Json>)
      ensures res == res0 + Drop(ts, j0)
    {
      res := res0;
      var j := j0;
      while j < |ts|
        invariant res + Drop(ts, j) == res0 + Drop(ts, j0)
        decreases |ts| - j
      {
        assert Drop(ts, j) == [ts[j]] + Drop(ts, j + 1);
        res := res + [ts[j]];
        j := j + 1;
      }
    }

    /** One entry of the array loop (lines 29-49) against the target element at the cursor:
        what it pushes, and `false` for `advance` where the source does `j--`. */
    method ApplyEntry(current: JsonDiff, tj: Option<Json>) returns (pushed: seq<Json>, advance: bool)
      modifies this
      ensures pushed == ArrayStep(current, tj).0 && advance == ArrayStep(current, tj).2
      ensures conflict == (old(conflict) || ArrayStep(current, tj).1)
      decreases current, 3
    {
      pushed, advance := [], true;
      if current.DArr? || current.DMap? {
        var sub := ApplyDiff(current, tj);
        if sub.Some? {
          pushed := [sub.value];
        }
      } else if current.result.Common? && TruthyOpt(tj) {
        pushed := [tj.value];
      } else if current.result.Updated? {
        if TruthyOpt(tj) {
          pushed := [tj.value];
        }
        if !EqualOpt(Some(current.result.oldValue), tj) && !EqualOpt(Some(current.result.value), tj) {
          pushed := pushed + [current.result.value];
          conflict := true;
        }
      } else if current.result.Added? {
        pushed := [current.result.value];
        advance := false;
      } else if current.result.Removed? {
        advance := false;
      }
    }

    /** The map branch: each diff key in the `Map`'s order, writing or deleting that key. */
    method ApplyMap(d: JsonDiff, tf: seq<(string, Json)>) returns (fs: seq<(string, Json)>)
      requires d.DMap?
      modifies this
      ensures fs == AppliedMap(d, tf, 0).0
      ensures conflict == (old(conflict) || AppliedMap(d, tf, 0).1)
      decreases d, 1
    {
      fs := tf;
      for k := 0 to |d.fields|
        invariant AppliedMap(d, fs, k).0 == AppliedMap(d, tf, 0).0
        invariant (conflict || AppliedMap(d, fs, k).1) == (old(conflict) || AppliedMap(d, tf, 0).1)
      {
        var key := d.fields[k].0;
        var result := ApplyDiff(d.fields[k].1, Get(fs, key));
        if result.Some? {
          fs := Put(fs, key, result.value);
        } else {
          fs := Remove(fs, key);
        }
      }
    }
  }

  /** One step of the array loop, for what was pushed so far (`res`) and the flag so far (`c`):
      pushing the entry's elements and raising its conflict keeps the totals. */
  lemma ArrayStepAcc(d: JsonDiff, ts: seq<Json>, i: nat, j: nat, res: seq<Json>, c: bool, total: (seq<Json>, bool))
    requires d.DArr? && i < |d.entries|
    requires res + AppliedArray(d, ts, i, j).0 == total.0
    requires (c || AppliedArray(d, ts, i, j).1) == total.1
    ensures var s := ArrayStep(d.entries[i], At(ts, j));
            var next := if s.2 then j + 1 else j;
            (res + s.0) + AppliedArray(d, ts, i + 1, next).0 == total.0
            && ((c || s.1) || AppliedArray(d, ts, i + 1, next).1) == total.1
  {
    var s := ArrayStep(d.entries[i], At(ts, j));
    var next := if s.2 then j + 1 else j;
    assert AppliedArray(d, ts, i, j).0 == s.0 + AppliedArray(d, ts, i + 1, next).0;
  }

  /** `apply(diff, target)`: the merged value (`None` when a top-level `removed` leaf makes it
      `undefined`) and the conflict flag. */
  method Apply(d: JsonDiff, target: Json) returns (merged: Option<Json>, conflict: bool)
    ensures (merged, conflict) == Applied(d, Some(target))
  {
    var applier := new Applier();
    merged := applier.ApplyDiff(d, Some(target));
    conflict := applier.conflict;
  }

  // ---------------------------------------------------------------------------
  // Properties of apply

  /** Leaves outside arrays (lines 69-77), and array or map diffs on a target of another kind
      (lines 56, 67): `common` keeps the target, `added` gives its value, `updated` gives its new
      value and always conflicts, `removed` gives `undefined`; a wrong-kind target is returned as is. */
  lemma AppliedKinds(d: JsonDiff, target: Option<Json>)
    ensures d.Leaf? && d.result.Common? ==> Applied(d, target) == (target, false)
    ensures d.Leaf? && d.result.Added? ==> Applied(d, target) == (Some(d.result.value), false)
    ensures d.Leaf? && d.result.Updated? ==> Applied(d, target) == (Some(d.result.value), true)
    ensures d.Leaf? && d.result.Removed? ==> Applied(d, target) == (None, false)
    ensures d.DArr? && !(target.Some? && target.value.JArr?) ==> Applied(d, target) == (target, false)
    ensures d.DMap? && !(target.Some? && target.value.JObj?) ==> Applied(d, target) == (target, false)
  {
  }

  /** Leaves inside arrays (lines 33-48): `common` pushes the target element only when it is
      truthy; `updated` pushes a truthy target element and conflicts exactly when that element
      equals neither the old nor the new value, pushing the new value then; `added` pushes its
      value; only `added` and `removed` keep the cursor where it is. */
  lemma ArrayStepRules(e: JsonDiff, tj: Option<Json>)
    ensures e.Leaf? && e.result.Common? ==>
              ArrayStep(e, tj) == (if TruthyOpt(tj) then [tj.value] else [], false, true)
    ensures e.Leaf? && e.result.Updated? ==>
              (ArrayStep(e, tj).1 <==> !EqualOpt(Some(e.result.oldValue), tj) && !EqualOpt(Some(e.result.value), tj))
    ensures e.Leaf? && e.result.Updated? && ArrayStep(e, tj).1 ==>
              ArrayStep(e, tj).0 == (if TruthyOpt(tj) then [tj.value] else []) + [e.result.value]
    ensures e.Leaf? && e.result.Updated? && !ArrayStep(e, tj).1 ==>
              ArrayStep(e, tj).0 == (if TruthyOpt(tj) then [tj.value] else [])
    ensures !e.Leaf? ==>
              ArrayStep(e, tj) == (if Applied(e, tj).0.Some? then [Applied(e, tj).0.value] else [], Applied(e, tj).1, true)
    ensures e.Leaf? && e.result.Added? ==> ArrayStep(e, tj) == ([e.result.value], false, false)
    ensures e.Leaf? && e.result.Removed? ==> ArrayStep(e, tj) == ([], false, false)
    ensures ArrayStep(e, tj).2 <==> Advances(e)
  {
  }

  /** The entry moves the target cursor on: every entry except an `added` or `removed` leaf. */
  predicate Advances(e: JsonDiff)
  {
    !(e.Leaf? && (e.result.Added? || e.result.Removed?))
  }

  /** Where the target cursor ends after entries `i..` starting at `j`. */
  function FinalCursor(es: seq<JsonDiff>, i: nat, j: nat): (c: nat)
    ensures j <= c
    decreases |es| - i
  {
    if i >= |es| then j else FinalCursor(es, i + 1, if Advances(es[i]) then j + 1 else j)
  }

  /** The merged array ends with the target's elements from the final cursor on (lines 51-53). */
  lemma {:induction false} AppliedArrayTail(d: JsonDiff, ts: seq<Json>, i: nat, j: nat)
    requires d.DArr?
    ensures var r := AppliedArray(d, ts, i, j).0;
            var tail := Drop(ts, FinalCursor(d.entries, i, j));
            |tail| <= |r| && r[|r| - |tail|..] == tail
    decreases |d.entries| - i
  {
    if i < |d.entries| {
      ArrayStepRules(d.entries[i], At(ts, j));
      var step := ArrayStep(d.entries[i], At(ts, j));
      var j' := if step.2 then j + 1 else j;
      AppliedArrayTail(d, ts, i + 1, j');
      var rest := AppliedArray(d, ts, i + 1, j').0;
      var tail := Drop(ts, FinalCursor(d.entries, i + 1, j'));
      assert (step.0 + rest)[|step.0 + rest| - |tail|..] == rest[|rest| - |tail|..];
    }
  }

  /** Only insertions and deletions: the diff's entries are all `added` or `removed` leaves. */
  predicate InsertionsOnly(es: seq<JsonDiff>)
  {
    forall k | 0 <= k < |es| :: es[k].Leaf? && (es[k].result.Added? || es[k].result.Removed?)
  }

  /** The values of the `added` leaves, in order. */
  function AddedValues(es: seq<JsonDiff>): seq<Json>
  {
    if es == [] then []
    else (if es[0].Leaf? && es[0].result.Added? then [es[0].result.value] else []) + AddedValues(es[1..])
  }

  /** With only `added` and `removed` entries the cursor never moves: the added values come
      first, then the whole target, and nothing conflicts; `removed` entries delete nothing. */
  lemma {:induction false} AppliedInsertions(d: JsonDiff, ts: seq<Json>, i: nat)
    requires d.DArr? && i <= |d.entries| && InsertionsOnly(d.entries)
    ensures AppliedArray(d, ts, i, 0) == (AddedValues(d.entries[i..]) + ts, false)
    decreases |d.entries| - i
  {
    var es := d.entries;
    if i < |es| {
      AppliedInsertions(d, ts, i + 1);
      ArrayStepRules(es[i], At(ts, 0));
      var front := if es[i].result.Added? then [es[i].result.value] else [];
      assert ArrayStep(es[i], At(ts, 0)) == (front, false, false);
      assert AppliedArray(d, ts, i, 0) == (front + AppliedArray(d, ts, i + 1, 0).0, AppliedArray(d, ts, i + 1, 0).1);
      assert es[i..][1..] == es[i + 1..];
      assert AddedValues(es[i..]) == front + AddedValues(es[i + 1..]);
      assert front + (AddedValues(es[i + 1..]) + ts) == (front + AddedValues(es[i + 1..])) + ts;
    } else {
      assert es[i..] == [];
      assert AddedValues(es[i..]) == [];
      assert Drop(ts, 0) == ts;
      assert AppliedArray(d, ts, i, 0) == (ts, false);
      assert AddedValues(es[i..]) + ts == ts;
    }
  }

  /** Some leaf of the diff is `updated`. */
  predicate HasUpdate(d: JsonDiff)
    decreases d
  {
    match d
    case DArr(es) => exists i | 0 <= i < |es| :: HasUpdate(es[i])
    case DMap(fs) => exists i | 0 <= i < |fs| :: HasUpdate(fs[i].1)
    case Leaf(r) => r.Updated?
  }

  /** A conflict is only ever flagged because of an `updated` leaf. */
  lemma {:induction false} ConflictNeedsUpdate(d: JsonDiff, target: Option<Json>)
    ensures Applied(d, target).1 ==> HasUpdate(d)
    decreases d, 2
  {
    match d
    case DArr(es) =>
      if target.Some? && target.value.JArr? { ArrayConflictNeedsUpdate(d, target.value.items, 0, 0); }
    case DMap(fs) =>
      if target.Some? && target.value.JObj? { MapConflictNeedsUpdate(d, target.value.fields, 0); }
    case Leaf(_) =>
  }

  lemma {:induction false} ArrayConflictNeedsUpdate(d: JsonDiff, ts: seq<Json>, i: nat, j: nat)
    requires d.DArr?
    ensures AppliedArray(d, ts, i, j).1 ==> exists k | i <= k < |d.entries| :: HasUpdate(d.entries[k])
    decreases d, 1, |d.entries| - i
  {
    if i < |d.entries| {
      var e := d.entries[i];
      var step := ArrayStep(e, At(ts, j));
      ArrayConflictNeedsUpdate(d, ts, i + 1, if step.2 then j + 1 else j);
      if !e.Leaf? { ConflictNeedsUpdate(e, At(ts, j)); }
    }
  }

  lemma {:induction false} MapConflictNeedsUpdate(d: JsonDiff, tf: seq<(string, Json)>, k: nat)
    requires d.DMap?
    ensures AppliedMap(d, tf, k).1 ==> exists m | k <= m < |d.fields| :: HasUpdate(d.fields[m].1)
    decreases d, 1, |d.fields| - k
  {
    if k < |d.fields| {
      var key := d.fields[k].0;
      var r := Applied(d.fields[k].1, Get(tf, key));
      ConflictNeedsUpdate(d.fields[k].1, Get(tf, key));
      MapConflictNeedsUpdate(d, Store(tf, key, r.0), k + 1);
    }
  }

  /** An unmodified diff has no `updated` leaf, so applying it never conflicts. */
  lemma {:induction false} UnmodifiedNoConflict(d: JsonDiff, target: Option<Json>)
    requires !IsModified(d)
    ensures !Applied(d, target).1
  {
    UnmodifiedNoUpdate(d);
    ConflictNeedsUpdate(d, target);
  }

  lemma {:induction false} UnmodifiedNoUpdate(d: JsonDiff)
    ensures HasUpdate(d) ==> IsModified(d)
    decreases d
  {
    match d
    case DArr(es) =>
      forall i | 0 <= i < |es| ensures HasUpdate(es[i]) ==> IsModified(es[i]) { UnmodifiedNoUpdate(es[i]); }
    case DMap(fs) =>
      forall i | 0 <= i < |fs| ensures HasUpdate(fs[i].1) ==> IsModified(fs[i].1) { UnmodifiedNoUpdate(fs[i].1); }
    case Leaf(_) =>
  }

  /** An `updated` leaf directly under a map diff applied to an object always conflicts. */
  lemma {:induction false} MapUpdateConflicts(d: JsonDiff, tf: seq<(string, Json)>, k: nat, n: nat)
    requires d.DMap? && k <= n < |d.fields|
    requires d.fields[n].1.Leaf? && d.fields[n].1.result.Updated?
    ensures AppliedMap(d, tf, k).1
    decreases n - k
  {
    var key := d.fields[k].0;
    var r := Applied(d.fields[k].1, Get(tf, key));
    assert AppliedMap(d, tf, k).1 == (r.1 || AppliedMap(d, Store(tf, key, r.0), k + 1).1);
    if k < n {
      MapUpdateConflicts(d, Store(tf, key, r.0), k + 1, n);
    } else {
      assert r.1;
    }
  }

  /** Map-diff keys are the only keys applyDiff touches: any other key keeps its value. */
  lemma {:induction false} AppliedMapOther(d: JsonDiff, tf: seq<(string, Json)>, k: nat, key: string)
    requires d.DMap?
    requires forall m | k <= m < |d.fields| :: d.fields[m].0 != key
    ensures Get(AppliedMap(d, tf, k).0, key) == Get(tf, key)
    decreases |d.fields| - k
  {
    if k < |d.fields| {
      var key' := d.fields[k].0;
      var r := Applied(d.fields[k].1, Get(tf, key'));
      AppliedMapOther(d, Store(tf, key', r.0), k + 1, key);
    }
  }

  /** Each key of a map diff (keys distinct, as in a `Map`) ends up with what its own entry
      gives when applied to the target's value for that key, or is deleted when that is `undefined`. */
  lemma {:induction false} AppliedMapKey(d: JsonDiff, tf: seq<(string, Json)>, k: nat, n: nat)
    requires d.DMap? && DistinctKeys(d.fields) && k <= n < |d.fields|
    ensures Get(AppliedMap(d, tf, k).0, d.fields[n].0) == Applied(d.fields[n].1, Get(tf, d.fields[n].0)).0
    decreases n - k
  {
    var key := d.fields[k].0;
    var r := Applied(d.fields[k].1, Get(tf, key));
    var next := Store(tf, key, r.0);
    assert AppliedMap(d, tf, k).0 == AppliedMap(d, next, k + 1).0;
    if k < n {
      assert d.fields[n].0 != key by {
        assert KeysOf(d.fields)[k] == key && KeysOf(d.fields)[n] == d.fields[n].0;
      }
      AppliedMapKey(d, next, k + 1, n);
    } else {
      forall m | k + 1 <= m < |d.fields| ensures d.fields[m].0 != key {
        DistinctKeysAt(d.fields, k, m);
      }
      AppliedMapOther(d, next, k + 1, key);
    }
  }

  /** apply of a map diff onto an object: keys the diff does not name keep their values, and
      each key it names gets its entry applied to that key's old value. */
  lemma ApplyMapKeys(d: JsonDiff, tf: seq<(string, Json)>)
    requires d.DMap? && DistinctKeys(d.fields)
    ensures Applied(d, Some(JObj(tf))).0.Some? && Applied(d, Some(JObj(tf))).0.value.JObj?
    ensures forall key | key !in KeysOf(d.fields) ::
              Get(Applied(d, Some(JObj(tf))).0.value.fields, key) == Get(tf, key)
    ensures forall n | 0 <= n < |d.fields| ::
              Get(Applied(d, Some(JObj(tf))).0.value.fields, d.fields[n].0)
              == Applied(d.fields[n].1, Get(tf, d.fields[n].0)).0
  {
    forall key | key !in KeysOf(d.fields)
      ensures Get(AppliedMap(d, tf, 0).0, key) == Get(tf, key)
    {
      forall m | 0 <= m < |d.fields| ensures d.fields[m].0 != key { assert KeysOf(d.fields)[m] == d.fields[m].0; }
      AppliedMapOther(d, tf, 0, key);
    }
    forall n | 0 <= n < |d.fields|
      ensures Get(AppliedMap(d, tf, 0).0, d.fields[n].0) == Applied(d.fields[n].1, Get(tf, d.fields[n].0)).0
    {
      AppliedMapKey(d, tf, 0, n);
    }
  }

  // ---------------------------------------------------------------------------
  // Worked example: base [1, 2, 3] changed to actual [1, 3, 4], the diff applied back onto [1, 2, 3]

  /** Applied back onto [1, 2, 3] the `removed` entry does not move the cursor, so the old 2
      is kept, the 4 goes in before the 3, and the 3 comes back as the remaining tail. */
  lemma ExampleApply()
    ensures Applied(DArr([Leaf(Common(JNum(1))), Leaf(Removed(JNum(2))), Leaf(Common(JNum(3))), Leaf(Added(JNum(4)))]),
                    Some(JArr([JNum(1), JNum(2), JNum(3)])))
         == (Some(JArr([JNum(1), JNum(2), JNum(4), JNum(3)])), false)
  {
    var d := DArr([Leaf(Common(JNum(1))), Leaf(Removed(JNum(2))), Leaf(Common(JNum(3))), Leaf(Added(JNum(4)))]);
    var ts := [JNum(1), JNum(2), JNum(3)];
    assert AppliedArray(d, ts, 4, 2) == ([JNum(3)], false);
    assert ArrayStep(d.entries[3], At(ts, 2)) == ([JNum(4)], false, false);
    assert [JNum(4)] + [JNum(3)] == [JNum(4), JNum(3)];
    assert AppliedArray(d, ts, 3, 2) == ([JNum(4), JNum(3)], false);
    assert ArrayStep(d.entries[2], At(ts, 1)) == ([JNum(2)], false, true);
    assert [JNum(2)] + [JNum(4), JNum(3)] == [JNum(2), JNum(4), JNum(3)];
    assert AppliedArray(d, ts, 2, 1) == ([JNum(2), JNum(4), JNum(3)], false);
    assert ArrayStep(d.entries[1], At(ts, 1)) == ([], false, false);
    assert [] + [JNum(2), JNum(4), JNum(3)] == [JNum(2), JNum(4), JNum(3)];
    assert AppliedArray(d, ts, 1, 1) == ([JNum(2), JNum(4), JNum(3)], false);
    assert ArrayStep(d.entries[0], At(ts, 0)) == ([JNum(1)], false, true);
    assert [JNum(1)] + [JNum(2), JNum(4), JNum(3)] == [JNum(1), JNum(2), JNum(4), JNum(3)];
  }

  /** A `common` entry copies the target element only when it is truthy: the diff of [0]
      with itself, applied back onto [0], drops the 0. */
  lemma ExampleFalsyCommon()
    ensures Applied(Compare(JArr([JNum(0)]), JArr([JNum(0)])), Some(JArr([JNum(0)]))) == (Some(JArr([])), false)
  {
    var xs := [JNum(0)];
    LcsSelf(xs);
    assert Walk(xs, xs, xs, 1, 1, 1) == [];
    assert Walk(xs, xs, xs, 0, 0, 0) == [Anchor(0, 0, 0)];
    var d := DArr([Leaf(Common(JNum(0)))]);
    ArrayEntriesAt(xs, xs, xs, [Anchor(0, 0, 0)]);
    assert Compare(JArr(xs), JArr(xs)) == d;
    assert AppliedArray(d, xs, 1, 1) == ([], false);
  }

  /** Applying that diff onto the unchanged base {a: 1, b: 2} gives {a: 1, b: 3, c: 4} but
      flags a conflict: an `updated` leaf under a map always does. */
  lemma ExampleMapApply()
    ensures Applied(DMap([("a", Leaf(Common(JNum(1)))), ("b", Leaf(Updated(JNum(3), JNum(2)))), ("c", Leaf(Added(JNum(4))))]),
                    Some(JObj([("a", JNum(1)), ("b", JNum(2))])))
         == (Some(JObj([("a", JNum(1)), ("b", JNum(3)), ("c", JNum(4))])), true)
  {
    var d := DMap([("a", Leaf(Common(JNum(1)))), ("b", Leaf(Updated(JNum(3), JNum(2)))), ("c", Leaf(Added(JNum(4))))]);
    var t0 := [("a", JNum(1)), ("b", JNum(2))];
    var t1 := [("a", JNum(1)), ("b", JNum(2))];
    var t2 := [("a", JNum(1)), ("b", JNum(3))];
    var t3 := [("a", JNum(1)), ("b", JNum(3)), ("c", JNum(4))];
    assert Get(t0, "a") == Some(JNum(1));
    assert Put(t0, "a", JNum(1)) == t1;
    assert Get(t1, "b") == Some(JNum(2));
    assert Put(t1, "b", JNum(3)) == t2;
    assert Get(t2, "c") == None;
    assert Put(t2, "c", JNum(4)) == t3;
    assert AppliedMap(d, t3, 3) == (t3, false);
    assert AppliedMap(d, t2, 2) == (t3, false);
    assert AppliedMap(d, t1, 1) == (t3, true);
  }
}
