# JSON diff and CLI option checks of nest.land's CLI, in Dafny

This project models two parts of the nest.land command-line tool.

- **`src/cli/processing/json_diff.ts`** computes, applies and prints a structural diff of
  two JSON documents. The CLI uses it to reconcile the local module configuration with the
  one on the registry.
  - `compare` walks arrays along a longest common subsequence and objects key by key. Each
    leaf becomes `common`, `added`, `removed` or `updated`.
  - `apply` replays a diff onto a target document. It reports a conflict flag alongside the
    merged document.
  - `isModified` tells whether a diff holds any change.
  - `print_` lays the diff out as indented lines.
- **`src/utilities/cli.ts`** handles CLI options.
  - It turns `"-s, --long"` option flags into the alias record and the list of known flag
    names.
  - It spells an option key as `-k` or `--key`.
  - It rejects unknown options and surplus arguments with a `NestCLIError`.

JSON values are the datatype `JsonValue.Json`.

- An object is a sequence of `(key, value)` fields in insertion order.
- `Put` overwrites a key in place or appends it. This is what `obj[key] = v` and
  `Map.set` do.
- `Remove` deletes a key. The other fields keep their order.
- `Truthy` is JavaScript truthiness. The array loop of `apply` tests it on lines 33 and 36.
- `Optional.Option` stands for `undefined`. `None` is `undefined` and `Some(v)` is a present
  value.

Diffs are `JsonDiff.JsonDiff`: a leaf `DiffResult`, an array of diffs, or a map of diffs kept
as an ordered field sequence.

The source is imperative in places, and so is the model:

- `compare_`'s array and object loops are the methods `JsonDiff.CompareArraysM` and
  `JsonDiff.CompareObjectsM`.
- `apply`'s closure over its `conflict` flag is the class `JsonDiffApply.Applier`, with the
  flag as a field.
- `aliasesFromOptions` and `extractFlags` are the loops `Cli.AliasesFromOptions` and
  `Cli.ExtractFlags`.

Each method is proved equal to a recursive specification function. The properties are
lemmas about those functions. The functions, by source function:

- `compare_` is `JsonDiff.CompareOpt` (lines 98-188), and `compare` is `JsonDiff.Compare`
  (lines 13-15). `Walk` and `ArrayEntries` describe the array loop. `BaseLoop` and
  `ActualLoop` describe the two object loops.
- `applyDiff` is `JsonDiffApply.Applied` (lines 20-78). Its array loop is `AppliedArray`, one
  array entry at a time is `ArrayStep`, its map loop is `AppliedMap`, and a write or delete of
  one key is `Store`.
- `isModified` is `JsonDiff.IsModified` (lines 83-96).
- `print_` is `JsonDiffPrint.Render` (lines 202-224), with its child loops in
  `RenderChildren`.
- `keyToOption` is `Cli.KeyToOption` (cli.ts lines 20-22).
- The records that `aliasesFromOptions` and `extractFlags` build are `Cli.Aliases` and
  `Cli.Flags`.

`diff.ts` is not part of this model. It defines `equal` and `longestCommonSubsequence`, so
both are specified rather than copied:

- `Diff.Equal` is structural equality on JSON values.
- `Diff.EqualOpt` extends it to possibly `undefined` arguments. `undefined` equals only
  `undefined`.
- `Diff.Lcs` is a recursive longest-common-subsequence function. It is proved to be a common
  subsequence of both arrays.

### Where the code differs from an idealised merge

The model follows the code. An idealised three-way merge would do three things that this
code does not, and worked lemmas exhibit each one. The source's comments (lines 12, 17
and 82) promise none of the three.

- **Round trip and array reconciliation.** An idealised merge would have
  `apply(compare(a, b), b)` give back `a` with no conflict.
  - For `b = [1,2,3]` and `a = [1,3,4]`, the diff is `[common 1, removed 2, common 3,
    added 4]` (`JsonDiffProps.ExampleCompare`).
  - Applying it onto `[1,2,3]` gives `[1,2,4,3]`, not `[1,3,4]`
    (`JsonDiffApply.ExampleApply`). A `removed` entry does `j--` (line 48) before the
    loop's shared `j++`, so the target cursor stays where it is. The removed element is then
    copied back in by later steps.
  - A `common` entry copies the target element only when it is truthy (line 33). So
    `Compare([0], [0])` applied onto `[0]` gives `[]`
    (`JsonDiffApply.ExampleFalsyCommon`).
- **Conflict detection.** An idealised merge would apply an `updated` leaf cleanly when the
  target still holds the old value.
  - In the code, an `updated` leaf that is not a direct entry of an array diff always sets
    `conflict` (lines 73-76). This includes such a leaf under a map that is itself inside an
    array (lines 31, 62).
  - So `{a:1, b:2}` changed to `{a:1, b:3, c:4}` and applied back onto `{a:1, b:2}` merges
    correctly but flags a conflict (`JsonDiffProps.ExampleMapCompare`,
    `JsonDiffApply.ExampleMapApply`, `JsonDiffApply.MapUpdateConflicts`).

## Model

| member | source | states |
|---|---|---|
| JsonValue.Put | src/cli/processing/json_diff.ts:169 | after `diff.set(key, v)` / `target[key] = v` the key maps to `v`, every other key keeps its value, a new key is appended at the end and an existing key keeps its place |
| JsonValue.Remove | src/cli/processing/json_diff.ts:64 | after `delete target[key]` the key is absent, every other key keeps its value, no field is invented, and the remaining keys keep their order |
| JsonValue.Truthy | src/cli/processing/json_diff.ts:33-36 | the `if (target[j])` tests: a value is falsy exactly when it is `null`, `false`, `0` or `""`, and every array and object is truthy |
| JsonValue.GetPresent | src/cli/processing/json_diff.ts:167-168 | reading `obj[key]` gives a value exactly when the key is one of the object's keys |
| Diff.EqualRefl | src/cli/processing/json_diff.ts:124-126 | the `equal` the array walk relies on holds between any value and itself |
| Diff.Lcs | src/cli/processing/json_diff.ts:120 | the result of `longestCommonSubsequence(actual, base)` is a subsequence of both arrays, no longer than either |
| Diff.LcsSelf | src/cli/processing/json_diff.ts:120 | the common subsequence of an array with itself is the whole array |
| JsonDiff.CompareM | src/cli/processing/json_diff.ts:98-188 | `compare_` computes the diff that the specification function `CompareOpt` defines, for arrays, objects and scalars |
| JsonDiff.CompareArraysM | src/cli/processing/json_diff.ts:119-156 | the LCS-driven array loop with its two cursors and two inner `while` loops produces the entries of the walk along the LCS |
| JsonDiff.CompareObjectsM | src/cli/processing/json_diff.ts:165-176 | the two `for…in` loops give the diff of the base's keys first, then the keys only the actual object has |
| JsonDiffProps.CompareKinds | src/cli/processing/json_diff.ts:98-118 | absent actual gives `removed base`; absent base gives `added actual`; an array against a non-array and an object against a non-object give `updated` |
| JsonDiffProps.CompareScalars | src/cli/processing/json_diff.ts:178-187 | two present scalars give a leaf that is `common` exactly when they are identical and `updated(actual, base)` otherwise |
| JsonDiffProps.WalkConsumes | src/cli/processing/json_diff.ts:121-155 | the walk visits every base index and every actual index exactly once, in increasing order, and every LCS element once; each anchor lands on positions equal to its LCS element |
| JsonDiffProps.ArrayEntriesAt | src/cli/processing/json_diff.ts:123-155 | one diff entry per step of the walk, in order: pair, removed, added or common |
| JsonDiffProps.CompareArrays | src/cli/processing/json_diff.ts:119-156 | an array diff consumes both arrays completely and in order, and holds a `common` entry for each LCS element |
| JsonDiffProps.NewKeys | src/cli/processing/json_diff.ts:171-175 | the second loop adds exactly the actual object's keys that the base lacks, in the actual object's order, each once |
| JsonDiffProps.BaseLoopBuilds | src/cli/processing/json_diff.ts:166-170 | the first loop yields one entry per base key, comparing `actual[key]` with `base[key]` |
| JsonDiffProps.ActualLoopBuilds | src/cli/processing/json_diff.ts:171-175 | the second loop skips keys already set and appends an `added` entry for each new key |
| JsonDiffProps.CompareObjects | src/cli/processing/json_diff.ts:165-176 | an object diff is the base's keys followed by the new keys, each compared |
| JsonDiffProps.CompareObjectsKeys | src/cli/processing/json_diff.ts:165-176 | an object diff has each key of either object exactly once; a key only in the base is `removed`, a key only in the actual object is `added`, a shared key compares its two values |
| JsonDiff.IsModified | src/cli/processing/json_diff.ts:83-96 | an empty array diff and an empty map diff are unmodified, since both loops return `false` when they find nothing |
| JsonDiffProps.IsModifiedLeaves | src/cli/processing/json_diff.ts:83-96 | `isModified` holds exactly when some leaf of the diff is not `common` |
| JsonDiffProps.CompareSelf | src/cli/processing/json_diff.ts:98-188 | comparing a well-formed value with itself gives an unmodified diff |
| JsonDiffProps.ExampleCompare | src/cli/processing/json_diff.ts:119-156 | `compare([1,3,4], [1,2,3])` is `[common 1, removed 2, common 3, added 4]` |
| JsonDiffProps.ExampleMapCompare | src/cli/processing/json_diff.ts:165-187 | `compare({a:1,b:3,c:4}, {a:1,b:2})` is `{a: common 1, b: updated 3 from 2, c: added 4}` |
| JsonDiffApply.Store | src/cli/processing/json_diff.ts:62-64 | after writing the nested result, or deleting the key when it is `undefined`, reading the key gives that result and every other key is unchanged |
| JsonDiffApply.Applier.constructor | src/cli/processing/json_diff.ts:19 | `apply` starts with no conflict |
| JsonDiffApply.Applier.ApplyDiff | src/cli/processing/json_diff.ts:20-78 | `applyDiff` returns what `Applied` defines, and the flag becomes set exactly when it was set or this application conflicts |
| JsonDiffApply.Applier.ApplyArray | src/cli/processing/json_diff.ts:24-55 | the array loop with its cursor `j` and the tail loop produce `Applied`'s array result and conflict |
| JsonDiffApply.Applier.ApplyEntry | src/cli/processing/json_diff.ts:29-49 | one array entry pushes what `ArrayStep` says and reports whether the cursor advances |
| JsonDiffApply.Applier.ApplyMap | src/cli/processing/json_diff.ts:57-68 | the map loop writes or deletes each diff key in turn, as `AppliedMap` defines |
| JsonDiffApply.Apply | src/cli/processing/json_diff.ts:18-80 | `apply` returns the merged document and the conflict flag that `Applied` defines |
| JsonDiffApply.AppliedKinds | src/cli/processing/json_diff.ts:56-77 | a leaf applies as: common keeps the target, added gives its value, removed gives `undefined`, updated gives its value and always conflicts; an array or map diff on a mismatched target returns the target unchanged |
| JsonDiffApply.ArrayStepRules | src/cli/processing/json_diff.ts:30-48 | per array entry: common pushes a truthy target element; updated conflicts exactly when the target matches neither value, and pushes a truthy target element followed, on a conflict, by the new value; added pushes its value and holds the cursor; removed pushes nothing and holds the cursor; a nested array or map entry pushes the nested result (nothing when it is `undefined`), raises its conflict and advances the cursor |
| JsonDiffApply.AppliedArrayTail | src/cli/processing/json_diff.ts:51-53 | the merged array ends with the target's elements from the final cursor on, unchanged |
| JsonDiffApply.AppliedInsertions | src/cli/processing/json_diff.ts:45-48 | a diff of `added` entries only inserts their values in front of the whole target, with no conflict |
| JsonDiffApply.ConflictNeedsUpdate | src/cli/processing/json_diff.ts:20-78 | a conflict is only ever raised by an `updated` leaf of the diff |
| JsonDiffApply.UnmodifiedNoConflict | src/cli/processing/json_diff.ts:18-96 | applying a diff for which `isModified` is false never raises a conflict |
| JsonDiffApply.MapUpdateConflicts | src/cli/processing/json_diff.ts:57-76 | an `updated` leaf under a map raises a conflict whenever the target is an object |
| JsonDiffApply.AppliedMapOther | src/cli/processing/json_diff.ts:61-65 | keys of the target that the diff does not mention keep their values |
| JsonDiffApply.AppliedMapKey | src/cli/processing/json_diff.ts:61-65 | a diff key ends with the result of applying its entry to the target's old value, or is deleted when that is `undefined` |
| JsonDiffApply.ApplyMapKeys | src/cli/processing/json_diff.ts:57-67 | over a whole map diff with distinct keys: untouched keys are kept and each diff key gets its entry applied |
| JsonDiffApply.ExampleApply | src/cli/processing/json_diff.ts:24-55 | the diff of `[1,2,3]` to `[1,3,4]` applied onto `[1,2,3]` gives `[1,2,4,3]` with no conflict |
| JsonDiffApply.ExampleFalsyCommon | src/cli/processing/json_diff.ts:33-34 | a `common` entry drops a falsy target element: `[0]` diffed against itself and applied to `[0]` gives `[]` |
| JsonDiffApply.ExampleMapApply | src/cli/processing/json_diff.ts:57-76 | `{a: common 1, b: updated 3 from 2, c: added 4}` applied onto `{a:1,b:2}` gives `{a:1,b:3,c:4}` and a conflict |
| JsonDiffPrint.Label | src/cli/processing/json_diff.ts:205 | the `key: ` label is printed exactly when the key is present and non-empty |
| JsonDiffPrint.RenderUpdated | src/cli/processing/json_diff.ts:217-219 | an `updated` leaf prints its old value as removed, then its new value as added, with the same indent and label |
| JsonDiffPrint.RenderIndent | src/cli/processing/json_diff.ts:202-215 | a map or array prints an opening line and a closing line at the current indent; every line between them starts with the indent extended by two spaces, and every line starts with the current indent |
| JsonDiffPrint.RenderShowsLeaves | src/cli/processing/json_diff.ts:202-224 | the value lines printed are exactly the diff's leaves left to right, an update as its removal then its addition |
| Cli.FindSep | src/utilities/cli.ts:11 | the first `", "` at or after a position, or none at all |
| Cli.IncludesIff | src/utilities/cli.ts:11 | `flag.includes(", ")` holds exactly when the separator occurs somewhere |
| Cli.SplitSep | src/utilities/cli.ts:12 | `split(", ")` gives at least one piece, and at least two exactly when the separator occurs |
| Cli.SplitJoin | src/utilities/cli.ts:12 | joining the pieces with `", "` gives the flag back, and no piece contains the separator |
| Cli.AliasesLastWins | src/utilities/cli.ts:6-18 | a short name is aliased exactly when some qualifying option defines it, and to the long name of the last such option |
| Cli.AliasesFromOptions | src/utilities/cli.ts:6-18 | the loop builds the alias record `Aliases` defines |
| Cli.Flags | src/utilities/cli.ts:24-37 | two flags per option whose flag contains `", "` |
| Cli.FlagsMembership | src/utilities/cli.ts:24-37 | a name is a known flag exactly when it is the short or long name of a qualifying option |
| Cli.ExtractFlags | src/utilities/cli.ts:24-37 | the loop builds the list `Flags` defines |
| Cli.KeyToOptionRoundTrip | src/utilities/cli.ts:20-22 | a non-empty key is recovered from its `-k`/`--key` spelling; one-character keys get one dash, longer keys two |
| Cli.KeyToOptionInjective | src/utilities/cli.ts:20-22 | distinct non-empty keys are spelled differently |
| Cli.KeyToOptionEmpty | src/utilities/cli.ts:20-22 | the empty key and the key `-` are both spelled `--` |
| Cli.Unknown | src/utilities/cli.ts:45 | the filter keeps exactly the keys not among the known flags, in order |
| Cli.UnknownConcat | src/utilities/cli.ts:45 | the filter distributes over concatenation |
| Cli.LimitOptions | src/utilities/cli.ts:40-56 | passes exactly when every option key is a known flag; otherwise fails with `Unknown options` and reports each unknown key, spelled as an option, in order |
| Cli.LimitArgs | src/utilities/cli.ts:59-63 | passes exactly when there are no arguments; otherwise fails with `Too many arguments` and reports all of them |

## Left out

- Output text: the header of `print` (lines 190-200), the colours, `Deno.inspect` and the
  exact characters `printLine` writes. `JsonDiffPrint` keeps each line's kind, indent,
  label, marker and value.
- Logging: `log.error` in `limitOptions` and `limitArgs` is modelled by the items the
  failure reports. The two wordings ("Unknown option:" for one key, "Unknown options:" for
  several) are not distinguished.
- Exceptions: the thrown `NestCLIError` is a `Fail` result.
- Numbers are integers. Floating point, `NaN` and `-0` are not modelled.
- Object key order: the model keeps insertion order. JavaScript's `for…in` lists
  integer-like keys first, and inherited prototype keys are not considered.
- Pushing `undefined`: a nested `applyDiff` on an array element that returns `undefined`
  would push `undefined` into the JavaScript array. The model pushes nothing, since
  `undefined` is not a JSON value.
- In-place mutation: `apply` writes and deletes keys in place in the target object itself
  and in every object nested in it (lines 61-65). Callers that alias any of them see the
  change. The model returns new values, and aliasing is not captured.
- `diff.ts` is not part of this model. `Diff.Equal` and `Diff.Lcs` specify `equal` and
  `longestCommonSubsequence`. That the LCS is longest, and hence that the number of
  added and removed entries is minimal, is not proved.
- JsonDiff.CompareOpt: requires that at least one side is present. `compare_` with both
  sides `undefined` would return `removed undefined`, which has no JSON value, and the
  source never makes that call.
- JsonDiffProps.CompareArrays: only the anchors' `common` entries are stated. A paired
  position holds a nested diff whose leaves are not described further.
- JsonDiffProps.CompareObjectsKeys: requires distinct keys in both objects, as JSON objects
  have; `CompareObjects` and `CompareSelf` likewise.
- JsonDiffApply.ApplyMapKeys: requires distinct keys in the diff, which every diff produced
  by `compare` has.
- Round trip: `apply(compare(a, b), b) == (a, false)` is not stated, because the code does
  not satisfy it. The worked examples above exhibit this.
- Cli.LimitOptions: the options record is modelled by its key list; its values are
  ignored, as in the source.
- Cli.Aliases: the alias record is a Dafny `map`, so the record's insertion order is not
  kept.
- String lengths count characters rather than UTF-16 code units. `keyToOption`'s
  `length === 1` on a key outside the basic plane is not modelled.
- The callers of these functions, configuration parsing and the command files are not part
  of this model.
