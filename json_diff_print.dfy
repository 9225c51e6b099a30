/** The structure of `print_` in json_diff.ts: which lines it logs for a diff, in which order,
    with which indent, key label and marker. The text of a line (colours, `Deno.inspect` of the
    value) is kept abstract: a line carries the value it would show. */
module JsonDiffPrint {
  import opened Optional
  import opened JsonValue
  import opened Diff
  import opened JsonDiff
  import opened JsonDiffProps

  /** The marker printLine puts in front of a value: ` + ` for added, ` - ` for removed,
      three spaces otherwise. */
  datatype Marker = Plain | Plus | Minus

  datatype Bracket = Brace | Square

  /** One logged line: an opening line `{`/`[` with an optional `key: ` label, a closing
      line `},`/`],`, or a value line from printLine. */
  datatype Line =
    | Open(indent: string, name: Option<string>, bracket: Bracket)
    | Close(indent: string, bracket: Bracket)
    | Value(marker: Marker, indent: string, name: Option<string>, value: Json)

  /** `key ? `${key}: ` : ""`: an absent or empty key prints no label. */
  function Label(key: Option<string>): (l: Option<string>)
    ensures l.Some? <==> key.Some? && key.value != ""
    ensures l.Some? ==> l == key
  {
    if key.Some? && key.value != "" then key else None
  }

  /** printLine's choice of marker for a leaf result. */
  function MarkerOf(r: DiffResult): Marker
  {
    match r
    case Added(_) => Plus
    case Removed(_) => Minus
    case _ => Plain
  }

  /** `print_(diff, indent, key)`: the lines it logs. */
  function Render(d: JsonDiff, indent: string, key: Option<string>): seq<Line>
    decreases d, 1
  {
    match d
    case DMap(_) => [Open(indent, Label(key), Brace)] + RenderChildren(d, indent + "  ", 0) + [Close(indent, Brace)]
    case DArr(_) => [Open(indent, Label(key), Square)] + RenderChildren(d, indent + "  ", 0) + [Close(indent, Square)]
    case Leaf(r) =>
      if r.Updated? then [Value(Minus, indent, Label(key), r.oldValue), Value(Plus, indent, Label(key), r.value)]
      else [Value(MarkerOf(r), indent, Label(key), r.value)]
  }

  /** The children of a map diff (each with its key) or an array diff (without a key), from
      child `k` on, at the extended indent `indent`. */
  function RenderChildren(d: JsonDiff, indent: string, k: nat): seq<Line>
    requires !d.Leaf?
    decreases d, 0, if d.DArr? then |d.entries| - k else |d.fields| - k
  {
    if d.DArr? then
      if k >= |d.entries| then [] else Render(d.entries[k], indent, None) + RenderChildren(d, indent, k + 1)
    else
      if k >= |d.fields| then [] else Render(d.fields[k].1, indent, Some(d.fields[k].0)) + RenderChildren(d, indent, k + 1)
  }

  // ---------------------------------------------------------------------------
  // Properties

  /** An `updated` leaf prints as a removed line for the old value immediately followed by
      an added line for the new value, both with the leaf's indent and label. */
  lemma RenderUpdated(v: Json, prev: Json, indent: string, key: Option<string>)
    ensures Render(Leaf(Updated(v, prev)), indent, key)
         == [Value(Minus, indent, Label(key), prev), Value(Plus, indent, Label(key), v)]
  {
  }

  predicate IsPrefix(p: string, s: string)
  {
    |p| <= |s| && s[..|p|] == p
  }

  /** Every line's indent starts with `indent`. */
  predicate IndentedBy(ls: seq<Line>, indent: string)
  {
    forall i | 0 <= i < |ls| :: IsPrefix(indent, ls[i].indent)
  }

  /** A map or array diff prints an opening line and a closing line at the current indent
      with its children between them, every line of which is indented two more spaces. */
  lemma {:induction false} RenderIndent(d: JsonDiff, indent: string, key: Option<string>)
    ensures IndentedBy(Render(d, indent, key), indent)
    ensures !d.Leaf? ==> IndentedBy(RenderChildren(d, indent + "  ", 0), indent + "  ")
    ensures !d.Leaf? ==> |Render(d, indent, key)| >= 2
    ensures !d.Leaf? ==> Render(d, indent, key)[0] == Open(indent, Label(key), if d.DMap? then Brace else Square)
    ensures !d.Leaf? ==> Render(d, indent, key)[|Render(d, indent, key)| - 1] == Close(indent, if d.DMap? then Brace else Square)
    ensures !d.Leaf? ==> forall i | 0 < i < |Render(d, indent, key)| - 1 :: IsPrefix(indent + "  ", Render(d, indent, key)[i].indent)
    decreases d, 1
  {
    if !d.Leaf? {
      var inner := indent + "  ";
      var cs := RenderChildren(d, inner, 0);
      var bracket := if d.DMap? then Brace else Square;
      assert Render(d, indent, key) == [Open(indent, Label(key), bracket)] + cs + [Close(indent, bracket)];
      ChildrenIndent(d, inner, 0);
      forall i | 0 <= i < |cs| ensures IsPrefix(indent, cs[i].indent) {
        assert cs[i].indent[..|inner|] == inner;
        assert cs[i].indent[..|indent|] == inner[..|indent|];
      }
    }
  }

  lemma {:induction false} ChildrenIndent(d: JsonDiff, indent: string, k: nat)
    requires !d.Leaf?
    ensures IndentedBy(RenderChildren(d, indent, k), indent)
    decreases d, 0, if d.DArr? then |d.entries| - k else |d.fields| - k
  {
    if d.DArr? && k < |d.entries| {
      RenderIndent(d.entries[k], indent, None);
      ChildrenIndent(d, indent, k + 1);
    } else if d.DMap? && k < |d.fields| {
      RenderIndent(d.fields[k].1, indent, Some(d.fields[k].0));
      ChildrenIndent(d, indent, k + 1);
    }
  }

  /** The (marker, value) pairs of the value lines, in order. */
  function ValueLines(ls: seq<Line>): seq<(Marker, Json)>
  {
    if ls == [] then []
    else (if ls[0].Value? then [(ls[0].marker, ls[0].value)] else []) + ValueLines(ls[1..])
  }

  /** What the leaves show: an `updated` leaf its old value removed then its new value added,
      any other leaf its value with its own marker. */
  function Shown(rs: seq<DiffResult>): seq<(Marker, Json)>
  {
    if rs == [] then []
    else
      (if rs[0].Updated? then [(Minus, rs[0].oldValue), (Plus, rs[0].value)] else [(MarkerOf(rs[0]), rs[0].value)])
      + Shown(rs[1..])
  }

  lemma {:induction false} ValueLinesConcat(a: seq<Line>, b: seq<Line>)
    ensures ValueLines(a + b) == ValueLines(a) + ValueLines(b)
    decreases |a|
  {
    if a != [] {
      assert (a + b)[1..] == a[1..] + b;
      ValueLinesConcat(a[1..], b);
    } else {
      assert a + b == b;
    }
  }

  lemma {:induction false} ShownConcat(a: seq<DiffResult>, b: seq<DiffResult>)
    ensures Shown(a + b) == Shown(a) + Shown(b)
    decreases |a|
  {
    if a != [] {
      assert (a + b)[1..] == a[1..] + b;
      ShownConcat(a[1..], b);
    } else {
      assert a + b == b;
    }
  }

  /** The value lines print_ logs are exactly the leaves of the diff, left to right, each
      shown as the leaf says: nothing is dropped, repeated or reordered. */
  lemma {:induction false} RenderShowsLeaves(d: JsonDiff, indent: string, key: Option<string>)
    ensures ValueLines(Render(d, indent, key)) == Shown(Leaves(d))
    decreases d, 1
  {
    match d
    case Leaf(r) =>
      var ls := Render(d, indent, key);
      assert Leaves(d) == [r];
      if r.Updated? {
        assert ls[1..][1..] == [];
        assert ValueLines(ls[1..][1..]) == [];
        assert ValueLines(ls[1..]) == [(Plus, r.value)];
        assert ValueLines(ls) == [(Minus, r.oldValue), (Plus, r.value)];
        assert [r][1..] == [];
        assert Shown([r]) == [(Minus, r.oldValue), (Plus, r.value)] + Shown([]);
      } else {
        assert ls[1..] == [];
        assert ValueLines(ls) == [(MarkerOf(r), r.value)] + ValueLines([]);
        assert [r][1..] == [];
        assert Shown([r]) == [(MarkerOf(r), r.value)] + Shown([]);
      }
    case _ =>
      var b := if d.DMap? then Brace else Square;
      var o := [Open(indent, Label(key), b)];
      var cs := RenderChildren(d, indent + "  ", 0);
      var c := [Close(indent, b)];
      assert Render(d, indent, key) == o + cs + c;
      ValueLinesConcat(o + cs, c);
      ValueLinesConcat(o, cs);
      assert ValueLines(o) == [] by { assert o[1..] == []; }
      assert ValueLines(c) == [] by { assert c[1..] == []; }
      ChildrenShowLeaves(d, indent + "  ", 0);
  }

  lemma {:induction false} ChildrenShowLeaves(d: JsonDiff, indent: string, k: nat)
    requires !d.Leaf?
    ensures ValueLines(RenderChildren(d, indent, k)) == Shown(ChildLeaves(d, k))
    decreases d, 0, if d.DArr? then |d.entries| - k else |d.fields| - k
  {
    if d.DArr? && k < |d.entries| {
      RenderShowsLeaves(d.entries[k], indent, None);
      ChildrenShowLeaves(d, indent, k + 1);
      ValueLinesConcat(Render(d.entries[k], indent, None), RenderChildren(d, indent, k + 1));
      ShownConcat(Leaves(d.entries[k]), ChildLeaves(d, k + 1));
    } else if d.DMap? && k < |d.fields| {
      RenderShowsLeaves(d.fields[k].1, indent, Some(d.fields[k].0));
      ChildrenShowLeaves(d, indent, k + 1);
      ValueLinesConcat(Render(d.fields[k].1, indent, Some(d.fields[k].0)), RenderChildren(d, indent, k + 1));
      ShownConcat(Leaves(d.fields[k].1), ChildLeaves(d, k + 1));
    }
  }
}
