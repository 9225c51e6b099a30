/** Option and argument checking of src/utilities/cli.ts: splitting `"-s, --long"` flag strings
    into alias pairs and flag names, the `-k`/`--key` spelling of an option key, and the two
    validators that reject unknown options and surplus arguments. */
module Cli {
  import opened Optional

  /** `Option` of cli/utilities/types.ts: a flag string such as `"-h, --help"`, an optional
      argument name and a description. */
  datatype CliOption = CliOption(flag: string, argument: Option<string>, description: string)

  /** `NestCLIError` with its message. */
  datatype NestCliError = NestCliError(message: string)

  /** A validator returns normally, or throws after logging the offending items. */
  datatype Outcome<+R> = Pass | Fail(error: NestCliError, reported: seq<R>)

  // ---------------------------------------------------------------------------
  // String helpers: `includes(", ")`, `split(", ")` and `substr(n)`

  /** The separator `", "` starts at position `p` of `s`. */
  predicate SepAt(s: string, p: nat)
  {
    p + 1 < |s| && s[p] == ',' && s[p + 1] == ' '
  }

  /** The first separator at or after `from`. */
  function FindSep(s: string, from: nat): (r: Option<nat>)
    ensures r.Some? ==> from <= r.value && SepAt(s, r.value)
    ensures r.Some? ==> forall q | from <= q < r.value :: !SepAt(s, q)
    ensures r.None? ==> forall q | from <= q :: !SepAt(s, q)
    decreases |s| - from
  {
    if from + 1 >= |s| then None
    else if SepAt(s, from) then Some(from)
    else FindSep(s, from + 1)
  }

  /** `s.includes(", ")`. */
  predicate Includes(s: string)
  {
    FindSep(s, 0).Some?
  }

  /** `includes` holds exactly when the separator occurs somewhere. */
  lemma IncludesIff(s: string)
    ensures Includes(s) <==> exists p :: SepAt(s, p)
  {
  }

  /** `s.split(", ")`: the pieces between separators, left to right. */
  function SplitSep(s: string): (parts: seq<string>)
    ensures |parts| >= 1
    ensures |parts| >= 2 <==> Includes(s)
    decreases |s|
  {
    match FindSep(s, 0)
    case None => [s]
    case Some(p) => [s[..p]] + SplitSep(s[p + 2..])
  }

  /** `parts.join(", ")`. */
  function Join(parts: seq<string>): string
    requires |parts| >= 1
  {
    if |parts| == 1 then parts[0] else parts[0] + ", " + Join(parts[1..])
  }

  /** Splitting loses nothing: joining the pieces gives the string back, and no piece holds
      a separator. */
  lemma {:induction false} SplitJoin(s: string)
    ensures Join(SplitSep(s)) == s
    ensures forall k, q | 0 <= k < |SplitSep(s)| :: !SepAt(SplitSep(s)[k], q)
    decreases |s|
  {
    match FindSep(s, 0)
    case None =>
    case Some(p) =>
      var rest := s[p + 2..];
      SplitJoin(rest);
      assert s == s[..p] + ", " + rest;
      assert SplitSep(s)[1..] == SplitSep(rest);
      forall q ensures !SepAt(s[..p], q) {
        if SepAt(s[..p], q) { assert SepAt(s, q); }
      }
  }

  /** `s.substr(n)`: the characters from position `n` on, or `""` past the end. */
  function Substr(s: string, n: nat): (r: string)
    ensures n <= |s| ==> r == s[n..]
    ensures n > |s| ==> r == ""
  {
    if n <= |s| then s[n..] else ""
  }

  // ---------------------------------------------------------------------------
  // aliasesFromOptions and extractFlags (lines 6-18, 24-37)

  /** The option's flag contains `", "`, so it has a short and a long spelling. */
  predicate Qualifies(o: CliOption)
  {
    Includes(o.flag)
  }

  /** `short.substr(1)`: the short spelling (before the first `", "`) without its `-`. */
  function ShortName(o: CliOption): string
  {
    Substr(SplitSep(o.flag)[0], 1)
  }

  /** `long.substr(2)`: the long spelling (between the first and second `", "`) without its `--`. */
  function LongName(o: CliOption): string
    requires Qualifies(o)
  {
    Substr(SplitSep(o.flag)[1], 2)
  }

  /** The aliases record after the options so far, one write per qualifying option. */
  function Aliases(opts: seq<CliOption>): map<string, string>
    decreases |opts|
  {
    if opts == [] then map[]
    else
      var m := Aliases(opts[..|opts| - 1]);
      var o := opts[|opts| - 1];
      if Qualifies(o) then m[ShortName(o) := LongName(o)] else m
  }

  /** Option `o` writes the alias for short name `k`. */
  predicate Defines(o: CliOption, k: string)
  {
    Qualifies(o) && ShortName(o) == k
  }

  /** An alias exists exactly for the short names of qualifying options, and it maps to the
      long name of the last option with that short name: later writes win. */
  lemma {:induction false} AliasesLastWins(opts: seq<CliOption>, k: string)
    ensures k in Aliases(opts) <==> exists i | 0 <= i < |opts| :: Defines(opts[i], k)
    ensures k in Aliases(opts) ==>
              exists i | 0 <= i < |opts| :: Defines(opts[i], k) && Aliases(opts)[k] == LongName(opts[i]) &&
                forall j | i < j < |opts| :: !Defines(opts[j], k)
    decreases |opts|
  {
    if opts != [] {
      var n := |opts|;
      var pre := opts[..n - 1];
      AliasesLastWins(pre, k);
      if Defines(opts[n - 1], k) {
        assert Aliases(opts)[k] == LongName(opts[n - 1]);
      } else {
        assert forall i | 0 <= i < n - 1 :: pre[i] == opts[i];
        if k in Aliases(opts) {
          var i :| 0 <= i < n - 1 && Defines(pre[i], k) && Aliases(pre)[k] == LongName(pre[i]) &&
                   forall j | i < j < n - 1 :: !Defines(pre[j], k);
          assert Defines(opts[i], k) && Aliases(opts)[k] == LongName(opts[i]);
          assert forall j | i < j < n :: !Defines(opts[j], k);
        }
      }
    }
  }

  /** The number of qualifying options. */
  function QualifyingCount(opts: seq<CliOption>): nat
  {
    if opts == [] then 0
    else QualifyingCount(opts[..|opts| - 1]) + (if Qualifies(opts[|opts| - 1]) then 1 else 0)
  }

  /** The flag names after the options so far: short then long name of each qualifying option. */
  function Flags(opts: seq<CliOption>): (r: seq<string>)
    ensures |r| == 2 * QualifyingCount(opts)
    decreases |opts|
  {
    if opts == [] then []
    else
      var o := opts[|opts| - 1];
      Flags(opts[..|opts| - 1]) + (if Qualifies(o) then [ShortName(o), LongName(o)] else [])
  }

  /** A name is among the flags exactly when it is the short or long name of a qualifying option. */
  lemma {:induction false} FlagsMembership(opts: seq<CliOption>, x: string)
    ensures x in Flags(opts) <==>
              exists i | 0 <= i < |opts| :: Qualifies(opts[i]) && (ShortName(opts[i]) == x || LongName(opts[i]) == x)
    decreases |opts|
  {
    if opts != [] {
      var n := |opts|;
      FlagsMembership(opts[..n - 1], x);
      assert forall i | 0 <= i < n - 1 :: opts[..n - 1][i] == opts[i];
    }
  }

  /** `aliasesFromOptions`: the indexed loop filling the record. */
  method AliasesFromOptions(options: seq<CliOption>) returns (aliases: map<string, string>)
    ensures aliases == Aliases(options)
  {
    aliases := map[];
    for i := 0 to |options|
      invariant aliases == Aliases(options[..i])
    {
      assert options[..i + 1][..i] == options[..i];
      var flag := options[i].flag;
      if Includes(flag) {
        var parts := SplitSep(flag);
        aliases := aliases[Substr(parts[0], 1) := Substr(parts[1], 2)];
      }
    }
    assert options[..|options|] == options;
  }

  /** `extractFlags`: the indexed loop pushing two names per qualifying option. */
  method ExtractFlags(options: seq<CliOption>) returns (flags: seq<string>)
    ensures flags == Flags(options)
  {
    flags := [];
    for i := 0 to |options|
      invariant flags == Flags(options[..i])
    {
      assert options[..i + 1][..i] == options[..i];
      var flag := options[i].flag;
      if Includes(flag) {
        var parts := SplitSep(flag);
        flags := flags + [Substr(parts[0], 1)];
        flags := flags + [Substr(parts[1], 2)];
      }
    }
    assert options[..|options|] == options;
  }

  // ---------------------------------------------------------------------------
  // keyToOption (lines 20-22)

  /** `keyToOption`: `-k` for a one-character key, `--key` otherwise. */
  function KeyToOption(key: string): string
  {
    if |key| == 1 then "-" + key else "--" + key
  }

  /** Reading the key back from its option spelling. */
  function OptionToKey(opt: string): string
  {
    if |opt| == 2 then opt[1..] else if |opt| > 2 then opt[2..] else ""
  }

  /** For non-empty keys the spelling is reversible, hence distinct keys are spelled apart. */
  lemma KeyToOptionRoundTrip(key: string)
    requires key != ""
    ensures OptionToKey(KeyToOption(key)) == key
    ensures |key| == 1 ==> KeyToOption(key) == ['-', key[0]]
    ensures |key| != 1 ==> KeyToOption(key)[..2] == "--" && KeyToOption(key)[2..] == key
  {
    if |key| == 1 {
      assert KeyToOption(key)[1..] == key;
    } else {
      assert KeyToOption(key)[2..] == key;
    }
  }

  lemma KeyToOptionInjective(k1: string, k2: string)
    requires k1 != "" && k2 != "" && KeyToOption(k1) == KeyToOption(k2)
    ensures k1 == k2
  {
    KeyToOptionRoundTrip(k1);
    KeyToOptionRoundTrip(k2);
  }

  /** The empty key is the one exception: it is spelled like the key `-`. */
  lemma KeyToOptionEmpty()
    ensures KeyToOption("") == KeyToOption("-") == "--"
  {
  }

  // ---------------------------------------------------------------------------
  // limitOptions and limitArgs (lines 40-63)

  /** `keys.filter((flag) => !known.includes(flag))`. */
  function Unknown(keys: seq<string>, known: seq<string>): (delta: seq<string>)
    ensures forall x :: x in delta <==> x in keys && x !in known
    ensures |delta| <= |keys|
  {
    if keys == [] then []
    else (if keys[0] in known then [] else [keys[0]]) + Unknown(keys[1..], known)
  }

  /** The filter keeps the original order: it works piece by piece. */
  lemma {:induction false} UnknownConcat(a: seq<string>, b: seq<string>, known: seq<string>)
    ensures Unknown(a + b, known) == Unknown(a, known) + Unknown(b, known)
    decreases |a|
  {
    if a == [] {
      assert a + b == b;
    } else {
      assert (a + b)[1..] == a[1..] + b;
      UnknownConcat(a[1..], b, known);
    }
  }

  /** `limitOptions(options, baseOptions)` on the keys of `options`, in `Object.keys` order.
      It passes exactly when every key is a flag name of `baseOptions`; otherwise it throws
      `NestCLIError("Unknown options")` after logging the unknown keys, in order, spelled as options. */
  function LimitOptions(keys: seq<string>, base: seq<CliOption>): (r: Outcome<string>)
    ensures r.Pass? <==> forall i | 0 <= i < |keys| :: keys[i] in Flags(base)
    ensures r.Fail? ==> r.error == NestCliError("Unknown options")
    ensures r.Fail? ==> |r.reported| == |Unknown(keys, Flags(base))| >= 1
    ensures r.Fail? ==> forall i | 0 <= i < |r.reported| :: r.reported[i] == KeyToOption(Unknown(keys, Flags(base))[i])
  {
    var delta := Unknown(keys, Flags(base));
    if |delta| == 0 then Pass
    else
      assert delta[0] in delta;
      Fail(NestCliError("Unknown options"), seq(|delta|, i requires 0 <= i < |delta| => KeyToOption(delta[i])))
  }

  /** `limitArgs(args)`: passes exactly when there are no arguments; otherwise throws
      `NestCLIError("Too many arguments")` after logging all of them. */
  function LimitArgs<T>(args: seq<T>): (r: Outcome<T>)
    ensures r.Pass? <==> |args| == 0
    ensures r.Fail? ==> r.error == NestCliError("Too many arguments") && r.reported == args
  {
    if |args| == 0 then Pass else Fail(NestCliError("Too many arguments"), args)
  }
}
