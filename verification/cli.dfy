/** `parseArgs` and the `branch` default of `src/index.ts`. The command line
    arguments (`process.argv` without its first two entries) are a parameter
    here; they become a record of `--key=value` options. */
module Cli {
  import opened Sequences
  import opened Strings

  /** The one key a plain object does not take as an own property: assigning
      a string to `obj["__proto__"]` reaches the prototype setter, which
      ignores anything that is not an object. */
  const ProtoKey: string := "__proto__"

  /** The branch used when none is given. */
  const DefaultBranch: string := "main"

  /** What may follow the value in an argument: nothing, or a further `=`
      and whatever comes after it. */
  predicate ValueEnd(tail: string)
  {
    tail == "" || tail[0] == '='
  }

  /** The option one argument contributes: after `--`, the text up to the
      first `=` is the key, the text from there up to the next `=` (or the
      end) is the value, and both must be non-empty. */
  function ArgEntry(arg: string): (r: Option<(string, string)>)
    ensures r.Some? ==> && StartsWith(arg, "--")
                        && r.value.0 != "" && '=' !in r.value.0
                        && r.value.1 != "" && '=' !in r.value.1
  {
    if !StartsWith(arg, "--") then None
    else
      var parts := Split(arg[2..], '=');
      if |parts| < 2 || parts[0] == "" || parts[1] == "" then None
      else Some((parts[0], parts[1]))
  }

  /** The argument sets `key`. */
  predicate Gives(arg: string, key: string)
  {
    ArgEntry(arg).Some? && ArgEntry(arg).value.0 == key
  }

  /** `parsedArgs[key] = value` on a plain object. */
  function Store(parsed: map<string, string>, key: string, value: string): map<string, string>
  {
    if key == ProtoKey then parsed else parsed[key := value]
  }

  /** The record after the arguments, taken in order. */
  function ParseArgs(args: seq<string>): (r: map<string, string>)
    ensures ProtoKey !in r
  {
    if args == [] then map[]
    else
      var parsed := ParseArgs(args[..|args| - 1]);
      match ArgEntry(args[|args| - 1])
      case None => parsed
      case Some((key, value)) => Store(parsed, key, value)
  }

  /** `parseArgs()`: one pass over the arguments, writing each option into
      the record. */
  method ParseArgv(args: seq<string>) returns (parsed: map<string, string>)
    ensures parsed == ParseArgs(args)
  {
    parsed := map[];
    var i := 0;
    while i < |args|
      invariant 0 <= i <= |args|
      invariant parsed == ParseArgs(args[..i])
    {
      var arg := args[i];
      assert args[..i + 1][..i] == args[..i];
      if StartsWith(arg, "--") {
        var parts := Split(arg[2..], '=');
        if |parts| >= 2 && parts[0] != "" && parts[1] != "" {
          parsed := Store(parsed, parts[0], parts[1]);
        }
      }
      i := i + 1;
    }
    assert args[..|args|] == args;
  }

  /** `args["branch"] || "main"`. */
  function Branch(parsed: map<string, string>): (r: string)
    ensures r != ""
    ensures "branch" in parsed && parsed["branch"] != "" ==> r == parsed["branch"]
    ensures "branch" !in parsed ==> r == DefaultBranch
  {
    if "branch" in parsed && parsed["branch"] != "" then parsed["branch"] else DefaultBranch
  }

  // ----- one argument -----

  /** The first piece of a split runs up to the first separator. */
  lemma SplitHead(a: string, tail: string, sep: char)
    requires sep !in a && (tail == [] || tail[0] == sep)
    ensures Split(a + tail, sep)[0] == a
    ensures tail != [] ==> Split(a + tail, sep)[1..] == Split(tail[1..], sep)
  {
    if tail != [] {
      var s := a + tail;
      assert s[..|a|] == a;
      FirstIndexAt(s, sep, |a|);
      assert s[|a| + 1..] == tail[1..];
    } else {
      assert a + tail == a;
    }
  }

  /** `--KEY=VALUE`, optionally followed by `=` and anything, sets KEY to
      VALUE when both are non-empty and free of `=`. */
  lemma ArgEntryOf(key: string, value: string, tail: string)
    requires key != "" && '=' !in key && value != "" && '=' !in value
    requires ValueEnd(tail)
    ensures ArgEntry("--" + key + "=" + value + tail) == Some((key, value))
  {
    var arg := "--" + key + "=" + value + tail;
    assert StartsWith(arg, "--") && arg[2..] == key + ("=" + (value + tail)) by {
      assert arg[..2] == "--";
    }
    SplitKeyValue(key, value, tail, '=');
  }

  /** KEY, the separator, VALUE and a tail that is empty or opens with the
      separator split into KEY, VALUE and possibly more. */
  lemma SplitKeyValue(key: string, value: string, tail: string, sep: char)
    requires sep !in key && sep !in value && (tail == [] || tail[0] == sep)
    ensures var parts := Split(key + ([sep] + (value + tail)), sep);
            |parts| >= 2 && parts[0] == key && parts[1] == value
  {
    SplitHead(key, [sep] + (value + tail), sep);
    assert ([sep] + (value + tail))[1..] == value + tail;
    SplitHead(value, tail, sep);
  }

  /** The first piece of a split is a prefix, followed by nothing or by the
      separator. */
  lemma SplitHeadPrefix(s: string, sep: char)
    ensures var p := Split(s, sep)[0];
            && |p| <= |s| && s[..|p|] == p && (|p| == |s| || s[|p|] == sep)
  {
    if sep in s {
      var i := FirstIndex(s, sep);
      assert Split(s, sep)[0] == s[..i];
    }
  }

  /** The prefix of `s` through position `i` and the `v` that follows it. */
  lemma PrefixThrough(s: string, i: nat, v: string)
    requires i + 1 + |v| <= |s| && s[i + 1..][..|v|] == v
    ensures s[..i + 1 + |v|] == s[..i] + [s[i]] + v
  {
    var n := i + 1 + |v|;
    assert s[..n] == s[..i] + s[i..i + 1] + s[i + 1..n];
  }

  /** A string that splits into two or more pieces starts with the first
      piece, the separator and the second piece, which is followed by nothing
      or by the separator. */
  lemma SplitFirstTwo(s: string, sep: char)
    requires |Split(s, sep)| >= 2
    ensures var parts := Split(s, sep);
            var n := |parts[0]| + 1 + |parts[1]|;
            && n <= |s| && s[..n] == parts[0] + [sep] + parts[1]
            && (n == |s| || s[n] == sep)
  {
    SplitFirstPieces(s, sep);
    var i := FirstIndex(s, sep);
    var p := Split(s[i + 1..], sep)[0];
    SplitHeadPrefix(s[i + 1..], sep);
    PieceAfter(s, sep, i, p);
  }

  /** The first two pieces of a split into two or more: the text before the
      first separator, and the first piece of the text after it. */
  lemma SplitFirstPieces(s: string, sep: char)
    requires |Split(s, sep)| >= 2
    ensures sep in s
    ensures var i := FirstIndex(s, sep);
            Split(s, sep)[0] == s[..i] && Split(s, sep)[1] == Split(s[i + 1..], sep)[0]
  {
    SplitCons(s, sep);
  }

  /** A separator at `i` followed by a piece `p` that runs to the end or to
      the next separator. */
  lemma PieceAfter(s: string, sep: char, i: nat, p: string)
    requires i < |s| && s[i] == sep
    requires |p| <= |s[i + 1..]| && s[i + 1..][..|p|] == p
    requires |p| == |s[i + 1..]| || s[i + 1..][|p|] == sep
    ensures var n := i + 1 + |p|;
            && n <= |s| && s[..n] == s[..i] + [sep] + p && (n == |s| || s[n] == sep)
  {
    PrefixThrough(s, i, p);
  }

  /** A split into two or more pieces cuts at the first separator. */
  lemma SplitCons(s: string, sep: char)
    requires |Split(s, sep)| >= 2
    ensures sep in s
    ensures Split(s, sep) == [s[..FirstIndex(s, sep)]] + Split(s[FirstIndex(s, sep) + 1..], sep)
  {
    SplitHasSep(s, sep);
    SplitAtFirst(s, sep);
  }

  lemma SplitHasSep(s: string, sep: char)
    requires |Split(s, sep)| >= 2
    ensures sep in s
  {
  }

  lemma SplitAtFirst(s: string, sep: char)
    requires sep in s
    ensures Split(s, sep) == [s[..FirstIndex(s, sep)]] + Split(s[FirstIndex(s, sep) + 1..], sep)
  {
  }

  /** An argument whose text after `--` opens with KEY, `=` and VALUE is
      `--KEY=VALUE` and the rest. */
  lemma DashPrefix(arg: string, key: string, value: string)
    requires StartsWith(arg, "--")
    requires |key| + 1 + |value| <= |arg[2..]|
    requires arg[2..][..|key| + 1 + |value|] == key + "=" + value
    ensures var n := 3 + |key| + |value|;
            n <= |arg| && arg == "--" + key + "=" + value + arg[n..]
  {
    var n := 3 + |key| + |value|;
    assert arg == arg[..2] + arg[2..n] + arg[n..];
    assert arg[2..n] == arg[2..][..|key| + 1 + |value|];
  }

  /** Every argument that sets an option has the form `--KEY=VALUE` followed
      by nothing or by `=` and anything. */
  lemma ArgEntryShape(arg: string)
    requires ArgEntry(arg).Some?
    ensures var key := ArgEntry(arg).value.0;
            var value := ArgEntry(arg).value.1;
            var n := 3 + |key| + |value|;
            && n <= |arg| && arg == "--" + key + "=" + value + arg[n..] && ValueEnd(arg[n..])
  {
    var rest := arg[2..];
    var parts := Split(rest, '=');
    SplitFirstTwo(rest, '=');
    DashPrefix(arg, parts[0], parts[1]);
    var m := |parts[0]| + 1 + |parts[1]|;
    assert arg[m + 2..] == rest[m..];
  }

  // ----- the record -----

  /** A key is in the record exactly when some argument sets it and it is not
      `__proto__`. */
  lemma {:induction false} ParseArgsKeys(args: seq<string>, key: string)
    ensures key in ParseArgs(args)
        <==> key != ProtoKey && exists i :: 0 <= i < |args| && Gives(args[i], key)
  {
    if args != [] {
      ParseArgsKeys(args[..|args| - 1], key);
      ParseArgsStep(args, key);
      GivesSnoc(args, key);
    }
  }

  /** The last argument adds its key, unless it is `__proto__`, and keeps
      the keys before it. */
  lemma ParseArgsStep(args: seq<string>, key: string)
    requires args != []
    ensures key in ParseArgs(args)
        <==> key in ParseArgs(args[..|args| - 1])
             || (key != ProtoKey && Gives(args[|args| - 1], key))
  {
  }

  /** Some argument sets the key exactly when one before the last does or
      the last does. */
  lemma GivesSnoc(args: seq<string>, key: string)
    requires args != []
    ensures var init := args[..|args| - 1];
            ((exists i :: 0 <= i < |args| && Gives(args[i], key))
             <==> (exists i :: 0 <= i < |init| && Gives(init[i], key))
                  || Gives(args[|args| - 1], key))
  {
    var init := args[..|args| - 1];
    if exists i :: 0 <= i < |init| && Gives(init[i], key) {
      var i :| 0 <= i < |init| && Gives(init[i], key);
      assert args[i] == init[i];
    }
    if exists i :: 0 <= i < |args| && Gives(args[i], key) {
      var i :| 0 <= i < |args| && Gives(args[i], key);
      if i < |init| {
        assert init[i] == args[i];
      }
    }
  }

  /** Each key takes the value of the last argument that sets it. */
  lemma {:induction false} ParseArgsLastWins(args: seq<string>, i: nat, key: string, value: string)
    requires i < |args| && ArgEntry(args[i]) == Some((key, value)) && key != ProtoKey
    requires forall j :: i < j < |args| ==> !Gives(args[j], key)
    ensures key in ParseArgs(args) && ParseArgs(args)[key] == value
  {
    var init := args[..|args| - 1];
    if i < |args| - 1 {
      forall j | i < j < |init| ensures !Gives(init[j], key) {
        assert init[j] == args[j];
      }
      ParseArgsLastWins(init, i, key, value);
      assert !Gives(args[|args| - 1], key);
    }
  }

  /** Every entry of the record has a non-empty key and value, neither of
      them holding `=`, and no entry is `__proto__`. */
  lemma {:induction false} ParseArgsEntries(args: seq<string>)
    ensures forall key :: key in ParseArgs(args) ==>
              && key != "" && '=' !in key && key != ProtoKey
              && ParseArgs(args)[key] != "" && '=' !in ParseArgs(args)[key]
  {
    if args != [] {
      ParseArgsEntries(args[..|args| - 1]);
    }
  }

  /** With no `--branch=…` argument the branch is `main`; otherwise it is the
      value of the last one. */
  lemma BranchOf(args: seq<string>)
    ensures (forall i :: 0 <= i < |args| ==> !Gives(args[i], "branch"))
            ==> Branch(ParseArgs(args)) == DefaultBranch
    ensures forall i :: 0 <= i < |args| && Gives(args[i], "branch")
                        && (forall j :: i < j < |args| ==> !Gives(args[j], "branch"))
                        ==> Branch(ParseArgs(args)) == ArgEntry(args[i]).value.1
  {
    ParseArgsKeys(args, "branch");
    forall i | 0 <= i < |args| && Gives(args[i], "branch")
                && (forall j :: i < j < |args| ==> !Gives(args[j], "branch"))
      ensures Branch(ParseArgs(args)) == ArgEntry(args[i]).value.1
    {
      ParseArgsLastWins(args, i, "branch", ArgEntry(args[i]).value.1);
    }
  }
}
