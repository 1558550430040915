/** Glob patterns (`src/utils/glob.ts`). A glob is translated into the text of
    an anchored regular expression by escaping every metacharacter and then
    turning the escaped `**`, `*` and `?` back into `.*`, `[^/]*` and `[^/]`.
    The model reads the glob as a sequence of tokens, proves that the text the
    translation builds is the rendering of those tokens, and gives the meaning
    of that rendering as a matcher over whole strings. */
module Glob {
  import opened Sequences
  import opened Strings

  /** The characters `escapeRegExp` escapes: `.*+?^${}()|[]\`. */
  predicate IsRegExpMeta(c: char)
  {
    c in ".*+?^${}()|[]\\"
  }

  /** One character of `escapeRegExp`'s output: a metacharacter gets a
      backslash in front of it. */
  function EscapeChar(c: char): (r: string)
    ensures IsRegExpMeta(c) ==> r == ['\\', c]
    ensures !IsRegExpMeta(c) ==> r == [c]
  {
    if IsRegExpMeta(c) then ['\\', c] else [c]
  }

  /** Regular-expression text that stands only for literal characters: read
      left to right, each metacharacter is preceded by the backslash that
      escapes it, no other character is escaped, and no bare metacharacter
      (a lone backslash included) remains. */
  predicate EscapedText(r: string)
    decreases |r|
  {
    if r == [] then true
    else if r[0] == '\\' then |r| >= 2 && IsRegExpMeta(r[1]) && EscapedText(r[2..])
    else !IsRegExpMeta(r[0]) && EscapedText(r[1..])
  }

  /** `escapeRegExp(s)`: `s.replace(/[.*+?^${}()|[\]\\]/g, "\\$&")`. The
      result escapes every metacharacter and nothing else. */
  function EscapeRegExp(s: string): (r: string)
    ensures |r| >= |s|
    ensures EscapedText(r)
  {
    if s == [] then []
    else
      var rest := EscapeRegExp(s[1..]);
      assert (EscapeChar(s[0]) + rest)[|EscapeChar(s[0])|..] == rest;
      EscapeChar(s[0]) + rest
  }

  /** The escaping is the only literal text that reads back as `s`. */
  lemma {:induction false} EscapeUnique(s: string, r: string)
    requires EscapedText(r) && Unescape(r) == s
    ensures r == EscapeRegExp(s)
    decreases |r|
  {
    if r != [] {
      if r[0] == '\\' {
        EscapeUnique(s[1..], r[2..]);
        assert r == [r[0], r[1]] + r[2..];
      } else {
        EscapeUnique(s[1..], r[1..]);
        assert r == [r[0]] + r[1..];
      }
    }
  }

  /** Reads an escaped text back: a backslash stands for the character after it. */
  function Unescape(r: string): string
  {
    if r == [] then []
    else if r[0] == '\\' && |r| >= 2 then [r[1]] + Unescape(r[2..])
    else [r[0]] + Unescape(r[1..])
  }

  /** Escaping loses nothing: the escaped text reads back as the original, so
      the pattern stands for the literal text. */
  lemma {:induction false} UnescapeEscape(s: string)
    ensures Unescape(EscapeRegExp(s)) == s
  {
    if s != [] {
      UnescapeEscape(s[1..]);
      var e := EscapeRegExp(s);
      if IsRegExpMeta(s[0]) {
        assert e[2..] == EscapeRegExp(s[1..]);
      } else {
        assert s[0] != '\\';
        assert e[1..] == EscapeRegExp(s[1..]);
      }
      assert s == [s[0]] + s[1..];
    }
  }

  /** `glob.replace(/\\\\/g, "/")`: each pair of backslashes becomes `/`; a
      lone backslash stays. */
  function NormalizeSeparators(g: string): string
  {
    ReplaceAll(g, "\\\\", "/")
  }

  /** A glob read left to right: `**`, `*`, `?`, or a literal character. */
  datatype Token = Lit(c: char) | Star | DoubleStar | Quest

  /** Tokens as the translation produces them: `*` and `?` never stand for
      themselves, and a `*` is never directly followed by another star (two
      stars in a row always form `**`). */
  predicate WellFormed(ts: seq<Token>)
  {
    && (forall i :: 0 <= i < |ts| ==> ts[i] != Lit('*') && ts[i] != Lit('?'))
    && (forall i :: 0 <= i < |ts| - 1 ==> ts[i] == Star ==> ts[i + 1] != Star && ts[i + 1] != DoubleStar)
  }

  /** Greedy left-to-right reading of a glob. */
  function Tokenize(g: string): (ts: seq<Token>)
    ensures WellFormed(ts)
    ensures |ts| > 0 ==> (ts[0] == DoubleStar <==> |g| >= 2 && g[0] == '*' && g[1] == '*')
    ensures |ts| > 0 ==> (ts[0] == Star <==> |g| >= 1 && g[0] == '*' && (|g| == 1 || g[1] != '*'))
    ensures |ts| == 0 <==> g == []
  {
    if g == [] then []
    else if |g| >= 2 && g[0] == '*' && g[1] == '*' then [DoubleStar] + Tokenize(g[2..])
    else if g[0] == '*' then [Star] + Tokenize(g[1..])
    else if g[0] == '?' then [Quest] + Tokenize(g[1..])
    else [Lit(g[0])] + Tokenize(g[1..])
  }

  /** Regular-expression text of one token after each stage of the
      translation: stage 0 is the escaped glob, stage 1 has `**` restored,
      stage 2 also `*`, stage 3 also `?`. */
  function Unit(t: Token, stage: nat): string
  {
    match t
    case Lit(c) => EscapeChar(c)
    case DoubleStar => if stage < 1 then "\\*\\*" else ".*"
    case Star => if stage < 2 then "\\*" else "[^/]*"
    case Quest => if stage < 3 then "\\?" else "[^/]"
  }

  function Units(ts: seq<Token>, stage: nat): string
  {
    if ts == [] then [] else Unit(ts[0], stage) + Units(ts[1..], stage)
  }

  /** The regular-expression text of a token in the final pattern. */
  function Render(t: Token): string
  {
    Unit(t, 3)
  }

  /** The text of the pattern `globToRegExp` builds, without the `RegExp`
      construction. */
  function GlobRegExpSource(g: string): string
  {
    var escaped := EscapeRegExp(NormalizeSeparators(g));
    var withDoubleStar := ReplaceAll(escaped, "\\*\\*", ".*");
    var withStar := ReplaceAll(withDoubleStar, "\\*", "[^/]*");
    var withQuest := ReplaceAll(withStar, "\\?", "[^/]");
    "^" + withQuest + "$"
  }

  /** Escaping a glob yields the stage-0 text of its tokens. */
  lemma {:induction false} EscapeTokens(g: string)
    ensures EscapeRegExp(g) == Units(Tokenize(g), 0)
  {
    if g != [] {
      if |g| >= 2 && g[0] == '*' && g[1] == '*' {
        assert g == "**" + g[2..];
        EscapeDoubleStar(g[2..]);
        EscapeTokens(g[2..]);
      } else {
        assert g == [g[0]] + g[1..];
        EscapeOneChar(g[0], g[1..]);
        EscapeTokens(g[1..]);
      }
    }
  }

  /** The text of a token followed by more tokens. */
  lemma UnitsCons(t: Token, ts: seq<Token>, stage: nat)
    ensures Units([t] + ts, stage) == Unit(t, stage) + Units(ts, stage)
  {
    assert ([t] + ts)[1..] == ts;
  }

  /** A leading `**` escapes to `\*\*`, both directly and token by token. */
  lemma EscapeDoubleStar(rest: string)
    ensures EscapeRegExp("**" + rest) == "\\*\\*" + EscapeRegExp(rest)
    ensures Units(Tokenize("**" + rest), 0) == "\\*\\*" + Units(Tokenize(rest), 0)
  {
    EscapeStar(['*'] + rest);
    EscapeStar(rest);
    assert "**" + rest == ['*'] + (['*'] + rest);
    assert "\\*\\*" + EscapeRegExp(rest) == "\\*" + ("\\*" + EscapeRegExp(rest));
    TokenizeDoubleStar(rest);
    UnitsCons(DoubleStar, Tokenize(rest), 0);
  }

  lemma EscapeStar(rest: string)
    ensures EscapeRegExp(['*'] + rest) == "\\*" + EscapeRegExp(rest)
  {
    assert (['*'] + rest)[1..] == rest;
  }

  lemma TokenizeDoubleStar(rest: string)
    ensures Tokenize("**" + rest) == [DoubleStar] + Tokenize(rest)
  {
    assert ("**" + rest)[2..] == rest;
  }

  /** Any other first character is one token, escaped on its own. */
  lemma EscapeOneChar(c: char, rest: string)
    requires !(c == '*' && rest != [] && rest[0] == '*')
    ensures Units(Tokenize([c] + rest), 0) == EscapeChar(c) + Units(Tokenize(rest), 0)
  {
    var t := if c == '*' then Star else if c == '?' then Quest else Lit(c);
    assert Tokenize([c] + rest) == [t] + Tokenize(rest) by {
      assert ([c] + rest)[1..] == rest;
    }
    UnitsCons(t, Tokenize(rest), 0);
  }

  /** No unit text starts with `*` or `?`. */
  predicate StartsPlain(s: string)
  {
    s == [] || (s[0] != '*' && s[0] != '?')
  }

  lemma UnitsStartPlain(ts: seq<Token>, stage: nat)
    requires WellFormed(ts)
    ensures StartsPlain(Units(ts, stage))
  {
    if ts != [] {
      assert ts[0] != Lit('*') && ts[0] != Lit('?');
    }
  }

  lemma WellFormedTail(ts: seq<Token>)
    requires WellFormed(ts) && ts != []
    ensures WellFormed(ts[1..])
  {
    assert forall i :: 0 <= i < |ts[1..]| ==> ts[1..][i] == ts[i + 1];
  }

  /** A pattern does not occur at `i` when one of its characters disagrees
      with the text there, or when it would run past the end. */
  lemma NotOccursAt(w: string, pat: string, i: nat, j: nat)
    requires j < |pat|
    requires i + |pat| > |w| || (i + j < |w| && w[i + j] != pat[j])
    ensures !OccursAt(w, pat, i)
  {
    if i + |pat| <= |w| {
      assert w[i..i + |pat|][j] == w[i + j];
    }
  }

  /** A two-character escape `\x` (with `x` a star or question mark) starts
      nowhere in `u` when no backslash of `u` is followed by `x` and the text
      after `u` does not start with `x`. */
  lemma NoEscapeIn(u: string, rest: string, x: char)
    requires x == '*' || x == '?'
    requires StartsPlain(rest)
    requires forall i :: 0 <= i < |u| - 1 ==> u[i] == '\\' ==> u[i + 1] != x
    ensures forall i :: 0 <= i < |u| ==> !OccursAt(u + rest, ['\\', x], i)
  {
    var w := u + rest;
    forall i | 0 <= i < |u| ensures !OccursAt(w, ['\\', x], i) {
      if u[i] != '\\' {
        NotOccursAt(w, ['\\', x], i, 0);
      } else if i < |u| - 1 {
        NotOccursAt(w, ['\\', x], i, 1);
      } else if rest == [] {
        NotOccursAt(w, ['\\', x], i, 1);
      } else {
        assert w[i + 1] == rest[0];
        NotOccursAt(w, ['\\', x], i, 1);
      }
    }
  }

  /** The escaped `**` starts nowhere in a unit other than a `*` unit. */
  lemma NoEscapedDoubleStarIn(u: string, rest: string)
    requires StartsPlain(rest)
    requires forall i :: 0 <= i < |u| - 1 ==> u[i] == '\\' ==> u[i + 1] != '*'
    ensures forall i :: 0 <= i < |u| ==> !OccursAt(u + rest, "\\*\\*", i)
  {
    var w := u + rest;
    var pat := "\\*\\*";
    forall i | 0 <= i < |u| ensures !OccursAt(w, pat, i) {
      if u[i] != '\\' {
        NotOccursAt(w, pat, i, 0);
      } else if i < |u| - 1 {
        NotOccursAt(w, pat, i, 1);
      } else if rest == [] {
        NotOccursAt(w, pat, i, 1);
      } else {
        assert w[i + 1] == rest[0];
        NotOccursAt(w, pat, i, 1);
      }
    }
  }

  /** The escaped `**` starts nowhere in an escaped `*` that is not followed by
      another escaped `*`. */
  lemma NoEscapedDoubleStarAtStar(rest: string)
    requires !StartsWith(rest, "\\*")
    ensures forall i :: 0 <= i < 2 ==> !OccursAt("\\*" + rest, "\\*\\*", i)
  {
    var w := "\\*" + rest;
    var pat := "\\*\\*";
    NotOccursAt(w, pat, 1, 0);
    if |rest| < 2 {
      NotOccursAt(w, pat, 0, 3);
    } else if rest[0] != '\\' {
      NotOccursAt(w, pat, 0, 2);
    } else {
      assert rest[..2] != "\\*";
      assert rest[1] != '*';
      NotOccursAt(w, pat, 0, 3);
    }
  }

  /** Units other than the one being replaced keep no backslash before the
      wildcard character of the stage. */
  lemma UnitBackslashes(t: Token, stage: nat, x: char)
    requires t != Lit('*') && t != Lit('?')
    requires x == '*' || x == '?'
    requires x == '*' ==> t != Star || stage >= 2
    requires x == '*' ==> t != DoubleStar || stage >= 1
    requires x == '?' ==> t != Quest || stage >= 3
    ensures var u := Unit(t, stage);
      forall i :: 0 <= i < |u| - 1 ==> u[i] == '\\' ==> u[i + 1] != x
  {
    match t
    case Lit(c) =>
      assert c != x;
    case Star =>
    case DoubleStar =>
    case Quest =>
  }

  /** Stage 1: replacing each escaped `**` by `.*`. */
  lemma {:induction false} Stage1(ts: seq<Token>)
    requires WellFormed(ts)
    ensures ReplaceAll(Units(ts, 0), "\\*\\*", ".*") == Units(ts, 1)
  {
    if ts != [] {
      var t := ts[0];
      var rest := Units(ts[1..], 0);
      var pat := "\\*\\*";
      WellFormedTail(ts);
      Stage1(ts[1..]);
      UnitsStartPlain(ts[1..], 0);
      assert t != Lit('*') && t != Lit('?');
      if t == DoubleStar {
        ReplaceAllMatch(pat, rest, ".*");
      } else if t == Star {
        assert !StartsWith(rest, "\\*") by {
          if ts[1..] != [] {
            assert ts[1] != Star && ts[1] != DoubleStar && ts[1] != Lit('*');
            assert Units(ts[1..], 0) == Unit(ts[1], 0) + Units(ts[2..], 0) by {
              assert ts[1..][1..] == ts[2..];
            }
          }
        }
        NoEscapedDoubleStarAtStar(rest);
        ReplaceAllSkip("\\*", rest, pat, ".*");
      } else {
        UnitBackslashes(t, 0, '*');
        NoEscapedDoubleStarIn(Unit(t, 0), rest);
        ReplaceAllSkip(Unit(t, 0), rest, pat, ".*");
      }
    }
  }

  /** Stage 2: replacing each escaped `*` by `[^/]*`. */
  lemma {:induction false} Stage2(ts: seq<Token>)
    requires WellFormed(ts)
    ensures ReplaceAll(Units(ts, 1), "\\*", "[^/]*") == Units(ts, 2)
  {
    if ts != [] {
      var t := ts[0];
      var rest := Units(ts[1..], 1);
      WellFormedTail(ts);
      Stage2(ts[1..]);
      UnitsStartPlain(ts[1..], 1);
      assert t != Lit('*') && t != Lit('?');
      if t == Star {
        ReplaceAllMatch("\\*", rest, "[^/]*");
      } else {
        UnitBackslashes(t, 1, '*');
        NoEscapeIn(Unit(t, 1), rest, '*');
        ReplaceAllSkip(Unit(t, 1), rest, "\\*", "[^/]*");
      }
    }
  }

  /** Stage 3: replacing each escaped `?` by `[^/]`. */
  lemma {:induction false} Stage3(ts: seq<Token>)
    requires WellFormed(ts)
    ensures ReplaceAll(Units(ts, 2), "\\?", "[^/]") == Units(ts, 3)
  {
    if ts != [] {
      var t := ts[0];
      var rest := Units(ts[1..], 2);
      WellFormedTail(ts);
      Stage3(ts[1..]);
      UnitsStartPlain(ts[1..], 2);
      assert t != Lit('*') && t != Lit('?');
      if t == Quest {
        ReplaceAllMatch("\\?", rest, "[^/]");
      } else {
        UnitBackslashes(t, 2, '?');
        NoEscapeIn(Unit(t, 2), rest, '?');
        ReplaceAllSkip(Unit(t, 2), rest, "\\?", "[^/]");
      }
    }
  }

  /** The pattern text `globToRegExp` builds is `^`, the rendering of the
      glob's tokens, and `$`. */
  lemma GlobRegExpSourceTokens(g: string)
    ensures GlobRegExpSource(g) == "^" + Units(Tokenize(NormalizeSeparators(g)), 3) + "$"
  {
    var ts := Tokenize(NormalizeSeparators(g));
    EscapeTokens(NormalizeSeparators(g));
    Stage1(ts);
    Stage2(ts);
    Stage3(ts);
  }

  /** Whether the anchored pattern rendered from `ts` matches all of `s`:
      `[^/]` matches one character other than `/`, `[^/]*` a run of them, and
      `.*` a run of characters other than line terminators. */
  predicate MatchTokens(ts: seq<Token>, s: string)
    decreases |s|, |ts|
  {
    if ts == [] then s == []
    else match ts[0]
      case Lit(c) => |s| > 0 && s[0] == c && MatchTokens(ts[1..], s[1..])
      case Quest => |s| > 0 && s[0] != '/' && MatchTokens(ts[1..], s[1..])
      case Star => MatchTokens(ts[1..], s) || (|s| > 0 && s[0] != '/' && MatchTokens(ts, s[1..]))
      case DoubleStar => MatchTokens(ts[1..], s) || (|s| > 0 && !IsLineTerminator(s[0]) && MatchTokens(ts, s[1..]))
  }

  /** `globToRegExp(g).test(s)`. */
  predicate GlobMatches(g: string, s: string)
  {
    MatchTokens(Tokenize(NormalizeSeparators(g)), s)
  }

  /** `*` alone matches exactly the strings without `/`. */
  lemma {:induction false} StarMatches(s: string)
    ensures MatchTokens([Star], s) <==> '/' !in s
    decreases |s|
  {
    if s != [] {
      StarMatches(s[1..]);
      assert s == [s[0]] + s[1..];
    }
  }

  /** `**` alone matches exactly the strings without line terminators,
      separators and the empty string included. */
  lemma {:induction false} DoubleStarMatches(s: string)
    ensures MatchTokens([DoubleStar], s) <==> forall i :: 0 <= i < |s| ==> !IsLineTerminator(s[i])
    decreases |s|
  {
    if s != [] {
      DoubleStarMatches(s[1..]);
      assert forall i :: 1 <= i < |s| ==> s[i] == s[1..][i - 1];
    }
  }

  /** `?` alone matches exactly one character other than `/`. */
  lemma QuestMatches(s: string)
    ensures MatchTokens([Quest], s) <==> |s| == 1 && s[0] != '/'
  {
  }

  /** The literal text of a glob whose tokens are all literals. */
  predicate AllLiteral(ts: seq<Token>)
  {
    forall i :: 0 <= i < |ts| ==> ts[i].Lit?
  }

  function LiteralText(ts: seq<Token>): (r: string)
    requires AllLiteral(ts)
    ensures |r| == |ts|
  {
    if ts == [] then [] else [ts[0].c] + LiteralText(ts[1..])
  }

  /** A pattern of literals matches exactly its own text: matching is anchored
      at both ends. */
  lemma {:induction false} LiteralMatches(ts: seq<Token>, s: string)
    requires AllLiteral(ts)
    ensures MatchTokens(ts, s) <==> s == LiteralText(ts)
    decreases |ts|
  {
    if ts != [] && s != [] {
      LiteralMatches(ts[1..], s[1..]);
      assert s == [s[0]] + s[1..];
    }
  }

  /** A glob without `*` and `?` reads as literals spelling the glob. */
  lemma {:induction false} TokenizeLiteral(g: string)
    requires '*' !in g && '?' !in g
    ensures AllLiteral(Tokenize(g)) && LiteralText(Tokenize(g)) == g
  {
    if g != [] {
      TokenizeLiteral(g[1..]);
      assert g == [g[0]] + g[1..];
    }
  }

  /** A glob with no `*`, no `?` and no pair of backslashes matches exactly the
      identical string. */
  lemma LiteralGlobMatches(g: string, s: string)
    requires '*' !in g && '?' !in g && !Contains(g, "\\\\")
    ensures GlobMatches(g, s) <==> s == g
  {
    ReplaceAllNoMatch(g, "\\\\", "/");
    TokenizeLiteral(g);
    LiteralMatches(Tokenize(g), s);
  }

  /** Replacing a pattern that never occurs changes nothing. */
  lemma {:induction false} ReplaceAllNoMatch(s: string, pat: string, rep: string)
    requires |pat| > 0 && !Contains(s, pat)
    ensures ReplaceAll(s, pat, rep) == s
    decreases |s|
  {
    if |s| >= |pat| {
      ReplaceAllNoMatch(s[1..], pat, rep);
      assert s == [s[0]] + s[1..];
    }
  }

  /** Number of `/` characters in a string. */
  function SlashCount(s: string): nat
  {
    if s == [] then 0 else (if s[0] == '/' then 1 else 0) + SlashCount(s[1..])
  }

  /** Number of literal `/` tokens. */
  function LiteralSlashes(ts: seq<Token>): nat
  {
    if ts == [] then 0 else (if ts[0] == Lit('/') then 1 else 0) + LiteralSlashes(ts[1..])
  }

  function HasDoubleStar(ts: seq<Token>): bool
  {
    ts != [] && (ts[0] == DoubleStar || HasDoubleStar(ts[1..]))
  }

  /** Every literal `/` of the glob consumes a `/` of the path; only `**` can
      consume more, so without `**` the counts are equal. */
  lemma {:induction false} SlashesMatched(ts: seq<Token>, s: string)
    requires MatchTokens(ts, s)
    ensures SlashCount(s) >= LiteralSlashes(ts)
    ensures !HasDoubleStar(ts) ==> SlashCount(s) == LiteralSlashes(ts)
    decreases |s|, |ts|
  {
    if ts != [] {
      match ts[0]
      case Lit(c) =>
        SlashesMatched(ts[1..], s[1..]);
      case Quest =>
        SlashesMatched(ts[1..], s[1..]);
      case Star =>
        if MatchTokens(ts[1..], s) {
          SlashesMatched(ts[1..], s);
        } else {
          SlashesMatched(ts, s[1..]);
        }
      case DoubleStar =>
        if MatchTokens(ts[1..], s) {
          SlashesMatched(ts[1..], s);
        } else {
          SlashesMatched(ts, s[1..]);
        }
    }
  }

  /** The slash bound as an implication, usable where matching is unknown. */
  lemma SlashesBound(ts: seq<Token>, s: string)
    ensures MatchTokens(ts, s) ==> SlashCount(s) >= LiteralSlashes(ts)
  {
    if MatchTokens(ts, s) {
      SlashesMatched(ts, s);
    }
  }

  // The glob `**/*.ts` needs a `/` in the path, so it rejects the top-level `a.ts`.
  lemma DoubleStarSlashNeedsSlash()
    ensures !GlobMatches("**/*.ts", "a.ts")
  {
    NoBackslashNormalize("**/*.ts");
    TokenizeSlashes("**/*.ts");
    SlashExample();
    SlashesBound(Tokenize("**/*.ts"), "a.ts");
  }

  /** Every `/` of a glob becomes a literal `/` token. */
  lemma {:induction false} TokenizeSlashes(g: string)
    ensures LiteralSlashes(Tokenize(g)) == SlashCount(g)
    decreases |g|
  {
    if g != [] {
      var ts := Tokenize(g);
      if |g| >= 2 && g[0] == '*' && g[1] == '*' {
        TokenizeSlashes(g[2..]);
        assert ts[1..] == Tokenize(g[2..]);
        assert SlashCount(g) == SlashCount(g[2..]) by {
          assert g[1..][1..] == g[2..];
        }
      } else {
        TokenizeSlashes(g[1..]);
        assert ts[1..] == Tokenize(g[1..]);
      }
    }
  }

  lemma {:induction false} NoSlashCount(s: string)
    requires '/' !in s
    ensures SlashCount(s) == 0
    decreases |s|
  {
    if s != [] {
      NoSlashCount(s[1..]);
    }
  }

  lemma SlashExample()
    ensures SlashCount("**/*.ts") == 1 && SlashCount("a.ts") == 0
  {
    var g := "**/*.ts";
    NoSlashCount(g[3..]);
    assert g[1..][1..] == g[2..] && g[2..][1..] == g[3..];
    NoSlashCount("a.ts");
  }

  /** A glob without backslashes is not changed by separator normalisation. */
  lemma {:induction false} NoBackslashNormalize(g: string)
    requires '\\' !in g
    ensures NormalizeSeparators(g) == g
    decreases |g|
  {
    if |g| >= 2 {
      assert g[..2] != "\\\\" by {
        assert g[..2][0] == g[0];
      }
      NoBackslashNormalize(g[1..]);
      assert g == [g[0]] + g[1..];
    }
  }

  /** `patterns.some(p => globToRegExp(p).test(path))`. */
  predicate SomeMatches(patterns: seq<string>, path: string)
  {
    |patterns| > 0 && (GlobMatches(patterns[0], path) || SomeMatches(patterns[1..], path))
  }

  /** `patterns.every(p => !globToRegExp(p).test(path))`. */
  predicate EveryMisses(patterns: seq<string>, path: string)
  {
    |patterns| == 0 || (!GlobMatches(patterns[0], path) && EveryMisses(patterns[1..], path))
  }

  /** `matchesAny(filePath, patterns)`: an absent or empty list accepts every
      path. */
  predicate MatchesAny(filePath: string, patterns: Option<seq<string>>)
  {
    patterns.None? || |patterns.value| == 0 || SomeMatches(patterns.value, NormalizeSeparators(filePath))
  }

  /** `matchesNone(filePath, patterns)`: an absent or empty list accepts every
      path. */
  predicate MatchesNone(filePath: string, patterns: Option<seq<string>>)
  {
    patterns.None? || |patterns.value| == 0 || EveryMisses(patterns.value, NormalizeSeparators(filePath))
  }

  /** `some` holds exactly when one of the patterns matches. */
  lemma {:induction false} SomeMatchesIff(patterns: seq<string>, path: string)
    ensures SomeMatches(patterns, path) <==> exists i :: 0 <= i < |patterns| && GlobMatches(patterns[i], path)
  {
    if patterns != [] {
      SomeMatchesIff(patterns[1..], path);
      if exists i :: 0 <= i < |patterns| && GlobMatches(patterns[i], path) {
        var i :| 0 <= i < |patterns| && GlobMatches(patterns[i], path);
        assert i == 0 || GlobMatches(patterns[1..][i - 1], path);
      }
      if SomeMatches(patterns[1..], path) {
        var j :| 0 <= j < |patterns[1..]| && GlobMatches(patterns[1..][j], path);
        assert GlobMatches(patterns[j + 1], path);
      }
    }
  }

  /** `every(!test)` is the negation of `some(test)`. */
  lemma {:induction false} EveryMissesIff(patterns: seq<string>, path: string)
    ensures EveryMisses(patterns, path) <==> !SomeMatches(patterns, path)
  {
    if patterns != [] {
      EveryMissesIff(patterns[1..], path);
    }
  }

  /** An absent or empty list: both predicates accept the path. */
  lemma EmptyListsAccept(filePath: string, patterns: Option<seq<string>>)
    requires patterns.None? || patterns.value == []
    ensures MatchesAny(filePath, patterns) && MatchesNone(filePath, patterns)
  {
  }

  /** For a non-empty list, `matchesNone` is the negation of `matchesAny`, and
      `matchesAny` holds when some pattern matches the path with its backslash
      pairs normalised. */
  lemma MatchesNoneIsNotAny(filePath: string, patterns: seq<string>)
    requires patterns != []
    ensures MatchesNone(filePath, Some(patterns)) <==> !MatchesAny(filePath, Some(patterns))
    ensures MatchesAny(filePath, Some(patterns)) <==>
      exists i :: 0 <= i < |patterns| && GlobMatches(patterns[i], NormalizeSeparators(filePath))
  {
    EveryMissesIff(patterns, NormalizeSeparators(filePath));
    SomeMatchesIff(patterns, NormalizeSeparators(filePath));
  }

  /** A one-pattern list accepts exactly the paths the pattern matches. */
  lemma MatchesAnySingle(filePath: string, pattern: string)
    ensures MatchesAny(filePath, Some([pattern])) <==> GlobMatches(pattern, NormalizeSeparators(filePath))
  {
    assert !SomeMatches([pattern][1..], NormalizeSeparators(filePath));
  }

  /** The search pattern `makeTextSearchRegExp` hands to the regular-expression
      engine: none for a blank query, otherwise its text and flags. */
  datatype SearchPattern = NoQuery | Pattern(source: string, flags: string)

  function TextSearchPattern(query: string, caseSensitive: bool, wholeWord: bool, regex: bool): (r: SearchPattern)
    ensures r.NoQuery? <==> Trim(query) == []
    ensures r.Pattern? ==> r.flags == (if caseSensitive then "g" else "gi")
    ensures r.Pattern? && !wholeWord ==> r.source == (if regex then Trim(query) else EscapeRegExp(Trim(query)))
    ensures r.Pattern? && wholeWord ==>
      r.source == "\\b(?:" + (if regex then Trim(query) else EscapeRegExp(Trim(query))) + ")\\b"
  {
    var q := Trim(query);
    if |q| == 0 then NoQuery
    else
      var flags := "g" + (if !caseSensitive then "i" else "");
      var escaped := if !regex then EscapeRegExp(q) else q;
      var pattern := if wholeWord then "\\b(?:" + escaped + ")\\b" else escaped;
      Pattern(pattern, flags)
  }

  /** A literal query's pattern reads back as the trimmed query (inside the
      whole-word wrapper when there is one). */
  lemma LiteralQueryPattern(query: string, caseSensitive: bool, wholeWord: bool)
    requires Trim(query) != []
    ensures var r := TextSearchPattern(query, caseSensitive, wholeWord, false);
      Unescape(if wholeWord then r.source[5..|r.source| - 3] else r.source) == Trim(query)
  {
    var e := EscapeRegExp(Trim(query));
    UnescapeEscape(Trim(query));
    if wholeWord {
      var src := "\\b(?:" + e + ")\\b";
      assert src[5..|src| - 3] == e;
    }
  }

  /** Outcome of compiling a pattern with the regular-expression engine. */
  datatype Compiled<R> = CompiledOk(regExp: R) | CompileFailed(message: string)

  /** Result of `makeTextSearchRegExp`. */
  datatype TextSearchRegExp<R> = NoRegExp | RegExp(regExp: R) | RegExpError(error: string)

  /** `makeTextSearchRegExp`, with the engine's `new RegExp(source, flags)`
      as the parameter `compile`. */
  function MakeTextSearchRegExp<R>(query: string, caseSensitive: bool, wholeWord: bool, regex: bool,
                                    compile: (string, string) -> Compiled<R>): (r: TextSearchRegExp<R>)
    ensures Trim(query) == [] ==> r == NoRegExp
    ensures Trim(query) != [] ==>
      var p := TextSearchPattern(query, caseSensitive, wholeWord, regex);
      match compile(p.source, p.flags)
      case CompiledOk(re) => r == RegExp(re)
      case CompileFailed(m) => r == RegExpError("Invalid regular expression: " + m)
  {
    match TextSearchPattern(query, caseSensitive, wholeWord, regex)
    case NoQuery => NoRegExp
    case Pattern(source, flags) =>
      match compile(source, flags)
      case CompiledOk(re) => RegExp(re)
      case CompileFailed(m) => RegExpError("Invalid regular expression: " + m)
  }

  /** Text without metacharacters is its own escaping. */
  lemma {:induction false} EscapePlain(s: string)
    requires forall i :: 0 <= i < |s| ==> !IsRegExpMeta(s[i])
    ensures EscapeRegExp(s) == s
    decreases |s|
  {
    if s != [] {
      EscapePlain(s[1..]);
      assert s == [s[0]] + s[1..];
    }
  }

  /** The query is trimmed first, so surrounding whitespace never changes the
      outcome. */
  lemma TrimmedQuerySame<R>(query: string, caseSensitive: bool, wholeWord: bool, regex: bool,
                            compile: (string, string) -> Compiled<R>)
    ensures MakeTextSearchRegExp(Trim(query), caseSensitive, wholeWord, regex, compile)
         == MakeTextSearchRegExp(query, caseSensitive, wholeWord, regex, compile)
  {
    TrimIdempotent(query);
  }

  /** The whole-word pattern is the plain one inside `\b(?:…)\b`, with the
      same flags. */
  lemma WholeWordWraps(query: string, caseSensitive: bool, regex: bool)
    requires Trim(query) != []
    ensures var plain := TextSearchPattern(query, caseSensitive, false, regex);
      var word := TextSearchPattern(query, caseSensitive, true, regex);
      word.source == "\\b(?:" + plain.source + ")\\b" && word.flags == plain.flags
  {
  }

  /** For a query without metacharacters, reading it as a regular expression
      or as literal text gives the same pattern. */
  lemma RegexFlagIrrelevant(query: string, caseSensitive: bool, wholeWord: bool)
    requires forall i :: 0 <= i < |Trim(query)| ==> !IsRegExpMeta(Trim(query)[i])
    ensures TextSearchPattern(query, caseSensitive, wholeWord, true)
         == TextSearchPattern(query, caseSensitive, wholeWord, false)
  {
    EscapePlain(Trim(query));
  }
}
