/** The JavaScript string operations the source relies on: `trim`, `split`,
    `join`, `startsWith`, `includes`, `replace` with a global regular expression
    for a literal pattern, `replace` with a string pattern (first occurrence,
    with `$` substitution patterns), number-to-decimal conversion, and the two
    string orders used for sorting. Strings are sequences of Unicode scalar
    values. */
module Strings {
  import opened Sequences

  /** The characters `String.prototype.trim` removes: ECMAScript WhiteSpace
      (tab, vertical tab, form feed, space, no-break space, byte order mark and
      the space separators) and LineTerminator (LF, CR, U+2028, U+2029). */
  predicate IsJsWhitespace(c: char)
  {
    || c == '\t' || c == '\n' || c == '\U{B}' || c == '\U{C}' || c == '\r' || c == ' '
    || c == '\U{A0}' || c == '\U{1680}' || ('\U{2000}' <= c <= '\U{200A}')
    || c == '\U{2028}' || c == '\U{2029}' || c == '\U{202F}' || c == '\U{205F}'
    || c == '\U{3000}' || c == '\U{FEFF}'
  }

  /** The characters the regular-expression `.` does not match. */
  predicate IsLineTerminator(c: char)
  {
    c == '\n' || c == '\r' || c == '\U{2028}' || c == '\U{2029}'
  }

  function TrimStart(s: string): (r: string)
    ensures |r| <= |s| && r == s[|s| - |r|..]
    ensures forall i :: 0 <= i < |s| - |r| ==> IsJsWhitespace(s[i])
    ensures r == [] || !IsJsWhitespace(r[0])
  {
    if |s| > 0 && IsJsWhitespace(s[0]) then
      var r := TrimStart(s[1..]);
      assert s[1..][|s| - 1 - |r|..] == s[|s| - |r|..];
      r
    else s
  }

  function TrimEnd(s: string): (r: string)
    ensures |r| <= |s| && r == s[..|r|]
    ensures forall i :: |r| <= i < |s| ==> IsJsWhitespace(s[i])
    ensures r == [] || !IsJsWhitespace(r[|r| - 1])
  {
    if |s| > 0 && IsJsWhitespace(s[|s| - 1]) then TrimEnd(s[..|s| - 1]) else s
  }

  /** `s.trim()`: the longest slice of `s` that neither starts nor ends with
      whitespace, obtained by dropping only whitespace. */
  function Trim(s: string): (r: string)
    ensures |r| <= |s|
    ensures r == [] || (!IsJsWhitespace(r[0]) && !IsJsWhitespace(r[|r| - 1]))
    ensures exists a :: TrimmedAt(s, a, r)
  {
    TrimSlice(s);
    TrimStart(TrimEnd(s))
  }

  /** The trimmed text is a slice of `s` with only whitespace around it. */
  lemma TrimSlice(s: string)
    ensures var e := TrimEnd(s); TrimmedAt(s, |e| - |TrimStart(e)|, TrimStart(e))
  {
    var e := TrimEnd(s);
    var r := TrimStart(e);
    var a := |e| - |r|;
    assert e == s[..|e|];
    assert r == e[a..];
    assert r == s[a..a + |r|];
    forall i | 0 <= i < a ensures IsJsWhitespace(s[i]) {
      assert s[i] == e[i];
    }
  }

  /** `r` is the slice of `s` starting at `a`, and everything outside that
      slice is whitespace. */
  predicate TrimmedAt(s: string, a: int, r: string)
  {
    && 0 <= a && a + |r| <= |s| && r == s[a..a + |r|]
    && (forall i :: 0 <= i < a ==> IsJsWhitespace(s[i]))
    && (forall i :: a + |r| <= i < |s| ==> IsJsWhitespace(s[i]))
  }

  /** `trim` removes exactly the surrounding whitespace: any slice with only
      whitespace around it and no whitespace at its ends is the trimmed text. */
  lemma TrimUnique(s: string, a: int, t: string)
    requires TrimmedAt(s, a, t)
    requires t == [] || (!IsJsWhitespace(t[0]) && !IsJsWhitespace(t[|t| - 1]))
    ensures Trim(s) == t
  {
    var r := Trim(s);
    var b :| TrimmedAt(s, b, r);
    TrimmedAtUnique(s, a, t, b, r);
  }

  /** Two slices with only whitespace around them and none at their ends are
      the same slice. */
  lemma TrimmedAtUnique(s: string, a: int, t: string, b: int, r: string)
    requires TrimmedAt(s, a, t) && TrimmedAt(s, b, r)
    requires t == [] || (!IsJsWhitespace(t[0]) && !IsJsWhitespace(t[|t| - 1]))
    requires r == [] || (!IsJsWhitespace(r[0]) && !IsJsWhitespace(r[|r| - 1]))
    ensures t == r
  {
    TrimmedAtBlank(s, a, t);
    TrimmedAtBlank(s, b, r);
    if t != [] {
      assert s[a] == t[0] && s[a + |t| - 1] == t[|t| - 1];
      assert s[b] == r[0] && s[b + |r| - 1] == r[|r| - 1];
      assert a == b;
      assert |r| == |t|;
    }
  }

  /** Such a slice is empty exactly when the whole string is whitespace. */
  lemma TrimmedAtBlank(s: string, a: int, t: string)
    requires TrimmedAt(s, a, t)
    requires t == [] || !IsJsWhitespace(t[0])
    ensures t == [] <==> forall i :: 0 <= i < |s| ==> IsJsWhitespace(s[i])
  {
    if t != [] {
      assert s[a] == t[0];
    }
  }

  /** A string trims to nothing exactly when every character is whitespace. */
  lemma TrimEmptyIffBlank(s: string)
    ensures Trim(s) == [] <==> forall i :: 0 <= i < |s| ==> IsJsWhitespace(s[i])
  {
    var e := TrimEnd(s);
    assert e == [] || e[|e| - 1] == s[|e| - 1];
    if Trim(s) == [] {
      assert |TrimStart(e)| == 0;
      assert e == [];
    }
  }

  /** Trimming is idempotent. */
  lemma TrimIdempotent(s: string)
    ensures Trim(Trim(s)) == Trim(s)
  {
    var t := Trim(s);
    if t != [] {
      assert TrimEnd(t) == t;
      assert TrimStart(t) == t;
    }
  }

  /** A string that neither starts nor ends with whitespace is its own trim. */
  lemma TrimFixed(s: string)
    requires s == [] || (!IsJsWhitespace(s[0]) && !IsJsWhitespace(s[|s| - 1]))
    ensures Trim(s) == s
  {
  }

  /** `s.replace(/from/g, to)` for a single character: every occurrence replaced. */
  function ReplaceChar(s: string, from: char, to: char): (r: string)
    ensures |r| == |s|
    ensures forall i :: 0 <= i < |s| ==> r[i] == if s[i] == from then to else s[i]
  {
    seq(|s|, i requires 0 <= i < |s| => if s[i] == from then to else s[i])
  }

  /** Replacing a character leaves none of it behind (when the replacement differs). */
  lemma ReplaceCharRemoves(s: string, from: char, to: char)
    requires from != to
    ensures from !in ReplaceChar(s, from, to)
  {
    var r := ReplaceChar(s, from, to);
    forall i | 0 <= i < |r| ensures r[i] != from {
    }
  }

  predicate StartsWith(s: string, prefix: string)
  {
    |prefix| <= |s| && s[..|prefix|] == prefix
  }

  /** `s.replace(/pat/g, rep)` for a pattern matching one fixed string and a
      replacement without `$`: the scan goes left to right and each match
      resumes after the replaced text, so matches never overlap. */
  function ReplaceAll(s: string, pat: string, rep: string): string
    requires |pat| > 0
    decreases |s|
  {
    if |s| < |pat| then s
    else if s[..|pat|] == pat then rep + ReplaceAll(s[|pat|..], pat, rep)
    else [s[0]] + ReplaceAll(s[1..], pat, rep)
  }

  /** An occurrence of `pat` starts at position `i` of `s`. */
  predicate OccursAt(s: string, pat: string, i: nat)
  {
    i + |pat| <= |s| && s[i..i + |pat|] == pat
  }

  lemma OccursAtTail(s: string, pat: string, i: nat)
    requires |s| > 0
    ensures OccursAt(s[1..], pat, i) <==> OccursAt(s, pat, i + 1)
  {
    if i + 1 + |pat| <= |s| {
      assert s[1..][i..i + |pat|] == s[i + 1..i + 1 + |pat|];
    }
  }

  lemma OccursAtShift(s: string, pat: string)
    requires |s| > 0
    ensures forall j: nat :: j >= 1 ==> (OccursAt(s, pat, j) <==> OccursAt(s[1..], pat, j - 1))
  {
    forall j: nat | j >= 1 ensures OccursAt(s, pat, j) <==> OccursAt(s[1..], pat, j - 1) {
      OccursAtTail(s, pat, j - 1);
    }
  }

  lemma OccursAtStart(s: string, pat: string)
    ensures OccursAt(s, pat, 0) <==> StartsWith(s, pat)
  {
    if |pat| <= |s| {
      assert s[0..|pat|] == s[..|pat|];
    }
  }

  /** A piece that is exactly the pattern is replaced by the replacement. */
  lemma ReplaceAllMatch(pat: string, rest: string, rep: string)
    requires |pat| > 0
    ensures ReplaceAll(pat + rest, pat, rep) == rep + ReplaceAll(rest, pat, rep)
  {
    assert (pat + rest)[..|pat|] == pat;
    assert (pat + rest)[|pat|..] == rest;
  }

  /** A leading piece in which no match starts is copied unchanged. */
  lemma {:induction false} ReplaceAllSkip(u: string, rest: string, pat: string, rep: string)
    requires |pat| > 0
    requires forall i :: 0 <= i < |u| ==> !OccursAt(u + rest, pat, i)
    ensures ReplaceAll(u + rest, pat, rep) == u + ReplaceAll(rest, pat, rep)
    decreases |u|
  {
    var s := u + rest;
    if |u| == 0 {
      assert s == rest;
    } else {
      OccursAtStart(s, pat);
      assert s[1..] == u[1..] + rest;
      forall i | 0 <= i < |u[1..]| ensures !OccursAt(u[1..] + rest, pat, i) {
        OccursAtTail(s, pat, i);
      }
      ReplaceAllSkip(u[1..], rest, pat, rep);
      assert ReplaceAll(s, pat, rep) == [s[0]] + ReplaceAll(s[1..], pat, rep);
      assert u == [u[0]] + u[1..];
    }
  }

  /** `s.split(sep)` for a one-character separator. */
  function Split(s: string, sep: char): (parts: seq<string>)
    ensures |parts| >= 1
    ensures forall i :: 0 <= i < |parts| ==> sep !in parts[i]
    decreases |s|
  {
    if sep !in s then [s]
    else
      var i := FirstIndex(s, sep);
      [s[..i]] + Split(s[i + 1..], sep)
  }

  lemma {:induction false} FirstIndexAt(s: string, c: char, k: nat)
    requires k < |s| && s[k] == c && c !in s[..k]
    ensures FirstIndex(s, c) == k
  {
    if k > 0 {
      assert s[0] in s[..k];
      assert s[1..][..k - 1] == s[1..k];
      assert s[1..k] == s[..k][1..];
      FirstIndexAt(s[1..], c, k - 1);
    }
  }

  /** `parts.join(sep)`. */
  function Join(parts: seq<string>, sep: string): string
  {
    if |parts| == 0 then ""
    else if |parts| == 1 then parts[0]
    else parts[0] + sep + Join(parts[1..], sep)
  }

  /** Joining the pieces of a split with the separator restores the string. */
  lemma {:induction false} JoinSplit(s: string, sep: char)
    ensures Join(Split(s, sep), [sep]) == s
    decreases |s|
  {
    if sep in s {
      var i := FirstIndex(s, sep);
      var parts := Split(s, sep);
      assert parts == [s[..i]] + Split(s[i + 1..], sep);
      assert |parts| >= 2 && parts[1..] == Split(s[i + 1..], sep);
      JoinSplit(s[i + 1..], sep);
      assert Join(parts, [sep]) == s[..i] + [sep] + Join(parts[1..], [sep]);
      assert s == s[..i] + [sep] + s[i + 1..];
    }
  }

  /** Splitting a join of separator-free pieces gives the pieces back. */
  lemma {:induction false} SplitJoin(parts: seq<string>, sep: char)
    requires |parts| >= 1
    requires forall i :: 0 <= i < |parts| ==> sep !in parts[i]
    ensures Split(Join(parts, [sep]), sep) == parts
  {
    if |parts| > 1 {
      var s := Join(parts, [sep]);
      var rest := Join(parts[1..], [sep]);
      assert s == parts[0] + [sep] + rest;
      assert s[|parts[0]|] == sep;
      assert s[..|parts[0]|] == parts[0];
      FirstIndexAt(s, sep, |parts[0]|);
      assert s[|parts[0]| + 1..] == rest;
      assert Split(s, sep) == [parts[0]] + Split(rest, sep);
      SplitJoin(parts[1..], sep);
      assert parts == [parts[0]] + parts[1..];
    } else {
      assert Join(parts, [sep]) == parts[0];
    }
  }

  /** A join of pieces that avoid a character avoids it too, apart from the
      separator itself. */
  lemma {:induction false} JoinAvoids(parts: seq<string>, sep: string, c: char)
    requires c !in sep
    requires forall i :: 0 <= i < |parts| ==> c !in parts[i]
    ensures c !in Join(parts, sep)
  {
    if |parts| > 1 {
      JoinAvoids(parts[1..], sep, c);
    }
  }

  /** Appending a piece to a non-empty list of pieces appends the separator and
      the piece to the join. */
  lemma {:induction false} JoinSnoc(parts: seq<string>, x: string, sep: string)
    requires |parts| >= 1
    ensures Join(parts + [x], sep) == Join(parts, sep) + sep + x
  {
    if |parts| > 1 {
      assert (parts + [x])[1..] == parts[1..] + [x];
      JoinSnoc(parts[1..], x, sep);
    }
  }

  /** A join of non-empty pieces starts with the first piece's first character
      and ends with the last piece's last character. */
  lemma {:induction false} JoinEnds(parts: seq<string>, sep: string)
    requires |parts| >= 1
    requires forall i :: 0 <= i < |parts| ==> parts[i] != []
    ensures var j := Join(parts, sep);
      j != [] && j[0] == parts[0][0] && j[|j| - 1] == parts[|parts| - 1][|parts[|parts| - 1]| - 1]
  {
    if |parts| > 1 {
      JoinEnds(parts[1..], sep);
    }
  }

  /** `s.includes(sub)`. */
  predicate Contains(s: string, sub: string)
    decreases |s|
  {
    StartsWith(s, sub) || (|s| > 0 && Contains(s[1..], sub))
  }

  /** `includes` holds exactly when `sub` occurs at some position. */
  lemma {:induction false} ContainsIff(s: string, sub: string)
    ensures Contains(s, sub) <==> exists i: nat :: OccursAt(s, sub, i)
    decreases |s|
  {
    OccursAtStart(s, sub);
    if |s| > 0 {
      ContainsIff(s[1..], sub);
      forall i: nat ensures OccursAt(s[1..], sub, i) <==> OccursAt(s, sub, i + 1) {
        OccursAtTail(s, sub, i);
      }
      if exists i: nat :: OccursAt(s, sub, i) {
        var i: nat :| OccursAt(s, sub, i);
        assert i == 0 || OccursAt(s[1..], sub, i - 1);
      }
    } else {
      forall i: nat ensures !OccursAt(s, sub, i) || i == 0 {
      }
    }
  }

  /** Position of the first occurrence of `pat` in `s` (`s.indexOf(pat)`). */
  function IndexOfSub(s: string, pat: string): (r: int)
    ensures r >= -1
    ensures r >= 0 ==> OccursAt(s, pat, r)
    ensures forall j: nat :: j < r || r < 0 ==> !OccursAt(s, pat, j)
    decreases |s|
  {
    OccursAtStart(s, pat);
    if StartsWith(s, pat) then 0
    else if |s| == 0 then -1
    else
      var k := IndexOfSub(s[1..], pat);
      OccursAtShift(s, pat);
      if k < 0 then -1 else k + 1
  }

  /** The replacement text of `String.prototype.replace` (GetSubstitution) for a
      string pattern, which has no capture groups: `$$` is a dollar sign, `$&`
      the matched text, `` $` `` the text before the match, `$'` the text after
      it; any other `$` stands for itself. */
  function Substitute(rep: string, matched: string, before: string, after: string): string
    decreases |rep|
  {
    if |rep| == 0 then ""
    else if rep[0] == '$' && |rep| >= 2 && rep[1] == '$' then "$" + Substitute(rep[2..], matched, before, after)
    else if rep[0] == '$' && |rep| >= 2 && rep[1] == '&' then matched + Substitute(rep[2..], matched, before, after)
    else if rep[0] == '$' && |rep| >= 2 && rep[1] == '`' then before + Substitute(rep[2..], matched, before, after)
    else if rep[0] == '$' && |rep| >= 2 && rep[1] == '\'' then after + Substitute(rep[2..], matched, before, after)
    else [rep[0]] + Substitute(rep[1..], matched, before, after)
  }

  /** A replacement without `$` is inserted literally. */
  lemma {:induction false} SubstituteLiteral(rep: string, matched: string, before: string, after: string)
    requires '$' !in rep
    ensures Substitute(rep, matched, before, after) == rep
    decreases |rep|
  {
    if |rep| > 0 {
      assert rep[0] != '$';
      assert '$' !in rep[1..];
      SubstituteLiteral(rep[1..], matched, before, after);
      assert rep == [rep[0]] + rep[1..];
    }
  }

  /** `s.replace(pat, rep)` with a string pattern: only the first occurrence is
      replaced, and `rep` goes through `$` substitution. */
  function ReplaceFirst(s: string, pat: string, rep: string): string
  {
    var i := IndexOfSub(s, pat);
    if i < 0 then s
    else s[..i] + Substitute(rep, pat, s[..i], s[i + |pat|..]) + s[i + |pat|..]
  }

  /** Replacing the first occurrence of `pat` by `rep` taken literally. */
  function ReplaceFirstLiteral(s: string, pat: string, rep: string): string
  {
    var i := IndexOfSub(s, pat);
    if i < 0 then s else s[..i] + rep + s[i + |pat|..]
  }

  /** A replacement without `$` is inserted literally by `replace`. */
  lemma ReplaceFirstNoDollar(s: string, pat: string, rep: string)
    requires '$' !in rep
    ensures ReplaceFirst(s, pat, rep) == ReplaceFirstLiteral(s, pat, rep)
  {
    var i := IndexOfSub(s, pat);
    if i >= 0 {
      SubstituteLiteral(rep, pat, s[..i], s[i + |pat|..]);
    }
  }

  /** A string that starts with the pattern has its first occurrence there. */
  lemma ReplaceFirstAtStart(s: string, pat: string, rep: string)
    requires StartsWith(s, pat)
    ensures ReplaceFirstLiteral(s, pat, rep) == rep + s[|pat|..]
  {
    OccursAtStart(s, pat);
    assert IndexOfSub(s, pat) == 0;
  }

  /** `replace` on a string that starts with the pattern substitutes there. */
  lemma ReplaceFirstSubstAtStart(s: string, pat: string, rep: string)
    requires StartsWith(s, pat)
    ensures ReplaceFirst(s, pat, rep) == Substitute(rep, pat, "", s[|pat|..]) + s[|pat|..]
  {
    var i := IndexOfSub(s, pat);
    assert i == 0 by {
      OccursAtStart(s, pat);
    }
    assert s[..i] == "";
    var sub := Substitute(rep, pat, s[..i], s[i + |pat|..]);
    assert ReplaceFirst(s, pat, rep) == s[..i] + sub + s[i + |pat|..];
  }

  /** Characters other than `$` are copied one by one. */
  lemma {:induction false} SubstitutePlain(plain: string, rest: string, matched: string, before: string, after: string)
    requires '$' !in plain
    ensures Substitute(plain + rest, matched, before, after) == plain + Substitute(rest, matched, before, after)
    decreases |plain|
  {
    if |plain| > 0 {
      assert (plain + rest)[0] == plain[0] && plain[0] != '$';
      assert (plain + rest)[1..] == plain[1..] + rest;
      assert '$' !in plain[1..];
      SubstitutePlain(plain[1..], rest, matched, before, after);
      assert plain == [plain[0]] + plain[1..];
    } else {
      assert plain + rest == rest;
    }
  }

  /** A prefix made of two parts: what follows the first part. */
  lemma StartsWithParts(s: string, a: string, b: string)
    requires StartsWith(s, a + b)
    ensures StartsWith(s, a) && s[|a|..] == b + s[|a + b|..]
  {
    assert s[..|a + b|] == a + b;
    assert s[..|a|] == (a + b)[..|a|];
    assert s[|a|..|a + b|] == b;
  }

  function DigitChar(d: nat): (c: char)
    requires d < 10
    ensures '0' <= c <= '9' && c as int - '0' as int == d
  {
    ('0' as int + d) as char
  }

  /** Decimal text of a natural number, as a template literal renders it. */
  function NatToString(n: nat): (r: string)
    ensures |r| >= 1
    ensures forall i :: 0 <= i < |r| ==> '0' <= r[i] <= '9'
    ensures r[0] == '0' ==> r == "0"
  {
    if n < 10 then [DigitChar(n)] else NatToString(n / 10) + [DigitChar(n % 10)]
  }

  /** Value of a string of decimal digits. */
  function DigitsValue(s: string): nat
    requires forall i :: 0 <= i < |s| ==> '0' <= s[i] <= '9'
  {
    if |s| == 0 then 0 else 10 * DigitsValue(s[..|s| - 1]) + (s[|s| - 1] as int - '0' as int)
  }

  /** Reading the decimal text back gives the number. */
  lemma {:induction false} NatToStringValue(n: nat)
    ensures DigitsValue(NatToString(n)) == n
  {
    if n >= 10 {
      NatToStringValue(n / 10);
      var init := NatToString(n / 10);
      var d := DigitChar(n % 10);
      var r := init + [d];
      assert r[..|r| - 1] == init && r[|r| - 1] == d;
      assert DigitsValue(r) == 10 * (n / 10) + n % 10;
    }
  }

  /** Code-point lexicographic order (a proper prefix sorts first). */
  predicate LexLess(a: string, b: string)
    decreases |a|
  {
    if |a| == 0 then |b| > 0
    else |b| > 0 && (a[0] < b[0] || (a[0] == b[0] && LexLess(a[1..], b[1..])))
  }

  lemma {:induction false} LexLessIrreflexive(a: string)
    ensures !LexLess(a, a)
  {
    if |a| > 0 {
      LexLessIrreflexive(a[1..]);
    }
  }

  lemma {:induction false} LexLessTransitive(a: string, b: string, c: string)
    requires LexLess(a, b) && LexLess(b, c)
    ensures LexLess(a, c)
  {
    if |a| > 0 && |b| > 0 && |c| > 0 && a[0] == b[0] == c[0] {
      LexLessTransitive(a[1..], b[1..], c[1..]);
    }
  }

  lemma {:induction false} LexLessConnected(a: string, b: string)
    requires a != b
    ensures LexLess(a, b) || LexLess(b, a)
  {
    if |a| > 0 && |b| > 0 && a[0] == b[0] {
      assert a == [a[0]] + a[1..] && b == [b[0]] + b[1..];
      LexLessConnected(a[1..], b[1..]);
    }
  }

  lemma {:induction false} LexLessAsymmetric(a: string, b: string)
    requires LexLess(a, b)
    ensures !LexLess(b, a)
  {
    if |a| > 0 && a[0] == b[0] {
      LexLessAsymmetric(a[1..], b[1..]);
    }
  }

  /** Not sorting before is transitive too (incomparability is equality). */
  lemma LexNotLessTransitive(x: string, y: string, z: string)
    requires !LexLess(x, y) && !LexLess(y, z)
    ensures !LexLess(x, z)
  {
    LexLessIrreflexive(x);
    if x != y {
      LexLessConnected(x, y);
    }
    if y != z {
      LexLessConnected(y, z);
    }
    if x != y && y != z {
      LexLessTransitive(z, y, x);
    }
    if z != x {
      LexLessAsymmetric(z, x);
    }
  }

  /** Code-point lexicographic order is a strict total order. */
  lemma LexLessStrictTotal()
    ensures StrictTotalOrder(LexLess)
  {
    forall a ensures !LexLess(a, a) {
      LexLessIrreflexive(a);
    }
    forall a, b, c | LexLess(a, b) && LexLess(b, c) ensures LexLess(a, c) {
      LexLessTransitive(a, b, c);
    }
    forall a, b | a != b ensures LexLess(a, b) || LexLess(b, a) {
      LexLessConnected(a, b);
    }
    StrictTotalOrderIntro(LexLess);
  }

  function FoldChar(c: char): char
  {
    if 'A' <= c <= 'Z' then (c as int + 32) as char else c
  }

  /** ASCII case folding. */
  function Fold(s: string): (r: string)
    ensures |r| == |s|
  {
    seq(|s|, i requires 0 <= i < |s| => FoldChar(s[i]))
  }

  /** `a.localeCompare(b, undefined, { sensitivity: "base" }) < 0`, taken as
      code-point order of the ASCII case-folded texts: names differing only in
      letter case compare equal. */
  predicate BaseLess(a: string, b: string)
  {
    LexLess(Fold(a), Fold(b))
  }

  /** Names differing only in letter case are tied: neither sorts before the other. */
  lemma BaseLessCaseBlind(a: string, b: string)
    requires Fold(a) == Fold(b)
    ensures !BaseLess(a, b) && !BaseLess(b, a)
  {
    LexLessIrreflexive(Fold(a));
  }

  /** The base-sensitivity comparison is a strict weak order, which is what a
      sort needs; ties keep their original order under a stable sort. */
  lemma BaseLessStrictWeak()
    ensures StrictWeakOrder(BaseLess)
  {
    forall a ensures !BaseLess(a, a) {
      LexLessIrreflexive(Fold(a));
    }
    forall a, b, c | BaseLess(a, b) && BaseLess(b, c) ensures BaseLess(a, c) {
      LexLessTransitive(Fold(a), Fold(b), Fold(c));
    }
    forall a, b, c | !BaseLess(a, b) && !BaseLess(b, c) ensures !BaseLess(a, c) {
      LexNotLessTransitive(Fold(a), Fold(b), Fold(c));
    }
  }

  /** A join opens with its first part. */
  lemma JoinStartsWithFirst(parts: seq<string>, sep: string)
    requires |parts| >= 1
    ensures StartsWith(Join(parts, sep), parts[0])
  {
    if |parts| > 1 {
      var j := Join(parts, sep);
      assert j == parts[0] + (sep + Join(parts[1..], sep));
      assert j[..|parts[0]|] == parts[0];
    }
  }
}
