/** `normalizeOsPath` (`src/utils/normalize-path.ts`), which `menu.ts` repeats
    as `normalizeSubPath`: a caller-supplied path is trimmed, its backslashes
    become `/`, one leading drive prefix goes, and the segments that survive
    (non-empty, not `.`, not `..`) are joined with the platform separator, here
    `/`. */
module NormalizePath {
  import opened Sequences
  import opened Strings
  import opened PosixPath

  predicate IsAsciiLetter(c: char)
  {
    ('A' <= c <= 'Z') || ('a' <= c <= 'z')
  }

  /** `s.replace(/^[A-Za-z]:/, "")`: the result is `s` with either nothing or
      exactly two characters removed from the front; two go exactly when they
      form a drive prefix. */
  function StripDrive(s: string): (r: string)
    ensures |s| - |r| in {0, 2} && r == s[|s| - |r|..]
    ensures |r| < |s| ==> IsAsciiLetter(s[0]) && s[1] == ':'
    ensures |s| >= 2 && IsAsciiLetter(s[0]) && s[1] == ':' ==> |r| < |s|
  {
    if |s| >= 2 && IsAsciiLetter(s[0]) && s[1] == ':' then s[2..] else s
  }

  /** A drive prefix is removed. */
  lemma StripDriveOf(s: string)
    requires |s| >= 2 && IsAsciiLetter(s[0]) && s[1] == ':'
    ensures StripDrive(s) == s[2..]
  {
  }

  /** `s.replace(/^\/+/g, "")`. */
  function StripLeadingSlashes(s: string): (r: string)
    ensures |r| <= |s| && r == s[|s| - |r|..]
    ensures forall i :: 0 <= i < |s| - |r| ==> s[i] == '/'
    ensures r == [] || r[0] != '/'
  {
    if |s| > 0 && s[0] == '/' then StripLeadingSlashes(s[1..]) else s
  }

  function NonEmpty(seg: string): bool
  {
    seg != ""
  }

  function NotDotSegment(seg: string): bool
  {
    seg != "." && seg != ".."
  }

  /** The segments that survive the two filters. */
  function KeptSegments(s: string): (segs: seq<string>)
    ensures AllOrdinary(segs)
  {
    var segs := Filter(Filter(Split(s, '/'), NonEmpty), NotDotSegment);
    assert forall i :: 0 <= i < |segs| ==> segs[i] in Split(s, '/');
    segs
  }

  /** The path after trimming, converting backslashes and removing the drive
      prefix: the text whose segments the result keeps. */
  function Undrived(p: string): string
  {
    StripDrive(ReplaceChar(Trim(p), '\\', '/'))
  }

  /** `normalizeOsPath(filePath)` with `path.sep` equal to `/`. An absent or
      empty argument gives the empty path. */
  function NormalizeOsPath(filePath: Option<string>): (r: string)
    ensures filePath.None? || filePath.value == "" ==> r == ""
    ensures '\\' !in r
    ensures r == "" || CleanPath(r)
  {
    if filePath.None? || filePath.value == "" then ""
    else
      var rest := StripTrailingSlashes(StripLeadingSlashes(Undrived(filePath.value)));
      if |rest| == 0 then ""
      else
        BackslashFree(filePath.value, rest);
        JoinSegments(KeptSegments(rest))
  }

  /** `segs.join(path.sep)`. */
  function JoinSegments(segs: seq<string>): (r: string)
    requires AllOrdinary(segs)
    ensures r == "" <==> segs == []
    ensures r != "" ==> CleanPath(r) && Split(r, '/') == segs
  {
    if segs == [] then ""
    else
      JoinClean(segs);
      JoinEnds(segs, "/");
      Join(segs, "/")
  }

  lemma BackslashFree(p: string, rest: string)
    requires rest == StripTrailingSlashes(StripLeadingSlashes(Undrived(p)))
    ensures '\\' !in JoinSegments(KeptSegments(rest))
  {
    var u := Undrived(p);
    UndrivedAvoids(p);
    var noLeading := StripLeadingSlashes(u);
    SliceAvoids(u, |u| - |noLeading|, |u|, '\\');
    SliceAvoids(noLeading, 0, |rest|, '\\');
    SegmentsAvoid(rest);
  }

  /** A slice holds no character its string does not hold. */
  lemma SliceAvoids(s: string, i: nat, j: nat, c: char)
    requires i <= j <= |s| && c !in s
    ensures c !in s[i..j]
  {
    forall k | 0 <= k < j - i ensures s[i..j][k] != c {
      assert s[i..j][k] == s[i + k];
    }
  }

  lemma SegmentsAvoid(rest: string)
    requires '\\' !in rest
    ensures '\\' !in JoinSegments(KeptSegments(rest))
  {
    var segs := KeptSegments(rest);
    SplitAvoids(rest, '/', '\\');
    assert forall i :: 0 <= i < |segs| ==> segs[i] in Split(rest, '/');
    JoinAvoids(segs, "/", '\\');
  }

  lemma UndrivedAvoids(p: string)
    ensures '\\' !in Undrived(p)
  {
    var slashed := ReplaceChar(Trim(p), '\\', '/');
    ReplaceCharRemoves(Trim(p), '\\', '/');
    if |slashed| >= 2 && IsAsciiLetter(slashed[0]) && slashed[1] == ':' {
      assert Undrived(p) == slashed[2..];
    }
  }

  /** No piece of a split holds a character the string does not hold. */
  lemma {:induction false} SplitAvoids(s: string, sep: char, c: char)
    requires c !in s
    ensures forall i :: 0 <= i < |Split(s, sep)| ==> c !in Split(s, sep)[i]
    decreases |s|
  {
    if sep in s {
      var i := FirstIndex(s, sep);
      SplitAvoids(s[i + 1..], sep, c);
    }
  }

  /** Split at the first separator. */
  lemma SplitAt(s: string, sep: char, k: nat)
    requires k < |s| && s[k] == sep && sep !in s[..k]
    ensures Split(s, sep) == [s[..k]] + Split(s[k + 1..], sep)
  {
    FirstIndexAt(s, sep, k);
  }

  /** A leading separator adds only an empty first piece. */
  lemma SplitLeadingSep(s: string, sep: char)
    ensures Split([sep] + s, sep) == [""] + Split(s, sep)
  {
    assert ([sep] + s)[1..] == s;
    SplitAt([sep] + s, sep, 0);
  }

  /** A trailing separator adds only an empty last piece. */
  lemma {:induction false} SplitTrailingSep(s: string, sep: char)
    ensures Split(s + [sep], sep) == Split(s, sep) + [""]
    decreases |s|
  {
    var t := s + [sep];
    if sep in s {
      var i := FirstIndex(s, sep);
      assert Split(t, sep) == [s[..i]] + Split(s[i + 1..] + [sep], sep) by {
        assert t[..i] == s[..i];
        assert t[i + 1..] == s[i + 1..] + [sep];
        SplitAt(t, sep, i);
      }
      assert Split(s, sep) == [s[..i]] + Split(s[i + 1..], sep) by {
        SplitAt(s, sep, i);
      }
      SplitTrailingSep(s[i + 1..], sep);
    } else {
      assert t[..|s|] == s;
      SplitAt(t, sep, |s|);
      assert t[|s| + 1..] == [];
    }
  }

  /** An empty piece at either end is filtered away. */
  lemma FilterEmptyEnds(a: seq<string>)
    ensures Filter([""] + a, NonEmpty) == Filter(a, NonEmpty)
    ensures Filter(a + [""], NonEmpty) == Filter(a, NonEmpty)
  {
    FilterAppend([""], a, NonEmpty);
    FilterAppend(a, [""], NonEmpty);
    assert Filter([""], NonEmpty) == [];
    assert Filter(a, NonEmpty) + [] == Filter(a, NonEmpty);
  }

  /** Removing leading separators drops only empty pieces. */
  lemma {:induction false} StripLeadingKeeps(s: string)
    ensures Filter(Split(StripLeadingSlashes(s), '/'), NonEmpty) == Filter(Split(s, '/'), NonEmpty)
    decreases |s|
  {
    if |s| > 0 && s[0] == '/' {
      var t := s[1..];
      assert Filter(Split(s, '/'), NonEmpty) == Filter(Split(t, '/'), NonEmpty) by {
        assert s == ['/'] + t;
        SplitLeadingSep(t, '/');
        FilterEmptyEnds(Split(t, '/'));
      }
      StripLeadingKeeps(t);
    }
  }

  /** Removing trailing separators drops only empty pieces. */
  lemma {:induction false} StripTrailingKeeps(s: string)
    ensures Filter(Split(StripTrailingSlashes(s), '/'), NonEmpty) == Filter(Split(s, '/'), NonEmpty)
    decreases |s|
  {
    if |s| > 0 && s[|s| - 1] == '/' {
      var init := s[..|s| - 1];
      assert Filter(Split(s, '/'), NonEmpty) == Filter(Split(init, '/'), NonEmpty) by {
        assert s == init + ['/'];
        SplitTrailingSep(init, '/');
        FilterEmptyEnds(Split(init, '/'));
      }
      StripTrailingKeeps(init);
    }
  }

  /** The result's segments are exactly the non-empty, non-dot segments of the
      input (after trimming, backslash conversion and drive removal), in their
      original order; with none left the result is empty. */
  lemma NormalizeSegments(p: string)
    requires p != ""
    ensures var segs := Filter(Filter(Split(Undrived(p), '/'), NonEmpty), NotDotSegment);
      && (segs == [] ==> NormalizeOsPath(Some(p)) == "")
      && (segs != [] ==> Split(NormalizeOsPath(Some(p)), '/') == segs)
  {
    var noDrive := Undrived(p);
    var rest := StripTrailingSlashes(StripLeadingSlashes(noDrive));
    var segs := Filter(Filter(Split(noDrive, '/'), NonEmpty), NotDotSegment);
    assert KeptSegments(rest) == segs by {
      StripKeeps(noDrive);
    }
    if rest == [] {
      assert KeptSegments(rest) == [] by {
        assert Split(rest, '/') == [""];
        FilterEmptyEnds([]);
        assert [""] + [] == [""];
      }
    } else {
      NormalizeUnfold(p, rest);
    }
  }

  /** Removing separators at both ends drops only empty pieces. */
  lemma StripKeeps(s: string)
    ensures Filter(Split(StripTrailingSlashes(StripLeadingSlashes(s)), '/'), NonEmpty) == Filter(Split(s, '/'), NonEmpty)
  {
    StripLeadingKeeps(s);
    StripTrailingKeeps(StripLeadingSlashes(s));
  }

  /** A non-empty result neither starts nor ends with a separator. */
  lemma NormalizedEnds(p: Option<string>)
    requires NormalizeOsPath(p) != ""
    ensures NormalizeOsPath(p)[0] != '/'
    ensures NormalizeOsPath(p)[|NormalizeOsPath(p)| - 1] != '/'
  {
    CleanEnds(NormalizeOsPath(p));
  }

  /** A clean path neither starts nor ends with a separator. */
  lemma CleanEnds(r: string)
    requires r != "" && CleanPath(r)
    ensures r[0] != '/' && r[|r| - 1] != '/'
  {
    var segs := Split(r, '/');
    CleanPathJoin(r);
    JoinEnds(segs, "/");
    assert segs[0][0] in segs[0];
    assert segs[|segs| - 1][|segs[|segs| - 1]| - 1] in segs[|segs| - 1];
  }

  /** The normalisation is not idempotent: only one drive prefix is removed per
      call, so `C:/D:/x` gives `D:/x`, which gives `x`. */
  lemma NotIdempotent()
    ensures NormalizeOsPath(Some("C:/D:/x")) == "D:/x"
    ensures NormalizeOsPath(Some(NormalizeOsPath(Some("C:/D:/x")))) == "x"
  {
    FirstDrive();
    SecondDrive();
  }

  lemma FirstDrive()
    ensures NormalizeOsPath(Some("C:/D:/x")) == "D:/x"
  {
    var rest := "D:/x";
    FirstDriveRest();
    FirstDriveSplit();
    KeepTwo("D:", "x");
    JoinSplit(rest, '/');
    NormalizeUnfold("C:/D:/x", rest);
  }

  lemma FirstDriveRest()
    ensures StripTrailingSlashes(StripLeadingSlashes(Undrived("C:/D:/x"))) == "D:/x"
  {
    var u := "/D:/x";
    FirstUndrived();
    SlashThenRest(u, u[1..]);
    assert u[1..] == "D:/x";
  }

  /** A text that is one separator followed by a segment-bounded rest is
      stripped to that rest. */
  lemma SlashThenRest(u: string, rest: string)
    requires |u| >= 2 && u[0] == '/' && rest == u[1..] && rest[0] != '/' && rest[|rest| - 1] != '/'
    ensures StripTrailingSlashes(StripLeadingSlashes(u)) == rest
  {
    OneLeadingSlash(u);
    NoTrailingSlash(rest);
  }

  /** One leading separator, not followed by another, is removed. */
  lemma OneLeadingSlash(s: string)
    requires |s| >= 2 && s[0] == '/' && s[1] != '/'
    ensures StripLeadingSlashes(s) == s[1..]
  {
  }

  /** A path that does not end in a separator keeps its end. */
  lemma NoTrailingSlash(s: string)
    requires s == [] || s[|s| - 1] != '/'
    ensures StripTrailingSlashes(s) == s
  {
  }

  lemma FirstUndrived()
    ensures Undrived("C:/D:/x") == "/D:/x"
  {
    var p := "C:/D:/x";
    PlainText(p);
    StripDriveOf(p);
    assert p[2..] == "/D:/x";
  }

  lemma FirstDriveSplit()
    ensures Split("D:/x", '/') == ["D:", "x"]
  {
    var rest := "D:/x";
    assert rest[..2] == "D:" && rest[3..] == "x";
    assert '/' !in "D:";
    SplitAt(rest, '/', 2);
    assert Split("x", '/') == ["x"];
  }

  lemma NormalizeUnfold(p: string, rest: string)
    requires p != "" && rest != ""
    requires rest == StripTrailingSlashes(StripLeadingSlashes(Undrived(p)))
    ensures NormalizeOsPath(Some(p)) == JoinSegments(KeptSegments(rest))
  {
  }

  lemma SecondDrive()
    ensures NormalizeOsPath(Some("D:/x")) == "x"
  {
    SecondDriveRest();
    SecondDriveKept();
    NormalizeUnfold("D:/x", "x");
  }

  lemma SecondDriveRest()
    ensures StripTrailingSlashes(StripLeadingSlashes(Undrived("D:/x"))) == "x"
  {
    var p := "D:/x";
    PlainText(p);
    assert Undrived(p) == "/x" by {
      StripDriveOf(p);
      assert p[2..] == "/x";
    }
    OneLeadingSlash("/x");
    assert "/x"[1..] == "x";
    NoTrailingSlash("x");
  }

  lemma SecondDriveKept()
    ensures JoinSegments(KeptSegments("x")) == "x"
  {
    assert '/' !in "x" && NonEmpty("x") && NotDotSegment("x");
    KeepOne("x");
  }

  /** Text without surrounding whitespace or backslashes passes the first two
      steps unchanged. */
  lemma PlainText(p: string)
    requires |p| > 0 && !IsJsWhitespace(p[0]) && !IsJsWhitespace(p[|p| - 1])
    requires '\\' !in p
    ensures ReplaceChar(Trim(p), '\\', '/') == p
  {
    assert TrimEnd(p) == p;
    assert TrimStart(p) == p;
    var r := ReplaceChar(p, '\\', '/');
    assert forall i :: 0 <= i < |p| ==> r[i] == p[i];
  }

  /** Two ordinary segments are both kept. */
  lemma KeepTwo(a: string, b: string)
    requires NonEmpty(a) && NonEmpty(b) && NotDotSegment(a) && NotDotSegment(b)
    ensures Filter(Filter([a, b], NonEmpty), NotDotSegment) == [a, b]
  {
    assert [a, b][..1] == [a];
    assert [a][..0] == [];
  }

  /** A single ordinary segment is kept and joined back to itself. */
  lemma KeepOne(seg: string)
    requires '/' !in seg && NonEmpty(seg) && NotDotSegment(seg)
    ensures JoinSegments(KeptSegments(seg)) == seg
  {
    assert Split(seg, '/') == [seg];
    assert [seg][..0] == [];
    assert KeptSegments(seg) == [seg];
  }
}
