/** `search` (`src/utils/search.ts`): every listed file of at most 5 MiB is
    split into lines, each line is tested against the compiled query, and the
    matching lines are reported per file, files in path order and lines in
    ascending order. The regular-expression engine is a parameter: `compile`
    builds a matcher from pattern text and flags, `test` runs it on one line. */
module Search {
  import opened Sequences
  import opened Strings
  import opened Glob
  import opened Workspace

  /** Files larger than this many bytes are skipped (`5 * 1024 * 1024`). */
  const MaxFileSize: nat := 5 * 1024 * 1024

  /** A piece that ends in a carriage return loses it. */
  function DropCR(piece: string): (r: string)
    ensures r == piece || (r + "\r" == piece)
  {
    if |piece| > 0 && piece[|piece| - 1] == '\r' then piece[..|piece| - 1] else piece
  }

  /** `content.split(/\r?\n/)`: the text is cut at every line feed, and a
      carriage return just before a line feed goes with it. */
  function SplitLines(content: string): (lines: seq<string>)
    ensures |lines| == |Split(content, '\n')|
    ensures forall i :: 0 <= i < |lines| ==> '\n' !in lines[i]
  {
    var parts := Split(content, '\n');
    seq(|parts|, i requires 0 <= i < |parts| => if i < |parts| - 1 then DropCR(parts[i]) else parts[i])
  }

  /** Text without carriage returns splits into lines that join back to it. */
  lemma SplitLinesJoin(content: string)
    requires '\r' !in content
    ensures Join(SplitLines(content), "\n") == content
  {
    var parts := Split(content, '\n');
    forall i | 0 <= i < |parts| ensures '\r' !in parts[i] {
      SplitPiecesIn(content, '\n', i);
    }
    assert SplitLines(content) == parts;
    JoinSplit(content, '\n');
  }

  /** Every character of a piece of a split occurs in the split text. */
  lemma {:induction false} SplitPiecesIn(s: string, sep: char, i: nat)
    requires i < |Split(s, sep)|
    ensures forall c :: c in Split(s, sep)[i] ==> c in s
    decreases |s|
  {
    if sep in s {
      var k := FirstIndex(s, sep);
      if i > 0 {
        assert Split(s, sep)[i] == Split(s[k + 1..], sep)[i - 1];
        SplitPiecesIn(s[k + 1..], sep, i - 1);
      } else {
        assert Split(s, sep)[i] == s[..k];
      }
    }
  }

  /** Windows line ends are removed: lines joined with CR LF rebuild a text in
      which every line ends that way. */
  lemma SplitLinesCRLF(lines: seq<string>)
    requires |lines| >= 1
    requires forall i :: 0 <= i < |lines| ==> '\n' !in lines[i] && '\r' !in lines[i]
    ensures SplitLines(Join(lines, "\r\n")) == lines
  {
    var withCR := WithCR(lines);
    JoinCR(lines);
    forall i | 0 <= i < |withCR| ensures '\n' !in withCR[i] {
      assert i < |lines| - 1 ==> withCR[i] == lines[i] + "\r";
    }
    SplitJoin(withCR, '\n');
    forall i | 0 <= i < |lines| ensures SplitLines(Join(lines, "\r\n"))[i] == lines[i] {
      if i < |lines| - 1 {
        DropAddedCR(lines[i]);
      }
    }
  }

  lemma DropAddedCR(line: string)
    ensures DropCR(line + "\r") == line
  {
    assert (line + "\r")[..|line|] == line;
  }

  /** The lines, each but the last carrying a carriage return. */
  function WithCR(lines: seq<string>): (r: seq<string>)
    ensures |r| == |lines|
    ensures forall i :: 0 <= i < |lines| - 1 ==> r[i] == lines[i] + "\r"
    ensures |lines| > 0 ==> r[|lines| - 1] == lines[|lines| - 1]
  {
    seq(|lines|, i requires 0 <= i < |lines| => if i < |lines| - 1 then lines[i] + "\r" else lines[i])
  }

  /** Joining with CR LF is joining, with LF, the lines that carry their CR. */
  lemma {:induction false} JoinCR(lines: seq<string>)
    requires |lines| >= 1
    ensures Join(lines, "\r\n") == Join(WithCR(lines), "\n")
  {
    if |lines| > 1 {
      JoinCR(lines[1..]);
      assert WithCR(lines)[1..] == WithCR(lines[1..]);
      assert lines[0] + "\r\n" + Join(lines[1..], "\r\n") == (lines[0] + "\r") + "\n" + Join(WithCR(lines[1..]), "\n");
    }
  }

  /** Line `n` (counted from 1) exists and the matcher accepts it. */
  predicate LineMatches(lines: seq<string>, matches: string -> bool, n: int)
  {
    1 <= n <= |lines| && matches(lines[n - 1])
  }

  /** The 1-based numbers of the lines the matcher accepts, in ascending order. */
  function MatchedLines(lines: seq<string>, matches: string -> bool): (r: seq<nat>)
    ensures forall k :: 0 <= k < |r| ==> LineMatches(lines, matches, r[k])
    decreases |lines|
  {
    if |lines| == 0 then []
    else
      var init := lines[..|lines| - 1];
      var r := MatchedLines(init, matches);
      assert forall k :: 0 <= k < |r| ==> lines[r[k] - 1] == init[r[k] - 1];
      r + (if matches(lines[|lines| - 1]) then [|lines|] else [])
  }

  /** The listed line numbers ascend strictly. */
  lemma {:induction false} MatchedLinesAscending(lines: seq<string>, matches: string -> bool)
    ensures forall a, b :: 0 <= a < b < |MatchedLines(lines, matches)|
              ==> MatchedLines(lines, matches)[a] < MatchedLines(lines, matches)[b]
    decreases |lines|
  {
    if |lines| > 0 {
      var init := lines[..|lines| - 1];
      MatchedLinesAscending(init, matches);
      var r := MatchedLines(init, matches);
      assert forall k :: 0 <= k < |r| ==> r[k] <= |init| by {
        assert forall k :: 0 <= k < |r| ==> LineMatches(init, matches, r[k]);
      }
      var full := MatchedLines(lines, matches);
      assert full == r + (if matches(lines[|lines| - 1]) then [|lines|] else []);
      forall a, b | 0 <= a < b < |full| ensures full[a] < full[b] {
        if b < |r| {
          assert full[a] == r[a] && full[b] == r[b];
        } else {
          assert full[a] == r[a] && full[b] == |lines|;
        }
      }
    }
  }

  /** Every line the matcher accepts is listed. */
  lemma {:induction false} MatchedLinesComplete(lines: seq<string>, matches: string -> bool, n: nat)
    requires LineMatches(lines, matches, n)
    ensures n in MatchedLines(lines, matches)
    decreases |lines|
  {
    var init := lines[..|lines| - 1];
    if n < |lines| {
      assert init[n - 1] == lines[n - 1];
      MatchedLinesComplete(init, matches, n);
    }
  }

  /** Every listed line is one the matcher accepts. */
  lemma MatchedLinesSound(lines: seq<string>, matches: string -> bool, n: nat)
    requires n in MatchedLines(lines, matches)
    ensures LineMatches(lines, matches, n)
  {
    var m := MatchedLines(lines, matches);
    var k :| 0 <= k < |m| && m[k] == n;
  }

  /** The inner loop: every line is tested on its own and its number added to
      the `matchedLines` set when it matches. */
  method ScanLines(lines: seq<string>, matches: string -> bool) returns (matched: seq<nat>)
    ensures matched == MatchedLines(lines, matches)
  {
    matched := [];
    var i := 0;
    while i < |lines|
      invariant 0 <= i <= |lines|
      invariant matched == MatchedLines(lines[..i], matches)
      invariant forall k :: 0 <= k < |matched| ==> matched[k] <= i
    {
      SliceSnoc(lines, i);
      assert lines[..i + 1][..i] == lines[..i];
      if matches(lines[i]) {
        if i + 1 !in matched {
          matched := matched + [i + 1];
        }
      }
      i := i + 1;
    }
    SliceAll(lines);
  }

  predicate NumLess(a: nat, b: nat)
  {
    a < b
  }

  /** One reported line. */
  datatype Hit = Hit(path: string, line: nat, text: string)

  /** `results.push({ path: rel, line, text: lines[line - 1] ?? "" })` for each
      matched number, in numeric order. */
  function FileHits(rel: string, lines: seq<string>, matched: seq<nat>): (r: seq<Hit>)
    ensures |r| == |matched|
    ensures forall k :: 0 <= k < |r| ==> r[k].path == rel && r[k].line == matched[k]
  {
    seq(|matched|, k requires 0 <= k < |matched| =>
      Hit(rel, matched[k], if 1 <= matched[k] <= |lines| then lines[matched[k] - 1] else ""))
  }

  lemma FileHitsSnoc(rel: string, lines: seq<string>, matched: seq<nat>, k: nat)
    requires k < |matched|
    ensures FileHits(rel, lines, matched[..k + 1])
         == FileHits(rel, lines, matched[..k])
            + [Hit(rel, matched[k], if 1 <= matched[k] <= |lines| then lines[matched[k] - 1] else "")]
  {
    var a := FileHits(rel, lines, matched[..k + 1]);
    var b := FileHits(rel, lines, matched[..k]);
    assert forall j :: 0 <= j < k ==> a[j] == b[j];
  }

  /** The text of a file that is searched: it exists, is small enough and can be read. */
  function Scannable(files: Files, rel: string): Option<string>
  {
    if rel in files && files[rel].size <= MaxFileSize && files[rel].content.Some?
    then files[rel].content
    else None
  }

  /** The hits one listed file contributes. */
  function HitsOf(files: Files, rel: string, matches: string -> bool): seq<Hit>
  {
    match Scannable(files, rel)
    case None => []
    case Some(content) =>
      var lines := SplitLines(content);
      FileHits(rel, lines, Sort(MatchedLines(lines, matches), NumLess))
  }

  /** The `results` array after the loop over the listed files. */
  function AllHits(files: Files, listed: seq<string>, matches: string -> bool): (r: seq<Hit>)
    ensures forall i :: 0 <= i < |r| ==> r[i].path in listed
    decreases |listed|
  {
    if |listed| == 0 then []
    else
      var init := AllHits(files, listed[..|listed| - 1], matches);
      var last := HitsOf(files, listed[|listed| - 1], matches);
      HitsOfPath(files, listed[|listed| - 1], matches);
      assert forall i :: 0 <= i < |last| ==> last[i] in last;
      init + last
  }

  /** The body of the loop over files for a file that is searched. */
  method ScanFile(rel: string, content: string, matches: string -> bool) returns (hits: seq<Hit>)
    ensures hits == FileHits(rel, SplitLines(content), Sort(MatchedLines(SplitLines(content), matches), NumLess))
  {
    var lines := SplitLines(content);
    var matched := ScanLines(lines, matches);
    var ordered := Sort(matched, NumLess);
    hits := PushHits(rel, lines, ordered);
  }

  /** The loop over the ordered line numbers, pushing one result each. */
  method PushHits(rel: string, lines: seq<string>, ordered: seq<nat>) returns (hits: seq<Hit>)
    ensures hits == FileHits(rel, lines, ordered)
  {
    hits := [];
    var k := 0;
    while k < |ordered|
      invariant 0 <= k <= |ordered|
      invariant hits == FileHits(rel, lines, ordered[..k])
    {
      var line := ordered[k];
      var text := if 1 <= line <= |lines| then lines[line - 1] else "";
      FileHitsSnoc(rel, lines, ordered, k);
      hits := hits + [Hit(rel, line, text)];
      k := k + 1;
    }
    SliceAll(ordered);
  }

  /** The loop over the listed files: missing, oversized and unreadable files
      are skipped; the others add their hits. */
  method CollectResults(files: Files, listed: seq<string>, matches: string -> bool) returns (results: seq<Hit>)
    ensures results == AllHits(files, listed, matches)
  {
    results := [];
    var i := 0;
    while i < |listed|
      invariant 0 <= i <= |listed|
      invariant results == AllHits(files, listed[..i], matches)
    {
      var rel := listed[i];
      AllHitsSnoc(files, listed, i, matches);
      if rel in files && files[rel].size <= MaxFileSize && files[rel].content.Some? {
        var hits := ScanFile(rel, files[rel].content.value, matches);
        assert hits == HitsOf(files, rel, matches);
        results := results + hits;
      } else {
        assert HitsOf(files, rel, matches) == [];
      }
      i := i + 1;
    }
    SliceAll(listed);
  }

  /** One more listed file adds its hits at the end. */
  lemma AllHitsSnoc(files: Files, listed: seq<string>, i: nat, matches: string -> bool)
    requires i < |listed|
    ensures AllHits(files, listed[..i + 1], matches) == AllHits(files, listed[..i], matches) + HitsOf(files, listed[i], matches)
  {
    SliceSnoc(listed, i);
    assert listed[..i + 1][..i] == listed[..i];
  }

  /** The order of `results.sort(…)`: by path, and by line within a path. */
  function HitLess(pathLess: (string, string) -> bool): (Hit, Hit) -> bool
  {
    (a: Hit, b: Hit) => if a.path == b.path then a.line < b.line else pathLess(a.path, b.path)
  }

  /** One reported line of a file, as stored in `byPath`. */
  datatype LineHit = LineHit(line: nat, text: string)

  /** One entry of the `byPath` map: a path and its lines. */
  datatype PathLines = PathLines(path: string, lines: seq<LineHit>)

  /** Where `path` sits among the map's entries, if it is a key. */
  function IndexOfPath(groups: seq<PathLines>, path: string): (r: Option<nat>)
    ensures r.Some? ==> r.value < |groups| && groups[r.value].path == path
    ensures r.None? <==> forall k :: 0 <= k < |groups| ==> groups[k].path != path
  {
    if |groups| == 0 then None
    else if groups[|groups| - 1].path == path then Some(|groups| - 1)
    else IndexOfPath(groups[..|groups| - 1], path)
  }

  /** `byPath.get(p) ?? []`, one pushed line, `byPath.set(p, arr)`: a known key
      keeps its place, a new key goes last. */
  function AddHit(groups: seq<PathLines>, h: Hit): seq<PathLines>
  {
    match IndexOfPath(groups, h.path)
    case None => groups + [PathLines(h.path, [LineHit(h.line, h.text)])]
    case Some(k) => groups[k := PathLines(h.path, groups[k].lines + [LineHit(h.line, h.text)])]
  }

  /** The `byPath` map after the loop over the sorted results, as its entries
      in insertion order. */
  function GroupHits(hits: seq<Hit>): seq<PathLines>
    decreases |hits|
  {
    if |hits| == 0 then []
    else AddHit(GroupHits(hits[..|hits| - 1]), hits[|hits| - 1])
  }

  /** The grouping loop. */
  method GroupByPath(results: seq<Hit>) returns (byPath: seq<PathLines>)
    ensures byPath == GroupHits(results)
  {
    byPath := [];
    var i := 0;
    while i < |results|
      invariant 0 <= i <= |results|
      invariant byPath == GroupHits(results[..i])
    {
      var r := results[i];
      SliceSnoc(results, i);
      assert results[..i + 1][..i] == results[..i];
      ghost var before := byPath;
      var k := IndexOfPath(byPath, r.path);
      var arr := if k.Some? then byPath[k.value].lines else [];
      arr := arr + [LineHit(r.line, r.text)];
      if k.Some? {
        assert AddHit(before, r) == before[k.value := PathLines(r.path, arr)];
        byPath := byPath[k.value := PathLines(r.path, arr)];
      } else {
        assert arr == [LineHit(r.line, r.text)];
        byPath := byPath + [PathLines(r.path, arr)];
      }
      i := i + 1;
    }
    SliceAll(results);
  }

  function LineLess(a: LineHit, b: LineHit): bool
  {
    a.line < b.line
  }

  function EntryLess(pathLess: (string, string) -> bool): (PathLines, PathLines) -> bool
  {
    (a: PathLines, b: PathLines) => pathLess(a.path, b.path)
  }

  /** `` `  ${l.line}:${l.text}` ``. */
  function FormatLine(l: LineHit): string
  {
    "  " + NatToString(l.line) + ":" + l.text
  }

  function FormatLines(lines: seq<LineHit>): (r: seq<string>)
    ensures |r| == |lines|
    ensures forall i :: 0 <= i < |lines| ==> r[i] == FormatLine(lines[i])
  {
    seq(|lines|, i requires 0 <= i < |lines| => FormatLine(lines[i]))
  }

  /** A section's lines, by ascending line number. */
  function SectionLines(e: PathLines): seq<LineHit>
  {
    Sort(e.lines, LineLess)
  }

  /** One section: the path, then its lines in ascending order. */
  function Section(e: PathLines): string
  {
    e.path + "\n" + Join(FormatLines(SectionLines(e)), "\n")
  }

  /** The section of each entry, in the entries' order. */
  function SectionTexts(entries: seq<PathLines>): (r: seq<string>)
    ensures |r| == |entries| && forall i :: 0 <= i < |entries| ==> r[i] == Section(entries[i])
  {
    seq(|entries|, i requires 0 <= i < |entries| => Section(entries[i]))
  }

  /** The sections, in path order. */
  function Sections(byPath: seq<PathLines>, pathLess: (string, string) -> bool): (r: seq<string>)
    ensures |r| == |byPath|
  {
    SectionTexts(Sort(byPath, EntryLess(pathLess)))
  }

  /** The loop over the map's entries sorted by path. */
  method FormatSections(byPath: seq<PathLines>, pathLess: (string, string) -> bool) returns (sections: seq<string>)
    ensures sections == Sections(byPath, pathLess)
  {
    var entries := Sort(byPath, EntryLess(pathLess));
    sections := [];
    var i := 0;
    while i < |entries|
      invariant 0 <= i <= |entries|
      invariant |sections| == i
      invariant forall j :: 0 <= j < i ==> sections[j] == Section(entries[j])
    {
      var p := entries[i].path;
      var lines := SectionLines(entries[i]);
      var body := Join(FormatLines(lines), "\n");
      assert p + "\n" + body == Section(entries[i]);
      sections := sections + [p + "\n" + body];
      i := i + 1;
    }
    assert sections == SectionTexts(entries);
  }

  /** The line test `regExp.test(line)` of a compiled query. */
  function Matcher<R>(test: (R, string) -> bool, re: R): string -> bool
  {
    line => test(re, line)
  }

  /** What `search` returns, given the engine as `compile` and `test` and the
      locale's path order as `pathLess`. */
  function SearchOutput<R>(files: Files, listed: seq<string>, query: string,
                           caseSensitive: bool, wholeWord: bool, regex: bool,
                           compile: (string, string) -> Compiled<R>, test: (R, string) -> bool,
                           pathLess: (string, string) -> bool): string
  {
    match MakeTextSearchRegExp(query, caseSensitive, wholeWord, regex, compile)
    case NoRegExp => ""
    case RegExpError(message) => message
    case RegExp(re) =>
      var hits := AllHits(files, listed, Matcher(test, re));
      if |hits| == 0 then "No results found."
      else Join(Sections(GroupHits(Sort(hits, HitLess(pathLess))), pathLess), "\n\n")
  }

  /** The first half of `search`: the pattern of the query, compiled; the
      same steps as `makeTextSearchRegExp`. */
  method CompileQuery<R>(query: string, caseSensitive: bool, wholeWord: bool, regex: bool,
                         compile: (string, string) -> Compiled<R>) returns (r: TextSearchRegExp<R>)
    ensures r == MakeTextSearchRegExp(query, caseSensitive, wholeWord, regex, compile)
  {
    var p := QueryPattern(query, caseSensitive, wholeWord, regex);
    if p.NoQuery? {
      return NoRegExp;
    }
    var compiled := compile(p.source, p.flags);
    if compiled.CompileFailed? {
      return RegExpError("Invalid regular expression: " + compiled.message);
    }
    return RegExp(compiled.regExp);
  }

  /** Trim the query, choose the flags, escape the text unless it is a
      regular expression and wrap it in word boundaries for a whole-word
      search. */
  method QueryPattern(query: string, caseSensitive: bool, wholeWord: bool, regex: bool) returns (p: SearchPattern)
    ensures p == TextSearchPattern(query, caseSensitive, wholeWord, regex)
  {
    var q := Trim(query);
    if |q| == 0 {
      return NoQuery;
    }
    var flags := "g";
    if !caseSensitive {
      flags := flags + "i";
    }
    var pattern := q;
    if !regex {
      pattern := EscapeRegExp(pattern);
    }
    if wholeWord {
      pattern := "\\b(?:" + pattern + ")\\b";
    }
    return Pattern(pattern, flags);
  }

  /** `search({ projectCloneLocation, query, caseSensitive, wholeWord, regex })`
      over the files of the checkout and the list `listFiles` returns. */
  method Search<R>(files: Files, listed: seq<string>, query: string,
                   caseSensitive: bool, wholeWord: bool, regex: bool,
                   compile: (string, string) -> Compiled<R>, test: (R, string) -> bool,
                   pathLess: (string, string) -> bool) returns (output: string)
    ensures output == SearchOutput(files, listed, query, caseSensitive, wholeWord, regex, compile, test, pathLess)
  {
    var compiled := CompileQuery(query, caseSensitive, wholeWord, regex, compile);
    if compiled.NoRegExp? {
      return "";
    }
    if compiled.RegExpError? {
      return compiled.error;
    }
    var re := compiled.regExp;
    var results := CollectResults(files, listed, Matcher(test, re));
    if |results| == 0 {
      return "No results found.";
    }
    results := Sort(results, HitLess(pathLess));
    var byPath := GroupByPath(results);
    var sections := FormatSections(byPath, pathLess);
    return Join(sections, "\n\n");
  }

  /** The entries the sections are printed from: the hits sorted, grouped by
      path, and the groups sorted by path. */
  function Report(hits: seq<Hit>, pathLess: (string, string) -> bool): seq<PathLines>
  {
    Sort(GroupHits(Sort(hits, HitLess(pathLess))), EntryLess(pathLess))
  }

  // ----- which hits there are -----

  /** `h` reports a line of a searched file that the matcher accepts, with
      that line's text. */
  predicate IsHit(files: Files, h: Hit, matches: string -> bool)
  {
    match Scannable(files, h.path)
    case None => false
    case Some(content) =>
      var lines := SplitLines(content);
      LineMatches(lines, matches, h.line) && h.text == lines[h.line - 1]
  }

  /** A searched file some line of which the matcher accepts. */
  predicate HasMatch(files: Files, rel: string, matches: string -> bool)
  {
    match Scannable(files, rel)
    case None => false
    case Some(content) =>
      var lines := SplitLines(content);
      exists i :: 0 <= i < |lines| && matches(lines[i])
  }

  lemma MatchedSorted(lines: seq<string>, matches: string -> bool)
    ensures Sort(MatchedLines(lines, matches), NumLess) == MatchedLines(lines, matches)
  {
    MatchedLinesAscending(lines, matches);
    SortOfSorted(MatchedLines(lines, matches), NumLess);
  }

  /** The hits built from in-range line numbers are those numbers with their lines. */
  lemma FileHitsMember(rel: string, lines: seq<string>, m: seq<nat>, h: Hit)
    requires forall k :: 0 <= k < |m| ==> 1 <= m[k] <= |lines|
    ensures h in FileHits(rel, lines, m)
        <==> h.path == rel && h.line in m && 1 <= h.line <= |lines| && h.text == lines[h.line - 1]
  {
    var hs := FileHits(rel, lines, m);
    if h.path == rel && h.line in m && 1 <= h.line <= |lines| && h.text == lines[h.line - 1] {
      var k :| 0 <= k < |m| && m[k] == h.line;
      assert hs[k] == h;
    }
  }

  /** Every matching line of a file gives a hit, with its text. */
  lemma LinesHitsComplete(rel: string, lines: seq<string>, matches: string -> bool, h: Hit)
    requires h.path == rel && LineMatches(lines, matches, h.line) && h.text == lines[h.line - 1]
    ensures h in FileHits(rel, lines, MatchedLines(lines, matches))
  {
    MatchedLinesComplete(lines, matches, h.line);
    FileHitsMember(rel, lines, MatchedLines(lines, matches), h);
  }

  /** Every hit of a file is a matching line, with its text. */
  lemma LinesHitsSound(rel: string, lines: seq<string>, matches: string -> bool, h: Hit)
    requires h in FileHits(rel, lines, MatchedLines(lines, matches))
    ensures h.path == rel && LineMatches(lines, matches, h.line) && h.text == lines[h.line - 1]
  {
    var m := MatchedLines(lines, matches);
    assert h.path == rel && h.line in m && 1 <= h.line <= |lines| && h.text == lines[h.line - 1] by {
      FileHitsMember(rel, lines, m, h);
    }
    MatchedLinesSound(lines, matches, h.line);
  }

  /** The matched numbers need no reordering: a searched file's hits are
      those of its matching lines in ascending order. */
  lemma HitsOfScanned(files: Files, rel: string, matches: string -> bool)
    requires Scannable(files, rel).Some?
    ensures var lines := SplitLines(Scannable(files, rel).value);
      HitsOf(files, rel, matches) == FileHits(rel, lines, MatchedLines(lines, matches))
  {
    MatchedSorted(SplitLines(Scannable(files, rel).value), matches);
  }

  /** The hits of one file are exactly its matching lines. */
  lemma HitsOfMember(files: Files, rel: string, matches: string -> bool, h: Hit)
    ensures h in HitsOf(files, rel, matches) <==> h.path == rel && IsHit(files, h, matches)
  {
    if h in HitsOf(files, rel, matches) {
      HitsOfSound(files, rel, matches, h);
    }
    if h.path == rel && IsHit(files, h, matches) {
      HitsOfComplete(files, rel, matches, h);
    }
  }

  lemma HitsOfSound(files: Files, rel: string, matches: string -> bool, h: Hit)
    requires h in HitsOf(files, rel, matches)
    ensures h.path == rel && IsHit(files, h, matches)
  {
    var text := Scannable(files, rel);
    assert text.Some?;
    var lines := SplitLines(text.value);
    HitsOfScanned(files, rel, matches);
    LinesHitsSound(rel, lines, matches, h);
  }

  lemma HitsOfComplete(files: Files, rel: string, matches: string -> bool, h: Hit)
    requires h.path == rel && IsHit(files, h, matches)
    ensures h in HitsOf(files, rel, matches)
  {
    var text := Scannable(files, rel);
    var lines := SplitLines(text.value);
    HitsOfScanned(files, rel, matches);
    LinesHitsComplete(rel, lines, matches, h);
  }

  /** A file contributes only hits on its own path. */
  lemma HitsOfPath(files: Files, rel: string, matches: string -> bool)
    ensures forall h :: h in HitsOf(files, rel, matches) ==> h.path == rel
  {
    forall h | h in HitsOf(files, rel, matches) ensures h.path == rel {
      HitsOfMember(files, rel, matches, h);
    }
  }

  /** The collected results are exactly the matching lines of the listed files. */
  lemma {:induction false} AllHitsMember(files: Files, listed: seq<string>, matches: string -> bool, h: Hit)
    ensures h in AllHits(files, listed, matches) <==> h.path in listed && IsHit(files, h, matches)
    decreases |listed|
  {
    if |listed| > 0 {
      var init := listed[..|listed| - 1];
      var rel := listed[|listed| - 1];
      AllHitsMember(files, init, matches, h);
      HitsOfMember(files, rel, matches, h);
      assert listed == init + [rel];
    }
  }

  /** Two results on the same line of the same file are the same result. */
  lemma HitDeterminedByLine(files: Files, listed: seq<string>, matches: string -> bool, a: Hit, b: Hit)
    requires a in AllHits(files, listed, matches) && b in AllHits(files, listed, matches)
    requires a.path == b.path && a.line == b.line
    ensures a == b
  {
    assert IsHit(files, a, matches) && IsHit(files, b, matches) by {
      AllHitsMember(files, listed, matches, a);
      AllHitsMember(files, listed, matches, b);
    }
    SameLineHit(files, matches, a, b);
  }

  /** A hit is fixed by its path and line. */
  lemma SameLineHit(files: Files, matches: string -> bool, a: Hit, b: Hit)
    requires IsHit(files, a, matches) && IsHit(files, b, matches)
    requires a.path == b.path && a.line == b.line
    ensures a == b
  {
  }

  /** One file yields each of its matching lines once. */
  lemma HitsOfNoDup(files: Files, rel: string, matches: string -> bool)
    ensures NoDup(HitsOf(files, rel, matches))
  {
    if Scannable(files, rel).Some? {
      var lines := SplitLines(Scannable(files, rel).value);
      MatchedSorted(lines, matches);
      MatchedLinesAscending(lines, matches);
      var m := MatchedLines(lines, matches);
      var hs := FileHits(rel, lines, m);
      forall i, j | 0 <= i < j < |hs| ensures hs[i] != hs[j] {
        assert hs[i].line == m[i] && hs[j].line == m[j];
      }
    }
  }

  /** A file listed once has each of its matching lines collected once. */
  lemma {:induction false} AllHitsNoDup(files: Files, listed: seq<string>, matches: string -> bool)
    requires NoDup(listed)
    ensures NoDup(AllHits(files, listed, matches))
    decreases |listed|
  {
    if |listed| > 0 {
      var init := listed[..|listed| - 1];
      var rel := listed[|listed| - 1];
      assert NoDup(init);
      AllHitsNoDup(files, init, matches);
      var a := AllHits(files, init, matches);
      var b := HitsOf(files, rel, matches);
      HitsOfNoDup(files, rel, matches);
      assert rel !in init by {
        forall k | 0 <= k < |init| ensures init[k] != rel {
          assert init[k] == listed[k];
        }
      }
      HitsOfPath(files, rel, matches);
      forall i, j | 0 <= i < |a| && 0 <= j < |b| ensures a[i] != b[j] {
        AllHitsMember(files, init, matches, a[i]);
        assert b[j] in b;
      }
      assert AllHits(files, listed, matches) == a + b;
      NoDupAppend(a, b);
    }
  }

  /** A matching line of a listed file is collected. */
  lemma MatchCollected(files: Files, listed: seq<string>, matches: string -> bool, rel: string, i: nat)
    requires rel in listed && Scannable(files, rel).Some?
    requires i < |SplitLines(Scannable(files, rel).value)| && matches(SplitLines(Scannable(files, rel).value)[i])
    ensures AllHits(files, listed, matches) != []
  {
    var lines := SplitLines(Scannable(files, rel).value);
    var h := Hit(rel, i + 1, lines[i]);
    assert IsHit(files, h, matches);
    AllHitsMember(files, listed, matches, h);
    assert h in AllHits(files, listed, matches);
  }

  /** The first hit comes from a listed file that has a match. */
  lemma FirstHitMatches(files: Files, listed: seq<string>, matches: string -> bool)
    requires AllHits(files, listed, matches) != []
    ensures var h := AllHits(files, listed, matches)[0];
            h.path in listed && HasMatch(files, h.path, matches)
  {
    var h := AllHits(files, listed, matches)[0];
    assert h.path in listed && IsHit(files, h, matches) by {
      AllHitsMember(files, listed, matches, h);
    }
    HitMatches(files, h, matches);
  }

  /** The file of a hit has a match. */
  lemma HitMatches(files: Files, h: Hit, matches: string -> bool)
    requires IsHit(files, h, matches)
    ensures HasMatch(files, h.path, matches)
  {
    var lines := SplitLines(Scannable(files, h.path).value);
    assert matches(lines[h.line - 1]);
  }

  /** Nothing is collected exactly when no listed file is searched and has a
      matching line. */
  lemma AllHitsEmpty(files: Files, listed: seq<string>, matches: string -> bool)
    ensures AllHits(files, listed, matches) == [] <==> forall rel :: rel in listed ==> !HasMatch(files, rel, matches)
  {
    var hits := AllHits(files, listed, matches);
    if hits != [] {
      FirstHitMatches(files, listed, matches);
    }
    forall rel | rel in listed && HasMatch(files, rel, matches) ensures hits != [] {
      var lines := SplitLines(Scannable(files, rel).value);
      var i :| 0 <= i < |lines| && matches(lines[i]);
      MatchCollected(files, listed, matches, rel, i);
    }
  }

  // ----- grouping -----

  function Paths(groups: seq<PathLines>): (r: seq<string>)
    ensures |r| == |groups| && forall i :: 0 <= i < |groups| ==> r[i] == groups[i].path
  {
    seq(|groups|, i requires 0 <= i < |groups| => groups[i].path)
  }

  function HitPaths(hits: seq<Hit>): (r: seq<string>)
    ensures |r| == |hits| && forall i :: 0 <= i < |hits| ==> r[i] == hits[i].path
  {
    seq(|hits|, i requires 0 <= i < |hits| => hits[i].path)
  }

  /** The lines of the hits on `path`, in the order of the hits. */
  function LinesFor(hits: seq<Hit>, path: string): seq<LineHit>
    decreases |hits|
  {
    if |hits| == 0 then []
    else
      var h := hits[|hits| - 1];
      LinesFor(hits[..|hits| - 1], path) + (if h.path == path then [LineHit(h.line, h.text)] else [])
  }

  lemma {:induction false} LinesForAbsent(hits: seq<Hit>, path: string)
    requires path !in HitPaths(hits)
    ensures LinesFor(hits, path) == []
    decreases |hits|
  {
    if |hits| > 0 {
      var init := hits[..|hits| - 1];
      assert HitPaths(init) == HitPaths(hits)[..|hits| - 1];
      LinesForAbsent(init, path);
      assert HitPaths(hits)[|hits| - 1] == hits[|hits| - 1].path;
    }
  }

  /** A group holds exactly the lines of the hits on its path. */
  lemma {:induction false} LinesForMember(hits: seq<Hit>, path: string, l: LineHit)
    ensures l in LinesFor(hits, path) <==> Hit(path, l.line, l.text) in hits
    decreases |hits|
  {
    if |hits| > 0 {
      var init := hits[..|hits| - 1];
      LinesForMember(init, path, l);
      assert hits == init + [hits[|hits| - 1]];
    }
  }

  /** Distinct hits give distinct lines within a group. */
  lemma {:induction false} LinesForNoDup(hits: seq<Hit>, path: string)
    requires NoDup(hits)
    ensures NoDup(LinesFor(hits, path))
    decreases |hits|
  {
    if |hits| > 0 {
      var init := hits[..|hits| - 1];
      var h := hits[|hits| - 1];
      assert NoDup(init);
      LinesForNoDup(init, path);
      if h.path == path {
        var l := LineHit(h.line, h.text);
        LinesForMember(init, path, l);
        assert h !in init;
        var a := LinesFor(init, path);
        assert NoDup(a + [l]) by {
          forall i, j | 0 <= i < j < |a| + 1 ensures (a + [l])[i] != (a + [l])[j] {
            if j == |a| {
              assert a[i] in a;
            }
          }
        }
      }
    }
  }

  /** `groups` holds one entry per path among the hits, each holding the
      lines of the hits on its path in their order. */
  ghost predicate GroupedAs(hits: seq<Hit>, groups: seq<PathLines>)
  {
    && NoDup(Paths(groups))
    && (forall p :: p in Paths(groups) <==> p in HitPaths(hits))
    && (forall k :: 0 <= k < |groups| ==> groups[k].lines == LinesFor(hits, groups[k].path))
  }

  /** A hit on a new path opens an entry at the end. */
  lemma GroupStepNew(hits: seq<Hit>, g: seq<PathLines>)
    requires |hits| > 0
    requires GroupedAs(hits[..|hits| - 1], g)
    requires hits[|hits| - 1].path !in Paths(g)
    ensures var h := hits[|hits| - 1];
      GroupedAs(hits, g + [PathLines(h.path, [LineHit(h.line, h.text)])])
  {
    var init := hits[..|hits| - 1];
    var h := hits[|hits| - 1];
    var l := LineHit(h.line, h.text);
    var g' := g + [PathLines(h.path, [l])];
    assert HitPaths(hits) == HitPaths(init) + [h.path];
    assert Paths(g') == Paths(g) + [h.path];
    LinesForAbsent(init, h.path);
    assert LinesFor(hits, h.path) == [l];
    forall k | 0 <= k < |g| ensures g'[k].lines == LinesFor(hits, g'[k].path) {
      assert Paths(g)[k] == g[k].path;
    }
  }

  /** A hit on a known path extends that path's entry in place. */
  lemma GroupStepOld(hits: seq<Hit>, g: seq<PathLines>, i: nat)
    requires |hits| > 0
    requires GroupedAs(hits[..|hits| - 1], g)
    requires i < |g| && g[i].path == hits[|hits| - 1].path
    ensures var h := hits[|hits| - 1];
      GroupedAs(hits, g[i := PathLines(h.path, g[i].lines + [LineHit(h.line, h.text)])])
  {
    var init := hits[..|hits| - 1];
    var h := hits[|hits| - 1];
    var g' := g[i := PathLines(h.path, g[i].lines + [LineHit(h.line, h.text)])];
    assert HitPaths(hits) == HitPaths(init) + [h.path];
    assert Paths(g') == Paths(g);
    forall k | 0 <= k < |g| ensures g'[k].lines == LinesFor(hits, g'[k].path) {
      if k != i {
        assert g[k].path != h.path by {
          assert Paths(g)[k] != Paths(g)[i];
        }
      }
    }
  }

  /** The map after the grouping loop: one entry per path among the hits,
      each holding the lines of the hits on its path in their order. */
  lemma {:induction false} GroupHitsShape(hits: seq<Hit>)
    ensures var groups := GroupHits(hits);
      && NoDup(Paths(groups))
      && (forall p :: p in Paths(groups) <==> p in HitPaths(hits))
      && (forall k :: 0 <= k < |groups| ==> groups[k].lines == LinesFor(hits, groups[k].path))
    decreases |hits|
  {
    if |hits| > 0 {
      var init := hits[..|hits| - 1];
      var h := hits[|hits| - 1];
      GroupHitsShape(init);
      var g := GroupHits(init);
      assert GroupedAs(init, g);
      match IndexOfPath(g, h.path)
      case None =>
        assert h.path !in Paths(g);
        GroupStepNew(hits, g);
      case Some(i) =>
        GroupStepOld(hits, g, i);
    }
  }

  // ----- the report -----

  lemma LineLessWeak()
    ensures StrictWeakOrder(LineLess)
  {
  }

  /** Ordering entries by their paths inherits the path order's consistency. */
  lemma EntryLessWeak(pathLess: (string, string) -> bool)
    requires StrictWeakOrder(pathLess)
    ensures StrictWeakOrder(EntryLess(pathLess))
  {
    var lt := EntryLess(pathLess);
    forall a | true ensures !lt(a, a) {
      assert !pathLess(a.path, a.path);
    }
    forall a, b, c | lt(a, b) && lt(b, c) ensures lt(a, c) {
      assert pathLess(a.path, b.path) && pathLess(b.path, c.path);
    }
    forall a, b, c | !lt(a, b) && !lt(b, c) ensures !lt(a, c) {
      assert !pathLess(a.path, b.path) && !pathLess(b.path, c.path);
    }
  }

  /** An entry of the report is a group of the grouping. */
  lemma ReportEntry(hits: seq<Hit>, pathLess: (string, string) -> bool, e: PathLines)
    requires e in Report(hits, pathLess)
    ensures e.lines == LinesFor(Sort(hits, HitLess(pathLess)), e.path)
  {
    var groups := GroupHits(Sort(hits, HitLess(pathLess)));
    assert e in multiset(groups);
    var k :| 0 <= k < |groups| && groups[k] == e;
    GroupHitsShape(Sort(hits, HitLess(pathLess)));
  }

  /** Rearranging entries keeps the set of their paths, and keeps them
      distinct when they were. */
  lemma PermutedPaths(a: seq<PathLines>, b: seq<PathLines>)
    requires multiset(a) == multiset(b)
    ensures forall p :: p in Paths(a) <==> p in Paths(b)
    ensures NoDup(Paths(a)) ==> NoDup(Paths(b))
  {
    forall p | p in Paths(a) ensures p in Paths(b) {
      var i :| 0 <= i < |a| && a[i].path == p;
      assert a[i] in multiset(b);
      var k :| 0 <= k < |b| && b[k] == a[i];
      assert Paths(b)[k] == p;
    }
    forall p | p in Paths(b) ensures p in Paths(a) {
      var i :| 0 <= i < |b| && b[i].path == p;
      assert b[i] in multiset(a);
      var k :| 0 <= k < |a| && a[k] == b[i];
      assert Paths(a)[k] == p;
    }
    if NoDup(Paths(a)) {
      assert NoDup(a) by {
        forall x, y | 0 <= x < y < |a| ensures a[x] != a[y] {
          assert Paths(a)[x] != Paths(a)[y];
        }
      }
      NoDupPermutation(a, b);
      forall i, j | 0 <= i < j < |b| ensures b[i].path != b[j].path {
        assert b[i] in multiset(a);
        var x :| 0 <= x < |a| && a[x] == b[i];
        assert b[j] in multiset(a);
        var y :| 0 <= y < |a| && a[y] == b[j];
        assert x != y;
        if x < y {
          assert Paths(a)[x] != Paths(a)[y];
        } else {
          assert Paths(a)[y] != Paths(a)[x];
        }
      }
    }
  }

  /** A path among the collected hits is listed and has a matching line. */
  lemma HitPathMatches(files: Files, listed: seq<string>, matches: string -> bool, sorted: seq<Hit>, p: string)
    requires multiset(sorted) == multiset(AllHits(files, listed, matches))
    requires p in HitPaths(sorted)
    ensures p in listed && HasMatch(files, p, matches)
  {
    var i :| 0 <= i < |sorted| && sorted[i].path == p;
    assert sorted[i] in multiset(AllHits(files, listed, matches));
    AllHitsMember(files, listed, matches, sorted[i]);
    var lines := SplitLines(Scannable(files, p).value);
    assert matches(lines[sorted[i].line - 1]);
  }

  /** A listed file with a matching line has its path among the collected hits. */
  lemma MatchHitPath(files: Files, listed: seq<string>, matches: string -> bool, sorted: seq<Hit>, p: string)
    requires multiset(sorted) == multiset(AllHits(files, listed, matches))
    requires p in listed && HasMatch(files, p, matches)
    ensures p in HitPaths(sorted)
  {
    var lines := SplitLines(Scannable(files, p).value);
    var i :| 0 <= i < |lines| && matches(lines[i]);
    var h := Hit(p, i + 1, lines[i]);
    assert IsHit(files, h, matches);
    AllHitsMember(files, listed, matches, h);
    assert h in multiset(sorted);
    var j :| 0 <= j < |sorted| && sorted[j] == h;
    assert HitPaths(sorted)[j] == p;
  }

  /** A path has a section exactly when it is listed, its file is searched
      and some line of it matches; no path has two. */
  lemma ReportPaths(files: Files, listed: seq<string>, matches: string -> bool,
                    pathLess: (string, string) -> bool, p: string)
    ensures p in Paths(Report(AllHits(files, listed, matches), pathLess))
        <==> p in listed && HasMatch(files, p, matches)
    ensures NoDup(Paths(Report(AllHits(files, listed, matches), pathLess)))
  {
    var sorted := Sort(AllHits(files, listed, matches), HitLess(pathLess));
    GroupHitsShape(sorted);
    PermutedPaths(GroupHits(sorted), Report(AllHits(files, listed, matches), pathLess));
    if p in HitPaths(sorted) {
      HitPathMatches(files, listed, matches, sorted, p);
    }
    if p in listed && HasMatch(files, p, matches) {
      MatchHitPath(files, listed, matches, sorted, p);
    }
  }

  /** Sections come in strictly increasing path order. */
  lemma ReportOrder(hits: seq<Hit>, pathLess: (string, string) -> bool)
    requires StrictTotalOrder(pathLess)
    ensures var entries := Report(hits, pathLess);
      forall i, j :: 0 <= i < j < |entries| ==> pathLess(entries[i].path, entries[j].path)
  {
    var groups := GroupHits(Sort(hits, HitLess(pathLess)));
    var entries := Report(hits, pathLess);
    GroupHitsShape(Sort(hits, HitLess(pathLess)));
    PermutedPaths(groups, entries);
    EntryLessWeak(pathLess);
    SortSorted(groups, EntryLess(pathLess));
    forall i, j | 0 <= i < j < |entries| ensures pathLess(entries[i].path, entries[j].path) {
      assert !EntryLess(pathLess)(entries[j], entries[i]);
      assert Paths(entries)[i] != Paths(entries)[j];
    }
  }

  /** A section lists, in ascending order, exactly the matching lines of its
      file with their text. */
  lemma ReportLines(files: Files, listed: seq<string>, matches: string -> bool,
                    pathLess: (string, string) -> bool, e: PathLines)
    requires e in Report(AllHits(files, listed, matches), pathLess)
    ensures Sorted(SectionLines(e), LineLess)
    ensures forall l :: l in SectionLines(e) <==> IsHit(files, Hit(e.path, l.line, l.text), matches)
  {
    var hits := AllHits(files, listed, matches);
    var sorted := Sort(hits, HitLess(pathLess));
    ReportEntry(hits, pathLess, e);
    LineLessWeak();
    SortSorted(e.lines, LineLess);
    assert e.path in listed by {
      var i :| 0 <= i < |Report(hits, pathLess)| && Report(hits, pathLess)[i] == e;
      assert Paths(Report(hits, pathLess))[i] == e.path;
      ReportPaths(files, listed, matches, pathLess, e.path);
    }
    forall l ensures l in SectionLines(e) <==> IsHit(files, Hit(e.path, l.line, l.text), matches) {
      assert l in SectionLines(e) <==> l in multiset(e.lines);
      LinesForMember(sorted, e.path, l);
      var h := Hit(e.path, l.line, l.text);
      assert h in sorted <==> h in multiset(hits);
      AllHitsMember(files, listed, matches, h);
    }
  }

  /** Sorted, distinct lines no two of which share a number have strictly
      increasing numbers. */
  lemma StrictlyAscending(lines: seq<LineHit>)
    requires Sorted(lines, LineLess) && NoDup(lines)
    requires forall a, b :: a in lines && b in lines && a.line == b.line ==> a == b
    ensures forall i, j :: 0 <= i < j < |lines| ==> lines[i].line < lines[j].line
  {
    forall i, j | 0 <= i < j < |lines| ensures lines[i].line < lines[j].line {
      assert !LineLess(lines[j], lines[i]);
      assert lines[i] != lines[j];
      assert lines[i] in lines && lines[j] in lines;
    }
  }

  /** When every file is listed once, each matching line is reported once:
      the line numbers of a section strictly increase. */
  lemma ReportLinesOnce(files: Files, listed: seq<string>, matches: string -> bool,
                        pathLess: (string, string) -> bool, e: PathLines)
    requires NoDup(listed)
    requires e in Report(AllHits(files, listed, matches), pathLess)
    ensures var lines := SectionLines(e);
      forall i, j :: 0 <= i < j < |lines| ==> lines[i].line < lines[j].line
  {
    var hits := AllHits(files, listed, matches);
    var sorted := Sort(hits, HitLess(pathLess));
    var lines := SectionLines(e);
    ReportEntry(hits, pathLess, e);
    AllHitsNoDup(files, listed, matches);
    NoDupPermutation(hits, sorted);
    LinesForNoDup(sorted, e.path);
    NoDupPermutation(e.lines, lines);
    ReportLines(files, listed, matches, pathLess, e);
    forall a, b | a in lines && b in lines && a.line == b.line ensures a == b {
      SameLineHit(files, matches, Hit(e.path, a.line, a.text), Hit(e.path, b.line, b.text));
    }
    StrictlyAscending(lines);
  }

  // ----- what `search` returns -----

  /** A query that is blank after trimming gives the empty text. */
  lemma SearchEmptyQuery<R>(files: Files, listed: seq<string>, query: string,
                            caseSensitive: bool, wholeWord: bool, regex: bool,
                            compile: (string, string) -> Compiled<R>, test: (R, string) -> bool,
                            pathLess: (string, string) -> bool)
    requires Trim(query) == []
    ensures SearchOutput(files, listed, query, caseSensitive, wholeWord, regex, compile, test, pathLess) == ""
  {
  }

  /** A pattern the engine rejects gives its message, prefixed, instead of results. */
  lemma SearchInvalidPattern<R>(files: Files, listed: seq<string>, query: string,
                                caseSensitive: bool, wholeWord: bool, regex: bool,
                                compile: (string, string) -> Compiled<R>, test: (R, string) -> bool,
                                pathLess: (string, string) -> bool)
    requires Trim(query) != []
    requires var p := TextSearchPattern(query, caseSensitive, wholeWord, regex);
      compile(p.source, p.flags).CompileFailed?
    ensures var p := TextSearchPattern(query, caseSensitive, wholeWord, regex);
      SearchOutput(files, listed, query, caseSensitive, wholeWord, regex, compile, test, pathLess)
      == "Invalid regular expression: " + compile(p.source, p.flags).message
  {
  }

  /** The output of a compiled query, in terms of the collected hits. */
  lemma SearchCompiled<R>(files: Files, listed: seq<string>, query: string,
                          caseSensitive: bool, wholeWord: bool, regex: bool,
                          compile: (string, string) -> Compiled<R>, test: (R, string) -> bool,
                          pathLess: (string, string) -> bool, re: R)
    requires Trim(query) != []
    requires var p := TextSearchPattern(query, caseSensitive, wholeWord, regex);
      compile(p.source, p.flags) == CompiledOk(re)
    ensures var hits := AllHits(files, listed, Matcher(test, re));
      var entries := Report(hits, pathLess);
      SearchOutput(files, listed, query, caseSensitive, wholeWord, regex, compile, test, pathLess)
      == if hits == [] then "No results found."
         else Join(SectionTexts(entries), "\n\n")
  {
    var hits := AllHits(files, listed, Matcher(test, re));
  }

  /** Some hit gives some section. */
  lemma ReportNonEmpty(hits: seq<Hit>, pathLess: (string, string) -> bool)
    requires hits != []
    ensures |Report(hits, pathLess)| > 0
  {
    var sorted := Sort(hits, HitLess(pathLess));
    GroupHitsShape(sorted);
    assert HitPaths(sorted)[0] in HitPaths(sorted);
  }

  /** Sections always hold a line break, so they never read "No results found.". */
  lemma SectionsNotEmptyText(entries: seq<PathLines>)
    requires |entries| > 0
    ensures Join(SectionTexts(entries), "\n\n") != "No results found."
  {
    var sections := SectionTexts(entries);
    var output := Join(sections, "\n\n");
    JoinStartsWithFirst(sections, "\n\n");
    var first := entries[0].path;
    assert sections[0][|first|] == '\n';
    assert output[..|sections[0]|] == sections[0];
    assert output[|first|] == '\n';
    assert '\n' !in "No results found.";
  }

  /** With a compiled query, the output is "No results found." exactly when no
      listed file is searched and has a matching line; otherwise it is the
      sections of the report, at least one, joined by blank lines. */
  lemma SearchResults<R>(files: Files, listed: seq<string>, query: string,
                         caseSensitive: bool, wholeWord: bool, regex: bool,
                         compile: (string, string) -> Compiled<R>, test: (R, string) -> bool,
                         pathLess: (string, string) -> bool, re: R)
    requires Trim(query) != []
    requires var p := TextSearchPattern(query, caseSensitive, wholeWord, regex);
      compile(p.source, p.flags) == CompiledOk(re)
    ensures var output := SearchOutput(files, listed, query, caseSensitive, wholeWord, regex, compile, test, pathLess);
      output == "No results found."
      <==> forall rel :: rel in listed ==> !HasMatch(files, rel, Matcher(test, re))
    ensures var output := SearchOutput(files, listed, query, caseSensitive, wholeWord, regex, compile, test, pathLess);
      var entries := Report(AllHits(files, listed, Matcher(test, re)), pathLess);
      (exists rel :: rel in listed && HasMatch(files, rel, Matcher(test, re))) ==>
        && |entries| > 0
        && output == Join(SectionTexts(entries), "\n\n")
  {
    var hits := AllHits(files, listed, Matcher(test, re));
    AllHitsEmpty(files, listed, Matcher(test, re));
    SearchCompiled(files, listed, query, caseSensitive, wholeWord, regex, compile, test, pathLess, re);
    if hits != [] {
      ReportNonEmpty(hits, pathLess);
      SectionsNotEmptyText(Report(hits, pathLess));
    }
  }
}
