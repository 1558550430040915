/** The parts of Node's `path.posix` the model needs: `basename`, the `dir` and
    `name` fields of `parse`, `normalize` and two-argument `join`. Paths are
    strings with `/` as the only separator. */
module PosixPath {
  import opened Sequences
  import opened Strings

  /** `p` with its trailing run of `/` removed. */
  function StripTrailingSlashes(p: string): (r: string)
    ensures |r| <= |p| && r == p[..|r|]
    ensures forall i :: |r| <= i < |p| ==> p[i] == '/'
    ensures r == [] || r[|r| - 1] != '/'
  {
    if |p| > 0 && p[|p| - 1] == '/' then StripTrailingSlashes(p[..|p| - 1]) else p
  }

  /** The text after the last `c` of `t` (all of `t` when it has no `c`). */
  function AfterLast(t: string, c: char): (r: string)
    ensures |r| <= |t| && r == t[|t| - |r|..]
    ensures c !in r
    ensures |r| < |t| ==> t[|t| - |r| - 1] == c
  {
    if |t| == 0 then []
    else if t[|t| - 1] == c then []
    else
      var r := AfterLast(t[..|t| - 1], c);
      assert t[..|t| - 1][|t| - 1 - |r|..] + [t[|t| - 1]] == t[|t| - 1 - |r|..];
      r + [t[|t| - 1]]
  }

  /** `path.basename(p)`: the last component, ignoring trailing separators. */
  function Basename(p: string): (r: string)
    ensures '/' !in r
  {
    AfterLast(StripTrailingSlashes(p), '/')
  }

  /** The last component of a path without a trailing separator is what follows
      its last separator: `p` is the directory part, a separator, and the base. */
  lemma BasenameSplit(p: string)
    requires p != [] && p[|p| - 1] != '/'
    ensures var b := Basename(p);
      |b| <= |p| && p == p[..|p| - |b|] + b
      && (|b| < |p| ==> p[|p| - |b| - 1] == '/')
  {
  }

  /** The `name` field of `path.parse` for a base name (a string without `/`):
      the extension starts at the last `.`, except when that dot is the first
      character or the base is `..`. */
  function ParseName(base: string): (r: string)
    ensures |r| <= |base| && r == base[..|r|]
  {
    if '.' !in base then base
    else
      var d := |base| - |AfterLast(base, '.')| - 1;
      if d == 0 || base == ".." then base else base[..d]
  }

  /** The `ext` field of `path.parse` for a base name. */
  function ParseExt(base: string): string
  {
    base[|ParseName(base)|..]
  }

  /** A base name is its name followed by its extension; a non-empty extension
      starts with the base's last dot and holds no other dot; the name of a
      non-empty base is non-empty. The extension is the last dot and what
      follows it exactly when some dot follows the first character and the
      base is not `..`; otherwise there is none. */
  lemma ParseNameExt(base: string)
    ensures ParseName(base) + ParseExt(base) == base
    ensures ParseExt(base) == [] || (ParseExt(base)[0] == '.' && '.' !in ParseExt(base)[1..])
    ensures base != [] ==> ParseName(base) != []
    ensures base != [] && base != ".." && '.' in base[1..] ==> ParseExt(base) == "." + AfterLast(base, '.')
    ensures base == [] || base == ".." || '.' !in base[1..] ==> ParseExt(base) == []
  {
    assert base[..|ParseName(base)|] + base[|ParseName(base)|..] == base;
    if '.' in base {
      var a := AfterLast(base, '.');
      var d := |base| - |a| - 1;
      LastDotAfterFirst(base);
      assert base[d..] == "." + a by {
        assert base[d + 1..] == a;
      }
    }
  }

  /** With a dot present, the last dot is at position 0 exactly when no dot
      follows the first character. */
  lemma LastDotAfterFirst(base: string)
    requires '.' in base
    ensures var d := |base| - |AfterLast(base, '.')| - 1;
      0 <= d < |base| && base[d] == '.' && (d >= 1 <==> '.' in base[1..])
  {
    var a := AfterLast(base, '.');
    var off := |base| - |a|;
    assert forall i :: off <= i < |base| ==> base[i] == a[i - off];
    assert forall i :: off <= i < |base| ==> base[i] != '.';
    assert forall i :: 1 <= i < |base| ==> base[i] == base[1..][i - 1];
  }

  /** `path.parse(p).dir`. */
  function Dirname(p: string): (r: string)
  {
    var k := |StripTrailingSlashes(p)| - |Basename(p)|;
    if p == [] then []
    else if k >= 2 then p[..k - 1]
    else if p[0] == '/' then "/"
    else []
  }

  /** One step of `path.normalize`'s segment walk: empty and `.` segments
      vanish, `..` removes the previous ordinary segment (or is kept, in a
      relative path, when there is none). */
  function PushSegment(stack: seq<string>, seg: string, allowAboveRoot: bool): seq<string>
  {
    if seg == "" || seg == "." then stack
    else if seg == ".." then
      if |stack| > 0 && stack[|stack| - 1] != ".." then stack[..|stack| - 1]
      else if allowAboveRoot then stack + [".."]
      else stack
    else stack + [seg]
  }

  function ResolveSegments(stack: seq<string>, segs: seq<string>, allowAboveRoot: bool): seq<string>
    decreases |segs|
  {
    if |segs| == 0 then stack
    else ResolveSegments(PushSegment(stack, segs[0], allowAboveRoot), segs[1..], allowAboveRoot)
  }

  /** `path.normalize(p)`. */
  function Normalize(p: string): (r: string)
    ensures r != []
  {
    if p == [] then "."
    else
      var isAbsolute := p[0] == '/';
      var trailing := p[|p| - 1] == '/';
      var body := Join(ResolveSegments([], Split(p, '/'), !isAbsolute), "/");
      if body == [] then
        if isAbsolute then "/" else if trailing then "./" else "."
      else
        var b := if trailing then body + "/" else body;
        if isAbsolute then "/" + b else b
  }

  /** `path.join(a, b)`: the non-empty arguments joined by `/`, then normalised. */
  function Join2(a: string, b: string): (r: string)
    ensures r != []
  {
    var joined := if a == [] then b else if b == [] then a else a + "/" + b;
    if joined == [] then "." else Normalize(joined)
  }

  /** The `stripExtension` helper of the document resolver:
      `path.join(parsed.dir, parsed.name)`. */
  function StripExtension(p: string): string
  {
    Join2(Dirname(p), ParseName(Basename(p)))
  }

  /** A path segment that normalisation keeps as it is. */
  predicate OrdinarySegment(seg: string)
  {
    seg != "" && seg != "." && seg != ".." && '/' !in seg
  }

  predicate AllOrdinary(segs: seq<string>)
  {
    forall i :: 0 <= i < |segs| ==> OrdinarySegment(segs[i])
  }

  /** A relative path of ordinary segments separated by single `/`. */
  predicate CleanPath(p: string)
  {
    AllOrdinary(Split(p, '/'))
  }

  lemma {:induction false} ResolveOrdinary(stack: seq<string>, segs: seq<string>, allowAboveRoot: bool)
    requires AllOrdinary(segs)
    ensures ResolveSegments(stack, segs, allowAboveRoot) == stack + segs
    decreases |segs|
  {
    if |segs| > 0 {
      ResolveOrdinary(stack + [segs[0]], segs[1..], allowAboveRoot);
      assert stack + [segs[0]] + segs[1..] == stack + segs;
    }
  }

  /** A clean path is the join of its segments. */
  lemma CleanPathJoin(p: string)
    requires CleanPath(p)
    ensures p == Join(Split(p, '/'), "/")
  {
    JoinSplit(p, '/');
  }

  /** The join of ordinary segments is a clean path with those segments. */
  lemma JoinClean(segs: seq<string>)
    requires |segs| >= 1 && AllOrdinary(segs)
    ensures Split(Join(segs, "/"), '/') == segs
    ensures CleanPath(Join(segs, "/"))
  {
    SplitJoin(segs, '/');
  }

  /** Normalising a join of ordinary segments leaves it unchanged. */
  lemma NormalizeJoin(segs: seq<string>)
    requires |segs| >= 1 && AllOrdinary(segs)
    ensures Normalize(Join(segs, "/")) == Join(segs, "/")
  {
    var p := Join(segs, "/");
    JoinClean(segs);
    JoinEnds(segs, "/");
    assert p != [] && p[0] != '/' && p[|p| - 1] != '/';
    ResolveOrdinary([], segs, true);
    assert [] + segs == segs;
    assert ResolveSegments([], Split(p, '/'), true) == segs;
  }

  /** Normalising a clean path leaves it unchanged. */
  lemma NormalizeClean(p: string)
    requires CleanPath(p)
    ensures Normalize(p) == p
  {
    CleanPathJoin(p);
    NormalizeJoin(Split(p, '/'));
  }

  lemma {:induction false} AfterLastAppend(u: string, c: char, t: string)
    requires c !in t
    ensures AfterLast(u + [c] + t, c) == t
    decreases |t|
  {
    if |t| > 0 {
      var w := u + [c] + t;
      assert w[..|w| - 1] == u + [c] + t[..|t| - 1];
      AfterLastAppend(u, c, t[..|t| - 1]);
    } else {
      assert u + [c] + t == u + [c];
    }
  }

  /** A single segment is its own base name and has no directory part. */
  lemma BasenameDirnameSegment(seg: string)
    requires seg != [] && '/' !in seg
    ensures Basename(seg) == seg && Dirname(seg) == []
  {
    assert StripTrailingSlashes(seg) == seg;
    AfterLastNone(seg, '/');
  }

  lemma {:induction false} AfterLastNone(t: string, c: char)
    requires c !in t
    ensures AfterLast(t, c) == t
  {
    if |t| > 0 {
      AfterLastNone(t[..|t| - 1], c);
    }
  }

  /** A non-empty directory, a separator and a segment: the base name is the
      segment and the directory part is the directory. */
  lemma BasenameDirnameAppend(dir: string, seg: string)
    requires dir != [] && seg != [] && '/' !in seg
    ensures Basename(dir + "/" + seg) == seg
    ensures Dirname(dir + "/" + seg) == dir
  {
    var p := dir + "/" + seg;
    assert p[|p| - 1] == seg[|seg| - 1];
    assert StripTrailingSlashes(p) == p;
    assert p == dir + ['/'] + seg;
    AfterLastAppend(dir, '/', seg);
    assert p[..|dir|] == dir;
  }

  /** Base name and directory of a join of ordinary segments: the last segment,
      and the join of the others. */
  lemma BasenameDirnameJoin(segs: seq<string>)
    requires |segs| >= 1 && AllOrdinary(segs)
    ensures Basename(Join(segs, "/")) == segs[|segs| - 1]
    ensures |segs| == 1 ==> Dirname(Join(segs, "/")) == []
    ensures |segs| > 1 ==> Dirname(Join(segs, "/")) == Join(segs[..|segs| - 1], "/")
    ensures |segs| > 1 ==> Join(segs, "/") == Join(segs[..|segs| - 1], "/") + "/" + segs[|segs| - 1]
  {
    var last := segs[|segs| - 1];
    if |segs| == 1 {
      BasenameDirnameSegment(last);
    } else {
      var init := segs[..|segs| - 1];
      assert segs == init + [last];
      JoinSnoc(init, last, "/");
      JoinEnds(init, "/");
      BasenameDirnameAppend(Join(init, "/"), last);
    }
  }

  /** Joining the empty directory and an ordinary segment gives the segment. */
  lemma Join2Segment(seg: string)
    requires OrdinarySegment(seg)
    ensures Join2([], seg) == seg
  {
    NormalizeJoin([seg]);
  }

  /** Joining a join of ordinary segments and one more ordinary segment puts a
      single separator between them. */
  lemma Join2Segments(init: seq<string>, seg: string)
    requires |init| >= 1 && AllOrdinary(init) && OrdinarySegment(seg)
    ensures Join2(Join(init, "/"), seg) == Join(init, "/") + "/" + seg
  {
    JoinSnoc(init, seg, "/");
    JoinEnds(init, "/");
    assert AllOrdinary(init + [seg]);
    NormalizeJoin(init + [seg]);
  }

  /** Stripping the extension of a clean path whose base name does not parse to
      `.` or `..` replaces the base name by its name: `src/a.test.ts` becomes
      `src/a.test`. */
  lemma StripExtensionClean(p: string)
    requires CleanPath(p)
    requires OrdinarySegment(ParseName(Basename(p)))
    ensures StripExtension(p) == p[..|p| - |Basename(p)|] + ParseName(Basename(p))
  {
    var segs := Split(p, '/');
    CleanPathJoin(p);
    BasenameDirnameJoin(segs);
    StripExtensionJoin(segs);
  }

  lemma StripExtensionJoin(segs: seq<string>)
    requires |segs| >= 1 && AllOrdinary(segs)
    requires OrdinarySegment(ParseName(segs[|segs| - 1]))
    ensures var p := Join(segs, "/");
      StripExtension(p) == p[..|p| - |Basename(p)|] + ParseName(Basename(p))
  {
    var p := Join(segs, "/");
    BasenameDirnameJoin(segs);
    var last := segs[|segs| - 1];
    var name := ParseName(last);
    if |segs| == 1 {
      Join2Segment(name);
      assert p[..|p| - |last|] == [];
    } else {
      var init := segs[..|segs| - 1];
      Join2Segments(init, name);
      assert p[..|p| - |last|] == Join(init, "/") + "/";
    }
  }
}
