/** The directory menu of `src/utils/menu.ts`: `readDirSorted` lists the
    visible folders and files of a directory, `buildAsciiTree` renders them as
    box-drawing lines, recursing into folders while the depth budget lasts, and
    `hierarchyMenu` puts the project's root name on top. The file system is an
    in-memory tree. */
module Menu {
  import opened Sequences
  import opened Strings
  import opened PosixPath
  import opened NormalizePath

  /** A directory entry as `fs.readdir(dir, { withFileTypes: true })` reports it.
      A directory also records whether it can be listed. */
  datatype Node =
    | Dir(name: string, readable: bool, children: seq<Node>)
    | File(name: string)
    | Other(name: string)

  /** `DEFAULT_IGNORES`. */
  const DefaultIgnores: set<string> := {".git", "node_modules", ".DS_Store"}

  /** `shouldIgnore(name)`. */
  predicate ShouldIgnore(name: string)
  {
    name in DefaultIgnores
  }

  function IsVisibleDir(n: Node): bool
  {
    n.Dir? && !ShouldIgnore(n.name)
  }

  function IsVisibleFile(n: Node): bool
  {
    n.File? && !ShouldIgnore(n.name)
  }

  /** `.map(d => d.name)`. */
  function Names(nodes: seq<Node>): (r: seq<string>)
    ensures |r| == |nodes|
    ensures forall i :: 0 <= i < |r| ==> r[i] == nodes[i].name
  {
    seq(|nodes|, i requires 0 <= i < |nodes| => nodes[i].name)
  }

  /** What `readDirSorted` returns: folder names and file names. */
  datatype Listing = Listing(folders: seq<string>, files: seq<string>)

  /** `readDirSorted(dir)`. It fails (`None`) exactly when `readdir` throws: the
      entry is not a directory or cannot be listed. */
  function ReadDirSorted(node: Node): (r: Option<Listing>)
    ensures r.None? <==> !(node.Dir? && node.readable)
    ensures r.Some? ==> Sorted(r.value.folders, BaseLess) && Sorted(r.value.files, BaseLess)
    ensures r.Some? ==> forall name ::
      name in r.value.folders <==> exists c :: c in node.children && c.Dir? && c.name == name && !ShouldIgnore(name)
    ensures r.Some? ==> forall name ::
      name in r.value.files <==> exists c :: c in node.children && c.File? && c.name == name && !ShouldIgnore(name)
    ensures r.Some? ==> multiset(r.value.folders) == multiset(Names(Filter(node.children, IsVisibleDir)))
    ensures r.Some? ==> multiset(r.value.files) == multiset(Names(Filter(node.children, IsVisibleFile)))
  {
    if !(node.Dir? && node.readable) then None
    else
      var dirs := Names(Filter(node.children, IsVisibleDir));
      var files := Names(Filter(node.children, IsVisibleFile));
      BaseLessStrictWeak();
      SortSorted(dirs, BaseLess);
      SortSorted(files, BaseLess);
      VisibleNames(node.children, IsVisibleDir);
      VisibleNames(node.children, IsVisibleFile);
      Some(Listing(Sort(dirs, BaseLess), Sort(files, BaseLess)))
  }

  /** The names kept by a filter, stated through the children: sorting keeps
      each kept child's name once per child. */
  lemma VisibleNames(children: seq<Node>, keep: Node -> bool)
    ensures forall name :: name in Sort(Names(Filter(children, keep)), BaseLess) <==>
      exists c :: c in children && keep(c) && c.name == name
    ensures multiset(Sort(Names(Filter(children, keep)), BaseLess)) == multiset(Names(Filter(children, keep)))
    ensures |Sort(Names(Filter(children, keep)), BaseLess)| == |Filter(children, keep)|
  {
    var kept := Filter(children, keep);
    var names := Names(kept);
    forall name ensures name in Sort(names, BaseLess) <==> name in names {
      assert name in Sort(names, BaseLess) <==> name in multiset(Sort(names, BaseLess));
    }
    forall name | name in names ensures exists c :: c in children && keep(c) && c.name == name {
      var i :| 0 <= i < |names| && names[i] == name;
      assert kept[i] in kept;
    }
    forall name | exists c :: c in children && keep(c) && c.name == name ensures name in names {
      var c :| c in children && keep(c) && c.name == name;
      assert c in kept;
      var i :| 0 <= i < |kept| && kept[i] == c;
      assert names[i] == name;
    }
  }

  /** One line of a level: a folder or a file name. */
  datatype Entry = Entry(name: string, isDir: bool)

  /** `[...folders.map(…dir…), ...files.map(…file…)]`. */
  function Entries(l: Listing): (r: seq<Entry>)
    ensures |r| == |l.folders| + |l.files|
    ensures forall i :: 0 <= i < |l.folders| ==> r[i] == Entry(l.folders[i], true)
    ensures forall i :: 0 <= i < |l.files| ==> r[|l.folders| + i] == Entry(l.files[i], false)
  {
    seq(|l.folders|, i requires 0 <= i < |l.folders| => Entry(l.folders[i], true))
    + seq(|l.files|, i requires 0 <= i < |l.files| => Entry(l.files[i], false))
  }

  /** Every folder of a level comes before every file. */
  lemma FoldersFirst(l: Listing, i: nat, j: nat)
    requires i < j < |Entries(l)|
    requires Entries(l)[j].isDir
    ensures Entries(l)[i].isDir
  {
  }

  /** The child reached by `path.join(dir, name)`: the first entry of that
      name. Names within a real directory are unique, so the first is the only
      one; the tree does not enforce this. */
  function FindChild(children: seq<Node>, name: string): (r: Option<Node>)
    ensures r.Some? ==> r.value in children && r.value.name == name
    ensures r.None? <==> forall c :: c in children ==> c.name != name
  {
    if |children| == 0 then None
    else if children[0].name == name then Some(children[0])
    else
      var r := FindChild(children[1..], name);
      assert children == [children[0]] + children[1..];
      r
  }

  const LastPointer: string := "\U{2514}\U{2500}\U{2500} "
  const MidPointer: string := "\U{251C}\U{2500}\U{2500} "
  const LastIndent: string := "    "
  const MidIndent: string := "\U{2502}   "

  function Pointer(isLast: bool): string
  {
    if isLast then LastPointer else MidPointer
  }

  function Indent(isLast: bool): string
  {
    if isLast then LastIndent else MidIndent
  }

  /** Whether a folder's contents are listed: the budget is absent or above 1. */
  predicate Descends(remainingDepth: Option<int>)
  {
    remainingDepth.None? || remainingDepth.value > 1
  }

  function NextDepth(remainingDepth: Option<int>): Option<int>
  {
    if remainingDepth.None? then None else Some(remainingDepth.value - 1)
  }

  /** The lines `buildAsciiTree(dir, prefix, remainingDepth)` returns, or `None`
      when it throws because `dir` cannot be listed. */
  function TreeLines(node: Node, prefix: string, remainingDepth: Option<int>): (r: Option<seq<string>>)
    ensures r.None? <==> !(node.Dir? && node.readable)
    decreases node, 1, 0
  {
    match ReadDirSorted(node)
    case None => None
    case Some(l) => Some(EntryLines(node, Entries(l), 0, prefix, remainingDepth))
  }

  /** The lines of the entries from `index` on: each entry's own line, then,
      for a folder within budget that can be listed, its subtree. */
  function EntryLines(dir: Node, entries: seq<Entry>, index: nat, prefix: string, remainingDepth: Option<int>): seq<string>
    requires dir.Dir?
    decreases dir, 0, |entries| - index
  {
    if index >= |entries| then []
    else
      var isLast := index == |entries| - 1;
      var entry := entries[index];
      [prefix + Pointer(isLast) + entry.name]
      + SubtreeLines(dir, entry, prefix + Indent(isLast), remainingDepth)
      + EntryLines(dir, entries, index + 1, prefix, remainingDepth)
  }

  /** The lines an entry contributes below its own: none for a file, for a
      folder past the budget, or for a folder that cannot be listed. */
  function SubtreeLines(dir: Node, entry: Entry, nextPrefix: string, remainingDepth: Option<int>): seq<string>
    requires dir.Dir?
    decreases dir, 0, 0
  {
    if entry.isDir && Descends(remainingDepth) then
      match FindChild(dir.children, entry.name)
      case None => []
      case Some(child) =>
        match TreeLines(child, nextPrefix, NextDepth(remainingDepth))
        case None => []
        case Some(lines) => lines
    else []
  }

  lemma AppendFour<T>(a: seq<T>, b: seq<T>, c: seq<T>, d: seq<T>)
    ensures (a + b + c) + d == a + (b + c + d)
  {
  }

  /** `buildAsciiTree(dir, prefix, remainingDepth)`: the loop appends each
      entry's line and, for a folder within budget, the lines of the recursive
      call, skipping a folder whose listing fails. */
  method BuildAsciiTree(node: Node, prefix: string, remainingDepth: Option<int>) returns (lines: Option<seq<string>>)
    ensures lines == TreeLines(node, prefix, remainingDepth)
    decreases node, 1, 0
  {
    var listing := ReadDirSorted(node);
    if listing.None? {
      return None;
    }
    var acc := BuildEntryLines(node, Entries(listing.value), prefix, remainingDepth);
    return Some(acc);
  }

  /** The loop over the entries of a listed directory: push each entry's line,
      then a folder's child lines. */
  method BuildEntryLines(node: Node, entries: seq<Entry>, prefix: string, remainingDepth: Option<int>) returns (acc: seq<string>)
    requires node.Dir?
    ensures acc == EntryLines(node, entries, 0, prefix, remainingDepth)
    decreases node, 0, 1
  {
    acc := [];
    var index := 0;
    while index < |entries|
      invariant 0 <= index <= |entries|
      invariant acc + EntryLines(node, entries, index, prefix, remainingDepth)
             == EntryLines(node, entries, 0, prefix, remainingDepth)
    {
      var entry := entries[index];
      var isLast := index == |entries| - 1;
      var line := prefix + Pointer(isLast) + entry.name;
      var childLines := BuildChildLines(node, entry, prefix + Indent(isLast), remainingDepth);
      var rest := EntryLines(node, entries, index + 1, prefix, remainingDepth);
      assert EntryLines(node, entries, index, prefix, remainingDepth) == [line] + childLines + rest;
      AppendFour(acc, [line], childLines, rest);
      acc := acc + [line] + childLines;
      index := index + 1;
    }
    assert acc + [] == acc;
  }

  /** The body of the loop for one entry: the recursive call for a folder
      within budget, with a failed listing giving no lines. */
  method BuildChildLines(dir: Node, entry: Entry, nextPrefix: string, remainingDepth: Option<int>) returns (childLines: seq<string>)
    requires dir.Dir?
    ensures childLines == SubtreeLines(dir, entry, nextPrefix, remainingDepth)
    decreases dir, 0, 0
  {
    childLines := [];
    if entry.isDir && (remainingDepth.None? || remainingDepth.value > 1) {
      var nextDepth := if remainingDepth.None? then None else Some(remainingDepth.value - 1);
      var child := FindChild(dir.children, entry.name);
      if child.Some? {
        var sub := BuildAsciiTree(child.value, nextPrefix, nextDepth);
        if sub.Some? {
          childLines := sub.value;
        }
      }
    }
  }

  /** The lines of one level when no folder is opened: one line per entry,
      with the last-sibling pointer on the final one. */
  function LevelLines(entries: seq<Entry>, prefix: string): (r: seq<string>)
    ensures |r| == |entries|
    ensures forall i :: 0 <= i < |entries| ==> r[i] == prefix + Pointer(i == |entries| - 1) + entries[i].name
  {
    seq(|entries|, i requires 0 <= i < |entries| => prefix + Pointer(i == |entries| - 1) + entries[i].name)
  }

  /** With a budget of at most 1 no folder is opened: each entry yields exactly
      its own line. */
  lemma {:induction false} ShallowEntryLines(dir: Node, entries: seq<Entry>, index: nat, prefix: string, remainingDepth: Option<int>)
    requires dir.Dir? && !Descends(remainingDepth) && index <= |entries|
    ensures EntryLines(dir, entries, index, prefix, remainingDepth) == LevelLines(entries, prefix)[index..]
    decreases |entries| - index
  {
    if index < |entries| {
      ShallowEntryLines(dir, entries, index + 1, prefix, remainingDepth);
      var level := LevelLines(entries, prefix);
      assert level[index..] == [level[index]] + level[index + 1..];
    }
  }

  /** `buildAsciiTree` with depth 1 lists only the immediate children. */
  lemma DepthOneListsChildren(node: Node, prefix: string)
    requires node.Dir? && node.readable
    ensures TreeLines(node, prefix, Some(1)) == Some(LevelLines(Entries(ReadDirSorted(node).value), prefix))
  {
    var entries := Entries(ReadDirSorted(node).value);
    ShallowEntryLines(node, entries, 0, prefix, Some(1));
  }

  lemma StartsWithLonger(s: string, p: string, q: string)
    requires StartsWith(s, p + q)
    ensures StartsWith(s, p)
  {
    assert s[..|p|] == (p + q)[..|p|];
  }

  /** Every line of a rendered directory begins with the prefix it was given. */
  lemma {:induction false} TreeLinesPrefix(node: Node, prefix: string, remainingDepth: Option<int>)
    ensures TreeLines(node, prefix, remainingDepth).Some? ==>
      forall i :: 0 <= i < |TreeLines(node, prefix, remainingDepth).value| ==>
        StartsWith(TreeLines(node, prefix, remainingDepth).value[i], prefix)
    decreases node, 1, 0
  {
    if node.Dir? && node.readable {
      EntryLinesPrefix(node, Entries(ReadDirSorted(node).value), 0, prefix, remainingDepth);
    }
  }

  lemma {:induction false} EntryLinesPrefix(dir: Node, entries: seq<Entry>, index: nat, prefix: string, remainingDepth: Option<int>)
    requires dir.Dir?
    ensures forall i :: 0 <= i < |EntryLines(dir, entries, index, prefix, remainingDepth)| ==>
      StartsWith(EntryLines(dir, entries, index, prefix, remainingDepth)[i], prefix)
    decreases dir, 0, |entries| - index
  {
    if index < |entries| {
      var isLast := index == |entries| - 1;
      var entry := entries[index];
      var line := prefix + Pointer(isLast) + entry.name;
      var sub := SubtreeLines(dir, entry, prefix + Indent(isLast), remainingDepth);
      var rest := EntryLines(dir, entries, index + 1, prefix, remainingDepth);
      assert StartsWith(line, prefix) by {
        assert line[..|prefix|] == prefix;
      }
      SubtreeLinesPrefix(dir, entry, prefix, isLast, remainingDepth);
      EntryLinesPrefix(dir, entries, index + 1, prefix, remainingDepth);
      var all := [line] + sub + rest;
      forall i | 0 <= i < |all| ensures StartsWith(all[i], prefix) {
        if i == 0 {
        } else if i <= |sub| {
          assert all[i] == sub[i - 1];
          StartsWithLonger(sub[i - 1], prefix, Indent(isLast));
        } else {
          assert all[i] == rest[i - 1 - |sub|];
        }
      }
    }
  }

  /** The lines below a folder extend the parent's prefix by the indent of
      its pointer: four spaces after the last sibling, `│` and three spaces
      otherwise. */
  lemma {:induction false} SubtreeLinesPrefix(dir: Node, entry: Entry, prefix: string, isLast: bool, remainingDepth: Option<int>)
    requires dir.Dir?
    ensures forall i :: 0 <= i < |SubtreeLines(dir, entry, prefix + Indent(isLast), remainingDepth)| ==>
      StartsWith(SubtreeLines(dir, entry, prefix + Indent(isLast), remainingDepth)[i], prefix + Indent(isLast))
    decreases dir, 0, 0
  {
    if entry.isDir && Descends(remainingDepth) {
      var child := FindChild(dir.children, entry.name);
      if child.Some? {
        TreeLinesPrefix(child.value, prefix + Indent(isLast), NextDepth(remainingDepth));
      }
    }
  }

  /** A folder that cannot be listed keeps its own line, adds nothing below it,
      and the entries after it are rendered as usual. */
  lemma UnreadableFolder(dir: Node, entries: seq<Entry>, index: nat, prefix: string, remainingDepth: Option<int>)
    requires dir.Dir? && index < |entries| && entries[index].isDir
    requires var c := FindChild(dir.children, entries[index].name); c.Some? && !(c.value.Dir? && c.value.readable)
    ensures EntryLines(dir, entries, index, prefix, remainingDepth)
         == [prefix + Pointer(index == |entries| - 1) + entries[index].name]
            + EntryLines(dir, entries, index + 1, prefix, remainingDepth)
  {
    assert SubtreeLines(dir, entries[index], prefix + Indent(index == |entries| - 1), remainingDepth) == [];
  }

  /** `depth && depth > 0 ? depth : undefined`: absent, zero or negative means
      no limit. */
  function RemainingDepth(depth: Option<int>): (r: Option<int>)
    ensures r.None? <==> depth.None? || depth.value <= 0
    ensures r.Some? ==> r == depth && r.value >= 1
  {
    if depth.Some? && depth.value > 0 then depth else None
  }

  /** The entry reached by following path segments from `node`: each segment
      but the last names a folder, and the walk ends at an entry named by the
      last segment. */
  function Navigate(node: Node, segs: seq<string>): (r: Option<Node>)
    ensures segs == [] ==> r == Some(node)
    ensures segs != [] && r.Some? ==> r.value.name == segs[|segs| - 1]
    decreases |segs|
  {
    if segs == [] then Some(node)
    else if !node.Dir? then None
    else
      match FindChild(node.children, segs[0])
      case None => None
      case Some(child) => Navigate(child, segs[1..])
  }

  /** A walk along `a + b` is the walk along `a` followed by the walk along `b`. */
  lemma {:induction false} NavigateAppend(node: Node, a: seq<string>, b: seq<string>)
    ensures Navigate(node, a + b) == match Navigate(node, a) case None => None case Some(m) => Navigate(m, b)
    decreases |a|
  {
    if a == [] {
      assert a + b == b;
    } else {
      assert (a + b)[0] == a[0] && (a + b)[1..] == a[1..] + b;
      if node.Dir? {
        match FindChild(node.children, a[0])
        case None =>
        case Some(child) => NavigateAppend(child, a[1..], b);
      }
    }
  }

  /** `path.join(projectCloneLocation, normalizeSubPath(subPath))`, resolved in
      the tree rooted at the project directory. */
  function StartDir(root: Node, subPath: Option<string>): (r: Option<Node>)
    ensures NormalizeOsPath(subPath) == "" ==> r == Some(root)
    ensures NormalizeOsPath(subPath) != "" && r.Some? ==> r.value.name == LastSegment(NormalizeOsPath(subPath))
  {
    WalkSub(root, NormalizeOsPath(subPath))
  }

  /** The menu starts where the walk along the sub-path's surviving segments
      ends: those that remain after trimming, converting backslashes and
      dropping the drive prefix, without empty, `.` and `..` segments. */
  lemma StartDirWalksSegments(root: Node, p: string)
    requires p != ""
    ensures StartDir(root, Some(p))
         == Navigate(root, Filter(Filter(Split(Undrived(p), '/'), NonEmpty), NotDotSegment))
  {
    var nonEmpty := Filter(Split(Undrived(p), '/'), NonEmpty);
    var segs := Filter(nonEmpty, NotDotSegment);
    var sub := NormalizeOsPath(Some(p));
    NormalizeSegments(p);
    if segs != [] {
      assert segs[0] in nonEmpty;
      assert sub != "" by {
        assert Split("", '/') == [""];
      }
    }
  }

  /** The last `/`-separated segment of a path. */
  function LastSegment(sub: string): string
  {
    var segs := Split(sub, '/');
    segs[|segs| - 1]
  }

  /** The walk along the segments of an already normalised sub-path. */
  function WalkSub(root: Node, sub: string): (r: Option<Node>)
    ensures sub == "" ==> r == Some(root)
    ensures sub != "" && r.Some? ==> r.value.name == LastSegment(sub)
  {
    if sub == "" then Some(root) else Navigate(root, Split(sub, '/'))
  }

  /** The lines `hierarchyMenu` joins: the root's name, then the tree of the
      start directory when it can be listed. */
  function MenuLines(resolvedRoot: string, root: Node, depth: Option<int>, subPath: Option<string>): seq<string>
  {
    LinesFrom(Basename(resolvedRoot), StartDir(root, subPath), RemainingDepth(depth))
  }

  /** The menu lines once the root's name, the start directory and the budget
      are known. */
  function LinesFrom(rootName: string, start: Option<Node>, remainingDepth: Option<int>): seq<string>
  {
    match start
    case None => [rootName]
    case Some(dir) =>
      match TreeLines(dir, "", remainingDepth)
      case None => [rootName]
      case Some(lines) => [rootName] + lines
  }

  /** The lines built from the start directory and its listing are the
      menu's lines. */
  lemma MenuFrom(resolvedRoot: string, root: Node, depth: Option<int>, subPath: Option<string>, treeLines: seq<string>)
    requires var start := StartDir(root, subPath);
      treeLines == if start.Some? && TreeLines(start.value, "", RemainingDepth(depth)).Some?
                   then [Basename(resolvedRoot)] + TreeLines(start.value, "", RemainingDepth(depth)).value
                   else [Basename(resolvedRoot)]
    ensures treeLines == MenuLines(resolvedRoot, root, depth, subPath)
  {
  }

  /** `hierarchyMenu({ projectCloneLocation, depth, subPath })`, given
      `path.resolve(projectCloneLocation)` as `resolvedRoot` and the directory
      tree at that location as `root`. */
  method HierarchyMenu(resolvedRoot: string, root: Node, depth: Option<int>, subPath: Option<string>) returns (menu: string)
    ensures menu == Join(MenuLines(resolvedRoot, root, depth, subPath), "\n")
  {
    var rootName := Basename(resolvedRoot);
    var start := StartDir(root, subPath);
    var remainingDepth := RemainingDepth(depth);
    var treeLines := [rootName];
    if start.Some? {
      var childLines := BuildAsciiTree(start.value, "", remainingDepth);
      if childLines.Some? {
        treeLines := [rootName] + childLines.value;
      }
    }
    menu := Join(treeLines, "\n");
    MenuFrom(resolvedRoot, root, depth, subPath, treeLines);
  }

  /** The menu always opens with the root's base name, whatever the sub path. */
  lemma MenuStartsWithRoot(resolvedRoot: string, root: Node, depth: Option<int>, subPath: Option<string>)
    ensures var lines := MenuLines(resolvedRoot, root, depth, subPath);
      |lines| >= 1 && lines[0] == Basename(resolvedRoot)
    ensures StartsWith(Join(MenuLines(resolvedRoot, root, depth, subPath), "\n"), Basename(resolvedRoot))
  {
    var lines := MenuLines(resolvedRoot, root, depth, subPath);
    JoinStartsWithFirst(lines, "\n");
  }

  /** When the start directory is missing or cannot be listed, the menu is the
      root's name alone. */
  lemma MenuRootOnly(resolvedRoot: string, root: Node, depth: Option<int>, subPath: Option<string>)
    requires var start := StartDir(root, subPath);
      start.None? || !(start.value.Dir? && start.value.readable)
    ensures Join(MenuLines(resolvedRoot, root, depth, subPath), "\n") == Basename(resolvedRoot)
  {
  }

  /** Zero or a negative depth renders like an absent depth: the whole tree. */
  lemma MenuNonPositiveDepth(resolvedRoot: string, root: Node, depth: int, subPath: Option<string>)
    requires depth <= 0
    ensures MenuLines(resolvedRoot, root, Some(depth), subPath) == MenuLines(resolvedRoot, root, None, subPath)
  {
  }

  /** Depth 1 shows the root's name and then just the start directory's own
      entries, one line each. */
  lemma MenuDepthOne(resolvedRoot: string, root: Node, subPath: Option<string>)
    requires var start := StartDir(root, subPath);
      start.Some? && start.value.Dir? && start.value.readable
    ensures var start := StartDir(root, subPath).value;
      MenuLines(resolvedRoot, root, Some(1), subPath)
      == [Basename(resolvedRoot)] + LevelLines(Entries(ReadDirSorted(start).value), "")
  {
    var start := StartDir(root, subPath).value;
    DepthOneListsChildren(start, "");
    assert RemainingDepth(Some(1)) == Some(1);
    var lines := TreeLines(start, "", Some(1)).value;
    assert MenuLines(resolvedRoot, root, Some(1), subPath) == [Basename(resolvedRoot)] + lines;
  }
}
