# repo-reader-mcp core, modelled in Dafny

repo-reader-mcp is an MCP server. It clones a repository sparsely, following
the glob patterns in the repository's own `repo-reader.config.json`, and then
answers three kinds of query about the checkout:
- a directory menu;
- reading one document by a loose file reference;
- a line-by-line text or regular-expression search.

This project models the deterministic logic behind those queries, with one
module per source file:

- `Glob` (`glob.dfy`): `src/utils/glob.ts`
- `NormalizePath` (`normalize_path.dfy`): `src/utils/normalize-path.ts`, which `menu.ts` repeats as `normalizeSubPath`
- `Menu` (`menu.dfy`): `src/utils/menu.ts`
- `ReadDocument` (`read_document.dfy`): `src/utils/read-document.ts`
- `Search` (`search.dfy`): `src/utils/search.ts`
- `Config` (`config.dfy`): `src/schema/config.ts` and `src/utils/resolve-config.ts`
- `SparseCheckout` (`sparse_checkout.dfy`): credential URL rewriting and the sparse-path list in `src/utils/sparse-checkout.ts`
- `Cli` (`cli.dfy`): `parseArgs` and the branch default in `src/index.ts`

Four shared modules back them:
- `Sequences`: `filter`, `Array.from(new Set(…))`, and `sort` with a comparator.
- `Strings`: JavaScript `trim`, `split`, `join`, `replace` (both the global literal form and the first-occurrence form with `$` patterns), number-to-text, and the two string orders.
- `PosixPath`: `path.posix` `basename`, `parse`, `normalize` and `join`.
- `Workspace`: the checkout as a map from relative path to size and text.

The file system, git and the JavaScript RegExp engine are not modelled:
- The directory tree is an in-memory datatype (`Menu.Node`).
- The checkout is a map from path to file data (`Workspace.Files`).
- The output of `listFiles` is a parameter (`listed`).
- The search's compiled expression is a pair of parameters:
  - `compile` turns pattern text and flags into a matcher or an error message;
  - `test` runs the matcher on one line.
- Path order for search output is a parameter (`pathLess`), assumed to be a strict total order where a lemma needs it.

Code whose effect is step by step is imperative in the model:
- `buildAsciiTree`, the candidate loop of `readDocument`, the loops of `search` and `parseArgs`.
- Each is a `method`, proved equal to a function on values.
- The lemmas state the source's promises about those functions.

## Model

| member | source | states |
|---|---|---|
| Glob.EscapeRegExp | src/utils/glob.ts:1-3 | the result is literal regular-expression text: every metacharacter of `.*+?^${}()\|[]\` comes out preceded by a backslash, and no other character is escaped; `Glob.UnescapeEscape` is its inverse |
| Glob.EscapeUnique | src/utils/glob.ts:1-3 | the escaping is the only literal regular-expression text that reads back as the input |
| Glob.UnescapeEscape | src/utils/glob.ts:1-3 | escaping loses nothing: removing the added backslashes gives back the input |
| Glob.Tokenize | src/utils/glob.ts:9-15 | the glob read left to right: `**` is one token, a lone `*` another, and no `*` token is followed by a `*` |
| Glob.EscapeTokens | src/utils/glob.ts:9 | the escaped glob is the concatenation of the escaped tokens |
| Glob.Stage1 | src/utils/glob.ts:11 | replacing every escaped `**` with `.*` turns exactly the double-star tokens into `.*` |
| Glob.Stage2 | src/utils/glob.ts:13 | replacing every remaining escaped `*` with `[^/]*` turns exactly the single-star tokens into `[^/]*` |
| Glob.Stage3 | src/utils/glob.ts:15 | replacing every escaped `?` with `[^/]` turns exactly the `?` tokens into `[^/]` |
| Glob.GlobRegExpSourceTokens | src/utils/glob.ts:5-18 | the anchored source `globToRegExp` builds is `^`, the rendering of the tokens of the separator-normalised glob, and `$` |
| Glob.StarMatches | src/utils/glob.ts:13 | `*` accepts exactly the strings without `/` |
| Glob.DoubleStarMatches | src/utils/glob.ts:11 | `**` accepts exactly the strings without a line terminator, the empty string and strings holding `/` included |
| Glob.QuestMatches | src/utils/glob.ts:15 | `?` accepts exactly one character other than `/` |
| Glob.LiteralMatches | src/utils/glob.ts:17 | a glob of literal tokens accepts its own text and nothing else, so matching is anchored at both ends |
| Glob.TokenizeLiteral | src/utils/glob.ts:9 | a glob without `*` or `?` is read as the literal characters of its text |
| Glob.LiteralGlobMatches | src/utils/glob.ts:1-17 | a glob without `*`, `?` or a backslash pair matches exactly the identical path |
| Glob.NoBackslashNormalize | src/utils/glob.ts:7 | separator normalisation leaves a glob without backslashes unchanged |
| Glob.ReplaceAllNoMatch | src/utils/glob.ts:11-15 | a global replace of a pattern that does not occur leaves the text unchanged |
| Glob.SlashesMatched | src/utils/glob.ts:11-17 | a path matched by a glob has at least as many `/` as the glob's literal `/`, and exactly as many when the glob has no `**` |
| Glob.TokenizeSlashes | src/utils/glob.ts:9 | the literal `/` tokens of a glob are its `/` characters |
| Glob.DoubleStarSlashNeedsSlash | src/utils/glob.ts:11-17 | `**/*.ts` does not match the top-level `a.ts` |
| Glob.SomeMatchesIff | src/utils/glob.ts:23-24 | `regs.some(…)` holds exactly when some pattern matches the path |
| Glob.EveryMissesIff | src/utils/glob.ts:30-31 | `regs.every(r => !r.test(…))` holds exactly when no pattern matches |
| Glob.EmptyListsAccept | src/utils/glob.ts:20-21 | an absent or empty pattern list makes both `matchesAny` and `matchesNone` true |
| Glob.MatchesNoneIsNotAny | src/utils/glob.ts:20-32 | for a non-empty list, `matchesNone` is the negation of `matchesAny`, which holds when some pattern matches the normalised path |
| Glob.MatchesAnySingle | src/utils/glob.ts:20-25 | with one pattern, `matchesAny` is that glob's match on the normalised path |
| Glob.LiteralQueryPattern | src/utils/glob.ts:48-52 | a non-regex query is recoverable from its pattern: unwrapping and unescaping give back the trimmed query |
| Glob.WholeWordWraps | src/utils/glob.ts:52 | the whole-word pattern is the plain pattern inside `\b(?:…)\b`, with the same flags |
| Glob.EscapePlain | src/utils/glob.ts:1-3 | text without metacharacters is its own escaping |
| Glob.RegexFlagIrrelevant | src/utils/glob.ts:51 | for a query without metacharacters, the `regex` option does not change the pattern |
| Glob.TrimmedQuerySame | src/utils/glob.ts:34-60 | `makeTextSearchRegExp` gives the same outcome for a query and for its trimmed form |
| Glob.GlobRegExpSource | src/utils/glob.ts:5-18 | the pattern text `globToRegExp` builds, by its four replace steps; `Glob.GlobRegExpSourceTokens` states what it is |
| Glob.GlobMatches | src/utils/glob.ts:5-18 | `globToRegExp(g).test(s)` as the matcher of the normalised glob's tokens; `Glob.LiteralGlobMatches` and `Glob.SlashesMatched` state what it accepts |
| Glob.MatchesAny | src/utils/glob.ts:20-25 | `matchesAny`; `Glob.EmptyListsAccept`, `Glob.SomeMatchesIff` and `Glob.MatchesAnySingle` state its value |
| Glob.MatchesNone | src/utils/glob.ts:27-32 | `matchesNone`; `Glob.EmptyListsAccept`, `Glob.EveryMissesIff` and `Glob.MatchesNoneIsNotAny` state its value |
| NormalizePath.StripDrive | src/utils/normalize-path.ts:9 | the result is the input with zero or two leading characters removed; two are removed exactly when they are a drive letter and `:` |
| NormalizePath.StripLeadingSlashes | src/utils/normalize-path.ts:11 | the result is a suffix, all removed characters are `/`, and it does not start with `/` |
| PosixPath.StripTrailingSlashes | src/utils/normalize-path.ts:12 | the result is a prefix, all removed characters are `/`, and it does not end with `/` |
| NormalizePath.KeptSegments | src/utils/normalize-path.ts:15-17 | every surviving segment is non-empty, free of `/`, and neither `.` nor `..` |
| Strings.Split | src/utils/normalize-path.ts:15 | `split` gives at least one piece, and no piece holds the separator |
| Strings.JoinSplit | src/utils/normalize-path.ts:15-18 | joining the pieces of a split with the separator gives back the text |
| Strings.SplitJoin | src/utils/normalize-path.ts:15-18 | splitting pieces free of the separator after joining them gives back the pieces |
| Sequences.Filter | src/utils/normalize-path.ts:16-17 | `filter` keeps, in order, exactly the elements the predicate accepts |
| NormalizePath.NormalizeOsPath | src/utils/normalize-path.ts:3-19 | absent or empty input gives `""`; the output never holds a backslash; a non-empty output is a clean relative path (ordinary segments joined by single `/`) |
| NormalizePath.JoinSegments | src/utils/normalize-path.ts:18 | joining ordinary segments gives `""` exactly for no segments, and otherwise a clean path that splits back into those segments |
| NormalizePath.BackslashFree | src/utils/normalize-path.ts:7-18 | after backslashes became `/`, no later step brings one back |
| NormalizePath.StripLeadingKeeps | src/utils/normalize-path.ts:11-16 | removing leading slashes does not change the non-empty segments |
| NormalizePath.StripTrailingKeeps | src/utils/normalize-path.ts:12-16 | removing trailing slashes does not change the non-empty segments |
| NormalizePath.NormalizeSegments | src/utils/normalize-path.ts:5-18 | the output's segments are exactly the non-empty, non-dot segments of the trimmed, slashed, undrived input, in order |
| NormalizePath.NormalizedEnds | src/utils/normalize-path.ts:11-18 | a non-empty output neither starts nor ends with `/` |
| NormalizePath.NotIdempotent | src/utils/normalize-path.ts:9 | `C:/D:/x` normalises to `D:/x`, which normalises to `x`: normalising twice can differ from once |
| Menu.ReadDirSorted | src/utils/menu.ts:14-25 | an unreadable or non-directory node gives no listing; otherwise the folders are the visible sub-directories' names and the files the visible regular files' names, each sorted case-blind and each holding every such name once per child (a permutation of the filtered names) |
| Sequences.Sort | src/utils/menu.ts:22-23 | `sort` with a comparator returns a permutation of its input |
| Menu.VisibleNames | src/utils/menu.ts:16-23 | filtering, taking names and sorting keeps exactly the names of the kept children, one per kept child: the sorted list is a permutation of their names |
| Menu.FoldersFirst | src/utils/menu.ts:35-38 | no file entry comes before a folder entry |
| Menu.TreeLines | src/utils/menu.ts:27-67 | a listing exists exactly for a readable directory |
| Menu.BuildAsciiTree | src/utils/menu.ts:27-67 | reading a folder and walking its entries gives exactly the tree's lines, and nothing when the folder cannot be read |
| Menu.BuildEntryLines | src/utils/menu.ts:40-64 | the loop that pushes each entry's line, then a folder's child lines, builds exactly the lines of all entries in order |
| Menu.BuildChildLines | src/utils/menu.ts:47-62 | a folder's child lines are those of its subtree with the extended prefix and decremented depth, or none when the budget is spent or the folder cannot be read |
| Menu.SubtreeLines | src/utils/menu.ts:47-62 | the lines below one entry; `Menu.BuildChildLines`, `Menu.SubtreeLinesPrefix` and `Menu.UnreadableFolder` state them |
| Menu.ShallowEntryLines | src/utils/menu.ts:49 | without depth left to descend, the lines are just the entries' own lines |
| Menu.DepthOneListsChildren | src/utils/menu.ts:49-50 | depth 1 lists only the immediate children |
| Menu.TreeLinesPrefix | src/utils/menu.ts:44-48 | every line of a subtree starts with the prefix it was given |
| Menu.EntryLinesPrefix | src/utils/menu.ts:40-63 | every line the loop produces starts with the loop's prefix |
| Menu.SubtreeLinesPrefix | src/utils/menu.ts:48 | children's lines extend the parent's prefix by the indent of its pointer: `    ` after the last sibling, `│   ` otherwise |
| Menu.UnreadableFolder | src/utils/menu.ts:51-61 | an unreadable folder keeps its own line, adds no children, and the siblings that follow are still rendered |
| Menu.Navigate | src/utils/menu.ts:99 | walking no segments stays at the starting directory, and a walk that succeeds ends at an entry named by the last segment |
| Menu.NavigateAppend | src/utils/menu.ts:99 | walking `a + b` is walking `a` and then `b` from where `a` ends |
| Menu.StartDir | src/utils/menu.ts:69-99 | a sub-path that normalises to `""` starts the menu at the root; otherwise the start, when found, is named by the normalised sub-path's last segment |
| Menu.StartDirWalksSegments | src/utils/menu.ts:69-99 | the start is the entry reached by walking the sub-path's segments that survive trimming, backslash conversion, drive removal and the empty, `.` and `..` filters |
| Menu.FindChild | src/utils/menu.ts:52-56 | a child found by name is a child with that name; none is found exactly when no child has it |
| Menu.HierarchyMenu | src/utils/menu.ts:87-108 | the menu is the root's line and the tree's lines, joined by line feeds |
| Menu.MenuLines | src/utils/menu.ts:87-108 | the lines `hierarchyMenu` joins; `Menu.MenuStartsWithRoot`, `Menu.MenuRootOnly`, `Menu.MenuNonPositiveDepth` and `Menu.MenuDepthOne` state them |
| Menu.MenuStartsWithRoot | src/utils/menu.ts:96-97 | the first line is always the basename of the resolved root, whatever the sub-path |
| Menu.MenuRootOnly | src/utils/menu.ts:98-107 | when the start directory cannot be read the menu is exactly the root's name |
| Menu.MenuNonPositiveDepth | src/utils/menu.ts:100 | a zero or negative depth renders like no depth |
| Menu.MenuDepthOne | src/utils/menu.ts:99-102 | depth 1 gives the root's name and one line per visible child of the start directory |
| PosixPath.Basename | src/utils/read-document.ts:34 | the base name holds no `/` |
| PosixPath.AfterLast | src/utils/read-document.ts:34 | the text after the last occurrence of a character: a suffix without that character, and preceded by it when shorter than the input |
| PosixPath.ParseName | src/utils/read-document.ts:29-35 | the name `path.parse` gives is a prefix of the base name; `PosixPath.ParseNameExt` says where it ends |
| PosixPath.ResolveOrdinary | src/utils/read-document.ts:30 | resolving ordinary segments (not empty, `.` or `..`) only appends them to the stack |
| PosixPath.JoinClean | src/utils/read-document.ts:30 | ordinary segments joined by `/` form a clean path that splits back into them |
| PosixPath.NormalizeJoin | src/utils/read-document.ts:30 | `path.normalize` leaves ordinary segments joined by `/` unchanged |
| PosixPath.BasenameDirnameAppend | src/utils/read-document.ts:29-34 | for `DIR/SEG`, the base name is SEG and the directory is DIR |
| PosixPath.BasenameDirnameJoin | src/utils/read-document.ts:29-34 | on a clean path the base name is the last segment, and the directory is the others joined by `/`, or `""` for a single segment |
| PosixPath.Join2Segment | src/utils/read-document.ts:30 | joining an empty directory with an ordinary segment gives the segment |
| PosixPath.BasenameSplit | src/utils/read-document.ts:34 | the base name is the text after the last `/` |
| PosixPath.ParseNameExt | src/utils/read-document.ts:28-31 | name and extension rebuild the base name; when a dot follows the first character and the base is not `..`, the extension is the last dot and the text after it, and otherwise it is empty; a non-empty base has a non-empty name |
| PosixPath.StripExtensionClean | src/utils/read-document.ts:28-31 | on a clean path, `stripExtension` keeps the directory part and drops the extension of the base name |
| PosixPath.StripExtensionJoin | src/utils/read-document.ts:28-31 | the same for a path built from ordinary segments |
| PosixPath.StripExtension | src/utils/read-document.ts:28-31 | `stripExtension`; `PosixPath.StripExtensionClean` and `PosixPath.StripExtensionJoin` state what it keeps |
| PosixPath.NormalizeClean | src/utils/read-document.ts:30 | `path.normalize` leaves a clean path unchanged |
| PosixPath.Join2Segments | src/utils/read-document.ts:30 | joining a clean directory and a segment puts one `/` between them |
| ReadDocument.Candidates | src/utils/read-document.ts:39-54 | the candidates hold each file once, and a listed file is a candidate exactly when it matches the input |
| ReadDocument.CollectCandidates | src/utils/read-document.ts:39-54 | the loop adding matches to the set collects exactly the candidates |
| ReadDocument.ReadDocument | src/utils/read-document.ts:6-72 | the resolver returns what the resolution order decides |
| ReadDocument.Resolve | src/utils/read-document.ts:6-72 | the outcome of `readDocument`; `ReadDocument.DirectHitWins`, `ReadDocument.NotFound`, `ReadDocument.UniqueCandidate` and `ReadDocument.AmbiguousReport` state each case |
| ReadDocument.Decide | src/utils/read-document.ts:16-71 | the decision on the normalised input and its candidates; `ReadDocument.DecideUnique` states the single-candidate case |
| ReadDocument.ResolveIsDecide | src/utils/read-document.ts:13-71 | the resolution is the decision taken on the normalised input and its candidate list |
| ReadDocument.DecideUnique | src/utils/read-document.ts:70-71 | without a direct hit, one candidate gives its content, or a read error naming it when it has none |
| ReadDocument.DirectHitWins | src/utils/read-document.ts:13-21 | when the normalised path names a readable file, its content is returned without any candidate search |
| ReadDocument.CandidatesWithPath | src/utils/read-document.ts:33-47 | for input with a `/`, a listed file is a candidate exactly when its path, or its path without extension, equals the input's |
| ReadDocument.CandidatesByName | src/utils/read-document.ts:33-35 | for input without a `/`, a listed file is a candidate exactly when its base name, or its base name without extension, equals the input's |
| ReadDocument.NotFound | src/utils/read-document.ts:56-58 | no direct hit and no candidate fails with `File not found: ` followed by the original, un-normalised reference |
| ReadDocument.UniqueCandidate | src/utils/read-document.ts:70-71 | a single candidate gives its content, or the read failure when it cannot be read |
| ReadDocument.ExamplesAreLeast | src/utils/read-document.ts:60-64 | the examples are at most ten distinct candidates, in sorted order, and they are the least ones |
| ReadDocument.AmbiguousReport | src/utils/read-document.ts:59-68 | more than one candidate fails with the reference, the count in decimal and the examples each on a line after ` - ` |
| Strings.NatToStringValue | src/utils/read-document.ts:66 | the count printed in the message reads back as the count |
| Strings.NatToString | src/utils/read-document.ts:66 | the count is written with decimal digits only, and without a leading zero unless it is 0 |
| Strings.LexLessStrictTotal | src/utils/read-document.ts:62 | the default `sort()` order on paths is a strict total order |
| Search.SplitLines | src/utils/search.ts:58 | one line per line feed plus one, and no line holds a line feed |
| Search.SplitLinesJoin | src/utils/search.ts:58 | text without carriage returns is split into lines that join back to it |
| Search.SplitLinesCRLF | src/utils/search.ts:58 | lines joined with CR LF split back into the same lines, the CRs dropped |
| Search.DropCR | src/utils/search.ts:58 | a piece loses at most one trailing carriage return |
| Search.MatchedLines | src/utils/search.ts:59-67 | every recorded number is a 1-based line the matcher accepts |
| Strings.JoinEnds | src/utils/search.ts:91 | a join of non-empty pieces starts with the first piece's first character and ends with the last piece's last character |
| Search.MatchedLinesAscending | src/utils/search.ts:59-67 | the recorded numbers strictly increase, so each is recorded once |
| Search.MatchedLinesComplete | src/utils/search.ts:59-67 | every accepted line is recorded |
| Search.MatchedLinesSound | src/utils/search.ts:59-67 | every recorded line is accepted |
| Search.ScanLines | src/utils/search.ts:59-67 | the loop testing each line with its state reset records exactly the matched lines |
| Search.MatchedSorted | src/utils/search.ts:70 | sorting the recorded numbers numerically leaves them as they are |
| Search.FileHits | src/utils/search.ts:70-73 | one result per recorded line, with the file's path and that line number |
| Search.ScanFile | src/utils/search.ts:58-73 | a file's results are its matching lines in ascending order, each with its text |
| Search.PushHits | src/utils/search.ts:70-73 | the loop pushing one result per number builds exactly those results |
| Search.CollectResults | src/utils/search.ts:45-74 | the loop over the listed files collects exactly every file's results, in listing order |
| Search.AllHits | src/utils/search.ts:45-74 | every collected result is on a listed path; `Search.AllHitsMember` states exactly which results are collected |
| Search.AllHitsSnoc | src/utils/search.ts:45-74 | one more file appends its own results |
| Search.HitsOfMember | src/utils/search.ts:49-73 | a file contributes exactly the results on its own path that are hits: a 1-based matching line of a file of at most 5 MiB that could be read, with that line's text |
| Search.HitsOfSound | src/utils/search.ts:49-73 | every result a file contributes is on its path and is a hit |
| Search.HitsOfComplete | src/utils/search.ts:49-73 | every hit on a file's path is among that file's results |
| Search.AllHitsMember | src/utils/search.ts:45-74 | a result is collected exactly when its path is listed and it is a hit |
| Search.HitDeterminedByLine | src/utils/search.ts:70-73 | two collected results on the same line of the same file are equal |
| Search.AllHitsNoDup | src/utils/search.ts:45-74 | when every file is listed once, no result is collected twice |
| Search.AllHitsEmpty | src/utils/search.ts:68-76 | nothing is collected exactly when no listed file is searched and has a matching line |
| Search.GroupByPath | src/utils/search.ts:79-84 | the loop filling the map builds exactly the grouping |
| Search.GroupHitsShape | src/utils/search.ts:79-84 | groups have distinct paths, exactly the results' paths, and each holds its path's lines in result order |
| Search.LinesForMember | src/utils/search.ts:79-84 | a line belongs to a path's group exactly when a result with that path, line and text was collected |
| Search.EntryLessWeak | src/utils/search.ts:78-86 | ordering groups by path is a strict weak order whenever the path order is one |
| Search.IndexOfPath | src/utils/search.ts:81 | the lookup finds the group with that path, or none exactly when no group has it |
| Search.ReportEntry | src/utils/search.ts:78-87 | each reported entry holds its path's results from the sorted list |
| Search.Report | src/utils/search.ts:78-87 | the entries the sections are printed from; `Search.ReportPaths`, `Search.ReportOrder` and `Search.ReportLines` state them |
| Search.ReportPaths | src/utils/search.ts:68-90 | the sections are for exactly the listed files that have a match, each once |
| Search.ReportOrder | src/utils/search.ts:86 | sections appear in strictly ascending path order |
| Search.ReportLines | src/utils/search.ts:87 | a section's lines are sorted and are exactly the hits of its file |
| Search.ReportLinesOnce | src/utils/search.ts:87 | with every file listed once, a section's line numbers strictly increase |
| Search.Sections | src/utils/search.ts:85-90 | one section per group |
| Search.ReportNonEmpty | src/utils/search.ts:76-85 | some result gives at least one section |
| Search.FormatSections | src/utils/search.ts:85-90 | the loop pushing sections builds exactly the sections in path order |
| Search.QueryPattern | src/utils/search.ts:21-33 | the trim, flag and escape steps give the same pattern as the glob module's text-search pattern |
| Search.CompileQuery | src/utils/search.ts:21-40 | query handling as written gives the same outcome as `makeTextSearchRegExp` |
| Search.Search | src/utils/search.ts:8-92 | the search as written produces the specified output |
| Search.SearchOutput | src/utils/search.ts:8-92 | what `search` returns; `Search.SearchEmptyQuery`, `Search.SearchInvalidPattern`, `Search.SearchCompiled` and `Search.SearchResults` state each case |
| Search.SearchEmptyQuery | src/utils/search.ts:21-22 | a query that is empty after trimming gives `""` |
| Search.SearchInvalidPattern | src/utils/search.ts:34-40 | a pattern that fails to compile gives `Invalid regular expression: ` and the message, as a result rather than an error |
| Search.SearchCompiled | src/utils/search.ts:76-91 | with a compiled pattern, the output is `No results found.` for no results, else the report's sections joined by a blank line |
| Search.SectionsNotEmptyText | src/utils/search.ts:89-91 | a non-empty report never reads `No results found.` |
| Search.SearchResults | src/utils/search.ts:68-91 | the output is `No results found.` exactly when no listed file has a searchable matching line; otherwise it is at least one section, joined by blank lines |
| Config.SafeParse | src/schema/config.ts:4-8 | parsing succeeds exactly for a value matching the schema, and each present field is read back from the object |
| Config.ParseToJson | src/schema/config.ts:4-8 | every valid configuration survives a round trip through its JSON object |
| Config.EmptyObjectValid | src/schema/config.ts:4-8 | `{}` is valid with no field set |
| Config.NonObjectRejected | src/schema/config.ts:4 | a value that is not an object is rejected |
| Config.CleanGlobPatterns | src/utils/resolve-config.ts:17-25 | the cleaned list has no duplicates, no empty string and no backslash, and holds exactly the cleaned forms of the non-blank patterns |
| Config.CleanedListIff | src/utils/resolve-config.ts:19-23 | before deduplication, the list holds exactly the trimmed, slashed forms of the non-blank patterns |
| Strings.Trim | src/utils/resolve-config.ts:20 | `trim` gives a slice of the string with only whitespace around it and no whitespace at either end |
| Strings.TrimUnique | src/utils/resolve-config.ts:20 | any slice with only whitespace around it and no whitespace at its ends is the trimmed text, so `trim` removes exactly the surrounding whitespace |
| Strings.TrimFixed | src/utils/resolve-config.ts:20 | text without whitespace at either end is not changed by `trim` |
| Strings.ReplaceCharRemoves | src/utils/resolve-config.ts:23 | after the replacement no backslash remains |
| Config.CleanKeepsFirstOccurrenceOrder | src/utils/resolve-config.ts:18 | cleaned patterns keep the order of their first occurrence |
| Config.CleanedPatternFixed | src/utils/resolve-config.ts:20-23 | a cleaned pattern is already trimmed and slashed |
| Config.CleanOfClean | src/utils/resolve-config.ts:17-25 | a distinct list of trimmed, slashed, non-empty patterns is its own cleaning |
| Config.CleanIdempotent | src/utils/resolve-config.ts:17-25 | cleaning twice is cleaning once |
| Config.CleanDefaultFiles | src/utils/resolve-config.ts:3-9 | the default `["**/*"]` is unchanged by cleaning |
| Config.ResolveRepoReaderConfig | src/utils/resolve-config.ts:27-60 | the resolver as written computes the resolved configuration |
| Config.ResolveConfig | src/utils/resolve-config.ts:27-60 | the resolved configuration field by field; `Config.InvalidConfigDefaults`, `Config.ValidConfigFields`, `Config.OverrideReplacesFiles`, `Config.OverrideIgnored` and `Config.ResolvedFilesClean` state it |
| Config.InvalidConfigDefaults | src/utils/resolve-config.ts:36-50 | a falsy or invalid configuration gives the default name, `["**/*"]` and depth -1 |
| Config.ValidConfigFields | src/utils/resolve-config.ts:41-48 | a valid configuration gives its name or the default, its depth or -1, and its cleaned files or the default |
| Config.OverrideReplacesFiles | src/utils/resolve-config.ts:52-57 | an override that cleans to a non-empty list replaces the files and nothing else |
| Config.OverrideIgnored | src/utils/resolve-config.ts:52-56 | an override that cleans to nothing changes nothing |
| Config.ResolvedFilesClean | src/utils/resolve-config.ts:27-60 | the resolved files are distinct, non-empty and free of backslashes |
| Strings.TrimEmptyIffBlank | src/utils/resolve-config.ts:20-21 | a pattern trims to `""` exactly when it is all whitespace |
| Strings.TrimIdempotent | src/utils/glob.ts:45 | trimming twice is trimming once |
| Sequences.Dedupe | src/utils/resolve-config.ts:18 | `Array.from(new Set(xs))` has no duplicates and the same members |
| Sequences.DedupeFirstOccurrenceOrder | src/utils/resolve-config.ts:18 | the set keeps insertion order |
| Sequences.DedupeOfNoDup | src/utils/resolve-config.ts:18 | a list without duplicates comes out of the set unchanged |
| Sequences.SortSorted | src/utils/menu.ts:22-23 | sorting by a strict weak order gives a sorted permutation |
| Sequences.SortedUnique | src/utils/search.ts:86 | under a total order there is one sorted arrangement of a collection |
| Strings.BaseLessStrictWeak | src/utils/menu.ts:22-23 | the case-blind order used to sort names is a strict weak order |
| Strings.BaseLessCaseBlind | src/utils/menu.ts:22-23 | names that differ only in letter case are not ordered against each other |
| SparseCheckout.SshMatch | src/utils/sparse-checkout.ts:22 | a match splits `git@HOST:PATH` at the first colon, with a non-empty host and a non-empty path free of line terminators |
| SparseCheckout.SshMatchOf | src/utils/sparse-checkout.ts:22-24 | every such `git@HOST:PATH` matches, with that host and path |
| SparseCheckout.SshNoColon | src/utils/sparse-checkout.ts:22-23 | a reference without a colon does not match |
| SparseCheckout.NoTokenUnchanged | src/utils/sparse-checkout.ts:16-17 | without a token, or with an empty one, the reference is returned unchanged |
| SparseCheckout.SshRewrite | src/utils/sparse-checkout.ts:19-38 | `git@HOST:PATH` becomes `https://CRED@HOST/PATH` |
| Strings.ContainsIff | src/utils/sparse-checkout.ts:26-32 | `includes` holds exactly when the text occurs at some position |
| SparseCheckout.SshCredentialOrder | src/utils/sparse-checkout.ts:26-38 | the credential is chosen by host substring in order: `gitlab` gives `oauth2:T`, `github` gives `T`, `bitbucket` gives `x-token-auth:T`, anything else `oauth2:T` |
| SparseCheckout.SshUnmatchedUnchanged | src/utils/sparse-checkout.ts:19-23 | a `git@` reference that does not match is returned unchanged |
| SparseCheckout.HttpsGitHub | src/utils/sparse-checkout.ts:41-44 | `https://github.com/…` gets `T@` before the host, ahead of the GitLab rule |
| SparseCheckout.GitHubBranch | src/utils/sparse-checkout.ts:41-44 | a `https://github.com/` reference with a token takes the GitHub branch, whatever else it contains |
| Strings.IndexOfSub | src/utils/sparse-checkout.ts:43 | the position of the first occurrence, or -1 when there is none |
| Strings.ReplaceFirstSubstAtStart | src/utils/sparse-checkout.ts:43 | a match at the start is replaced by the replacement text with its `$` patterns expanded |
| Strings.SubstituteLiteral | src/utils/sparse-checkout.ts:43 | a replacement text without `$` expands to itself |
| Strings.ReplaceFirstNoDollar | src/utils/sparse-checkout.ts:43 | with a replacement text without `$`, `replace` inserts it literally |
| SparseCheckout.HttpsBitbucket | src/utils/sparse-checkout.ts:49-52 | `https://bitbucket.org/…` that is not a GitLab URL gets `x-token-auth:T@` before the host |
| SparseCheckout.HttpsOAuth | src/utils/sparse-checkout.ts:45-56 | a GitLab URL, or any other `https://` URL, gets `oauth2:T@` after the scheme |
| SparseCheckout.HttpsInsertsCredential | src/utils/sparse-checkout.ts:41-56 | every `https://` reference gets its credential and `@` inserted right after the scheme |
| SparseCheckout.WithToken | src/utils/sparse-checkout.ts:15-59 | the branches of `getAuthenticatedRepoPath` with the replace step as a parameter; `SparseCheckout.NoTokenUnchanged`, `SparseCheckout.SshRewrite` and `SparseCheckout.SshUnmatchedUnchanged` state them |
| SparseCheckout.HttpsWithToken | src/utils/sparse-checkout.ts:41-57 | the HTTPS branches; `SparseCheckout.HttpsGitHub`, `SparseCheckout.HttpsBitbucket` and `SparseCheckout.HttpsOAuth` state them |
| SparseCheckout.GetAuthenticatedRepoPath | src/utils/sparse-checkout.ts:15-59 | `getAuthenticatedRepoPath` as written; `SparseCheckout.AsWrittenAgreesWithoutDollar` and `SparseCheckout.DollarTokenMangledAt` state how it differs from the corrected form |
| SparseCheckout.AuthenticatedRepoPath | src/utils/sparse-checkout.ts:15-59 | the rewrite with the token inserted literally; `SparseCheckout.HttpsInsertsCredential` states it |
| SparseCheckout.AsWrittenAgreesWithoutDollar | src/utils/sparse-checkout.ts:41-56 | for a token without `$`, the code as written and the corrected rewrite agree |
| SparseCheckout.DollarTokenMangledAt | src/utils/sparse-checkout.ts:43 | a token ending in `$&` is expanded by `replace` into the matched text |
| SparseCheckout.DollarTokenMangled | src/utils/sparse-checkout.ts:43 | token `a$&` on `https://github.com/o/r` is mangled as written, and kept by the corrected rewrite |
| SparseCheckout.SparsePaths | src/utils/sparse-checkout.ts:133-135 | the sparse paths are distinct, non-empty and backslash-free, and are exactly the slashed non-empty configured patterns |
| SparseCheckout.SparsePathsFromConfig | src/utils/sparse-checkout.ts:129-135 | an invalid configuration fails with the shape message; a valid one gives its sparse paths |
| SparseCheckout.SparsePathsFixed | src/utils/sparse-checkout.ts:133-135 | a distinct list of non-empty, backslash-free paths is its own sparse-path list |
| SparseCheckout.SparsePathsOfClean | src/utils/sparse-checkout.ts:133-135 | cleaned glob patterns pass through unchanged |
| SparseCheckout.SparsePathsIdempotent | src/utils/sparse-checkout.ts:133-135 | computing the list twice is computing it once |
| Cli.ArgEntry | src/index.ts:16-20 | an argument contributes an option only when it starts with `--` and has a non-empty key and value, neither holding `=` |
| Cli.ArgEntryOf | src/index.ts:16-20 | `--KEY=VALUE`, optionally followed by `=` and anything, gives KEY and VALUE |
| Cli.ArgEntryShape | src/index.ts:17 | every option comes from an argument `--KEY=VALUE` followed by nothing or by `=` |
| Cli.ParseArgs | src/index.ts:11-25 | the record `parseArgs` returns never holds the key `__proto__`; `Cli.ParseArgsKeys`, `Cli.ParseArgsLastWins` and `Cli.ParseArgsEntries` state its contents |
| Cli.SplitFirstTwo | src/index.ts:17 | the first two pieces of `split("=")` are the text up to the first `=` and from there to the next |
| Cli.ParseArgv | src/index.ts:11-25 | the `forEach` writing each option into the record builds exactly the parsed record |
| Cli.ParseArgsKeys | src/index.ts:15-22 | a key is in the record exactly when some argument sets it, except `__proto__` |
| Cli.ParseArgsLastWins | src/index.ts:19 | a key takes the value of the last argument that sets it |
| Cli.ParseArgsEntries | src/index.ts:18-19 | every entry has a non-empty key and value without `=` |
| Cli.BranchOf | src/index.ts:15-31 | without a `--branch=` argument the branch is `main`; otherwise it is the value of the last one |

## Left out

- File-system I/O. `fs.readdir`, `fs.stat` and `fs.readFile` become the in-memory tree and map, and `path.resolve` of the clone location is a parameter. Symbolic links and permissions appear only as the `readable` flag of a directory or a missing file content.
- `listFiles` is not part of this model. Its output is the `listed` parameter; `search` requires it to hold each file once where a lemma needs that.
- Git plumbing and `getCloneDir` in `src/utils/sparse-checkout.ts`: remote state and `os.homedir()`. Of `createSparseCheckout`, only the sparse-path expression and its shape check (lines 129-135) are modelled.
- The JavaScript RegExp engine. `new RegExp` and `.test` in search are the `compile` and `test` parameters. Globs are given their own matcher, which is connected to the regular-expression text the code builds.
- `Glob.MatchTokens` reads the rendered `.*`, `[^/]*` and `[^/]` in their ECMAScript meaning and nothing more.
- Locale. `localeCompare(…, { sensitivity: "base" })` in menu.ts is approximated by `Strings.BaseLess`, an ASCII case-folded code-point order. In search the path order is the `pathLess` parameter.
- Sorting in place. `Array.prototype.sort` is modelled as a function (a stable insertion sort) that returns a sorted permutation; the in-place update of the array is not modelled.
- Strings are sequences of Unicode scalar values. UTF-16 code units, surrogate pairs and invalid UTF-8 decoding are not modelled.
- JSON numbers are integers. Fractional depths in the configuration are not modelled.
- zod's `safeParse` is modelled only as the schema predicate and the data it yields. Error reports and unknown-key stripping are not modelled.
- `JSON.parse` and reading the configuration file, which happen in `src/utils/local-reference.ts`.
- The MCP server, its tool registration, the stdio transport and the setup prompt in `src/index.ts` and `src/prompt/setup-instruction-prompt.ts`.
- `process.argv` is the `args` parameter of `Cli.ParseArgv`.
- ReadDocument.Candidates: takes the listing `listed` to hold normalised relative paths (no `.` or `..` segments, no repeated or trailing `/`), as `listFiles` produces them. For such paths `path.relative(loc, path.join(loc, rel))` is `rel`, and the model relies on that without proving it.
- search.ts repeats `escapeRegExp` from glob.ts. The model defines it once (`Glob.EscapeRegExp`) and uses it in both places.
- SparseCheckout.SparsePathsFromConfig: requires that a valid configuration lists `files`. The schema allows `files` to be absent, and the code then dereferences `undefined` and throws a `TypeError`; that crash is not modelled.
- Search path order: search.ts orders results and sections with `localeCompare` (src/utils/search.ts:78 and 86). The model keeps this order abstract as the `pathLess` parameter.

## Findings

| source | as written | input that shows it | evidently intended | confidence | as-written member | corrected member |
|---|---|---|---|---|---|---|
| src/utils/sparse-checkout.ts:41-56 | the token is inserted with `String.prototype.replace` and a string replacement, so `$&`, `` $` ``, `$'` and `$$` in the token are expanded as substitution patterns | token `a$&` on `https://github.com/o/r` gives `https://ahttps://github.com/@github.com/o/r` | the token is inserted literally: `https://a$&@github.com/o/r` | not executed | SparseCheckout.DollarTokenMangled | SparseCheckout.HttpsInsertsCredential |
