/** `readDocument` (`src/utils/read-document.ts`): a direct read of the
    normalised path when it names a readable file, otherwise a search of the
    listed files by base name or by path without extension, ending in the file
    found, "not found" or "ambiguous". */
module ReadDocument {
  import opened Sequences
  import opened Strings
  import opened PosixPath
  import opened NormalizePath
  import opened Workspace

  /** What `readDocument` resolves to: the text, a thrown `Error` with its
      message, or the failure of the final `readFile` on the one candidate. */
  datatype ReadResult =
    | Content(text: string)
    | Failure(message: string)
    | ReadError(path: string)

  /** The direct read succeeds: the normalised path names a readable file
      (the empty path names the project directory itself). */
  predicate DirectHit(files: Files, normalized: string)
  {
    normalized != "" && normalized in files && files[normalized].content.Some?
  }

  /** Whether listed file `rel` matches the normalised input: by whole path or
      path without extension when the input has a separator, otherwise by base
      name or base name without extension. */
  predicate IsCandidate(normalized: string, rel: string)
  {
    if '/' in normalized then
      rel == normalized || StripExtension(rel) == StripExtension(normalized)
    else
      Basename(rel) == Basename(normalized)
      || ParseName(Basename(rel)) == ParseName(Basename(normalized))
  }

  /** The `candidates` set, in insertion order. The source adds
      `path.join(projectCloneLocation, rel)` and later takes `path.relative`
      of it; for the normalised relative paths of the listing that join is
      one-to-one, so the set here holds `rel` itself. */
  function Candidates(normalized: string, listed: seq<string>): (r: seq<string>)
    ensures NoDup(r)
    ensures forall rel :: rel in r <==> rel in listed && IsCandidate(normalized, rel)
  {
    Dedupe(Filter(listed, rel => IsCandidate(normalized, rel)))
  }

  /** The loop over the listed files, adding each match to the set. */
  method CollectCandidates(normalized: string, listed: seq<string>) returns (candidates: seq<string>)
    ensures candidates == Candidates(normalized, listed)
  {
    var matches := (rel: string) => IsCandidate(normalized, rel);
    candidates := [];
    var i := 0;
    while i < |listed|
      invariant 0 <= i <= |listed|
      invariant candidates == Dedupe(Filter(listed[..i], matches))
    {
      var rel := listed[i];
      ghost var seen := listed[..i];
      SliceSnoc(listed, i);
      DedupeFilterSnoc(seen, rel, matches);
      assert matches(rel) == IsCandidate(normalized, rel);
      if IsCandidate(normalized, rel) {
        if rel !in candidates {
          candidates := candidates + [rel];
        }
      }
      i := i + 1;
      assert listed[..i] == seen + [rel];
    }
    SliceAll(listed);
  }

  function NotFoundMessage(filePath: string): string
  {
    "File not found: " + filePath
  }

  /** The first ten candidates in sorted order. */
  function Examples(candidates: seq<string>): (r: seq<string>)
  {
    var sorted := Sort(candidates, LexLess);
    if |sorted| <= 10 then sorted else sorted[..10]
  }

  function AmbiguousMessage(filePath: string, candidates: seq<string>): string
  {
    "Ambiguous file reference: " + filePath + ". Found " + NatToString(|candidates|)
    + " matches. Examples:\n - " + Join(Examples(candidates), "\n - ")
  }

  /** `readDocument({ projectCloneLocation, filePath })` over the files of the
      checkout and the list `listFiles` returns. */
  function Resolve(files: Files, listed: seq<string>, filePath: string): ReadResult
  {
    var normalized := NormalizeOsPath(Some(filePath));
    Decide(files, filePath, normalized, Candidates(normalized, listed))
  }

  /** The outcome once the input is normalised and the candidates collected. */
  function Decide(files: Files, filePath: string, normalized: string, candidates: seq<string>): ReadResult
  {
    if DirectHit(files, normalized) then Content(files[normalized].content.value)
    else if |candidates| == 0 then Failure(NotFoundMessage(filePath))
    else if |candidates| > 1 then Failure(AmbiguousMessage(filePath, candidates))
    else
      var only := candidates[0];
      if only in files && files[only].content.Some? then Content(files[only].content.value)
      else ReadError(only)
  }

  lemma ResolveIsDecide(files: Files, listed: seq<string>, filePath: string, normalized: string, candidates: seq<string>)
    requires normalized == NormalizeOsPath(Some(filePath))
    requires candidates == Candidates(normalized, listed)
    ensures Resolve(files, listed, filePath) == Decide(files, filePath, normalized, candidates)
  {
  }

  /** The resolver as written: try the direct read, else collect candidates in
      a loop and decide on their number. */
  method ReadDocument(files: Files, listed: seq<string>, filePath: string) returns (r: ReadResult)
    ensures r == Resolve(files, listed, filePath)
  {
    var normalized := NormalizeOsPath(Some(filePath));
    ResolveIsDecide(files, listed, filePath, normalized, Candidates(normalized, listed));
    if normalized != "" && normalized in files && files[normalized].content.Some? {
      return Content(files[normalized].content.value);
    }
    var candidates := CollectCandidates(normalized, listed);
    if |candidates| == 0 {
      return Failure("File not found: " + filePath);
    }
    if |candidates| > 1 {
      return Failure(AmbiguousMessage(filePath, candidates));
    }
    var only := candidates[0];
    if only in files && files[only].content.Some? {
      return Content(files[only].content.value);
    }
    return ReadError(only);
  }

  /** A direct hit returns that file's text, whatever the listing holds. */
  lemma DirectHitWins(files: Files, listed: seq<string>, filePath: string)
    requires DirectHit(files, NormalizeOsPath(Some(filePath)))
    ensures Resolve(files, listed, filePath) == Content(files[NormalizeOsPath(Some(filePath))].content.value)
  {
  }

  /** Input with a separator selects the listed files equal to it, or equal to
      it once both lose their extensions. */
  lemma CandidatesWithPath(normalized: string, listed: seq<string>, rel: string)
    requires '/' in normalized
    ensures rel in Candidates(normalized, listed)
        <==> rel in listed && (rel == normalized || StripExtension(rel) == StripExtension(normalized))
  {
  }

  /** Input without a separator selects the listed files with the same base
      name, or the same base name without extension. */
  lemma CandidatesByName(normalized: string, listed: seq<string>, rel: string)
    requires '/' !in normalized
    ensures rel in Candidates(normalized, listed)
        <==> rel in listed && (Basename(rel) == Basename(normalized)
                               || ParseName(Basename(rel)) == ParseName(Basename(normalized)))
  {
  }

  /** With no direct hit and no candidate the resolver fails with the
      not-found message naming the input as given. */
  lemma NotFound(files: Files, listed: seq<string>, filePath: string)
    requires !DirectHit(files, NormalizeOsPath(Some(filePath)))
    requires forall rel :: rel in listed ==> !IsCandidate(NormalizeOsPath(Some(filePath)), rel)
    ensures Resolve(files, listed, filePath) == Failure("File not found: " + filePath)
  {
    var normalized := NormalizeOsPath(Some(filePath));
    FilterNone(listed, rel => IsCandidate(normalized, rel));
    assert Candidates(normalized, listed) == [];
  }

  /** With exactly one candidate the resolver returns its text (or fails on the
      read of that file). */
  lemma UniqueCandidate(files: Files, listed: seq<string>, filePath: string, only: string)
    requires !DirectHit(files, NormalizeOsPath(Some(filePath)))
    requires Candidates(NormalizeOsPath(Some(filePath)), listed) == [only]
    ensures only in files && files[only].content.Some? ==>
      Resolve(files, listed, filePath) == Content(files[only].content.value)
    ensures !(only in files && files[only].content.Some?) ==>
      Resolve(files, listed, filePath) == ReadError(only)
  {
    var normalized := NormalizeOsPath(Some(filePath));
    ResolveIsDecide(files, listed, filePath, normalized, [only]);
    DecideUnique(files, filePath, normalized, only);
  }

  lemma DecideUnique(files: Files, filePath: string, normalized: string, only: string)
    requires !DirectHit(files, normalized)
    ensures Decide(files, filePath, normalized, [only])
         == if only in files && files[only].content.Some? then Content(files[only].content.value) else ReadError(only)
  {
  }

  /** The examples of an ambiguity report: at most ten distinct candidates, in
      sorted order, and no omitted candidate sorts before a shown one. */
  lemma ExamplesAreLeast(candidates: seq<string>)
    requires NoDup(candidates)
    ensures var ex := Examples(candidates);
      && |ex| == (if |candidates| <= 10 then |candidates| else 10)
      && Sorted(ex, LexLess)
      && NoDup(ex)
      && (forall x :: x in ex ==> x in candidates)
      && (forall x, y :: x in candidates && x !in ex && y in ex ==> LexLess(y, x))
  {
    var sorted := Sort(candidates, LexLess);
    assert Sorted(sorted, LexLess) && NoDup(sorted) by {
      LexLessStrictTotal();
      SortSorted(candidates, LexLess);
      NoDupPermutation(candidates, sorted);
    }
    var ex := Examples(candidates);
    var k := |ex|;
    assert ex == sorted[..k];
    forall x | x in ex ensures x in candidates {
      assert x in multiset(sorted);
    }
    forall x, y | x in candidates && x !in ex && y in ex ensures LexLess(y, x) {
      assert x in sorted by {
        assert x in multiset(sorted);
      }
      PrefixLeast(sorted, k, x, y);
    }
  }

  /** In a sorted list of distinct strings, an element past the first `k`
      sorts after every element among them. */
  lemma PrefixLeast(sorted: seq<string>, k: nat, x: string, y: string)
    requires Sorted(sorted, LexLess) && k <= |sorted|
    requires x in sorted && x !in sorted[..k] && y in sorted[..k]
    ensures LexLess(y, x)
  {
    var j :| 0 <= j < |sorted| && sorted[j] == x;
    var i :| 0 <= i < k && sorted[..k][i] == y;
    assert j >= k by {
      assert forall t :: 0 <= t < k ==> sorted[..k][t] == sorted[t];
    }
    assert !LexLess(sorted[j], sorted[i]);
    assert x != y;
    LexLessConnected(y, x);
  }

  /** With several candidates the resolver fails with the ambiguity message:
      the input as given, the number of candidates and the examples. */
  lemma AmbiguousReport(files: Files, listed: seq<string>, filePath: string)
    requires !DirectHit(files, NormalizeOsPath(Some(filePath)))
    requires |Candidates(NormalizeOsPath(Some(filePath)), listed)| > 1
    ensures var candidates := Candidates(NormalizeOsPath(Some(filePath)), listed);
      Resolve(files, listed, filePath) == Failure(
        "Ambiguous file reference: " + filePath + ". Found " + NatToString(|candidates|)
        + " matches. Examples:\n - " + Join(Examples(candidates), "\n - "))
  {
  }
}
