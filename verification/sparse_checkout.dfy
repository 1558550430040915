/** The pure parts of `src/utils/sparse-checkout.ts`: putting a personal
    access token into the clone URL (`getAuthenticatedRepoPath`) and turning
    the configured patterns into the sparse-checkout path list. */
module SparseCheckout {
  import opened Sequences
  import opened Strings
  import opened Config

  // ----- the SSH form -----

  /** A host for `git@HOST:PATH`: at least one character, no colon. */
  predicate ValidHost(host: string)
  {
    |host| >= 1 && ':' !in host
  }

  /** A path for `git@HOST:PATH`: at least one character, none of them a line
      terminator (the pattern's `.` does not match those). */
  predicate ValidSshPath(path: string)
  {
    |path| >= 1 && forall i :: 0 <= i < |path| ==> !IsLineTerminator(path[i])
  }

  /** `repoPath.match(/^git@([^:]+):(.+)$/)`: the host runs up to the first
      colon, the path is everything after it. */
  function SshMatch(repoPath: string): (r: Option<(string, string)>)
    ensures r.Some? ==> && ValidHost(r.value.0) && ValidSshPath(r.value.1)
                        && repoPath == "git@" + r.value.0 + ":" + r.value.1
  {
    if !StartsWith(repoPath, "git@") then None
    else
      var rest := repoPath[4..];
      if ':' !in rest then None
      else
        var k := FirstIndex(rest, ':');
        var host := rest[..k];
        var path := rest[k + 1..];
        if |host| >= 1 && ValidSshPath(path) then
          assert rest == host + ":" + path;
          assert repoPath == "git@" + rest;
          Some((host, path))
        else None
  }

  /** Every `git@HOST:PATH` with a valid host and path is matched, and the
      match gives the host and path back. */
  lemma SshMatchOf(host: string, path: string)
    requires ValidHost(host) && ValidSshPath(path)
    ensures SshMatch("git@" + host + ":" + path) == Some((host, path))
  {
    var repoPath := "git@" + host + ":" + path;
    var rest := repoPath[4..];
    assert rest == host + ":" + path;
    assert rest[|host|] == ':';
    assert rest[..|host|] == host;
    var k := FirstIndex(rest, ':');
    assert k == |host|;
    assert rest[k + 1..] == path;
  }

  /** A `git@` address without a colon is not matched. */
  lemma SshNoColon(repoPath: string)
    requires ':' !in repoPath
    ensures SshMatch(repoPath) == None
  {
    if StartsWith(repoPath, "git@") {
      assert forall c :: c in repoPath[4..] ==> c in repoPath;
    }
  }

  /** The user part put before the host of an SSH address, by host name:
      GitLab, GitHub, Bitbucket, and the GitLab form for any other host. */
  function SshCredential(host: string, token: string): string
  {
    if Contains(host, "gitlab") then "oauth2:" + token
    else if Contains(host, "github") then token
    else if Contains(host, "bitbucket") then "x-token-auth:" + token
    else "oauth2:" + token
  }

  /** The URL is GitLab's, or names GitLab anywhere. */
  predicate GitLabUrl(repoPath: string)
  {
    StartsWith(repoPath, "https://gitlab.com/") || Contains(repoPath, "gitlab")
  }

  /** The user part put after `https://`, by URL: GitHub.com, GitLab (hosted
      or any URL naming it), Bitbucket.org, and the GitLab form otherwise. */
  function HttpsCredential(repoPath: string, token: string): string
  {
    if StartsWith(repoPath, "https://github.com/") then token
    else if GitLabUrl(repoPath) then "oauth2:" + token
    else if StartsWith(repoPath, "https://bitbucket.org/") then "x-token-auth:" + token
    else "oauth2:" + token
  }

  // ----- getAuthenticatedRepoPath -----

  /** First-occurrence replacement, with the `$` patterns of
      `String.prototype.replace` when `substitute` holds and literally
      otherwise. */
  function ReplaceOnce(s: string, pat: string, rep: string, substitute: bool): string
  {
    if substitute then ReplaceFirst(s, pat, rep) else ReplaceFirstLiteral(s, pat, rep)
  }

  /** The branches of `getAuthenticatedRepoPath`, with the replacement step
      chosen by `substitute`. */
  function WithToken(repoPath: string, personalToken: Option<string>, substitute: bool): string
  {
    if personalToken.None? || personalToken.value == "" then repoPath
    else
      var token := personalToken.value;
      if StartsWith(repoPath, "git@") then
        match SshMatch(repoPath)
        case None => repoPath
        case Some((host, path)) => "https://" + SshCredential(host, token) + "@" + host + "/" + path
      else HttpsWithToken(repoPath, token, substitute)
  }

  /** The branches of `getAuthenticatedRepoPath` after the SSH one. */
  function HttpsWithToken(repoPath: string, token: string, substitute: bool): string
  {
    if StartsWith(repoPath, "https://github.com/") then
      ReplaceOnce(repoPath, "https://github.com/", "https://" + token + "@github.com/", substitute)
    else if GitLabUrl(repoPath) then
      ReplaceOnce(repoPath, "https://", "https://oauth2:" + token + "@", substitute)
    else if StartsWith(repoPath, "https://bitbucket.org/") then
      ReplaceOnce(repoPath, "https://bitbucket.org/", "https://x-token-auth:" + token + "@bitbucket.org/", substitute)
    else if StartsWith(repoPath, "https://") then
      ReplaceOnce(repoPath, "https://", "https://oauth2:" + token + "@", substitute)
    else repoPath
  }

  /** `getAuthenticatedRepoPath(repoPath, personalToken)` as written: the
      HTTPS branches pass the token through `replace`, which reads `$`
      sequences in it as substitution patterns. */
  function GetAuthenticatedRepoPath(repoPath: string, personalToken: Option<string>): string
  {
    WithToken(repoPath, personalToken, true)
  }

  /** The same with the token inserted literally, as the comments intend. */
  function AuthenticatedRepoPath(repoPath: string, personalToken: Option<string>): string
  {
    WithToken(repoPath, personalToken, false)
  }

  /** Without a token the address is returned as it is. */
  lemma NoTokenUnchanged(repoPath: string, personalToken: Option<string>)
    requires personalToken.None? || personalToken.value == ""
    ensures GetAuthenticatedRepoPath(repoPath, personalToken) == repoPath
    ensures AuthenticatedRepoPath(repoPath, personalToken) == repoPath
  {
  }

  /** `git@HOST:PATH` becomes `https://CRED@HOST/PATH`. */
  lemma SshRewrite(host: string, path: string, token: string)
    requires ValidHost(host) && ValidSshPath(path) && token != ""
    ensures GetAuthenticatedRepoPath("git@" + host + ":" + path, Some(token))
         == "https://" + SshCredential(host, token) + "@" + host + "/" + path
  {
    SshMatchOf(host, path);
  }

  /** A `git@` address the pattern rejects is returned as it is. */
  lemma SshUnmatchedUnchanged(repoPath: string, token: string)
    requires StartsWith(repoPath, "git@") && SshMatch(repoPath).None?
    ensures GetAuthenticatedRepoPath(repoPath, Some(token)) == repoPath
  {
  }

  /** The SSH credential is chosen by the first host name that matches, in
      the order GitLab, GitHub, Bitbucket. */
  lemma SshCredentialOrder(host: string, token: string)
    ensures Contains(host, "gitlab") ==> SshCredential(host, token) == "oauth2:" + token
    ensures !Contains(host, "gitlab") && Contains(host, "github") ==> SshCredential(host, token) == token
    ensures !Contains(host, "gitlab") && !Contains(host, "github") && Contains(host, "bitbucket")
            ==> SshCredential(host, token) == "x-token-auth:" + token
    ensures !Contains(host, "gitlab") && !Contains(host, "github") && !Contains(host, "bitbucket")
            ==> SshCredential(host, token) == "oauth2:" + token
  {
  }

  /** An `https://` address does not start with `git@`. */
  lemma HttpsNotSsh(repoPath: string)
    requires StartsWith(repoPath, "https://")
    ensures !StartsWith(repoPath, "git@")
  {
    assert repoPath[0] == repoPath[..8][0];
  }

  /** Replacing `https://HOST` by `https://CRED@HOST` puts `CRED@` right
      after the scheme. */
  lemma InsertAfterScheme(repoPath: string, cred: string, host: string)
    requires StartsWith(repoPath, "https://" + host)
    ensures ReplaceFirstLiteral(repoPath, "https://" + host, "https://" + cred + "@" + host)
         == "https://" + cred + "@" + repoPath[8..]
  {
    ReplaceFirstAtStart(repoPath, "https://" + host, "https://" + cred + "@" + host);
    StartsWithParts(repoPath, "https://", host);
  }

  /** `https://github.com/…` gets the bare token. */
  lemma HttpsGitHub(repoPath: string, token: string)
    requires StartsWith(repoPath, "https://github.com/") && token != ""
    ensures AuthenticatedRepoPath(repoPath, Some(token)) == "https://" + token + "@" + repoPath[8..]
  {
    assert "https://" + "github.com/" == "https://github.com/";
    HostIsHttps(repoPath, "github.com/");
    HttpsNotSsh(repoPath);
    assert "https://" + token + "@" + "github.com/" == "https://" + token + "@github.com/";
    InsertAfterScheme(repoPath, token, "github.com/");
  }

  /** Past the SSH test, a token goes through the HTTPS branches. */
  lemma HttpsBranch(repoPath: string, token: string, substitute: bool)
    requires !StartsWith(repoPath, "git@") && token != ""
    ensures WithToken(repoPath, Some(token), substitute) == HttpsWithToken(repoPath, token, substitute)
  {
  }

  /** An address that starts with `https://HOST` starts with `https://`. */
  lemma HostIsHttps(repoPath: string, host: string)
    requires StartsWith(repoPath, "https://" + host)
    ensures StartsWith(repoPath, "https://")
  {
    StartsWithParts(repoPath, "https://", host);
  }

  /** `https://bitbucket.org/…` takes the Bitbucket branch. */
  lemma BitbucketCase(repoPath: string, token: string, substitute: bool)
    requires StartsWith(repoPath, "https://bitbucket.org/")
    requires !StartsWith(repoPath, "https://github.com/")
    requires !GitLabUrl(repoPath)
    ensures HttpsWithToken(repoPath, token, substitute)
         == ReplaceOnce(repoPath, "https://bitbucket.org/", "https://x-token-auth:" + token + "@bitbucket.org/", substitute)
  {
  }

  /** Replacing `https://bitbucket.org/` puts the Bitbucket user part right
      after the scheme. */
  lemma BitbucketInsert(repoPath: string, token: string)
    requires StartsWith(repoPath, "https://bitbucket.org/")
    ensures ReplaceFirstLiteral(repoPath, "https://bitbucket.org/", "https://x-token-auth:" + token + "@bitbucket.org/")
         == "https://" + ("x-token-auth:" + token) + "@" + repoPath[8..]
  {
    var cred := "x-token-auth:" + token;
    assert "https://" + "bitbucket.org/" == "https://bitbucket.org/";
    assert "https://" + cred + "@" + "bitbucket.org/" == "https://x-token-auth:" + token + "@bitbucket.org/";
    InsertAfterScheme(repoPath, cred, "bitbucket.org/");
  }

  /** `https://bitbucket.org/…` gets `x-token-auth:` and the token. */
  lemma HttpsBitbucket(repoPath: string, token: string)
    requires StartsWith(repoPath, "https://bitbucket.org/") && token != ""
    requires !StartsWith(repoPath, "https://github.com/")
    requires !GitLabUrl(repoPath)
    ensures AuthenticatedRepoPath(repoPath, Some(token)) == "https://" + ("x-token-auth:" + token) + "@" + repoPath[8..]
  {
    assert !StartsWith(repoPath, "git@") by {
      assert "https://" + "bitbucket.org/" == "https://bitbucket.org/";
      HostIsHttps(repoPath, "bitbucket.org/");
      HttpsNotSsh(repoPath);
    }
    HttpsBranch(repoPath, token, false);
    BitbucketCase(repoPath, token, false);
    BitbucketInsert(repoPath, token);
  }

  /** The GitLab branch and the fallback both put `oauth2:` and the token
      after the scheme. */
  lemma HttpsOAuth(repoPath: string, token: string)
    requires StartsWith(repoPath, "https://") && token != ""
    requires !StartsWith(repoPath, "https://github.com/")
    requires GitLabUrl(repoPath)
             || !StartsWith(repoPath, "https://bitbucket.org/")
    ensures AuthenticatedRepoPath(repoPath, Some(token)) == "https://" + ("oauth2:" + token) + "@" + repoPath[8..]
  {
    HttpsNotSsh(repoPath);
    assert "https://" + "" == "https://";
    assert "https://" + ("oauth2:" + token) + "@" + "" == "https://oauth2:" + token + "@";
    InsertAfterScheme(repoPath, "oauth2:" + token, "");
  }

  /** With the token taken literally, an `https://` address gets the
      credential and `@` right after the scheme and is otherwise unchanged. */
  lemma HttpsInsertsCredential(repoPath: string, token: string)
    requires StartsWith(repoPath, "https://") && token != ""
    ensures AuthenticatedRepoPath(repoPath, Some(token))
         == "https://" + HttpsCredential(repoPath, token) + "@" + repoPath[8..]
  {
    if StartsWith(repoPath, "https://github.com/") {
      HttpsGitHub(repoPath, token);
    } else if !GitLabUrl(repoPath)
              && StartsWith(repoPath, "https://bitbucket.org/") {
      HttpsBitbucket(repoPath, token);
    } else {
      HttpsOAuth(repoPath, token);
    }
  }

  /** A token without `$` is inserted the same way by the code as written. */
  lemma AsWrittenAgreesWithoutDollar(repoPath: string, token: string)
    requires '$' !in token
    ensures GetAuthenticatedRepoPath(repoPath, Some(token)) == AuthenticatedRepoPath(repoPath, Some(token))
  {
    var github := "https://" + token + "@github.com/";
    var oauth := "https://oauth2:" + token + "@";
    var bitbucket := "https://x-token-auth:" + token + "@bitbucket.org/";
    NoDollarAround("https://", token, "@github.com/");
    NoDollarAround("https://oauth2:", token, "@");
    NoDollarAround("https://x-token-auth:", token, "@bitbucket.org/");
    ReplaceFirstNoDollar(repoPath, "https://github.com/", github);
    ReplaceFirstNoDollar(repoPath, "https://", oauth);
    ReplaceFirstNoDollar(repoPath, "https://bitbucket.org/", bitbucket);
    SameReplacements(repoPath, token);
  }

  lemma NoDollarAround(a: string, token: string, b: string)
    requires '$' !in a && '$' !in token && '$' !in b
    ensures '$' !in a + token + b
  {
  }

  /** When each replacement reads the same both ways, so does the whole. */
  lemma SameReplacements(repoPath: string, token: string)
    requires ReplaceOnce(repoPath, "https://github.com/", "https://" + token + "@github.com/", true)
          == ReplaceOnce(repoPath, "https://github.com/", "https://" + token + "@github.com/", false)
    requires ReplaceOnce(repoPath, "https://", "https://oauth2:" + token + "@", true)
          == ReplaceOnce(repoPath, "https://", "https://oauth2:" + token + "@", false)
    requires ReplaceOnce(repoPath, "https://bitbucket.org/", "https://x-token-auth:" + token + "@bitbucket.org/", true)
          == ReplaceOnce(repoPath, "https://bitbucket.org/", "https://x-token-auth:" + token + "@bitbucket.org/", false)
    ensures WithToken(repoPath, Some(token), true) == WithToken(repoPath, Some(token), false)
  {
  }

  /** `$&` between two pieces without `$` expands to the matched text. */
  lemma DollarAmpersand(plain: string, suffix: string, matched: string, before: string, after: string)
    requires '$' !in plain && '$' !in suffix
    ensures Substitute(plain + "$&" + suffix, matched, before, after) == plain + matched + suffix
  {
    var tail := "$&" + suffix;
    assert plain + "$&" + suffix == plain + tail;
    SubstitutePlain(plain, tail, matched, before, after);
    assert tail[0] == '$' && tail[1] == '&' && tail[2..] == suffix;
    SubstituteLiteral(suffix, matched, before, after);
  }

  /** `https://github.com/…` takes the GitHub branch, in both readings of
      the replacement. */
  lemma GitHubBranch(repoPath: string, token: string, substitute: bool)
    requires StartsWith(repoPath, "https://github.com/") && token != ""
    ensures WithToken(repoPath, Some(token), substitute)
         == ReplaceOnce(repoPath, "https://github.com/", "https://" + token + "@github.com/", substitute)
  {
    assert !StartsWith(repoPath, "git@") by {
      assert "https://" + "github.com/" == "https://github.com/";
      HostIsHttps(repoPath, "github.com/");
      HttpsNotSsh(repoPath);
    }
    HttpsBranch(repoPath, token, substitute);
  }

  /** A GitHub token that ends in `$&` is mangled by `replace`: the matched
      `https://github.com/` takes the place of the `$&`, where the literal
      insertion keeps the token as it is. */
  lemma DollarTokenMangledAt(prefix: string, rest: string)
    requires '$' !in prefix
    ensures GetAuthenticatedRepoPath("https://github.com/" + rest, Some(prefix + "$&"))
         == "https://" + prefix + "https://github.com/" + "@github.com/" + rest
    ensures AuthenticatedRepoPath("https://github.com/" + rest, Some(prefix + "$&"))
         == "https://" + prefix + "$&" + "@github.com/" + rest
  {
    var pat := "https://github.com/";
    var url := pat + rest;
    var token := prefix + "$&";
    var rep := "https://" + token + "@github.com/";
    assert StartsWith(url, pat) by {
      assert url[..|pat|] == pat;
    }
    assert url[|pat|..] == rest;
    GitHubBranch(url, token, true);
    GitHubBranch(url, token, false);
    ReplaceFirstSubstAtStart(url, pat, rep);
    assert rep == ("https://" + prefix) + "$&" + "@github.com/";
    assert '$' !in "https://" + prefix;
    DollarAmpersand("https://" + prefix, "@github.com/", pat, "", rest);
    ReplaceFirstAtStart(url, pat, rep);
  }

  /** The concrete case: the token `a$&` on `https://github.com/o/r`. */
  lemma DollarTokenMangled()
    ensures GetAuthenticatedRepoPath("https://github.com/" + "o/r", Some("a" + "$&"))
         == "https://" + "a" + "https://github.com/" + "@github.com/" + "o/r"
    ensures AuthenticatedRepoPath("https://github.com/" + "o/r", Some("a" + "$&"))
         == "https://" + "a" + "$&" + "@github.com/" + "o/r"
  {
    DollarTokenMangledAt("a", "o/r");
  }

  // ----- sparse paths -----

  /** The sparse-checkout list: every pattern with slashes for backslashes,
      empty ones dropped, each kept at its first occurrence. */
  function SparsePaths(files: seq<string>): (r: seq<string>)
    ensures NoDup(r)
    ensures forall x :: x in r ==> x != "" && '\\' !in x
    ensures forall x :: x in r <==> x != "" && exists f :: f in files && x == ReplaceChar(f, '\\', '/')
  {
    var slashed := SlashAll(files);
    forall x | x in slashed ensures '\\' !in x {
      var i :| 0 <= i < |slashed| && slashed[i] == x;
      ReplaceCharRemoves(files[i], '\\', '/');
    }
    forall f | f in files ensures ReplaceChar(f, '\\', '/') in slashed {
      var i :| 0 <= i < |files| && files[i] == f;
      assert slashed[i] == ReplaceChar(f, '\\', '/');
    }
    Dedupe(Filter(slashed, NonBlank))
  }

  /** The outcome of reading the sparse-checkout list from the configuration. */
  datatype SparseResult = SparseList(paths: seq<string>) | ShapeError(message: string)

  /** Lines 129-135: a configuration that fails the schema is an error;
      otherwise its patterns become the sparse-checkout list. The source reads
      `files` without checking it is there, so a file without it is excluded. */
  function SparsePathsFromConfig(configJson: Json): (r: SparseResult)
    requires SafeParse(configJson).Some? ==> SafeParse(configJson).value.files.Some?
    ensures r.ShapeError? <==> !MatchesSchema(configJson)
    ensures r.ShapeError? ==> r.message == "repo-reader.config.json must have shape { name: string, files: string[] }"
  {
    match SafeParse(configJson)
    case None => ShapeError("repo-reader.config.json must have shape { name: string, files: string[] }")
    case Some(data) => SparseList(SparsePaths(data.files.value))
  }

  /** Distinct, non-empty paths without backslashes are left as they are. */
  lemma SparsePathsFixed(r: seq<string>)
    requires NoDup(r)
    requires forall x :: x in r ==> x != "" && '\\' !in x
    ensures SparsePaths(r) == r
  {
    forall i | 0 <= i < |r| ensures ReplaceChar(r[i], '\\', '/') == r[i] && NonBlank(r[i]) {
      assert r[i] in r;
    }
    assert SlashAll(r) == r;
    FilterAll(r, NonBlank);
    DedupeOfNoDup(r);
  }

  /** Patterns already cleaned by the configuration resolver pass through
      unchanged. */
  lemma SparsePathsOfClean(patterns: seq<string>)
    ensures SparsePaths(CleanGlobPatterns(patterns)) == CleanGlobPatterns(patterns)
  {
    SparsePathsFixed(CleanGlobPatterns(patterns));
  }

  /** Computing the list twice gives the same list. */
  lemma SparsePathsIdempotent(files: seq<string>)
    ensures SparsePaths(SparsePaths(files)) == SparsePaths(files)
  {
    SparsePathsFixed(SparsePaths(files));
  }
}
