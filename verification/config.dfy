/** The repository's own configuration file: the schema its JSON must satisfy
    (`src/schema/config.ts`) and how a resolved configuration is computed from
    it, a default name and an optional list of glob patterns
    (`src/utils/resolve-config.ts`). */
module Config {
  import opened Sequences
  import opened Strings

  /** A parsed JSON value. Numbers are integers here. */
  datatype Json =
    | JNull
    | JBool(b: bool)
    | JNumber(n: int)
    | JString(s: string)
    | JArray(items: seq<Json>)
    | JObject(fields: map<string, Json>)

  /** JavaScript truthiness of a parsed JSON value: `null`, `false`, `0` and
      `""` are falsy, every array and object is truthy. */
  predicate Truthy(j: Json)
  {
    match j
    case JNull => false
    case JBool(b) => b
    case JNumber(n) => n != 0
    case JString(s) => s != ""
    case _ => true
  }

  // ----- the schema -----

  /** `name: z.string().min(1)`. */
  predicate ValidName(j: Json)
  {
    j.JString? && |j.s| >= 1
  }

  /** `files: z.array(z.string().min(1)).min(1)`. */
  predicate ValidFiles(j: Json)
  {
    j.JArray? && |j.items| >= 1 && forall i :: 0 <= i < |j.items| ==> ValidName(j.items[i])
  }

  /** `depth: z.number()`. */
  predicate ValidDepth(j: Json)
  {
    j.JNumber?
  }

  /** `RepoReaderConfigSchema`: an object whose three fields are each optional
      and, when present, of the stated shape; other fields are ignored. */
  predicate MatchesSchema(j: Json)
  {
    && j.JObject?
    && ("name" in j.fields ==> ValidName(j.fields["name"]))
    && ("files" in j.fields ==> ValidFiles(j.fields["files"]))
    && ("depth" in j.fields ==> ValidDepth(j.fields["depth"]))
  }

  /** The `data` of a successful parse. */
  datatype ConfigData = ConfigData(name: Option<string>, files: Option<seq<string>>, depth: Option<int>)

  function StringItems(items: seq<Json>): (r: seq<string>)
    requires forall i :: 0 <= i < |items| ==> items[i].JString?
    ensures |r| == |items| && forall i :: 0 <= i < |items| ==> items[i] == JString(r[i])
  {
    seq(|items|, i requires 0 <= i < |items| => items[i].s)
  }

  /** `RepoReaderConfigSchema.safeParse(j)`: the fields that are present, or
      failure when the value does not match the schema. */
  function SafeParse(j: Json): (r: Option<ConfigData>)
    ensures r.Some? <==> MatchesSchema(j)
    ensures r.Some? ==>
      && (r.value.name.Some? <==> "name" in j.fields)
      && (r.value.name.Some? ==> j.fields["name"] == JString(r.value.name.value))
      && (r.value.files.Some? <==> "files" in j.fields)
      && (r.value.files.Some? ==> j.fields["files"] == JArray(seq(|r.value.files.value|, i requires 0 <= i < |r.value.files.value| => JString(r.value.files.value[i]))))
      && (r.value.depth.Some? <==> "depth" in j.fields)
      && (r.value.depth.Some? ==> j.fields["depth"] == JNumber(r.value.depth.value))
  {
    if !MatchesSchema(j) then None
    else
      var name := if "name" in j.fields then Some(j.fields["name"].s) else None;
      var files := if "files" in j.fields then Some(StringItems(j.fields["files"].items)) else None;
      var depth := if "depth" in j.fields then Some(j.fields["depth"].n) else None;
      assert files.Some? ==> j.fields["files"].items == seq(|files.value|, i requires 0 <= i < |files.value| => JString(files.value[i]));
      Some(ConfigData(name, files, depth))
  }

  /** Data the schema accepts: a non-empty name, a non-empty list of non-empty
      patterns. */
  predicate ValidData(d: ConfigData)
  {
    && (d.name.Some? ==> |d.name.value| >= 1)
    && (d.files.Some? ==> |d.files.value| >= 1 && forall i :: 0 <= i < |d.files.value| ==> |d.files.value[i]| >= 1)
  }

  /** The configuration file that holds exactly the given fields. */
  function ToJson(d: ConfigData): Json
  {
    var withName := if d.name.Some? then map["name" := JString(d.name.value)] else map[];
    var withFiles := if d.files.Some?
      then withName["files" := JArray(seq(|d.files.value|, i requires 0 <= i < |d.files.value| => JString(d.files.value[i])))]
      else withName;
    var withDepth := if d.depth.Some? then withFiles["depth" := JNumber(d.depth.value)] else withFiles;
    JObject(withDepth)
  }

  /** Writing valid data as a configuration file and parsing it gives the data
      back; in particular `{}` is valid and has no fields. */
  lemma ParseToJson(d: ConfigData)
    requires ValidData(d)
    ensures SafeParse(ToJson(d)) == Some(d)
  {
    var j := ToJson(d);
    assert MatchesSchema(j);
    var r := SafeParse(j).value;
    if d.files.Some? {
      var fs := d.files.value;
      assert r.files.value == fs by {
        var js := seq(|fs|, i requires 0 <= i < |fs| => JString(fs[i]));
        assert JArray(js) == j.fields["files"];
        assert |r.files.value| == |fs|;
        forall i | 0 <= i < |fs| ensures r.files.value[i] == fs[i] {
          assert JString(r.files.value[i]) == js[i];
        }
      }
    }
  }

  /** The empty object is a valid configuration with no fields. */
  lemma EmptyObjectValid()
    ensures SafeParse(JObject(map[])) == Some(ConfigData(None, None, None))
  {
  }

  /** Values other than objects never match. */
  lemma NonObjectRejected(j: Json)
    requires !j.JObject?
    ensures SafeParse(j) == None
  {
  }

  // ----- resolving the configuration -----

  /** `DEFAULT_CONFIG.files`. */
  const DefaultFiles: seq<string> := ["**/*"]

  /** `DEFAULT_CONFIG.depth`: no depth limit. */
  const DefaultDepth: int := -1

  /** A resolved configuration. */
  datatype ResolvedConfig = ResolvedConfig(name: string, files: seq<string>, depth: int)

  predicate NonBlank(s: string)
  {
    s != ""
  }

  /** `p.trim()` for every pattern. */
  function TrimAll(patterns: seq<string>): (r: seq<string>)
    ensures |r| == |patterns| && forall i :: 0 <= i < |r| ==> r[i] == Trim(patterns[i])
  {
    seq(|patterns|, i requires 0 <= i < |patterns| => Trim(patterns[i]))
  }

  /** `p.replace(/\\/g, "/")` for every pattern. */
  function SlashAll(patterns: seq<string>): (r: seq<string>)
    ensures |r| == |patterns| && forall i :: 0 <= i < |r| ==> r[i] == ReplaceChar(patterns[i], '\\', '/')
  {
    seq(|patterns|, i requires 0 <= i < |patterns| => ReplaceChar(patterns[i], '\\', '/'))
  }

  /** What one pattern becomes once cleaned. */
  function CleanedPattern(p: string): string
  {
    ReplaceChar(Trim(p), '\\', '/')
  }

  /** The cleaned patterns before duplicates are dropped. */
  function CleanedList(patterns: seq<string>): seq<string>
  {
    SlashAll(Filter(TrimAll(patterns), NonBlank))
  }

  lemma CleanedListShape(patterns: seq<string>)
    ensures forall x :: x in CleanedList(patterns) ==> x != "" && '\\' !in x
  {
    var kept := Filter(TrimAll(patterns), NonBlank);
    forall x | x in CleanedList(patterns) ensures x != "" && '\\' !in x {
      var i :| 0 <= i < |kept| && CleanedList(patterns)[i] == x;
      assert kept[i] in kept;
      ReplaceCharRemoves(kept[i], '\\', '/');
    }
  }

  lemma CleanedListFrom(patterns: seq<string>, x: string)
    requires x in CleanedList(patterns)
    ensures exists p :: p in patterns && Trim(p) != "" && x == CleanedPattern(p)
  {
    var t := TrimAll(patterns);
    var kept := Filter(t, NonBlank);
    var i :| 0 <= i < |kept| && SlashAll(kept)[i] == x;
    assert kept[i] in t && NonBlank(kept[i]) by {
      assert kept[i] in kept;
    }
    var k :| 0 <= k < |t| && t[k] == kept[i];
    assert x == CleanedPattern(patterns[k]);
    assert patterns[k] in patterns;
  }

  lemma CleanedListHas(patterns: seq<string>, p: string)
    requires p in patterns && Trim(p) != ""
    ensures CleanedPattern(p) in CleanedList(patterns)
  {
    var t := TrimAll(patterns);
    var k :| 0 <= k < |patterns| && patterns[k] == p;
    assert t[k] == Trim(p);
    var kept := Filter(t, NonBlank);
    assert Trim(p) in kept by {
      assert Trim(p) in t && NonBlank(Trim(p));
    }
    var i :| 0 <= i < |kept| && kept[i] == Trim(p);
    assert SlashAll(kept)[i] == CleanedPattern(p);
  }

  /** `cleanGlobPatterns`: trim, drop empty strings, turn backslashes into
      slashes, and keep the first occurrence of each pattern. */
  function CleanGlobPatterns(patterns: seq<string>): (r: seq<string>)
    ensures NoDup(r)
    ensures forall x :: x in r ==> x != "" && '\\' !in x
    ensures forall x :: x in r <==> exists p :: p in patterns && Trim(p) != "" && x == CleanedPattern(p)
  {
    DedupedCleaned(patterns);
    Dedupe(CleanedList(patterns))
  }

  lemma DedupedCleaned(patterns: seq<string>)
    ensures var r := Dedupe(CleanedList(patterns));
      && NoDup(r)
      && (forall x :: x in r ==> x != "" && '\\' !in x)
      && (forall x :: x in r <==> exists p :: p in patterns && Trim(p) != "" && x == CleanedPattern(p))
  {
    var c := CleanedList(patterns);
    var r := Dedupe(c);
    CleanedListShape(patterns);
    CleanedListIff(patterns);
    forall x ensures x in r <==> exists p :: p in patterns && Trim(p) != "" && x == CleanedPattern(p) {
      assert x in r <==> x in c;
    }
  }

  /** The cleaned list holds exactly the cleaned non-blank patterns. */
  lemma CleanedListIff(patterns: seq<string>)
    ensures forall x :: x in CleanedList(patterns) <==> exists p :: p in patterns && Trim(p) != "" && x == CleanedPattern(p)
  {
    var c := CleanedList(patterns);
    forall x | x in c ensures exists p :: p in patterns && Trim(p) != "" && x == CleanedPattern(p) {
      CleanedListFrom(patterns, x);
    }
    forall p | p in patterns && Trim(p) != "" ensures CleanedPattern(p) in c {
      CleanedListHas(patterns, p);
    }
  }

  /** The cleaned list keeps each pattern where it first appears among the
      cleaned patterns. */
  lemma CleanKeepsFirstOccurrenceOrder(patterns: seq<string>, i: nat, j: nat)
    requires i < j < |CleanGlobPatterns(patterns)|
    ensures var r := CleanGlobPatterns(patterns);
      FirstIndex(CleanedList(patterns), r[i]) < FirstIndex(CleanedList(patterns), r[j])
  {
    DedupeFirstOccurrenceOrder(CleanedList(patterns), i, j);
  }

  /** A cleaned pattern needs no further cleaning. */
  lemma CleanedPatternFixed(p: string)
    requires Trim(p) != ""
    ensures Trim(CleanedPattern(p)) == CleanedPattern(p)
    ensures ReplaceChar(CleanedPattern(p), '\\', '/') == CleanedPattern(p)
  {
    CleanedTrimmed(p);
    var c := CleanedPattern(p);
    assert ReplaceChar(c, '\\', '/') == c by {
      ReplaceCharRemoves(Trim(p), '\\', '/');
    }
  }

  lemma CleanedTrimmed(p: string)
    requires Trim(p) != ""
    ensures Trim(CleanedPattern(p)) == CleanedPattern(p)
  {
    var t := Trim(p);
    var c := CleanedPattern(p);
    var first := c[0];
    var last := c[|c| - 1];
    assert first == (if t[0] == '\\' then '/' else t[0]);
    assert last == (if t[|t| - 1] == '\\' then '/' else t[|t| - 1]);
    SlashedNotSpace(t[0]);
    SlashedNotSpace(t[|t| - 1]);
    TrimFixed(c);
  }

  lemma SlashedNotSpace(ch: char)
    requires !IsJsWhitespace(ch)
    ensures !IsJsWhitespace(if ch == '\\' then '/' else ch)
  {
  }

  /** Distinct patterns that are already clean are left as they are. */
  lemma CleanOfClean(r: seq<string>)
    requires NoDup(r)
    requires forall x :: x in r ==> x != "" && Trim(x) == x && ReplaceChar(x, '\\', '/') == x
    ensures CleanGlobPatterns(r) == r
  {
    assert TrimAll(r) == r by {
      forall i | 0 <= i < |r| ensures TrimAll(r)[i] == r[i] {
        assert r[i] in r;
      }
    }
    assert Filter(r, NonBlank) == r by {
      forall i | 0 <= i < |r| ensures NonBlank(r[i]) {
        assert r[i] in r;
      }
      FilterAll(r, NonBlank);
    }
    assert SlashAll(r) == r by {
      forall i | 0 <= i < |r| ensures SlashAll(r)[i] == r[i] {
        assert r[i] in r;
      }
    }
    assert CleanedList(r) == r;
    DedupeOfNoDup(r);
  }

  /** Cleaning is idempotent. */
  lemma CleanIdempotent(patterns: seq<string>)
    ensures CleanGlobPatterns(CleanGlobPatterns(patterns)) == CleanGlobPatterns(patterns)
  {
    var r := CleanGlobPatterns(patterns);
    forall x | x in r ensures x != "" && Trim(x) == x && ReplaceChar(x, '\\', '/') == x {
      var p :| p in patterns && Trim(p) != "" && x == CleanedPattern(p);
      CleanedPatternFixed(p);
    }
    CleanOfClean(r);
  }

  /** The default pattern list is already clean. */
  lemma CleanDefaultFiles()
    ensures CleanGlobPatterns(DefaultFiles) == DefaultFiles
  {
    forall x | x in DefaultFiles ensures x != "" && Trim(x) == x && ReplaceChar(x, '\\', '/') == x {
      assert x == "**/*";
      assert Trim(x) == x by {
        TrimFixed(x);
      }
      assert ReplaceChar(x, '\\', '/') == x by {
        assert '\\' !in x;
      }
    }
    CleanOfClean(DefaultFiles);
  }

  // ----- field by field -----

  /** The configured name: the file's `name` when the file is valid and has
      one, the default name otherwise. */
  function ConfigName(defaultName: string, configJson: Json): string
  {
    if MatchesSchema(configJson) && "name" in configJson.fields then configJson.fields["name"].s
    else defaultName
  }

  /** The configured depth: the file's `depth` when the file is valid and has
      one, -1 otherwise. */
  function ConfigDepth(configJson: Json): int
  {
    if MatchesSchema(configJson) && "depth" in configJson.fields then configJson.fields["depth"].n
    else DefaultDepth
  }

  /** The configured patterns: the file's `files`, cleaned, when the file is
      valid (the match-all default when it has none), and the default when it
      is not. */
  function ConfigFiles(configJson: Json): seq<string>
  {
    if !MatchesSchema(configJson) then DefaultFiles
    else if "files" in configJson.fields then CleanGlobPatterns(StringItems(configJson.fields["files"].items))
    else CleanGlobPatterns(DefaultFiles)
  }

  /** The override's cleaned patterns when it is given and some survive cleaning. */
  function Override(filesOverride: Option<seq<string>>): Option<seq<string>>
  {
    if filesOverride.Some? && |filesOverride.value| > 0 && |CleanGlobPatterns(filesOverride.value)| > 0
    then Some(CleanGlobPatterns(filesOverride.value))
    else None
  }

  /** The resolved configuration, field by field: the override decides the
      patterns when it applies, the file decides the rest. */
  function ResolveConfig(defaultName: string, configJson: Json, filesOverride: Option<seq<string>>): ResolvedConfig
  {
    var files := match Override(filesOverride)
      case Some(cleaned) => cleaned
      case None => ConfigFiles(configJson);
    ResolvedConfig(ConfigName(defaultName, configJson), files, ConfigDepth(configJson))
  }

  /** `resolveRepoReaderConfig({ defaultName, configJson, filesOverride })`. */
  method ResolveRepoReaderConfig(defaultName: string, configJson: Json, filesOverride: Option<seq<string>>)
    returns (effective: ResolvedConfig)
    ensures effective == ResolveConfig(defaultName, configJson, filesOverride)
  {
    effective := ResolvedConfig(defaultName, DefaultFiles, DefaultDepth);
    if Truthy(configJson) {
      var parsed := SafeParse(configJson);
      if parsed.Some? {
        var data := parsed.value;
        effective := ResolvedConfig(
          if data.name.Some? then data.name.value else defaultName,
          CleanGlobPatterns(if data.files.Some? then data.files.value else DefaultFiles),
          if data.depth.Some? then data.depth.value else DefaultDepth);
        ValidConfigFields(defaultName, configJson, data);
      }
    }
    assert effective == ResolveConfig(defaultName, configJson, None);
    if filesOverride.Some? && |filesOverride.value| > 0 {
      var cleaned := CleanGlobPatterns(filesOverride.value);
      if |cleaned| > 0 {
        effective := effective.(files := cleaned);
        OverrideReplacesFiles(defaultName, configJson, filesOverride.value);
      }
    }
  }

  /** A file that is missing (`null`), falsy or not of the schema's shape
      gives the default name, the match-all pattern and depth -1, before any
      override. */
  lemma InvalidConfigDefaults(defaultName: string, configJson: Json)
    requires !Truthy(configJson) || SafeParse(configJson).None?
    ensures ResolveConfig(defaultName, configJson, None) == ResolvedConfig(defaultName, ["**/*"], -1)
  {
  }

  /** A valid file's fields are taken as given, with the defaults filling the
      absent ones and the patterns cleaned. */
  lemma ValidConfigFields(defaultName: string, configJson: Json, data: ConfigData)
    requires SafeParse(configJson) == Some(data)
    ensures var r := ResolveConfig(defaultName, configJson, None);
      && r.name == (if data.name.Some? then data.name.value else defaultName)
      && r.depth == (if data.depth.Some? then data.depth.value else -1)
      && r.files == CleanGlobPatterns(if data.files.Some? then data.files.value else ["**/*"])
  {
    if data.files.Some? {
      var items := configJson.fields["files"].items;
      assert StringItems(items) == data.files.value;
    }
  }

  /** An override with patterns left after cleaning replaces the patterns and
      nothing else. */
  lemma OverrideReplacesFiles(defaultName: string, configJson: Json, filesOverride: seq<string>)
    requires CleanGlobPatterns(filesOverride) != []
    ensures var r := ResolveConfig(defaultName, configJson, Some(filesOverride));
      var base := ResolveConfig(defaultName, configJson, None);
      r == base.(files := CleanGlobPatterns(filesOverride))
  {
  }

  /** An override that is empty, or cleans to nothing, changes nothing. */
  lemma OverrideIgnored(defaultName: string, configJson: Json, filesOverride: seq<string>)
    requires CleanGlobPatterns(filesOverride) == []
    ensures ResolveConfig(defaultName, configJson, Some(filesOverride)) == ResolveConfig(defaultName, configJson, None)
  {
  }

  /** The resolved patterns are always clean: distinct, non-empty and free of
      backslashes. */
  lemma ResolvedFilesClean(defaultName: string, configJson: Json, filesOverride: Option<seq<string>>)
    ensures var files := ResolveConfig(defaultName, configJson, filesOverride).files;
      NoDup(files) && forall x :: x in files ==> x != "" && '\\' !in x
  {
    if !MatchesSchema(configJson) && Override(filesOverride).None? {
      CleanDefaultFiles();
    }
  }
}
