/** The IntelliJ project configuration read from `.buckconfig`
    (src/com/facebook/buck/jvm/java/intellij/IjProjectBuckConfig.java):
    the excluded resource paths, the dependency-to-generated-sources map,
    the autogeneration switch and the SDK settings. */
module IjConfig {
  import opened Wrappers
  import opened Config
  import Strings

  const PROJECT_SECTION: string := "project"
  const INTELLIJ_SECTION: string := "intellij"
  const KEY_VALUE_SEPARATOR: string := "=>"

  datatype IjProjectConfig = IjProjectConfig(
    autogenerateAndroidFacetSources: bool,
    projectJdkName: Option<string>,
    projectJdkType: Option<string>,
    androidModuleSdkName: Option<string>,
    androidModuleSdkType: Option<string>,
    intellijModuleSdkName: Option<string>,
    intellijSdkTargets: set<string>,
    javaModuleSdkName: Option<string>,
    javaModuleSdkType: Option<string>,
    projectLanguageLevel: Option<string>,
    excludedResourcePaths: set<string>,
    depToGeneratedSourcesMap: map<string, string>,
    androidManifest: Option<string>)

  datatype IjConfigError =
    | BadBoolean(cause: ConfigError)
    | InvalidEntry(chunk: string)
    | DuplicateKey(key: string)

  /** `excluded_resource_paths`: the set of comma-separated, trimmed,
      non-empty tokens; nothing when the option is absent. */
  function ExcludedResourcePaths(option: Option<string>): (r: set<string>)
    ensures option.None? ==> r == {}
    ensures option.Some? ==> r == TrimmedFields(Strings.SplitOn(option.value, ',')) - {""}
    ensures "" !in r
  {
    match option
    case None => {}
    case Some(v) => ToSet(SplitTrimmedNonEmpty(v, ','))
  }

  /** Writing non-empty, trimmed, comma-free paths as a comma-separated
      list and reading the option back gives the same set. */
  lemma ExcludedResourcePathsRoundTrip(paths: seq<string>)
    requires |paths| >= 1
    requires forall i :: 0 <= i < |paths| ==> paths[i] != "" && ',' !in paths[i] && Strings.Trim(paths[i]) == paths[i]
    ensures ExcludedResourcePaths(Some(Strings.JoinWith(paths, ','))) == ToSet(paths)
  {
    Strings.JoinThenSplit(paths, ',');
    var joined := Strings.JoinWith(paths, ',');
    assert Strings.SplitOn(joined, ',') == paths;
    TrimmedFieldsOfTrimmed(paths);
    assert "" !in ToSet(paths);
  }

  lemma TrimmedFieldsOfTrimmed(paths: seq<string>)
    requires forall i :: 0 <= i < |paths| ==> Strings.Trim(paths[i]) == paths[i]
    ensures TrimmedFields(paths) == ToSet(paths)
  {
    forall x | x in TrimmedFields(paths) ensures x in ToSet(paths) {
      var p :| p in paths && x == Strings.Trim(p);
      var i :| 0 <= i < |paths| && paths[i] == p;
    }
    forall x | x in ToSet(paths) ensures x in TrimmedFields(paths) {
      var i :| 0 <= i < |paths| && paths[i] == x;
      assert Strings.Trim(paths[i]) == x;
    }
  }

  /** One `key => value` chunk: exactly two trimmed fields around `=>`. */
  function EntryOf(chunk: string): (r: Result<(string, string), IjConfigError>)
    ensures r.Success? <==> |Strings.SplitOnPattern(chunk, KEY_VALUE_SEPARATOR)| == 2
    ensures r.Success? ==>
              var fields := Strings.SplitOnPattern(chunk, KEY_VALUE_SEPARATOR);
              r.value == (Strings.Trim(fields[0]), Strings.Trim(fields[1]))
    ensures r.Failure? ==> r.error == InvalidEntry(chunk)
  {
    var fields := Strings.SplitOnPattern(chunk, KEY_VALUE_SEPARATOR);
    if |fields| != 2 then Failure(InvalidEntry(chunk))
    else Success((Strings.Trim(fields[0]), Strings.Trim(fields[1])))
  }

  predicate AllEntries(chunks: seq<string>) {
    forall i :: 0 <= i < |chunks| ==> EntryOf(chunks[i]).Success?
  }

  /** The key of a well-formed entry (the empty string otherwise). */
  function KeyOf(chunk: string): string {
    match EntryOf(chunk)
    case Success(e) => e.0
    case Failure(_) => ""
  }

  /** No two chunks share a key and no chunk's key is already in `acc`. */
  predicate FreshKeys(chunks: seq<string>, acc: map<string, string>)
    requires AllEntries(chunks)
  {
    && (forall i :: 0 <= i < |chunks| ==> KeyOf(chunks[i]) !in acc)
    && (forall i, j :: 0 <= i < j < |chunks| ==> KeyOf(chunks[i]) != KeyOf(chunks[j]))
  }

  /** `withKeyValueSeparator(...).split(...)` over the chunks, in order,
      into `acc`: a malformed chunk or a repeated key is an error. */
  function ParseEntries(chunks: seq<string>, acc: map<string, string>)
    : (r: Result<map<string, string>, IjConfigError>)
    ensures r.Success? <==> AllEntries(chunks) && FreshKeys(chunks, acc)
    ensures r.Success? ==> forall k :: k in acc ==> k in r.value && r.value[k] == acc[k]
    ensures r.Success? ==> forall i :: 0 <= i < |chunks| ==>
              KeyOf(chunks[i]) in r.value && r.value[KeyOf(chunks[i])] == EntryOf(chunks[i]).value.1
    ensures r.Success? ==> forall k :: k in r.value ==>
              k in acc || exists i :: 0 <= i < |chunks| && k == KeyOf(chunks[i])
    decreases |chunks|
  {
    if chunks == [] then Success(acc)
    else
      match EntryOf(chunks[0])
      case Failure(e) => Failure(e)
      case Success(kv) =>
        if kv.0 in acc then
          Failure(DuplicateKey(kv.0))
        else
          var r := ParseEntries(chunks[1..], acc[kv.0 := kv.1]);
          ParseEntriesStep(chunks, acc, r);
          r
  }

  /** The head's entry is well formed and its key is new: the tail is
      parsed into the accumulator extended with it. */
  lemma ParseEntriesStep(chunks: seq<string>, acc: map<string, string>, r: Result<map<string, string>, IjConfigError>)
    requires |chunks| > 0 && EntryOf(chunks[0]).Success? && KeyOf(chunks[0]) !in acc
    requires var acc' := acc[KeyOf(chunks[0]) := EntryOf(chunks[0]).value.1];
      && (r.Success? <==> AllEntries(chunks[1..]) && FreshKeys(chunks[1..], acc'))
      && (r.Success? ==> forall k :: k in acc' ==> k in r.value && r.value[k] == acc'[k])
      && (r.Success? ==> forall i :: 0 <= i < |chunks[1..]| ==>
            KeyOf(chunks[1..][i]) in r.value && r.value[KeyOf(chunks[1..][i])] == EntryOf(chunks[1..][i]).value.1)
      && (r.Success? ==> forall k :: k in r.value ==>
            k in acc' || exists i :: 0 <= i < |chunks[1..]| && k == KeyOf(chunks[1..][i]))
    ensures r.Success? <==> AllEntries(chunks) && FreshKeys(chunks, acc)
    ensures r.Success? ==> forall k :: k in acc ==> k in r.value && r.value[k] == acc[k]
    ensures r.Success? ==> forall i :: 0 <= i < |chunks| ==>
              KeyOf(chunks[i]) in r.value && r.value[KeyOf(chunks[i])] == EntryOf(chunks[i]).value.1
    ensures r.Success? ==> forall k :: k in r.value ==>
              k in acc || exists i :: 0 <= i < |chunks| && k == KeyOf(chunks[i])
  {
    var acc' := acc[KeyOf(chunks[0]) := EntryOf(chunks[0]).value.1];
    AllEntriesCons(chunks);
    if AllEntries(chunks) {
      FreshKeysCons(chunks, acc);
    }
    if r.Success? {
      EntriesCons(chunks, r.value);
      KeysCons(chunks, acc', r.value);
    }
  }

  lemma AllEntriesCons(chunks: seq<string>)
    requires |chunks| > 0 && EntryOf(chunks[0]).Success?
    ensures AllEntries(chunks) <==> AllEntries(chunks[1..])
  {
    var tail := chunks[1..];
    if AllEntries(tail) {
      forall i | 0 <= i < |chunks| ensures EntryOf(chunks[i]).Success? {
        if i > 0 { assert chunks[i] == tail[i - 1]; }
      }
    }
  }

  lemma FreshKeysCons(chunks: seq<string>, acc: map<string, string>)
    requires |chunks| > 0 && AllEntries(chunks) && KeyOf(chunks[0]) !in acc
    ensures AllEntries(chunks[1..])
    ensures FreshKeys(chunks, acc) <==>
              FreshKeys(chunks[1..], acc[KeyOf(chunks[0]) := EntryOf(chunks[0]).value.1])
  {
    var tail := chunks[1..];
    var acc' := acc[KeyOf(chunks[0]) := EntryOf(chunks[0]).value.1];
    AllEntriesCons(chunks);
    if FreshKeys(tail, acc') {
      forall i | 0 <= i < |chunks| ensures KeyOf(chunks[i]) !in acc {
        if i > 0 { assert chunks[i] == tail[i - 1]; }
      }
      forall i, j | 0 <= i < j < |chunks| ensures KeyOf(chunks[i]) != KeyOf(chunks[j]) {
        assert chunks[j] == tail[j - 1];
        if i > 0 { assert chunks[i] == tail[i - 1]; }
      }
    }
    if FreshKeys(chunks, acc) {
      forall i | 0 <= i < |tail| ensures KeyOf(tail[i]) !in acc' {
        assert tail[i] == chunks[i + 1];
      }
      forall i, j | 0 <= i < j < |tail| ensures KeyOf(tail[i]) != KeyOf(tail[j]) {
        assert tail[i] == chunks[i + 1] && tail[j] == chunks[j + 1];
      }
    }
  }

  lemma EntriesCons(chunks: seq<string>, m: map<string, string>)
    requires |chunks| > 0 && AllEntries(chunks) && AllEntries(chunks[1..])
    requires KeyOf(chunks[0]) in m && m[KeyOf(chunks[0])] == EntryOf(chunks[0]).value.1
    requires forall i :: 0 <= i < |chunks[1..]| ==>
               KeyOf(chunks[1..][i]) in m && m[KeyOf(chunks[1..][i])] == EntryOf(chunks[1..][i]).value.1
    ensures forall i :: 0 <= i < |chunks| ==>
              KeyOf(chunks[i]) in m && m[KeyOf(chunks[i])] == EntryOf(chunks[i]).value.1
  {
    forall i | 0 <= i < |chunks|
      ensures KeyOf(chunks[i]) in m && m[KeyOf(chunks[i])] == EntryOf(chunks[i]).value.1
    {
      if i > 0 { assert chunks[i] == chunks[1..][i - 1]; }
    }
  }

  lemma KeysCons(chunks: seq<string>, acc': map<string, string>, m: map<string, string>)
    requires |chunks| > 0
    requires forall k :: k in m ==> k in acc' || exists i :: 0 <= i < |chunks[1..]| && k == KeyOf(chunks[1..][i])
    ensures forall k :: k in m ==>
              k in acc' - {KeyOf(chunks[0])} || exists i :: 0 <= i < |chunks| && k == KeyOf(chunks[i])
  {
    forall k | k in m
      ensures k in acc' - {KeyOf(chunks[0])} || exists i :: 0 <= i < |chunks| && k == KeyOf(chunks[i])
    {
      if k == KeyOf(chunks[0]) {
        assert k == KeyOf(chunks[0]);
      } else if k !in acc' {
        var i :| 0 <= i < |chunks[1..]| && k == KeyOf(chunks[1..][i]);
        assert chunks[1..][i] == chunks[i + 1];
      }
    }
  }

  /** `generated_srcs_map`: comma-separated `dep => path` entries; nothing
      when the option is absent. */
  function GeneratedSourcesMap(option: Option<string>): (r: Result<map<string, string>, IjConfigError>)
    ensures option.None? ==> r == Success(map[])
    ensures option.Some? ==> r == ParseEntries(SplitTrimmedNonEmpty(option.value, ','), map[])
  {
    match option
    case None => Success(map[])
    case Some(v) => ParseEntries(SplitTrimmedNonEmpty(v, ','), map[])
  }

  /** The JDK, SDK and language-level settings are the `[intellij]` values. */
  predicate SdkFieldsCopied(c: BuckConfig, p: IjProjectConfig) {
    && p.projectJdkName == c.GetValue(INTELLIJ_SECTION, "jdk_name")
    && p.projectJdkType == c.GetValue(INTELLIJ_SECTION, "jdk_type")
    && p.androidModuleSdkName == c.GetValue(INTELLIJ_SECTION, "android_module_sdk_name")
    && p.androidModuleSdkType == c.GetValue(INTELLIJ_SECTION, "android_module_sdk_type")
    && p.intellijModuleSdkName == c.GetValue(INTELLIJ_SECTION, "intellij_module_sdk_name")
    && p.javaModuleSdkName == c.GetValue(INTELLIJ_SECTION, "java_module_sdk_name")
    && p.javaModuleSdkType == c.GetValue(INTELLIJ_SECTION, "java_module_sdk_type")
    && p.projectLanguageLevel == c.GetValue(INTELLIJ_SECTION, "language_level")
  }

  /** `IjProjectBuckConfig.create`: `listWithoutComments` is the
      configuration's comment-stripping list reader. */
  function Create(c: BuckConfig, listWithoutComments: (string, string) -> seq<string>)
    : (r: Result<IjProjectConfig, IjConfigError>)
    ensures GetBooleanValue(c, PROJECT_SECTION, "disable_r_java_idea_generator", false).Failure? ==> r.Failure?
    ensures r.Success? ==>
      && r.value.autogenerateAndroidFacetSources ==
           !GetBooleanValue(c, PROJECT_SECTION, "disable_r_java_idea_generator", false).value
      && (c.GetValue(PROJECT_SECTION, "disable_r_java_idea_generator").None? ==> r.value.autogenerateAndroidFacetSources)
      && r.value.excludedResourcePaths == ExcludedResourcePaths(c.GetValue(INTELLIJ_SECTION, "excluded_resource_paths"))
      && GeneratedSourcesMap(c.GetValue(INTELLIJ_SECTION, "generated_srcs_map")) == Success(r.value.depToGeneratedSourcesMap)
      && SdkFieldsCopied(c, r.value)
      && r.value.intellijSdkTargets == ToSet(listWithoutComments(INTELLIJ_SECTION, "intellij_sdk_targets"))
    ensures r.Failure? <==>
      GeneratedSourcesMap(c.GetValue(INTELLIJ_SECTION, "generated_srcs_map")).Failure? ||
      GetBooleanValue(c, PROJECT_SECTION, "disable_r_java_idea_generator", false).Failure?
  {
    var excluded := ExcludedResourcePaths(c.GetValue(INTELLIJ_SECTION, "excluded_resource_paths"));
    var generated :- GeneratedSourcesMap(c.GetValue(INTELLIJ_SECTION, "generated_srcs_map"));
    var targets := ToSet(listWithoutComments(INTELLIJ_SECTION, "intellij_sdk_targets"));
    var manifest := c.GetValue(INTELLIJ_SECTION, "default_android_manifest_path");
    var disabled := GetBooleanValue(c, PROJECT_SECTION, "disable_r_java_idea_generator", false);
    if disabled.Failure? then Failure(BadBoolean(disabled.error))
    else
      Success(IjProjectConfig(
        !disabled.value,
        c.GetValue(INTELLIJ_SECTION, "jdk_name"),
        c.GetValue(INTELLIJ_SECTION, "jdk_type"),
        c.GetValue(INTELLIJ_SECTION, "android_module_sdk_name"),
        c.GetValue(INTELLIJ_SECTION, "android_module_sdk_type"),
        c.GetValue(INTELLIJ_SECTION, "intellij_module_sdk_name"),
        targets,
        c.GetValue(INTELLIJ_SECTION, "java_module_sdk_name"),
        c.GetValue(INTELLIJ_SECTION, "java_module_sdk_type"),
        c.GetValue(INTELLIJ_SECTION, "language_level"),
        excluded,
        generated,
        manifest))
  }
}
