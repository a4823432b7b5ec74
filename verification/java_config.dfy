/** The `[java]` configuration view (src/com/facebook/buck/jvm/java/JavaBuckConfig.java):
    tool paths, the default `java`/`javac` options, the class-usage
    tracking switch and the boolean feature flags. */
module JavaConfig {
  import opened Wrappers
  import opened Config
  import Paths

  const SECTION: string := "java"
  const TOOLS: string := "tools"
  const BOOTCLASSPATH_PREFIX: string := "bootclasspath-"

  predicate StartsWith(s: string, prefix: string) {
    |prefix| <= |s| && s[..|prefix|] == prefix
  }

  datatype JavaConfigError =
    | BadValue(cause: ConfigError)
    | NotExecutable(name: string, path: Paths.Path)

  /** The text of the error a non-executable tool raises. */
  function Message(e: JavaConfigError): (m: string)
    ensures e.NotExecutable? ==> StartsWith(m, e.name + " is not executable: ")
  {
    match e
    case BadValue(cause) => "invalid value for " + cause.section + "." + cause.field + ": " + cause.value
    case NotExecutable(name, path) => name + " is not executable: " + Paths.Show(path)
  }

  /** `getPathToExecutable(name)`: the `[tools]` path of `name`, which
      must be executable when configured. */
  function PathToExecutable(c: BuckConfig, name: string, canExecute: Paths.Path -> bool)
    : (r: Result<Option<Paths.Path>, JavaConfigError>)
    ensures c.GetValue(TOOLS, name).None? <==> r == Success(None)
    ensures r.Failure? <==> c.GetValue(TOOLS, name).Some? && !canExecute(Paths.ParsePath(c.GetValue(TOOLS, name).value))
    ensures r.Failure? ==> r.error == NotExecutable(name, Paths.ParsePath(c.GetValue(TOOLS, name).value))
    ensures r.Success? && r.value.Some? ==>
              r.value.value == Paths.ParsePath(c.GetValue(TOOLS, name).value) && canExecute(r.value.value)
  {
    match c.GetValue(TOOLS, name)
    case None => Success(None)
    case Some(v) =>
      var p := Paths.ParsePath(v);
      if !canExecute(p) then Failure(NotExecutable(name, p)) else Success(Some(p))
  }

  datatype JavaOptions = JavaOptions(javaPath: Option<Paths.Path>)

  /** `getDefaultJavaOptions()`. */
  function DefaultJavaOptions(c: BuckConfig, canExecute: Paths.Path -> bool)
    : (r: Result<JavaOptions, JavaConfigError>)
    ensures r.Success? <==> PathToExecutable(c, "java", canExecute).Success?
    ensures r.Success? ==> r.value.javaPath == PathToExecutable(c, "java", canExecute).value
  {
    var p :- PathToExecutable(c, "java", canExecute);
    Success(JavaOptions(p))
  }

  /** `getDefaultJavaOptionsForTests()`: `java_for_tests` when configured,
      the default options otherwise. */
  function DefaultJavaOptionsForTests(c: BuckConfig, canExecute: Paths.Path -> bool)
    : (r: Result<JavaOptions, JavaConfigError>)
    ensures c.GetValue(TOOLS, "java_for_tests").None? ==> r == DefaultJavaOptions(c, canExecute)
    ensures c.GetValue(TOOLS, "java_for_tests").Some? ==>
              (r.Success? <==> canExecute(Paths.ParsePath(c.GetValue(TOOLS, "java_for_tests").value)))
    ensures c.GetValue(TOOLS, "java_for_tests").Some? && r.Success? ==>
              r.value.javaPath == Some(Paths.ParsePath(c.GetValue(TOOLS, "java_for_tests").value))
  {
    var testPath :- PathToExecutable(c, "java_for_tests", canExecute);
    if testPath.Some? then Success(JavaOptions(testPath)) else DefaultJavaOptions(c, canExecute)
  }

  /** Where `javac` comes from. */
  datatype JavacSource = External | Jar | Jdk

  /** The parts of `JavacSpec` that the javac source is decided from. */
  datatype JavacSpec = JavacSpec(javacPath: Option<Paths.Path>, javacJar: Option<string>, compilerClassName: Option<string>)

  /** `getJavacSpec()`. */
  function GetJavacSpec(c: BuckConfig, canExecute: Paths.Path -> bool): (r: Result<JavacSpec, JavaConfigError>)
    ensures r.Success? <==> PathToExecutable(c, "javac", canExecute).Success?
    ensures r.Success? ==>
              && r.value.javacPath == PathToExecutable(c, "javac", canExecute).value
              && r.value.javacJar == c.GetValue(TOOLS, "javac_jar")
              && r.value.compilerClassName == c.GetValue(TOOLS, "compiler_class_name")
  {
    var javac :- PathToExecutable(c, "javac", canExecute);
    Success(JavacSpec(javac, c.GetValue(TOOLS, "javac_jar"), c.GetValue(TOOLS, "compiler_class_name")))
  }

  /** `trackClassUsage()`: off when explicitly configured off; otherwise on
      exactly for an in-process javac (from a jar or the JDK). `sourceOf`
      is `JavacSpec.getJavacSource`. */
  function TrackClassUsage(c: BuckConfig, canExecute: Paths.Path -> bool, sourceOf: JavacSpec -> JavacSource)
    : (r: Result<bool, JavaConfigError>)
    ensures GetBoolean(c, SECTION, "track_class_usage") == Success(Some(false)) ==> r == Success(false)
    ensures GetBoolean(c, SECTION, "track_class_usage").Failure? ==> r.Failure? && r.error.BadValue?
    ensures r == Success(true) <==>
              GetBoolean(c, SECTION, "track_class_usage").Success? &&
              GetBoolean(c, SECTION, "track_class_usage").value != Some(false) &&
              GetJavacSpec(c, canExecute).Success? &&
              sourceOf(GetJavacSpec(c, canExecute).value) in {Jar, Jdk}
  {
    match GetBoolean(c, SECTION, "track_class_usage")
    case Failure(e) => Failure(BadValue(e))
    case Success(configured) =>
      if configured == Some(false) then Success(false)
      else
        var spec :- GetJavacSpec(c, canExecute);
        var source := sourceOf(spec);
        Success(source == Jar || source == Jdk)
  }

  /** `bootclasspath-<source>` entries of a section, keyed by `<source>`. */
  method Bootclasspaths(entries: map<string, string>) returns (r: map<string, string>)
    ensures forall k :: k in r <==> BOOTCLASSPATH_PREFIX + k in entries
    ensures forall k :: k in r ==> r[k] == entries[BOOTCLASSPATH_PREFIX + k]
  {
    r := map[];
    var todo := entries.Keys;
    while todo != {}
      invariant todo <= entries.Keys
      invariant forall k :: k in r <==> BOOTCLASSPATH_PREFIX + k in entries && BOOTCLASSPATH_PREFIX + k !in todo
      invariant forall k :: k in r ==> r[k] == entries[BOOTCLASSPATH_PREFIX + k]
      decreases |todo|
    {
      var key :| key in todo;
      if StartsWith(key, BOOTCLASSPATH_PREFIX) {
        var source := key[|BOOTCLASSPATH_PREFIX|..];
        assert key == BOOTCLASSPATH_PREFIX + source;
        r := r[source := entries[key]];
      }
      PrefixedStarts();
      todo := todo - {key};
    }
  }

  /** Every prefixed name starts with the prefix. */
  lemma PrefixedStarts()
    ensures forall k :: StartsWith(BOOTCLASSPATH_PREFIX + k, BOOTCLASSPATH_PREFIX)
  {
    forall k ensures StartsWith(BOOTCLASSPATH_PREFIX + k, BOOTCLASSPATH_PREFIX) {
      assert (BOOTCLASSPATH_PREFIX + k)[..|BOOTCLASSPATH_PREFIX|] == BOOTCLASSPATH_PREFIX;
    }
  }

  /** The `javac` options the configuration contributes; the rest of
      `JavacOptions` comes from `defaults`. */
  datatype JavacOptions = JavacOptions(
    sourceLevel: string,
    targetLevel: string,
    trackClassUsage: bool,
    sourceToBootclasspath: map<string, string>)

  /** `getDefaultJavacOptions()`: levels overridden only when configured;
      the bootclasspath map is exactly the section's prefixed entries (the
      builder starts without any). */
  method DefaultJavacOptions(c: BuckConfig, defaults: JavacOptions, canExecute: Paths.Path -> bool,
                             sourceOf: JavacSpec -> JavacSource)
    returns (r: Result<JavacOptions, JavaConfigError>)
    ensures r.Failure? <==> TrackClassUsage(c, canExecute, sourceOf).Failure?
    ensures r.Success? ==>
      && r.value.sourceLevel == c.GetValue(SECTION, "source_level").GetOr(defaults.sourceLevel)
      && r.value.targetLevel == c.GetValue(SECTION, "target_level").GetOr(defaults.targetLevel)
      && r.value.trackClassUsage == TrackClassUsage(c, canExecute, sourceOf).value
      && (forall k :: k in r.value.sourceToBootclasspath <==>
            BOOTCLASSPATH_PREFIX + k in c.EntriesForSection(SECTION))
      && (forall k :: BOOTCLASSPATH_PREFIX + k in c.EntriesForSection(SECTION) ==>
            r.value.sourceToBootclasspath[k] == c.values[(SECTION, BOOTCLASSPATH_PREFIX + k)])
  {
    var options := defaults;
    var sourceLevel := c.GetValue(SECTION, "source_level");
    if sourceLevel.Some? {
      options := options.(sourceLevel := sourceLevel.value);
    }
    var targetLevel := c.GetValue(SECTION, "target_level");
    if targetLevel.Some? {
      options := options.(targetLevel := targetLevel.value);
    }
    var track := TrackClassUsage(c, canExecute, sourceOf);
    if track.Failure? {
      return Failure(track.error);
    }
    options := options.(trackClassUsage := track.value);
    var boot := Bootclasspaths(c.EntriesForSection(SECTION));
    options := options.(sourceToBootclasspath := boot);
    return Success(options);
  }

  /** `shouldCacheBinaries()`: on unless configured otherwise. */
  function ShouldCacheBinaries(c: BuckConfig): (r: Result<bool, ConfigError>)
    ensures c.GetValue(SECTION, "cache_binaries").None? ==> r == Success(true)
    ensures r.Success? && c.GetValue(SECTION, "cache_binaries").Some? ==>
              Some(r.value) == ParseBoolean(c.GetValue(SECTION, "cache_binaries").value)
  {
    GetBooleanValue(c, SECTION, "cache_binaries", true)
  }

  /** `shouldSuggestDependencies()`: off unless configured. */
  function ShouldSuggestDependencies(c: BuckConfig): (r: Result<bool, ConfigError>)
    ensures c.GetValue(SECTION, "suggest_dependencies").None? ==> r == Success(false)
    ensures r.Success? && c.GetValue(SECTION, "suggest_dependencies").Some? ==>
              Some(r.value) == ParseBoolean(c.GetValue(SECTION, "suggest_dependencies").value)
  {
    GetBooleanValue(c, SECTION, "suggest_dependencies", false)
  }

  /** `shouldValidateAbisGeneratedFromSource()`: off unless configured. */
  function ShouldValidateAbisGeneratedFromSource(c: BuckConfig): (r: Result<bool, ConfigError>)
    ensures c.GetValue(SECTION, "validate_abis_from_source").None? ==> r == Success(false)
    ensures r.Success? && c.GetValue(SECTION, "validate_abis_from_source").Some? ==>
              Some(r.value) == ParseBoolean(c.GetValue(SECTION, "validate_abis_from_source").value)
  {
    GetBooleanValue(c, SECTION, "validate_abis_from_source", false)
  }

  /** `shouldCompileAgainstAbis()`: off unless configured. */
  function ShouldCompileAgainstAbis(c: BuckConfig): (r: Result<bool, ConfigError>)
    ensures c.GetValue(SECTION, "compile_against_abis").None? ==> r == Success(false)
    ensures r.Success? && c.GetValue(SECTION, "compile_against_abis").Some? ==>
              Some(r.value) == ParseBoolean(c.GetValue(SECTION, "compile_against_abis").value)
  {
    GetBooleanValue(c, SECTION, "compile_against_abis", false)
  }
}
