/** The IntelliJ project writer's decisions
    (src/com/facebook/buck/jvm/java/intellij/IjProjectWriter.java): the
    project settings guard, the language level and `jdk15` flag, the
    resource package fallback, the classes generated in place of IntelliJ,
    and the rule that leaves an up-to-date file alone. Templates and the
    file system are abstract: rendered files are byte sequences and SHA-1
    is a function parameter. */
module IjWriter {
  import opened Wrappers
  import opened Paths
  import Strings
  import IjConfig


  // ---------------------------------------------------------------------
  // Project settings
  // ---------------------------------------------------------------------

  /** `getJdk15FromLanguageLevel`. */
  function Jdk15(languageLevel: string): (r: bool)
    ensures !r <==> languageLevel == "JDK_1_3" || languageLevel == "JDK_1_4"
  {
    !(languageLevel == "JDK_1_3" || languageLevel == "JDK_1_4")
  }

  /** `getLanguageLevelFromConfig`: the configured IntelliJ language level,
      else the default javac source level converted by `toIjFormat`
      (`JavaLanguageLevelHelper.convertLanguageLevelToIjFormat`). */
  function LanguageLevelFromConfig(config: IjConfig.IjProjectConfig, defaultSourceLevel: string,
                                   toIjFormat: string -> string): (r: string)
    ensures config.projectLanguageLevel.Some? ==> r == config.projectLanguageLevel.value
    ensures config.projectLanguageLevel.None? ==> r == toIjFormat(defaultSourceLevel)
  {
    match config.projectLanguageLevel
    case Some(level) => level
    case None => toIjFormat(defaultSourceLevel)
  }

  /** What `misc.xml` is rendered from. */
  datatype MiscSettings = MiscSettings(languageLevel: string, jdk15: bool, jdkName: string, jdkType: string)

  /** `writeProjectSettings`: nothing unless both the JDK name and type
      are configured. */
  function ProjectSettings(config: IjConfig.IjProjectConfig, defaultSourceLevel: string,
                           toIjFormat: string -> string): (r: Option<MiscSettings>)
    ensures r.Some? <==> config.projectJdkName.Some? && config.projectJdkType.Some?
    ensures r.Some? ==>
      && r.value.jdkName == config.projectJdkName.value
      && r.value.jdkType == config.projectJdkType.value
      && r.value.languageLevel == LanguageLevelFromConfig(config, defaultSourceLevel, toIjFormat)
      && (r.value.jdk15 <==> r.value.languageLevel !in {"JDK_1_3", "JDK_1_4"})
  {
    if config.projectJdkName.None? || config.projectJdkType.None? then None
    else
      var level := LanguageLevelFromConfig(config, defaultSourceLevel, toIjFormat);
      Some(MiscSettings(level, Jdk15(level), config.projectJdkName.value, config.projectJdkType.value))
  }

  // ---------------------------------------------------------------------
  // Resource package
  // ---------------------------------------------------------------------

  /** A module's Android facet, as far as the writer reads it. */
  datatype AndroidFacet = AndroidFacet(packageName: Option<string>, generatedSourcePath: Path)

  /** `getFirstResourcePackageFromDependencies`: the package of the first
      dependent module, in order, whose facet names one. */
  function FirstResourcePackage(deps: seq<Option<AndroidFacet>>): (r: Option<string>)
    ensures r.None? <==> forall i :: 0 <= i < |deps| ==> deps[i].None? || deps[i].value.packageName.None?
    ensures r.Some? ==> exists i :: 0 <= i < |deps| && deps[i].Some? && deps[i].value.packageName == r &&
                          forall k :: 0 <= k < i ==> deps[k].None? || deps[k].value.packageName.None?
  {
    if deps == [] then None
    else if deps[0].Some? && deps[0].value.packageName.Some? then deps[0].value.packageName
    else
      var r := FirstResourcePackage(deps[1..]);
      assert forall i :: 0 < i < |deps| ==> deps[i] == deps[1..][i - 1];
      assert r.Some? ==> exists i :: 0 <= i < |deps| && deps[i].Some? && deps[i].value.packageName == r &&
                            forall k :: 0 <= k < i ==> deps[k].None? || deps[k].value.packageName.None? by {
        if r.Some? {
          var i :| 0 <= i < |deps[1..]| && deps[1..][i].Some? && deps[1..][i].value.packageName == r &&
                   forall k :: 0 <= k < i ==> deps[1..][k].None? || deps[1..][k].value.packageName.None?;
          assert deps[i + 1] == deps[1..][i];
          forall k | 0 <= k < i + 1 ensures deps[k].None? || deps[k].value.packageName.None? {
            if k > 0 { assert deps[k] == deps[1..][k - 1]; }
          }
        }
      }
      r
  }

  /** `getResourcePackage`: the facet's own package, else the first one
      among the dependent modules. */
  function ResourcePackage(facet: AndroidFacet, deps: seq<Option<AndroidFacet>>): (r: Option<string>)
    ensures facet.packageName.Some? ==> r == facet.packageName
    ensures facet.packageName.None? ==> r == FirstResourcePackage(deps)
    ensures r.None? <==> facet.packageName.None? &&
                         forall i :: 0 <= i < |deps| ==> deps[i].None? || deps[i].value.packageName.None?
  {
    if facet.packageName.Some? then facet.packageName else FirstResourcePackage(deps)
  }

  // ---------------------------------------------------------------------
  // Classes generated in place of IntelliJ
  // ---------------------------------------------------------------------

  const GENERATED_CLASSES: seq<string> := ["BuildConfig", "R", "Manifest"]

  /** Where a generated class of `packageName` goes: under the facet's
      generated source path, one folder per package component. */
  function GeneratedClassPath(genPath: Path, packageName: string, className: string): Path {
    Resolve(Resolve(genPath, ParsePath(Strings.ReplaceChar(packageName, '.', '/'))), Name(className + ".java"))
  }

  /** The generated-class files of one module: none when IntelliJ
      generates them itself, when the module has no Android facet or when
      no package is known; otherwise `BuildConfig`, `R` and `Manifest`. */
  function GeneratedClassFiles(autogenerate: bool, facet: Option<AndroidFacet>, deps: seq<Option<AndroidFacet>>)
    : (r: seq<Path>)
    ensures r != [] <==> !autogenerate && facet.Some? && ResourcePackage(facet.value, deps).Some?
    ensures r != [] ==> |r| == 3 && forall i :: 0 <= i < 3 ==>
              r[i] == GeneratedClassPath(facet.value.generatedSourcePath, ResourcePackage(facet.value, deps).value,
                                         GENERATED_CLASSES[i])
  {
    if autogenerate || facet.None? then []
    else
      match ResourcePackage(facet.value, deps)
      case None => []
      case Some(p) =>
        seq(3, i requires 0 <= i < 3 => GeneratedClassPath(facet.value.generatedSourcePath, p, GENERATED_CLASSES[i]))
  }

  /** Replacing dots by slashes and splitting on slashes splits on dots. */
  lemma {:induction false} SplitReplaced(s: string)
    requires '/' !in s
    ensures Strings.SplitOn(Strings.ReplaceChar(s, '.', '/'), '/') == Strings.SplitOn(s, '.')
  {
    if |s| > 0 {
      var t := Strings.ReplaceChar(s, '.', '/');
      assert t[1..] == Strings.ReplaceChar(s[1..], '.', '/');
      assert '/' !in s[1..] by { assert forall x :: x in s[1..] ==> x in s; }
      SplitReplaced(s[1..]);
    }
  }

  /** For an ordinary package name the generated class lies in the
      package's folders below the generated source path. */
  lemma GeneratedClassPathNames(genPath: Path, packageName: string, className: string)
    requires '/' !in packageName && '/' !in className && className != ""
    requires |packageName| == 0 || packageName[0] != '.'
    ensures GeneratedClassPath(genPath, packageName, className) ==
              Path(genPath.absolute, genPath.names + NonEmpty(Strings.SplitOn(packageName, '.')) + [className + ".java"])
  {
    var replaced := Strings.ReplaceChar(packageName, '.', '/');
    SplitReplaced(packageName);
    assert !ParsePath(replaced).absolute;
  }

  // ---------------------------------------------------------------------
  // Writing a file
  // ---------------------------------------------------------------------

  type Bytes = seq<bv8>
  type FileSystem = map<Path, Bytes>

  /** `writeToFile`: `compared` is the rendering whose SHA-1 is compared
      with the file on disk, `written` the rendering that is written. The
      file is left alone when it exists with the same SHA-1; otherwise it
      is replaced. Returns the new file system and whether it wrote. */
  function WriteToFile(fs: FileSystem, path: Path, compared: Bytes, written: Bytes,
                       sha1: Bytes -> seq<bv8>): (r: (FileSystem, bool))
    ensures !r.1 <==> path in fs && sha1(fs[path]) == sha1(compared)
    ensures !r.1 ==> r.0 == fs
    ensures r.1 ==> r.0 == fs[path := written]
    ensures forall q :: q != path ==> (q in r.0 <==> q in fs) && (q in fs ==> r.0[q] == fs[q])
  {
    if path in fs && sha1(fs[path]) == sha1(compared) then (fs, false)
    else (fs[path := written], true)
  }

  /** Writing the same file twice in a row: the second write is skipped
      exactly when the first was skipped or the written rendering has the
      SHA-1 of the compared one. When the two renderings differ in SHA-1
      (e.g. a platform charset other than UTF-8), the file is rewritten on
      every run. */
  lemma RepeatedWrite(fs: FileSystem, path: Path, compared: Bytes, written: Bytes, sha1: Bytes -> seq<bv8>)
    ensures var (fs1, wrote1) := WriteToFile(fs, path, compared, written, sha1);
            var (fs2, wrote2) := WriteToFile(fs1, path, compared, written, sha1);
            && (wrote2 <==> wrote1 && sha1(written) != sha1(compared))
            && (!wrote2 ==> fs2 == fs1)
            && (wrote2 ==> fs2 == fs1 && fs2[path] == written)
  {
  }

  /** With a single rendering, writing twice writes at most once. */
  lemma SecondWriteSkipped(fs: FileSystem, path: Path, contents: Bytes, sha1: Bytes -> seq<bv8>)
    ensures var (fs1, _) := WriteToFile(fs, path, contents, contents, sha1);
            var (fs2, wrote) := WriteToFile(fs1, path, contents, contents, sha1);
            !wrote && fs2 == fs1
  {
    RepeatedWrite(fs, path, contents, contents, sha1);
  }
}
