/** IntelliJ module creation (src/com/facebook/buck/jvm/java/intellij/IjModuleFactory.java):
    the rule index over description classes, the folder index of input
    paths, SDK and language-level selection, compile shadows, configured
    generated sources and IntelliJ plugin detection. Target nodes are
    summarised by the attributes these decisions read. */
module IjModuleFactory {
  import opened Wrappers
  import opened Paths
  import Strings
  import IjConfig

  /** The description class of a target node. */
  datatype DescriptionClass =
    | AndroidBinary | AndroidLibrary | AndroidResource | CxxLibrary
    | JavaBinary | JavaLibrary | JavaTest | RobolectricTest
    | GroovyLibrary | GroovyTest | KotlinLibrary | KotlinTest
    | OtherClass(name: string)

  /** The target types mapped onto `.iml` module files. */
  const SUPPORTED_MODULE_DESCRIPTION_CLASSES: set<DescriptionClass> :=
    {AndroidBinary, AndroidLibrary, AndroidResource, CxxLibrary, JavaBinary, JavaLibrary,
     JavaTest, RobolectricTest, GroovyLibrary, GroovyTest, KotlinLibrary, KotlinTest}

  /** The rules the factory's constructor indexes, in order. */
  const MODULE_RULES: seq<DescriptionClass> :=
    [AndroidBinary, AndroidLibrary, AndroidResource, CxxLibrary, JavaBinary, JavaLibrary,
     JavaTest, RobolectricTest, GroovyLibrary, GroovyTest, KotlinLibrary, KotlinTest]

  predicate Distinct<T(==)>(xs: seq<T>) {
    forall i, j :: 0 <= i < j < |xs| ==> xs[i] != xs[j]
  }

  // ---------------------------------------------------------------------
  // Rule index
  // ---------------------------------------------------------------------

  datatype IndexError =
    | AlreadyIndexed(cls: DescriptionClass)
    | NotSupported(cls: DescriptionClass)
    | IncompleteIndex

  /** `addToIndex`: a class may be indexed once, and only when supported. */
  function AddToIndex(index: set<DescriptionClass>, cls: DescriptionClass): (r: Result<set<DescriptionClass>, IndexError>)
    ensures r.Success? <==> cls !in index && cls in SUPPORTED_MODULE_DESCRIPTION_CLASSES
    ensures r.Success? ==> r.value == index + {cls}
    ensures cls in index ==> r == Failure(AlreadyIndexed(cls))
  {
    if cls in index then Failure(AlreadyIndexed(cls))
    else if cls !in SUPPORTED_MODULE_DESCRIPTION_CLASSES then Failure(NotSupported(cls))
    else Success(index + {cls})
  }

  /** A sequence of rules can be indexed one after another. */
  predicate Indexable(index: set<DescriptionClass>, rules: seq<DescriptionClass>) {
    && Distinct(rules)
    && forall i :: 0 <= i < |rules| ==> rules[i] in SUPPORTED_MODULE_DESCRIPTION_CLASSES && rules[i] !in index
  }

  /** Adds `rules` in order. */
  function AddAllToIndex(index: set<DescriptionClass>, rules: seq<DescriptionClass>)
    : (r: Result<set<DescriptionClass>, IndexError>)
    ensures r.Success? <==> Indexable(index, rules)
    ensures r.Success? ==> r.value == index + set c | c in rules
    decreases |rules|
  {
    if rules == [] then Success(index)
    else
      match AddToIndex(index, rules[0])
      case Failure(e) =>
        assert !Indexable(index, rules) by { assert rules[0] in SUPPORTED_MODULE_DESCRIPTION_CLASSES ==> rules[0] in index; }
        Failure(e)
      case Success(next) =>
        var r := AddAllToIndex(next, rules[1..]);
        IndexableStep(index, rules);
        assert (set c | c in rules) == {rules[0]} + set c | c in rules[1..];
        r
  }

  lemma IndexableStep(index: set<DescriptionClass>, rules: seq<DescriptionClass>)
    requires |rules| > 0 && rules[0] !in index && rules[0] in SUPPORTED_MODULE_DESCRIPTION_CLASSES
    ensures Indexable(index, rules) <==> Indexable(index + {rules[0]}, rules[1..])
  {
    var tail := rules[1..];
    if Indexable(index + {rules[0]}, tail) {
      forall i, j | 0 <= i < j < |rules| ensures rules[i] != rules[j] {
        assert rules[j] == tail[j - 1];
        if i > 0 { assert rules[i] == tail[i - 1]; }
      }
      forall i | 0 <= i < |rules| ensures rules[i] in SUPPORTED_MODULE_DESCRIPTION_CLASSES && rules[i] !in index {
        if i > 0 { assert rules[i] == tail[i - 1]; }
      }
    }
    if Indexable(index, rules) {
      forall i | 0 <= i < |tail| ensures tail[i] !in index + {rules[0]} {
        assert tail[i] == rules[i + 1];
      }
      forall i, j | 0 <= i < j < |tail| ensures tail[i] != tail[j] {
        assert tail[i] == rules[i + 1] && tail[j] == rules[j + 1];
      }
    }
  }

  /** The constructor: index every rule, then insist that the indexed
      classes are exactly the supported ones. */
  function BuildIndex(rules: seq<DescriptionClass>): (r: Result<set<DescriptionClass>, IndexError>)
    ensures r.Success? <==> Indexable({}, rules) && (set c | c in rules) == SUPPORTED_MODULE_DESCRIPTION_CLASSES
    ensures r.Success? ==> r.value == SUPPORTED_MODULE_DESCRIPTION_CLASSES
  {
    var index :- AddAllToIndex({}, rules);
    if index != SUPPORTED_MODULE_DESCRIPTION_CLASSES then Failure(IncompleteIndex) else Success(index)
  }

  /** The factory's own rules index every supported class exactly once. */
  lemma FactoryIndexIsComplete()
    ensures BuildIndex(MODULE_RULES) == Success(SUPPORTED_MODULE_DESCRIPTION_CLASSES)
  {
    assert Indexable({}, MODULE_RULES);
    assert (set c | c in MODULE_RULES) == SUPPORTED_MODULE_DESCRIPTION_CLASSES;
  }

  /** Indexing the same class twice fails, whatever else is indexed. */
  lemma DuplicateRuleRejected(rules: seq<DescriptionClass>, i: nat, j: nat)
    requires i < j < |rules| && rules[i] == rules[j]
    ensures BuildIndex(rules).Failure?
  {
  }

  // ---------------------------------------------------------------------
  // Folder index
  // ---------------------------------------------------------------------

  /** `path.getParent()`, or the empty path when there is none. */
  function ParentOrDefault(p: Path): (r: Path)
    ensures Parent(p).Some? ==> r == Parent(p).value
    ensures Parent(p).None? ==> r == Path(false, [])
  {
    match Parent(p)
    case Some(q) => q
    case None => Path(false, [])
  }

  /** Every entry of the index holds distinct inputs of `paths[..n]`,
      each filed under its parent, and every such input is filed. */
  ghost predicate Indexed(paths: seq<Path>, n: nat, index: map<Path, seq<Path>>)
    requires n <= |paths|
  {
    && (forall k :: 0 <= k < n ==> ParentOrDefault(paths[k]) in index && paths[k] in index[ParentOrDefault(paths[k])])
    && (forall f :: f in index ==> |index[f]| > 0 && Distinct(index[f]))
    && (forall f, q :: f in index && q in index[f] ==> q in paths[..n] && ParentOrDefault(q) == f)
  }

  /** `getSourceFoldersToInputsIndex`: the inputs grouped by parent folder. */
  method SourceFoldersToInputsIndex(paths: seq<Path>) returns (index: map<Path, seq<Path>>)
    requires Distinct(paths)
    ensures forall i :: 0 <= i < |paths| ==>
              ParentOrDefault(paths[i]) in index && paths[i] in index[ParentOrDefault(paths[i])]
    ensures forall f :: f in index ==> |index[f]| > 0 && Distinct(index[f])
    ensures forall f, q :: f in index && q in index[f] ==> q in paths && ParentOrDefault(q) == f
  {
    index := map[];
    var n := 0;
    while n < |paths|
      invariant n <= |paths|
      invariant Indexed(paths, n, index)
    {
      var p := paths[n];
      var f := ParentOrDefault(p);
      var before := index;
      var filed := if f in index then index[f] else [];
      index := index[f := filed + [p]];
      IndexStep(paths, n, before, index);
      n := n + 1;
    }
    assert paths[..n] == paths;
  }

  lemma IndexStep(paths: seq<Path>, n: nat, before: map<Path, seq<Path>>, after: map<Path, seq<Path>>)
    requires Distinct(paths) && n < |paths|
    requires Indexed(paths, n, before)
    requires var f := ParentOrDefault(paths[n]);
      after == before[f := (if f in before then before[f] else []) + [paths[n]]]
    ensures Indexed(paths, n + 1, after)
  {
    var p := paths[n];
    var f := ParentOrDefault(p);
    assert paths[..n + 1] == paths[..n] + [p];
    assert p !in paths[..n] by {
      forall k | 0 <= k < n ensures paths[..n][k] != p { assert paths[..n][k] == paths[k]; }
    }
    if f in before {
      var s := before[f] + [p];
      forall i, j | 0 <= i < j < |s| ensures s[i] != s[j] {
        if j == |s| - 1 { assert s[i] in before[f]; }
      }
    }
    forall g, q | g in after && q in after[g] ensures q in paths[..n + 1] && ParentOrDefault(q) == g {
      if g == f && q == p {
      } else if g == f && f in before {
        assert q in before[f];
      }
    }
  }

  /** Every input is filed under exactly one folder: its parent's. */
  lemma InputFiledOnce(paths: seq<Path>, index: map<Path, seq<Path>>, q: Path, f: Path, g: Path)
    requires forall k, x :: k in index && x in index[k] ==> x in paths && ParentOrDefault(x) == k
    requires f in index && g in index && q in index[f] && q in index[g]
    ensures f == g
  {
    assert ParentOrDefault(q) == f;
    assert ParentOrDefault(q) == g;
  }

  // ---------------------------------------------------------------------
  // Target nodes
  // ---------------------------------------------------------------------

  /** A build target by the two spellings the factory reads. */
  datatype BuildTarget = BuildTarget(fullyQualifiedName: string, shortNameAndFlavorPostfix: string)

  /** Whether a source is a plain `PathSourcePath`. */
  datatype SourceKind = PathSource | OtherSource

  datatype TargetNode = TargetNode(
    target: BuildTarget,
    cls: DescriptionClass,
    inputs: seq<Path>,
    deps: seq<BuildTarget>,
    sourceLevel: Option<string>,
    targetLevel: Option<string>,
    srcs: seq<SourceKind>,
    annotationProcessors: seq<string>,
    metaInfDirectory: Option<Path>,
    jvmLibraryArg: bool)  // whether the constructor argument is a `JvmLibraryArg`

  /** Rules that add the node's input folders and configured generated
      sources (`addDepsAndSources` / `addDepsAndTestSources`). */
  predicate AddsDepsAndFolders(cls: DescriptionClass) {
    cls in {AndroidLibrary, JavaLibrary, JavaTest, RobolectricTest, GroovyLibrary, GroovyTest, KotlinLibrary, KotlinTest}
  }

  /** Rules that add source folders for the node's inputs. */
  predicate AddsSourceFolders(cls: DescriptionClass) {
    AddsDepsAndFolders(cls) || cls == CxxLibrary
  }

  /** Rules that call `addCompiledShadowIfNeeded`. */
  predicate MayAddCompileShadow(cls: DescriptionClass) {
    cls in {AndroidLibrary, JavaLibrary, JavaTest, RobolectricTest}
  }

  /** Rules that create the Android facet. */
  predicate CreatesAndroidFacet(cls: DescriptionClass) {
    cls in {AndroidBinary, AndroidLibrary, AndroidResource, RobolectricTest}
  }

  // ---------------------------------------------------------------------
  // Compile shadows
  // ---------------------------------------------------------------------

  /** `containsNonSourcePath`. */
  function ContainsNonSourcePath(srcs: seq<SourceKind>): (r: bool)
    ensures r <==> exists i :: 0 <= i < |srcs| && srcs[i] == OtherSource
  {
    if srcs == [] then false
    else if srcs[0] == OtherSource then true
    else
      var r := ContainsNonSourcePath(srcs[1..]);
      assert r ==> exists i :: 0 <= i < |srcs| && srcs[i] == OtherSource by {
        if r { var i :| 0 <= i < |srcs[1..]| && srcs[1..][i] == OtherSource; assert srcs[i + 1] == OtherSource; }
      }
      assert (exists i :: 0 <= i < |srcs| && srcs[i] == OtherSource) ==> r by {
        if exists i :: 0 <= i < |srcs| && srcs[i] == OtherSource {
          var i :| 0 <= i < |srcs| && srcs[i] == OtherSource;
          assert srcs[1..][i - 1] == OtherSource;
        }
      }
      r
  }

  /** `addCompiledShadowIfNeeded`: a shadow dependency is added unless
      shadows are excluded, when a source is generated or annotation
      processors run. */
  function NeedsCompileShadow(excludeShadows: bool, node: TargetNode): (r: bool)
    ensures r <==> !excludeShadows &&
                   ((exists i :: 0 <= i < |node.srcs| && node.srcs[i] == OtherSource) || |node.annotationProcessors| > 0)
  {
    if excludeShadows then false
    else ContainsNonSourcePath(node.srcs) || |node.annotationProcessors| > 0
  }

  /** The compile-shadow dependencies the nodes add, in order. */
  function CompileShadowDeps(nodes: seq<TargetNode>, excludeShadows: bool): (r: seq<BuildTarget>)
    ensures forall t :: t in r <==>
              exists i :: 0 <= i < |nodes| && nodes[i].target == t &&
                          MayAddCompileShadow(nodes[i].cls) && NeedsCompileShadow(excludeShadows, nodes[i])
  {
    if nodes == [] then []
    else
      var rest := CompileShadowDeps(nodes[1..], excludeShadows);
      var n := nodes[0];
      var r := (if MayAddCompileShadow(n.cls) && NeedsCompileShadow(excludeShadows, n) then [n.target] else []) + rest;
      forall t ensures t in r <==>
        exists i :: 0 <= i < |nodes| && nodes[i].target == t &&
                    MayAddCompileShadow(nodes[i].cls) && NeedsCompileShadow(excludeShadows, nodes[i])
      {
        if t in rest {
          var i :| 0 <= i < |nodes[1..]| && nodes[1..][i].target == t &&
                   MayAddCompileShadow(nodes[1..][i].cls) && NeedsCompileShadow(excludeShadows, nodes[1..][i]);
          assert nodes[i + 1] == nodes[1..][i];
        }
        if exists i :: 0 <= i < |nodes| && nodes[i].target == t &&
                       MayAddCompileShadow(nodes[i].cls) && NeedsCompileShadow(excludeShadows, nodes[i]) {
          var i :| 0 <= i < |nodes| && nodes[i].target == t &&
                   MayAddCompileShadow(nodes[i].cls) && NeedsCompileShadow(excludeShadows, nodes[i]);
          if i > 0 { assert nodes[1..][i - 1] == nodes[i]; }
        }
      }
      r
  }

  // ---------------------------------------------------------------------
  // Configured generated sources
  // ---------------------------------------------------------------------

  const NAME_PLACEHOLDER: string := "%name%"

  /** The generated source folder a configured pattern names for `target`;
      `genPath` is `BuildTargets.getGenPath`. */
  function GeneratedSourcePath(target: BuildTarget, pattern: string, genPath: (BuildTarget, string) -> Path): Path {
    genPath(target, Strings.ReplaceAll(pattern, NAME_PLACEHOLDER, target.shortNameAndFlavorPostfix))
  }

  /** `findConfiguredGeneratedSourcePaths`: one folder per dependency that
      the generated-sources map names. */
  function GeneratedSourcePaths(target: BuildTarget, deps: seq<BuildTarget>, depMap: map<string, string>,
                                genPath: (BuildTarget, string) -> Path): (r: set<Path>)
    ensures forall p :: p in r <==>
              exists i :: 0 <= i < |deps| && deps[i].fullyQualifiedName in depMap &&
                          p == GeneratedSourcePath(target, depMap[deps[i].fullyQualifiedName], genPath)
  {
    if deps == [] then {}
    else
      var rest := GeneratedSourcePaths(target, deps[1..], depMap, genPath);
      var name := deps[0].fullyQualifiedName;
      var r := (if name in depMap then {GeneratedSourcePath(target, depMap[name], genPath)} else {}) + rest;
      forall p ensures p in r <==>
        exists i :: 0 <= i < |deps| && deps[i].fullyQualifiedName in depMap &&
                    p == GeneratedSourcePath(target, depMap[deps[i].fullyQualifiedName], genPath)
      {
        if p in rest {
          var i :| 0 <= i < |deps[1..]| && deps[1..][i].fullyQualifiedName in depMap &&
                   p == GeneratedSourcePath(target, depMap[deps[1..][i].fullyQualifiedName], genPath);
          assert deps[i + 1] == deps[1..][i];
        }
        if exists i :: 0 <= i < |deps| && deps[i].fullyQualifiedName in depMap &&
                       p == GeneratedSourcePath(target, depMap[deps[i].fullyQualifiedName], genPath) {
          var i :| 0 <= i < |deps| && deps[i].fullyQualifiedName in depMap &&
                   p == GeneratedSourcePath(target, depMap[deps[i].fullyQualifiedName], genPath);
          if i > 0 { assert deps[1..][i - 1] == deps[i]; }
        }
      }
      r
  }

  /** A pattern without the placeholder names the same folder for every target. */
  lemma PatternWithoutPlaceholder(target: BuildTarget, pattern: string, genPath: (BuildTarget, string) -> Path)
    requires forall i :: 0 <= i <= |pattern| ==> !Strings.OccursAt(pattern, NAME_PLACEHOLDER, i)
    ensures GeneratedSourcePath(target, pattern, genPath) == genPath(target, pattern)
  {
    Strings.ReplaceAllAbsent(pattern, NAME_PLACEHOLDER, target.shortNameAndFlavorPostfix);
  }

  /** Dependencies outside the map contribute nothing. */
  lemma UnmappedDepsContributeNothing(target: BuildTarget, deps: seq<BuildTarget>, depMap: map<string, string>,
                                      genPath: (BuildTarget, string) -> Path)
    requires forall i :: 0 <= i < |deps| ==> deps[i].fullyQualifiedName !in depMap
    ensures GeneratedSourcePaths(target, deps, depMap, genPath) == {}
  {
  }

  // ---------------------------------------------------------------------
  // Java binaries as IntelliJ plugins
  // ---------------------------------------------------------------------

  /** `JavaBinaryModuleRule.apply`: the loop over dependencies that marks
      the module as a plugin at the first IntelliJ SDK dependency. */
  method JavaBinaryPlugin(node: TargetNode, sdkTargets: set<string>) returns (metaInf: Option<Path>)
    ensures metaInf.Some? <==>
              node.metaInfDirectory.Some? &&
              exists i :: 0 <= i < |node.deps| && node.deps[i].fullyQualifiedName in sdkTargets
    ensures metaInf.Some? ==> metaInf == node.metaInfDirectory
  {
    metaInf := None;
    var i := 0;
    while i < |node.deps|
      invariant i <= |node.deps|
      invariant metaInf.None?
      invariant node.metaInfDirectory.Some? ==>
                  forall k :: 0 <= k < i ==> node.deps[k].fullyQualifiedName !in sdkTargets
    {
      if node.metaInfDirectory.Some? && node.deps[i].fullyQualifiedName in sdkTargets {
        metaInf := node.metaInfDirectory;
        break;
      }
      i := i + 1;
    }
  }

  /** Whether a node is a Java binary that marks its module as a plugin. */
  predicate IsPluginBinary(node: TargetNode, sdkTargets: set<string>) {
    && node.cls == JavaBinary
    && node.metaInfDirectory.Some?
    && exists i :: 0 <= i < |node.deps| && node.deps[i].fullyQualifiedName in sdkTargets
  }

  /** The `META-INF` directory of the last plugin-marking Java binary. */
  function PluginMetaInf(nodes: seq<TargetNode>, sdkTargets: set<string>): (r: Option<Path>)
    ensures r.Some? <==> exists i :: 0 <= i < |nodes| && IsPluginBinary(nodes[i], sdkTargets)
    ensures r.Some? ==> exists i :: 0 <= i < |nodes| && IsPluginBinary(nodes[i], sdkTargets) &&
                                    r == nodes[i].metaInfDirectory
  {
    if nodes == [] then None
    else
      var last := nodes[|nodes| - 1];
      var init := nodes[..|nodes| - 1];
      if IsPluginBinary(last, sdkTargets) then last.metaInfDirectory
      else
        var r := PluginMetaInf(init, sdkTargets);
        assert forall i :: 0 <= i < |init| ==> init[i] == nodes[i];
        assert (exists i :: 0 <= i < |nodes| && IsPluginBinary(nodes[i], sdkTargets)) ==>
                 exists i :: 0 <= i < |init| && IsPluginBinary(init[i], sdkTargets) by {
          if exists i :: 0 <= i < |nodes| && IsPluginBinary(nodes[i], sdkTargets) {
            var i :| 0 <= i < |nodes| && IsPluginBinary(nodes[i], sdkTargets);
            assert i < |init|;
            assert init[i] == nodes[i];
          }
        }
        r
  }

  /** The directory is that of the last plugin-marking binary: no later
      node marks the module as a plugin, as `setIsIntellijPlugin` is
      applied in node order. */
  lemma {:induction false} PluginMetaInfIsLast(nodes: seq<TargetNode>, sdkTargets: set<string>)
    ensures var r := PluginMetaInf(nodes, sdkTargets);
            r.Some? ==> exists i :: 0 <= i < |nodes| && IsPluginBinary(nodes[i], sdkTargets) &&
                                    r == nodes[i].metaInfDirectory &&
                                    forall j :: i < j < |nodes| ==> !IsPluginBinary(nodes[j], sdkTargets)
  {
    if nodes != [] {
      var last := nodes[|nodes| - 1];
      var init := nodes[..|nodes| - 1];
      if IsPluginBinary(last, sdkTargets) {
        assert PluginMetaInf(nodes, sdkTargets) == nodes[|nodes| - 1].metaInfDirectory;
      } else {
        var r := PluginMetaInf(init, sdkTargets);
        assert PluginMetaInf(nodes, sdkTargets) == r;
        if r.Some? {
          PluginMetaInfIsLast(init, sdkTargets);
          var i :| 0 <= i < |init| && IsPluginBinary(init[i], sdkTargets) && r == init[i].metaInfDirectory &&
                   forall j :: i < j < |init| ==> !IsPluginBinary(init[j], sdkTargets);
          assert nodes[i] == init[i];
          forall j | i < j < |nodes| ensures !IsPluginBinary(nodes[j], sdkTargets) {
            if j < |init| { assert nodes[j] == init[j]; }
          }
          assert IsPluginBinary(nodes[i], sdkTargets) && r == nodes[i].metaInfDirectory;
        }
      }
    }
  }

  // ---------------------------------------------------------------------
  // Source level
  // ---------------------------------------------------------------------

  /** A Java library whose source or target level differs from the default. */
  predicate OverridesLevels(node: TargetNode, defaultSource: string, defaultTarget: string) {
    && node.cls == JavaLibrary
    && (node.sourceLevel.GetOr(defaultSource) != defaultSource || node.targetLevel.GetOr(defaultTarget) != defaultTarget)
  }

  /** The index of the last node that overrides the default levels. */
  function LastOverriding(nodes: seq<TargetNode>, defaultSource: string, defaultTarget: string): (r: Option<nat>)
    ensures r.None? <==> forall i :: 0 <= i < |nodes| ==> !OverridesLevels(nodes[i], defaultSource, defaultTarget)
    ensures r.Some? ==> r.value < |nodes| && OverridesLevels(nodes[r.value], defaultSource, defaultTarget)
    ensures r.Some? ==> forall j :: r.value < j < |nodes| ==> !OverridesLevels(nodes[j], defaultSource, defaultTarget)
  {
    if nodes == [] then None
    else if OverridesLevels(nodes[|nodes| - 1], defaultSource, defaultTarget) then Some(|nodes| - 1)
    else
      var init := nodes[..|nodes| - 1];
      var r := LastOverriding(init, defaultSource, defaultTarget);
      assert forall i :: 0 <= i < |init| ==> init[i] == nodes[i];
      r
  }

  /** The language level the source promises: the normalised `source` of
      the last overriding Java library, if it names one. */
  function SourceLevelOf(nodes: seq<TargetNode>, defaultSource: string, defaultTarget: string,
                         normalize: string -> string): Option<string>
  {
    match LastOverriding(nodes, defaultSource, defaultTarget)
    case None => None
    case Some(i) => if nodes[i].sourceLevel.Some? then Some(normalize(nodes[i].sourceLevel.value)) else None
  }

  /** `getSourceLevel`: the loop as written, over the nodes in order;
      `normalize` is `JavaLanguageLevelHelper.normalizeSourceLevel`. */
  method SourceLevel(nodes: seq<TargetNode>, defaultSource: string, defaultTarget: string,
                     normalize: string -> string) returns (level: Option<string>)
    ensures level == SourceLevelOf(nodes, defaultSource, defaultTarget, normalize)
    ensures (forall i :: 0 <= i < |nodes| ==> !OverridesLevels(nodes[i], defaultSource, defaultTarget)) ==> level.None?
  {
    var result: Option<string> := None;
    var n := 0;
    while n < |nodes|
      invariant n <= |nodes|
      invariant result == LastSource(nodes[..n], defaultSource, defaultTarget)
    {
      if OverridesLevels(nodes[n], defaultSource, defaultTarget) {
        result := nodes[n].sourceLevel;
      }
      assert nodes[..n + 1][..n] == nodes[..n];
      n := n + 1;
    }
    assert nodes[..n] == nodes;
    if result.Some? {
      level := Some(normalize(result.value));
    } else {
      level := None;
    }
  }

  /** The raw `source` of the last overriding node. */
  function LastSource(nodes: seq<TargetNode>, defaultSource: string, defaultTarget: string): Option<string> {
    match LastOverriding(nodes, defaultSource, defaultTarget)
    case None => None
    case Some(i) => nodes[i].sourceLevel
  }

  // ---------------------------------------------------------------------
  // SDK selection and module creation
  // ---------------------------------------------------------------------

  const SDK_TYPE_JAVA: string := "JavaSDK"
  const SDK_TYPE_ANDROID: string := "Android SDK"
  const SDK_TYPE_IDEA: string := "IDEA JDK"

  datatype ModuleType = DefaultModule | PluginModule

  datatype Sdk = Sdk(sdkType: string, sdkName: Option<string>)

  /** The SDK of a module: the IntelliJ SDK for plugins, else the Android
      SDK for modules with an Android facet, else the Java SDK; a
      configured type overrides the built-in one. */
  function SelectSdk(moduleType: ModuleType, hasAndroidFacet: bool, config: IjConfig.IjProjectConfig): (r: Sdk)
    ensures moduleType == PluginModule ==> r == Sdk(SDK_TYPE_IDEA, config.intellijModuleSdkName)
    ensures moduleType == DefaultModule && hasAndroidFacet ==>
              r == Sdk(config.androidModuleSdkType.GetOr(SDK_TYPE_ANDROID), config.androidModuleSdkName)
    ensures moduleType == DefaultModule && !hasAndroidFacet ==>
              r == Sdk(config.javaModuleSdkType.GetOr(SDK_TYPE_JAVA), config.javaModuleSdkName)
  {
    if moduleType == PluginModule then Sdk(SDK_TYPE_IDEA, config.intellijModuleSdkName)
    else if hasAndroidFacet then Sdk(config.androidModuleSdkType.GetOr(SDK_TYPE_ANDROID), config.androidModuleSdkName)
    else Sdk(config.javaModuleSdkType.GetOr(SDK_TYPE_JAVA), config.javaModuleSdkName)
  }

  /** The SDK type names its kind unless one is configured. */
  lemma UnconfiguredSdkType(moduleType: ModuleType, hasAndroidFacet: bool, config: IjConfig.IjProjectConfig)
    requires config.androidModuleSdkType.None? && config.javaModuleSdkType.None?
    ensures SelectSdk(moduleType, hasAndroidFacet, config).sdkType ==
              if moduleType == PluginModule then SDK_TYPE_IDEA
              else if hasAndroidFacet then SDK_TYPE_ANDROID
              else SDK_TYPE_JAVA
  {
  }

  /** A module as far as these decisions describe it. */
  datatype IjModule = IjModule(
    moduleBasePath: Path,
    targets: seq<BuildTarget>,
    sourceFolders: set<Path>,
    generatedSourceFolders: set<Path>,
    compileShadowDeps: seq<BuildTarget>,
    resourceFolders: set<Path>,
    excludeFolders: set<Path>,
    extraClassPathDependencies: set<Path>,
    hasAndroidFacet: bool,
    androidGenPath: Option<Path>,
    sdk: Sdk,
    languageLevel: Option<string>,
    moduleType: ModuleType,
    metaInfDirectory: Option<Path>)

  datatype ModuleError = NoTargets | NoRule(cls: DescriptionClass)

  /** The first node whose class has no indexed rule. */
  function FirstUnindexed(nodes: seq<TargetNode>, index: set<DescriptionClass>): (r: Option<DescriptionClass>)
    ensures r.None? <==> forall i :: 0 <= i < |nodes| ==> nodes[i].cls in index
    ensures r.Some? ==> r.value !in index && exists i :: 0 <= i < |nodes| && nodes[i].cls == r.value
  {
    if nodes == [] then None
    else if nodes[0].cls !in index then Some(nodes[0].cls)
    else
      var r := FirstUnindexed(nodes[1..], index);
      assert forall i :: 0 < i < |nodes| ==> nodes[i] == nodes[1..][i - 1];
      r
  }

  /** Folders of every node whose rule adds its inputs as source folders. */
  function SourceFolders(nodes: seq<TargetNode>): (r: set<Path>)
    ensures forall f :: f in r <==>
              exists i, j :: 0 <= i < |nodes| && AddsSourceFolders(nodes[i].cls) &&
                             0 <= j < |nodes[i].inputs| && f == ParentOrDefault(nodes[i].inputs[j])
  {
    set i, j | 0 <= i < |nodes| && AddsSourceFolders(nodes[i].cls) && 0 <= j < |nodes[i].inputs|
             :: ParentOrDefault(nodes[i].inputs[j])
  }

  /** Configured generated-source folders of every node whose rule adds them. */
  function GeneratedFolders(nodes: seq<TargetNode>, depMap: map<string, string>,
                            genPath: (BuildTarget, string) -> Path): (r: set<Path>)
    ensures forall p :: p in r <==>
              exists i :: 0 <= i < |nodes| && AddsDepsAndFolders(nodes[i].cls) &&
                          p in GeneratedSourcePaths(nodes[i].target, nodes[i].deps, depMap, genPath)
  {
    set i, p | 0 <= i < |nodes| && AddsDepsAndFolders(nodes[i].cls) &&
               p in GeneratedSourcePaths(nodes[i].target, nodes[i].deps, depMap, genPath) :: p
  }

  /** What the module-factory resolver answers for a target. The resolver
      itself is not part of this model. */
  datatype Resolver = Resolver(
    annotationOutputPath: BuildTarget -> Option<Path>,
    androidResourcePath: BuildTarget -> Option<Path>,
    dummyRDotJavaPath: BuildTarget -> Option<Path>)

  /** `addAnnotationOutputIfNeeded`: the annotation-processor output of every
      JVM library whose rule adds folders. */
  function AnnotationFolders(nodes: seq<TargetNode>, resolver: Resolver): (r: set<Path>)
    ensures forall p :: p in r <==>
              exists i :: 0 <= i < |nodes| && AddsDepsAndFolders(nodes[i].cls) && nodes[i].jvmLibraryArg &&
                          resolver.annotationOutputPath(nodes[i].target) == Some(p)
  {
    set i | 0 <= i < |nodes| && AddsDepsAndFolders(nodes[i].cls) && nodes[i].jvmLibraryArg &&
            resolver.annotationOutputPath(nodes[i].target).Some?
          :: resolver.annotationOutputPath(nodes[i].target).value
  }

  /** The `AndroidResourceFolder`s: the resource path of every Android
      resource that has one. */
  function ResourceFolders(nodes: seq<TargetNode>, resolver: Resolver): (r: set<Path>)
    ensures forall p :: p in r <==>
              exists i :: 0 <= i < |nodes| && nodes[i].cls == AndroidResource &&
                          resolver.androidResourcePath(nodes[i].target) == Some(p)
  {
    set i | 0 <= i < |nodes| && nodes[i].cls == AndroidResource && resolver.androidResourcePath(nodes[i].target).Some?
          :: resolver.androidResourcePath(nodes[i].target).value
  }

  /** The `ExcludeFolder`s: every excluded resource path resolved against
      every resource folder. */
  function ExcludeFolders(nodes: seq<TargetNode>, resolver: Resolver, excluded: set<string>): (r: set<Path>)
    ensures forall f :: f in r <==>
              exists res, e :: res in ResourceFolders(nodes, resolver) && e in excluded &&
                               f == Resolve(res, ParsePath(e))
  {
    set res, e | res in ResourceFolders(nodes, resolver) && e in excluded :: Resolve(res, ParsePath(e))
  }

  /** The extra class-path entries: the dummy `R.java` classes of Android
      libraries and resources, where the resolver gives them. */
  function ExtraClassPath(nodes: seq<TargetNode>, resolver: Resolver): (r: set<Path>)
    ensures forall p :: p in r <==>
              exists i :: 0 <= i < |nodes| && nodes[i].cls in {AndroidLibrary, AndroidResource} &&
                          resolver.dummyRDotJavaPath(nodes[i].target) == Some(p)
  {
    set i | 0 <= i < |nodes| && nodes[i].cls in {AndroidLibrary, AndroidResource} &&
            resolver.dummyRDotJavaPath(nodes[i].target).Some?
          :: resolver.dummyRDotJavaPath(nodes[i].target).value
  }

  /** `createAndroidGenPath`: `<android gen dir>/<module base path>/gen`. */
  function AndroidGenPath(androidGenDir: Path, basePath: Path): (r: Path)
    ensures !basePath.absolute ==> r.absolute == androidGenDir.absolute &&
                                   r.names == androidGenDir.names + basePath.names + ["gen"]
    ensures basePath.absolute ==> r == Path(true, basePath.names + ["gen"])
  {
    Resolve(Resolve(androidGenDir, basePath), Name("gen"))
  }

  /** The module `createModule` builds once every node has a rule: what
      the rules contribute, the SDK and the language level. */
  function Assemble(basePath: Path, nodes: seq<TargetNode>,
                    config: IjConfig.IjProjectConfig, excludeShadows: bool,
                    defaultSource: string, defaultTarget: string,
                    normalize: string -> string, genPath: (BuildTarget, string) -> Path,
                    resolver: Resolver, androidGenDir: Path)
    : (m: IjModule)
    ensures
      && |m.targets| == |nodes|
      && (forall i :: 0 <= i < |nodes| ==> m.targets[i] == nodes[i].target)
      && (m.moduleType == PluginModule <==>
            exists i :: 0 <= i < |nodes| && IsPluginBinary(nodes[i], config.intellijSdkTargets))
      && (m.metaInfDirectory.Some? <==> m.moduleType == PluginModule)
      && (m.hasAndroidFacet <==> exists i :: 0 <= i < |nodes| && CreatesAndroidFacet(nodes[i].cls))
      && m.sdk == SelectSdk(m.moduleType, m.hasAndroidFacet, config)
      && m.languageLevel == SourceLevelOf(nodes, defaultSource, defaultTarget, normalize)
      && m.sourceFolders == SourceFolders(nodes)
      && m.generatedSourceFolders ==
           GeneratedFolders(nodes, config.depToGeneratedSourcesMap, genPath) + AnnotationFolders(nodes, resolver)
      && m.compileShadowDeps == CompileShadowDeps(nodes, excludeShadows)
      && m.resourceFolders == ResourceFolders(nodes, resolver)
      && m.excludeFolders == ExcludeFolders(nodes, resolver, config.excludedResourcePaths)
      && m.extraClassPathDependencies == ExtraClassPath(nodes, resolver)
      && (m.androidGenPath.Some? <==> m.hasAndroidFacet && m.moduleType == DefaultModule)
      && (m.androidGenPath.Some? ==> m.androidGenPath.value == AndroidGenPath(androidGenDir, basePath))
  {
    var metaInf := PluginMetaInf(nodes, config.intellijSdkTargets);
    var moduleType := if metaInf.Some? then PluginModule else DefaultModule;
    var facet := exists i :: 0 <= i < |nodes| && CreatesAndroidFacet(nodes[i].cls);
    IjModule(
      basePath,
      seq(|nodes|, i requires 0 <= i < |nodes| => nodes[i].target),
      SourceFolders(nodes),
      GeneratedFolders(nodes, config.depToGeneratedSourcesMap, genPath) + AnnotationFolders(nodes, resolver),
      CompileShadowDeps(nodes, excludeShadows),
      ResourceFolders(nodes, resolver),
      ExcludeFolders(nodes, resolver, config.excludedResourcePaths),
      ExtraClassPath(nodes, resolver),
      facet,
      if facet && moduleType == DefaultModule then Some(AndroidGenPath(androidGenDir, basePath)) else None,
      SelectSdk(moduleType, facet, config),
      SourceLevelOf(nodes, defaultSource, defaultTarget, normalize),
      moduleType,
      if moduleType == PluginModule then metaInf else None)
  }

  /** `createModule`: rejects an empty node set and a node without a rule;
      otherwise combines what the rules contribute with the SDK and the
      language level. */
  function CreateModule(basePath: Path, nodes: seq<TargetNode>, index: set<DescriptionClass>,
                        config: IjConfig.IjProjectConfig, excludeShadows: bool,
                        defaultSource: string, defaultTarget: string,
                        normalize: string -> string, genPath: (BuildTarget, string) -> Path,
                        resolver: Resolver, androidGenDir: Path)
    : (r: Result<IjModule, ModuleError>)
    ensures nodes == [] <==> r == Failure(NoTargets)
    ensures r.Success? <==> nodes != [] && forall i :: 0 <= i < |nodes| ==> nodes[i].cls in index
    ensures r.Failure? && nodes != [] ==> r.error.NoRule? && r.error.cls !in index
    ensures r.Success? ==>
      && |r.value.targets| == |nodes|
      && (forall i :: 0 <= i < |nodes| ==> r.value.targets[i] == nodes[i].target)
      && (r.value.moduleType == PluginModule <==>
            exists i :: 0 <= i < |nodes| && IsPluginBinary(nodes[i], config.intellijSdkTargets))
      && (r.value.metaInfDirectory.Some? <==> r.value.moduleType == PluginModule)
      && (r.value.hasAndroidFacet <==> exists i :: 0 <= i < |nodes| && CreatesAndroidFacet(nodes[i].cls))
      && r.value.sdk == SelectSdk(r.value.moduleType, r.value.hasAndroidFacet, config)
      && r.value.languageLevel == SourceLevelOf(nodes, defaultSource, defaultTarget, normalize)
      && r.value.sourceFolders == SourceFolders(nodes)
      && r.value.generatedSourceFolders ==
           GeneratedFolders(nodes, config.depToGeneratedSourcesMap, genPath) + AnnotationFolders(nodes, resolver)
      && r.value.compileShadowDeps == CompileShadowDeps(nodes, excludeShadows)
      && r.value.resourceFolders == ResourceFolders(nodes, resolver)
      && r.value.excludeFolders == ExcludeFolders(nodes, resolver, config.excludedResourcePaths)
      && r.value.extraClassPathDependencies == ExtraClassPath(nodes, resolver)
      && (r.value.androidGenPath.Some? <==> r.value.hasAndroidFacet && r.value.moduleType == DefaultModule)
      && (r.value.androidGenPath.Some? ==> r.value.androidGenPath.value == AndroidGenPath(androidGenDir, basePath))
  {
    if nodes == [] then Failure(NoTargets)
    else
      match FirstUnindexed(nodes, index)
      case Some(cls) => Failure(NoRule(cls))
      case None =>
        Success(Assemble(basePath, nodes, config, excludeShadows, defaultSource, defaultTarget,
                         normalize, genPath, resolver, androidGenDir))
  }

  /** Resource folders, exclude folders and dummy `R.java` class-path entries
      come only from Android rules, which all create the Android facet. */
  lemma AndroidOutputsNeedFacet(nodes: seq<TargetNode>, resolver: Resolver, excluded: set<string>)
    ensures (ResourceFolders(nodes, resolver) != {} || ExcludeFolders(nodes, resolver, excluded) != {} ||
             ExtraClassPath(nodes, resolver) != {})
              ==> exists i :: 0 <= i < |nodes| && CreatesAndroidFacet(nodes[i].cls)
  {
    if ExcludeFolders(nodes, resolver, excluded) != {} {
      var f :| f in ExcludeFolders(nodes, resolver, excluded);
      var res, e :| res in ResourceFolders(nodes, resolver) && e in excluded && f == Resolve(res, ParsePath(e));
    }
    if ExtraClassPath(nodes, resolver) != {} {
      var p :| p in ExtraClassPath(nodes, resolver);
      var i :| 0 <= i < |nodes| && nodes[i].cls in {AndroidLibrary, AndroidResource} &&
               resolver.dummyRDotJavaPath(nodes[i].target) == Some(p);
      assert CreatesAndroidFacet(nodes[i].cls);
    }
  }

  /** With relative excluded paths, every exclude folder lies inside one of
      the resource folders. */
  lemma ExcludeFoldersInsideResources(nodes: seq<TargetNode>, resolver: Resolver, excluded: set<string>)
    requires forall e :: e in excluded ==> e == "" || e[0] != '/'
    ensures forall f :: f in ExcludeFolders(nodes, resolver, excluded) ==>
              exists res :: res in ResourceFolders(nodes, resolver) &&
                            f.absolute == res.absolute && |res.names| <= |f.names| && f.names[..|res.names|] == res.names
  {
    forall f | f in ExcludeFolders(nodes, resolver, excluded)
      ensures exists res :: res in ResourceFolders(nodes, resolver) &&
                            f.absolute == res.absolute && |res.names| <= |f.names| && f.names[..|res.names|] == res.names
    {
      var res, e :| res in ResourceFolders(nodes, resolver) && e in excluded && f == Resolve(res, ParsePath(e));
      assert f.names == res.names + ParsePath(e).names;
      assert f.names[..|res.names|] == res.names;
    }
  }

  /** A module made only of C++ libraries gets source folders and nothing
      the Java or Android rules add. */
  lemma CxxOnlyModule(nodes: seq<TargetNode>, depMap: map<string, string>, genPath: (BuildTarget, string) -> Path,
                      resolver: Resolver, excluded: set<string>, excludeShadows: bool)
    requires forall i :: 0 <= i < |nodes| ==> nodes[i].cls == CxxLibrary
    ensures GeneratedFolders(nodes, depMap, genPath) == {} && AnnotationFolders(nodes, resolver) == {}
    ensures CompileShadowDeps(nodes, excludeShadows) == []
    ensures ResourceFolders(nodes, resolver) == {} && ExcludeFolders(nodes, resolver, excluded) == {}
    ensures ExtraClassPath(nodes, resolver) == {}
    ensures !exists i :: 0 <= i < |nodes| && CreatesAndroidFacet(nodes[i].cls)
  {
    AndroidOutputsNeedFacet(nodes, resolver, excluded);
  }
}
