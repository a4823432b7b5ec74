/** The `prebuilt_cxx_library` rule: where its library files are looked
    for, its soname, its preferred linkage, the link input it hands to
    dependents (memoised per platform flavor and dependency type), its
    shared libraries, and the versioned sub-directory check. */
module PrebuiltCxx {
  import opened Wrappers
  import opened Paths
  import Strings

  // ---------------------------------------------------------------------
  // Source paths
  // ---------------------------------------------------------------------

  /** A source path: a file in the repository, or a file produced by a
      build rule (an explicit output path of a build target, or the
      output of a rule the library requires). */
  datatype SourcePath =
    | PathSource(path: Path)
    | BuildTargetSource(owner: string, path: Path)
    | RuleOutput(rule: RequiredRule)

  /** Rules this library asks the resolver for, on one platform flavor. */
  datatype RequiredRule = SharedInterfaceRule(flavor: string) | SharedLinkRule(flavor: string)

  predicate IsBuildTargetSourcePath(p: SourcePath) {
    p.BuildTargetSource? || p.RuleOutput?
  }

  /** A macro that could not be expanded, reported against the target. */
  datatype MacroError = MacroError(target: string, message: string)

  /** The macro handler of one platform (`$(location …)`, `$(platform)`):
      expanding a string, and the build rules a string depends on at build
      time (`None` when extracting them fails). */
  datatype MacroHandler = MacroHandler(
    expand: string -> Result<string, string>,
    buildTimeDeps: string -> Option<seq<string>>)

  /** The target owning the library. */
  datatype Target = Target(name: string, shortName: string, basePath: Path)

  function ExpandMacros(h: MacroHandler, target: Target, s: string): (r: Result<string, MacroError>)
    ensures r.Success? <==> h.expand(s).Success?
    ensures r.Success? ==> r.value == h.expand(s).value
  {
    match h.expand(s)
    case Success(v) => Success(v)
    case Failure(msg) => Failure(MacroError(target.name, msg))
  }

  /** `getApplicableSourcePath`: the library directory (macro-expanded,
      under the version sub-directory when one is selected), with
      `added` appended. Without build-time deps the result is a repository
      path under the target's base path and `added` is macro-expanded too;
      with deps it is an output path of the first dep, relative to the
      project root, and `added` is used as written. A failure to extract
      the deps counts as having none. */
  function ApplicableSourcePath(h: MacroHandler, target: Target, projectRoot: Path,
                                versionSubDir: Option<string>, basePathString: string,
                                added: Option<string>)
    : (r: Result<SourcePath, MacroError>)
    ensures r.Failure? <==> h.expand(basePathString).Failure? ||
                            (h.buildTimeDeps(basePathString).GetOr([]) == [] && added.Some? &&
                             h.expand(added.value).Failure?)
    ensures r.Success? && h.buildTimeDeps(basePathString).GetOr([]) == [] ==> r.value.PathSource?
    ensures r.Success? && h.buildTimeDeps(basePathString).GetOr([]) != [] ==>
              r.value.BuildTargetSource? && r.value.owner == h.buildTimeDeps(basePathString).value[0]
  {
    var deps := h.buildTimeDeps(basePathString).GetOr([]);
    match ExpandMacros(h, target, basePathString)
    case Failure(e) => Failure(e)
    case Success(libDirString) =>
      var libDirPath := UnderVersion(versionSubDir, ParsePath(libDirString));
      if deps == [] then
        match added
        case None => Success(PathSource(Resolve(target.basePath, libDirPath)))
        case Some(a) =>
          match ExpandMacros(h, target, a)
          case Failure(e) => Failure(e)
          case Success(expanded) => Success(PathSource(Resolve(target.basePath, Resolve(libDirPath, ParsePath(expanded)))))
      else
        var p := Resolve(projectRoot, libDirPath);
        var p' := if added.Some? then Resolve(p, ParsePath(added.value)) else p;
        Success(BuildTargetSource(deps[0], Relativize(projectRoot, p')))
  }

  /** The library directory under the version sub-directory, if any. */
  function UnderVersion(versionSubDir: Option<string>, libDir: Path): (r: Path)
    ensures !libDir.absolute && RelativeVersion(versionSubDir) ==>
              !r.absolute && r.names == VersionNames(versionSubDir) + libDir.names
  {
    if versionSubDir.Some? then Resolve(ParsePath(versionSubDir.value), libDir) else libDir
  }

  /** The names a version sub-directory puts in front of the library
      directory. */
  function VersionNames(versionSubDir: Option<string>): seq<string> {
    if versionSubDir.Some? then ParsePath(versionSubDir.value).names else []
  }

  predicate RelativeVersion(versionSubDir: Option<string>) {
    versionSubDir.None? || !ParsePath(versionSubDir.value).absolute
  }

  /** Without deps and with relative paths throughout, the result is the
      target's base path, then the version sub-directory, then the
      expanded library directory, then the expanded added path. */
  lemma RepositoryPathNames(h: MacroHandler, target: Target, projectRoot: Path, versionSubDir: Option<string>,
                            basePathString: string, added: Option<string>)
    requires h.buildTimeDeps(basePathString).GetOr([]) == []
    requires h.expand(basePathString).Success? && !ParsePath(h.expand(basePathString).value).absolute
    requires !target.basePath.absolute && RelativeVersion(versionSubDir)
    requires added.Some? ==> h.expand(added.value).Success? && !ParsePath(h.expand(added.value).value).absolute
    ensures ApplicableSourcePath(h, target, projectRoot, versionSubDir, basePathString, added)
            == Success(PathSource(Path(false, target.basePath.names + VersionNames(versionSubDir)
                                              + ParsePath(h.expand(basePathString).value).names
                                              + (if added.Some? then ParsePath(h.expand(added.value).value).names else []))))
  {
    var names := target.basePath.names + VersionNames(versionSubDir) + ParsePath(h.expand(basePathString).value).names;
    if added.Some? {
      RepositoryFilePath(h, target, projectRoot, versionSubDir, basePathString, added.value);
    } else {
      RepositoryDirPath(h, target, projectRoot, versionSubDir, basePathString);
      assert names + [] == names;
    }
  }

  lemma RepositoryFilePath(h: MacroHandler, target: Target, projectRoot: Path, versionSubDir: Option<string>,
                           basePathString: string, added: string)
    requires h.buildTimeDeps(basePathString).GetOr([]) == []
    requires h.expand(basePathString).Success? && !ParsePath(h.expand(basePathString).value).absolute
    requires !target.basePath.absolute && RelativeVersion(versionSubDir)
    requires h.expand(added).Success? && !ParsePath(h.expand(added).value).absolute
    ensures ApplicableSourcePath(h, target, projectRoot, versionSubDir, basePathString, Some(added))
            == Success(PathSource(Path(false, target.basePath.names + VersionNames(versionSubDir)
                                              + ParsePath(h.expand(basePathString).value).names
                                              + ParsePath(h.expand(added).value).names)))
  {
    var libDir := ParsePath(h.expand(basePathString).value);
    var addedPath := ParsePath(h.expand(added).value);
    UnfoldRepositoryFile(h, target, projectRoot, versionSubDir, basePathString, added);
    ResolveThree(target.basePath, UnderVersion(versionSubDir, libDir), addedPath, VersionNames(versionSubDir), libDir.names);
  }

  /** The no-deps branch of `ApplicableSourcePath` for an added file. */
  lemma UnfoldRepositoryFile(h: MacroHandler, target: Target, projectRoot: Path, versionSubDir: Option<string>,
                             basePathString: string, added: string)
    requires h.buildTimeDeps(basePathString).GetOr([]) == []
    requires h.expand(basePathString).Success? && h.expand(added).Success?
    ensures ApplicableSourcePath(h, target, projectRoot, versionSubDir, basePathString, Some(added))
            == Success(PathSource(Resolve(target.basePath,
                                          Resolve(UnderVersion(versionSubDir, ParsePath(h.expand(basePathString).value)),
                                                  ParsePath(h.expand(added).value)))))
  {
  }

  lemma ResolveThree(base: Path, dir: Path, file: Path, v: seq<string>, l: seq<string>)
    requires !base.absolute && !file.absolute && dir == Path(false, v + l)
    ensures Resolve(base, Resolve(dir, file)) == Path(false, base.names + v + l + file.names)
  {
    assert base.names + (v + l + file.names) == base.names + v + l + file.names;
  }

  lemma RepositoryDirPath(h: MacroHandler, target: Target, projectRoot: Path, versionSubDir: Option<string>,
                          basePathString: string)
    requires h.buildTimeDeps(basePathString).GetOr([]) == []
    requires h.expand(basePathString).Success? && !ParsePath(h.expand(basePathString).value).absolute
    requires !target.basePath.absolute && RelativeVersion(versionSubDir)
    ensures ApplicableSourcePath(h, target, projectRoot, versionSubDir, basePathString, None)
            == Success(PathSource(Path(false, target.basePath.names + VersionNames(versionSubDir)
                                              + ParsePath(h.expand(basePathString).value).names)))
  {
    var libDir := ParsePath(h.expand(basePathString).value);
    var libDirPath := UnderVersion(versionSubDir, libDir);
    assert ApplicableSourcePath(h, target, projectRoot, versionSubDir, basePathString, None)
           == Success(PathSource(Resolve(target.basePath, libDirPath)));
    var b, v, l := target.basePath.names, VersionNames(versionSubDir), libDir.names;
    assert libDirPath == Path(false, v + l);
    assert b + (v + l) == b + v + l;
  }

  /** Without deps, an added path that expands to an absolute path
      replaces everything before it. */
  lemma AbsoluteAddedPathWins(h: MacroHandler, target: Target, projectRoot: Path, versionSubDir: Option<string>,
                              basePathString: string, added: string)
    requires h.buildTimeDeps(basePathString).GetOr([]) == []
    requires h.expand(basePathString).Success?
    requires h.expand(added).Success? && ParsePath(h.expand(added).value).absolute
    ensures ApplicableSourcePath(h, target, projectRoot, versionSubDir, basePathString, Some(added))
            == Success(PathSource(ParsePath(h.expand(added).value)))
  {
  }

  /** With deps, the result is an output path of the first dep: the
      version sub-directory, the expanded library directory and the added
      path as written, relative to the project root whatever that root
      is. */
  lemma RuleOutputPathIsRelative(h: MacroHandler, target: Target, projectRoot: Path, versionSubDir: Option<string>,
                                 basePathString: string, added: string)
    requires h.buildTimeDeps(basePathString).Some? && h.buildTimeDeps(basePathString).value != []
    requires h.expand(basePathString).Success?
    requires RelativeVersion(versionSubDir)
    requires !ParsePath(h.expand(basePathString).value).absolute && !ParsePath(added).absolute
    ensures ApplicableSourcePath(h, target, projectRoot, versionSubDir, basePathString, Some(added))
            == Success(BuildTargetSource(h.buildTimeDeps(basePathString).value[0],
                                         Path(false, VersionNames(versionSubDir)
                                                     + ParsePath(h.expand(basePathString).value).names
                                                     + ParsePath(added).names)))
  {
    var libDirPath := UnderVersion(versionSubDir, ParsePath(h.expand(basePathString).value));
    var q := Resolve(libDirPath, ParsePath(added));
    ResolveAssociative(projectRoot, libDirPath, ParsePath(added));
    RelativizeResolve(projectRoot, q);
    assert ApplicableSourcePath(h, target, projectRoot, versionSubDir, basePathString, Some(added))
           == Success(BuildTargetSource(h.buildTimeDeps(basePathString).value[0], q));
  }

  /** With a version sub-directory and no deps, the library path starts
      with the target's base path followed by the sub-directory. */
  lemma VersionSubDirIsPrefixed(h: MacroHandler, target: Target, projectRoot: Path,
                                sub: string, basePathString: string, added: Option<string>)
    requires h.buildTimeDeps(basePathString).GetOr([]) == []
    requires h.expand(basePathString).Success? && !ParsePath(h.expand(basePathString).value).absolute
    requires !target.basePath.absolute && !ParsePath(sub).absolute
    requires added.Some? ==> h.expand(added.value).Success? && !ParsePath(h.expand(added.value).value).absolute
    ensures var r := ApplicableSourcePath(h, target, projectRoot, Some(sub), basePathString, added);
            var prefix := target.basePath.names + ParsePath(sub).names;
            && r.Success? && r.value.PathSource?
            && |prefix| <= |r.value.path.names|
            && r.value.path.names[..|prefix|] == prefix
  {
    var r := ApplicableSourcePath(h, target, projectRoot, Some(sub), basePathString, added);
    var l := ParsePath(h.expand(basePathString).value).names;
    var a := if added.Some? then ParsePath(h.expand(added.value).value).names else [];
    RepositoryPathNames(h, target, projectRoot, Some(sub), basePathString, added);
    PrefixOfConcat(r.value.path.names, target.basePath.names, ParsePath(sub).names, l, a);
  }

  lemma PrefixOfConcat<T>(n: seq<T>, b: seq<T>, v: seq<T>, l: seq<T>, a: seq<T>)
    requires n == b + v + l + a
    ensures |b + v| <= |n| && n[..|b + v|] == b + v
  {
    assert n == (b + v) + (l + a);
  }

  // ---------------------------------------------------------------------
  // Library file names and sonames
  // ---------------------------------------------------------------------

  /** The library's name in file names: `lib_name`, or the short name of
      the target. */
  function LibraryName(target: Target, libName: Option<string>): string {
    libName.GetOr(target.shortName)
  }

  /** `lib<name><suffix>`. */
  function LibraryFileName(target: Target, libName: Option<string>, suffix: string): (r: string)
    ensures |r| == 3 + |LibraryName(target, libName)| + |suffix|
    ensures r[..3] == "lib" && r[|r| - |suffix|..] == suffix
    ensures r[3..|r| - |suffix|] == LibraryName(target, libName)
  {
    "lib" + LibraryName(target, libName) + suffix
  }

  /** The library name can be read back from a file name. */
  lemma LibraryFileNameInjective(target: Target, a: Option<string>, b: Option<string>, suffix: string)
    requires LibraryFileName(target, a, suffix) == LibraryFileName(target, b, suffix)
    ensures LibraryName(target, a) == LibraryName(target, b)
  {
    var f := LibraryFileName(target, a, suffix);
    assert LibraryName(target, a) == f[3..|f| - |suffix|];
  }

  datatype LibraryKind = Shared | Static | StaticPic

  /** The suffix of each library kind; `ext` is the platform's shared
      library extension. */
  function Suffix(kind: LibraryKind, ext: string): string {
    match kind
    case Shared => "." + ext
    case Static => ".a"
    case StaticPic => "_pic.a"
  }

  /** The three kinds never share a file name. */
  lemma SuffixesDistinct(ext: string, target: Target, libName: Option<string>)
    requires ext != "a"
    ensures LibraryFileName(target, libName, Suffix(Shared, ext)) != LibraryFileName(target, libName, Suffix(Static, ext))
    ensures LibraryFileName(target, libName, Suffix(Static, ext)) != LibraryFileName(target, libName, Suffix(StaticPic, ext))
  {
    var n := LibraryName(target, libName);
    assert LibraryFileName(target, libName, Suffix(Shared, ext))[3 + |n| + 1..] == ext;
    assert LibraryFileName(target, libName, Suffix(Static, ext))[3 + |n| + 1..] == "a";
    assert |LibraryFileName(target, libName, Suffix(Static, ext))| != |LibraryFileName(target, libName, Suffix(StaticPic, ext))|;
  }

  /** `get*LibraryPath`: the file `lib<name><suffix>` in `lib_dir`
      (default `lib`). */
  function LibraryPath(h: MacroHandler, target: Target, projectRoot: Path, versionSubDir: Option<string>,
                       libDir: Option<string>, libName: Option<string>, kind: LibraryKind, ext: string)
    : (r: Result<SourcePath, MacroError>)
    ensures r.Failure? <==> h.expand(libDir.GetOr("lib")).Failure? ||
                            (h.buildTimeDeps(libDir.GetOr("lib")).GetOr([]) == [] &&
                             h.expand(LibraryFileName(target, libName, Suffix(kind, ext))).Failure?)
    ensures r.Success? ==> (r.value.PathSource? <==> h.buildTimeDeps(libDir.GetOr("lib")).GetOr([]) == [])
  {
    ApplicableSourcePath(h, target, projectRoot, versionSubDir, libDir.GetOr("lib"),
                         Some(LibraryFileName(target, libName, Suffix(kind, ext))))
  }

  /** In the plain case — no deps, no version sub-directory, macros
      expanding to themselves — a library file is the file name inside
      the `lib` directory of the target's package. */
  lemma PlainLibraryPath(h: MacroHandler, t: Target, projectRoot: Path, kind: LibraryKind, ext: string)
    requires h.buildTimeDeps("lib").GetOr([]) == []
    requires !t.basePath.absolute
    requires var f := LibraryFileName(t, None, Suffix(kind, ext));
             && h.expand("lib") == Success("lib") && h.expand(f) == Success(f) && '/' !in f
    ensures LibraryPath(h, t, projectRoot, None, None, None, kind, ext)
            == Success(PathSource(Path(false, t.basePath.names + ["lib", LibraryFileName(t, None, Suffix(kind, ext))])))
  {
    var f := LibraryFileName(t, None, Suffix(kind, ext));
    Strings.SplitNoSeparator("lib", '/');
    Strings.SplitNoSeparator(f, '/');
    assert f != "" by { assert |f| >= 3; }
    assert ParsePath("lib") == Path(false, ["lib"]);
    assert ParsePath(f) == Path(false, [f]);
    var r := ApplicableSourcePath(h, t, projectRoot, None, "lib", Some(f));
    assert r == Success(PathSource(Resolve(t.basePath, Resolve(Path(false, ["lib"]), Path(false, [f])))));
    assert t.basePath.names + (["lib"] + [f]) == t.basePath.names + ["lib", f];
  }

  /** Without deps, the library file is the expanded file name inside the
      expanded library directory, under the version sub-directory, in the
      target's package. */
  lemma LibraryPathInRepository(h: MacroHandler, t: Target, projectRoot: Path, versionSubDir: Option<string>,
                                libDir: Option<string>, libName: Option<string>, kind: LibraryKind, ext: string)
    requires var dir := libDir.GetOr("lib");
             && h.buildTimeDeps(dir).GetOr([]) == []
             && h.expand(dir).Success? && !ParsePath(h.expand(dir).value).absolute
    requires !t.basePath.absolute && RelativeVersion(versionSubDir)
    requires var f := LibraryFileName(t, libName, Suffix(kind, ext));
             && h.expand(f).Success? && '/' !in h.expand(f).value && h.expand(f).value != ""
    ensures LibraryPath(h, t, projectRoot, versionSubDir, libDir, libName, kind, ext)
            == Success(PathSource(Path(false, t.basePath.names + VersionNames(versionSubDir)
                                              + ParsePath(h.expand(libDir.GetOr("lib")).value).names
                                              + [h.expand(LibraryFileName(t, libName, Suffix(kind, ext))).value])))
  {
    var f := LibraryFileName(t, libName, Suffix(kind, ext));
    ParseName(h.expand(f).value);
    RepositoryPathNames(h, t, projectRoot, versionSubDir, libDir.GetOr("lib"), Some(f));
  }

  /** With deps, the library file is an output of the first dep: the file
      name, unexpanded, inside the library directory under the version
      sub-directory. */
  lemma LibraryPathOfRule(h: MacroHandler, t: Target, projectRoot: Path, versionSubDir: Option<string>,
                          libDir: Option<string>, libName: Option<string>, kind: LibraryKind, ext: string)
    requires var dir := libDir.GetOr("lib");
             && h.buildTimeDeps(dir).Some? && h.buildTimeDeps(dir).value != []
             && h.expand(dir).Success? && !ParsePath(h.expand(dir).value).absolute
    requires RelativeVersion(versionSubDir)
    requires '/' !in LibraryFileName(t, libName, Suffix(kind, ext))
    ensures LibraryPath(h, t, projectRoot, versionSubDir, libDir, libName, kind, ext)
            == Success(BuildTargetSource(h.buildTimeDeps(libDir.GetOr("lib")).value[0],
                                         Path(false, VersionNames(versionSubDir)
                                                     + ParsePath(h.expand(libDir.GetOr("lib")).value).names
                                                     + [LibraryFileName(t, libName, Suffix(kind, ext))])))
  {
    var f := LibraryFileName(t, libName, Suffix(kind, ext));
    assert f != "" by { assert |f| >= 3; }
    ParseName(f);
    RuleOutputPathIsRelative(h, t, projectRoot, versionSubDir, libDir.GetOr("lib"), f);
  }

  /** The soname before macro expansion: the configured one, or the file
      name of the shared library. */
  function UnexpandedSoname(target: Target, soname: Option<string>, libName: Option<string>, ext: string): (r: string)
    ensures soname.Some? ==> r == soname.value
    ensures soname.None? ==> r == LibraryFileName(target, libName, Suffix(Shared, ext))
  {
    soname.GetOr("lib" + LibraryName(target, libName) + "." + ext)
  }

  function Soname(h: MacroHandler, target: Target, soname: Option<string>, libName: Option<string>, ext: string)
    : (r: Result<string, MacroError>)
    ensures soname.Some? ==> (r.Success? <==> h.expand(soname.value).Success?)
    ensures soname.Some? && r.Success? ==> r.value == h.expand(soname.value).value
    ensures soname.None? ==> (r.Success? <==> h.expand(LibraryFileName(target, libName, Suffix(Shared, ext))).Success?)
    ensures soname.None? && r.Success? ==> r.value == h.expand(LibraryFileName(target, libName, Suffix(Shared, ext))).value
  {
    ExpandMacros(h, target, UnexpandedSoname(target, soname, libName, ext))
  }

  /** With no soname configured and no macros in the file name, the
      soname is the last name of the shared library's path in the
      repository: the library is known by the file it is stored in. */
  lemma DefaultSonameNamesSharedLibrary(h: MacroHandler, t: Target, projectRoot: Path,
                                        versionSubDir: Option<string>, libDir: Option<string>,
                                        libName: Option<string>, ext: string)
    requires var dir := libDir.GetOr("lib");
             && h.buildTimeDeps(dir).GetOr([]) == []
             && h.expand(dir).Success? && !ParsePath(h.expand(dir).value).absolute
    requires !t.basePath.absolute && RelativeVersion(versionSubDir)
    requires var f := LibraryFileName(t, libName, Suffix(Shared, ext));
             && h.expand(f) == Success(f) && '/' !in f
    ensures var s := Soname(h, t, None, libName, ext);
            var p := LibraryPath(h, t, projectRoot, versionSubDir, libDir, libName, Shared, ext);
            && s.Success? && p.Success? && p.value.PathSource? && |p.value.path.names| > 0
            && p.value.path.names[|p.value.path.names| - 1] == s.value
  {
    var f := LibraryFileName(t, libName, Suffix(Shared, ext));
    assert f != "" by { assert |f| >= 3; }
    LibraryPathInRepository(h, t, projectRoot, versionSubDir, libDir, libName, Shared, ext);
  }

  // ---------------------------------------------------------------------
  // Library lookup
  // ---------------------------------------------------------------------

  /** `getStaticPicLibrary`: the PIC archive when it exists on disk, else the
      plain archive when it exists on disk, else nothing. */
  function StaticPicLibrary(picPath: SourcePath, staticPath: SourcePath, onDisk: SourcePath -> bool)
    : (r: Option<SourcePath>)
    ensures r.Some? <==> onDisk(picPath) || onDisk(staticPath)
    ensures r.Some? ==> onDisk(r.value)
    ensures onDisk(picPath) ==> r == Some(picPath)
  {
    if onDisk(picPath) then Some(picPath)
    else if onDisk(staticPath) then Some(staticPath)
    else None
  }

  /** `requireSharedLibrary(platform, link)`: for linking, the interface
      rule when the library supports one and the platform can make one;
      otherwise the configured shared library when it is a rule output or
      exists on disk; otherwise the rule that links it. */
  function RequireSharedLibrary(link: bool, supportsInterface: bool, hasInterfaceFactory: bool,
                                flavor: string, sharedPath: SourcePath, onDisk: SourcePath -> bool)
    : (r: SourcePath)
    ensures r.PathSource? ==> r == sharedPath && onDisk(sharedPath)
    ensures !(link && supportsInterface && hasInterfaceFactory) && onDisk(sharedPath) ==> r == sharedPath
    ensures link && supportsInterface && hasInterfaceFactory ==> r == RuleOutput(SharedInterfaceRule(flavor))
    ensures !(link && supportsInterface && hasInterfaceFactory) ==>
              (r == sharedPath <==> IsBuildTargetSourcePath(sharedPath) || onDisk(sharedPath))
    ensures r != sharedPath ==> r.RuleOutput? && r.rule.flavor == flavor
    ensures r == RuleOutput(SharedLinkRule(flavor)) && r != sharedPath <==>
              !(link && supportsInterface && hasInterfaceFactory) && sharedPath.PathSource? && !onDisk(sharedPath)
  {
    if link && supportsInterface && hasInterfaceFactory then RuleOutput(SharedInterfaceRule(flavor))
    else if IsBuildTargetSourcePath(sharedPath) || onDisk(sharedPath) then sharedPath
    else RuleOutput(SharedLinkRule(flavor))
  }

  /** Whatever `requireSharedLibrary` returns can be produced: it is the
      output of a build rule or a file that exists on disk. */
  lemma RequiredSharedLibraryIsProduced(link: bool, supportsInterface: bool, hasInterfaceFactory: bool,
                                        flavor: string, sharedPath: SourcePath, onDisk: SourcePath -> bool)
    ensures var r := RequireSharedLibrary(link, supportsInterface, hasInterfaceFactory, flavor, sharedPath, onDisk);
            IsBuildTargetSourcePath(r) || onDisk(r)
  {
  }

  // ---------------------------------------------------------------------
  // Preferred linkage
  // ---------------------------------------------------------------------

  datatype Linkage = ANY | STATIC | SHARED

  function PreferredLinkage(headerOnly: bool, forceStatic: bool, preferred: Option<Linkage>,
                            provided: bool, hasStaticPicLibrary: bool)
    : (r: Linkage)
    ensures headerOnly ==> r == ANY
    ensures !headerOnly && forceStatic ==> r == STATIC
  {
    if headerOnly then ANY
    else if forceStatic then STATIC
    else if preferred.GetOr(ANY) != ANY then preferred.value
    else if provided || !hasStaticPicLibrary then SHARED
    else ANY
  }

  /** The chain, read as one condition per outcome. */
  lemma PreferredLinkageChain(headerOnly: bool, forceStatic: bool, preferred: Option<Linkage>,
                              provided: bool, hasStaticPicLibrary: bool)
    ensures var r := PreferredLinkage(headerOnly, forceStatic, preferred, provided, hasStaticPicLibrary);
            && (r == STATIC <==> !headerOnly && (forceStatic || preferred == Some(STATIC)))
            && (r == SHARED <==> (&& !headerOnly && !forceStatic
                                  && (|| preferred == Some(SHARED)
                                      || (preferred.GetOr(ANY) == ANY && (provided || !hasStaticPicLibrary)))))
            && (r == ANY <==> (|| headerOnly
                               || (!forceStatic && preferred.GetOr(ANY) == ANY && !provided && hasStaticPicLibrary)))
  {
  }

  // ---------------------------------------------------------------------
  // Native linkable input
  // ---------------------------------------------------------------------

  datatype LinkableDepType = SHARED_DEP | STATIC_DEP | STATIC_PIC_DEP

  /** Linker arguments. `LinkWhole` stands for whatever the platform
      linker emits to force a whole archive in. */
  datatype LinkArg =
    | Flag(text: string)
    | RelativeLink(path: Path)
    | SourcePathLink(source: SourcePath)
    | LinkWhole(source: SourcePath)
    | FileListable(source: SourcePath)

  datatype NativeLinkableInput = NativeLinkableInput(args: seq<LinkArg>, frameworks: seq<string>, libraries: seq<string>)

  const EMPTY_INPUT := NativeLinkableInput([], [], [])

  datatype LinkError =
    | IllegalLinkageState
    | NoPicOrStaticLibrary
    | CannotLinkWithoutSoname(target: string)

  /** What the uncached computation needs to know about the library on
      one platform; paths and the linkage are already resolved. */
  datatype LinkContext = LinkContext(
    target: string,
    platformSupported: bool,
    exportedLinkerFlags: seq<string>,
    headerOnly: bool,
    preferredLinkage: Linkage,
    sharedLibraryForLink: SourcePath,
    linkWithoutSoname: bool,
    staticPicLibrary: Option<SourcePath>,
    staticLibrary: SourcePath,
    linkWhole: bool,
    frameworks: seq<string>,
    libraries: seq<string>)

  function Flags(flags: seq<string>): (r: seq<LinkArg>)
    ensures |r| == |flags|
    ensures forall i :: 0 <= i < |flags| ==> r[i] == Flag(flags[i])
  {
    if flags == [] then [] else [Flag(flags[0])] + Flags(flags[1..])
  }

  function NativeLinkableInputUncached(c: LinkContext, depType: LinkableDepType)
    : (r: Result<NativeLinkableInput, LinkError>)
    ensures !c.platformSupported ==> r == Success(EMPTY_INPUT)
    ensures (r.Success? && c.platformSupported) ==>
              && |r.value.args| >= |c.exportedLinkerFlags|
              && r.value.args[..|c.exportedLinkerFlags|] == Flags(c.exportedLinkerFlags)
              && r.value.frameworks == c.frameworks && r.value.libraries == c.libraries
    ensures c.platformSupported && c.headerOnly ==> r.Success? && r.value.args == Flags(c.exportedLinkerFlags)
    ensures r.Failure? <==> (&& c.platformSupported && !c.headerOnly
                            && (|| (depType == SHARED_DEP && c.preferredLinkage == STATIC)
                                || (depType != SHARED_DEP && c.preferredLinkage == SHARED)
                                || (depType == SHARED_DEP && c.linkWithoutSoname && !c.sharedLibraryForLink.PathSource?)
                                || (depType == STATIC_PIC_DEP && c.preferredLinkage != SHARED && c.staticPicLibrary.None?)))
  {
    if !c.platformSupported then Success(EMPTY_INPUT)
    else
      var flags := Flags(c.exportedLinkerFlags);
      var libraryArgs :-
        if c.headerOnly then Success([])
        else if depType == SHARED_DEP then
          if c.preferredLinkage == STATIC then Failure(IllegalLinkageState)
          else if c.linkWithoutSoname then
            if !c.sharedLibraryForLink.PathSource? then Failure(CannotLinkWithoutSoname(c.target))
            else Success([RelativeLink(c.sharedLibraryForLink.path)])
          else Success([SourcePathLink(c.sharedLibraryForLink)])
        else
          if c.preferredLinkage == SHARED then Failure(IllegalLinkageState)
          else
            var archive :-
              if depType == STATIC_PIC_DEP then
                if c.staticPicLibrary.None? then Failure(NoPicOrStaticLibrary) else Success(c.staticPicLibrary.value)
              else Success(c.staticLibrary);
            Success(if c.linkWhole then [LinkWhole(archive)] else [FileListable(archive)]);
      assert (flags + libraryArgs)[..|flags|] == flags;
      Success(NativeLinkableInput(flags + libraryArgs, c.frameworks, c.libraries))
  }

  /** Linking a non-header-only library statically passes exactly one
      archive after the exported flags. */
  lemma StaticLinkPassesOneArchive(c: LinkContext)
    requires c.platformSupported && !c.headerOnly && c.preferredLinkage != SHARED
    ensures var r := NativeLinkableInputUncached(c, STATIC_DEP);
            && r.Success?
            && r.value.args == Flags(c.exportedLinkerFlags)
                               + [if c.linkWhole then LinkWhole(c.staticLibrary) else FileListable(c.staticLibrary)]
  {
  }

  /** The cache of `getNativeLinkableInput`, keyed by platform flavor and
      dependency type, with the keys whose value was computed, in order. */
  datatype LinkCache = LinkCache(entries: map<(string, LinkableDepType), NativeLinkableInput>,
                                 computed: seq<(string, LinkableDepType)>)

  ghost predicate Distinct<T>(s: seq<T>) {
    forall i, j :: 0 <= i < j < |s| ==> s[i] != s[j]
  }

  /** Every cached value was computed exactly once. */
  ghost predicate CacheValid(c: LinkCache) {
    && Distinct(c.computed)
    && (forall k :: k in c.computed <==> k in c.entries)
  }

  /** `getNativeLinkableInput`: a cached value is returned as is; otherwise
      the value is computed and, when the computation succeeds, cached. */
  function GetNativeLinkableInput(cache: LinkCache, flavor: string, depType: LinkableDepType,
                                  compute: (string, LinkableDepType) -> Result<NativeLinkableInput, LinkError>)
    : (r: (Result<NativeLinkableInput, LinkError>, LinkCache))
    ensures (flavor, depType) in cache.entries ==> r == (Success(cache.entries[(flavor, depType)]), cache)
    ensures (flavor, depType) !in cache.entries ==> r.0 == compute(flavor, depType)
    ensures r.0.Success? ==> (flavor, depType) in r.1.entries && r.1.entries[(flavor, depType)] == r.0.value
    ensures r.0.Failure? ==> r.1 == cache
  {
    var key := (flavor, depType);
    if key in cache.entries then (Success(cache.entries[key]), cache)
    else
      match compute(flavor, depType)
      case Success(input) => (Success(input), LinkCache(cache.entries[key := input], cache.computed + [key]))
      case Failure(e) => (Failure(e), cache)
  }

  lemma GetNativeLinkableInputKeepsCacheValid(cache: LinkCache, flavor: string, depType: LinkableDepType,
                                              compute: (string, LinkableDepType) -> Result<NativeLinkableInput, LinkError>)
    requires CacheValid(cache)
    ensures CacheValid(GetNativeLinkableInput(cache, flavor, depType, compute).1)
  {
  }

  /** Serves a sequence of requests against one cache. */
  method ServeRequests(cache: LinkCache, requests: seq<(string, LinkableDepType)>,
                       compute: (string, LinkableDepType) -> Result<NativeLinkableInput, LinkError>)
    returns (results: seq<Result<NativeLinkableInput, LinkError>>, last: LinkCache)
    requires CacheValid(cache)
    ensures CacheValid(last)
    ensures |results| == |requests|
    ensures cache.computed <= last.computed
    ensures forall i :: 0 <= i < |requests| && results[i].Success? ==>
              requests[i] in last.entries && last.entries[requests[i]] == results[i].value
  {
    results := [];
    last := cache;
    var i := 0;
    while i < |requests|
      invariant 0 <= i <= |requests|
      invariant CacheValid(last)
      invariant |results| == i
      invariant cache.computed <= last.computed
      invariant forall j :: 0 <= j < i && results[j].Success? ==>
                  requests[j] in last.entries && last.entries[requests[j]] == results[j].value
    {
      GetNativeLinkableInputKeepsCacheValid(last, requests[i].0, requests[i].1, compute);
      var step := GetNativeLinkableInput(last, requests[i].0, requests[i].1, compute);
      last := step.1;
      results := results + [step.0];
      i := i + 1;
    }
  }

  /** Asking twice gives the same answer and computes nothing more. */
  lemma SecondRequestIsCached(cache: LinkCache, flavor: string, depType: LinkableDepType,
                              compute: (string, LinkableDepType) -> Result<NativeLinkableInput, LinkError>)
    requires GetNativeLinkableInput(cache, flavor, depType, compute).0.Success?
    ensures var first := GetNativeLinkableInput(cache, flavor, depType, compute);
            GetNativeLinkableInput(first.1, flavor, depType, compute) == first
  {
  }

  // ---------------------------------------------------------------------
  // Shared libraries and dependencies per platform
  // ---------------------------------------------------------------------

  /** `isPlatformSupported`: no regex, or the regex finds a match in the
      platform flavor (the search itself is `find`). */
  function IsPlatformSupported(supportedPlatformsRegex: Option<string>, flavor: string,
                               find: (string, string) -> bool)
    : (r: bool)
    ensures supportedPlatformsRegex.None? ==> r
    ensures supportedPlatformsRegex.Some? ==> (r <==> find(supportedPlatformsRegex.value, flavor))
  {
    supportedPlatformsRegex.None? || find(supportedPlatformsRegex.value, flavor)
  }

  /** `getSharedLibraries`: nothing on an unsupported platform; otherwise
      the soname is resolved, and the shared library is listed under it
      unless the library is header-only or provided by the system. */
  function SharedLibraries(platformSupported: bool, resolvedSoname: Result<string, MacroError>,
                           headerOnly: bool, provided: bool, sharedLibrary: SourcePath)
    : (r: Result<map<string, SourcePath>, MacroError>)
    ensures !platformSupported ==> r == Success(map[])
    ensures platformSupported && resolvedSoname.Failure? ==> r.Failure?
    ensures r.Success? && (headerOnly || provided) ==> r.value == map[]
    ensures r.Success? && platformSupported && !headerOnly && !provided ==>
              r.value == map[resolvedSoname.value := sharedLibrary]
  {
    if !platformSupported then Success(map[])
    else
      var soname :- resolvedSoname;
      Success(if !headerOnly && !provided then map[soname := sharedLibrary] else map[])
  }

  /** At most one shared library, and one exactly when it is the
      library's own. */
  lemma SharedLibrariesSize(platformSupported: bool, resolvedSoname: Result<string, MacroError>,
                            headerOnly: bool, provided: bool, sharedLibrary: SourcePath)
    requires SharedLibraries(platformSupported, resolvedSoname, headerOnly, provided, sharedLibrary).Success?
    ensures var m := SharedLibraries(platformSupported, resolvedSoname, headerOnly, provided, sharedLibrary).value;
            |m| <= 1 && (|m| == 1 <==> platformSupported && !headerOnly && !provided)
  {
  }

  /** The dependency lists offered per platform: empty on an unsupported
      platform, the full list otherwise. */
  function DepsForPlatform<T>(platformSupported: bool, deps: seq<T>): (r: seq<T>)
    ensures platformSupported ==> r == deps
    ensures !platformSupported ==> r == []
  {
    if !platformSupported then [] else deps
  }

  /** Every per-platform query is empty on an unsupported platform. */
  lemma UnsupportedPlatformIsEmpty(c: LinkContext, depType: LinkableDepType, resolvedSoname: Result<string, MacroError>,
                                   provided: bool, sharedLibrary: SourcePath, deps: seq<string>)
    requires !c.platformSupported
    ensures NativeLinkableInputUncached(c, depType) == Success(EMPTY_INPUT)
    ensures SharedLibraries(false, resolvedSoname, c.headerOnly, provided, sharedLibrary) == Success(map[])
    ensures DepsForPlatform(false, deps) == []
  {
  }

  // ---------------------------------------------------------------------
  // Versioned sub-directory
  // ---------------------------------------------------------------------

  datatype VersionError = NotASingleVersionSubDir(target: string, matching: seq<string>)

  /** The version sub-directory of a rule whose versions are selected and
      which lists versioned sub-directories: the single one matching the
      selection. Any other number of matches is an error. */
  function VersionSubDir(target: string, versionsSelected: bool, versionedSubDir: Option<seq<string>>)
    : (r: Result<Option<string>, VersionError>)
    ensures r.Failure? <==> versionsSelected && versionedSubDir.Some? && |versionedSubDir.value| != 1
    ensures r.Success? && r.value.Some? ==> versionedSubDir == Some([r.value.value])
    ensures r.Success? && r.value.None? ==> !versionsSelected || versionedSubDir.None?
  {
    if versionsSelected && versionedSubDir.Some? then
      var matching := versionedSubDir.value;
      if |matching| != 1 then Failure(NotASingleVersionSubDir(target, matching))
      else
        assert matching == [matching[0]];
        Success(Some(matching[0]))
    else Success(None)
  }
}
