# Buck core decisions, modelled in Dafny

This project models the core decisions of several parts of the Buck build
tool:

- **Build daemon** (`Main.java`):
  - validates the web-server port;
  - gets or creates the process-wide daemon, reusing the web server when the
    port is unchanged;
  - computes the transitive closure of cells;
  - lets only one mutating command run at a time (the single-permit command
    semaphore);
  - normalises exit codes.
- **Xcode project generator** (`ProjectGenerator.java`):
  - header-map merging;
  - the build-with-buck flags;
  - the layering of build settings and the `.xcconfig` text they render to;
  - bundle product types;
  - copy-phase destinations and the de-duplication of frameworks.
- **Prebuilt C/C++ library** (`PrebuiltCxxLibraryDescription.java`):
  - library paths and sonames;
  - preferred linkage;
  - the native linkable input and its cache;
  - shared libraries and platform support;
  - the versioned sub-directory.
- **IntelliJ project generation:**
  - `IjModuleFactory`: the module-rule index, grouping of inputs by folder,
    compile shadows, configured generated sources, plugin detection, the
    language level, SDK choice and `createModule`.
  - `IjProjectWriter`: project settings, the resource package, the classes
    generated in place of IntelliJ, and skipping unchanged files.
  - `DefaultIjLibraryFactory`: the library-rule index, rule precedence and
    the per-node memo.
  - `IjProjectBuckConfig`: the `[intellij]` configuration.
- **`[java]` configuration** (`JavaBuckConfig.java`).
- **Artificial-project path generator** (`file_path_generator.py`): the path
  trie, collision-free names, the package countdown, and reuse of partly
  filled directories.

## How the model is built

Each source file becomes one module: `BuckDaemon`, `XcodeProject`,
`PrebuiltCxx`, `IjModuleFactory`, `IjWriter`, `IjLibraryFactory`,
`IjConfig`, `JavaConfig` and `FilePathGenerator`. Shared helpers live in
`Config` (the `.buckconfig` view), `Paths` (normalised `java.nio` paths),
`Strings` and `Wrappers` (`Option` and `Result`).

State is immutable: a data structure stands for each stateful object, and
each operation returns the new state. Exceptions become `Result` failures.

Anything the modelled code gets from outside is a function-typed parameter:

- macro expansion and its build-time deps;
- regex search;
- SHA-1;
- file existence and executability;
- javac source detection;
- language-level conversion;
- the library-name derivation;
- the random streams of the path generator (`names` for `StringGenerator`,
  `choices` for `weighted_choice`).

## Model

| member | source | states |
|---|---|---|
| BuckDaemon.ParseInt | src/com/facebook/buck/cli/Main.java:478-484 | `Integer.parseInt` on ASCII digits: a result lies within the 32-bit `int` range, comes from an optional sign plus at least one digit, and has the sign of its text; conversely, such text has a result iff its signed decimal value fits in an `int`, and the result is that value |
| BuckDaemon.ParseShowNat | src/com/facebook/buck/cli/Main.java:478-484 | Any decimal rendering of an `int` value 0..2^31-1 parses back to that value |
| BuckDaemon.ParseNegatedShowNat | src/com/facebook/buck/cli/Main.java:478-484 | A `-` before a decimal number up to 2^31 parses to its negation |
| BuckDaemon.ParsePlusShowNat | src/com/facebook/buck/cli/Main.java:478-484 | A `+` before a decimal number up to 2^31-1 parses to that number |
| BuckDaemon.ParseLeadingZero | src/com/facebook/buck/cli/Main.java:478-484 | A leading zero does not change the parse: `080` gives the same port as `80` |
| BuckDaemon.ValidWebServerPort | src/com/facebook/buck/cli/Main.java:464-489 | The port, when present, is a non-negative `int` |
| BuckDaemon.PortAbsentIff | src/com/facebook/buck/cli/Main.java:464-489 | No port exactly when the chosen text (system property first, then `httpserver.port`) is missing, empty, not an `int`, or negative; otherwise the port is the parsed value |
| BuckDaemon.SystemPropertyWins | src/com/facebook/buck/cli/Main.java:467-471 | With the system property set, the configuration is not consulted |
| BuckDaemon.ConfiguredPortRoundTrip | src/com/facebook/buck/cli/Main.java:464-489 | A configured decimal port n is validated to exactly n |
| BuckDaemon.NegativePortDisables | src/com/facebook/buck/cli/Main.java:486-488 | A configured negative port disables the web server |
| BuckDaemon.NewDaemon | src/com/facebook/buck/cli/Main.java:413-458 | A new daemon takes over the web server it is handed; otherwise it starts one exactly when the port is valid, on that port |
| BuckDaemon.CloseDaemon | src/com/facebook/buck/cli/Main.java:592-615 | Closing records the generation and stops its web server, if any; nothing else changes |
| BuckDaemon.ShouldReuseWebServer | src/com/facebook/buck/cli/Main.java:690-701 | Reuse iff a daemon exists and the old and new configurations validate to the same port, both absent included |
| BuckDaemon.SystemPropertyAlwaysReuses | src/com/facebook/buck/cli/Main.java:690-701 | With the port given as a system property, an existing daemon's web server is always reused |
| BuckDaemon.GetDaemon | src/com/facebook/buck/cli/Main.java:625-664 | As written. The first call creates generation 0. An equal cell returns the same daemon with the state unchanged. A changed cell makes a new generation. With reuse, nothing is closed or stopped and the new daemon is handed the old web server. Without reuse, the old daemon is closed, its server stopped, and the new daemon is created with no server handed over, so it starts one exactly on a valid new port. The permits are never touched |
| BuckDaemon.PortChangeRestartsWebServer | src/com/facebook/buck/cli/Main.java:653-658 | When the web server is not reused, the old server is stopped, and the new daemon has a server exactly when the new port is valid, on that port and its own generation |
| BuckDaemon.GetDaemonNeverRejectsRoot | src/com/facebook/buck/cli/Main.java:629-644 | As written, the root-path guard can never fire |
| BuckDaemon.GetDaemonSwitchesRootSilently | src/com/facebook/buck/cli/Main.java:629-644 | A daemon for `/a` is silently replaced by one for `/b` |
| BuckDaemon.GetDaemonCheckingRoot | src/com/facebook/buck/cli/Main.java:634-644 | Corrected guard: fails exactly when the existing daemon's root differs from the new cell's root, with that error; otherwise it behaves as `getDaemon` |
| BuckDaemon.GetDaemonIdempotent | src/com/facebook/buck/cli/Main.java:648-662 | A second request for the same cell returns the same daemon and state |
| BuckDaemon.FreshInstanceActionFor | src/com/facebook/buck/cli/Main.java:742-745 | `NONE` exactly when no daemon is running yet |
| BuckDaemon.TransitiveCells | src/com/facebook/buck/cli/Main.java:326-341 | The result holds the root, is closed under "known roots of", and is the least such set |
| BuckDaemon.TryAcquire | src/com/facebook/buck/cli/Main.java:925-932 | A permit is taken exactly when one is available, and then exactly one |
| BuckDaemon.GateExclusive | src/com/facebook/buck/cli/Main.java:925-932 | With the single permit held, a second mutating command is refused |
| BuckDaemon.RunMainWithExitCode | src/com/facebook/buck/cli/Main.java:925-1442 | Read-only commands never touch the gate. A mutating command without a permit returns `BUSY` (2) with nothing else done. Otherwise the gate is acquired and released exactly once and the permits come back. An interruption posts 130 and rethrows. Exit code 2 from the command is reported as 1. `BUSY` is returned only when the gate is busy |
| BuckDaemon.RunMainThenExit | src/com/facebook/buck/cli/Main.java:730-795 | The process status is `BUSY` iff the gate was busy. When the gate lets the command through, an interruption, a crash, a throw during setup or a throwing tail all exit with 1 (`FAIL_EXIT_CODE`, never overwritten on those paths); a normal command exits with its normalised code. Permits are restored |
| XcodeProject.ShouldMergeHeaderMaps | src/com/facebook/buck/apple/project_generator/ProjectGenerator.java:429-437 | Merge iff the merge option is set, a workspace target exists, and header maps are not disabled |
| XcodeProject.DisablingHeaderMapsWins | src/com/facebook/buck/apple/project_generator/ProjectGenerator.java:429-437 | Disabling header maps, or having no workspace target, always prevents merging |
| XcodeProject.PrependIfMissing | src/com/facebook/buck/apple/project_generator/ProjectGenerator.java:587-593 | The flag ends up present; the list is unchanged iff it was already there, else the flag is put in front |
| XcodeProject.BuildFlags | src/com/facebook/buck/apple/project_generator/ProjectGenerator.java:585-595 | Both mandatory flags are present; the configured flags follow unchanged; one flag is added per missing mandatory flag |
| XcodeProject.BuildFlagsBothMissing | src/com/facebook/buck/apple/project_generator/ProjectGenerator.java:585-593 | With both missing, the list is `--show-output --report-absolute-paths` followed by the configured flags |
| XcodeProject.BuildFlagsKeepsCompleteList | src/com/facebook/buck/apple/project_generator/ProjectGenerator.java:585-593 | A list that already has both flags is left as is |
| XcodeProject.BuildFlagsIdempotent | src/com/facebook/buck/apple/project_generator/ProjectGenerator.java:585-593 | Applying the rule twice equals applying it once |
| XcodeProject.PutDefaults | src/com/facebook/buck/apple/project_generator/ProjectGenerator.java:1803-1808 | Override keys plus the default keys not set inline; those defaults win over overrides, and every other override is kept |
| XcodeProject.PutAppends | src/com/facebook/buck/apple/project_generator/ProjectGenerator.java:1810-1815 | Every appended key becomes `<inline value or $(inherited)> <value>`; other keys are kept |
| XcodeProject.CombineOverrides | src/com/facebook/buck/apple/project_generator/ProjectGenerator.java:1803-1815 | Keys and values of the combined overrides: appends, then defaults not set inline, then overrides |
| XcodeProject.MergeMaps | src/com/facebook/buck/apple/project_generator/ProjectGenerator.java:1817-1819 | The union of both maps, where the second map wins |
| XcodeProject.MergedSettings | src/com/facebook/buck/apple/project_generator/ProjectGenerator.java:1803-1819 | Final settings: the union of all four layers, where appends win, then defaults not set inline, then overrides, then inline values |
| XcodeProject.InsertSorted | src/com/facebook/buck/apple/project_generator/ProjectGenerator.java:1817-1819 | Inserting a new key into a key-sorted entry list keeps it sorted |
| XcodeProject.InsertToMap | src/com/facebook/buck/apple/project_generator/ProjectGenerator.java:1817-1819 | The inserted list denotes the old map plus the new entry |
| XcodeProject.SortedEntries | src/com/facebook/buck/apple/project_generator/ProjectGenerator.java:1817-1830 | The entries of a settings map, strictly sorted by key, denote exactly that map |
| XcodeProject.SortedEntriesUnique | src/com/facebook/buck/apple/project_generator/ProjectGenerator.java:1817-1830 | Two sorted entry lists of the same map are equal, so the rendering is deterministic |
| XcodeProject.XcconfigContents | src/com/facebook/buck/apple/project_generator/ProjectGenerator.java:1803-1830 | The xcconfig text renders sorted entries whose keys are all four layers' keys, with appends and untouched inline values as promised |
| XcodeProject.RenderRoundTrip | src/com/facebook/buck/apple/project_generator/ProjectGenerator.java:1823-1830 | Parsing the `key = value` lines back gives the sorted entries, for keys without `=` or newline and values without newline |
| XcodeProject.DylibProductType | src/com/facebook/buck/apple/project_generator/ProjectGenerator.java:2870-2885 | Defined exactly for framework, appex, bundle and xctest |
| XcodeProject.DylibProductTypeInjective | src/com/facebook/buck/apple/project_generator/ProjectGenerator.java:2870-2885 | Distinct extensions in the table map to distinct product types |
| XcodeProject.BundleToTargetProductType | src/com/facebook/buck/apple/project_generator/ProjectGenerator.java:2753-2794 | An explicit product type wins; a free-string extension gives a bundle; test binaries give UI or unit tests; shared libraries follow the dylib table, else bundle |
| XcodeProject.ApplicationIff | src/com/facebook/buck/apple/project_generator/ProjectGenerator.java:2753-2794 | Application iff the extension is `app` and the binary is an executable |
| XcodeProject.StaticFrameworkIff | src/com/facebook/buck/apple/project_generator/ProjectGenerator.java:2753-2794 | Static framework iff the extension is `framework` and the binary is a non-shared library |
| XcodeProject.PlainBundleIff | src/com/facebook/buck/apple/project_generator/ProjectGenerator.java:2753-2794 | The exact conditions under which the fallback `BUNDLE` is chosen |
| XcodeProject.DestinationSpecFor | src/com/facebook/buck/apple/project_generator/ProjectGenerator.java:2140-2211 | Fails exactly for unknown descriptions; any sub-path is the watch path |
| XcodeProject.NoDestinationIff | src/com/facebook/buck/apple/project_generator/ProjectGenerator.java:2140-2211 | No copy phase iff the node is a static Apple or C++ library, or a Halide library |
| XcodeProject.WatchDestinationIff | src/com/facebook/buck/apple/project_generator/ProjectGenerator.java:2155-2165 | A sub-path iff the node is a watch application with the `app` extension; it goes to `PRODUCTS` |
| XcodeProject.FrameworksDestinationIff | src/com/facebook/buck/apple/project_generator/ProjectGenerator.java:2140-2211 | Exactly which nodes are copied into `FRAMEWORKS` |
| XcodeProject.CustomExtensionIsPlugin | src/com/facebook/buck/apple/project_generator/ProjectGenerator.java:2140-2155 | A free-string extension is treated as `bundle` and goes to `PLUGINS` |
| XcodeProject.SingleCopyFilesBuildPhase | src/com/facebook/buck/apple/project_generator/ProjectGenerator.java:2244-2267 | The loop produces one build file per kept node, in order, with framework attributes only on frameworks |
| XcodeProject.KeptNodesKeepsNonFrameworks | src/com/facebook/buck/apple/project_generator/ProjectGenerator.java:2250-2265 | Every non-framework node is kept, in order |
| XcodeProject.KeptNodesCoversFrameworks | src/com/facebook/buck/apple/project_generator/ProjectGenerator.java:2250-2265 | Every framework target is still represented after de-duplication |
| XcodeProject.KeptFrameworksDistinct | src/com/facebook/buck/apple/project_generator/ProjectGenerator.java:2250-2265 | No two kept frameworks share an unflavored target |
| PrebuiltCxx.ExpandMacros | src/com/facebook/buck/cxx/PrebuiltCxxLibraryDescription.java:125-139 | Succeeds exactly when the handler expands the text, and yields that expansion |
| PrebuiltCxx.ApplicableSourcePath | src/com/facebook/buck/cxx/PrebuiltCxxLibraryDescription.java:152-206 | Fails exactly when the library directory does not expand, or, without deps, when the added path does not expand. Without build-time deps the result is a path in the source tree; with deps it is an output of the first dep |
| PrebuiltCxx.RepositoryPathNames | src/com/facebook/buck/cxx/PrebuiltCxxLibraryDescription.java:159-191 | Without deps and with relative paths, the path is the target's base path, then the version sub-directory, then the expanded library directory, then the expanded added path |
| PrebuiltCxx.AbsoluteAddedPathWins | src/com/facebook/buck/cxx/PrebuiltCxxLibraryDescription.java:180-190 | Without deps, an added path that expands to an absolute path replaces everything before it (`Path.resolve`) |
| PrebuiltCxx.RuleOutputPathIsRelative | src/com/facebook/buck/cxx/PrebuiltCxxLibraryDescription.java:172-202 | With deps, the path is an output of the first dep: the version sub-directory, the expanded library directory and the added path as written, relative to the project root whatever that root is |
| PrebuiltCxx.VersionSubDirIsPrefixed | src/com/facebook/buck/cxx/PrebuiltCxxLibraryDescription.java:172-191 | Without deps, with or without an added file, the library path starts with the target's base path followed by the version sub-directory |
| PrebuiltCxx.LibraryFileName | src/com/facebook/buck/cxx/PrebuiltCxxLibraryDescription.java:228-255 | `lib` + name + suffix, decomposable into its three parts |
| PrebuiltCxx.LibraryFileNameInjective | src/com/facebook/buck/cxx/PrebuiltCxxLibraryDescription.java:228-255 | Equal file names mean equal library names |
| PrebuiltCxx.SuffixesDistinct | src/com/facebook/buck/cxx/PrebuiltCxxLibraryDescription.java:257-317 | The shared, static (`.a`) and PIC (`_pic.a`) files of one library differ, unless the shared extension is `a` |
| PrebuiltCxx.LibraryPath | src/com/facebook/buck/cxx/PrebuiltCxxLibraryDescription.java:228-255 | `getLibraryPath` fails exactly when `lib_dir` (default `lib`) does not expand, or, without deps, when the file name does not expand; the result is a repository path iff there are no deps |
| PrebuiltCxx.LibraryPathInRepository | src/com/facebook/buck/cxx/PrebuiltCxxLibraryDescription.java:228-255 | Without deps, the library file is base path / version sub-directory / expanded library directory / expanded `lib<name><suffix>` |
| PrebuiltCxx.LibraryPathOfRule | src/com/facebook/buck/cxx/PrebuiltCxxLibraryDescription.java:228-255 | With deps, the library file is an output of the first dep: version sub-directory / expanded library directory / `lib<name><suffix>` as written |
| PrebuiltCxx.PlainLibraryPath | src/com/facebook/buck/cxx/PrebuiltCxxLibraryDescription.java:228-255 | With no macros or deps, the path is base path / `lib` / file name |
| PrebuiltCxx.UnexpandedSoname | src/com/facebook/buck/cxx/PrebuiltCxxLibraryDescription.java:208-226 | An explicit soname wins; otherwise it is the shared library's file name |
| PrebuiltCxx.Soname | src/com/facebook/buck/cxx/PrebuiltCxxLibraryDescription.java:208-226 | A configured soname is macro-expanded; otherwise the shared library's file name `lib<name>.<ext>` is; it fails exactly when that expansion fails |
| PrebuiltCxx.DefaultSonameNamesSharedLibrary | src/com/facebook/buck/cxx/PrebuiltCxxLibraryDescription.java:208-255 | Without a configured soname, deps or macros in the file name, the soname is the last name of the shared library's path |
| PrebuiltCxx.StaticPicLibrary | src/com/facebook/buck/cxx/PrebuiltCxxLibraryDescription.java:736-769 | Present iff the PIC or static archive exists on disk; it prefers the PIC archive and always names an existing file |
| PrebuiltCxx.RequireSharedLibrary | src/com/facebook/buck/cxx/PrebuiltCxxLibraryDescription.java:709-730 | Linking with interface support and an interface factory gives the platform's shared-interface rule. Otherwise the configured shared library is used iff it is a build-target output or exists on disk. The link rule of the platform is used exactly when no interface is due and the library is a source-tree file missing on disk. Any result other than the configured library is a rule output for that platform |
| PrebuiltCxx.RequiredSharedLibraryIsProduced | src/com/facebook/buck/cxx/PrebuiltCxxLibraryDescription.java:702-730 | The returned shared library can always be produced: it is a build-rule output or a file on disk |
| PrebuiltCxx.PreferredLinkage | src/com/facebook/buck/cxx/PrebuiltCxxLibraryDescription.java:958-971 | Header-only gives `ANY`; forced static gives `STATIC` |
| PrebuiltCxx.PreferredLinkageChain | src/com/facebook/buck/cxx/PrebuiltCxxLibraryDescription.java:958-971 | One if-and-only-if condition per outcome (`STATIC`, `SHARED`, `ANY`) |
| PrebuiltCxx.NativeLinkableInputUncached | src/com/facebook/buck/cxx/PrebuiltCxxLibraryDescription.java:883-941 | Empty on an unsupported platform. Otherwise the exported flags come first, then frameworks and libraries. Fails exactly on the illegal linkage, soname-less and missing-PIC cases |
| PrebuiltCxx.StaticLinkPassesOneArchive | src/com/facebook/buck/cxx/PrebuiltCxxLibraryDescription.java:920-938 | Static linking passes the flags and exactly one archive, whole or listed |
| PrebuiltCxx.GetNativeLinkableInput | src/com/facebook/buck/cxx/PrebuiltCxxLibraryDescription.java:944-955 | Cached values are returned untouched; otherwise the value is computed and cached only on success |
| PrebuiltCxx.GetNativeLinkableInputKeepsCacheValid | src/com/facebook/buck/cxx/PrebuiltCxxLibraryDescription.java:944-955 | Every cached key was computed exactly once |
| PrebuiltCxx.ServeRequests | src/com/facebook/buck/cxx/PrebuiltCxxLibraryDescription.java:944-955 | Over a run of requests the cache stays valid and only grows, and every success is what the cache holds |
| PrebuiltCxx.SecondRequestIsCached | src/com/facebook/buck/cxx/PrebuiltCxxLibraryDescription.java:944-955 | A repeated request gives the same answer and computes nothing |
| PrebuiltCxx.IsPlatformSupported | src/com/facebook/buck/cxx/PrebuiltCxxLibraryDescription.java:696-701 | Supported with no regex, else iff the regex finds the flavor |
| PrebuiltCxx.SharedLibraries | src/com/facebook/buck/cxx/PrebuiltCxxLibraryDescription.java:987-1000 | Empty on an unsupported platform and for header-only or provided libraries; otherwise the soname maps to the shared library; a soname failure propagates |
| PrebuiltCxx.SharedLibrariesSize | src/com/facebook/buck/cxx/PrebuiltCxxLibraryDescription.java:987-1000 | At most one entry, and one exactly for a supported, non-header-only, non-provided library |
| PrebuiltCxx.DepsForPlatform | src/com/facebook/buck/cxx/PrebuiltCxxLibraryDescription.java:858-880 | All deps on a supported platform, none otherwise |
| PrebuiltCxx.UnsupportedPlatformIsEmpty | src/com/facebook/buck/cxx/PrebuiltCxxLibraryDescription.java:858-1000 | An unsupported platform contributes no link input, shared libraries or deps |
| PrebuiltCxx.VersionSubDir | src/com/facebook/buck/cxx/PrebuiltCxxLibraryDescription.java:585-636 | With versions selected and versioned sub-directories listed, exactly one match is required and used; otherwise there is none |
| IjModuleFactory.AddToIndex | src/com/facebook/buck/jvm/java/intellij/IjModuleFactory.java:141-146 | Succeeds iff the class is supported and not yet indexed, adding exactly it |
| IjModuleFactory.AddAllToIndex | src/com/facebook/buck/jvm/java/intellij/IjModuleFactory.java:122-133 | Indexing a rule list succeeds iff the classes are distinct, supported and new; the result is their union |
| IjModuleFactory.BuildIndex | src/com/facebook/buck/jvm/java/intellij/IjModuleFactory.java:111-139 | The constructor succeeds iff the rules are distinct, supported and cover the supported set |
| IjModuleFactory.FactoryIndexIsComplete | src/com/facebook/buck/jvm/java/intellij/IjModuleFactory.java:66-79 | The factory's twelve rules index the supported classes exactly |
| IjModuleFactory.DuplicateRuleRejected | src/com/facebook/buck/jvm/java/intellij/IjModuleFactory.java:141-142 | A rule list that repeats a class fails |
| IjModuleFactory.ParentOrDefault | src/com/facebook/buck/jvm/java/intellij/IjModuleFactory.java:255-264 | The parent, or the empty path when there is none |
| IjModuleFactory.SourceFoldersToInputsIndex | src/com/facebook/buck/jvm/java/intellij/IjModuleFactory.java:253-265 | Every input is listed under its parent folder, each folder holds distinct inputs, and nothing else is listed |
| IjModuleFactory.InputFiledOnce | src/com/facebook/buck/jvm/java/intellij/IjModuleFactory.java:253-265 | An input is filed under one folder only |
| IjModuleFactory.ContainsNonSourcePath | src/com/facebook/buck/jvm/java/intellij/IjModuleFactory.java:272-274 | True iff some source is not a plain path |
| IjModuleFactory.NeedsCompileShadow | src/com/facebook/buck/jvm/java/intellij/IjModuleFactory.java:370-383 | A shadow is needed iff shadows are not excluded and the node has a non-path source or annotation processors |
| IjModuleFactory.CompileShadowDeps | src/com/facebook/buck/jvm/java/intellij/IjModuleFactory.java:370-383 | Exactly the targets of nodes whose rule may add a shadow and which need one |
| IjModuleFactory.GeneratedSourcePaths | src/com/facebook/buck/jvm/java/intellij/IjModuleFactory.java:425-449 | Exactly one folder per dependency named in the map, with `%name%` replaced |
| IjModuleFactory.PatternWithoutPlaceholder | src/com/facebook/buck/jvm/java/intellij/IjModuleFactory.java:436-441 | A pattern without `%name%` is used verbatim |
| IjModuleFactory.UnmappedDepsContributeNothing | src/com/facebook/buck/jvm/java/intellij/IjModuleFactory.java:432-447 | Dependencies not in the map give no folders |
| IjModuleFactory.JavaBinaryPlugin | src/com/facebook/buck/jvm/java/intellij/IjModuleFactory.java:590-606 | Plugin iff the binary has a `META-INF` directory and some dependency is an IntelliJ SDK target; the directory is the binary's |
| IjModuleFactory.PluginMetaInf | src/com/facebook/buck/jvm/java/intellij/IjModuleFactory.java:580-607 | Present iff some node is a plugin binary, and then it is such a node's directory |
| IjModuleFactory.PluginMetaInfIsLast | src/com/facebook/buck/jvm/java/intellij/IjModuleFactory.java:580-607 | The directory is that of a plugin-marking binary after which no node marks the module as a plugin |
| IjModuleFactory.LastOverriding | src/com/facebook/buck/jvm/java/intellij/IjModuleFactory.java:224-238 | The last Java library whose source or target level differs from the default, or none |
| IjModuleFactory.SourceLevel | src/com/facebook/buck/jvm/java/intellij/IjModuleFactory.java:222-245 | The loop yields the normalised source of the last overriding library, and nothing when none overrides |
| IjModuleFactory.SelectSdk | src/com/facebook/buck/jvm/java/intellij/IjModuleFactory.java:184-196 | IntelliJ SDK for plugins; else the Android SDK with an Android facet; else the Java SDK; a configured type overrides |
| IjModuleFactory.UnconfiguredSdkType | src/com/facebook/buck/jvm/java/intellij/IjModuleFactory.java:93-99 | Without configured types, the SDK type is `IDEA JDK`, `Android SDK` or `JavaSDK` by module kind |
| IjModuleFactory.FirstUnindexed | src/com/facebook/buck/jvm/java/intellij/IjModuleFactory.java:172-176 | None iff every node's class has a rule; otherwise an unindexed class that occurs |
| IjModuleFactory.SourceFolders | src/com/facebook/buck/jvm/java/intellij/IjModuleFactory.java:300-310 | Exactly the parent folders of inputs of nodes whose rule adds source folders |
| IjModuleFactory.GeneratedFolders | src/com/facebook/buck/jvm/java/intellij/IjModuleFactory.java:408-423 | Exactly the configured generated folders of nodes whose rule adds them |
| IjModuleFactory.AnnotationFolders | src/com/facebook/buck/jvm/java/intellij/IjModuleFactory.java:386-406 | Exactly the annotation-processor outputs the resolver gives for JVM-library nodes whose rule adds folders |
| IjModuleFactory.ResourceFolders | src/com/facebook/buck/jvm/java/intellij/IjModuleFactory.java:528-541 | Exactly the resource paths the resolver gives for Android resource nodes |
| IjModuleFactory.ExcludeFolders | src/com/facebook/buck/jvm/java/intellij/IjModuleFactory.java:531-546 | Exactly every excluded resource path resolved against every resource folder |
| IjModuleFactory.ExtraClassPath | src/com/facebook/buck/jvm/java/intellij/IjModuleFactory.java:490-493 | Exactly the dummy `R.java` paths the resolver gives for Android libraries and Android resources (also lines 553-556) |
| IjModuleFactory.AndroidGenPath | src/com/facebook/buck/jvm/java/intellij/IjModuleFactory.java:215-220 | The Android gen directory, then the module base path, then `gen`; an absolute base path replaces the gen directory |
| IjModuleFactory.CreateModule | src/com/facebook/buck/jvm/java/intellij/IjModuleFactory.java:160-212 | Rejects an empty node set and a node without a rule. Otherwise: targets in order; plugin iff some plugin binary, with `META-INF` iff plugin; Android facet iff a facet rule applies; the SDK by `SelectSdk`; the language level by `getSourceLevel`; the source, generated (configured plus annotation output), Android resource and exclude folders, the compile-shadow deps and the extra class path as the rules add them; a facet generated-source path iff a non-plugin module has a facet, and then the `createAndroidGenPath` value |
| IjModuleFactory.AndroidOutputsNeedFacet | src/com/facebook/buck/jvm/java/intellij/IjModuleFactory.java:505-560 | Resource folders, exclude folders or extra class-path entries occur only in a module whose nodes create an Android facet |
| IjModuleFactory.ExcludeFoldersInsideResources | src/com/facebook/buck/jvm/java/intellij/IjModuleFactory.java:535-546 | With relative excluded paths, every exclude folder lies inside a resource folder |
| IjModuleFactory.CxxOnlyModule | src/com/facebook/buck/jvm/java/intellij/IjModuleFactory.java:563-575 | A module made only of C++ libraries gets no generated folders, shadows, Android folders, class-path entries or facet |
| IjWriter.Jdk15 | src/com/facebook/buck/jvm/java/intellij/IjProjectWriter.java:200-203 | False exactly for `JDK_1_3` and `JDK_1_4` |
| IjWriter.LanguageLevelFromConfig | src/com/facebook/buck/jvm/java/intellij/IjProjectWriter.java:187-198 | The configured level, else the converted default source level |
| IjWriter.ProjectSettings | src/com/facebook/buck/jvm/java/intellij/IjProjectWriter.java:158-185 | `misc.xml` is written iff both JDK name and type are set, with those values, the language level, and `jdk15` matching it |
| IjWriter.FirstResourcePackage | src/com/facebook/buck/jvm/java/intellij/IjProjectWriter.java:307-320 | None iff no dependent module names a package; otherwise the package of the first that does |
| IjWriter.ResourcePackage | src/com/facebook/buck/jvm/java/intellij/IjProjectWriter.java:297-305 | The facet's own package, else the first dependency's; none exactly when neither exists |
| IjWriter.GeneratedClassFiles | src/com/facebook/buck/jvm/java/intellij/IjProjectWriter.java:240-295 | Files are written iff IntelliJ does not generate them, a facet exists and a package is known; they are `BuildConfig`, `R` and `Manifest` under the package folders |
| IjWriter.GeneratedClassPathNames | src/com/facebook/buck/jvm/java/intellij/IjProjectWriter.java:287-290 | The class file lies under the generated path, one folder per dot-separated package component |
| IjWriter.WriteToFile | src/com/facebook/buck/jvm/java/intellij/IjProjectWriter.java:329-361 | Skips exactly when the file exists with the same SHA-1; otherwise it replaces that file only |
| IjWriter.RepeatedWrite | src/com/facebook/buck/jvm/java/intellij/IjProjectWriter.java:329-361 | Writing a file twice in a row: the second write happens iff the first did and the written rendering's SHA-1 differs from the compared one's, so differing renderings rewrite the file on every run; a skipped write changes nothing |
| IjWriter.SecondWriteSkipped | src/com/facebook/buck/jvm/java/intellij/IjProjectWriter.java:334-341 | With one rendering for comparing and writing, writing twice writes at most once |
| IjLibraryFactory.AddToIndex | src/com/facebook/buck/ide/intellij/DefaultIjLibraryFactory.java:76-79 | Fails iff the class is already indexed; otherwise adds exactly it |
| IjLibraryFactory.IndexAll | src/com/facebook/buck/ide/intellij/DefaultIjLibraryFactory.java:67-74 | Indexing succeeds iff the classes are distinct and new, giving their union |
| IjLibraryFactory.InitialIndex | src/com/facebook/buck/ide/intellij/DefaultIjLibraryFactory.java:67-74 | The constructor indexes the AAR and prebuilt-jar rules |
| IjLibraryFactory.IndexingTwiceFails | src/com/facebook/buck/ide/intellij/DefaultIjLibraryFactory.java:76-79 | Indexing the same class again fails |
| IjLibraryFactory.GetRule | src/com/facebook/buck/ide/intellij/DefaultIjLibraryFactory.java:91-100 | An indexed rule wins; otherwise the Java-library rule exactly when the node is a Java library |
| IjLibraryFactory.ApplyRule | src/com/facebook/buck/ide/intellij/DefaultIjLibraryFactory.java:102-170 | The library gets the chosen name and exactly the node as its target |
| IjLibraryFactory.NewFactory | src/com/facebook/buck/ide/intellij/DefaultIjLibraryFactory.java:62-74 | A new factory has the two indexed rules, no names and an empty cache |
| IjLibraryFactory.CreateLibrary | src/com/facebook/buck/ide/intellij/DefaultIjLibraryFactory.java:102-116 | No library without a rule; with one, it fails iff the name was recorded, else builds the library by the rule |
| IjLibraryFactory.GetLibrary | src/com/facebook/buck/ide/intellij/DefaultIjLibraryFactory.java:81-89 | Cached answers are returned untouched; new answers are cached; the index and name set stay unchanged |
| IjLibraryFactory.GetLibraryMemoised | src/com/facebook/buck/ide/intellij/DefaultIjLibraryFactory.java:81-89 | A second request for a node returns the cached answer and changes nothing |
| IjLibraryFactory.Serve | src/com/facebook/buck/ide/intellij/DefaultIjLibraryFactory.java:81-89 | One answer per request; the name set is unchanged |
| IjLibraryFactory.ServeCreatesOnce | src/com/facebook/buck/ide/intellij/DefaultIjLibraryFactory.java:81-89 | Each node's library is created at most once, and every served node ends up cached |
| IjLibraryFactory.CacheGrows | src/com/facebook/buck/ide/intellij/DefaultIjLibraryFactory.java:81-89 | Serving never evicts a cached node |
| IjLibraryFactory.NameCheckNeverFires | src/com/facebook/buck/ide/intellij/DefaultIjLibraryFactory.java:63 | As written, a fresh factory serves any requests without a name clash |
| IjLibraryFactory.NeverFailsWithoutNames | src/com/facebook/buck/ide/intellij/DefaultIjLibraryFactory.java:106-108 | With an empty name set, serving never fails |
| IjLibraryFactory.CollidingNamesAccepted | src/com/facebook/buck/ide/intellij/DefaultIjLibraryFactory.java:102-116 | Two targets with the same library name both get libraries |
| IjLibraryFactory.GetLibraryRecordingNames | src/com/facebook/buck/ide/intellij/DefaultIjLibraryFactory.java:102-116 | Corrected: a created library's name is recorded in the name set |
| IjLibraryFactory.CollidingNamesRejected | src/com/facebook/buck/ide/intellij/DefaultIjLibraryFactory.java:106-108 | Corrected: a second target with the same library name is rejected |
| IjConfig.ExcludedResourcePaths | src/com/facebook/buck/jvm/java/intellij/IjProjectBuckConfig.java:38-50 | The set of trimmed, non-empty comma-separated fields; empty when unset |
| IjConfig.ExcludedResourcePathsRoundTrip | src/com/facebook/buck/jvm/java/intellij/IjProjectBuckConfig.java:44-47 | Joining trimmed, comma-free, non-empty paths with commas and parsing them gives back their set |
| IjConfig.TrimmedFieldsOfTrimmed | src/com/facebook/buck/jvm/java/intellij/IjProjectBuckConfig.java:44-47 | Trimming already trimmed fields changes nothing |
| IjConfig.EntryOf | src/com/facebook/buck/jvm/java/intellij/IjProjectBuckConfig.java:56-61 | A `k => v` entry splits into exactly two trimmed parts, else it is rejected |
| IjConfig.ParseEntries | src/com/facebook/buck/jvm/java/intellij/IjProjectBuckConfig.java:56-61 | Succeeds iff every chunk is an entry and no key repeats; the map holds exactly the parsed entries |
| IjConfig.GeneratedSourcesMap | src/com/facebook/buck/jvm/java/intellij/IjProjectBuckConfig.java:52-62 | Empty when unset; otherwise the entries of the trimmed, non-empty fields |
| IjConfig.Create | src/com/facebook/buck/jvm/java/intellij/IjProjectBuckConfig.java:37-102 | Fails exactly on a bad generated-sources map or boolean. Otherwise: autogeneration is on unless disabled; the excluded paths, map, SDK and JDK fields, language level and SDK targets come from the configuration |
| JavaConfig.Message | src/com/facebook/buck/jvm/java/JavaBuckConfig.java:168 | The message starts with `<name> is not executable: ` |
| JavaConfig.PathToExecutable | src/com/facebook/buck/jvm/java/JavaBuckConfig.java:163-173 | None iff unset; fails iff set but not executable; otherwise the configured path |
| JavaConfig.DefaultJavaOptions | src/com/facebook/buck/jvm/java/JavaBuckConfig.java:55-60 | Uses the `java` tool path, failing exactly when it fails |
| JavaConfig.DefaultJavaOptionsForTests | src/com/facebook/buck/jvm/java/JavaBuckConfig.java:62-71 | `java_for_tests` when set, else the default options |
| JavaConfig.GetJavacSpec | src/com/facebook/buck/jvm/java/JavaBuckConfig.java:144-161 | The javac path, jar and compiler class come from `[tools]` |
| JavaConfig.TrackClassUsage | src/com/facebook/buck/jvm/java/JavaBuckConfig.java:131-142 | Off when configured off; on exactly for a jar or JDK javac; a bad boolean is an error |
| JavaConfig.Bootclasspaths | src/com/facebook/buck/jvm/java/JavaBuckConfig.java:108-114 | Exactly the `bootclasspath-` entries, keyed without the prefix |
| JavaConfig.PrefixedStarts | src/com/facebook/buck/jvm/java/JavaBuckConfig.java:108-114 | Every key written as `bootclasspath-` plus a suffix is selected by the prefix test |
| JavaConfig.DefaultJavacOptions | src/com/facebook/buck/jvm/java/JavaBuckConfig.java:73-121 | Levels overridden only when configured; class-usage tracking as decided; the bootclasspath map is exactly the prefixed entries |
| JavaConfig.ShouldCacheBinaries | src/com/facebook/buck/jvm/java/JavaBuckConfig.java:175-177 | On by default; otherwise the configured boolean |
| JavaConfig.ShouldSuggestDependencies | src/com/facebook/buck/jvm/java/JavaBuckConfig.java:183-185 | Off by default; otherwise the configured boolean |
| JavaConfig.ShouldValidateAbisGeneratedFromSource | src/com/facebook/buck/jvm/java/JavaBuckConfig.java:191-193 | Off by default; otherwise the configured boolean |
| JavaConfig.ShouldCompileAgainstAbis | src/com/facebook/buck/jvm/java/JavaBuckConfig.java:195-197 | Off by default; otherwise the configured boolean |
| Config.GetBoolean | src/com/facebook/buck/jvm/java/JavaBuckConfig.java:135 | Unset gives none; a value that is not a boolean word is an error; otherwise its parsed meaning |
| Config.GetBooleanValue | src/com/facebook/buck/jvm/java/JavaBuckConfig.java:175-177 | `getBooleanValue`: the default when unset; fails exactly when `getBoolean` does; otherwise the parsed boolean |
| Config.TrimmedNonEmptyFields | src/com/facebook/buck/jvm/java/intellij/IjProjectBuckConfig.java:44-47 | The set of non-empty trimmed fields is the set of trimmed fields minus the empty string |
| Config.SplitTrimmedNonEmpty | src/com/facebook/buck/jvm/java/intellij/IjProjectBuckConfig.java:44-47 | `Splitter.on(c).omitEmptyStrings().trimResults()`: no empty fields, and its set is the trimmed fields minus the empty string |
| FilePathGenerator.Components | scripts/artificialproject/file_path_generator.py:120-125 | Components of a relative path contain no `/`, and there are none only for the empty path |
| FilePathGenerator.SplitLast | scripts/artificialproject/file_path_generator.py:120-125 | `os.path.split`: the tail has no `/`, the empty path splits into two empty parts, and the head of a relative path is a strictly shorter relative path |
| FilePathGenerator.JoinAddsComponent | scripts/artificialproject/file_path_generator.py:140 | `os.path.join` of a canonical path and a component is canonical, adds exactly that component, and has it as its basename |
| FilePathGenerator.SplitOfJoin | scripts/artificialproject/file_path_generator.py:120-125 | `os.path.split(os.path.join(p, name)) == (p, name)` for a canonical path and a component |
| FilePathGenerator.JoinAllThenSplit | scripts/artificialproject/file_path_generator.py:120-125 | Splitting the join of components gives them back |
| FilePathGenerator.SplitThenJoinAll | scripts/artificialproject/file_path_generator.py:120-125 | Joining the components of a canonical path gives it back |
| FilePathGenerator.RegisterIn | scripts/artificialproject/file_path_generator.py:107-118 | Fails iff the walk passes through a file; reports whether the path already existed; afterwards it exists and nothing is lost |
| FilePathGenerator.Register | scripts/artificialproject/file_path_generator.py:107-118 | `register_path` succeeds exactly for a path not yet present, and then makes it present |
| FilePathGenerator.RegisterTwiceFails | scripts/artificialproject/file_path_generator.py:117-118 | Registering the same path twice fails |
| FilePathGenerator.NameSearch | scripts/artificialproject/file_path_generator.py:169-177 | A found name is not yet in the directory and is not `buck`, after at most 1000 attempts |
| FilePathGenerator.NameSearchFails | scripts/artificialproject/file_path_generator.py:169-177 | Fails iff none of the remaining attempts is acceptable |
| FilePathGenerator.NameSearchFindsFirst | scripts/artificialproject/file_path_generator.py:169-177 | The found name is the first acceptable attempt |
| FilePathGenerator.BuildFileKeyIsLowerCase | scripts/artificialproject/file_path_generator.py:71 | The build file's entry is `BUCK` lower-cased |
| FilePathGenerator.ReuseDirectory | scripts/artificialproject/file_path_generator.py:149-151 | A reused directory's remaining size drops by one; it stays available iff it still has room; nothing else changes |
| FilePathGenerator.MakeDirectory | scripts/artificialproject/file_path_generator.py:153-166 | A new directory is entered in its parent under its lower-cased name and kept available iff its drawn size exceeds one |
| FilePathGenerator.MakeDirectoryResolves | scripts/artificialproject/file_path_generator.py:155-161 | Entering a new directory under a fresh lower-cased name keeps every directory reachable and makes the new one reachable |
| FilePathGenerator.GenerateParent | scripts/artificialproject/file_path_generator.py:142-167 | Depth 0 is the root; generation only moves the random streams forward |
| FilePathGenerator.GeneratePath | scripts/artificialproject/file_path_generator.py:127-140 | A generated path moves the name stream forward |
| FilePathGenerator.GenerateParentReuses | scripts/artificialproject/file_path_generator.py:147-151 | An available directory at the requested depth is handed out again |
| FilePathGenerator.GenerateParentKeeps | scripts/artificialproject/file_path_generator.py:142-167 | Available directories of other packages or deeper levels are kept unchanged |
| FilePathGenerator.GeneratePathKeeps | scripts/artificialproject/file_path_generator.py:127-140 | The same preservation for a whole path |
| FilePathGenerator.GeneratePathJoinsParent | scripts/artificialproject/file_path_generator.py:136-140 | The path is the parent joined with a name that was acceptable in the parent directory |
| FilePathGenerator.GenerateParentResolves | scripts/artificialproject/file_path_generator.py:142-167 | From a resolving state the parent is found, never missing, and the state still resolves |
| FilePathGenerator.GeneratePathResolves | scripts/artificialproject/file_path_generator.py:127-140 | The same for a whole path |
| FilePathGenerator.ReusePackage | scripts/artificialproject/file_path_generator.py:61-66 | Hands out the last package again, counting down and forgetting it once the count reaches 0 |
| FilePathGenerator.NewPackage | scripts/artificialproject/file_path_generator.py:67-75 | A non-positive depth fails; a new package draws its depth and target count |
| FilePathGenerator.NewPackageEntered | scripts/artificialproject/file_path_generator.py:71-72 | The new package directory holds its `buck` build-file entry |
| FilePathGenerator.GeneratePackagePath | scripts/artificialproject/file_path_generator.py:60-76 | As written: the reuse branch counts down; a new package fails exactly when the drawing fails |
| FilePathGenerator.NewPackageKeptAsWritten | scripts/artificialproject/file_path_generator.py:73-75 | As written, a new package is always remembered, with `targets - 1` uses left |
| FilePathGenerator.SingleTargetPackageHandedOutTwice | scripts/artificialproject/file_path_generator.py:60-76 | As written, a package drawn with one target is handed out once more |
| FilePathGenerator.GeneratePackagePathIntended | scripts/artificialproject/file_path_generator.py:60-76 | Corrected: the same countdown, but a package is remembered only while it has uses left |
| FilePathGenerator.NewPackageKeptAsIntended | scripts/artificialproject/file_path_generator.py:73-75 | Corrected: a new package is remembered iff it has targets left |
| FilePathGenerator.Countdown | scripts/artificialproject/file_path_generator.py:61-66 | A package with n uses left is handed out exactly n more times, then forgotten |
| FilePathGenerator.IntendedPackageUses | scripts/artificialproject/file_path_generator.py:60-76 | Corrected: a package drawn with t targets is handed out exactly t times in all |
| FilePathGenerator.GeneratePathInPackage | scripts/artificialproject/file_path_generator.py:78-105 | Depth 0 gives the empty path. A missing package directory and a negative depth fail. Otherwise the streams move forward |
| FilePathGenerator.FileEntered | scripts/artificialproject/file_path_generator.py:104 | The generated file is entered in its directory |
| FilePathGenerator.InPackageFindsDirectories | scripts/artificialproject/file_path_generator.py:93-103 | From a resolving state with the package present, no directory is missing |

## Left out

- I/O is left out:
  - rendering of StringTemplate files;
  - `mkdirs`, temp files, moves and the project cleaner;
  - the module, library and module-index writers of `IjProjectWriter.write`. Their data comes from the template preparer, which is not part of this model.
- Concurrency is left out:
  - the daemon is a value threaded through calls;
  - the semaphore is a permit count.
- Watchman, the parser, the event bus, caches owned by a daemon, and the rest of `runMainWithExitCode` are left out. Only the gate and the exit-code paths are modelled.
- `BuckConfig.getListWithoutComments`, `getEnum`, `getPath`, `getInteger` and `getSourcePath` are left out. The IntelliJ SDK target list is a parameter. `getSrcRoots`, `getDxThreadCount`, the spool mode and the ABI generation mode are left out.
- `JavacSpec.getJavacSource` and `JavaLanguageLevelHelper` are parameters.
- `String.replaceAll` is modelled as a literal replacement. The regex meaning of `$` and `\` in the replacement is left out.
- `Config.ParseBoolean` accepts only `true`/`yes`/`false`/`no`, compared after ASCII lower-casing.
- BuckDaemon.ParseInt: accepts only the ASCII digits `0`-`9`. `Integer.parseInt` also accepts other Unicode decimal digits (fullwidth, Arabic-Indic and others, through `Character.digit`); the model reports such text as unparsable, so such a port disables the web server here. The Unicode digit tables are not modelled.
- Strings are compared and lower-cased by ASCII rules. Unicode case folding is left out, and so is Guava's wider whitespace class.
- The build-rule resolver is left out. Its answers are carried by nodes or are parameters: rule outputs, `getPathIfJavaLibrary`, interface libraries, and the module-factory resolver's annotation-output, Android-resource and dummy `R.java` paths (`IjModuleFactory.Resolver`). The resolver's manifest, ProGuard and assets paths are left out with the facet contents below.
- IjModuleFactory.CreateModule: does not model the module's dependencies (`addDeps`, lines 359-368, 463, 559 and 592). The merging of dependency types is done by `ModuleBuildContext`, which is not part of this model. The facet contents other than its generated-source path are also left out: manifest, ProGuard config, assets, resource paths, package name, the autogeneration and library switches. Folders are modelled as path sets by role (source and test folders together, generated, Android resource, exclude). The folder kind (source or test), the package-prefix flag, the per-folder input lists and the merging of folders with the same path are left out. Whether a node's constructor argument is a `JvmLibraryArg` is carried by the node.
- Description classes are closed enumerations, so `instanceof` on unknown subclasses is not modelled.
- `getBuildFlags` ends by shell-escaping the flags. The escaping is left out; the model stops at the flag list.
- `ProductType` identifiers other than the watch application are left out.
- `MoreMaps.mergeSorted` is modelled by key order under ordinal string comparison. UTF-16 surrogate ordering is left out.
- The platform linker's whole-archive arguments are abstract.
- From the path generator:
  - `analyze_project_data` and `add_package_file_sample` are left out. They only gather statistics for `weighted_choice`, which is a parameter.
  - The recompute of the per-depth sizes when `_file_samples_dirty` is set is left out.
  - `weighted_choice` distributions are left out.
  - `register_path` and `generate_path_in_package` are modelled on relative paths only. For an absolute path `os.path.split` never reaches the empty string, and the source loops forever.
  - A trie entry that is `None` (a file) where a directory is expected is reported as a missing directory. The source raises `TypeError` or `KeyError` there.
- FilePathGenerator.GeneratePackagePath: its contract states only the reuse branch and when a new package fails. What a new package leaves behind is stated by `NewPackageKeptAsWritten` and `SingleTargetPackageHandedOutTwice`.
- FilePathGenerator.GeneratePackagePathIntended: likewise, its kept-package facts are in `NewPackageKeptAsIntended` and `IntendedPackageUses`.
- FilePathGenerator.GenerateParent: its contract states only the depth-0 case and that the streams move forward. The reuse, preservation and resolution facts are in `GenerateParentReuses`, `GenerateParentKeeps` and `GenerateParentResolves`.

## Findings

| source | as written | input that shows it | evidently intended | confidence | as-written member | corrected member |
|---|---|---|---|---|---|---|
| src/com/facebook/buck/cli/Main.java:629-644 | `rootPath` and `parserRoot` are both read from the new cell, so the "unsupported root path change" error can never be raised | A daemon serving root `/a`, then a command for root `/b`: the old daemon is silently replaced | Compare the running daemon's root with the new cell's root and raise the error when they differ | not executed | BuckDaemon.GetDaemonSwitchesRootSilently | BuckDaemon.GetDaemonCheckingRoot |
| src/com/facebook/buck/ide/intellij/DefaultIjLibraryFactory.java:63 | `uniqueLibraryNamesSet` is checked at lines 106-108 but never added to, so the clash check never fires | Two distinct nodes `//a:lib` and `//b:lib` whose library names coincide: both libraries are created | Record each created library's name so that a second target with the same name is rejected | not executed | IjLibraryFactory.CollidingNamesAccepted | IjLibraryFactory.CollidingNamesRejected |
| scripts/artificialproject/file_path_generator.py:73-75 | A new package is always remembered with `weighted_choice(...) - 1` uses left, even when that is 0 | A package drawn with 1 target: the next call hands out the same package again, because the `<= 0` check runs only on reuse | A package drawn with t targets is handed out exactly t times | not executed | FilePathGenerator.SingleTargetPackageHandedOutTwice | FilePathGenerator.IntendedPackageUses |
