/** The artificial-project path generator
    (scripts/artificialproject/file_path_generator.py): splitting paths into
    components, the directory trie paths are registered in, collision-free
    name choice, the countdown that hands one package path to several
    targets, and the bookkeeping that keeps a partly filled directory
    available. Randomness is an input: `names` is the stream of strings a
    `StringGenerator` produces and `choices` the stream of values
    `weighted_choice` returns, each read at a cursor. */
module FilePathGenerator {
  import opened Wrappers
  import Strings

  const BUILD_FILE_NAME: string := "BUCK"
  /** The build file's entry in a package directory, `BUILD_FILE_NAME.lower()`. */
  const BUILD_FILE_KEY: string := "buck"
  const MAX_NAME_ATTEMPTS: nat := 1000

  /** `GenerationFailedException`; a missing directory (a `KeyError` in
      the source); a failed `assert depth >= 1`. */
  datatype PathError = GenerationFailed | NoSuchDirectory | DepthNotPositive

  // ---------------------------------------------------------------------
  // Paths
  // ---------------------------------------------------------------------

  /** `str.rfind`: the index of the last `c` in `s`, or -1. */
  function LastIndexOf(s: string, c: char): (r: int)
    ensures -1 <= r < |s|
    ensures r >= 0 ==> s[r] == c
  {
    if s == [] then -1
    else if s[|s| - 1] == c then |s| - 1
    else LastIndexOf(s[..|s| - 1], c)
  }

  /** No `c` comes after the index `LastIndexOf` finds. */
  lemma {:induction false} NoneAfterLastIndex(s: string, c: char)
    ensures forall k :: LastIndexOf(s, c) < k < |s| ==> s[k] != c
    decreases |s|
  {
    if s != [] && s[|s| - 1] != c {
      NoneAfterLastIndex(s[..|s| - 1], c);
      assert forall k :: 0 <= k < |s| - 1 ==> s[..|s| - 1][k] == s[k];
    }
  }

  /** `str.rstrip(c)`: `s` without its trailing `c`s. */
  function TrimTrailing(s: string, c: char): (r: string)
    ensures |r| <= |s|
    ensures r == [] || r[|r| - 1] != c
  {
    if s != [] && s[|s| - 1] == c then TrimTrailing(s[..|s| - 1], c) else s
  }

  /** `rstrip` removes a suffix made of `c` only. */
  lemma {:induction false} TrimTrailingPrefix(s: string, c: char)
    ensures TrimTrailing(s, c) == s[..|TrimTrailing(s, c)|]
    ensures forall k :: |TrimTrailing(s, c)| <= k < |s| ==> s[k] == c
    decreases |s|
  {
    if s != [] && s[|s| - 1] == c {
      var init := s[..|s| - 1];
      TrimTrailingPrefix(init, c);
      var n := |TrimTrailing(init, c)|;
      assert init[..n] == s[..n];
      assert forall k :: 0 <= k < |init| ==> init[k] == s[k];
    }
  }

  /** A path `_split_path_into_components` terminates on: absolute paths
      never shrink under `os.path.split`. */
  predicate Relative(p: string) {
    p == [] || p[0] != '/'
  }

  /** `os.path.split` on POSIX: the text before the last slash, with its
      trailing slashes removed unless it is all slashes, and the text
      after it. The head is stripped exactly when stripping leaves
      something, which is when it is neither empty nor all slashes. */
  function SplitLast(p: string): (r: (string, string))
    ensures '/' !in r.1
    ensures p == [] ==> r == ("", "")
    ensures p != [] && Relative(p) ==> |r.0| < |p| && Relative(r.0)
  {
    var i := LastIndexOf(p, '/') + 1;
    var head := p[..i];
    var tail := p[i..];
    NoneAfterLastIndex(p, '/');
    assert '/' !in tail by {
      forall k | 0 <= k < |tail| ensures tail[k] != '/' { assert tail[k] == p[i + k]; }
    }
    var trimmed := TrimTrailing(head, '/');
    TrimTrailingPrefix(head, '/');
    assert trimmed == [] || trimmed[0] == p[0];
    assert i > 0 && trimmed == [] ==> head[0] == '/';
    if trimmed != [] then (trimmed, tail) else (head, tail)
  }

  /** `os.path.basename`. */
  function Basename(p: string): string {
    SplitLast(p).1
  }

  /** `_split_path_into_components`: the components of `path`, first to last. */
  function Components(path: string): (r: seq<string>)
    requires Relative(path)
    ensures path == [] <==> r == []
    ensures forall i :: 0 <= i < |r| ==> '/' !in r[i]
    decreases |path|
  {
    if path == [] then []
    else
      var (head, tail) := SplitLast(path);
      Components(head) + [tail]
  }

  /** `os.path.join(a, b)` on POSIX. */
  function Join(a: string, b: string): string {
    if b != [] && b[0] == '/' then b
    else if a == [] || a[|a| - 1] == '/' then a + b
    else a + "/" + b
  }

  /** A relative path with no empty component: no leading, trailing or
      doubled slash. */
  ghost predicate Canonical(p: string) {
    p == [] ||
    (p[0] != '/' && p[|p| - 1] != '/' && forall i, j :: 0 <= i < |p| && j == i + 1 && j < |p| ==> !(p[i] == '/' && p[j] == '/'))
  }

  /** A component a path can be joined from. */
  predicate IsComponent(name: string) {
    name != [] && '/' !in name
  }

  /** No slash follows the one put before a component. */
  lemma NoSlashAfterJoin(p: string, name: string)
    requires IsComponent(name)
    ensures forall k :: |p| < k < |p + "/" + name| ==> (p + "/" + name)[k] != '/'
  {
    forall k | |p| < k < |p + "/" + name| ensures (p + "/" + name)[k] != '/' {
      assert (p + "/" + name)[k] == name[k - |p| - 1];
    }
  }

  /** After a slash and a component, the slash is the last one. */
  lemma LastSlashOfJoin(p: string, name: string)
    requires IsComponent(name)
    ensures LastIndexOf(p + "/" + name, '/') == |p|
  {
    var q := p + "/" + name;
    NoneAfterLastIndex(q, '/');
    NoSlashAfterJoin(p, name);
    assert q[|p|] == '/';
  }

  /** Trimming the one slash after a path that does not end in one. */
  lemma TrimOneSlash(p: string)
    requires p != [] && p[|p| - 1] != '/'
    ensures TrimTrailing(p + "/", '/') == p
  {
    var t := TrimTrailing(p + "/", '/');
    TrimTrailingPrefix(p + "/", '/');
    assert (p + "/")[|p| - 1] == p[|p| - 1];
    assert |t| == |p|;
    assert (p + "/")[..|p|] == p;
  }

  /** `os.path.split` undoes joining a component onto a canonical path. */
  lemma SplitOfJoin(p: string, name: string)
    requires Canonical(p) && IsComponent(name)
    ensures SplitLast(Join(p, name)) == (p, name)
  {
    var q := Join(p, name);
    if p == [] {
      assert q == name;
      assert LastIndexOf(q, '/') == -1;
      assert q[0..] == name;
    } else {
      assert q == p + "/" + name;
      LastSlashOfJoin(p, name);
      assert q[..|p| + 1] == p + "/";
      TrimOneSlash(p);
      assert q[|p| + 1..] == name;
    }
  }

  /** Joining a component onto a canonical path gives a canonical path. */
  lemma JoinCanonical(p: string, name: string)
    requires Canonical(p) && IsComponent(name)
    ensures Canonical(Join(p, name))
  {
    var q := Join(p, name);
    if p != [] {
      assert q == p + "/" + name;
      forall i, j | 0 <= i < |q| && j == i + 1 && j < |q| ensures !(q[i] == '/' && q[j] == '/') {
        if j < |p| { assert q[i] == p[i] && q[j] == p[j]; }
        else if j == |p| { assert q[i] == p[|p| - 1]; }
        else if j == |p| + 1 { assert q[j] == name[0]; }
        else { assert q[j] == name[j - |p| - 1]; }
      }
      assert q[|q| - 1] == name[|name| - 1];
    }
  }

  /** Joining a component onto a canonical path gives a canonical path
      with exactly that component added, and that component as basename. */
  lemma JoinAddsComponent(p: string, name: string)
    requires Canonical(p) && IsComponent(name)
    ensures Canonical(Join(p, name))
    ensures Components(Join(p, name)) == Components(p) + [name]
    ensures Basename(Join(p, name)) == name
  {
    JoinCanonical(p, name);
    SplitOfJoin(p, name);
  }

  /** The path `os.path.join` builds from `comps`, one component at a time. */
  function JoinAll(comps: seq<string>): string {
    if comps == [] then "" else Join(JoinAll(comps[..|comps| - 1]), comps[|comps| - 1])
  }

  /** Splitting a joined path gives back its components. */
  lemma {:induction false} JoinAllThenSplit(comps: seq<string>)
    requires forall i :: 0 <= i < |comps| ==> IsComponent(comps[i])
    ensures Canonical(JoinAll(comps))
    ensures Components(JoinAll(comps)) == comps
  {
    if comps != [] {
      var init, last := comps[..|comps| - 1], comps[|comps| - 1];
      assert forall i :: 0 <= i < |init| ==> IsComponent(init[i]) by {
        assert forall i :: 0 <= i < |init| ==> init[i] == comps[i];
      }
      JoinAllThenSplit(init);
      var p := JoinAll(init);
      assert JoinAll(comps) == Join(p, last);
      JoinAddsComponent(p, last);
      InitThenLast(comps);
    }
  }

  lemma InitThenLast(s: seq<string>)
    requires s != []
    ensures s[..|s| - 1] + [s[|s| - 1]] == s
  {
  }

  lemma DropLast(s: seq<string>, x: string)
    ensures (s + [x])[..|s|] == s
  {
  }

  lemma JoinOntoEmpty(p: string)
    requires Relative(p)
    ensures Join("", p) == p
  {
  }

  lemma JoinAroundSlash(p: string, i: nat)
    requires 2 <= i < |p| && p[i - 1] == '/' && p[i - 2] != '/' && p[i] != '/'
    ensures Join(p[..i - 1], p[i..]) == p
  {
    assert p == p[..i - 1] + "/" + p[i..];
  }

  /** Joining the components of a canonical path gives back the path. */
  lemma {:induction false} SplitThenJoinAll(p: string)
    requires Canonical(p)
    ensures JoinAll(Components(p)) == p
    decreases |p|
  {
    if p != [] {
      var (head, tail) := SplitLast(p);
      var i := LastIndexOf(p, '/') + 1;
      assert tail == p[i..];
      assert tail != [] by { assert p[|p| - 1] != '/'; }
      if i == 0 {
        assert head == [] && tail == p;
        assert Components(p) == [p];
        assert JoinAll([p]) == Join("", p);
        JoinOntoEmpty(p);
      } else {
        assert i >= 2 by { assert p[0] != '/'; }
        assert p[i - 2] != '/';
        assert p[..i] == p[..i - 1] + "/";
        TrimOneSlash(p[..i - 1]);
        assert head == p[..i - 1];
        assert Canonical(head) by {
          forall a, b | 0 <= a && b == a + 1 && b < |head| ensures !(head[a] == '/' && head[b] == '/') {
            assert head[a] == p[a] && head[b] == p[b];
          }
        }
        SplitThenJoinAll(head);
        var comps := Components(p);
        assert comps == Components(head) + [tail];
        DropLast(Components(head), tail);
        assert JoinAll(comps) == Join(head, tail);
        JoinAroundSlash(p, i);
      }
    }
  }

  // ---------------------------------------------------------------------
  // The directory trie
  // ---------------------------------------------------------------------

  /** A directory entry: a file (`None` in the source) or a directory. */
  datatype Entry = File | Dir(entries: map<string, Entry>)
  type Directory = map<string, Entry>

  /** What a walk down a sequence of names meets. */
  datatype Walk = AllPresent | Missing | ThroughFile

  /** Walking `comps` down from `dir`: every name is present as a
      directory, or a name is missing before any file, or a file is met
      before any missing name. */
  function WalkOf(dir: Directory, comps: seq<string>): Walk
    decreases |comps|
  {
    if comps == [] then AllPresent
    else if comps[0] !in dir then Missing
    else match dir[comps[0]]
      case File => ThroughFile
      case Dir(sub) => WalkOf(sub, comps[1..])
  }

  /** The walk of `register_path` below one directory: creates each missing
      directory, fails on a file, and reports whether everything existed. */
  function RegisterIn(dir: Directory, comps: seq<string>): (r: Result<(Directory, bool), PathError>)
    ensures r.Failure? <==> WalkOf(dir, comps) == ThroughFile
    ensures r.Success? ==> (r.value.1 <==> WalkOf(dir, comps) == AllPresent)
    ensures r.Success? ==> WalkOf(r.value.0, comps) == AllPresent
    ensures r.Success? ==> forall k :: k in dir ==> k in r.value.0
    ensures r.Success? && comps != [] ==> forall k :: k in dir && k != comps[0] ==> r.value.0[k] == dir[k]
    decreases |comps|
  {
    if comps == [] then Success((dir, true))
    else if comps[0] in dir && dir[comps[0]].File? then Failure(GenerationFailed)
    else
      var sub := if comps[0] in dir then dir[comps[0]].entries else map[];
      var (sub', existed) :- RegisterIn(sub, comps[1..]);
      Success((dir[comps[0] := Dir(sub')], existed && comps[0] in dir))
  }

  /** `register_path`: adds the directories of `path` to the trie; fails
      when the walk meets a file or when nothing was new. */
  function Register(root: Directory, path: string): (r: Result<Directory, PathError>)
    requires Relative(path)
    ensures r.Success? <==> WalkOf(root, Components(path)) == Missing
    ensures r.Success? ==> WalkOf(r.value, Components(path)) == AllPresent
    ensures r.Success? ==> forall k :: k in root ==> k in r.value
  {
    var (root', existed) :- RegisterIn(root, Components(path));
    if existed then Failure(GenerationFailed) else Success(root')
  }

  /** The same path cannot be registered twice. */
  lemma RegisterTwiceFails(root: Directory, path: string)
    requires Relative(path) && Register(root, path).Success?
    ensures Register(Register(root, path).value, path).Failure?
  {
  }

  /** The directory reached by following `loc` from `root`. */
  function DirectoryAt(root: Directory, loc: seq<string>): (r: Option<Directory>)
    ensures loc == [] ==> r == Some(root)
    decreases |loc|
  {
    if loc == [] then Some(root)
    else if loc[0] in root && root[loc[0]].Dir? then DirectoryAt(root[loc[0]].entries, loc[1..])
    else None
  }

  /** `directory[name] = entry` on the directory at `loc`. */
  function PutAt(root: Directory, loc: seq<string>, name: string, entry: Entry): (r: Directory)
    ensures DirectoryAt(root, loc).Some? ==> DirectoryAt(r, loc) == Some(DirectoryAt(root, loc).value[name := entry])
    ensures DirectoryAt(root, loc).None? ==> r == root
    decreases |loc|
  {
    if loc == [] then root[name := entry]
    else if loc[0] in root && root[loc[0]].Dir? then
      root[loc[0] := Dir(PutAt(root[loc[0]].entries, loc[1..], name, entry))]
    else root
  }

  /** Adding a fresh name leaves every directory reachable. */
  lemma {:induction false} PutKeepsDirectories(root: Directory, loc: seq<string>, name: string, entry: Entry,
                                               other: seq<string>)
    requires DirectoryAt(root, loc).Some? && name !in DirectoryAt(root, loc).value
    requires DirectoryAt(root, other).Some?
    ensures DirectoryAt(PutAt(root, loc, name, entry), other).Some?
    decreases |loc|
  {
    if other != [] {
      var r := PutAt(root, loc, name, entry);
      if loc == [] {
        assert other[0] != name;
        assert r[other[0]] == root[other[0]];
      } else if other[0] == loc[0] {
        PutKeepsDirectories(root[loc[0]].entries, loc[1..], name, entry, other[1..]);
      } else {
        assert r[other[0]] == root[other[0]];
      }
    }
  }

  // ---------------------------------------------------------------------
  // Names
  // ---------------------------------------------------------------------

  /** A name `directory` can take: its lower-case form is neither an entry
      nor the build file's name. */
  predicate Acceptable(dir: Directory, name: string) {
    Strings.Lower(name) !in dir && Strings.Lower(name) != BUILD_FILE_KEY
  }

  function WithExtension(name: string, extension: Option<string>): string {
    match extension
    case None => name
    case Some(e) => name + e
  }

  /** The search of `_generate_name` from attempt `k` on, for the attempts
      `start` to `start + 999`, over the generated names `names(start)`,
      `names(start + 1)`, ... with the extension appended. */
  function NameSearch(dir: Directory, names: nat -> string, extension: Option<string>, start: nat, k: nat)
    : (r: Result<(string, nat), PathError>)
    requires start <= k <= start + MAX_NAME_ATTEMPTS
    ensures r.Failure? ==> r.error == GenerationFailed
    ensures r.Success? ==>
              && k < r.value.1 <= start + MAX_NAME_ATTEMPTS
              && r.value.0 == WithExtension(names(r.value.1 - 1), extension)
              && Acceptable(dir, r.value.0)
    decreases start + MAX_NAME_ATTEMPTS - k
  {
    if k == start + MAX_NAME_ATTEMPTS then Failure(GenerationFailed)
    else
      var name := WithExtension(names(k), extension);
      if Acceptable(dir, name) then Success((name, k + 1))
      else NameSearch(dir, names, extension, start, k + 1)
  }

  /** The search fails exactly when none of the remaining attempts gives
      a name the directory can take. */
  lemma {:induction false} NameSearchFails(dir: Directory, names: nat -> string, extension: Option<string>,
                                           start: nat, k: nat)
    requires start <= k <= start + MAX_NAME_ATTEMPTS
    ensures NameSearch(dir, names, extension, start, k).Failure? <==>
              forall j :: k <= j < start + MAX_NAME_ATTEMPTS ==> !Acceptable(dir, WithExtension(names(j), extension))
    decreases start + MAX_NAME_ATTEMPTS - k
  {
    if k < start + MAX_NAME_ATTEMPTS && !Acceptable(dir, WithExtension(names(k), extension)) {
      NameSearchFails(dir, names, extension, start, k + 1);
      assert NameSearch(dir, names, extension, start, k) == NameSearch(dir, names, extension, start, k + 1);
    }
  }

  /** A successful search stops at the first attempt that gives a name
      the directory can take. */
  lemma {:induction false} NameSearchFindsFirst(dir: Directory, names: nat -> string, extension: Option<string>,
                                                start: nat, k: nat)
    requires start <= k <= start + MAX_NAME_ATTEMPTS
    ensures NameSearch(dir, names, extension, start, k).Success? ==>
              forall j :: k <= j < NameSearch(dir, names, extension, start, k).value.1 - 1 ==>
                !Acceptable(dir, WithExtension(names(j), extension))
    decreases start + MAX_NAME_ATTEMPTS - k
  {
    if k < start + MAX_NAME_ATTEMPTS && !Acceptable(dir, WithExtension(names(k), extension)) {
      NameSearchFindsFirst(dir, names, extension, start, k + 1);
      assert NameSearch(dir, names, extension, start, k) == NameSearch(dir, names, extension, start, k + 1);
    }
  }

  /** `_generate_name`: the first of the next 1000 generated names (with
      the extension appended) that the directory can take, and the cursor
      past it; failure when none of the 1000 can. `NameSearch` states
      what it finds. */
  function GenerateName(dir: Directory, names: nat -> string, cursor: nat, extension: Option<string>)
    : Result<(string, nat), PathError>
  {
    NameSearch(dir, names, extension, cursor, cursor)
  }

  /** The build file's key is the lower-case form of its name. */
  lemma BuildFileKeyIsLowerCase()
    ensures Strings.Lower(BUILD_FILE_NAME) == BUILD_FILE_KEY
  {
  }

  // ---------------------------------------------------------------------
  // The generator
  // ---------------------------------------------------------------------

  /** A partly filled directory: its path, where it sits in the trie, and
      how many more entries it takes. */
  datatype Available = Available(path: string, location: seq<string>, size: int)

  /** The generator's state: the trie, the directories still available,
      keyed by package and depth, the package being handed out with the
      targets it has left, and how many `weighted_choice` values have been
      read. */
  datatype Generator = Generator(
    root: Directory,
    available: map<(string, int), Available>,
    lastPackagePath: Option<string>,
    lastPackageRemainingTargets: int,
    choiceCursor: nat)

  /** What `_generate_parent` returns, with the state after it: the
      directory's path and trie location, and the name cursor. */
  datatype Parent = Parent(g: Generator, path: string, location: seq<string>, cursor: nat)

  /** What `_generate_path` returns, with the state after it: the new
      path, the trie location of its parent directory, the name chosen
      in it, and the name cursor. */
  datatype NewPath = NewPath(g: Generator, path: string, parentLocation: seq<string>, name: string, cursor: nat)

  /** Every available directory is still in the trie (the source holds a
      reference to it). */
  ghost predicate Resolves(g: Generator) {
    forall k :: k in g.available ==> DirectoryAt(g.root, g.available[k].location).Some?
  }

  /** `h` comes after `g` inside one call: the package being handed out
      is untouched and no drawn value is read twice. */
  predicate Follows(g: Generator, h: Generator) {
    && h.lastPackagePath == g.lastPackagePath
    && h.lastPackageRemainingTargets == g.lastPackageRemainingTargets
    && h.choiceCursor >= g.choiceCursor
  }

  /** `h` keeps every available directory of `g` except those of package
      `packageKey` at depths 1 to `depth`, and adds none elsewhere. */
  ghost predicate KeepsOtherLevels(g: Generator, h: Generator, packageKey: string, depth: int) {
    && (forall k :: k in g.available && (k.0 != packageKey || k.1 > depth) ==>
          k in h.available && h.available[k] == g.available[k])
    && (forall k :: k in h.available && k !in g.available ==> k.0 == packageKey && 1 <= k.1 <= depth)
  }

  /** The reuse half of `_generate_parent`: the directory available
      under `key`, with one entry fewer left, dropped once none is left. */
  function ReuseDirectory(g: Generator, key: (string, int)): (r: (Generator, Available))
    requires key in g.available
    ensures r.1 == g.available[key]
    ensures key in r.0.available <==> g.available[key].size > 1
    ensures key in r.0.available ==> r.0.available[key] == g.available[key].(size := g.available[key].size - 1)
    ensures r.0.available - {key} == g.available - {key}
    ensures r.0 == g.(available := r.0.available)
  {
    var a := g.available[key];
    var available := if a.size - 1 > 0 then g.available[key := a.(size := a.size - 1)] else g.available - {key};
    (g.(available := available), a)
  }

  /** The new-directory half of `_generate_parent`, once its path is
      generated: the directory made under the parent, and the size drawn
      for it, which keeps it available under `key` when room is left. */
  function MakeDirectory(p: NewPath, key: (string, int), choices: nat -> int): (r: Parent)
    ensures r.path == p.path && r.location == p.parentLocation + [Strings.Lower(p.name)] && r.cursor == p.cursor
    ensures DirectoryAt(p.g.root, p.parentLocation).Some? ==>
              DirectoryAt(r.g.root, p.parentLocation) ==
                Some(DirectoryAt(p.g.root, p.parentLocation).value[Strings.Lower(p.name) := Dir(map[])])
    ensures r.g.choiceCursor == p.g.choiceCursor + 1
    ensures key in r.g.available <==> key in p.g.available || choices(p.g.choiceCursor) > 1
    ensures choices(p.g.choiceCursor) > 1 ==>
              r.g.available[key] == Available(r.path, r.location, choices(p.g.choiceCursor) - 1)
    ensures r.g.available - {key} == p.g.available - {key}
    ensures r.g.lastPackagePath == p.g.lastPackagePath
    ensures r.g.lastPackageRemainingTargets == p.g.lastPackageRemainingTargets
  {
    var location := p.parentLocation + [Strings.Lower(p.name)];
    var root := PutAt(p.g.root, p.parentLocation, Strings.Lower(p.name), Dir(map[]));
    var size := choices(p.g.choiceCursor) - 1;
    var available := if size > 0 then p.g.available[key := Available(p.path, location, size)] else p.g.available;
    Parent(p.g.(root := root, available := available, choiceCursor := p.g.choiceCursor + 1), p.path, location, p.cursor)
  }

  /** `_generate_parent`: a directory `depth` levels below `base` for the
      package `packageKey`. A directory left available at this depth is
      reused and its remaining size counted down, and dropped once nothing
      is left; otherwise a new directory is made as a path generated one
      level up, and kept available when the size drawn for it leaves room. */
  function GenerateParent(g: Generator, packageKey: string, base: seq<string>, depth: nat,
                          names: nat -> string, cursor: nat, choices: nat -> int)
    : (r: Result<Parent, PathError>)
    ensures depth == 0 ==> r == Success(Parent(g, "", base, cursor))
    ensures r.Success? ==> Follows(g, r.value.g) && r.value.cursor >= cursor
    decreases depth, 1
  {
    var key := (packageKey, depth);
    if depth == 0 then Success(Parent(g, "", base, cursor))
    else if key in g.available then
      var (g1, a) := ReuseDirectory(g, key);
      Success(Parent(g1, a.path, a.location, cursor))
    else
      var p :- GeneratePath(g, packageKey, base, depth, names, cursor, None, choices);
      Success(MakeDirectory(p, key, choices))
  }

  /** `_generate_path`: a fresh name, with the extension, in a parent
      directory `depth - 1` levels below `base`. */
  function GeneratePath(g: Generator, packageKey: string, base: seq<string>, depth: nat,
                        names: nat -> string, cursor: nat, extension: Option<string>, choices: nat -> int)
    : (r: Result<NewPath, PathError>)
    requires depth >= 1
    ensures r.Success? ==> Follows(g, r.value.g) && r.value.cursor > cursor
    ensures r.Success? ==>
              && r.value.name == WithExtension(names(r.value.cursor - 1), extension)
              && DirectoryAt(r.value.g.root, r.value.parentLocation).Some?
              && Acceptable(DirectoryAt(r.value.g.root, r.value.parentLocation).value, r.value.name)
    decreases depth, 0
  {
    var parent :- GenerateParent(g, packageKey, base, depth - 1, names, cursor, choices);
    match DirectoryAt(parent.g.root, parent.location)
    case None => Failure(NoSuchDirectory)
    case Some(parentDir) =>
      var (name, cursor2) :- GenerateName(parentDir, names, parent.cursor, extension);
      Success(NewPath(parent.g, Join(parent.path, name), parent.location, name, cursor2))
  }

  /** A directory left available at the depth asked for is handed out
      again, with the trie and the draws untouched, its remaining size
      counted down, and dropped once nothing is left. */
  lemma GenerateParentReuses(g: Generator, packageKey: string, base: seq<string>, depth: nat,
                             names: nat -> string, cursor: nat, choices: nat -> int)
    requires depth > 0 && (packageKey, depth) in g.available
    ensures var a := g.available[(packageKey, depth)];
            var r := GenerateParent(g, packageKey, base, depth, names, cursor, choices);
            && r.Success?
            && r.value.path == a.path && r.value.location == a.location && r.value.cursor == cursor
            && r.value.g.root == g.root && r.value.g.choiceCursor == g.choiceCursor
            && ((packageKey, depth) in r.value.g.available <==> a.size > 1)
            && (a.size > 1 ==> r.value.g.available[(packageKey, depth)] == a.(size := a.size - 1))
  {
  }

  /** A map that agrees with another outside one key. */
  lemma AgreeOutside<K, V>(m: map<K, V>, m': map<K, V>, key: K, k: K)
    requires m' - {key} == m - {key} && k != key
    ensures k in m' <==> k in m
    ensures k in m ==> m'[k] == m[k]
  {
    assert k in m' <==> k in m' - {key};
    assert k in m <==> k in m - {key};
    if k in m {
      assert (m' - {key})[k] == m'[k] && (m - {key})[k] == m[k];
    }
  }

  /** `_generate_parent` at depth `depth` touches only its own package's
      available directories at depths 1 to `depth`, and draws a size
      whenever it makes a new directory. */
  lemma {:induction false} GenerateParentKeeps(g: Generator, packageKey: string, base: seq<string>, depth: nat,
                                               names: nat -> string, cursor: nat, choices: nat -> int)
    ensures var r := GenerateParent(g, packageKey, base, depth, names, cursor, choices);
            r.Success? ==> KeepsOtherLevels(g, r.value.g, packageKey, depth)
    ensures var r := GenerateParent(g, packageKey, base, depth, names, cursor, choices);
            depth > 0 && (packageKey, depth) !in g.available && r.Success? ==> g.choiceCursor < r.value.g.choiceCursor
    decreases depth, 1
  {
    var key := (packageKey, depth);
    var r := GenerateParent(g, packageKey, base, depth, names, cursor, choices);
    if depth > 0 && r.Success? {
      if key in g.available {
        var (g1, a) := ReuseDirectory(g, key);
        assert r.value.g == g1;
        forall k | k in g.available && (k.0 != packageKey || k.1 > depth)
          ensures k in g1.available && g1.available[k] == g.available[k]
        {
          AgreeOutside(g.available, g1.available, key, k);
        }
        forall k | k in g1.available ensures k in g.available {
          if k != key { AgreeOutside(g.available, g1.available, key, k); }
        }
      } else {
        GeneratePathKeeps(g, packageKey, base, depth, names, cursor, None, choices);
        var p := GeneratePath(g, packageKey, base, depth, names, cursor, None, choices).value;
        var h := MakeDirectory(p, key, choices).g;
        assert r.value.g == h;
        forall k | k in g.available && (k.0 != packageKey || k.1 > depth)
          ensures k in h.available && h.available[k] == g.available[k]
        {
          AgreeOutside(p.g.available, h.available, key, k);
        }
        forall k | k in h.available && k !in g.available ensures k.0 == packageKey && 1 <= k.1 <= depth {
          if k != key { AgreeOutside(p.g.available, h.available, key, k); }
        }
      }
    }
  }

  /** The same for `_generate_path` at depth `depth`, whose parent is one
      level up. */
  lemma {:induction false} GeneratePathKeeps(g: Generator, packageKey: string, base: seq<string>, depth: nat,
                                             names: nat -> string, cursor: nat, extension: Option<string>,
                                             choices: nat -> int)
    requires depth >= 1
    ensures var r := GeneratePath(g, packageKey, base, depth, names, cursor, extension, choices);
            r.Success? ==> KeepsOtherLevels(g, r.value.g, packageKey, depth - 1)
    decreases depth, 0
  {
    GenerateParentKeeps(g, packageKey, base, depth - 1, names, cursor, choices);
  }

  /** The generated path is the parent's path with the chosen name joined
      on, and the name is the first the parent directory can take. */
  lemma GeneratePathJoinsParent(g: Generator, packageKey: string, base: seq<string>, depth: nat,
                                names: nat -> string, cursor: nat, extension: Option<string>, choices: nat -> int)
    requires depth >= 1
    requires GeneratePath(g, packageKey, base, depth, names, cursor, extension, choices).Success?
    ensures var p := GeneratePath(g, packageKey, base, depth, names, cursor, extension, choices).value;
            var parent := GenerateParent(g, packageKey, base, depth - 1, names, cursor, choices);
            && parent.Success?
            && p.g == parent.value.g
            && p.parentLocation == parent.value.location
            && p.path == Join(parent.value.path, p.name)
            && parent.value.cursor < p.cursor
            && forall j :: parent.value.cursor <= j < p.cursor - 1 ==>
                 !Acceptable(DirectoryAt(p.g.root, p.parentLocation).value, WithExtension(names(j), extension))
  {
    var parent := GenerateParent(g, packageKey, base, depth - 1, names, cursor, choices).value;
    var dir := DirectoryAt(parent.g.root, parent.location).value;
    NameSearchFindsFirst(dir, names, extension, parent.cursor, parent.cursor);
  }

  /** A child directory's location is its parent's plus its name. */
  lemma {:induction false} DirectoryAtChild(root: Directory, loc: seq<string>, name: string)
    requires DirectoryAt(root, loc).Some? && name in DirectoryAt(root, loc).value
    requires DirectoryAt(root, loc).value[name].Dir?
    ensures DirectoryAt(root, loc + [name]) == Some(DirectoryAt(root, loc).value[name].entries)
    decreases |loc|
  {
    if loc == [] {
      assert (loc + [name])[1..] == [];
    } else {
      assert (loc + [name])[1..] == loc[1..] + [name];
      DirectoryAtChild(root[loc[0]].entries, loc[1..], name);
    }
  }

  /** Making a new directory under a parent in the trie, under a name the
      parent does not have, keeps every trie location and the available
      directories in the trie, and the new directory's location is in it. */
  lemma MakeDirectoryResolves(p: NewPath, key: (string, int), choices: nat -> int)
    requires Resolves(p.g) && DirectoryAt(p.g.root, p.parentLocation).Some?
    requires Strings.Lower(p.name) !in DirectoryAt(p.g.root, p.parentLocation).value
    ensures var r := MakeDirectory(p, key, choices);
            && Resolves(r.g)
            && DirectoryAt(r.g.root, r.location).Some?
            && forall loc :: DirectoryAt(p.g.root, loc).Some? ==> DirectoryAt(r.g.root, loc).Some?
  {
    var r := MakeDirectory(p, key, choices);
    var lowered := Strings.Lower(p.name);
    assert r.g.root == PutAt(p.g.root, p.parentLocation, lowered, Dir(map[]));
    forall loc | DirectoryAt(p.g.root, loc).Some? ensures DirectoryAt(r.g.root, loc).Some? {
      PutKeepsDirectories(p.g.root, p.parentLocation, lowered, Dir(map[]), loc);
    }
    DirectoryAtChild(r.g.root, p.parentLocation, lowered);
    forall k | k in r.g.available ensures DirectoryAt(r.g.root, r.g.available[k].location).Some? {
      if k != key {
        AgreeOutside(p.g.available, r.g.available, key, k);
      }
    }
  }

  /** Generating a parent from a state whose available directories are in
      the trie, below a directory in the trie, never misses a directory,
      keeps every trie location, keeps the available directories in the
      trie, and returns a location in it. */
  lemma {:induction false} GenerateParentResolves(g: Generator, packageKey: string, base: seq<string>, depth: nat,
                                                  names: nat -> string, cursor: nat, choices: nat -> int)
    requires Resolves(g) && DirectoryAt(g.root, base).Some?
    ensures GenerateParent(g, packageKey, base, depth, names, cursor, choices) != Failure(NoSuchDirectory)
    ensures GenerateParent(g, packageKey, base, depth, names, cursor, choices).Success? ==>
              var p := GenerateParent(g, packageKey, base, depth, names, cursor, choices).value;
              && Resolves(p.g)
              && DirectoryAt(p.g.root, p.location).Some?
              && forall loc :: DirectoryAt(g.root, loc).Some? ==> DirectoryAt(p.g.root, loc).Some?
    decreases depth, 1
  {
    var key := (packageKey, depth);
    if depth > 0 && key in g.available {
      var (g1, a) := ReuseDirectory(g, key);
      forall k | k in g1.available ensures DirectoryAt(g1.root, g1.available[k].location).Some? {
        if k != key {
          AgreeOutside(g.available, g1.available, key, k);
        }
      }
    } else if depth > 0 {
      GeneratePathResolves(g, packageKey, base, depth, names, cursor, None, choices);
      var p := GeneratePath(g, packageKey, base, depth, names, cursor, None, choices);
      if p.Success? {
        MakeDirectoryResolves(p.value, key, choices);
      }
    }
  }

  /** The same for `_generate_path`: it never misses a directory, and
      keeps every trie location and the available directories in the trie. */
  lemma {:induction false} GeneratePathResolves(g: Generator, packageKey: string, base: seq<string>, depth: nat,
                                                names: nat -> string, cursor: nat, extension: Option<string>,
                                                choices: nat -> int)
    requires depth >= 1 && Resolves(g) && DirectoryAt(g.root, base).Some?
    ensures GeneratePath(g, packageKey, base, depth, names, cursor, extension, choices) != Failure(NoSuchDirectory)
    ensures GeneratePath(g, packageKey, base, depth, names, cursor, extension, choices).Success? ==>
              var p := GeneratePath(g, packageKey, base, depth, names, cursor, extension, choices).value;
              && Resolves(p.g)
              && forall loc :: DirectoryAt(g.root, loc).Some? ==> DirectoryAt(p.g.root, loc).Some?
    decreases depth, 0
  {
    GenerateParentResolves(g, packageKey, base, depth - 1, names, cursor, choices);
  }

  // ---------------------------------------------------------------------
  // Package paths
  // ---------------------------------------------------------------------

  /** A path handed out, with the state after it and the name cursor. */
  datatype Generated = Generated(g: Generator, path: string, cursor: nat)

  /** A new package before its countdown starts: the state, its path, the
      name cursor, and the number of targets drawn for its build file. */
  datatype Package = Package(g: Generator, path: string, cursor: nat, targets: int)

  /** A package directory as `generate_package_path` enters it: holding
      just the build file. */
  const PACKAGE_DIRECTORY: Entry := Dir(map[BUILD_FILE_KEY := File])

  /** The first branch of `generate_package_path`: the package being
      handed out, with one target fewer left; none once no target is left. */
  function ReusePackage(g: Generator): (r: (Generator, string))
    requires g.lastPackagePath.Some?
    ensures r.1 == g.lastPackagePath.value
    ensures r.0.lastPackageRemainingTargets == g.lastPackageRemainingTargets - 1
    ensures r.0.lastPackagePath.None? <==> g.lastPackageRemainingTargets <= 1
    ensures r.0.lastPackagePath.Some? ==> r.0.lastPackagePath == g.lastPackagePath
    ensures r.0.root == g.root && r.0.available == g.available && r.0.choiceCursor == g.choiceCursor
  {
    var remaining := g.lastPackageRemainingTargets - 1;
    (g.(lastPackagePath := if remaining <= 0 then None else g.lastPackagePath,
        lastPackageRemainingTargets := remaining),
     g.lastPackagePath.value)
  }

  /** The second branch of `generate_package_path` up to the countdown:
      draws a depth, generates a path that deep below the root, enters the
      package directory under the path's lower-case basename, and draws how
      many targets its build file gets. */
  function NewPackage(g: Generator, names: nat -> string, cursor: nat, choices: nat -> int)
    : (r: Result<Package, PathError>)
    ensures choices(g.choiceCursor) < 1 ==> r == Failure(DepthNotPositive)
    ensures r.Success? ==> r.value.g.choiceCursor > g.choiceCursor + 1 && r.value.cursor > cursor
    ensures r.Success? ==> r.value.targets == choices(r.value.g.choiceCursor - 1)
  {
    var depth := choices(g.choiceCursor);
    if depth < 1 then Failure(DepthNotPositive)
    else
      var p :- GeneratePath(g.(choiceCursor := g.choiceCursor + 1), "//", [], depth, names, cursor, None, choices);
      var root := PutAt(p.g.root, p.parentLocation, Strings.Lower(Basename(p.path)), PACKAGE_DIRECTORY);
      Success(Package(p.g.(root := root, choiceCursor := p.g.choiceCursor + 1), p.path, p.cursor,
                      choices(p.g.choiceCursor)))
  }

  /** Some directory of `root` has `entry` under the lower-case form of
      the last component of `path`. */
  ghost predicate Entered(root: Directory, path: string, entry: Entry) {
    exists loc :: DirectoryAt(root, loc).Some? &&
      Strings.Lower(Basename(path)) in DirectoryAt(root, loc).value &&
      DirectoryAt(root, loc).value[Strings.Lower(Basename(path))] == entry
  }

  /** Putting an entry at a location in the trie enters it there. */
  lemma PutEnters(root: Directory, loc: seq<string>, path: string, entry: Entry)
    requires DirectoryAt(root, loc).Some?
    ensures Entered(PutAt(root, loc, Strings.Lower(Basename(path)), entry), path, entry)
  {
    var name := Strings.Lower(Basename(path));
    var dir := DirectoryAt(PutAt(root, loc, name, entry), loc);
    assert dir.Some? && name in dir.value && dir.value[name] == entry;
  }

  /** A new package's directory is in the trie, holding just the build
      file. */
  lemma NewPackageEntered(g: Generator, names: nat -> string, cursor: nat, choices: nat -> int)
    requires NewPackage(g, names, cursor, choices).Success?
    ensures var p := NewPackage(g, names, cursor, choices).value;
            Entered(p.g.root, p.path, PACKAGE_DIRECTORY)
  {
    var depth := choices(g.choiceCursor);
    var p := GeneratePath(g.(choiceCursor := g.choiceCursor + 1), "//", [], depth, names, cursor, None, choices);
    PutEnters(p.value.g.root, p.value.parentLocation, p.value.path, PACKAGE_DIRECTORY);
  }

  /** A new package as the written code leaves it: kept for the next
      call, with the number of targets drawn for it less one still to go. */
  predicate KeptAsWritten(r: Generated, choices: nat -> int) {
    && r.g.choiceCursor > 0
    && r.g.lastPackagePath == Some(r.path)
    && r.g.lastPackageRemainingTargets == choices(r.g.choiceCursor - 1) - 1
  }

  /** A new package as intended: the targets drawn for it less one are
      still to go, and it is kept for the next call exactly when that
      number is positive. */
  predicate KeptAsIntended(r: Generated, choices: nat -> int) {
    && r.g.choiceCursor > 0
    && r.g.lastPackageRemainingTargets == choices(r.g.choiceCursor - 1) - 1
    && (r.g.lastPackagePath.Some? <==> r.g.lastPackageRemainingTargets > 0)
    && (r.g.lastPackagePath.Some? ==> r.g.lastPackagePath == Some(r.path))
  }

  /** A new package as the written code keeps it: for the next call,
      with its targets less one still to go. */
  function KeepAsWritten(p: Package): Generated {
    Generated(p.g.(lastPackagePath := Some(p.path), lastPackageRemainingTargets := p.targets - 1),
              p.path, p.cursor)
  }

  /** A new package as intended: kept for the next call only while
      targets are left for it. */
  function KeepAsIntended(p: Package): Generated {
    var remaining := p.targets - 1;
    Generated(p.g.(lastPackagePath := if remaining > 0 then Some(p.path) else None,
                   lastPackageRemainingTargets := remaining), p.path, p.cursor)
  }

  /** `generate_package_path` as written: a new package is handed out
      with the drawn number of targets less one still to go, and is kept
      for the next call even when that number is zero. */
  function GeneratePackagePath(g: Generator, names: nat -> string, cursor: nat, choices: nat -> int)
    : (r: Result<Generated, PathError>)
    ensures g.lastPackagePath.Some? ==> r == Success(Generated(ReusePackage(g).0, g.lastPackagePath.value, cursor))
    ensures g.lastPackagePath.None? ==> (r.Failure? <==> NewPackage(g, names, cursor, choices).Failure?)
  {
    if g.lastPackagePath.Some? then
      var (g1, path) := ReusePackage(g);
      Success(Generated(g1, path, cursor))
    else
      match NewPackage(g, names, cursor, choices)
      case Failure(e) => Failure(e)
      case Success(p) => Success(KeepAsWritten(p))
  }

  /** `generate_package_path` as intended: a new package is kept for later
      calls only while targets are left for it. */
  function GeneratePackagePathIntended(g: Generator, names: nat -> string, cursor: nat, choices: nat -> int)
    : (r: Result<Generated, PathError>)
    ensures g.lastPackagePath.Some? ==> r == Success(Generated(ReusePackage(g).0, g.lastPackagePath.value, cursor))
    ensures g.lastPackagePath.None? ==> (r.Failure? <==> NewPackage(g, names, cursor, choices).Failure?)
  {
    if g.lastPackagePath.Some? then
      var (g1, path) := ReusePackage(g);
      Success(Generated(g1, path, cursor))
    else
      match NewPackage(g, names, cursor, choices)
      case Failure(e) => Failure(e)
      case Success(p) => Success(KeepAsIntended(p))
  }

  /** As written, a new package is kept for the next call whatever number
      of targets was drawn for it. */
  lemma NewPackageKeptAsWritten(g: Generator, names: nat -> string, cursor: nat, choices: nat -> int)
    requires g.lastPackagePath.None?
    ensures var r := GeneratePackagePath(g, names, cursor, choices);
            r.Success? ==> KeptAsWritten(r.value, choices)
  {
    var n := NewPackage(g, names, cursor, choices);
    if n.Success? {
      assert GeneratePackagePath(g, names, cursor, choices) == Success(KeepAsWritten(n.value));
    }
  }

  /** As intended, a new package is kept for the next call only while
      targets are left for it. */
  lemma NewPackageKeptAsIntended(g: Generator, names: nat -> string, cursor: nat, choices: nat -> int)
    requires g.lastPackagePath.None?
    ensures var r := GeneratePackagePathIntended(g, names, cursor, choices);
            r.Success? ==> KeptAsIntended(r.value, choices)
  {
    var n := NewPackage(g, names, cursor, choices);
    if n.Success? {
      assert GeneratePackagePathIntended(g, names, cursor, choices) == Success(KeepAsIntended(n.value));
    }
  }

  /** Up to `n` further calls answered from the package being handed out:
      the state after them and the paths they return. */
  function ReuseRun(g: Generator, n: nat): (r: (Generator, seq<string>))
    ensures |r.1| <= n
    decreases n
  {
    if n == 0 || g.lastPackagePath.None? then (g, [])
    else
      var (g1, path) := ReusePackage(g);
      var (g2, paths) := ReuseRun(g1, n - 1);
      (g2, [path] + paths)
  }

  /** A package with `n` targets left is handed out by exactly the next
      `n` calls. */
  lemma {:induction false} Countdown(g: Generator, n: nat)
    requires g.lastPackagePath.Some? && g.lastPackageRemainingTargets == n && n >= 1
    ensures ReuseRun(g, n).1 == seq(n, i => g.lastPackagePath.value)
    ensures ReuseRun(g, n).0.lastPackagePath.None?
    decreases n
  {
    var (g1, path) := ReusePackage(g);
    if n > 1 {
      Countdown(g1, n - 1);
      assert [path] + seq(n - 1, i => path) == seq(n, i => path);
    }
  }

  /** As written, a package drawn with a single target is handed out by
      the call that makes it and again by the next one. */
  lemma SingleTargetPackageHandedOutTwice(g: Generator, names: nat -> string, cursor: nat, choices: nat -> int,
                                          r: Generated)
    requires g.lastPackagePath.None?
    requires GeneratePackagePath(g, names, cursor, choices) == Success(r)
    ensures r.g.choiceCursor > 0
    ensures choices(r.g.choiceCursor - 1) == 1 ==>
              ReuseRun(r.g, 1) == (ReuseRun(r.g, 1).0, [r.path]) && ReuseRun(r.g, 1).0.lastPackagePath.None?
  {
    NewPackageKeptAsWritten(g, names, cursor, choices);
    if choices(r.g.choiceCursor - 1) == 1 {
      assert r.g.lastPackagePath == Some(r.path) && r.g.lastPackageRemainingTargets == 0;
      var (g2, path2) := ReusePackage(r.g);
      assert path2 == r.path && g2.lastPackagePath.None?;
      assert ReuseRun(g2, 0) == (g2, []);
      assert ReuseRun(r.g, 1) == (ReuseRun(g2, 0).0, [path2] + ReuseRun(g2, 0).1);
      assert [r.path] + [] == [r.path];
    }
  }

  /** As intended, a package drawn with `t` targets is handed out by the
      call that makes it and by exactly the next `t - 1` calls. */
  lemma IntendedPackageUses(g: Generator, names: nat -> string, cursor: nat, choices: nat -> int, r: Generated)
    requires g.lastPackagePath.None?
    requires GeneratePackagePathIntended(g, names, cursor, choices) == Success(r)
    ensures r.g.choiceCursor > 0
    ensures var t := choices(r.g.choiceCursor - 1);
            t >= 1 ==> ReuseRun(r.g, t - 1).1 == seq(t - 1, i => r.path) && ReuseRun(r.g, t - 1).0.lastPackagePath.None?
  {
    NewPackageKeptAsIntended(g, names, cursor, choices);
    var t := choices(r.g.choiceCursor - 1);
    if t > 1 {
      Countdown(r.g, t - 1);
    }
  }

  // ---------------------------------------------------------------------
  // Paths inside a package
  // ---------------------------------------------------------------------

  function LowerAll(comps: seq<string>): seq<string> {
    if comps == [] then [] else [Strings.Lower(comps[0])] + LowerAll(comps[1..])
  }

  /** `generate_path_in_package`: a file path `depth` levels below the
      package: empty for depth 0; otherwise the package's directory must
      be in the trie, and the new file is entered under its lower-case
      basename. */
  function GeneratePathInPackage(g: Generator, packagePath: string, depth: int, names: nat -> string, cursor: nat,
                                 extension: Option<string>, choices: nat -> int)
    : (r: Result<Generated, PathError>)
    requires Relative(packagePath)
    ensures depth == 0 ==> r == Success(Generated(g, "", cursor))
    ensures depth != 0 && DirectoryAt(g.root, LowerAll(Components(packagePath))).None? ==> r == Failure(NoSuchDirectory)
    ensures depth < 0 && DirectoryAt(g.root, LowerAll(Components(packagePath))).Some? ==> r == Failure(DepthNotPositive)
    ensures r.Success? && depth > 0 ==> Follows(g, r.value.g) && r.value.cursor > cursor
  {
    if depth == 0 then Success(Generated(g, "", cursor))
    else
      var base := LowerAll(Components(packagePath));
      if DirectoryAt(g.root, base).None? then Failure(NoSuchDirectory)
      else if depth < 1 then Failure(DepthNotPositive)
      else
        var p :- GeneratePath(g, packagePath, base, depth, names, cursor, extension, choices);
        var root := PutAt(p.g.root, p.parentLocation, Strings.Lower(Basename(p.path)), File);
        Success(Generated(p.g.(root := root), p.path, p.cursor))
  }

  /** A new file in a package is entered in the trie. */
  lemma FileEntered(g: Generator, packagePath: string, depth: int, names: nat -> string, cursor: nat,
                    extension: Option<string>, choices: nat -> int)
    requires Relative(packagePath) && depth > 0
    requires GeneratePathInPackage(g, packagePath, depth, names, cursor, extension, choices).Success?
    ensures var r := GeneratePathInPackage(g, packagePath, depth, names, cursor, extension, choices).value;
            Entered(r.g.root, r.path, File)
  {
    var base := LowerAll(Components(packagePath));
    var p := GeneratePath(g, packagePath, base, depth, names, cursor, extension, choices);
    PutEnters(p.value.g.root, p.value.parentLocation, p.value.path, File);
  }

  /** From a state whose available directories are in the trie, a path in
      a package that is in the trie never misses a directory. */
  lemma InPackageFindsDirectories(g: Generator, packagePath: string, depth: int, names: nat -> string, cursor: nat,
                                  extension: Option<string>, choices: nat -> int)
    requires Relative(packagePath) && Resolves(g)
    requires DirectoryAt(g.root, LowerAll(Components(packagePath))).Some?
    ensures GeneratePathInPackage(g, packagePath, depth, names, cursor, extension, choices) != Failure(NoSuchDirectory)
  {
    if depth >= 1 {
      GeneratePathResolves(g, packagePath, LowerAll(Components(packagePath)), depth, names, cursor, extension, choices);
    }
  }
}
