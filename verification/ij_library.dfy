/** IntelliJ library creation (src/com/facebook/buck/ide/intellij/DefaultIjLibraryFactory.java):
    the rule index keyed by description class, rule precedence with the
    Java-library fallback, library construction, and the per-node memo.
    The resolver's answers are carried by the node. */
module IjLibraryFactory {
  import opened Wrappers
  import opened Paths

  datatype LibraryClass = AndroidPrebuiltAar | PrebuiltJar | OtherLibraryClass(name: string)

  /** A target node with what the resolver reports about it. */
  datatype LibraryNode = LibraryNode(
    target: string,
    cls: LibraryClass,
    javaLibraryPath: Option<Path>,
    binaryJar: Path,
    sourceJar: Option<Path>,
    javadocUrl: Option<string>)

  datatype LibraryRule = AarRule | PrebuiltJarRule | JavaLibraryRule(binaryJarPath: Path)

  datatype IjLibrary = IjLibrary(
    name: string,
    targets: set<LibraryNode>,
    binaryJar: Option<Path>,
    sourceJar: Option<Path>,
    javadocUrl: Option<string>)

  datatype LibraryError = AlreadyIndexed(cls: LibraryClass) | DuplicateLibraryName(name: string)

  // ---------------------------------------------------------------------
  // Rule index
  // ---------------------------------------------------------------------

  /** `addToIndex`: a description class may be indexed once. */
  function AddToIndex(index: set<LibraryClass>, cls: LibraryClass): (r: Result<set<LibraryClass>, LibraryError>)
    ensures r.Failure? <==> cls in index
    ensures r.Success? ==> r.value == index + {cls}
  {
    if cls in index then Failure(AlreadyIndexed(cls)) else Success(index + {cls})
  }

  /** Indexes `classes` in order; the first class already present stops it. */
  function IndexAll(index: set<LibraryClass>, classes: seq<LibraryClass>): (r: Result<set<LibraryClass>, LibraryError>)
    ensures r.Success? <==>
              (forall i :: 0 <= i < |classes| ==> classes[i] !in index) &&
              (forall i, j :: 0 <= i < j < |classes| ==> classes[i] != classes[j])
    ensures r.Success? ==> r.value == index + set c | c in classes
    decreases |classes|
  {
    if classes == [] then Success(index)
    else
      var next :- AddToIndex(index, classes[0]);
      var r := IndexAll(next, classes[1..]);
      assert r.Success? ==> r.value == index + set c | c in classes by {
        if r.Success? {
          assert forall c :: c in classes <==> c == classes[0] || c in classes[1..];
        }
      }
      assert (forall i, j :: 0 <= i < j < |classes| ==> classes[i] != classes[j]) <==>
             (forall i :: 0 <= i < |classes[1..]| ==> classes[1..][i] != classes[0]) &&
             (forall i, j :: 0 <= i < j < |classes[1..]| ==> classes[1..][i] != classes[1..][j]) by {
        if forall i :: 0 <= i < |classes[1..]| ==> classes[1..][i] != classes[0] {
          if forall i, j :: 0 <= i < j < |classes[1..]| ==> classes[1..][i] != classes[1..][j] {
            forall i, j | 0 <= i < j < |classes| ensures classes[i] != classes[j] {
              if i == 0 { assert classes[j] == classes[1..][j - 1]; }
              else { assert classes[i] == classes[1..][i - 1] && classes[j] == classes[1..][j - 1]; }
            }
          }
        }
      }
      r
  }

  /** The factory's constructor indexes the AAR rule, then the prebuilt-jar rule. */
  function InitialIndex(): (r: Result<set<LibraryClass>, LibraryError>)
    ensures r == Success({AndroidPrebuiltAar, PrebuiltJar})
  {
    var classes := [AndroidPrebuiltAar, PrebuiltJar];
    assert (set c | c in classes) == {AndroidPrebuiltAar, PrebuiltJar};
    assert forall i, j :: 0 <= i < j < |classes| ==> classes[i] != classes[j] by {
      assert classes[0] != classes[1];
    }
    var empty: set<LibraryClass> := {};
    var r := IndexAll(empty, classes);
    assert r.Success?;
    assert r.value == {AndroidPrebuiltAar, PrebuiltJar};
    assert r == Success(r.value);
    r
  }

  /** Indexing a class twice always fails. */
  lemma IndexingTwiceFails(index: set<LibraryClass>, cls: LibraryClass)
    ensures AddToIndex(index, cls).Success? ==> AddToIndex(AddToIndex(index, cls).value, cls).Failure?
  {
  }

  /** `getRule`: the rule indexed for the node's class wins; otherwise a
      node the resolver reports as a Java library gets a binary-jar rule. */
  function GetRule(index: set<LibraryClass>, node: LibraryNode): (r: Option<LibraryRule>)
    ensures node.cls in index && node.cls == AndroidPrebuiltAar ==> r == Some(AarRule)
    ensures node.cls in index && node.cls == PrebuiltJar ==> r == Some(PrebuiltJarRule)
    ensures node.cls !in index ==> (r.Some? <==> node.javaLibraryPath.Some?)
    ensures node.cls !in index && r.Some? ==> r == Some(JavaLibraryRule(node.javaLibraryPath.value))
    ensures r.Some? && r.value.JavaLibraryRule? ==> node.cls !in index
  {
    if node.cls in index then
      match node.cls
      case AndroidPrebuiltAar => Some(AarRule)
      case PrebuiltJar => Some(PrebuiltJarRule)
      case OtherLibraryClass(_) => None
    else
      match node.javaLibraryPath
      case Some(p) => Some(JavaLibraryRule(p))
      case None => None
  }

  /** What a rule puts into the library builder. */
  function ApplyRule(rule: LibraryRule, node: LibraryNode, name: string): (lib: IjLibrary)
    ensures lib.name == name && lib.targets == {node}
  {
    match rule
    case AarRule => IjLibrary(name, {node}, node.javaLibraryPath, node.sourceJar, node.javadocUrl)
    case PrebuiltJarRule => IjLibrary(name, {node}, Some(node.binaryJar), node.sourceJar, node.javadocUrl)
    case JavaLibraryRule(p) => IjLibrary(name, {node}, Some(p), None, None)
  }

  // ---------------------------------------------------------------------
  // The factory as written
  // ---------------------------------------------------------------------

  /** The factory's state. `uniqueNames` is `uniqueLibraryNamesSet`;
      `creations` lists the nodes `createLibrary` ran for, in order. */
  datatype Factory = Factory(
    index: set<LibraryClass>,
    uniqueNames: set<string>,
    cache: map<LibraryNode, Option<IjLibrary>>,
    creations: seq<LibraryNode>)

  function NewFactory(): (f: Factory)
    ensures f.index == {AndroidPrebuiltAar, PrebuiltJar} && f.uniqueNames == {} && f.cache == map[] && f.creations == []
  {
    Factory(InitialIndex().value, {}, map[], [])
  }

  /** `createLibrary`: empty without a rule; otherwise the library named
      `name` (`Util.intelliJLibraryName` of the node's target) holding
      just the node, unless the name was used before. */
  function CreateLibrary(f: Factory, node: LibraryNode, name: string): (r: Result<Option<IjLibrary>, LibraryError>)
    ensures GetRule(f.index, node).None? ==> r == Success(None)
    ensures GetRule(f.index, node).Some? ==> (r.Failure? <==> name in f.uniqueNames)
    ensures r.Success? && r.value.Some? ==>
              r.value.value.name == name && r.value.value.targets == {node} && GetRule(f.index, node).Some?
  {
    match GetRule(f.index, node)
    case None => Success(None)
    case Some(rule) =>
      if name in f.uniqueNames then Failure(DuplicateLibraryName(name))
      else Success(Some(ApplyRule(rule, node, name)))
  }

  /** `getLibrary` as written: the cached answer when there is one;
      otherwise `createLibrary`, whose answer (empty included) is cached.
      `nameOf` is `Util.intelliJLibraryName`. */
  function GetLibrary(f: Factory, node: LibraryNode, nameOf: string -> string)
    : (r: Result<(Factory, Option<IjLibrary>), LibraryError>)
    ensures node in f.cache ==> r == Success((f, f.cache[node]))
    ensures node !in f.cache && r.Success? ==>
              && r.value.0 == f.(cache := f.cache[node := r.value.1], creations := f.creations + [node])
              && Success(r.value.1) == CreateLibrary(f, node, nameOf(node.target))
    ensures r.Success? ==> node in r.value.0.cache && r.value.0.cache[node] == r.value.1
    ensures r.Success? ==> r.value.0.uniqueNames == f.uniqueNames && r.value.0.index == f.index
  {
    if node in f.cache then Success((f, f.cache[node]))
    else
      var library :- CreateLibrary(f, node, nameOf(node.target));
      Success((f.(cache := f.cache[node := library], creations := f.creations + [node]), library))
  }

  /** A second request for the same node is answered from the cache. */
  lemma GetLibraryMemoised(f: Factory, node: LibraryNode, nameOf: string -> string)
    requires GetLibrary(f, node, nameOf).Success?
    ensures var (f1, lib) := GetLibrary(f, node, nameOf).value;
            GetLibrary(f1, node, nameOf) == Success((f1, lib))
  {
  }

  /** The cache covers exactly the nodes created so far, each once. */
  ghost predicate MemoInvariant(f: Factory) {
    && (forall n :: n in f.cache <==> n in f.creations)
    && (forall i, j :: 0 <= i < j < |f.creations| ==> f.creations[i] != f.creations[j])
  }

  /** Serves requests in order; the first failure stops. */
  function Serve(f: Factory, nodes: seq<LibraryNode>, nameOf: string -> string)
    : (r: Result<(Factory, seq<Option<IjLibrary>>), LibraryError>)
    ensures r.Success? ==> |r.value.1| == |nodes| && r.value.0.uniqueNames == f.uniqueNames
    decreases |nodes|
  {
    if nodes == [] then Success((f, []))
    else
      var (f1, lib) :- GetLibrary(f, nodes[0], nameOf);
      var (f2, libs) :- Serve(f1, nodes[1..], nameOf);
      Success((f2, [lib] + libs))
  }

  /** `createLibrary` runs at most once per node, however often it is asked for. */
  lemma {:induction false} ServeCreatesOnce(f: Factory, nodes: seq<LibraryNode>, nameOf: string -> string)
    requires MemoInvariant(f)
    requires Serve(f, nodes, nameOf).Success?
    ensures MemoInvariant(Serve(f, nodes, nameOf).value.0)
    ensures forall n :: n in nodes ==> n in Serve(f, nodes, nameOf).value.0.cache
    decreases |nodes|
  {
    if nodes != [] {
      var (f1, lib) := GetLibrary(f, nodes[0], nameOf).value;
      assert MemoInvariant(f1) by {
        if nodes[0] !in f.cache {
          assert nodes[0] !in f.creations;
          forall i, j | 0 <= i < j < |f1.creations| ensures f1.creations[i] != f1.creations[j] {
            if j == |f1.creations| - 1 { assert f1.creations[i] == f.creations[i]; }
          }
        }
      }
      ServeCreatesOnce(f1, nodes[1..], nameOf);
      var f2 := Serve(f1, nodes[1..], nameOf).value.0;
      CacheGrows(f1, nodes[1..], nameOf);
      forall n | n in nodes ensures n in f2.cache {
        if n != nodes[0] {
          assert n in nodes[1..];
        }
      }
    }
  }

  /** Serving never drops a cache entry. */
  lemma {:induction false} CacheGrows(f: Factory, nodes: seq<LibraryNode>, nameOf: string -> string)
    requires Serve(f, nodes, nameOf).Success?
    ensures forall n :: n in f.cache ==> n in Serve(f, nodes, nameOf).value.0.cache
    decreases |nodes|
  {
    if nodes != [] {
      var (f1, _) := GetLibrary(f, nodes[0], nameOf).value;
      CacheGrows(f1, nodes[1..], nameOf);
    }
  }

  /** As written the name check never fires: `uniqueNames` starts empty
      and no operation adds to it, so a factory serves every request. */
  lemma {:induction false} NameCheckNeverFires(nodes: seq<LibraryNode>, nameOf: string -> string)
    ensures Serve(NewFactory(), nodes, nameOf).Success?
  {
    NeverFailsWithoutNames(NewFactory(), nodes, nameOf);
  }

  lemma {:induction false} NeverFailsWithoutNames(f: Factory, nodes: seq<LibraryNode>, nameOf: string -> string)
    requires f.uniqueNames == {}
    ensures Serve(f, nodes, nameOf).Success?
    decreases |nodes|
  {
    if nodes != [] {
      assert GetLibrary(f, nodes[0], nameOf).Success?;
      var (f1, _) := GetLibrary(f, nodes[0], nameOf).value;
      NeverFailsWithoutNames(f1, nodes[1..], nameOf);
    }
  }

  /** Two different Java-library targets whose library names collide. */
  lemma CollidingNamesAccepted(p: Path, q: Path)
    requires p != q
    ensures var a := LibraryNode("//a:lib", OtherLibraryClass("java_library"), Some(p), p, None, None);
            var b := LibraryNode("//b:lib", OtherLibraryClass("java_library"), Some(q), q, None, None);
            var sameName := (t: string) => "library_lib";
            Serve(NewFactory(), [a, b], sameName).Success?
  {
    var a := LibraryNode("//a:lib", OtherLibraryClass("java_library"), Some(p), p, None, None);
    var b := LibraryNode("//b:lib", OtherLibraryClass("java_library"), Some(q), q, None, None);
    NameCheckNeverFires([a, b], (t: string) => "library_lib");
  }

  // ---------------------------------------------------------------------
  // The factory as intended
  // ---------------------------------------------------------------------

  /** `getLibrary` with the name recorded once a library is created, so
      that the uniqueness check can fire. */
  function GetLibraryRecordingNames(f: Factory, node: LibraryNode, nameOf: string -> string)
    : (r: Result<(Factory, Option<IjLibrary>), LibraryError>)
    ensures node in f.cache ==> r == Success((f, f.cache[node]))
    ensures node !in f.cache && GetRule(f.index, node).Some? ==>
              (r.Failure? <==> nameOf(node.target) in f.uniqueNames)
    ensures r.Success? && r.value.1.Some? && node !in f.cache ==>
              r.value.0.uniqueNames == f.uniqueNames + {r.value.1.value.name}
  {
    if node in f.cache then Success((f, f.cache[node]))
    else
      var library :- CreateLibrary(f, node, nameOf(node.target));
      var names := if library.Some? then f.uniqueNames + {library.value.name} else f.uniqueNames;
      Success((f.(uniqueNames := names, cache := f.cache[node := library], creations := f.creations + [node]), library))
  }

  /** With names recorded, a second target reusing a library name is rejected. */
  lemma CollidingNamesRejected(f: Factory, a: LibraryNode, b: LibraryNode, nameOf: string -> string)
    requires a != b && a !in f.cache && b !in f.cache
    requires GetRule(f.index, a).Some? && GetRule(f.index, b).Some?
    requires nameOf(a.target) == nameOf(b.target)
    requires GetLibraryRecordingNames(f, a, nameOf).Success?
    ensures GetLibraryRecordingNames(GetLibraryRecordingNames(f, a, nameOf).value.0, b, nameOf).Failure?
  {
    var (f1, lib) := GetLibraryRecordingNames(f, a, nameOf).value;
    assert lib.Some?;
    assert nameOf(b.target) in f1.uniqueNames;
  }
}
