/** File-system paths as `java.nio.file.Path` treats them after
    normalisation: an absolute flag and a list of names. */
module Paths {
  import opened Wrappers
  import Strings

  datatype Path = Path(absolute: bool, names: seq<string>)

  /** The names of `s` between separators, empty names dropped. */
  function NonEmpty(parts: seq<string>): (r: seq<string>)
    ensures forall i :: 0 <= i < |r| ==> r[i] != "" && r[i] in parts
    ensures forall p :: p in parts && p != "" ==> p in r
  {
    if parts == [] then []
    else if parts[0] == "" then NonEmpty(parts[1..])
    else [parts[0]] + NonEmpty(parts[1..])
  }

  /** `FileSystem.getPath(s)`. */
  function ParsePath(s: string): (p: Path)
    ensures p.absolute <==> (|s| > 0 && s[0] == '/')
    ensures forall i :: 0 <= i < |p.names| ==> '/' !in p.names[i] && p.names[i] != ""
  {
    var parts := Strings.SplitOn(s, '/');
    Path(|s| > 0 && s[0] == '/', NonEmpty(parts))
  }

  /** A string without separators parses to the path of that one name. */
  lemma ParseName(n: string)
    requires '/' !in n && n != ""
    ensures ParsePath(n) == Path(false, [n])
  {
    Strings.SplitNoSeparator(n, '/');
    assert n[0] in n;
    assert [n][1..] == [];
    assert NonEmpty([n]) == [n] + NonEmpty([]);
  }

  /** The path of a single name. */
  function Name(n: string): Path {
    if n == "" then Path(false, []) else Path(false, [n])
  }

  /** `base.resolve(other)`: an absolute `other` replaces `base`. */
  function Resolve(base: Path, other: Path): (r: Path)
    ensures other.absolute ==> r == other
    ensures !other.absolute ==> r.absolute == base.absolute && r.names == base.names + other.names
  {
    if other.absolute then other else Path(base.absolute, base.names + other.names)
  }

  /** Resolving is associative. */
  lemma ResolveAssociative(a: Path, b: Path, c: Path)
    ensures Resolve(Resolve(a, b), c) == Resolve(a, Resolve(b, c))
  {
  }

  function CommonPrefixLength(a: seq<string>, b: seq<string>): (n: nat)
    ensures n <= |a| && n <= |b|
    ensures a[..n] == b[..n]
    ensures n < |a| && n < |b| ==> a[n] != b[n]
  {
    if |a| == 0 || |b| == 0 || a[0] != b[0] then 0
    else
      var m := CommonPrefixLength(a[1..], b[1..]);
      assert a[..m + 1] == [a[0]] + a[1..][..m];
      assert b[..m + 1] == [b[0]] + b[1..][..m];
      1 + m
  }

  function Ups(n: nat): (r: seq<string>)
    ensures |r| == n
  {
    if n == 0 then [] else [".."] + Ups(n - 1)
  }

  /** `base.relativize(p)` for two paths of the same kind: climb out of
      what is not shared, then descend into the rest of `p`. */
  function Relativize(base: Path, p: Path): (r: Path)
    ensures !r.absolute
  {
    var n := CommonPrefixLength(base.names, p.names);
    Path(false, Ups(|base.names| - n) + p.names[n..])
  }

  /** Relativizing undoes resolving a relative path. */
  lemma RelativizeResolve(base: Path, q: Path)
    requires !q.absolute
    ensures Relativize(base, Resolve(base, q)) == q
  {
    var p := Resolve(base, q);
    var n := CommonPrefixLength(base.names, p.names);
    assert p.names[..|base.names|] == base.names;
    assert n == |base.names|;
    assert p.names[n..] == q.names;
  }

  /** `Path.getParent()`: absent for a single relative name or a root. */
  function Parent(p: Path): (r: Option<Path>)
    ensures r.Some? <==> (|p.names| > 1 || (|p.names| == 1 && p.absolute))
    ensures r.Some? ==> r.value.absolute == p.absolute && r.value.names + [p.names[|p.names| - 1]] == p.names
  {
    if |p.names| > 1 || (|p.names| == 1 && p.absolute) then Some(Path(p.absolute, p.names[..|p.names| - 1]))
    else None
  }

  /** `Path.toString()`. */
  function Show(p: Path): string {
    (if p.absolute then "/" else "") + (if p.names == [] then "" else Strings.JoinWith(p.names, '/'))
  }
}
