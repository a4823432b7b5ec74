/** Decisions taken by the Xcode project generator: header-map options,
    build-with-buck flags, the per-configuration build-setting merge and its
    xcconfig rendering, product types of bundles and copy-phase
    destinations. */
module XcodeProject {
  import opened Wrappers
  import Strings

  // ---------------------------------------------------------------------
  // Generator options
  // ---------------------------------------------------------------------

  datatype GeneratorOption =
    | USE_SHORT_NAMES_FOR_TARGETS
    | CREATE_DIRECTORY_STRUCTURE
    | GENERATE_READ_ONLY_FILES
    | INCLUDE_TESTS
    | INCLUDE_DEPENDENCIES_TESTS
    | DISABLE_HEADER_MAPS
    | MERGE_HEADER_MAPS
    | GENERATE_HEADERS_SYMLINK_TREES_ONLY

  predicate IsHeaderMapDisabled(options: set<GeneratorOption>) {
    DISABLE_HEADER_MAPS in options
  }

  /** One merged header map is used only when asked for, when a workspace
      target exists, and when header maps are not disabled altogether. */
  function ShouldMergeHeaderMaps(options: set<GeneratorOption>, hasWorkspaceTarget: bool): (r: bool)
    ensures r ==> !IsHeaderMapDisabled(options)
    ensures r <==> (MERGE_HEADER_MAPS in options && hasWorkspaceTarget && DISABLE_HEADER_MAPS !in options)
  {
    MERGE_HEADER_MAPS in options && hasWorkspaceTarget && !IsHeaderMapDisabled(options)
  }

  /** Disabling header maps overrides a request to merge them. */
  lemma DisablingHeaderMapsWins(options: set<GeneratorOption>, hasWorkspaceTarget: bool)
    ensures !ShouldMergeHeaderMaps(options + {DISABLE_HEADER_MAPS}, hasWorkspaceTarget)
    ensures !ShouldMergeHeaderMaps(options, false)
  {
  }

  // ---------------------------------------------------------------------
  // Build-with-buck flags
  // ---------------------------------------------------------------------

  const REPORT_ABSOLUTE_PATHS := "--report-absolute-paths"
  const SHOW_OUTPUT := "--show-output"

  /** `flags.add(0, flag)` guarded by `!flags.contains(flag)`. */
  function PrependIfMissing(flags: seq<string>, flag: string): (r: seq<string>)
    ensures flag in r
    ensures (flag in flags) <==> r == flags
    ensures flag !in flags ==> r == [flag] + flags
  {
    if flag in flags then flags else [flag] + flags
  }

  /** The flag list handed to buck by the generated build script, before
      shell escaping: both mandatory flags are present, the configured
      flags follow in their own order, and only missing flags are added. */
  function BuildFlags(flags: seq<string>): (r: seq<string>)
    ensures REPORT_ABSOLUTE_PATHS in r && SHOW_OUTPUT in r
    ensures |r| >= |flags| && r[|r| - |flags|..] == flags
    ensures |r| == |flags| + (if REPORT_ABSOLUTE_PATHS in flags then 0 else 1)
                           + (if SHOW_OUTPUT in flags then 0 else 1)
  {
    PrependIfMissing(PrependIfMissing(flags, REPORT_ABSOLUTE_PATHS), SHOW_OUTPUT)
  }

  lemma BuildFlagsBothMissing(flags: seq<string>)
    requires REPORT_ABSOLUTE_PATHS !in flags && SHOW_OUTPUT !in flags
    ensures BuildFlags(flags) == [SHOW_OUTPUT, REPORT_ABSOLUTE_PATHS] + flags
  {
    assert SHOW_OUTPUT != REPORT_ABSOLUTE_PATHS;
  }

  lemma BuildFlagsKeepsCompleteList(flags: seq<string>)
    requires REPORT_ABSOLUTE_PATHS in flags && SHOW_OUTPUT in flags
    ensures BuildFlags(flags) == flags
  {
  }

  /** Applying the rule to its own output changes nothing. */
  lemma BuildFlagsIdempotent(flags: seq<string>)
    ensures BuildFlags(BuildFlags(flags)) == BuildFlags(flags)
  {
    BuildFlagsKeepsCompleteList(BuildFlags(flags));
  }

  // ---------------------------------------------------------------------
  // Build-setting merge (setTargetBuildConfigurations)
  // ---------------------------------------------------------------------

  type Settings = map<string, string>

  const INHERITED := "$(inherited)"

  /** What an appended setting is appended to: the target's inline value,
      or the inherited value when the target sets none. */
  function AppendPrefix(inline: Settings, key: string): string {
    if key in inline then inline[key] else INHERITED
  }

  /** The value an appended setting is written with. */
  function Appended(inline: Settings, appends: Settings, key: string): string
    requires key in appends
  {
    AppendPrefix(inline, key) + " " + appends[key]
  }

  /** The combined override map, built as the generator builds it: start
      from the override settings, put each default whose key the target
      does not set inline, then put each appended setting. */
  method CombineOverrides(inline: Settings, overrides: Settings, defaults: Settings, appends: Settings)
    returns (combined: Settings)
    ensures combined.Keys == overrides.Keys + (defaults.Keys - inline.Keys) + appends.Keys
    ensures forall k :: k in appends ==> combined[k] == Appended(inline, appends, k)
    ensures forall k :: k in defaults && k !in inline && k !in appends ==> combined[k] == defaults[k]
    ensures forall k :: k in overrides && k !in appends && (k !in defaults || k in inline) ==>
                        combined[k] == overrides[k]
  {
    var withDefaults := PutDefaults(inline, overrides, defaults);
    combined := PutAppends(inline, withDefaults, appends);
  }

  /** First half of the combination: the defaults the target does not set
      inline are put over the overrides. */
  method PutDefaults(inline: Settings, overrides: Settings, defaults: Settings) returns (combined: Settings)
    ensures combined.Keys == overrides.Keys + (defaults.Keys - inline.Keys)
    ensures forall k :: k in defaults && k !in inline ==> combined[k] == defaults[k]
    ensures forall k :: k in overrides && (k !in defaults || k in inline) ==> combined[k] == overrides[k]
  {
    combined := overrides;
    var todo := defaults.Keys;
    while todo != {}
      invariant todo <= defaults.Keys
      invariant DefaultsPut(inline, overrides, defaults, combined, todo)
      decreases |todo|
    {
      var k :| k in todo;
      var next := if k !in inline then combined[k := defaults[k]] else combined;
      DefaultStep(inline, overrides, defaults, combined, todo, k);
      combined := next;
      todo := todo - {k};
    }
  }

  /** The loop state of `PutDefaults`: the defaults outside `todo` are put. */
  ghost predicate DefaultsPut(inline: Settings, overrides: Settings, defaults: Settings, combined: Settings,
                              todo: set<string>) {
    && combined.Keys == overrides.Keys + ((defaults.Keys - todo) - inline.Keys)
    && (forall k :: k in defaults && k !in todo && k !in inline ==> combined[k] == defaults[k])
    && (forall k :: k in overrides && (k !in defaults || k in todo || k in inline) ==> combined[k] == overrides[k])
  }

  lemma DefaultStep(inline: Settings, overrides: Settings, defaults: Settings, combined: Settings,
                    todo: set<string>, k: string)
    requires k in todo && todo <= defaults.Keys
    requires DefaultsPut(inline, overrides, defaults, combined, todo)
    ensures DefaultsPut(inline, overrides, defaults,
                        if k !in inline then combined[k := defaults[k]] else combined, todo - {k})
    ensures |todo - {k}| < |todo|
  {
  }

  /** Second half: every appended setting is put, extending the inline
      value or the inherited one. */
  method PutAppends(inline: Settings, base: Settings, appends: Settings) returns (combined: Settings)
    ensures combined.Keys == base.Keys + appends.Keys
    ensures forall k :: k in appends ==> combined[k] == Appended(inline, appends, k)
    ensures forall k :: k in base && k !in appends ==> combined[k] == base[k]
  {
    combined := base;
    var pending := appends.Keys;
    while pending != {}
      invariant pending <= appends.Keys
      invariant AppendsPut(inline, base, appends, combined, pending)
      decreases |pending|
    {
      var k :| k in pending;
      var next := combined[k := Appended(inline, appends, k)];
      AppendStep(inline, base, appends, combined, pending, k);
      combined := next;
      pending := pending - {k};
    }
    AppendsDone(inline, base, appends, combined);
  }

  /** The loop state of `PutAppends`: the keys outside `pending` are put. */
  ghost predicate AppendsPut(inline: Settings, base: Settings, appends: Settings, combined: Settings, pending: set<string>) {
    && combined.Keys == base.Keys + (appends.Keys - pending)
    && (forall k :: k in appends && k !in pending ==> combined[k] == Appended(inline, appends, k))
    && (forall k :: k in base && (k !in appends || k in pending) ==> combined[k] == base[k])
  }

  lemma AppendStep(inline: Settings, base: Settings, appends: Settings, combined: Settings,
                   pending: set<string>, k: string)
    requires k in pending && pending <= appends.Keys
    requires AppendsPut(inline, base, appends, combined, pending)
    ensures AppendsPut(inline, base, appends, combined[k := Appended(inline, appends, k)], pending - {k})
    ensures |pending - {k}| < |pending|
  {
  }

  lemma AppendsDone(inline: Settings, base: Settings, appends: Settings, combined: Settings)
    requires AppendsPut(inline, base, appends, combined, {})
    ensures combined.Keys == base.Keys + appends.Keys
    ensures forall k :: k in appends ==> combined[k] == Appended(inline, appends, k)
    ensures forall k :: k in base && k !in appends ==> combined[k] == base[k]
  {
    assert appends.Keys - {} == appends.Keys;
  }

  /** `MoreMaps.mergeSorted(first, second)`: every key of either map, the
      second map's value winning. */
  function MergeMaps(first: Settings, second: Settings): (r: Settings)
    ensures r.Keys == first.Keys + second.Keys
    ensures forall k :: k in second ==> r[k] == second[k]
    ensures forall k :: k in first && k !in second ==> r[k] == first[k]
  {
    first + second
  }

  /** The settings written for one build configuration, with the
      precedence the generator implements: appended settings extend the
      inline value (or the inherited one); defaults apply only where the
      target sets nothing inline, and then beat the overrides; overrides
      beat inline values; inline values survive everywhere else. */
  method MergedSettings(inline: Settings, overrides: Settings, defaults: Settings, appends: Settings)
    returns (merged: Settings)
    ensures merged.Keys == inline.Keys + overrides.Keys + defaults.Keys + appends.Keys
    ensures forall k :: k in appends ==> merged[k] == Appended(inline, appends, k)
    ensures forall k :: k in defaults && k !in inline && k !in appends ==> merged[k] == defaults[k]
    ensures forall k :: k in overrides && k !in appends && (k !in defaults || k in inline) ==>
                        merged[k] == overrides[k]
    ensures forall k :: k in inline && k !in overrides && k !in appends ==> merged[k] == inline[k]
  {
    var combined := CombineOverrides(inline, overrides, defaults, appends);
    merged := MergeMaps(inline, combined);
  }

  // ---------------------------------------------------------------------
  // xcconfig rendering
  // ---------------------------------------------------------------------

  /** `String.compareTo` order: first differing character, then length. */
  predicate Less(a: string, b: string)
    decreases |a|
  {
    if |a| == 0 then |b| > 0
    else if |b| == 0 then false
    else if a[0] != b[0] then a[0] < b[0]
    else Less(a[1..], b[1..])
  }

  lemma {:induction false} LessIrreflexive(a: string)
    ensures !Less(a, a)
    decreases |a|
  {
    if |a| > 0 {
      LessIrreflexive(a[1..]);
    }
  }

  lemma {:induction false} LessTransitive(a: string, b: string, c: string)
    requires Less(a, b) && Less(b, c)
    ensures Less(a, c)
    decreases |a|
  {
    if |a| > 0 && a[0] == b[0] && b[0] == c[0] {
      LessTransitive(a[1..], b[1..], c[1..]);
    }
  }

  lemma {:induction false} LessTotal(a: string, b: string)
    requires a != b
    ensures Less(a, b) || Less(b, a)
    decreases |a|
  {
    if |a| > 0 && |b| > 0 && a[0] == b[0] {
      assert a == [a[0]] + a[1..] && b == [b[0]] + b[1..];
      LessTotal(a[1..], b[1..]);
    }
  }

  type Entry = (string, string)

  /** Keys strictly increasing, as in a sorted map's entry set. */
  ghost predicate Sorted(es: seq<Entry>) {
    forall i, j :: 0 <= i < j < |es| ==> Less(es[i].0, es[j].0)
  }

  function KeysOf(es: seq<Entry>): set<string> {
    if es == [] then {} else {es[0].0} + KeysOf(es[1..])
  }

  /** The map a list of entries denotes. */
  function ToMap(es: seq<Entry>): (m: Settings)
    ensures m.Keys == KeysOf(es)
  {
    if es == [] then map[] else ToMap(es[1..])[es[0].0 := es[0].1]
  }

  lemma {:induction false} KeysOfIndex(es: seq<Entry>, k: string)
    requires k in KeysOf(es)
    ensures exists i :: 0 <= i < |es| && es[i].0 == k
  {
    if es[0].0 != k {
      KeysOfIndex(es[1..], k);
      var i :| 0 <= i < |es[1..]| && es[1..][i].0 == k;
      assert es[i + 1].0 == k;
    }
  }

  lemma SortedTail(es: seq<Entry>)
    requires |es| > 0 && Sorted(es)
    ensures Sorted(es[1..])
    ensures forall k :: k in KeysOf(es[1..]) ==> Less(es[0].0, k)
  {
    forall k | k in KeysOf(es[1..]) ensures Less(es[0].0, k) {
      KeysOfIndex(es[1..], k);
    }
  }

  /** Inserts an entry before the first entry with a greater key. */
  function Insert(es: seq<Entry>, e: Entry): (r: seq<Entry>)
    ensures |r| == |es| + 1
    ensures KeysOf(r) == KeysOf(es) + {e.0}
  {
    if es == [] || Less(e.0, es[0].0) then [e] + es
    else [es[0]] + Insert(es[1..], e)
  }

  /** Inserting a fresh key keeps the list sorted. */
  lemma {:induction false} InsertSorted(es: seq<Entry>, e: Entry)
    requires Sorted(es) && e.0 !in KeysOf(es)
    ensures Sorted(Insert(es, e))
  {
    if es == [] {
    } else if Less(e.0, es[0].0) {
      InsertFront(es, e);
    } else {
      SortedTail(es);
      LessTotal(e.0, es[0].0);
      InsertSorted(es[1..], e);
      ConsSorted(es[0], Insert(es[1..], e));
    }
  }

  /** Inserting a fresh key adds the entry to the map the list denotes. */
  lemma {:induction false} InsertToMap(es: seq<Entry>, e: Entry)
    requires e.0 !in KeysOf(es)
    ensures ToMap(Insert(es, e)) == ToMap(es)[e.0 := e.1]
  {
    if es != [] && !Less(e.0, es[0].0) {
      InsertToMap(es[1..], e);
      assert ToMap(Insert(es, e)) == ToMap(Insert(es[1..], e))[es[0].0 := es[0].1];
    }
  }

  lemma ConsSorted(x: Entry, rest: seq<Entry>)
    requires Sorted(rest)
    requires forall k :: k in KeysOf(rest) ==> Less(x.0, k)
    ensures Sorted([x] + rest)
  {
    var r := [x] + rest;
    forall i, j | 0 <= i < j < |r| ensures Less(r[i].0, r[j].0) {
      if i == 0 {
        KeysOfMember(rest, j - 1);
      }
    }
  }

  lemma {:induction false} KeysOfMember(es: seq<Entry>, i: nat)
    requires i < |es|
    ensures es[i].0 in KeysOf(es)
  {
    if i > 0 {
      KeysOfMember(es[1..], i - 1);
    }
  }

  lemma InsertFront(es: seq<Entry>, e: Entry)
    requires Sorted(es) && |es| > 0 && Less(e.0, es[0].0)
    ensures Sorted([e] + es)
  {
    var r := [e] + es;
    forall i, j | 0 <= i < j < |r| ensures Less(r[i].0, r[j].0) {
      if i == 0 && j > 1 {
        LessTransitive(e.0, es[0].0, es[j - 1].0);
      }
    }
  }

  /** The entries of a sorted map, in iteration order. */
  method SortedEntries(m: Settings) returns (es: seq<Entry>)
    ensures Sorted(es)
    ensures ToMap(es) == m
  {
    es := [];
    var todo := m.Keys;
    while todo != {}
      invariant todo <= m.Keys
      invariant Sorted(es)
      invariant ToMap(es) == m - todo
      decreases |todo|
    {
      var k :| k in todo;
      SortedEntriesStep(m, todo, es, k);
      es := Insert(es, (k, m[k]));
      todo := todo - {k};
    }
    assert m - {} == m;
  }

  /** One step of `SortedEntries`: inserting a key still to do. */
  lemma SortedEntriesStep(m: Settings, todo: set<string>, es: seq<Entry>, k: string)
    requires todo <= m.Keys && k in todo
    requires Sorted(es) && ToMap(es) == m - todo
    ensures Sorted(Insert(es, (k, m[k])))
    ensures ToMap(Insert(es, (k, m[k]))) == m - (todo - {k})
  {
    assert k !in KeysOf(es);
    InsertSorted(es, (k, m[k]));
    InsertToMap(es, (k, m[k]));
    assert (m - todo)[k := m[k]] == m - (todo - {k});
  }

  /** A sorted entry list is determined by the map it denotes, so the
      rendering depends on the merged settings alone. */
  lemma {:induction false} SortedEntriesUnique(a: seq<Entry>, b: seq<Entry>)
    requires Sorted(a) && Sorted(b) && ToMap(a) == ToMap(b)
    ensures a == b
    decreases |a|
  {
    if a == [] || b == [] {
    } else {
      SortedTail(a);
      SortedTail(b);
      assert a[0].0 == b[0].0 by {
        if a[0].0 != b[0].0 {
          assert a[0].0 in KeysOf(b[1..]);
          assert b[0].0 in KeysOf(a[1..]);
          LessTransitive(a[0].0, b[0].0, a[0].0);
          LessIrreflexive(a[0].0);
        }
      }
      assert a[0].1 == ToMap(a)[a[0].0];
      assert b[0].1 == ToMap(b)[b[0].0];
      assert a[0].0 !in KeysOf(a[1..]) by { if a[0].0 in KeysOf(a[1..]) { LessIrreflexive(a[0].0); } }
      assert b[0].0 !in KeysOf(b[1..]) by { if b[0].0 in KeysOf(b[1..]) { LessIrreflexive(b[0].0); } }
      assert ToMap(a[1..]) == ToMap(a) - {a[0].0};
      assert ToMap(b[1..]) == ToMap(b) - {b[0].0};
      SortedEntriesUnique(a[1..], b[1..]);
      assert a == [a[0]] + a[1..] && b == [b[0]] + b[1..];
    }
  }

  function Line(e: Entry): string {
    e.0 + " = " + e.1
  }

  /** The xcconfig text: one `key = value` line per entry, each ending in
      a newline. */
  function Render(es: seq<Entry>): (text: string)
    ensures es == [] <==> text == []
  {
    if es == [] then "" else Line(es[0]) + "\n" + Render(es[1..])
  }

  /** The xcconfig file of one configuration. */
  method XcconfigContents(inline: Settings, overrides: Settings, defaults: Settings, appends: Settings)
    returns (text: string, entries: seq<Entry>)
    ensures Sorted(entries)
    ensures text == Render(entries)
    ensures KeysOf(entries) == inline.Keys + overrides.Keys + defaults.Keys + appends.Keys
    ensures forall k :: k in appends ==> ToMap(entries)[k] == Appended(inline, appends, k)
    ensures forall k :: k in inline && k !in overrides && k !in appends ==> ToMap(entries)[k] == inline[k]
  {
    var merged := MergedSettings(inline, overrides, defaults, appends);
    entries := SortedEntries(merged);
    text := Render(entries);
  }

  /** First position of `c` in `s`, or `|s|`. */
  function IndexOf(s: string, c: char): (r: nat)
    ensures r <= |s|
    ensures r < |s| ==> s[r] == c
    ensures forall j :: 0 <= j < r ==> s[j] != c
  {
    if |s| == 0 then 0
    else if s[0] == c then 0
    else 1 + IndexOf(s[1..], c)
  }

  /** Reads one xcconfig line back: the key ends before the first `=`. */
  function ParseLine(line: string): Option<Entry> {
    var i := IndexOf(line, '=');
    if 1 <= i && i + 1 < |line| && line[i - 1] == ' ' && line[i + 1] == ' '
    then Some((line[..i - 1], line[i + 2..]))
    else None
  }

  function ParseLines(lines: seq<string>): Option<seq<Entry>> {
    if lines == [] then Some([])
    else
      var e :- ParseLine(lines[0]);
      var rest :- ParseLines(lines[1..]);
      Some([e] + rest)
  }

  /** Reads an xcconfig text back into its entries. */
  function ParseXcconfig(text: string): Option<seq<Entry>> {
    var parts := Strings.SplitOn(text, '\n');
    if parts[|parts| - 1] != "" then None
    else ParseLines(parts[..|parts| - 1])
  }

  ghost predicate Renderable(es: seq<Entry>) {
    forall i :: 0 <= i < |es| ==> '=' !in es[i].0 && '\n' !in es[i].0 && '\n' !in es[i].1
  }

  lemma ParseLineOfLine(e: Entry)
    requires '=' !in e.0
    ensures ParseLine(Line(e)) == Some(e)
  {
    var line := Line(e);
    assert line[|e.0| + 1] == '=';
    assert forall j :: 0 <= j < |e.0| ==> line[j] == e.0[j];
    assert IndexOf(line, '=') == |e.0| + 1;
    assert line[..|e.0|] == e.0;
    assert line[|e.0| + 3..] == e.1;
  }

  function Lines(es: seq<Entry>): (r: seq<string>)
    ensures |r| == |es|
    ensures forall i :: 0 <= i < |es| ==> r[i] == Line(es[i])
  {
    if es == [] then [] else [Line(es[0])] + Lines(es[1..])
  }

  lemma {:induction false} RenderIsJoin(es: seq<Entry>)
    ensures Render(es) == Strings.JoinWith(Lines(es) + [""], '\n')
  {
    if es != [] {
      RenderIsJoin(es[1..]);
      var parts := Lines(es) + [""];
      assert parts[1..] == Lines(es[1..]) + [""];
    }
  }

  lemma {:induction false} ParseLinesOfLines(es: seq<Entry>)
    requires Renderable(es)
    ensures ParseLines(Lines(es)) == Some(es)
  {
    if es != [] {
      var lines := Lines(es);
      ParseLineOfLine(es[0]);
      assert lines[0] == Line(es[0]);
      assert lines[1..] == Lines(es[1..]);
      ParseLinesOfLines(es[1..]);
      assert ParseLines(lines) == Some([es[0]] + es[1..]);
      assert [es[0]] + es[1..] == es;
    }
  }

  lemma LineHasNoNewline(e: Entry)
    requires '\n' !in e.0 && '\n' !in e.1
    ensures '\n' !in Line(e)
  {
    assert forall c :: c in Line(e) ==> c in e.0 || c == ' ' || c == '=' || c in e.1;
  }

  /** Rendering loses nothing: the text reads back as the same entries
      when no key holds `=` or a newline and no value holds a newline. */
  lemma RenderRoundTrip(es: seq<Entry>)
    requires Renderable(es)
    ensures ParseXcconfig(Render(es)) == Some(es)
  {
    var parts := Lines(es) + [""];
    forall i | 0 <= i < |parts| ensures '\n' !in parts[i] {
      if i < |es| {
        LineHasNoNewline(es[i]);
      }
    }
    RenderIsJoin(es);
    Strings.JoinThenSplit(parts, '\n');
    assert parts[..|parts| - 1] == Lines(es);
    ParseLinesOfLines(es);
  }

  // ---------------------------------------------------------------------
  // Product types
  // ---------------------------------------------------------------------

  /** An Xcode product type, identified by its identifier string. */
  datatype ProductType = ProductType(identifier: string)

  const APPLICATION := ProductType("com.apple.product-type.application")
  const WATCH_APPLICATION := ProductType("com.apple.product-type.application.watchapp2")
  const FRAMEWORK_PRODUCT := ProductType("com.apple.product-type.framework")
  const STATIC_FRAMEWORK := ProductType("com.apple.product-type.framework.static")
  const APP_EXTENSION := ProductType("com.apple.product-type.app-extension")
  const BUNDLE_PRODUCT := ProductType("com.apple.product-type.bundle")
  const UNIT_TEST := ProductType("com.apple.product-type.bundle.unit-test")
  const UI_TEST := ProductType("com.apple.product-type.bundle.ui-testing")

  /** The bundle extensions the generator distinguishes; every other
      constant of the enumeration is `OtherExtension`. */
  datatype BundleExtension = APP | FRAMEWORK | APPEX | PLUGIN | BUNDLE | XCTEST | OtherExtension(name: string)

  /** A bundle's `extension`: an enumerated one or a free string. */
  datatype Extension = Known(ext: BundleExtension) | Custom(text: string)

  /** Product type of a bundle whose binary is a shared library. */
  function DylibProductType(ext: BundleExtension): (r: Option<ProductType>)
    ensures r.Some? <==> ext in {FRAMEWORK, APPEX, BUNDLE, XCTEST}
  {
    match ext
    case FRAMEWORK => Some(FRAMEWORK_PRODUCT)
    case APPEX => Some(APP_EXTENSION)
    case BUNDLE => Some(BUNDLE_PRODUCT)
    case XCTEST => Some(UNIT_TEST)
    case _ => None
  }

  /** Distinct extensions in the table give distinct product types. */
  lemma DylibProductTypeInjective(a: BundleExtension, b: BundleExtension)
    requires DylibProductType(a).Some? && DylibProductType(a) == DylibProductType(b)
    ensures a == b
  {
  }

  /** What a bundle's binary is. Apple and C++ libraries behave alike. */
  datatype BinaryKind = LibraryBinary(shared: bool) | ExecutableBinary | TestBinary(isUiTest: bool) | OtherBinary

  function BundleToTargetProductType(xcodeProductType: Option<string>, extension: Extension, binary: BinaryKind)
    : (r: ProductType)
    ensures xcodeProductType.Some? ==> r == ProductType(xcodeProductType.value)
    ensures xcodeProductType.None? && extension.Custom? ==> r == BUNDLE_PRODUCT
    ensures xcodeProductType.None? && extension.Known? && binary.TestBinary? ==>
              r == (if binary.isUiTest then UI_TEST else UNIT_TEST)
    ensures xcodeProductType.None? && extension.Known? && binary == LibraryBinary(true) ==>
              r == DylibProductType(extension.ext).GetOr(BUNDLE_PRODUCT)
  {
    if xcodeProductType.Some? then ProductType(xcodeProductType.value)
    else if extension.Known? then
      var ext := extension.ext;
      match binary
      case LibraryBinary(shared) =>
        if shared then DylibProductType(ext).GetOr(BUNDLE_PRODUCT)
        else if ext == FRAMEWORK then STATIC_FRAMEWORK
        else BUNDLE_PRODUCT
      case ExecutableBinary => if ext == APP then APPLICATION else BUNDLE_PRODUCT
      case TestBinary(isUiTest) => if isUiTest then UI_TEST else UNIT_TEST
      case OtherBinary => BUNDLE_PRODUCT
    else BUNDLE_PRODUCT
  }

  /** Without an explicit product type, a bundle is an application exactly
      when it has the `app` extension and an executable binary. */
  lemma ApplicationIff(extension: Extension, binary: BinaryKind)
    ensures BundleToTargetProductType(None, extension, binary) == APPLICATION
            <==> (extension == Known(APP) && binary == ExecutableBinary)
  {
  }

  /** ... and a static framework exactly when a non-shared library is
      wrapped with the `framework` extension. */
  lemma StaticFrameworkIff(extension: Extension, binary: BinaryKind)
    ensures BundleToTargetProductType(None, extension, binary) == STATIC_FRAMEWORK
            <==> (extension == Known(FRAMEWORK) && binary == LibraryBinary(false))
  {
  }

  /** ... and a plain bundle exactly when no rule picks something else. */
  lemma PlainBundleIff(extension: Extension, binary: BinaryKind)
    ensures BundleToTargetProductType(None, extension, binary) == BUNDLE_PRODUCT
            <==> (|| extension.Custom?
                  || binary == OtherBinary
                  || (binary == LibraryBinary(true) && extension.ext !in {FRAMEWORK, APPEX, XCTEST})
                  || (binary == LibraryBinary(false) && extension.ext != FRAMEWORK)
                  || (binary == ExecutableBinary && extension.ext != APP))
  {
  }

  // ---------------------------------------------------------------------
  // Copy-phase destinations
  // ---------------------------------------------------------------------

  /** The description of a node copied into a bundle. */
  datatype Description =
    | AppleBundle(extension: Extension, xcodeProductType: Option<string>)
    | AppleLibrary(shared: bool)
    | CxxLibrary(shared: bool)
    | AppleBinary
    | HalideLibrary
    | CoreDataModel
    | SceneKitAssets
    | PrebuiltAppleFramework
    | OtherDescription(className: string)

  datatype Destination = FRAMEWORKS | PLUGINS | EXECUTABLES | PRODUCTS | RESOURCES

  datatype DestinationSpec = DestinationSpec(destination: Destination, path: Option<string>)

  /** The runtime error raised for a description the generator does not know. */
  datatype UnexpectedType = UnexpectedType(className: string)

  const WATCH_PATH := "$(CONTENTS_FOLDER_PATH)/Watch"

  predicate IsWatchApplication(d: Description) {
    d.AppleBundle? && d.xcodeProductType == Some(WATCH_APPLICATION.identifier)
  }

  function Spec(d: Destination): DestinationSpec {
    DestinationSpec(d, None)
  }

  function DestinationSpecFor(d: Description): (r: Result<Option<DestinationSpec>, UnexpectedType>)
    ensures r.Failure? <==> d.OtherDescription?
    ensures r.Success? && r.value.Some? && r.value.value.path.Some? ==> r.value.value.path == Some(WATCH_PATH)
  {
    match d
    case AppleBundle(extension, _) =>
      var ext := if extension.Known? then extension.ext else BUNDLE;
      (match ext
       case FRAMEWORK => Success(Some(Spec(FRAMEWORKS)))
       case APPEX => Success(Some(Spec(PLUGINS)))
       case PLUGIN => Success(Some(Spec(PLUGINS)))
       case APP =>
         if IsWatchApplication(d) then Success(Some(DestinationSpec(PRODUCTS, Some(WATCH_PATH))))
         else Success(Some(Spec(EXECUTABLES)))
       case BUNDLE => Success(Some(Spec(PLUGINS)))
       case _ => Success(Some(Spec(PRODUCTS))))
    case AppleLibrary(shared) => Success(if shared then Some(Spec(FRAMEWORKS)) else None)
    case CxxLibrary(shared) => Success(if shared then Some(Spec(FRAMEWORKS)) else None)
    case AppleBinary => Success(Some(Spec(EXECUTABLES)))
    case HalideLibrary => Success(None)
    case CoreDataModel => Success(Some(Spec(RESOURCES)))
    case SceneKitAssets => Success(Some(Spec(RESOURCES)))
    case PrebuiltAppleFramework => Success(Some(Spec(FRAMEWORKS)))
    case OtherDescription(name) => Failure(UnexpectedType(name))
  }

  /** A node is left out of every copy phase exactly when it is a
      non-shared library or a Halide library. */
  lemma NoDestinationIff(d: Description)
    ensures DestinationSpecFor(d) == Success(None)
            <==> (d == AppleLibrary(false) || d == CxxLibrary(false) || d == HalideLibrary)
  {
  }

  /** Only a watch application gets a sub-path, and it lands in PRODUCTS. */
  lemma WatchDestinationIff(d: Description)
    ensures (&& DestinationSpecFor(d).Success?
             && DestinationSpecFor(d).value.Some?
             && DestinationSpecFor(d).value.value.path.Some?)
            <==> (IsWatchApplication(d) && d.extension == Known(APP))
    ensures IsWatchApplication(d) && d.extension == Known(APP) ==>
              DestinationSpecFor(d) == Success(Some(DestinationSpec(PRODUCTS, Some(WATCH_PATH))))
  {
  }

  /** Nodes copied into FRAMEWORKS. */
  lemma FrameworksDestinationIff(d: Description)
    ensures DestinationSpecFor(d) == Success(Some(Spec(FRAMEWORKS)))
            <==> (|| (d.AppleBundle? && d.extension == Known(FRAMEWORK))
                  || d == AppleLibrary(true) || d == CxxLibrary(true)
                  || d == PrebuiltAppleFramework)
  {
  }

  /** A bundle with a free-string extension is treated as `bundle`. */
  lemma CustomExtensionIsPlugin(text: string, productType: Option<string>)
    ensures DestinationSpecFor(AppleBundle(Custom(text), productType)) == Success(Some(Spec(PLUGINS)))
  {
  }

  // ---------------------------------------------------------------------
  // One copy-files phase (getSingleCopyFilesBuildPhase)
  // ---------------------------------------------------------------------

  /** A node to copy: its build target, the target with flavors removed,
      and whether its file reference is a `wrapper.framework`. */
  datatype CopyNode = CopyNode(target: string, unflavored: string, isFramework: bool)

  /** A build file of the phase; frameworks carry the copy attributes. */
  datatype BuildFile = BuildFile(node: CopyNode, attributes: Option<seq<string>>)

  const FRAMEWORK_ATTRIBUTES := ["CodeSignOnCopy", "RemoveHeadersOnCopy"]

  /** Unflavored targets of the framework nodes among `nodes`. */
  function FrameworkTargets(nodes: seq<CopyNode>): set<string> {
    if nodes == [] then {}
    else
      var last := nodes[|nodes| - 1];
      FrameworkTargets(nodes[..|nodes| - 1]) + (if last.isFramework then {last.unflavored} else {})
  }

  /** Reference definition: the nodes a phase keeps, each framework only
      at the first occurrence of its unflavored target. */
  function KeptNodes(nodes: seq<CopyNode>): seq<CopyNode> {
    if nodes == [] then []
    else
      var init := nodes[..|nodes| - 1];
      var last := nodes[|nodes| - 1];
      if last.isFramework && last.unflavored in FrameworkTargets(init) then KeptNodes(init)
      else KeptNodes(init) + [last]
  }

  function ToBuildFile(n: CopyNode): BuildFile {
    BuildFile(n, if n.isFramework then Some(FRAMEWORK_ATTRIBUTES) else None)
  }

  function ToBuildFiles(nodes: seq<CopyNode>): (r: seq<BuildFile>)
    ensures |r| == |nodes|
    ensures forall i :: 0 <= i < |nodes| ==> r[i] == ToBuildFile(nodes[i])
  {
    if nodes == [] then [] else ToBuildFiles(nodes[..|nodes| - 1]) + [ToBuildFile(nodes[|nodes| - 1])]
  }

  method SingleCopyFilesBuildPhase(nodes: seq<CopyNode>) returns (files: seq<BuildFile>)
    ensures files == ToBuildFiles(KeptNodes(nodes))
  {
    files := [];
    var seen: set<string> := {};
    var i := 0;
    while i < |nodes|
      invariant 0 <= i <= |nodes|
      invariant seen == FrameworkTargets(nodes[..i])
      invariant files == ToBuildFiles(KeptNodes(nodes[..i]))
    {
      var node := nodes[i];
      KeptStep(nodes, i);
      if node.isFramework && node.unflavored in seen {
      } else {
        ToBuildFilesSnoc(KeptNodes(nodes[..i]), node);
        files := files + [ToBuildFile(node)];
        if node.isFramework {
          seen := seen + {node.unflavored};
        }
      }
      i := i + 1;
    }
    assert nodes[..|nodes|] == nodes;
  }

  /** How the reference definitions grow by one node. */
  lemma KeptStep(nodes: seq<CopyNode>, i: nat)
    requires i < |nodes|
    ensures var n := nodes[i];
            && FrameworkTargets(nodes[..i + 1]) ==
                 FrameworkTargets(nodes[..i]) + (if n.isFramework then {n.unflavored} else {})
            && KeptNodes(nodes[..i + 1]) ==
                 if n.isFramework && n.unflavored in FrameworkTargets(nodes[..i]) then KeptNodes(nodes[..i])
                 else KeptNodes(nodes[..i]) + [n]
  {
    assert nodes[..i + 1][..i] == nodes[..i];
    assert nodes[..i + 1][i] == nodes[i];
  }

  lemma ToBuildFilesSnoc(ns: seq<CopyNode>, n: CopyNode)
    ensures ToBuildFiles(ns + [n]) == ToBuildFiles(ns) + [ToBuildFile(n)]
  {
    assert (ns + [n])[..|ns|] == ns;
  }

  function NonFrameworks(nodes: seq<CopyNode>): seq<CopyNode> {
    if nodes == [] then []
    else
      var last := nodes[|nodes| - 1];
      NonFrameworks(nodes[..|nodes| - 1]) + (if last.isFramework then [] else [last])
  }

  /** Every entry that is not a framework is kept, in order. */
  lemma {:induction false} KeptNodesKeepsNonFrameworks(nodes: seq<CopyNode>)
    ensures NonFrameworks(KeptNodes(nodes)) == NonFrameworks(nodes)
  {
    if nodes != [] {
      var init := nodes[..|nodes| - 1];
      var last := nodes[|nodes| - 1];
      KeptNodesKeepsNonFrameworks(init);
      if !(last.isFramework && last.unflavored in FrameworkTargets(init)) {
        var k := KeptNodes(init) + [last];
        assert k[..|k| - 1] == KeptNodes(init);
      }
    }
  }

  /** Every framework target of the input is still represented. */
  lemma {:induction false} KeptNodesCoversFrameworks(nodes: seq<CopyNode>)
    ensures FrameworkTargets(KeptNodes(nodes)) == FrameworkTargets(nodes)
  {
    if nodes != [] {
      var init := nodes[..|nodes| - 1];
      var last := nodes[|nodes| - 1];
      KeptNodesCoversFrameworks(init);
      if !(last.isFramework && last.unflavored in FrameworkTargets(init)) {
        var k := KeptNodes(init) + [last];
        assert k[..|k| - 1] == KeptNodes(init);
      }
    }
  }

  lemma {:induction false} FrameworkTargetsMember(nodes: seq<CopyNode>, i: nat)
    requires i < |nodes| && nodes[i].isFramework
    ensures nodes[i].unflavored in FrameworkTargets(nodes)
  {
    if i < |nodes| - 1 {
      var init := nodes[..|nodes| - 1];
      assert init[i] == nodes[i];
      FrameworkTargetsMember(init, i);
    }
  }

  /** No two kept frameworks share an unflavored target. */
  lemma {:induction false} KeptFrameworksDistinct(nodes: seq<CopyNode>)
    ensures var k := KeptNodes(nodes);
            forall i, j :: 0 <= i < j < |k| && k[i].isFramework && k[j].isFramework ==>
              k[i].unflavored != k[j].unflavored
  {
    if nodes != [] {
      var init := nodes[..|nodes| - 1];
      var last := nodes[|nodes| - 1];
      KeptFrameworksDistinct(init);
      if !(last.isFramework && last.unflavored in FrameworkTargets(init)) {
        var prev := KeptNodes(init);
        var k := prev + [last];
        KeptNodesCoversFrameworks(init);
        assert KeptNodes(nodes) == k;
        forall i, j | 0 <= i < j < |k| && k[i].isFramework && k[j].isFramework
          ensures k[i].unflavored != k[j].unflavored
        {
          if j == |k| - 1 {
            assert k[i] == prev[i] && k[j] == last;
            FrameworkTargetsMember(prev, i);
            assert last.unflavored !in FrameworkTargets(prev);
          } else {
            assert k[i] == prev[i] && k[j] == prev[j];
          }
        }
      } else {
        assert KeptNodes(nodes) == KeptNodes(init);
      }
    }
  }
}
