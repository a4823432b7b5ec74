/** The build daemon's lifecycle and command gate (src/com/facebook/buck/cli/Main.java):
    web-server port validation, get-or-create of the process-wide daemon,
    the transitive-cell closure, the single-writer command semaphore and
    exit-code normalisation. Caches owned by a daemon are opaque here: a
    daemon is identified by its generation number. */
module BuckDaemon {
  import opened Wrappers
  import opened Config

  const FAIL_EXIT_CODE: int := 1
  const BUSY_EXIT_CODE: int := 2
  const INTERRUPTED_EXIT_CODE: int := 130

  /** Bounds of Java's 32-bit `int`, which `Integer.parseInt` enforces. */
  const INT_MIN: int := -0x8000_0000
  const INT_MAX: int := 0x7fff_ffff

  // ---------------------------------------------------------------------
  // Integer.parseInt(s, 10) on ASCII digits
  // ---------------------------------------------------------------------

  predicate IsDigit(c: char) {
    '0' <= c <= '9'
  }

  predicate AllDigits(s: string) {
    forall i :: 0 <= i < |s| ==> IsDigit(s[i])
  }

  /** Decimal value of a digit string, most significant digit first. */
  function DigitsValue(s: string): nat
    requires AllDigits(s)
  {
    if |s| == 0 then 0
    else DigitsValue(s[..|s| - 1]) * 10 + (s[|s| - 1] as int - '0' as int)
  }

  /** The text after an optional leading sign. */
  function Magnitude(s: string): string {
    if |s| > 0 && (s[0] == '-' || s[0] == '+') then s[1..] else s
  }

  /** `Integer.parseInt(s, 10)`: an optional sign followed by at least one
      digit, whose value fits in 32 bits; `None` stands for the
      `NumberFormatException`. */
  function ParseInt(s: string): (r: Option<int>)
    ensures r.Some? ==> INT_MIN <= r.value <= INT_MAX
    ensures r.Some? ==> |Magnitude(s)| > 0 && AllDigits(Magnitude(s))
    ensures r.Some? && |s| > 0 && s[0] == '-' ==> r.value <= 0
    ensures r.Some? && (|s| == 0 || s[0] != '-') ==> r.value >= 0
    ensures |Magnitude(s)| > 0 && AllDigits(Magnitude(s)) ==>
              var v := if s[0] == '-' then 0 - DigitsValue(Magnitude(s)) else DigitsValue(Magnitude(s));
              (r.Some? <==> INT_MIN <= v <= INT_MAX) && (r.Some? ==> r.value == v)
  {
    var m := Magnitude(s);
    if |m| == 0 || !AllDigits(m) then None
    else
      var v: int := if s[0] == '-' then 0 - DigitsValue(m) else DigitsValue(m);
      if INT_MIN <= v <= INT_MAX then Some(v) else None
  }

  function DigitChar(d: nat): char
    requires d < 10
  {
    ('0' as int + d) as char
  }

  /** Decimal rendering of a natural number, no leading zeros. */
  function ShowNat(n: nat): (r: string)
    ensures |r| > 0 && AllDigits(r)
    ensures r[0] != '-' && r[0] != '+'
  {
    if n < 10 then [DigitChar(n)] else ShowNat(n / 10) + [DigitChar(n % 10)]
  }

  lemma {:induction false} DigitsOfShowNat(n: nat)
    ensures DigitsValue(ShowNat(n)) == n
  {
    if n >= 10 {
      DigitsOfShowNat(n / 10);
      var s := ShowNat(n);
      assert s[..|s| - 1] == ShowNat(n / 10);
    }
  }

  /** Parsing the rendering of any non-negative `int` gives it back. */
  lemma ParseShowNat(n: nat)
    requires n <= INT_MAX
    ensures ParseInt(ShowNat(n)) == Some(n)
  {
    DigitsOfShowNat(n);
  }

  /** A leading minus sign parses to the negated value. */
  lemma ParseNegatedShowNat(n: nat)
    requires n <= -INT_MIN
    ensures ParseInt("-" + ShowNat(n)) == Some(0 - n)
  {
    DigitsOfShowNat(n);
    assert Magnitude("-" + ShowNat(n)) == ShowNat(n);
  }

  /** A leading plus sign is accepted and changes nothing. */
  lemma ParsePlusShowNat(n: nat)
    requires n <= INT_MAX
    ensures ParseInt("+" + ShowNat(n)) == Some(n)
  {
    DigitsOfShowNat(n);
    assert Magnitude("+" + ShowNat(n)) == ShowNat(n);
  }

  lemma {:induction false} DigitsValueLeadingZero(s: string)
    requires AllDigits(s)
    ensures AllDigits("0" + s) && DigitsValue("0" + s) == DigitsValue(s)
  {
    if |s| > 0 {
      var init := s[..|s| - 1];
      assert AllDigits(init);
      DigitsValueLeadingZero(init);
      assert ("0" + s)[..|s|] == "0" + init;
    }
  }

  /** Leading zeros do not change the value: `080` is port 80. */
  lemma ParseLeadingZero(s: string)
    requires |s| > 0 && AllDigits(s)
    ensures ParseInt("0" + s) == ParseInt(s)
  {
    DigitsValueLeadingZero(s);
    assert Magnitude("0" + s) == "0" + s;
    assert Magnitude(s) == s;
  }

  // ---------------------------------------------------------------------
  // Configuration, cells, web server
  // ---------------------------------------------------------------------

  /** A project cell: its root path, its configuration and whatever else
      takes part in `Cell.equals` (e.g. the Android directory resolver),
      summarised as `resolverId`. */
  datatype Cell = Cell(root: string, config: BuckConfig, resolverId: nat)

  /** A running web server; `startedBy` is the generation that created it. */
  datatype WebServer = WebServer(port: int, startedBy: nat)

  /** One daemon generation and the web server it owns. */
  datatype Daemon = Daemon(cell: Cell, webServer: Option<WebServer>, generation: nat)

  /** `Daemon.getValidWebServerPort`: the `buck.httpserver.port` system
      property, else the `httpserver.port` config value; absent when the
      text is missing, empty, not an `int`, or negative. */
  function ValidWebServerPort(sysProp: Option<string>, config: BuckConfig): (r: Option<int>)
    ensures r.Some? ==> 0 <= r.value <= INT_MAX
  {
    var serverPort := if sysProp.Some? then sysProp else config.GetValue("httpserver", "port");
    if serverPort.None? || serverPort.value == "" then None
    else
      match ParseInt(serverPort.value)
      case None => None
      case Some(p) => if p >= 0 then Some(p) else None
  }

  /** The port is absent exactly when the chosen text is missing, empty,
      unparsable or negative, and otherwise it is the parsed value. */
  lemma PortAbsentIff(sysProp: Option<string>, config: BuckConfig)
    ensures var raw := if sysProp.Some? then sysProp else config.GetValue("httpserver", "port");
            ValidWebServerPort(sysProp, config).None? <==>
              raw.None? || raw.value == "" || ParseInt(raw.value).None? || ParseInt(raw.value).value < 0
    ensures var raw := if sysProp.Some? then sysProp else config.GetValue("httpserver", "port");
            ValidWebServerPort(sysProp, config).Some? ==> ParseInt(raw.value) == ValidWebServerPort(sysProp, config)
  {
  }

  /** The system property, when set, decides the port whatever the config says. */
  lemma SystemPropertyWins(sysProp: string, c1: BuckConfig, c2: BuckConfig)
    ensures ValidWebServerPort(Some(sysProp), c1) == ValidWebServerPort(Some(sysProp), c2)
  {
  }

  /** A configured decimal port is picked up verbatim. */
  lemma ConfiguredPortRoundTrip(n: nat, config: BuckConfig)
    requires n <= INT_MAX
    requires config.GetValue("httpserver", "port") == Some(ShowNat(n))
    ensures ValidWebServerPort(None, config) == Some(n)
  {
    ParseShowNat(n);
  }

  /** A negative port (e.g. -1) disables the web server. */
  lemma NegativePortDisables(n: nat, config: BuckConfig)
    requires 0 < n <= -INT_MIN
    requires config.GetValue("httpserver", "port") == Some("-" + ShowNat(n))
    ensures ValidWebServerPort(None, config) == None
  {
    ParseNegatedShowNat(n);
  }

  // ---------------------------------------------------------------------
  // Process-wide daemon state and getDaemon
  // ---------------------------------------------------------------------

  /** The static state of `Main` that outlives one command: the current
      daemon, the next generation number, which generations were closed and
      which web servers were stopped, and the command semaphore's permits. */
  datatype ServerState = ServerState(
    daemon: Option<Daemon>,
    nextGeneration: nat,
    closedGenerations: seq<nat>,
    stoppedServers: seq<WebServer>,
    permits: int)

  const InitialState: ServerState := ServerState(None, 0, [], [], 1)

  datatype DaemonError = UnsupportedRootPathChange(from: string, to: string)

  /** The `Daemon` constructor's web-server choice: the one handed over, or
      a new one when the validated port is present. */
  function NewDaemon(cell: Cell, sysProp: Option<string>, reuse: Option<WebServer>, generation: nat): (d: Daemon)
    ensures d.cell == cell && d.generation == generation
    ensures reuse.Some? ==> d.webServer == reuse
    ensures reuse.None? ==>
      (d.webServer.Some? <==> ValidWebServerPort(sysProp, cell.config).Some?)
    ensures reuse.None? && d.webServer.Some? ==>
      d.webServer.value == WebServer(ValidWebServerPort(sysProp, cell.config).value, generation)
  {
    var ws :=
      if reuse.Some? then reuse
      else match ValidWebServerPort(sysProp, cell.config)
        case Some(p) => Some(WebServer(p, generation))
        case None => None;
    Daemon(cell, ws, generation)
  }

  /** `Daemon.close`: worker pools shut down and the web server, if any, stopped. */
  function CloseDaemon(s: ServerState, d: Daemon): (r: ServerState)
    ensures r.daemon == s.daemon && r.nextGeneration == s.nextGeneration && r.permits == s.permits
    ensures r.closedGenerations == s.closedGenerations + [d.generation]
    ensures d.webServer.Some? ==> r.stoppedServers == s.stoppedServers + [d.webServer.value]
    ensures d.webServer.None? ==> r.stoppedServers == s.stoppedServers
  {
    var stopped := if d.webServer.Some? then s.stoppedServers + [d.webServer.value] else s.stoppedServers;
    s.(closedGenerations := s.closedGenerations + [d.generation], stoppedServers := stopped)
  }

  /** `shouldReuseWebServer`: a daemon exists and the validated ports of its
      config and the new config agree (both absent counts as agreeing). */
  function ShouldReuseWebServer(s: ServerState, newCell: Cell, sysProp: Option<string>): (r: bool)
    ensures r <==> (s.daemon.Some? &&
      ValidWebServerPort(sysProp, s.daemon.value.cell.config) == ValidWebServerPort(sysProp, newCell.config))
  {
    if s.daemon.None? then false
    else
      var portFromOldConfig := ValidWebServerPort(sysProp, s.daemon.value.cell.config);
      var portFromUpdatedConfig := ValidWebServerPort(sysProp, newCell.config);
      portFromOldConfig == portFromUpdatedConfig
  }

  /** With the port given as a system property both configs see the same
      port, so an existing daemon's web server is always carried over. */
  lemma SystemPropertyAlwaysReuses(s: ServerState, newCell: Cell, sysProp: string)
    requires s.daemon.Some?
    ensures ShouldReuseWebServer(s, newCell, Some(sysProp))
  {
    SystemPropertyWins(sysProp, s.daemon.value.cell.config, newCell.config);
  }

  /** `getDaemon` as written. The root-path guard compares the new cell's
      root with itself, so its error branch cannot be taken. */
  function GetDaemon(s: ServerState, cell: Cell, sysProp: Option<string>): (r: Result<(ServerState, Daemon), DaemonError>)
    ensures r.Success? ==> r.value.0.daemon == Some(r.value.1) && r.value.1.cell == cell
    ensures r.Success? ==> r.value.0.permits == s.permits
    ensures s.daemon.None? && r.Success? ==>
      r.value.1 == NewDaemon(cell, sysProp, None, s.nextGeneration) &&
      r.value.0.closedGenerations == s.closedGenerations
    ensures s.daemon.Some? && s.daemon.value.cell == cell ==> r == Success((s, s.daemon.value))
    ensures s.daemon.Some? && s.daemon.value.cell != cell && r.Success? ==>
      var prev := s.daemon.value;
      var reuse := ShouldReuseWebServer(s, cell, sysProp);
      && r.value.1.generation == s.nextGeneration
      && r.value.0.nextGeneration == s.nextGeneration + 1
      && (reuse ==>
            (&& r.value.0.closedGenerations == s.closedGenerations
             && r.value.0.stoppedServers == s.stoppedServers
             && r.value.1 == NewDaemon(cell, sysProp, prev.webServer, s.nextGeneration)
             && (prev.webServer.Some? ==> r.value.1.webServer == prev.webServer)))
      && (!reuse ==>
            (&& r.value.0.closedGenerations == s.closedGenerations + [prev.generation]
             && r.value.0.stoppedServers == CloseDaemon(s, prev).stoppedServers
             && r.value.1 == NewDaemon(cell, sysProp, None, s.nextGeneration)))
  {
    var rootPath := cell.root;
    if s.daemon.None? then
      var d := NewDaemon(cell, sysProp, None, s.nextGeneration);
      Success((s.(daemon := Some(d), nextGeneration := s.nextGeneration + 1), d))
    else
      var parserRoot := cell.root;
      if rootPath != parserRoot then
        Failure(UnsupportedRootPathChange(rootPath, parserRoot))
      else if s.daemon.value.cell == cell then
        Success((s, s.daemon.value))
      else
        var prev := s.daemon.value;
        var reuse := ShouldReuseWebServer(s, cell, sysProp);
        var webServer := if reuse then prev.webServer else None;
        var s1 := if reuse then s else CloseDaemon(s, prev);
        var d := NewDaemon(cell, sysProp, webServer, s.nextGeneration);
        Success((s1.(daemon := Some(d), nextGeneration := s.nextGeneration + 1), d))
  }

  /** Without reuse the old server is stopped and never carried over: the
      new daemon has a server exactly when the new port is valid, on that
      port. */
  lemma PortChangeRestartsWebServer(s: ServerState, cell: Cell, sysProp: Option<string>)
    requires s.daemon.Some? && s.daemon.value.cell != cell
    requires !ShouldReuseWebServer(s, cell, sysProp)
    ensures var r := GetDaemon(s, cell, sysProp);
            var port := ValidWebServerPort(sysProp, cell.config);
            && r.Success?
            && (s.daemon.value.webServer.Some? ==> s.daemon.value.webServer.value in r.value.0.stoppedServers)
            && (r.value.1.webServer.Some? <==> port.Some?)
            && (port.Some? ==> r.value.1.webServer == Some(WebServer(port.value, s.nextGeneration)))
  {
    GetDaemonNeverRejectsRoot(s, cell, sysProp);
  }

  /** As written, `getDaemon` never raises the root-path error. */
  lemma GetDaemonNeverRejectsRoot(s: ServerState, cell: Cell, sysProp: Option<string>)
    ensures GetDaemon(s, cell, sysProp).Success?
  {
  }

  /** Concrete case: a daemon serving `/a` is silently replaced by one for
      `/b` instead of reporting the unsupported root change. */
  lemma GetDaemonSwitchesRootSilently()
    ensures
      var cfg := BuckConfig(map[]);
      var s := InitialState.(daemon := Some(Daemon(Cell("/a", cfg, 0), None, 0)), nextGeneration := 1);
      var r := GetDaemon(s, Cell("/b", cfg, 0), None);
      r.Success? && r.value.1.cell.root == "/b" && r.value.0.closedGenerations == []
  {
  }

  /** `getDaemon` with the root check the comment describes: the existing
      daemon's root is compared with the new cell's root. */
  function GetDaemonCheckingRoot(s: ServerState, cell: Cell, sysProp: Option<string>): (r: Result<(ServerState, Daemon), DaemonError>)
    ensures r.Failure? <==> s.daemon.Some? && s.daemon.value.cell.root != cell.root
    ensures r.Failure? ==> r.error == UnsupportedRootPathChange(s.daemon.value.cell.root, cell.root)
    ensures r.Success? ==> r == GetDaemon(s, cell, sysProp)
  {
    if s.daemon.Some? && s.daemon.value.cell.root != cell.root then
      Failure(UnsupportedRootPathChange(s.daemon.value.cell.root, cell.root))
    else
      GetDaemon(s, cell, sysProp)
  }

  /** Two successive requests for the same cell yield the same daemon and
      the second leaves the state untouched. */
  lemma GetDaemonIdempotent(s: ServerState, cell: Cell, sysProp: Option<string>)
    ensures var r1 := GetDaemon(s, cell, sysProp);
            r1.Success? && GetDaemon(r1.value.0, cell, sysProp) == r1
  {
  }

  // ---------------------------------------------------------------------
  // FreshInstanceAction selection (runMainThenExit)
  // ---------------------------------------------------------------------

  datatype FreshInstanceAction = NONE | POST_OVERFLOW_EVENT

  /** Only a command served by an already running daemon turns a Watchman
      added-instance report into an overflow event; the first command of a
      process instead announces a new daemon instance. */
  function FreshInstanceActionFor(s: ServerState): (a: FreshInstanceAction)
    ensures a == NONE <==> s.daemon.None?
  {
    if s.daemon.None? then NONE else POST_OVERFLOW_EVENT
  }

  // ---------------------------------------------------------------------
  // Transitive cells
  // ---------------------------------------------------------------------

  /** Known roots of each cell, by cell root; a cell absent from the map has none. */
  type CellGraph = map<string, set<string>>

  function Successors(g: CellGraph, c: string): set<string> {
    if c in g then g[c] else {}
  }

  ghost predicate Closed(g: CellGraph, s: set<string>) {
    forall c :: c in s ==> Successors(g, c) <= s
  }

  /** Every cell named anywhere in `g`. */
  ghost function Named(g: CellGraph): (u: set<string>)
    ensures forall c :: Successors(g, c) <= u
    decreases |g|
  {
    if g == map[] then {}
    else
      var k :| k in g;
      var rest := g - {k};
      var u := g[k] + Named(rest);
      assert forall c :: Successors(g, c) <= u by {
        forall c ensures Successors(g, c) <= u {
          if c != k {
            assert Successors(g, c) == Successors(rest, c);
          }
        }
      }
      u
  }

  /** Every member outside `todo` has all its known roots in `cells`. */
  ghost predicate ClosedExcept(g: CellGraph, cells: set<string>, todo: set<string>) {
    forall c :: c in cells && c !in todo ==> Successors(g, c) <= cells
  }

  /** `cells` lies inside every closed set that contains the root. */
  ghost predicate BelowEveryClosed(g: CellGraph, root: string, cells: set<string>) {
    forall s: set<string> :: root in s && Closed(g, s) ==> cells <= s
  }

  /** `getTransitiveCells`: the least set of cells that contains the root
      and every known root of each of its members. */
  method TransitiveCells(g: CellGraph, root: string) returns (cells: set<string>)
    ensures root in cells
    ensures Closed(g, cells)
    ensures forall s: set<string> :: root in s && Closed(g, s) ==> cells <= s
  {
    cells := {root};
    var todo := {root};
    ghost var U := {root} + Named(g);
    while todo != {}
      invariant todo <= cells <= U
      invariant root in cells
      invariant ClosedExcept(g, cells, todo)
      invariant BelowEveryClosed(g, root, cells)
      decreases |U - cells|, |todo|
    {
      var c :| c in todo;
      var next := Successors(g, c);
      var added := next - cells;
      VisitStep(g, root, cells, todo, c);
      VisitProgress(U, cells, todo, c, next);
      cells := cells + next;
      todo := (todo - {c}) + added;
    }
  }

  /** Visiting `c` keeps both loop invariants of `TransitiveCells`. */
  lemma VisitStep(g: CellGraph, root: string, cells: set<string>, todo: set<string>, c: string)
    requires c in todo && todo <= cells
    requires ClosedExcept(g, cells, todo)
    requires BelowEveryClosed(g, root, cells)
    ensures ClosedExcept(g, cells + Successors(g, c), (todo - {c}) + (Successors(g, c) - cells))
    ensures BelowEveryClosed(g, root, cells + Successors(g, c))
  {
    var next := Successors(g, c);
    forall s: set<string> | root in s && Closed(g, s)
      ensures cells + next <= s
    {
      assert c in s;
    }
  }

  /** Visiting a member of `todo` either adds a cell not seen before or
      shrinks `todo`. */
  lemma VisitProgress(U: set<string>, cells: set<string>, todo: set<string>, c: string, next: set<string>)
    requires c in todo && todo <= cells <= U && next <= U
    ensures cells + next <= U
    ensures (todo - {c}) + (next - cells) <= cells + next
    ensures |U - (cells + next)| < |U - cells| ||
            (|U - (cells + next)| == |U - cells| && |(todo - {c}) + (next - cells)| < |todo|)
  {
    var added := next - cells;
    if added != {} {
      ComplementShrinks(U, cells, added);
      assert cells + next == cells + added;
    } else {
      assert next <= cells by {
        forall x | x in next ensures x in cells {
          assert x !in added;
        }
      }
      assert cells + next == cells;
      assert (todo - {c}) + added == todo - {c};
    }
  }

  lemma ComplementShrinks(U: set<string>, cells: set<string>, added: set<string>)
    requires added != {} && added <= U && added !! cells
    ensures |U - (cells + added)| < |U - cells|
  {
    var A := U - cells;
    var B := U - (cells + added);
    assert A == B + (A - B);
    assert B * (A - B) == {};
    var x :| x in added;
    assert x in A - B;
  }

  // ---------------------------------------------------------------------
  // Command gate and exit codes (runMainWithExitCode / runMainThenExit)
  // ---------------------------------------------------------------------

  /** `Semaphore.tryAcquire`: takes a permit when one is available. */
  function TryAcquire(permits: int): (r: (bool, int))
    ensures r.0 <==> permits > 0
    ensures r.1 == if r.0 then permits - 1 else permits
  {
    if permits > 0 then (true, permits - 1) else (false, permits)
  }

  /** With the single permit taken by a command still running, a second
      mutating command is refused at once. */
  lemma GateExclusive()
    ensures var first := TryAcquire(1);
            first.0 && !TryAcquire(first.1).0
  {
  }

  /** What `command.run` does, supplied by the caller. */
  datatype CommandOutcome = Exited(code: int) | Interrupted | Crashed

  /** One command invocation: whether it is read-only, whether the code
      between acquiring the gate and running the command throws, what the
      command does, and whether the tail after the inner `finally` throws. */
  datatype Invocation = Invocation(readOnly: bool, setupThrows: bool, outcome: CommandOutcome, tailThrows: bool)

  datatype Escape = InterruptedEscape | OtherEscape

  datatype MainResult = Returned(exitCode: int) | Raised(escape: Escape)

  datatype GateEvent = Acquired | Released

  /** The observable effect of one run: its result, the permits left, the
      gate operations in order, and the exit code posted with the command's
      finished or interrupted event, if one was posted. */
  datatype Run = Run(result: MainResult, permits: int, gate: seq<GateEvent>, postedExitCode: Option<int>)

  /** The gate and exit-code logic of `runMainWithExitCode`, with the
      source's `commandSemaphoreAcquired` flag and its two `finally` blocks. */
  method RunMainWithExitCode(permits: int, inv: Invocation) returns (run: Run)
    ensures inv.readOnly ==> run.gate == [] && run.permits == permits
    ensures !inv.readOnly && permits <= 0 ==>
      run == Run(Returned(BUSY_EXIT_CODE), permits, [], None)
    ensures !inv.readOnly && permits > 0 ==>
      run.gate == [Acquired, Released] && run.permits == permits
    ensures run.result == Returned(BUSY_EXIT_CODE) ==> !inv.readOnly && permits <= 0
    ensures (inv.readOnly || permits > 0) && !inv.setupThrows ==>
      match inv.outcome
      case Interrupted => run.result == Raised(InterruptedEscape) && run.postedExitCode == Some(INTERRUPTED_EXIT_CODE)
      case Crashed => run.result == Raised(OtherEscape) && run.postedExitCode == None
      case Exited(c) =>
        var normalised := if c == BUSY_EXIT_CODE then FAIL_EXIT_CODE else c;
        run.postedExitCode == Some(normalised) &&
        run.result == (if inv.tailThrows then Raised(OtherEscape) else Returned(normalised))
    ensures (inv.readOnly || permits > 0) && inv.setupThrows ==>
      run.result == Raised(OtherEscape) && run.postedExitCode == None
  {
    var sem := permits;
    var gate: seq<GateEvent> := [];
    var acquired := false;
    if !inv.readOnly {
      var attempt := TryAcquire(sem);
      acquired, sem := attempt.0, attempt.1;
      if !acquired {
        return Run(Returned(BUSY_EXIT_CODE), sem, [], None);
      }
      gate := gate + [Acquired];
    }

    var raised: Option<Escape> := None;
    var exitCode := FAIL_EXIT_CODE;
    var posted: Option<int> := None;
    // outer try
    if inv.setupThrows {
      raised := Some(OtherEscape);
    } else {
      // inner try
      match inv.outcome {
        case Interrupted =>
          exitCode := INTERRUPTED_EXIT_CODE;
          posted := Some(INTERRUPTED_EXIT_CODE);
          raised := Some(InterruptedEscape);
        case Crashed =>
          raised := Some(OtherEscape);
        case Exited(c) =>
          exitCode := c;
          if exitCode == BUSY_EXIT_CODE {
            exitCode := FAIL_EXIT_CODE;
          }
          posted := Some(exitCode);
      }
      // inner finally
      if acquired {
        sem := sem + 1;
        gate := gate + [Released];
        acquired := false;
      }
      if raised.None? && inv.tailThrows {
        raised := Some(OtherEscape);
      }
    }
    // outer finally
    if acquired {
      sem := sem + 1;
      gate := gate + [Released];
    }
    var result := if raised.Some? then Raised(raised.value) else Returned(exitCode);
    return Run(result, sem, gate, posted);
  }

  /** `runMainThenExit`: the process exit status. Any exception escaping
      the command, an interruption included, leaves it at `FAIL_EXIT_CODE`. */
  method RunMainThenExit(permits: int, inv: Invocation) returns (status: int, permitsAfter: int)
    ensures permitsAfter == permits
    ensures status == BUSY_EXIT_CODE <==> !inv.readOnly && permits <= 0
    ensures inv.outcome == Interrupted && (inv.readOnly || permits > 0) ==> status == FAIL_EXIT_CODE
    ensures (inv.readOnly || permits > 0) && (inv.setupThrows || inv.outcome.Crashed? || inv.tailThrows) ==>
      status == FAIL_EXIT_CODE
    ensures (inv.readOnly || permits > 0) && !inv.setupThrows && !inv.tailThrows && inv.outcome.Exited? ==>
      status == (if inv.outcome.code == BUSY_EXIT_CODE then FAIL_EXIT_CODE else inv.outcome.code)
  {
    var run := RunMainWithExitCode(permits, inv);
    status := if run.result.Returned? then run.result.exitCode else FAIL_EXIT_CODE;
    permitsAfter := run.permits;
  }
}
