/** The `.buckconfig` view the modelled code reads: raw values by section
    and field, whole sections, booleans, and comma-separated lists. */
module Config {
  import opened Wrappers
  import Strings

  datatype BuckConfig = BuckConfig(values: map<(string, string), string>) {
    /** `getValue(section, field)`. */
    function GetValue(section: string, field: string): (r: Option<string>)
      ensures r.Some? <==> (section, field) in values
      ensures r.Some? ==> r.value == values[(section, field)]
    {
      if (section, field) in values then Some(values[(section, field)]) else None
    }

    /** `getEntriesForSection(section)`: field to value. */
    function EntriesForSection(section: string): (r: map<string, string>)
      ensures forall f :: f in r <==> (section, f) in values
      ensures forall f :: f in r ==> r[f] == values[(section, f)]
    {
      map k | k in values && k.0 == section :: k.1 := values[k]
    }
  }

  /** A configuration value that does not read as what is asked for. */
  datatype ConfigError = NotABoolean(section: string, field: string, value: string)

  /** Reads a boolean: `true` and `yes` are true, `false` and `no` are
      false, case aside; anything else is an error. */
  function ParseBoolean(value: string): (r: Option<bool>)
    ensures r == Some(true) <==> Strings.Lower(value) in {"true", "yes"}
    ensures r == Some(false) <==> Strings.Lower(value) in {"false", "no"}
  {
    var v := Strings.Lower(value);
    if v == "true" || v == "yes" then Some(true)
    else if v == "false" || v == "no" then Some(false)
    else None
  }

  /** `getBoolean(section, field)`: absent when not configured. */
  function GetBoolean(c: BuckConfig, section: string, field: string): (r: Result<Option<bool>, ConfigError>)
    ensures c.GetValue(section, field).None? ==> r == Success(None)
    ensures r.Failure? <==> c.GetValue(section, field).Some? && ParseBoolean(c.GetValue(section, field).value).None?
    ensures r.Success? && r.value.Some? ==> Some(r.value.value) == ParseBoolean(c.GetValue(section, field).value)
  {
    match c.GetValue(section, field)
    case None => Success(None)
    case Some(v) =>
      match ParseBoolean(v)
      case None => Failure(NotABoolean(section, field, v))
      case Some(b) => Success(Some(b))
  }

  /** `getBooleanValue(section, field, default)`. */
  function GetBooleanValue(c: BuckConfig, section: string, field: string, default: bool)
    : (r: Result<bool, ConfigError>)
    ensures c.GetValue(section, field).None? ==> r == Success(default)
    ensures r.Failure? <==> GetBoolean(c, section, field).Failure?
    ensures r.Success? && c.GetValue(section, field).Some? ==>
              Some(r.value) == ParseBoolean(c.GetValue(section, field).value)
  {
    var b :- GetBoolean(c, section, field);
    Success(b.GetOr(default))
  }

  /** `Splitter.on(sep).omitEmptyStrings().trimResults()`: each field is
      trimmed, then empty ones are dropped. */
  function SplitTrimmedNonEmpty(s: string, sep: char): (r: seq<string>)
    ensures forall i :: 0 <= i < |r| ==> r[i] != ""
    ensures ToSet(r) == TrimmedFields(Strings.SplitOn(s, sep)) - {""}
  {
    TrimmedNonEmptyFields(Strings.SplitOn(s, sep));
    TrimmedNonEmpty(Strings.SplitOn(s, sep))
  }

  function ToSet(xs: seq<string>): set<string> {
    set x | x in xs
  }

  /** Every field, trimmed. */
  function TrimmedFields(parts: seq<string>): set<string> {
    set p | p in parts :: Strings.Trim(p)
  }

  function TrimmedNonEmpty(parts: seq<string>): (r: seq<string>)
    ensures forall i :: 0 <= i < |r| ==> r[i] != ""
  {
    if parts == [] then []
    else
      var t := Strings.Trim(parts[0]);
      var rest := TrimmedNonEmpty(parts[1..]);
      if t == "" then rest
      else
        assert forall i :: 0 < i <= |rest| ==> ([t] + rest)[i] == rest[i - 1];
        [t] + rest
  }

  /** The kept fields are exactly the non-empty trimmed ones. */
  lemma {:induction false} TrimmedNonEmptyFields(parts: seq<string>)
    ensures ToSet(TrimmedNonEmpty(parts)) == TrimmedFields(parts) - {""}
  {
    if parts != [] {
      var t := Strings.Trim(parts[0]);
      var rest := TrimmedNonEmpty(parts[1..]);
      TrimmedNonEmptyFields(parts[1..]);
      TrimmedFieldsCons(parts);
      var tail := TrimmedFields(parts[1..]);
      if t == "" {
        assert ({t} + tail) - {""} == tail - {""};
      } else {
        ToSetCons(t, rest);
        assert {t} + (tail - {""}) == ({t} + tail) - {""};
      }
    }
  }

  lemma ToSetCons(x: string, xs: seq<string>)
    ensures ToSet([x] + xs) == {x} + ToSet(xs)
  {
    assert forall y :: y in [x] + xs <==> y == x || y in xs;
  }

  lemma TrimmedFieldsCons(parts: seq<string>)
    requires parts != []
    ensures TrimmedFields(parts) == {Strings.Trim(parts[0])} + TrimmedFields(parts[1..])
  {
    assert parts == [parts[0]] + parts[1..];
    forall x | x in TrimmedFields(parts) ensures x in {Strings.Trim(parts[0])} + TrimmedFields(parts[1..]) {
      var p :| p in parts && x == Strings.Trim(p);
      if p != parts[0] { assert p in parts[1..]; }
    }
  }
}
