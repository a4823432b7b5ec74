/** String helpers with the semantics the modelled code relies on: Guava's
    `Splitter.on(c)` field splitting, `trimResults()`, literal `replaceAll`
    and ASCII lower-casing. Strings are `seq<char>`. */
module Strings {

  /** ASCII whitespace. Guava's `CharMatcher.whitespace()` also accepts a
      handful of Unicode space characters, which this model does not. */
  predicate IsWhitespace(c: char) {
    c == ' ' || c == '\t' || c == '\n' || c == '\r' || c == '\U{000B}' || c == '\U{000C}'
  }

  /** Drops leading whitespace. */
  function TrimStart(s: string): (r: string)
    ensures |r| <= |s| && r == s[|s| - |r|..]
    ensures r == [] || !IsWhitespace(r[0])
    ensures forall k :: 0 <= k < |s| - |r| ==> IsWhitespace(s[k])
  {
    if |s| > 0 && IsWhitespace(s[0]) then TrimStart(s[1..]) else s
  }

  /** Drops trailing whitespace. */
  function TrimEnd(s: string): (r: string)
    ensures |r| <= |s| && r == s[..|r|]
    ensures r == [] || !IsWhitespace(r[|r| - 1])
    ensures forall k :: |r| <= k < |s| ==> IsWhitespace(s[k])
  {
    if |s| > 0 && IsWhitespace(s[|s| - 1]) then TrimEnd(s[..|s| - 1]) else s
  }

  /** Guava's `trimResults()`: whitespace removed from both ends. */
  function Trim(s: string): (r: string)
    ensures |r| <= |s|
    ensures r == [] || (!IsWhitespace(r[0]) && !IsWhitespace(r[|r| - 1]))
  {
    TrimEnd(TrimStart(s))
  }

  /** The fields of `s` between occurrences of `c`, empty fields included
      (`Splitter.on(c)` before any trimming or omission). */
  function SplitOn(s: string, c: char): (r: seq<string>)
    ensures |r| >= 1
    ensures forall i :: 0 <= i < |r| ==> c !in r[i]
  {
    if |s| == 0 then [""]
    else
      var rest := SplitOn(s[1..], c);
      if s[0] == c then [""] + rest
      else [[s[0]] + rest[0]] + rest[1..]
  }

  /** Concatenates `parts` with `c` between consecutive parts. */
  function JoinWith(parts: seq<string>, c: char): string
    requires |parts| >= 1
  {
    if |parts| == 1 then parts[0] else parts[0] + [c] + JoinWith(parts[1..], c)
  }

  lemma {:induction false} SplitThenJoin(s: string, c: char)
    ensures JoinWith(SplitOn(s, c), c) == s
  {
    if |s| > 0 {
      var rest := SplitOn(s[1..], c);
      SplitThenJoin(s[1..], c);
      if s[0] == c {
        assert SplitOn(s, c) == [""] + rest;
        assert ([""] + rest)[1..] == rest;
      } else {
        var r := SplitOn(s, c);
        assert r == [[s[0]] + rest[0]] + rest[1..];
        if |rest| == 1 {
          assert s == [s[0]] + s[1..];
        } else {
          assert r[1..] == rest[1..];
          assert JoinWith(rest, c) == rest[0] + [c] + JoinWith(rest[1..], c);
          assert s == [s[0]] + s[1..];
        }
      }
    }
  }

  lemma {:induction false} JoinThenSplit(parts: seq<string>, c: char)
    requires |parts| >= 1
    requires forall i :: 0 <= i < |parts| ==> c !in parts[i]
    ensures SplitOn(JoinWith(parts, c), c) == parts
    decreases |parts|, |parts[0]|
  {
    if |parts| == 1 {
      SplitNoSeparator(parts[0], c);
    } else if |parts[0]| == 0 {
      var tail := JoinWith(parts[1..], c);
      JoinThenSplit(parts[1..], c);
      assert JoinWith(parts, c) == [c] + tail;
      assert ([c] + tail)[1..] == tail;
      assert [""] + parts[1..] == parts;
    } else {
      var shorter := [parts[0][1..]] + parts[1..];
      DropFirstKeepsSeparatorFree(parts, c);
      JoinThenSplit(shorter, c);
      JoinDropFirst(parts, c);
      var j := JoinWith(parts, c);
      assert SplitOn(j, c) == [[j[0]] + shorter[0]] + shorter[1..];
      assert [parts[0][0]] + parts[0][1..] == parts[0];
      assert [[j[0]] + shorter[0]] + shorter[1..] == parts;
    }
  }

  lemma DropFirstKeepsSeparatorFree(parts: seq<string>, c: char)
    requires |parts| >= 1 && |parts[0]| > 0
    requires forall i :: 0 <= i < |parts| ==> c !in parts[i]
    ensures var shorter := [parts[0][1..]] + parts[1..];
            forall i :: 0 <= i < |shorter| ==> c !in shorter[i]
  {
    var shorter := [parts[0][1..]] + parts[1..];
    forall i | 0 <= i < |shorter| ensures c !in shorter[i] {
      if i == 0 {
        assert forall x :: x in parts[0][1..] ==> x in parts[0];
      } else {
        assert shorter[i] == parts[i];
      }
    }
  }

  /** Dropping the first character of a join whose first part is not empty. */
  lemma JoinDropFirst(parts: seq<string>, c: char)
    requires |parts| >= 1 && |parts[0]| > 0
    ensures var j := JoinWith(parts, c);
            |j| > 0 && j[0] == parts[0][0] && j[1..] == JoinWith([parts[0][1..]] + parts[1..], c)
  {
    var shorter := [parts[0][1..]] + parts[1..];
    assert shorter[1..] == parts[1..];
  }

  lemma {:induction false} SplitNoSeparator(s: string, c: char)
    requires c !in s
    ensures SplitOn(s, c) == [s]
  {
    if |s| > 0 {
      assert c !in s[1..] by {
        assert forall x :: x in s[1..] ==> x in s;
      }
      SplitNoSeparator(s[1..], c);
      assert [s[0]] + s[1..] == s;
    }
  }

  /** True iff `pat` occurs in `s` starting at position `i`. */
  predicate OccursAt(s: string, pat: string, i: nat) {
    i + |pat| <= |s| && s[i..i + |pat|] == pat
  }

  /** The fields of `s` between left-to-right, non-overlapping occurrences
      of the non-empty separator `pat` (`Splitter.on(pat)`). */
  function SplitOnPattern(s: string, pat: string): (r: seq<string>)
    requires |pat| > 0
    ensures |r| >= 1
  {
    if |s| == 0 then [""]
    else if OccursAt(s, pat, 0) then [""] + SplitOnPattern(s[|pat|..], pat)
    else
      var rest := SplitOnPattern(s[1..], pat);
      [[s[0]] + rest[0]] + rest[1..]
  }

  /** Concatenates `parts` with `pat` between consecutive parts. */
  function JoinWithPattern(parts: seq<string>, pat: string): string
    requires |parts| >= 1
  {
    if |parts| == 1 then parts[0] else parts[0] + pat + JoinWithPattern(parts[1..], pat)
  }

  /** Joining the fields with the separator gives back the string. */
  lemma {:induction false} SplitOnPatternThenJoin(s: string, pat: string)
    requires |pat| > 0
    ensures JoinWithPattern(SplitOnPattern(s, pat), pat) == s
  {
    if |s| > 0 {
      if OccursAt(s, pat, 0) {
        var rest := SplitOnPattern(s[|pat|..], pat);
        SplitOnPatternThenJoin(s[|pat|..], pat);
        assert SplitOnPattern(s, pat) == [""] + rest;
        assert ([""] + rest)[1..] == rest;
        assert JoinWithPattern([""] + rest, pat) == "" + pat + s[|pat|..];
        assert s == pat + s[|pat|..];
      } else {
        var rest := SplitOnPattern(s[1..], pat);
        SplitOnPatternThenJoin(s[1..], pat);
        assert SplitOnPattern(s, pat) == [[s[0]] + rest[0]] + rest[1..];
        JoinPatternConsChar(s[0], rest, pat);
        assert s == [s[0]] + s[1..];
      }
    }
  }

  /** A character put in front of the first part ends up in front of the join. */
  lemma JoinPatternConsChar(x: char, parts: seq<string>, pat: string)
    requires |parts| >= 1
    ensures JoinWithPattern([[x] + parts[0]] + parts[1..], pat) == [x] + JoinWithPattern(parts, pat)
  {
    var q := [[x] + parts[0]] + parts[1..];
    if |parts| > 1 {
      assert q[1..] == parts[1..];
    }
  }

  /** Literal left-to-right, non-overlapping replacement of every occurrence
      of `pat` by `rep` (Java's `String.replaceAll` with a pattern and a
      replacement free of regular-expression metacharacters). */
  function ReplaceAll(s: string, pat: string, rep: string): string
    requires |pat| > 0
  {
    if |s| == 0 then ""
    else if OccursAt(s, pat, 0) then rep + ReplaceAll(s[|pat|..], pat, rep)
    else [s[0]] + ReplaceAll(s[1..], pat, rep)
  }

  lemma {:induction false} ReplaceAllAbsent(s: string, pat: string, rep: string)
    requires |pat| > 0
    requires forall i :: 0 <= i <= |s| ==> !OccursAt(s, pat, i)
    ensures ReplaceAll(s, pat, rep) == s
  {
    if |s| > 0 {
      forall i | 0 <= i <= |s[1..]| ensures !OccursAt(s[1..], pat, i) {
        assert !OccursAt(s, pat, i + 1);
      }
      ReplaceAllAbsent(s[1..], pat, rep);
      assert !OccursAt(s, pat, 0);
      assert [s[0]] + s[1..] == s;
    }
  }

  /** ReplaceAll leaves no occurrence of a single-character pattern behind
      when the replacement does not contain that character. */
  lemma {:induction false} ReplaceAllRemovesChar(s: string, p: char, rep: string)
    requires p !in rep
    ensures p !in ReplaceAll(s, [p], rep)
  {
    if |s| > 0 {
      ReplaceAllRemovesChar(s[1..], p, rep);
      if !OccursAt(s, [p], 0) {
        assert s[0..1] == [s[0]];
      }
    }
  }

  /** ASCII lower-casing (Python's `str.lower` on ASCII text). */
  function LowerChar(c: char): char {
    if 'A' <= c <= 'Z' then (c as int + 32) as char else c
  }

  function Lower(s: string): (r: string)
    ensures |r| == |s|
  {
    if |s| == 0 then "" else [LowerChar(s[0])] + Lower(s[1..])
  }

  /** Lower-casing works character by character. */
  lemma {:induction false} LowerPointwise(s: string)
    ensures forall i :: 0 <= i < |s| ==> Lower(s)[i] == LowerChar(s[i])
  {
    if |s| > 0 {
      LowerPointwise(s[1..]);
      assert forall i :: 0 < i < |s| ==> Lower(s)[i] == Lower(s[1..])[i - 1];
    }
  }

  /** Every occurrence of character `a` replaced by `b` (Java's
      `String.replace(".", "/")`). */
  function ReplaceChar(s: string, a: char, b: char): (r: string)
    ensures |r| == |s|
    ensures forall i :: 0 <= i < |s| ==> r[i] == (if s[i] == a then b else s[i])
  {
    if |s| == 0 then "" else [if s[0] == a then b else s[0]] + ReplaceChar(s[1..], a, b)
  }
}
