/** The few `java.lang.String` operations the diff engine relies on. */
module Strings {

  /** `s.startsWith(prefix)` */
  predicate StartsWith(s: string, prefix: string)
  {
    |prefix| <= |s| && s[..|prefix|] == prefix
  }

  /** `s.endsWith(suffix)` */
  predicate EndsWith(s: string, suffix: string)
  {
    |suffix| <= |s| && s[|s| - |suffix|..] == suffix
  }

  /** `t` occurs in `s` starting at index `i`. */
  predicate OccursAt(s: string, t: string, i: int)
  {
    0 <= i && i + |t| <= |s| && s[i..i + |t|] == t
  }

  /** `s.contains(t)` */
  predicate Contains(s: string, t: string)
  {
    exists i :: 0 <= i <= |s| - |t| && OccursAt(s, t, i)
  }

  /** The first index at or after `from` where `t` occurs in `s`, or -1. */
  function IndexFrom(s: string, t: string, from: nat): (r: int)
    ensures r == -1 || (from <= r && OccursAt(s, t, r))
    ensures r == -1 ==> forall j :: from <= j ==> !OccursAt(s, t, j)
    ensures r != -1 ==> forall j :: from <= j < r ==> !OccursAt(s, t, j)
    decreases |s| - from
  {
    if from + |t| > |s| then -1
    else if s[from..from + |t|] == t then from
    else IndexFrom(s, t, from + 1)
  }

  /** `s.indexOf(t)`: the first index where `t` occurs in `s`, or -1 when it does not occur. */
  function IndexOf(s: string, t: string): (r: int)
    ensures r == -1 <==> !Contains(s, t)
    ensures r != -1 ==> OccursAt(s, t, r) && forall j :: 0 <= j < r ==> !OccursAt(s, t, j)
  {
    IndexFrom(s, t, 0)
  }

  /** Every piece of `s` between separators, empty pieces included. */
  function SplitAll(s: string, sep: char): (parts: seq<string>)
    ensures |parts| >= 1
    ensures forall i :: 0 <= i < |parts| ==> sep !in parts[i]
  {
    if s == [] then [""]
    else if s[0] == sep then [""] + SplitAll(s[1..], sep)
    else
      var rest := SplitAll(s[1..], sep);
      [[s[0]] + rest[0]] + rest[1..]
  }

  /** Drops the empty pieces at the end, as `String.split` does. */
  function StripTrailingEmpty(parts: seq<string>): (r: seq<string>)
    ensures r <= parts
    ensures r == [] || r[|r| - 1] != ""
    ensures forall i :: |r| <= i < |parts| ==> parts[i] == ""
  {
    if parts == [] || parts[|parts| - 1] != "" then parts
    else StripTrailingEmpty(parts[..|parts| - 1])
  }

  /** `s.split("\\.")` and the like: `s` itself when the separator does not occur, and otherwise
      the pieces between separators without the trailing empty ones. */
  function Split(s: string, sep: char): (parts: seq<string>)
    ensures forall i :: 0 <= i < |parts| ==> sep !in parts[i]
    ensures sep !in s ==> parts == [s]
    ensures sep in s ==> parts == [] || parts[|parts| - 1] != ""
  {
    if sep !in s then [s] else StripTrailingEmpty(SplitAll(s, sep))
  }

  /** The pieces joined with the separator between them. */
  function Join(parts: seq<string>, sep: char): string
  {
    if parts == [] then ""
    else if |parts| == 1 then parts[0]
    else parts[0] + [sep] + Join(parts[1..], sep)
  }

  /** Joining the pieces of `s` gives `s` back. */
  lemma {:induction false} JoinSplitAll(s: string, sep: char)
    ensures Join(SplitAll(s, sep), sep) == s
  {
    if s != [] {
      JoinSplitAll(s[1..], sep);
      var rest := SplitAll(s[1..], sep);
      assert s == [s[0]] + s[1..];
      if s[0] == sep {
        assert SplitAll(s, sep) == [""] + rest;
        assert ([""] + rest)[1..] == rest;
      } else {
        var parts := [[s[0]] + rest[0]] + rest[1..];
        assert SplitAll(s, sep) == parts;
        assert parts[1..] == rest[1..];
        if |rest| > 1 {
          assert Join(rest, sep) == rest[0] + [sep] + Join(rest[1..], sep);
        }
      }
    }
  }

  /** The last piece of `s` is empty exactly when `s` is empty or ends with the separator. */
  lemma {:induction false} SplitAllLast(s: string, sep: char)
    ensures SplitAll(s, sep)[|SplitAll(s, sep)| - 1] == "" <==> s == [] || s[|s| - 1] == sep
  {
    if s != [] {
      SplitAllLast(s[1..], sep);
      var rest := SplitAll(s[1..], sep);
      var parts := SplitAll(s, sep);
      if s[0] == sep {
        assert parts == [""] + rest;
        assert parts[|parts| - 1] == rest[|rest| - 1];
      } else {
        assert parts == [[s[0]] + rest[0]] + rest[1..];
        if |rest| == 1 {
          assert parts[|parts| - 1] == [s[0]] + rest[0];
          assert s[1..] == [] || s[1..][|s[1..]| - 1] != sep;
        } else {
          assert parts[|parts| - 1] == rest[|rest| - 1];
        }
      }
      if |s| > 1 {
        assert s[|s| - 1] == s[1..][|s[1..]| - 1];
      }
    }
  }

  /** Splitting a string that does not end with the separator and joining the pieces gives it back. */
  lemma SplitJoinRoundTrip(s: string, sep: char)
    requires s == [] || s[|s| - 1] != sep
    ensures Join(Split(s, sep), sep) == s
  {
    JoinSplitAll(s, sep);
    SplitAllLast(s, sep);
    if sep in s {
      var parts := SplitAll(s, sep);
      assert s != [];
      assert StripTrailingEmpty(parts) == parts;
    }
  }
}
