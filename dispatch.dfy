/** Choosing a checker for a configured path from its file name: the path is
    lower-cased and its suffix decides between the CSV, JSON and plain-text
    checkers, plain text being the fallback for every other name. */
module Dispatch {

  datatype Format = Csv | Json | Text

  /** Lower-casing of one character, for the ASCII letters A to Z. */
  function LowerChar(c: char): (d: char)
    ensures 'A' <= c <= 'Z' ==> d as int == c as int + 32
    ensures !('A' <= c <= 'Z') ==> d == c
  {
    if 'A' <= c <= 'Z' then (c as int + 32) as char else c
  }

  /** Lower-casing of a whole path, character by character. */
  function Lower(s: string): (r: string)
    ensures |r| == |s|
    ensures forall i :: 0 <= i < |s| ==> r[i] == LowerChar(s[i])
  {
    seq(|s|, i requires 0 <= i < |s| => LowerChar(s[i]))
  }

  /** Python's `str.endswith`. */
  predicate EndsWith(s: string, suffix: string)
    ensures EndsWith(s, suffix) <==> exists stem :: s == stem + suffix
  {
    var r := |suffix| <= |s| && s[|s| - |suffix|..] == suffix;
    assert r ==> s == s[..|s| - |suffix|] + suffix;
    assert forall stem :: s == stem + suffix ==> s[|stem|..] == suffix;
    r
  }

  /** The branch `main` takes for `path`: `.csv` is tested first, then
      `.json`, and every other path is read as plain text. */
  function FormatOf(path: string): (f: Format)
    ensures f == Csv <==> EndsWith(Lower(path), ".csv")
    ensures f == Json <==> !EndsWith(Lower(path), ".csv") && EndsWith(Lower(path), ".json")
    ensures f == Text <==> !EndsWith(Lower(path), ".csv") && !EndsWith(Lower(path), ".json")
  {
    var lower := Lower(path);
    if EndsWith(lower, ".csv") then Csv
    else if EndsWith(lower, ".json") then Json
    else Text
  }

  /** Lower-casing a second time changes nothing. */
  lemma LowerIdempotent(s: string)
    ensures Lower(Lower(s)) == Lower(s)
  {
  }

  /** Lower-casing distributes over concatenation. */
  lemma LowerAppend(s: string, t: string)
    ensures Lower(s + t) == Lower(s) + Lower(t)
  {
  }

  /** The choice is case-insensitive: a path and its lower-cased form go to
      the same checker. */
  lemma FormatIgnoresCase(path: string)
    ensures FormatOf(Lower(path)) == FormatOf(path)
  {
    LowerIdempotent(path);
  }

  /** Whatever comes before it, a suffix spelling `.csv` in any mix of cases
      selects the CSV checker. */
  lemma CsvSuffixSelectsCsv(stem: string, ext: string)
    requires Lower(ext) == ".csv"
    ensures FormatOf(stem + ext) == Csv
  {
    LowerAppend(stem, ext);
    var lower := Lower(stem + ext);
    assert lower[|lower| - 4..] == Lower(ext);
  }

  /** Whatever comes before it, a suffix spelling `.json` in any mix of cases
      selects the JSON checker. */
  lemma JsonSuffixSelectsJson(stem: string, ext: string)
    requires Lower(ext) == ".json"
    ensures FormatOf(stem + ext) == Json
  {
    LowerAppend(stem, ext);
    var lower := Lower(stem + ext);
    assert lower[|lower| - 5..] == Lower(ext);
    assert lower[|lower| - 4..] == lower[|lower| - 5..][1..];
  }

  /** A `.txt` file, in any mix of cases, matches neither suffix and falls
      through to the plain-text checker. */
  lemma TxtSuffixSelectsText(stem: string, ext: string)
    requires Lower(ext) == ".txt"
    ensures FormatOf(stem + ext) == Text
  {
    LowerAppend(stem, ext);
    var lower := Lower(stem + ext);
    assert lower[|lower| - 4..] == Lower(ext);
    assert lower[|lower| - 1] == 't';
  }
}
