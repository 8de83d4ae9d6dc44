/** The plain-text branch of `main`: for each search value the file is
    rewound and read line by line until a line contains the value. */
module TextCheck {
  import opened Events
  import opened Counting

  /** Python's `needle in hay` on two strings: a substring test. */
  predicate Contains(hay: string, needle: string)
    ensures Contains(hay, needle) ==> |needle| <= |hay|
    ensures needle == [] ==> Contains(hay, needle)
    ensures needle == hay ==> Contains(hay, needle)
  {
    assert hay[0..] == hay;
    exists i :: 0 <= i <= |hay| && needle <= hay[i..]
  }

  /** Some raw line of the file contains `value`. */
  predicate InSomeLine(value: string, lines: seq<string>)
  {
    exists j :: 0 <= j < |lines| && Contains(lines[j], value)
  }

  /** The test the text branch applies to each value. */
  function InText(lines: seq<string>): string -> bool
  {
    value => InSomeLine(value, lines)
  }

  /** The number of values, duplicates included, that occur in some line. */
  function TextCount(values: seq<string>, lines: seq<string>): nat
  {
    Count(values, InText(lines))
  }

  /** The text branch over a file of raw `lines`: `check` counts each search
      value at most once, duplicates separately, and the event passes exactly
      when every value occurs in some line. */
  method CheckText(values: seq<string>, lines: seq<string>, path: string)
    returns (check: nat, ev: Event)
    ensures check == TextCount(values, lines) && check <= |values|
    ensures ev == Verdict(values, path, check)
    ensures ev.Pass? <==> forall k :: 0 <= k < |values| ==> InSomeLine(values[k], lines)
  {
    check := 0;
    var k := 0;
    while k < |values|
      invariant 0 <= k <= |values|
      invariant check <= k
      invariant check == Count(values[..k], InText(lines))
    {
      var value := values[k];
      assert values[..k + 1] == values[..k] + [value];
      // rewind the file to its first line
      var j := 0;
      while j < |lines|
        invariant 0 <= j <= |lines|
        invariant check == Count(values[..k], InText(lines))
        invariant forall m :: 0 <= m < j ==> !Contains(lines[m], value)
      {
        if Contains(lines[j], value) {
          check := check + 1;
          break;
        }
        j := j + 1;
      }
      assert values[..k + 1][..k] == values[..k];
      k := k + 1;
    }
    assert values[..k] == values;
    CountFull(values, InText(lines));
    ev := Verdict(values, path, check);
  }

  /** Reordering the search values, duplicates and all, changes neither the
      count nor the verdict, since each value is searched from the top of the
      file. */
  lemma TextOrderFree(values: seq<string>, reordered: seq<string>, lines: seq<string>)
    requires multiset(values) == multiset(reordered)
    ensures TextCount(values, lines) == TextCount(reordered, lines)
    ensures (forall k :: 0 <= k < |values| ==> InSomeLine(values[k], lines))
        <==> (forall k :: 0 <= k < |reordered| ==> InSomeLine(reordered[k], lines))
  {
    CountOrderFree(values, reordered, InText(lines));
    forall v | v in values
      ensures v in reordered
    {
      assert v in multiset(reordered);
    }
    forall v | v in reordered
      ensures v in values
    {
      assert v in multiset(values);
    }
    AllOccurIn(values, reordered, lines);
    AllOccurIn(reordered, values, lines);
  }

  /** If every value of `values` occurs in some line, so does every value of
      a list drawn from the same values. */
  lemma AllOccurIn(values: seq<string>, others: seq<string>, lines: seq<string>)
    requires forall v :: v in others ==> v in values
    ensures (forall k :: 0 <= k < |values| ==> InSomeLine(values[k], lines))
        ==> (forall k :: 0 <= k < |others| ==> InSomeLine(others[k], lines))
  {
    if forall k :: 0 <= k < |values| ==> InSomeLine(values[k], lines) {
      forall k | 0 <= k < |others|
        ensures InSomeLine(others[k], lines)
      {
        assert others[k] in others;
        var j :| 0 <= j < |values| && values[j] == others[k];
      }
    }
  }

  /** A line that lacks one of the characters of `value` does not contain
      it. */
  lemma MissingCharNotContained(line: string, value: string, c: char)
    requires c in value && c !in line
    ensures !Contains(line, value)
  {
  }

  /** The test is substring containment, not whole-word or whole-line
      equality: "a" is found in the line "cat". */
  lemma SubstringOfWordMatches()
    ensures InSomeLine("a", ["cat\n"])
  {
    var lines := ["cat\n"];
    assert "a" <= lines[0][1..];
    assert Contains(lines[0], "a");
  }
}
