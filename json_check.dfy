/** `json_checker`: each search value is looked up in the decoded document
    by `get_path`, a library search whose source is not part of this model.
    It is taken as a parameter `found`, so that the counting and the verdict
    around it hold whatever `get_path` does. */
module JsonCheck {
  import opened Events
  import opened Counting

  /** The test `json_checker` applies to each value: `get_path` returned
      something truthy. */
  function Located<D>(doc: D, found: (D, string) -> bool): string -> bool
  {
    value => found(doc, value)
  }

  /** The number of values, duplicates included, that `found` locates. */
  function JsonCount<D>(values: seq<string>, doc: D, found: (D, string) -> bool): nat
  {
    Count(values, Located(doc, found))
  }

  /** `check` is the number of values, duplicates included, that `found`
      locates in `doc`, and the event passes exactly when it locates them
      all. */
  method CheckJson<D>(values: seq<string>, doc: D, found: (D, string) -> bool, path: string)
    returns (check: nat, ev: Event)
    ensures check == JsonCount(values, doc, found) && check <= |values|
    ensures ev == Verdict(values, path, check)
    ensures ev.Pass? <==> forall k :: 0 <= k < |values| ==> found(doc, values[k])
  {
    check := 0;
    var k := 0;
    while k < |values|
      invariant 0 <= k <= |values|
      invariant check <= k
      invariant check == Count(values[..k], Located(doc, found))
    {
      if found(doc, values[k]) {
        check := check + 1;
      }
      assert values[..k + 1][..k] == values[..k];
      k := k + 1;
    }
    assert values[..k] == values;
    CountFull(values, Located(doc, found));
    ev := Verdict(values, path, check);
  }
}
