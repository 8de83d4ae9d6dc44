/** The log lines the checker writes, one per configured path, as values.
    Timestamps, severity levels and the textual rendering of the value list
    are not modelled: an event carries the data its log line names. */
module Events {

  datatype Event =
    | NotFound(path: string)                        // "File <path> was not found"
    | DecodeFail(path: string)                      // "... was unable to be decoded as json"
    | Pass(values: seq<string>, path: string)       // "SUCCESS - search strings <values> found within <path>"
    | Fail(values: seq<string>, path: string)       // "FAIL - search strings <values> were not all found within <path>"

  /** The closing `if` shared by all three checkers: the verdict compares the
      number of located values with the number searched for, and the event
      names the whole list of values and the path, whatever subset matched. */
  function Verdict(values: seq<string>, path: string, check: nat): (ev: Event)
    ensures ev.Pass? || ev.Fail?
    ensures ev.values == values && ev.path == path
    ensures ev.Pass? <==> check == |values|
  {
    if check != |values| then Fail(values, path) else Pass(values, path)
  }
}
