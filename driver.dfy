/** `main`: for each configured path, in configuration order, open the file,
    pick a checker from the path's suffix and log one event. Reading the YAML
    configuration, opening files and the library parsers are outside the
    model: the configuration is a sequence of (path, values) entries, and
    each file that exists is given by what the parsers would make of it. */
module Driver {
  import opened Events
  import opened Dispatch
  import opened TextCheck
  import opened CsvCheck
  import opened JsonCheck

  datatype Option<T> = None | Some(value: T)

  /** One existing file, seen three ways: its raw lines as text-mode
      iteration yields them, its rows as `csv.reader` yields them, and the
      document `json.loads` decodes from it (`None` when decoding raises
      `JSONDecodeError`). The checker chosen for the path reads one view. */
  datatype FileContent<D> = FileContent(lines: seq<string>, rows: seq<seq<string>>, doc: Option<D>)

  type Entry = (string, seq<string>)

  /** What `main` logs for one configured entry, stated through each
      checker's declarative verdict. A missing file is reported and nothing
      else happens; an undecodable JSON file is reported without running the
      checker. */
  ghost function Expected<D>(entry: Entry, files: map<string, FileContent<D>>, found: (D, string) -> bool): (ev: Event)
    ensures ev.path == entry.0
    ensures ev.NotFound? <==> entry.0 !in files
    ensures ev.DecodeFail? <==> entry.0 in files && FormatOf(entry.0) == Json && files[entry.0].doc.None?
    ensures (ev.Pass? || ev.Fail?) ==> ev.values == entry.1
    ensures entry.1 == [] && !ev.NotFound? && !ev.DecodeFail? ==> ev.Pass?
  {
    var (path, values) := entry;
    if path !in files then NotFound(path)
    else
      var file := files[path];
      match FormatOf(path)
      case Csv =>
        EmptyValuesMatch(file.rows);
        if Matchable(values, file.rows, 0) then Pass(values, path) else Fail(values, path)
      case Json =>
        if file.doc.None? then DecodeFail(path)
        else if forall k :: 0 <= k < |values| ==> found(file.doc.value, values[k]) then Pass(values, path)
        else Fail(values, path)
      case Text =>
        if forall k :: 0 <= k < |values| ==> InSomeLine(values[k], file.lines) then Pass(values, path)
        else Fail(values, path)
  }

  /** The body of the loop in `main` for one entry. */
  method CheckPath<D>(entry: Entry, files: map<string, FileContent<D>>, found: (D, string) -> bool)
    returns (ev: Event)
    ensures ev == Expected(entry, files, found)
  {
    var (path, values) := entry;
    if path !in files {
      ev := NotFound(path);
      return;
    }
    var file := files[path];
    var check: nat;
    match FormatOf(path)
    case Csv =>
      check, ev := CheckCsv(values, file.rows, path);
    case Json =>
      match file.doc {
        case None =>
          ev := DecodeFail(path);
        case Some(doc) =>
          check, ev := CheckJson(values, doc, found, path);
      }
    case Text =>
      check, ev := CheckText(values, file.lines, path);
  }

  /** `main` over a whole configuration: one event per entry, in order, each
      depending on its own entry and the files alone. */
  method Run<D>(config: seq<Entry>, files: map<string, FileContent<D>>, found: (D, string) -> bool)
    returns (log: seq<Event>)
    ensures |log| == |config|
    ensures forall i :: 0 <= i < |config| ==> log[i] == Expected(config[i], files, found)
  {
    log := [];
    var i := 0;
    while i < |config|
      invariant 0 <= i <= |config|
      invariant |log| == i
      invariant forall j :: 0 <= j < i ==> log[j] == Expected(config[j], files, found)
    {
      var ev := CheckPath(config[i], files, found);
      log := log + [ev];
      i := i + 1;
    }
  }

  /** Nothing carries over between entries: the event for an entry depends
      only on its own path's file, so other files, and the other entries of
      the configuration, cannot change it. */
  lemma OnlyOwnFileMatters<D>(entry: Entry, files: map<string, FileContent<D>>, others: map<string, FileContent<D>>, found: (D, string) -> bool)
    requires entry.0 in files <==> entry.0 in others
    requires entry.0 in files ==> files[entry.0] == others[entry.0]
    ensures Expected(entry, files, found) == Expected(entry, others, found)
  {
  }

  /** `notes.txt` goes to the plain-text checker. */
  lemma NotesIsText()
    ensures FormatOf("notes.txt") == Text
  {
    assert Lower("notes.txt") == "notes.txt";
  }

  /** The plain-text scenario: three words spread over two lines all occur,
      so the entry passes. */
  lemma TextScenarioPass(found: (string, string) -> bool)
    ensures var files := map["notes.txt" := FileContent(["hello world\n", "luke\n"], [], None)];
      Expected(("notes.txt", ["hello", "world", "luke"]), files, found) == Pass(["hello", "world", "luke"], "notes.txt")
  {
    var lines := ["hello world\n", "luke\n"];
    NotesIsText();
    assert "hello" <= lines[0][0..];
    assert "world" <= lines[0][6..];
    assert "luke" <= lines[1][0..];
  }

  /** The same file with words it does not hold: the entry fails and the
      event names the whole list. */
  lemma TextScenarioFail(found: (string, string) -> bool)
    ensures var files := map["notes.txt" := FileContent(["hello world\n", "luke\n"], [], None)];
      Expected(("notes.txt", ["do", "not", "work"]), files, found) == Fail(["do", "not", "work"], "notes.txt")
  {
    var lines := ["hello world\n", "luke\n"];
    NotesIsText();
    assert !InSomeLine("not", lines) by {
      MissingCharNotContained(lines[0], "not", 'n');
      MissingCharNotContained(lines[1], "not", 'n');
    }
    var values := ["do", "not", "work"];
    assert !InSomeLine(values[1], lines);
  }

  /** A missing file is reported and the run goes on to the next entry. */
  lemma MissingFileScenario(found: (string, string) -> bool)
    ensures var files := map["people.json" := FileContent([], [], Some("Maisey, Eran"))];
      && Expected(("gone.csv", ["x"]), files, found) == NotFound("gone.csv")
      && Expected(("people.json", []), files, found) == Pass([], "people.json")
  {
  }
}
