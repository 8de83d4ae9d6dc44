# py_file_check, modelled in Dafny

py_file_check reads a configuration that maps file paths to lists of
expected search values and, for each path in order, logs whether every
value was found in that file. The checker is chosen by the path's suffix
(case-insensitive): `.csv` files are read row by row with one `csv.reader`,
`.json` files are decoded and searched by `get_path`, and anything else is
read as plain text, line by line, rewinding the file for every value. A
missing file is logged and skipped; an undecodable JSON file is logged
without being checked.

The model has one module per component of `main.py`:

- `Events`: the four kinds of log line as a datatype, and the verdict all
  three checkers share (pass iff the count equals the number of values).
- `Counting`: counting the values that pass a test, with the lemmas that
  the count is full iff every value passes and that it ignores order.
- `Dispatch`: the suffix test on the lower-cased path.
- `TextCheck`: the plain-text branch as two nested loops with a rewind.
- `CsvCheck`: `csv_checker` as a loop over values sharing one forward-only
  row cursor. The greedy scan is proved to pass exactly when the values can
  be matched, in order, to strictly increasing rows. Its count is proved to
  be the length of the longest prefix of the values that can be so matched.
- `JsonCheck`: `json_checker`, with `get_path` taken as a parameter.
- `Driver`: the loop of `main`, proved to log one event per entry, in
  order, equal to a declarative statement of that entry's outcome.

Two details of the code shape what the model states:

- CSV matching. In `csv_checker`, `item in line` (main.py:22) tests a list
  of cells, so a cell must equal the value; a value that is only part of a
  cell is not found. The rows also come from a single `csv.reader`
  (main.py:66), which is consumed as it is read: the search for a value
  resumes after the row where the previous value was found, and after a miss
  the reader is used up. `CsvCheck.OutOfOrderValuesFail` and
  `CsvCheck.CellMustEqualValue` show both on small inputs. The comment at
  main.py:17 ("item could be in any place at any point in the csv file")
  suggests the authors expected otherwise; the model keeps the code's
  behaviour.
- The decode-failure line in the code starts with `FAIL - ` (main.py:76);
  the model only records it as a `DecodeFail` event.

## Model

| member | source | states |
|---|---|---|
| Events.Verdict | main.py:25-28 | the event is Pass or Fail, names the full original value list and the path whatever subset matched, and passes iff the count equals the number of values |
| Counting.Count | main.py:80-86 | the `check` counter, one per located value position, never exceeds the number of values searched for |
| Counting.CountFull | main.py:87-90 | a count of values reaches the number of values iff every value passes the test |
| Counting.CountOrderFree | main.py:80-86 | counting values that pass a test gives the same number for any reordering, duplicates kept |
| Counting.CountAppend | main.py:80-86 | the count over two concatenated lists of values is the sum of their counts |
| Dispatch.Lower | main.py:65 | `path.lower()`: same length, each ASCII capital mapped to its lower-case letter, every other character kept |
| Dispatch.EndsWith | main.py:65 | `str.endswith`: true exactly when the string is some stem followed by the suffix |
| Dispatch.FormatOf | main.py:65-79 | a path whose lower-cased form ends in `.csv` is CSV; otherwise one ending in `.json` is JSON; every other path is plain text (total, exactly one format) |
| Dispatch.LowerIdempotent | main.py:65 | lower-casing a lower-cased path changes nothing |
| Dispatch.LowerAppend | main.py:65 | lower-casing distributes over concatenation, so the suffix of the lower-cased path is the lower-cased suffix |
| Dispatch.FormatIgnoresCase | main.py:65-70 | a path and its lower-cased form are dispatched to the same checker |
| Dispatch.CsvSuffixSelectsCsv | main.py:65-67 | any path ending in `.csv` in any mix of cases goes to the CSV checker |
| Dispatch.JsonSuffixSelectsJson | main.py:70-73 | any path ending in `.json` in any mix of cases goes to the JSON checker |
| Dispatch.TxtSuffixSelectsText | main.py:78-80 | a path ending in `.txt` in any mix of cases falls through to the plain-text branch |
| TextCheck.Contains | main.py:84 | `value in line` on strings is substring containment: a contained value is no longer than the line, the empty value is in every line, and a line contains itself |
| TextCheck.CheckText | main.py:80-91 | with a rewind per value, `check` counts each value at most once (duplicates separately), stays within the number of values, and the event passes iff every value is a substring of some line |
| TextCheck.TextOrderFree | main.py:80-86 | reordering the values changes neither the text count nor the text verdict |
| TextCheck.MissingCharNotContained | main.py:84 | a line lacking a character of the value does not contain the value |
| TextCheck.SubstringOfWordMatches | main.py:84 | matching is substring containment: "a" is found in the line "cat" |
| CsvCheck.RowHas | main.py:22 | `item in line` on a list of cells holds exactly when some cell equals the item, so an empty row has no item |
| CsvCheck.NextRow | main.py:21-24 | the search for one value stops at the first row at or after the cursor that has a cell equal to it, or at the end of the rows |
| CsvCheck.After | main.py:21-24 | after a search that stopped at a matching row `k` the reader is at `k + 1`; when nothing matched it stays at the end |
| CsvCheck.ScanCount | main.py:19-24 | the number of values found by the forward-only scan never exceeds the number of values |
| CsvCheck.EmptyValuesMatch | main.py:25-28 | an empty value list is trivially matched, so it passes |
| CsvCheck.ScanSound | main.py:20-24 | when the scan finds every value, the values can be assigned strictly increasing rows, each with a cell equal to its value |
| CsvCheck.ScanComplete | main.py:20-24 | when such an in-order assignment exists, the scan finds every value |
| CsvCheck.ScanPassesIffMatchable | main.py:20-25 | the scan finds all values iff they can be matched in order to strictly increasing rows |
| CsvCheck.ExhaustedFindsNothing | main.py:21 | once the reader is used up, no further value is found |
| CsvCheck.ScanCountIsLongestPrefix | main.py:20-24 | the count is the length of the longest prefix of the values that can be matched in order; after the first miss no later value is counted |
| CsvCheck.CheckCsv | main.py:16-29 | with one cursor shared by all values, `check` equals the scan count, stays within the number of values, and the event passes iff the values match strictly increasing rows in order |
| CsvCheck.OutOfOrderValuesFail | main.py:17-24 | values present in the rows but in reverse order are not all found |
| CsvCheck.CellMustEqualValue | main.py:22 | a value equal to a cell is found; a value that is only part of a cell is not |
| JsonCheck.CheckJson | main.py:32-46 | `check` equals the number of values (duplicates included) that `get_path` locates, and the event passes iff it locates every value |
| Driver.Expected | main.py:58-94 | the event for one entry names its path; it is NotFound iff the file is missing, DecodeFail iff a present JSON file does not decode, otherwise Pass/Fail with the full value list; an empty value list passes |
| Driver.CheckPath | main.py:61-94 | one iteration of `main` logs exactly the event `Expected` states for that entry |
| Driver.Run | main.py:58-94 | one event per configured entry, in configuration order, each the event `Expected` states for that entry |
| Driver.OnlyOwnFileMatters | main.py:58-63 | the event for an entry depends only on that entry and its own file: nothing carries over between paths |
| Driver.TextScenarioPass | main.py:98-104 | `["hello", "world", "luke"]` spread over the lines of a `.txt` file gives a SUCCESS event naming that list |
| Driver.TextScenarioFail | main.py:106-112 | `["do", "not", "work"]` against a file lacking "not" gives a FAIL event naming the whole list |
| Driver.MissingFileScenario | main.py:93-94 | a missing path gives NotFound, while a present JSON file with no values passes |

## Left out

- Loading the YAML configuration (main.py:56-58) and its fatal error path: the configuration is given as a sequence of (path, values) entries. Values are taken to be strings; YAML values of other types, which would make the text branch raise `TypeError`, are not modelled.
- Opening files and errors other than a missing file (permission, Unicode): the file system is a map from path to content; a path absent from the map is `FileNotFoundError`.
- Splitting a file into lines, `csv.reader` tokenising and `json.loads`: each existing file is given as the lines, the rows and the decoded document (or a decode failure) these would produce.
- `get_path` from `py_filter` is not part of this model: it is a parameter `found`, and every statement about JSON holds for any `found`.
- Dispatch.FormatOf: lower-cases only the ASCII letters A to Z, where Python's `str.lower` maps all of Unicode; the suffixes tested hold only ASCII letters.
- Logging: timestamps, severity levels, the log file, the list rendering in log lines, and the console notices printed on success (main.py:10-13, 26-29, 43-46, 88-91). Events carry the path and values their lines name.
- The `FileCheckTest` cases (main.py:97-144) depend on fixture files not shown. The two text cases are restated on small invented contents by `Driver.TextScenarioPass` (main.py:98-104) and `Driver.TextScenarioFail` (main.py:106-112), and the passing CSV case (main.py:114-120) by `CsvCheck.CellMustEqualValue`; the failing CSV case and the two JSON cases are not restated.
