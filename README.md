# tailerswift record transform, in Dafny

tailerswift reads JSON lines from standard input. Each line is a flat object whose values are
all strings. The program keeps the records whose fields match a set of regular-expression
rules, optionally projects each kept record onto a comma-separated list of keys, and prints
it as JSON or as one CSV row. This project models the per-record transform and proves its
properties:

- `stringOnlyJSON.String`: the keys are collected from the map into a slice, sorted with
  `sort.Strings`, and written as `{"k": "v", ...}` with nothing escaped (`TailerSwift.String`).
- `filter.ToKeep`: every rule key must be present and its value must match the rule's pattern
  without error (`TailerSwift.ToKeep`).
- The projection block of `printer` (`TailerSwift.Project`).
- `getSerializer` (`TailerSwift.GetSerializer`).
- `csvSerializer.serialize`: keys collected and sorted, values looked up in key order, one row
  written by Go's `encoding/csv` writer, then `strings.TrimSpace` (`Serializers.CsvSerialize`).

A record is a `map<string, string>`. Go ranges over a map in an unspecified order. The loops
that range over a map pick any unvisited key (`:|`), so every proof holds for every iteration
order. `sort.Strings` is an in-place sort on an `array<string>` under Go's string order
(`StringOrder.Less`). It is proved sorted and a permutation, which leaves exactly one result,
`Records.SortedKeys`. Each method is proved against a specification function: the ghost
functions `JsonText`, `CsvText` and `Keeps`, and the ordinary function `Projected`. The
properties are then proved about those functions.

- The regular-expression engine is a parameter, `matchString(pattern, value)`. It returns
  whether the value matched and whether the pattern failed to compile.
- The JSON serializer, `json.Marshal`, is a parameter, `marshal`.
- The goroutine pipeline is modelled as one sequential function: `TailerSwift.KeptRecords`
  and `TailerSwift.Output`.

Some consequences of the code that a reader of the flag help text (main.go:17-20) might not
expect:

- The CSV output passes through `strings.TrimSpace` (serializers.go:50). Trailing white space
  in a last value written bare is therefore lost: `{"k": "v "}` comes out as `v`
  (`Serializers.CsvTrailingSpaceLost`). A CSV line reads back as the record's values when that
  last value is empty, quoted, or does not end in white space (`Serializers.CsvRoundTrip`).
- `{}` and `{"k": ""}` both serialize to the empty line under CSV.
- `String` writes each entry as `"key": "value"` (main.go:45), so {id: 1, status: ok} is
  `{"id": "1", "status": "ok"}` (`TailerSwift.JsonTwoFields`). The `json` output format does
  not use `String`. It goes through `json.Marshal` (serializers.go:19), which writes
  `{"id":"1","status":"ok"}`.
- `String` escapes nothing, so two different records can print identically
  (`TailerSwift.JsonTextAmbiguous`). The model reads the text back with `ParseObject`, a
  literal reader that splits on double quotes and knows no escape sequences. Under that
  reader the text gives back the record if and only if no key or value holds a double quote
  (`TailerSwift.StringRoundTrip`, `TailerSwift.StringReadBackNeedsQuoteFree`). A JSON
  parser would also misread a backslash, which it takes as the start of an escape, and
  would reject a raw control character. So under a JSON parser the text does not round-trip
  even for every quote-free record.
- A malformed input line makes `stringToJSON` panic (main.go:152-155), which ends the program.
  Decoding is not part of this model.

## Model

| member | source | states |
|---|---|---|
| TailerSwift.Entry | main.go:45 | An entry starts and ends with a double quote and is exactly six characters longer than key and value together (two pairs of quotes and `: `), so nothing in the key or the value is escaped. |
| TailerSwift.String | main.go:25-50 | The text written is the opening brace, the entries of all keys in strictly increasing key order separated by ", ", then the closing brace. |
| TailerSwift.WriteEntries | main.go:39-46 | After the loop, the builder holds "{" followed by the entries of the sorted keys joined by ", ": the separator goes before every entry but the first. |
| TailerSwift.JsonBraces | main.go:40-47 | The text always starts with `{` and ends with `}`, and it is exactly `{}` if and only if the record is empty. |
| TailerSwift.StringRoundTrip | main.go:39-47 | When no key or value holds a double quote, the literal reader `ParseObject` (no escape sequences) reads the text back as one (key, value) pair per key in increasing key order, and those pairs rebuild the record exactly. |
| TailerSwift.StringReadBackNeedsQuoteFree | main.go:45 | Conversely, when a key or a value holds a double quote, the literal reader either rejects the text or reads back a different record. |
| TailerSwift.JsonTwoFields | main.go:45 | Each entry is `"key": "value"`: the record {id: 1, status: ok} prints as `{"id": "1", "status": "ok"}`. |
| TailerSwift.JsonTextAmbiguous | main.go:45 | With no escaping, a value holding `", "` makes one record print exactly like a different record with two keys. |
| Records.CollectKeys | main.go:30-35 | The key array has one slot per map key and lists every key exactly once: distinct, and a key is in the array if and only if it is in the map. |
| SortStrings.Sort | main.go:36 | After `sort.Strings` the array is in non-decreasing string order and is a permutation of its old contents. |
| Records.SortedKeyArray | serializers.go:27-34 | Collecting then sorting yields the one strictly increasing list of the map's keys, whatever order the map is ranged in. |
| Records.SortedKeysUnique | serializers.go:34 | There is only one strictly increasing list of a given set of keys. |
| StringOrder.LessTotal | serializers.go:34 | Go's string order is total: two strings are equal or one is less than the other. |
| StringOrder.LessTransitive | serializers.go:34 | Go's string order is transitive. |
| TailerSwift.ToKeep | main.go:62-73 | The record is kept if and only if every rule key is present and its value matches the rule's pattern without a compile error, whatever order the rules are visited in. |
| TailerSwift.KeepsWithoutRules | main.go:62-73 | With an empty rule map every record is kept. |
| TailerSwift.KeepsNeedsEveryKey | main.go:64-67 | A record without one of the rule keys is dropped. |
| TailerSwift.KeepsPatternError | main.go:68-70 | A pattern that fails to compile drops every record that has its key. |
| TailerSwift.Lookup | main.go:132 | Go's map read: the key's value when the key is present, and the zero value "" when it is missing. |
| TailerSwift.Project | main.go:125-133 | With an empty projection the record passes unchanged. Otherwise the new record's keys are exactly the comma-split names, each holding the line's value or "" when the line lacks it. |
| TailerSwift.ProjectedNames | main.go:130-133 | Projecting on the names n1,...,nk, none holding a comma, yields exactly those keys with the line's values. |
| TailerSwift.ProjectedSize | main.go:130-133 | A projection has between 1 and (number of commas + 1) keys, with the upper bound reached exactly when no name repeats. |
| TailerSwift.ProjectedDuplicate | main.go:131-133 | A name listed twice yields a single key, the empty name included (the projection `,`). |
| Strings.Split | main.go:131 | `strings.Split` on a comma gives at least one piece, and no piece holds a comma. |
| Strings.SplitCount | main.go:131 | `strings.Split` gives one more piece than there are commas. |
| Strings.JoinSplit | main.go:131 | Joining the pieces of `strings.Split` with the separator gives back the original string. |
| Strings.SplitJoin | main.go:131 | Splitting a join of comma-free pieces gives back the pieces. |
| TailerSwift.GetSerializer | main.go:75-83 | The call succeeds if and only if the name is "json" or "csv". The serializer chosen is the one with that name. Any other name fails with "unknown serialization format: " followed by the name. |
| TailerSwift.Serialize | serializers.go:11-51 | The JSON serializer gives the `json.Marshal` text, with its error dropped. A CSV line has no white space at either end, and the empty record gives the empty line. |
| TailerSwift.GetSerializerNames | main.go:75-83 | "json" and "csv" select their serializer, and every other name is the unknown-format error. |
| TailerSwift.KeptRecords | main.go:141-146 | The parsers pass on exactly the records the filter keeps, each as often as it occurs in the input. |
| TailerSwift.KeptFromInput | main.go:141-146 | Every record passed on occurs in the input. Without rules the records passed on are the input itself. |
| TailerSwift.Output | main.go:119-146 | Line i is the serialized projection of the i-th kept record, so each kept record gets exactly one line, as often as it occurs in the input, and there are at most as many lines as input records. Each line comes from an input record the filter keeps, and every input record the filter keeps has its line: nothing is lost or duplicated between parser and printer. Without rules there is one line per input record, and line i serializes the projection of record i. |
| TailerSwift.KeptWithoutRules | main.go:143-146 | Without rules every record is passed on, in order. |
| TailerSwift.OutputSingle | main.go:124-135 | A single kept record produces exactly one output line: its projection, serialized. |
| TailerSwift.CsvProjectedId | main.go:124-135 | The record {id: 1, status: ok}, filtered on status ~ ok, projected on id and written as CSV, prints the single line `1`. |
| Serializers.CsvSerialize | serializers.go:26-51 | The result is the record's values in increasing key order, written as one CSV row and its line ending, then trimmed of white space. |
| Serializers.LookUpAll | serializers.go:36-41 | `values[i]` is the value of `keys[i]` for every i. |
| Serializers.NeedsQuotes | serializers.go:46 | The writer's quoting rule. A field left bare holds no comma, double quote, CR or LF and does not start with white space. A field that is quoted is never empty. |
| Serializers.EscapeLength | serializers.go:46 | Inside quotes every double quote is doubled: the escaped text is one character longer per quote, and a field without quotes is copied unchanged. |
| Serializers.EncodeField | serializers.go:46 | A field is written empty exactly when it is empty. It is written verbatim when it needs no quotes, and otherwise between two double quotes. |
| Serializers.EncodeRow | serializers.go:46 | The fields are written in order: no values give the empty row, the row begins with the first field as written, and when a second field follows, a comma comes right after the first. |
| Serializers.WriteRecord | serializers.go:46-47 | After `Write` and `Flush` the buffer holds the row followed by a single LF line ending. |
| Serializers.ParseRowEncode | serializers.go:43-47 | A row written by the CSV writer reads back without error under a reader that enforces RFC 4180's quoting and separator rules: quotes removed, doubled quotes undone, one field per value and a comma after every field but the last. The reader fails on an unclosed quote, on text between a closing quote and the next comma, and on a bare field holding a quote or a line break. |
| Serializers.EncodeRowEdges | serializers.go:46 | A written row never starts with white space. When its last value is empty, is quoted, or does not end in white space, the row does not end with white space either. |
| Serializers.CsvRoundTrip | serializers.go:43-50 | For a non-empty record whose last value keeps its trailing space, the trimmed CSV line reads back as the values in key order. |
| Serializers.CsvEmpty | serializers.go:27-50 | The empty record serializes to the empty string. |
| Serializers.CsvOneField | serializers.go:43-50 | A record with one key whose value needs no quoting and does not end in white space is written as that value, verbatim. |
| Serializers.CsvTrailingSpaceLost | serializers.go:49-50 | `strings.TrimSpace` strips the trailing blank of a bare last value: {k: "v "} prints as `v`, which no longer reads back as the record's value. |
| Strings.TrimSpace | serializers.go:50 | The result is a slice of the input with only white space cut from either end, and it neither starts nor ends with white space. |
| Strings.TrimSpaceLine | serializers.go:49-50 | Trimming a row that neither starts nor ends with white space removes only its line ending. |

## Left out

- The goroutines, channels and `sync.WaitGroup` of `main`, `parser` and `printer` are not modelled. `TailerSwift.Output` is the sequential run. With several parsers the printed lines are a permutation of `Output`'s lines in which the records handled by any one parser keep their relative order.
- Reading standard input and printing with `fmt.Println` are I/O and are not modelled.
- Flag parsing is not modelled. The rules, the projection list and the format name are parameters.
- `stringToJSON` and `json.Unmarshal` are not modelled, including the panic on a malformed line. The records are given already decoded.
- `regexp.MatchString` is a foreign library, so it is the parameter `matchString`.
- `jsonSerializer.serialize` wraps `json.Marshal`, whose escaping is library behaviour. It is the parameter `marshal`.
- The internals of `bytes.Buffer` and `csv.Writer` are not modelled. Only the row they produce is: the comma delimiter, the LF line ending, and Go's quoting rule.
- A panic in `getSerializer` is modelled as the `Failure` result carrying the same message.
- SortStrings.Sort: it is an insertion sort, while Go's `sort.Strings` is pattern-defeating quicksort. Both give the same sorted permutation, and the running time is not modelled.
- Strings are sequences of Unicode scalar values rather than UTF-8 bytes. Byte order and code-point order coincide for valid UTF-8. Invalid UTF-8 input is not modelled.
