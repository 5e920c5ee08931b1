/**
 The record transform of the line filter: the rendering of a record by
 `stringOnlyJSON.String`, the filter `filter.ToKeep`, the projection done by
 the printer stage, and the choice of serializer by `getSerializer`; and, as
 one sequential function, what the pipeline writes for a list of decoded
 records.

 The regular-expression engine is a parameter (`matchString`, standing for
 `regexp.MatchString`), and so is `json.Marshal`, which the JSON serializer
 wraps.
 */
module TailerSwift {
  import opened Wrappers
  import opened StringOrder
  import opened Strings
  import opened Records
  import Serializers

  // ---------------------------------------------------------------------------
  // stringOnlyJSON.String

  /** One entry as `fmt.Sprintf("\"%s\": \"%s\"", key, value)` writes it: nothing is escaped. */
  function Entry(key: string, value: string): (entry: string)
    ensures |entry| == |key| + |value| + 6
    ensures entry[0] == '"' && entry[|entry| - 1] == '"'
  {
    "\"" + key + "\": \"" + value + "\""
  }

  function Entries(keys: seq<string>, m: Record): seq<string>
    requires forall k :: k in keys ==> k in m
  {
    seq(|keys|, i requires 0 <= i < |keys| => Entry(keys[i], m[keys[i]]))
  }

  /** The text of `String`: the entries in increasing key order, between braces, separated by ", ". */
  ghost function JsonText(m: Record): string
  {
    "{" + Join(Entries(SortedKeys(m.Keys), m), ", ") + "}"
  }

  lemma JsonTextOf(m: Record, keys: seq<string>)
    requires keys == SortedKeys(m.Keys)
    ensures forall k :: k in keys ==> k in m
    ensures JsonText(m) == "{" + Join(Entries(keys, m), ", ") + "}"
  {
  }

  /** `stringOnlyJSON.String`: collect and sort the keys, then write the entries one by one. */
  method String(s: Record) returns (r: string)
    ensures r == JsonText(s)
  {
    var keys := SortedKeyArray(s);
    ghost var sorted := keys[..];
    assert forall p :: 0 <= p < keys.Length ==> keys[p] in s by {
      assert forall p :: 0 <= p < keys.Length ==> sorted[p] in sorted;
    }
    var sb := WriteEntries(keys, s);
    JsonTextOf(s, sorted);
    sb := sb + "}";
    r := sb;
  }

  /** The loop of `String`: an opening brace, then the entry of every key in order, separated by ", ". */
  method WriteEntries(keys: array<string>, s: Record) returns (sb: string)
    requires forall p :: 0 <= p < keys.Length ==> keys[p] in s
    ensures forall k :: k in keys[..] ==> k in s
    ensures sb == "{" + Join(Entries(keys[..], s), ", ")
  {
    ghost var entries := Entries(keys[..], s);
    sb := "{";
    var idx := 0;
    while idx < keys.Length
      invariant 0 <= idx <= keys.Length
      invariant sb == "{" + Join(entries[..idx], ", ")
    {
      var entry := Entry(keys[idx], s[keys[idx]]);
      ghost var before := sb;
      if idx != 0 {
        sb := sb + ", ";
      }
      sb := sb + entry;
      AppendEntry(entries, idx, before);
      idx := idx + 1;
    }
    assert entries[..idx] == entries;
  }

  /** One more entry, after a separator unless it is the first, extends the text by one part. */
  lemma AppendEntry(entries: seq<string>, idx: nat, sb: string)
    requires idx < |entries|
    requires sb == "{" + Join(entries[..idx], ", ")
    ensures (if idx != 0 then sb + ", " else sb) + entries[idx] == "{" + Join(entries[..idx + 1], ", ")
  {
    var entry := entries[idx];
    TakeOneMore(entries, idx);
    if idx != 0 {
      JoinSnoc(entries[..idx], entry, ", ");
      Associative("{", Join(entries[..idx], ", "), ", ");
      Associative("{", Join(entries[..idx], ", ") + ", ", entry);
    } else {
      Associative("{", "", entry);
    }
  }

  lemma TakeOneMore(s: seq<string>, i: nat)
    requires i < |s|
    ensures s[..i + 1] == s[..i] + [s[i]]
  {
  }

  lemma Associative(a: string, b: string, c: string)
    ensures (a + b) + c == a + (b + c)
  {
  }

  // ---------------------------------------------------------------------------
  // Reading the text of String back, when no key or value holds a double quote.

  /** The text before the first double quote, and the rest from that quote on. */
  function ReadToQuote(s: string): (r: (string, string))
    ensures r.0 + r.1 == s
    ensures '"' !in r.0
    ensures r.1 == "" || r.1[0] == '"'
    decreases |s|
  {
    if |s| == 0 || s[0] == '"' then ("", s)
    else
      var tail := ReadToQuote(s[1..]);
      ReadToQuoteStep(s, tail.0, tail.1);
      ([s[0]] + tail.0, tail.1)
  }

  lemma ReadToQuoteStep(s: string, text: string, rest: string)
    requires |s| > 0 && s[0] != '"'
    requires text + rest == s[1..] && '"' !in text
    ensures ([s[0]] + text) + rest == s
    ensures '"' !in [s[0]] + text
  {
    assert s == [s[0]] + s[1..];
  }

  const Colon: string := "\": \""

  /** Reads `"key": "value"` from the front of s: the key, the value and what follows. */
  function ParseEntry(s: string): (r: Option<(string, string, string)>)
    ensures r.Some? ==> |r.value.2| < |s|
  {
    if |s| == 0 || s[0] != '"' then None
    else
      var (key, afterKey) := ReadToQuote(s[1..]);
      if |afterKey| < 4 || afterKey[..4] != Colon then None
      else
        var (value, afterValue) := ReadToQuote(afterKey[4..]);
        if afterValue == "" then None else Some((key, value, afterValue[1..]))
  }

  /** Reads entries separated by ", ". */
  function ParseEntries(s: string): Option<seq<(string, string)>>
    decreases |s|
  {
    match ParseEntry(s)
    case None => None
    case Some((key, value, rest)) =>
      if rest == "" then Some([(key, value)])
      else if |rest| < 2 || rest[..2] != ", " then None
      else
        match ParseEntries(rest[2..])
        case None => None
        case Some(entries) => Some([(key, value)] + entries)
  }

  /** Reads the text of an object `{...}` into its list of entries. */
  function ParseObject(s: string): Option<seq<(string, string)>>
  {
    if |s| < 2 || s[0] != '{' || s[|s| - 1] != '}' then None
    else if |s| == 2 then Some([])
    else ParseEntries(s[1..|s| - 1])
  }

  /** The record that a list of entries describes; a later entry wins. */
  function ToRecord(entries: seq<(string, string)>): Record
  {
    if entries == [] then map[]
    else ToRecord(entries[..|entries| - 1])[entries[|entries| - 1].0 := entries[|entries| - 1].1]
  }

  function Pairs(keys: seq<string>, m: Record): seq<(string, string)>
    requires forall k :: k in keys ==> k in m
  {
    seq(|keys|, i requires 0 <= i < |keys| => (keys[i], m[keys[i]]))
  }

  ghost predicate QuoteFree(m: Record)
  {
    forall k :: k in m ==> '"' !in k && '"' !in m[k]
  }

  lemma EntryParse(key: string, value: string, rest: string)
    requires '"' !in key && '"' !in value
    ensures ParseEntry(Entry(key, value) + rest) == Some((key, value, rest))
  {
    var s := Entry(key, value) + rest;
    var afterKey := Colon + value + "\"" + rest;
    assert s[1..] == key + afterKey;
    ReadToQuoteFree(key, afterKey);
    assert afterKey[..4] == Colon;
    var afterValue := "\"" + rest;
    assert afterKey[4..] == value + afterValue;
    ReadToQuoteFree(value, afterValue);
    assert afterValue[1..] == rest;
  }

  /** A quote-free prefix is read whole, up to the quote that follows it. */
  lemma {:induction false} ReadToQuoteFree(text: string, rest: string)
    requires '"' !in text
    requires rest != [] && rest[0] == '"'
    ensures ReadToQuote(text + rest) == (text, rest)
    decreases |text|
  {
    if text != [] {
      var s := text + rest;
      assert s[1..] == text[1..] + rest;
      ReadToQuoteFree(text[1..], rest);
      assert text == [text[0]] + text[1..];
    } else {
      assert text + rest == rest;
    }
  }

  lemma {:induction false} ParseEntriesJoin(keys: seq<string>, m: Record)
    requires |keys| > 0
    requires forall k :: k in keys ==> k in m
    requires QuoteFree(m)
    ensures ParseEntries(Join(Entries(keys, m), ", ")) == Some(Pairs(keys, m))
    decreases |keys|
  {
    var first := Entry(keys[0], m[keys[0]]);
    assert '"' !in keys[0] && '"' !in m[keys[0]];
    EntriesCons(keys, m);
    if |keys| == 1 {
      assert Join(Entries(keys, m), ", ") == first + "";
      EntryParse(keys[0], m[keys[0]], "");
      assert ParseEntries(first + "") == Some([(keys[0], m[keys[0]])]);
      assert Pairs(keys[1..], m) == [];
      assert Pairs(keys, m) == [(keys[0], m[keys[0]])];
    } else {
      ParseEntriesJoin(keys[1..], m);
      ParseEntriesCons(keys[0], m[keys[0]], Join(Entries(keys[1..], m), ", "), Pairs(keys[1..], m));
    }
  }

  /** The entries and pairs of keys split into those of the first key and of the rest. */
  lemma EntriesCons(keys: seq<string>, m: Record)
    requires |keys| > 0
    requires forall k :: k in keys ==> k in m
    ensures forall k :: k in keys[1..] ==> k in m
    ensures |keys| == 1 ==> Join(Entries(keys, m), ", ") == Entry(keys[0], m[keys[0]])
    ensures |keys| > 1 ==> Join(Entries(keys, m), ", ") == Entry(keys[0], m[keys[0]]) + ", " + Join(Entries(keys[1..], m), ", ")
    ensures Pairs(keys, m) == [(keys[0], m[keys[0]])] + Pairs(keys[1..], m)
  {
    assert forall k :: k in keys[1..] ==> k in keys;
    assert Entries(keys, m)[1..] == Entries(keys[1..], m);
  }

  /** One entry in front of a readable list of entries, with ", " between. */
  lemma ParseEntriesCons(key: string, value: string, tail: string, pairs: seq<(string, string)>)
    requires '"' !in key && '"' !in value
    requires ParseEntries(tail) == Some(pairs)
    ensures ParseEntries(Entry(key, value) + ", " + tail) == Some([(key, value)] + pairs)
  {
    var rest := ", " + tail;
    var s := Entry(key, value) + rest;
    assert Entry(key, value) + ", " + tail == s;
    EntryParse(key, value, rest);
    assert rest[..2] == ", " && rest[2..] == tail;
    ParseEntriesStep(s, key, value, rest, pairs);
  }

  lemma ParseEntriesStep(s: string, key: string, value: string, rest: string, pairs: seq<(string, string)>)
    requires ParseEntry(s) == Some((key, value, rest))
    requires |rest| >= 2 && rest[..2] == ", " && ParseEntries(rest[2..]) == Some(pairs)
    ensures ParseEntries(s) == Some([(key, value)] + pairs)
  {
  }

  /** Building a record from the entries of some keys of m gives m restricted to those keys. */
  lemma {:induction false} ToRecordPairs(keys: seq<string>, m: Record)
    requires forall k :: k in keys ==> k in m
    ensures ToRecord(Pairs(keys, m)) == map k | k in keys :: m[k]
    decreases |keys|
  {
    if keys != [] {
      var init := keys[..|keys| - 1];
      assert forall k :: k in init ==> k in keys;
      ToRecordPairs(init, m);
      assert Pairs(keys, m)[..|keys| - 1] == Pairs(init, m);
      assert keys == init + [keys[|keys| - 1]];
    }
  }

  /**
   When no key and no value holds a double quote, the text of String reads
   back as the record's entries in increasing key order, and they describe the
   record exactly.
   */
  lemma StringRoundTrip(m: Record)
    requires QuoteFree(m)
    ensures ParseObject(JsonText(m)) == Some(Pairs(SortedKeys(m.Keys), m))
    ensures ToRecord(Pairs(SortedKeys(m.Keys), m)) == m
  {
    var keys := SortedKeys(m.Keys);
    JsonTextOf(m, keys);
    var body := Join(Entries(keys, m), ", ");
    var text := JsonText(m);
    assert text[1..|text| - 1] == body;
    if keys == [] {
      assert body == "";
    } else {
      ParseEntriesJoin(keys, m);
      assert |body| >= |Entries(keys, m)[0]| > 0;
    }
    ToRecordPairs(keys, m);
  }

  /** Every key and value that the reader returns is free of double quotes. */
  lemma {:induction false} ParseEntriesQuoteFree(s: string, pairs: seq<(string, string)>)
    requires ParseEntries(s) == Some(pairs)
    ensures forall i :: 0 <= i < |pairs| ==> '"' !in pairs[i].0 && '"' !in pairs[i].1
    decreases |s|
  {
    var (key, value, rest) := ParseEntry(s).value;
    if rest != "" {
      var more := ParseEntries(rest[2..]).value;
      ParseEntriesQuoteFree(rest[2..], more);
      assert pairs == [(key, value)] + more;
    }
  }

  /** A record built from quote-free pairs is quote-free. */
  lemma {:induction false} ToRecordQuoteFree(pairs: seq<(string, string)>)
    requires forall i :: 0 <= i < |pairs| ==> '"' !in pairs[i].0 && '"' !in pairs[i].1
    ensures QuoteFree(ToRecord(pairs))
    decreases |pairs|
  {
    if pairs != [] {
      ToRecordQuoteFree(pairs[..|pairs| - 1]);
    }
  }

  /** Whatever text the reader accepts describes a quote-free record. */
  lemma ParseObjectQuoteFree(text: string)
    requires ParseObject(text).Some?
    ensures QuoteFree(ToRecord(ParseObject(text).value))
  {
    var pairs := ParseObject(text).value;
    if |text| > 2 {
      ParseEntriesQuoteFree(text[1..|text| - 1], pairs);
    }
    ToRecordQuoteFree(pairs);
  }

  /**
   The converse of StringRoundTrip: a record with a double quote in a key or a
   value does not read back from its text.
   */
  lemma StringReadBackNeedsQuoteFree(m: Record)
    requires !QuoteFree(m)
    ensures ParseObject(JsonText(m)).None? || ToRecord(ParseObject(JsonText(m)).value) != m
  {
    if ParseObject(JsonText(m)).Some? {
      ParseObjectQuoteFree(JsonText(m));
    }
  }

  /** The braces frame every text, and only the empty record gives `{}`. */
  lemma JsonBraces(m: Record)
    ensures var text := JsonText(m); |text| >= 2 && text[0] == '{' && text[|text| - 1] == '}'
    ensures JsonText(m) == "{}" <==> m == map[]
  {
    var keys := SortedKeys(m.Keys);
    var body := Join(Entries(keys, m), ", ");
    if m == map[] {
      assert keys == [];
      assert body == "";
    } else {
      assert |body| >= |Entries(keys, m)[0]| > 0;
    }
  }

  /** The text of a record with two keys a < b. */
  lemma JsonTextOfTwo(m: Record, a: string, b: string)
    requires Less(a, b) && m.Keys == {a, b}
    ensures JsonText(m) == "{" + Entry(a, m[a]) + ", " + Entry(b, m[b]) + "}"
  {
    SortedKeysPair(a, b);
    JsonTextOf(m, [a, b]);
    var entries := Entries([a, b], m);
    assert entries == [Entry(a, m[a]), Entry(b, m[b])];
    assert Join(entries, ", ") == Entry(a, m[a]) + ", " + Entry(b, m[b]);
  }

  /** The text of {"id": "1", "status": "ok"}. */
  lemma JsonTwoFields()
    ensures JsonText(map["id" := "1", "status" := "ok"]) == "{\"id\": \"1\", \"status\": \"ok\"}"
  {
    var m := map["id" := "1", "status" := "ok"];
    assert m.Keys == {"id", "status"};
    JsonTextOfTwo(m, "id", "status");
    EntriesText();
  }

  lemma EntriesText()
    ensures "{" + Entry("id", "1") + ", " + Entry("status", "ok") + "}" == "{\"id\": \"1\", \"status\": \"ok\"}"
  {
  }

  /** The text of a record with one key. */
  lemma JsonTextOfOne(m: Record, a: string)
    requires m.Keys == {a}
    ensures JsonText(m) == "{" + Entry(a, m[a]) + "}"
  {
    SortedKeysSingle(a);
    JsonTextOf(m, [a]);
    assert Entries([a], m) == [Entry(a, m[a])];
  }

  /**
   Nothing is escaped, so two different records can have the same text:
   {"a": "b\", \"c\": \"d"} and {"a": "b", "c": "d"} both give
   `{"a": "b", "c": "d"}`.
   */
  lemma JsonTextAmbiguous()
    ensures JsonText(map["a" := "b\", \"c\": \"d"]) == JsonText(map["a" := "b", "c" := "d"])
  {
    var one := map["a" := "b\", \"c\": \"d"];
    var two := map["a" := "b", "c" := "d"];
    assert one.Keys == {"a"};
    JsonTextOfOne(one, "a");
    assert two.Keys == {"a", "c"};
    assert Less("a", "c");
    JsonTextOfTwo(two, "a", "c");
    AmbiguousEntries();
  }

  lemma AmbiguousEntries()
    ensures "{" + Entry("a", "b\", \"c\": \"d") + "}" == "{" + Entry("a", "b") + ", " + Entry("c", "d") + "}"
  {
  }

  // ---------------------------------------------------------------------------
  // filter.ToKeep

  /** What `regexp.MatchString(pattern, value)` returns: whether it matched, and whether the pattern failed to compile. */
  datatype MatchResult = MatchResult(matched: bool, failed: bool)

  /** `filter`: for each key, the pattern its value must match. */
  datatype Filter = Filter(rules: map<string, string>)

  /** The record has every key of the rules, and each such value matches its pattern without error. */
  ghost predicate Keeps(f: Filter, jsonObj: Record, matchString: (string, string) -> MatchResult)
  {
    forall key :: key in f.rules ==>
      && key in jsonObj
      && matchString(f.rules[key], jsonObj[key]).matched
      && !matchString(f.rules[key], jsonObj[key]).failed
  }

  /** `filter.ToKeep`: the rules are visited in the map's order, and the first one that fails decides. */
  method ToKeep(f: Filter, jsonObj: Record, matchString: (string, string) -> MatchResult) returns (keep: bool)
    ensures keep == Keeps(f, jsonObj, matchString)
  {
    var unvisited := f.rules.Keys;
    while unvisited != {}
      invariant unvisited <= f.rules.Keys
      invariant forall key :: key in f.rules && key !in unvisited ==>
        && key in jsonObj
        && matchString(f.rules[key], jsonObj[key]).matched
        && !matchString(f.rules[key], jsonObj[key]).failed
      decreases unvisited
    {
      var key :| key in unvisited;
      var matcher := f.rules[key];
      if key !in jsonObj {
        return false;
      }
      var value := jsonObj[key];
      var result := matchString(matcher, value);
      if !result.matched || result.failed {
        return false;
      }
      unvisited := unvisited - {key};
    }
    return true;
  }

  /** With no rules every record is kept. */
  lemma KeepsWithoutRules(jsonObj: Record, matchString: (string, string) -> MatchResult)
    ensures Keeps(Filter(map[]), jsonObj, matchString)
  {
  }

  /** A record that lacks a rule's key is dropped, whatever the patterns. */
  lemma KeepsNeedsEveryKey(f: Filter, jsonObj: Record, matchString: (string, string) -> MatchResult, key: string)
    requires key in f.rules && key !in jsonObj
    ensures !Keeps(f, jsonObj, matchString)
  {
  }

  /** A pattern that does not compile drops every record that has its key. */
  lemma KeepsPatternError(f: Filter, jsonObj: Record, matchString: (string, string) -> MatchResult, key: string)
    requires key in f.rules && key in jsonObj
    requires matchString(f.rules[key], jsonObj[key]).failed
    ensures !Keeps(f, jsonObj, matchString)
  {
  }

  // ---------------------------------------------------------------------------
  // The projection in printer

  /** `line[key]`: a missing key reads as Go's zero value, the empty string. */
  /** Go's map read `line[key]`: the zero value "" for a missing key. */
  function Lookup(line: Record, key: string): (value: string)
    ensures key in line ==> value == line[key]
    ensures key !in line ==> value == ""
  {
    if key in line then line[key] else ""
  }

  /** The record the printer serializes: the line itself without a projection, else the named keys. */
  function Projected(line: Record, project: string): Record
  {
    if project == "" then line
    else map key | key in Split(project, ',') :: Lookup(line, key)
  }

  /** The projection block of `printer`: one map entry per comma-separated name, a repeated name overwriting. */
  method Project(line: Record, project: string) returns (projected: Record)
    ensures project == "" ==> projected == line
    ensures project != "" ==> forall key :: key in projected <==> key in Split(project, ',')
    ensures forall key :: key in projected && project != "" ==> projected[key] == Lookup(line, key)
    ensures projected == Projected(line, project)
  {
    if project == "" {
      return line;
    }
    projected := map[];
    var names := Split(project, ',');
    var i := 0;
    while i < |names|
      invariant 0 <= i <= |names|
      invariant projected == map key | key in names[..i] :: Lookup(line, key)
    {
      var key := names[i];
      ProjectStep(line, names, i, projected);
      projected := projected[key := Lookup(line, key)];
      i := i + 1;
    }
    assert names[..i] == names;
    ProjectedSpec(line, project);
  }

  /** One more name of the projection list adds its entry. */
  lemma ProjectStep(line: Record, names: seq<string>, i: nat, projected: Record)
    requires i < |names|
    requires projected == map key | key in names[..i] :: Lookup(line, key)
    ensures projected[names[i] := Lookup(line, names[i])] == map key | key in names[..i + 1] :: Lookup(line, key)
  {
    assert names[..i + 1] == names[..i] + [names[i]];
  }

  /** The projected record has exactly the listed names as keys, each with its value in the line or "". */
  lemma ProjectedSpec(line: Record, project: string)
    requires project != ""
    ensures forall key :: key in Projected(line, project) <==> key in Split(project, ',')
    ensures forall key :: key in Projected(line, project) ==> Projected(line, project)[key] == Lookup(line, key)
  {
  }

  /**
   Projecting on the names n1,...,nk (none holding a comma, not all empty)
   gives exactly those keys, each with the line's value or "".
   */
  lemma ProjectedNames(line: Record, names: seq<string>)
    requires |names| > 0 && forall n :: n in names ==> ',' !in n
    requires Join(names, ",") != ""
    ensures forall key :: key in Projected(line, Join(names, ",")) <==> key in names
    ensures forall key :: key in names ==> Projected(line, Join(names, ","))[key] == Lookup(line, key)
  {
    SplitJoin(names, ',');
  }

  /**
   A projection has at least one key and at most one more than the commas
   of the list; exactly that many when no name repeats.
   */
  lemma ProjectedSize(line: Record, project: string)
    requires project != ""
    ensures 1 <= |Projected(line, project)| <= multiset(project)[','] + 1
    ensures |Projected(line, project)| == multiset(project)[','] + 1 <==> Distinct(Split(project, ','))
  {
    var names := Split(project, ',');
    SplitCount(project, ',');
    assert Projected(line, project).Keys == Elements(names);
    ElementsCardinality(names);
    assert names[0] in Elements(names);
  }

  /** Naming a key twice gives it once. */
  lemma ProjectedDuplicate(line: Record, name: string)
    requires ',' !in name
    ensures Projected(line, name + "," + name) == map[name := Lookup(line, name)]
  {
    var project := name + "," + name;
    JoinTwice(name);
    SplitJoin([name, name], ',');
    ProjectedSpec(line, project);
    var projected := Projected(line, project);
    assert forall key :: key in projected <==> key == name;
  }

  lemma JoinTwice(name: string)
    ensures Join([name, name], [',']) == name + "," + name
  {
    assert [name, name][1..] == [name];
  }

  // ---------------------------------------------------------------------------
  // getSerializer

  datatype Serializer = JsonSerializer | CsvSerializer

  /** `getSerializer`: "json" and "csv" name the two serializers; any other name is the startup error. */
  function GetSerializer(format: string): (r: Result<Serializer, string>)
    ensures r.Success? <==> format == "json" || format == "csv"
    ensures r.Success? ==> FormatName(r.value) == format
    ensures r.Failure? ==> r.error == "unknown serialization format: " + format
  {
    if format == "json" then Success(JsonSerializer)
    else if format == "csv" then Success(CsvSerializer)
    else Failure("unknown serialization format: " + format)
  }

  /** The name that selects each serializer. */
  function FormatName(s: Serializer): string
  {
    match s
    case JsonSerializer => "json"
    case CsvSerializer => "csv"
  }

  /** A format name selects a serializer exactly when it is that serializer's name; any other name fails. */
  lemma GetSerializerNames(format: string, s: Serializer)
    ensures GetSerializer(format) == Success(s) <==> format == FormatName(s)
    ensures GetSerializer(format).Failure? <==> format != "json" && format != "csv"
  {
  }

  /**
   `serializer.serialize`; the JSON serializer is `json.Marshal`, given here as
   `marshal`, with its error dropped. A CSV line has no white space at either
   end, and the empty record is the empty line.
   */
  ghost function Serialize(s: Serializer, record: Record, marshal: Record -> string): (line: string)
    ensures s == JsonSerializer ==> line == marshal(record)
    ensures s == CsvSerializer ==> line == "" || (!IsSpace(line[0]) && !IsSpace(line[|line| - 1]))
    ensures s == CsvSerializer && record == map[] ==> line == ""
  {
    Serializers.CsvEmpty();
    match s
    case JsonSerializer => marshal(record)
    case CsvSerializer => Serializers.CsvText(record)
  }

  // ---------------------------------------------------------------------------
  // The pipeline, run sequentially

  /** The records the parser goroutines pass on: each kept record exactly as often as it occurs, in input order. */
  ghost function KeptRecords(records: seq<Record>, f: Filter, matchString: (string, string) -> MatchResult): (kept: seq<Record>)
    ensures forall r :: r in kept ==> Keeps(f, r, matchString)
    ensures forall r :: multiset(kept)[r] == if Keeps(f, r, matchString) then multiset(records)[r] else 0
    ensures |kept| <= |records|
    decreases |records|
  {
    if records == [] then []
    else
      var rest := KeptRecords(records[1..], f, matchString);
      assert records == [records[0]] + records[1..];
      if Keeps(f, records[0], matchString) then [records[0]] + rest else rest
  }

  /**
   The lines the printer writes, when the records reach it in input order:
   one line per kept record, so none is lost and none is invented; each line
   is the serialized projection of an input record the filter keeps, and
   every kept record has its line. Without rules line i is record i.
   */
  ghost function Output(records: seq<Record>, f: Filter, project: string, s: Serializer,
                        matchString: (string, string) -> MatchResult, marshal: Record -> string): (lines: seq<string>)
    ensures |lines| == |KeptRecords(records, f, matchString)| <= |records|
    ensures forall i :: 0 <= i < |lines| ==>
      lines[i] == Serialize(s, Projected(KeptRecords(records, f, matchString)[i], project), marshal)
    ensures forall i :: 0 <= i < |lines| ==>
      exists r :: r in records && Keeps(f, r, matchString) && lines[i] == Serialize(s, Projected(r, project), marshal)
    ensures forall r :: r in records && Keeps(f, r, matchString) ==> Serialize(s, Projected(r, project), marshal) in lines
    ensures f.rules == map[] ==>
      |lines| == |records| &&
      forall i :: 0 <= i < |records| ==> lines[i] == Serialize(s, Projected(records[i], project), marshal)
  {
    var kept := KeptRecords(records, f, matchString);
    var lines := seq(|kept|, i requires 0 <= i < |kept| => Serialize(s, Projected(kept[i], project), marshal));
    KeptFromInput(records, f, matchString);
    LinesFromKept(records, f, project, s, matchString, marshal, lines);
    LinesCoverKept(records, f, project, s, matchString, marshal, lines);
    lines
  }

  /** Each line serializes some input record that the filter keeps. */
  lemma LinesFromKept(records: seq<Record>, f: Filter, project: string, s: Serializer,
                      matchString: (string, string) -> MatchResult, marshal: Record -> string, lines: seq<string>)
    requires |lines| == |KeptRecords(records, f, matchString)|
    requires forall i :: 0 <= i < |lines| ==>
      lines[i] == Serialize(s, Projected(KeptRecords(records, f, matchString)[i], project), marshal)
    ensures forall i :: 0 <= i < |lines| ==>
      exists r :: r in records && Keeps(f, r, matchString) && lines[i] == Serialize(s, Projected(r, project), marshal)
  {
    var kept := KeptRecords(records, f, matchString);
    KeptFromInput(records, f, matchString);
    forall i | 0 <= i < |lines|
      ensures exists r :: r in records && Keeps(f, r, matchString) && lines[i] == Serialize(s, Projected(r, project), marshal)
    {
      assert kept[i] in kept;
    }
  }

  /** Every input record that the filter keeps has its line. */
  lemma LinesCoverKept(records: seq<Record>, f: Filter, project: string, s: Serializer,
                       matchString: (string, string) -> MatchResult, marshal: Record -> string, lines: seq<string>)
    requires |lines| == |KeptRecords(records, f, matchString)|
    requires forall i :: 0 <= i < |lines| ==>
      lines[i] == Serialize(s, Projected(KeptRecords(records, f, matchString)[i], project), marshal)
    ensures forall r :: r in records && Keeps(f, r, matchString) ==> Serialize(s, Projected(r, project), marshal) in lines
  {
    var kept := KeptRecords(records, f, matchString);
    KeptFromInput(records, f, matchString);
    forall r | r in records && Keeps(f, r, matchString)
      ensures Serialize(s, Projected(r, project), marshal) in lines
    {
      var i :| 0 <= i < |kept| && kept[i] == r;
      assert lines[i] == Serialize(s, Projected(r, project), marshal);
    }
  }

  /** Every kept record occurs in the input, and without rules every input record is kept. */
  lemma KeptFromInput(records: seq<Record>, f: Filter, matchString: (string, string) -> MatchResult)
    ensures forall r :: r in KeptRecords(records, f, matchString) ==> r in records
    ensures forall r :: r in records && Keeps(f, r, matchString) ==> r in KeptRecords(records, f, matchString)
    ensures f.rules == map[] ==> KeptRecords(records, f, matchString) == records
  {
    var kept := KeptRecords(records, f, matchString);
    assert forall r :: r in kept ==> multiset(kept)[r] > 0;
    assert forall r :: r in records ==> multiset(records)[r] > 0;
    if f.rules == map[] {
      KeptWithoutRules(records, matchString);
    }
  }

  /** Without rules nothing is dropped. */
  lemma {:induction false} KeptWithoutRules(records: seq<Record>, matchString: (string, string) -> MatchResult)
    ensures KeptRecords(records, Filter(map[]), matchString) == records
    decreases |records|
  {
    if records != [] {
      KeptWithoutRules(records[1..], matchString);
      assert Keeps(Filter(map[]), records[0], matchString);
      assert records == [records[0]] + records[1..];
    }
  }

  /** The record {"id": "1", "status": "ok"} passes the rule status ~ "ok". */
  lemma KeepsStatusOk(matchString: (string, string) -> MatchResult)
    requires matchString("ok", "ok") == MatchResult(true, false)
    ensures Keeps(Filter(map["status" := "ok"]), map["id" := "1", "status" := "ok"], matchString)
  {
  }

  /** Projected on "id", the record {"id": "1", "status": "ok"} is {"id": "1"}. */
  lemma ProjectedId()
    ensures Projected(map["id" := "1", "status" := "ok"], "id") == map["id" := "1"]
  {
    SplitFree("id", ',');
  }

  /** A single record that is kept yields exactly one output line: its projection, serialized. */
  lemma OutputSingle(r: Record, f: Filter, project: string, s: Serializer,
                     matchString: (string, string) -> MatchResult, marshal: Record -> string)
    requires Keeps(f, r, matchString)
    ensures Output([r], f, project, s, matchString, marshal) == [Serialize(s, Projected(r, project), marshal)]
  {
    assert [r][1..] == [];
    assert KeptRecords([r], f, matchString) == [r];
  }

  /** The record {"id": "1"} is written by the CSV serializer as `1`. */
  lemma CsvId()
    ensures Serializers.CsvText(map["id" := "1"]) == "1"
  {
    assert "1"[0] == '1';
    Serializers.CsvOneField("id", "1");
  }

  /**
   The record {"id": "1", "status": "ok"} is kept by the rule status ~ "ok",
   and projected on "id" the CSV serializer writes it as the one line `1`.
   */
  lemma CsvProjectedId(matchString: (string, string) -> MatchResult, marshal: Record -> string)
    requires matchString("ok", "ok") == MatchResult(true, false)
    ensures Output([map["id" := "1", "status" := "ok"]], Filter(map["status" := "ok"]), "id",
                   CsvSerializer, matchString, marshal) == ["1"]
  {
    var line := map["id" := "1", "status" := "ok"];
    var f := Filter(map["status" := "ok"]);
    KeepsStatusOk(matchString);
    OutputSingle(line, f, "id", CsvSerializer, matchString, marshal);
    ProjectedId();
    CsvId();
  }
}
