/**
 The CSV serializer: the values of a record in increasing key order, written
 as one row by Go's `csv.Writer` (comma delimiter, LF line ending) and then
 passed through `strings.TrimSpace`.

 `csv.Writer.Write` quotes a field when it holds the delimiter, a double quote,
 CR or LF, when it begins with a white-space character, or when it is exactly
 `\.`; the empty field is never quoted. Inside quotes every double quote is
 doubled and everything else is copied (section 2 of RFC 4180).
 */
module Serializers {
  import opened Wrappers
  import opened Strings
  import opened Records

  /** `csv.Writer.fieldNeedsQuotes` with the comma as delimiter. */
  predicate NeedsQuotes(field: string)
    ensures NeedsQuotes(field) ==> field != ""
    ensures !NeedsQuotes(field) ==>
      ',' !in field && '"' !in field && '\r' !in field && '\n' !in field && (field == "" || !IsSpace(field[0]))
  {
    if field == "" then false
    else if field == "\\." then true
    else ',' in field || '"' in field || '\r' in field || '\n' in field || IsSpace(field[0])
  }

  /** The inside of a quoted field: every double quote doubled. */
  function Escape(field: string): string
  {
    if field == "" then ""
    else (if field[0] == '"' then "\"\"" else [field[0]]) + Escape(field[1..])
  }

  /** Escaping adds one character per double quote and changes nothing in a field without one. */
  lemma {:induction false} EscapeLength(field: string)
    ensures |Escape(field)| == |field| + multiset(field)['"']
    ensures '"' !in field ==> Escape(field) == field
    decreases |field|
  {
    if field != "" {
      EscapeLength(field[1..]);
      assert field == [field[0]] + field[1..];
    }
  }

  /** A field as the writer emits it: bare when no quoting is needed, otherwise quoted with its quotes doubled. */
  function EncodeField(field: string): (r: string)
    ensures r == "" <==> field == ""
    ensures !NeedsQuotes(field) ==> r == field
    ensures NeedsQuotes(field) ==> |r| >= 2 && r[0] == '"' && r[|r| - 1] == '"'
  {
    if NeedsQuotes(field) then "\"" + Escape(field) + "\"" else field
  }

  function EncodeFields(values: seq<string>): seq<string>
  {
    if values == [] then [] else [EncodeField(values[0])] + EncodeFields(values[1..])
  }

  /** The row as `csv.Writer.Write` emits it, without the line ending. */
  function EncodeRow(values: seq<string>): (row: string)
    ensures values == [] ==> row == ""
    ensures |values| > 0 ==> EncodeField(values[0]) <= row
    ensures |values| > 1 ==> EncodeField(values[0]) + "," <= row
  {
    assert |values| > 0 ==> EncodeFields(values)[0] == EncodeField(values[0]);
    Join(EncodeFields(values), ",")
  }

  lemma EncodeRowCons(values: seq<string>)
    requires |values| > 0
    ensures |values| == 1 ==> EncodeRow(values) == EncodeField(values[0])
    ensures |values| > 1 ==> EncodeRow(values) == EncodeField(values[0]) + "," + EncodeRow(values[1..])
  {
    assert EncodeFields(values)[1..] == EncodeFields(values[1..]);
    if |values| == 1 {
      assert values[1..] == [];
    }
  }

  /** `csv.Writer.Write` followed by `Flush`, into an empty buffer. */
  function WriteRecord(values: seq<string>): (r: string)
    ensures |r| > 0 && r[|r| - 1] == '\n'
    ensures r[..|r| - 1] == EncodeRow(values)
  {
    EncodeRow(values) + "\n"
  }

  // ---------------------------------------------------------------------------
  // Reading a row back (RFC 4180, one record, no line ending): the partner of
  // EncodeRow.

  /**
   Reads the rest of a quoted field, s starting just after its opening quote:
   the content up to the closing quote with doubled quotes undone, and the
   text after the closing quote. None when the closing quote is missing.
   */
  function ParseQuoted(s: string): (r: Option<(string, string)>)
    ensures r.Some? ==> |r.value.1| < |s|
    decreases |s|
  {
    if |s| == 0 then None
    else if s[0] == '"' then
      if |s| > 1 && s[1] == '"' then
        match ParseQuoted(s[2..])
        case None => None
        case Some((content, rest)) => Some(("\"" + content, rest))
      else Some(("", s[1..]))
    else
      match ParseQuoted(s[1..])
      case None => None
      case Some((content, rest)) => Some(([s[0]] + content, rest))
  }

  /** Reads an unquoted field, up to the next comma. */
  function ParseUnquoted(s: string): (r: (string, string))
    ensures |r.1| <= |s|
    ensures r.1 == "" || r.1[0] == ','
    ensures r.0 + r.1 == s
    decreases |s|
  {
    if |s| == 0 || s[0] == ',' then ("", s)
    else
      var tail := ParseUnquoted(s[1..]);
      ConsPieces(s, tail.0, tail.1);
      ([s[0]] + tail.0, tail.1)
  }

  lemma ConsPieces(s: string, content: string, rest: string)
    requires |s| > 0 && content + rest == s[1..]
    ensures ([s[0]] + content) + rest == s
  {
    assert s == [s[0]] + s[1..];
  }

  /** One field: quoted, or bare, in which case it holds no double quote and no line break. */
  function ParseField(s: string): (r: Option<(string, string)>)
    ensures r.Some? ==> |r.value.1| <= |s|
  {
    if |s| > 0 && s[0] == '"' then ParseQuoted(s[1..])
    else
      var (content, rest) := ParseUnquoted(s);
      if '"' in content || '\r' in content || '\n' in content then None
      else Some((content, rest))
  }

  /** The fields of a row; None when a field is malformed or is followed by anything but a comma or the end. */
  function ParseRow(s: string): (fields: Option<seq<string>>)
    ensures fields.Some? ==> |fields.value| >= 1
    decreases |s|
  {
    match ParseField(s)
    case None => None
    case Some((field, rest)) =>
      if rest == "" then Some([field])
      else if rest[0] != ',' then None
      else
        match ParseRow(rest[1..])
        case None => None
        case Some(more) => Some([field] + more)
  }

  /** The reader rejects text between a closing quote and the next comma, and a quote that is never closed. */
  lemma ParseRowStrict()
    ensures ParseRow("\"a\"xb") == None
    ensures ParseRow("\"ab") == None
  {
  }

  lemma {:induction false} ParseQuotedEscape(field: string, rest: string)
    requires rest == "" || rest[0] == ','
    ensures ParseQuoted(Escape(field) + "\"" + rest) == Some((field, rest))
    decreases |field|
  {
    var s := Escape(field) + "\"" + rest;
    if field == "" {
      assert s == "\"" + rest && s[1..] == rest;
    } else {
      ParseQuotedEscape(field[1..], rest);
      var s' := Escape(field[1..]) + "\"" + rest;
      if field[0] == '"' {
        assert s == "\"\"" + s' && s[2..] == s';
        assert field == "\"" + field[1..];
      } else {
        assert s == [field[0]] + s' && s[1..] == s';
        assert field == [field[0]] + field[1..];
      }
    }
  }

  lemma {:induction false} ParseUnquotedPlain(field: string, rest: string)
    requires ',' !in field
    requires rest == "" || rest[0] == ','
    ensures ParseUnquoted(field + rest) == (field, rest)
    decreases |field|
  {
    var s := field + rest;
    if field == "" {
      assert s == rest;
    } else {
      assert s[0] == field[0] && s[1..] == field[1..] + rest;
      ParseUnquotedPlain(field[1..], rest);
      assert field == [field[0]] + field[1..];
    }
  }

  /** One field, followed by a separator or the end, reads back as itself. */
  lemma ParseFieldEncode(field: string, rest: string)
    requires rest == "" || rest[0] == ','
    ensures ParseField(EncodeField(field) + rest) == Some((field, rest))
  {
    if NeedsQuotes(field) {
      ParseQuotedField(field, rest);
    } else {
      ParseBareField(field, rest);
    }
  }

  lemma ParseQuotedField(field: string, rest: string)
    requires NeedsQuotes(field)
    requires rest == "" || rest[0] == ','
    ensures ParseField(EncodeField(field) + rest) == Some((field, rest))
  {
    var inner := Escape(field) + "\"" + rest;
    QuotedText(field, rest);
    ParseFieldQuoted(inner);
    ParseQuotedEscape(field, rest);
  }

  lemma QuotedText(field: string, rest: string)
    requires NeedsQuotes(field)
    ensures EncodeField(field) + rest == "\"" + (Escape(field) + "\"" + rest)
  {
  }

  lemma ParseFieldQuoted(inner: string)
    ensures ParseField("\"" + inner) == ParseQuoted(inner)
  {
    assert ("\"" + inner)[1..] == inner;
  }

  lemma ParseBareField(field: string, rest: string)
    requires !NeedsQuotes(field)
    requires rest == "" || rest[0] == ','
    ensures ParseField(EncodeField(field) + rest) == Some((field, rest))
  {
    var s := field + rest;
    assert ',' !in field && '"' !in field && '\r' !in field && '\n' !in field;
    ParseUnquotedPlain(field, rest);
    if field != "" {
      assert s[0] == field[0];
    } else {
      assert s == rest;
    }
  }

  /** Reading an encoded row gives back its values: one field per value. */
  lemma {:induction false} ParseRowEncode(values: seq<string>)
    requires |values| > 0
    ensures ParseRow(EncodeRow(values)) == Some(values)
    decreases |values|
  {
    var first := EncodeField(values[0]);
    EncodeRowCons(values);
    if |values| == 1 {
      assert EncodeRow(values) == first + "";
      ParseFieldEncode(values[0], "");
      assert values == [values[0]];
    } else {
      var tail := EncodeRow(values[1..]);
      var rest := "," + tail;
      assert EncodeRow(values) == first + rest;
      ParseFieldEncode(values[0], rest);
      assert rest[1..] == tail;
      ParseRowEncode(values[1..]);
      assert ParseRow(first + rest) == Some([values[0]] + values[1..]);
      assert values == [values[0]] + values[1..];
    }
  }

  // ---------------------------------------------------------------------------
  // White space at the edges of a row.

  /** The last value keeps its trailing white space through TrimSpace unless it is written bare and ends in white space. */
  ghost predicate KeepsTrailingSpace(value: string)
  {
    value == "" || NeedsQuotes(value) || !IsSpace(value[|value| - 1])
  }

  lemma EncodeFieldEdges(field: string)
    ensures EncodeField(field) == "" <==> field == ""
    ensures EncodeField(field) != "" ==> !IsSpace(EncodeField(field)[0])
    ensures EncodeField(field) != "" && KeepsTrailingSpace(field) ==> !IsSpace(EncodeField(field)[|EncodeField(field)| - 1])
  {
  }

  /** An encoded row never starts with white space, and ends with white space only through a bare last value. */
  lemma {:induction false} EncodeRowEdges(values: seq<string>)
    requires |values| > 0
    ensures var row := EncodeRow(values); row == "" || !IsSpace(row[0])
    ensures var row := EncodeRow(values);
      KeepsTrailingSpace(values[|values| - 1]) ==> row == "" || !IsSpace(row[|row| - 1])
    decreases |values|
  {
    EncodeFieldEdges(values[0]);
    EncodeRowCons(values);
    if |values| > 1 {
      assert values[1..][|values[1..]| - 1] == values[|values| - 1];
      EncodeRowEdges(values[1..]);
    }
  }

  // ---------------------------------------------------------------------------
  // csvSerializer.serialize

  /** The record's values in increasing order of their keys. */
  ghost function SortedValues(m: Record): seq<string>
  {
    ValuesAt(SortedKeys(m.Keys), m)
  }

  /** The values of the given keys, in the order of the keys. */
  function ValuesAt(keys: seq<string>, m: Record): seq<string>
    requires forall k :: k in keys ==> k in m
  {
    seq(|keys|, i requires 0 <= i < |keys| => m[keys[i]])
  }

  ghost function CsvText(m: Record): string
  {
    TrimSpace(WriteRecord(SortedValues(m)))
  }

  /** `csvSerializer.serialize`. */
  method CsvSerialize(soj: Record) returns (r: string)
    ensures r == CsvText(soj)
  {
    var keys := SortedKeyArray(soj);
    ghost var sorted := keys[..];
    assert forall p :: 0 <= p < keys.Length ==> keys[p] in soj by {
      assert forall p :: 0 <= p < keys.Length ==> sorted[p] in sorted;
    }
    var values := LookUpAll(keys, soj);
    r := TrimSpace(WriteRecord(values[..]));
  }

  /** The value loop of `csvSerializer.serialize`: the value of every key, in the order of the keys. */
  method LookUpAll(keys: array<string>, soj: Record) returns (values: array<string>)
    requires forall p :: 0 <= p < keys.Length ==> keys[p] in soj
    ensures fresh(values)
    ensures values[..] == ValuesAt(keys[..], soj)
  {
    values := new string[keys.Length];
    var valueIdx := 0;
    while valueIdx < keys.Length
      modifies values
      invariant 0 <= valueIdx <= keys.Length
      invariant forall p :: 0 <= p < valueIdx ==> values[p] == soj[keys[p]]
    {
      values[valueIdx] := soj[keys[valueIdx]];
      valueIdx := valueIdx + 1;
    }
  }

  // ---------------------------------------------------------------------------
  // Properties of the CSV text.

  /** The empty record serializes to the empty string. */
  lemma CsvEmpty()
    ensures CsvText(map[]) == ""
  {
    var keys := SortedKeys({});
    assert SortedValues(map[]) == [];
    assert WriteRecord([]) == "\n";
    assert TrimSpace("\n") == "" by {
      TrimSpaceLine("");
    }
  }

  /**
   Reading the CSV text of a non-empty record back gives its values in key
   order, one field per key (so the row holds exactly |m| - 1 separating
   commas), provided the last value is not written bare with trailing white
   space.
   */
  lemma CsvRoundTrip(m: Record)
    requires |m| > 0
    requires KeepsTrailingSpace(SortedValues(m)[|m| - 1])
    ensures ParseRow(CsvText(m)) == Some(SortedValues(m))
  {
    var values := SortedValues(m);
    EncodeRowEdges(values);
    TrimSpaceLine(EncodeRow(values));
    ParseRowEncode(values);
  }

  /** The values of a record with one key. */
  lemma SortedValuesSingle(key: string, value: string)
    ensures SortedValues(map[key := value]) == [value]
  {
    var m := map[key := value];
    assert m.Keys == {key};
    SortedKeysSingle(key);
  }

  /** A record with one key is written as its value, verbatim when the value needs no quotes and does not end in white space. */
  lemma CsvOneField(key: string, value: string)
    requires !NeedsQuotes(value)
    requires value == "" || !IsSpace(value[|value| - 1])
    ensures CsvText(map[key := value]) == value
  {
    SortedValuesSingle(key, value);
    EncodeRowCons([value]);
    TrimSpaceLine(value);
  }

  /** TrimSpace on the row `v ` and its line ending. */
  lemma TrimTrailingSpace()
    ensures TrimSpace("v \n") == "v"
  {
    var line := "v \n";
    assert !IsSpace('v') && IsSpace(' ') && IsSpace('\n');
    assert TrimLeft(line) == line;
    assert line[..2] == "v ";
    assert TrimRight(line) == TrimRight("v ");
    assert "v "[..1] == "v";
    assert TrimRight("v ") == TrimRight("v");
  }

  /** The trailing white space of a bare last value is lost: the record {"k": "v "} comes out as `v`. */
  lemma CsvTrailingSpaceLost()
    ensures CsvText(map["k" := "v "]) == "v"
    ensures ParseRow(CsvText(map["k" := "v "])) != Some(SortedValues(map["k" := "v "]))
  {
    SortedValuesSingle("k", "v ");
    TrailingSpaceRow();
    TrimTrailingSpace();
    ParseBare();
    assert |["v "][0]| == 2;
  }

  lemma TrailingSpaceRow()
    ensures WriteRecord(["v "]) == "v \n"
  {
    assert !NeedsQuotes("v ");
    EncodeRowCons(["v "]);
  }

  lemma ParseBare()
    ensures ParseRow("v") == Some(["v"])
  {
    ParseUnquotedPlain("v", "");
  }
}
