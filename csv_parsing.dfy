/** `parseCSV` of js/main.js: the text is split into rows by `CSVToArray` with the default
    delimiter, the first row names the fields, the other rows become records, the columns
    are typed and the `date` columns normalised. The resource `{structure, data}` is the
    result here; publishing it and rendering the summary are not part of this model. */
module CsvParsing {
  import opened Wrappers
  import opened CsvTokenizer
  import opened FieldTypes
  import opened Records
  import opened ColumnTyping
  import opened DateNormalization

  /** The resource `parseCSV` publishes. */
  datatype Resource = Resource(structure: seq<Field>, data: seq<Record>)

  /** `csvAsArray[0]`: the header row. */
  function Headers(csvText: string): seq<Cell>
    requires Terminates(csvText, DEFAULT_DELIMITER)
  {
    Rows(csvText, DEFAULT_DELIMITER)[0]
  }

  /** The rows after the header row. */
  function DataRows(csvText: string): seq<seq<Cell>>
    requires Terminates(csvText, DEFAULT_DELIMITER)
  {
    Rows(csvText, DEFAULT_DELIMITER)[1..]
  }

  /** The records before type inference and date normalisation. */
  function RawRecords(csvText: string): seq<Record>
    requires Terminates(csvText, DEFAULT_DELIMITER)
  {
    RecordsOf(Headers(csvText), DataRows(csvText))
  }

  /** The outcome of `parseCSV(csvText)`: the resource, or the exception that ends it. */
  function Parse(h: Host, csvText: string): (r: Result<Resource, ParseError>)
    requires Terminates(csvText, DEFAULT_DELIMITER)
    ensures r.Success? ==> |r.value.structure| == |Headers(csvText)|
                           && |r.value.data| == |RawRecords(csvText)|
  {
    var headers := Headers(csvText);
    var structure := Structure(headers);
    var data := RawRecords(csvText);
    KeyedRecords(headers, DataRows(csvText));
    StructureEntries(headers);
    match Typed(h, structure, data)
    case Failure(e) => Failure(e)
    case Success(typed) =>
      KeyedTyped(h, structure, data);
      match Normalized(h, typed, data)
      case Failure(e) => Failure(e)
      case Success(normalized) =>
        DatesKeepRecords(h, typed, data);
        Success(Resource(typed, normalized))
  }

  /** `parseCSV` (js/main.js:115-191), up to building the resource. */
  method ParseCsv(h: Host, csvText: string) returns (result: Result<Resource, ParseError>)
    requires Terminates(csvText, DEFAULT_DELIMITER)
    ensures result == Parse(h, csvText)
  {
    var csvAsArray := CsvToArray(csvText, None);
    var headers := csvAsArray[0];
    var structure := BuildStructure(headers);
    var data := BuildRecords(headers, csvAsArray);
    KeyedRecords(headers, csvAsArray[1..]);
    var typed := InferTypes(h, structure, data);
    if typed.Failure? {
      return Failure(typed.error);
    }
    KeyedTyped(h, structure, data);
    var normalized := NormalizeDates(h, typed.value, data);
    if normalized.Failure? {
      return Failure(normalized.error);
    }
    return Success(Resource(typed.value, normalized.value));
  }

  // ---------------------------------------------------------------------------
  // Glue between the phases

  /** Every record holds the property of every header. */
  lemma {:induction false} KeyedRecords(headers: seq<Cell>, rows: seq<seq<Cell>>)
    ensures Keyed(RecordsOf(headers, rows), Structure(headers))
  {
    var data := RecordsOf(headers, rows);
    var structure := Structure(headers);
    StructureEntries(headers);
    RecordsKeys(headers, rows);
    forall i | 0 <= i < |structure|
      ensures HasKey(data, Key(structure[i].id))
    {
      assert Key(structure[i].id) == Key(headers[i]);
      assert Key(headers[i]) in HeaderKeys(headers);
    }
  }

  /** Type inference keeps the ids, so the records still hold every entry's property. */
  lemma {:induction false} KeyedTyped(h: Host, structure: seq<Field>, data: seq<Record>)
    requires Keyed(data, structure)
    requires Typed(h, structure, data).Success?
    ensures Keyed(data, Typed(h, structure, data).value)
  {
    var typed := Typed(h, structure, data).value;
    forall i | 0 <= i < |typed|
      ensures HasKey(data, Key(typed[i].id))
    {
      assert typed[i].id == structure[i].id;
      assert HasKey(data, Key(structure[i].id));
    }
  }

  /** A row list has no records exactly when every row is an empty line. */
  lemma {:induction false} NoRecordsIff(headers: seq<Cell>, rows: seq<seq<Cell>>)
    ensures RecordsOf(headers, rows) == [] <==> forall i :: 0 <= i < |rows| ==> IsEmptyLine(rows[i])
  {
    if rows != [] {
      var front := rows[..|rows| - 1];
      NoRecordsIff(headers, front);
      assert forall i :: 0 <= i < |front| ==> front[i] == rows[i];
    }
  }

  // ---------------------------------------------------------------------------
  // Properties of the whole parse

  /** The only failure before date normalisation: a header row with at least one field
      and no record, because every later row is an empty line (or there is none). Any
      other failure is an unparseable date. */
  lemma {:induction false} ParseErrors(h: Host, csvText: string)
    requires Terminates(csvText, DEFAULT_DELIMITER)
    ensures Parse(h, csvText) == Failure(MissingFirstRecord) <==>
              |Headers(csvText)| > 0
              && forall i :: 0 <= i < |DataRows(csvText)| ==> IsEmptyLine(DataRows(csvText)[i])
    ensures Parse(h, csvText).Failure? && Parse(h, csvText).error != MissingFirstRecord ==>
              Parse(h, csvText).error.InvalidDate?
  {
    var headers := Headers(csvText);
    var structure := Structure(headers);
    var data := RawRecords(csvText);
    KeyedRecords(headers, DataRows(csvText));
    NoRecordsIff(headers, DataRows(csvText));
    var typed := Typed(h, structure, data);
    if typed.Success? {
      KeyedTyped(h, structure, data);
      if Normalized(h, typed.value, data).Failure? {
        DatesErrorIsInvalidDate(h, typed.value, data, 0);
      }
    }
  }

  /** A successful parse has one structure entry per header cell, in order, and one
      record per data row that is not an empty line, each with exactly the header names
      as properties. */
  lemma {:induction false} ParseShape(h: Host, csvText: string)
    requires Terminates(csvText, DEFAULT_DELIMITER)
    requires Parse(h, csvText).Success?
    ensures var r := Parse(h, csvText).value;
            var headers := Headers(csvText);
            |r.structure| == |headers|
            && (forall i :: 0 <= i < |headers| ==> r.structure[i].id == headers[i])
            && |r.data| == |DataRows(csvText)| - EmptyLineCount(DataRows(csvText))
            && forall k :: 0 <= k < |r.data| ==> r.data[k].Keys == HeaderKeys(headers)
  {
    var headers := Headers(csvText);
    var rows := DataRows(csvText);
    var structure := Structure(headers);
    var data := RawRecords(csvText);
    var r := Parse(h, csvText).value;
    KeyedRecords(headers, rows);
    StructureEntries(headers);
    RecordsKeys(headers, rows);
    var typed := Typed(h, structure, data).value;
    KeyedTyped(h, structure, data);
    DatesKeepRecords(h, typed, data);
    assert r.structure == typed && r.data == Normalized(h, typed, data).value;
    assert forall i :: 0 <= i < |headers| ==> r.structure[i].id == structure[i].id;
  }

  /** Date normalisation keeps the number of records and their properties. */
  lemma {:induction false} DatesKeepRecords(h: Host, structure: seq<Field>, data: seq<Record>)
    requires Keyed(data, structure)
    requires Normalized(h, structure, data).Success?
    ensures var out := Normalized(h, structure, data).value;
            |out| == |data| && forall k :: 0 <= k < |data| ==> out[k].Keys == data[k].Keys
  {
    DatesKeepFrom(h, structure, data, 0);
  }

  lemma {:induction false} DatesKeepFrom(h: Host, structure: seq<Field>, data: seq<Record>, i: nat)
    requires i <= |structure| && Keyed(data, structure)
    requires DatesFrom(h, structure, data, i).Success?
    ensures var out := DatesFrom(h, structure, data, i).value;
            |out| == |data| && forall k :: 0 <= k < |data| ==> out[k].Keys == data[k].Keys
    decreases |structure| - i
  {
    if i < |structure| {
      if structure[i].fieldType == DateType {
        var key := Key(structure[i].id);
        NormalizeKeys(h, data, key, 0);
        var next := NormalizeFrom(h, data, key, 0).value;
        KeyedAfter(data, next, structure);
        DatesKeepFrom(h, structure, next, i + 1);
      } else {
        DatesKeepFrom(h, structure, data, i + 1);
      }
    }
  }

  /** Every column of a successful parse has the type its raw values call for. */
  lemma {:induction false} ParseTypes(h: Host, csvText: string)
    requires Terminates(csvText, DEFAULT_DELIMITER)
    requires Parse(h, csvText).Success?
    ensures var r := Parse(h, csvText).value;
            |r.structure| == |Headers(csvText)|
            && (|Headers(csvText)| > 0 ==> |RawRecords(csvText)| > 0)
            && forall i :: 0 <= i < |Headers(csvText)| ==>
                 HasKey(RawRecords(csvText), Key(Headers(csvText)[i]))
                 && r.structure[i].fieldType == ColumnType(h, RawRecords(csvText), Key(Headers(csvText)[i]))
  {
    var headers := Headers(csvText);
    var structure := Structure(headers);
    var data := RawRecords(csvText);
    KeyedRecords(headers, DataRows(csvText));
    StructureEntries(headers);
    if |headers| > 0 {
      TypedStructure(h, structure, data);
      forall i | 0 <= i < |headers|
        ensures HasKey(data, Key(headers[i]))
      {
        assert HasKey(data, Key(structure[i].id));
      }
    }
  }

  /** No property named by two header cells is typed `date`. (Such a column would be
      normalised twice, the second time from its ISO form.) */
  predicate NoRepeatedDateColumn(h: Host, headers: seq<Cell>, data: seq<Record>) {
    forall a, b :: 0 <= a < b < |headers| && Key(headers[a]) == Key(headers[b])
                   && |data| > 0 && HasKey(data, Key(headers[a])) ==>
      ColumnType(h, data, Key(headers[a])) != DateType
  }

  /** Unless a repeated header name is typed `date`, inferring a `date` type guarantees
      the dates parse: the parse fails only for a header row without records, and
      otherwise every non-empty value of a `date` column becomes its ISO date and every
      other value is the row's cell. */
  lemma {:induction false} ParseDates(h: Host, csvText: string)
    requires Terminates(csvText, DEFAULT_DELIMITER)
    requires NoRepeatedDateColumn(h, Headers(csvText), RawRecords(csvText))
    ensures Parse(h, csvText).Success? <==> |Headers(csvText)| == 0 || |RawRecords(csvText)| > 0
    ensures Parse(h, csvText).Success? ==>
              var r := Parse(h, csvText).value;
              DatesApplied(h, r.structure, 0, RawRecords(csvText), r.data)
  {
    var headers := Headers(csvText);
    var structure := Structure(headers);
    var data := RawRecords(csvText);
    KeyedRecords(headers, DataRows(csvText));
    StructureEntries(headers);
    var typed := Typed(h, structure, data);
    if typed.Success? {
      KeyedTyped(h, structure, data);
      var fields := typed.value;
      assert |fields| == |headers| && forall i :: 0 <= i < |headers| ==> fields[i].id == headers[i];
      if |headers| > 0 {
        TypedStructure(h, structure, data);
        forall a, b | 0 <= a < b < |fields| && fields[a].fieldType == DateType
                      && fields[b].fieldType == DateType
          ensures Key(fields[a].id) != Key(fields[b].id)
        {
          assert HasKey(data, Key(structure[a].id));
          assert fields[a].fieldType == ColumnType(h, data, Key(headers[a]));
        }
        forall a | 0 <= a < |fields| && fields[a].fieldType == DateType
          ensures ColumnParses(h, data, Key(fields[a].id), 0)
        {
          DateColumnParses(h, data, Key(fields[a].id));
        }
      }
      DatesEffect(h, fields, data, 0);
    }
  }
}
