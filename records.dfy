/** The first two phases of `parseCSV` in js/main.js: the header row becomes the
    `structure`, and every later row that is not an empty line becomes a record keyed by
    header name. */
module Records {
  import opened CsvTokenizer
  import opened FieldTypes

  /** One entry of `structure`: `{id, type}`. The id is the header cell as the tokenizer
      produced it, so it may be `undefined`. */
  datatype Field = Field(id: Cell, fieldType: FieldType)

  /** A record: a plain object from property names to cell strings. */
  type Record = map<string, string>

  /** The property name a header cell stands for when used as `record[headers[j]]`: a
      string names itself, `undefined` is converted to the name "undefined". */
  function Key(c: Cell): (k: string)
    ensures k == "undefined" <==> c == Undefined || c == Text("undefined")
    ensures c.Text? ==> k == c.value
  {
    match c
    case Undefined => "undefined"
    case Text(v) => v
  }

  /** `aux[j] || ''`: a missing cell, an `undefined` cell and the empty string all give
      the empty string. */
  function CellValue(row: seq<Cell>, j: nat): (v: string)
    ensures v == "" <==> j >= |row| || row[j] == Undefined || row[j] == Text("")
    ensures v != "" ==> row[j] == Text(v)
  {
    if j < |row| && row[j].Text? then row[j].value else ""
  }

  /** `(aux.length == 1) && (aux[0] == '')`. The loose comparison does not equate
      `undefined` with `''`, so a row holding one `undefined` is not an empty line. */
  predicate IsEmptyLine(row: seq<Cell>): (b: bool)
    ensures b ==> |row| == 1 && CellValue(row, 0) == ""
    ensures row == [Undefined] ==> !b
  {
    |row| == 1 && row[0] == Text("")
  }

  // ---------------------------------------------------------------------------
  // Structure

  /** The structure the header loop builds: one string-typed entry per header cell. */
  function Structure(headers: seq<Cell>): (structure: seq<Field>)
    ensures |structure| == |headers|
  {
    if headers == [] then []
    else Structure(headers[..|headers| - 1]) + [Field(headers[|headers| - 1], StringType)]
  }

  /** Structure: one entry per header cell, in header order, each typed `string`. */
  lemma {:induction false} StructureEntries(headers: seq<Cell>)
    ensures |Structure(headers)| == |headers|
    ensures forall i :: 0 <= i < |headers| ==> Structure(headers)[i] == Field(headers[i], StringType)
  {
    if headers != [] {
      var front := headers[..|headers| - 1];
      StructureEntries(front);
      assert forall i :: 0 <= i < |front| ==> front[i] == headers[i];
    }
  }

  /** The header loop (js/main.js:122-124). */
  method BuildStructure(headers: seq<Cell>) returns (structure: seq<Field>)
    ensures structure == Structure(headers)
  {
    structure := [];
    for i := 0 to |headers|
      invariant structure == Structure(headers[..i])
    {
      assert headers[..i + 1][..i] == headers[..i];
      structure := structure + [Field(headers[i], StringType)];
    }
    assert headers[..|headers|] == headers;
  }

  // ---------------------------------------------------------------------------
  // One record

  /** The record after the first `n` turns of the loop over the headers: each turn sets
      the property of header `j` to `aux[j] || ''`, overwriting an earlier header of the
      same name. */
  function RecordPrefix(headers: seq<Cell>, row: seq<Cell>, n: nat): Record
    requires n <= |headers|
  {
    if n == 0 then map[]
    else RecordPrefix(headers, row, n - 1)[Key(headers[n - 1]) := CellValue(row, n - 1)]
  }

  /** The record built from a data row. */
  function RecordOf(headers: seq<Cell>, row: seq<Cell>): (record: Record)
    ensures record.Keys == HeaderKeys(headers)
  {
    RecordPrefixKeys(headers, row, |headers|);
    assert headers[..|headers|] == headers;
    RecordPrefix(headers, row, |headers|)
  }

  /** The property names of the header row. */
  function HeaderKeys(headers: seq<Cell>): set<string> {
    set j | 0 <= j < |headers| :: Key(headers[j])
  }

  /** The first `n` headers' names are exactly the properties set so far. */
  lemma {:induction false} RecordPrefixKeys(headers: seq<Cell>, row: seq<Cell>, n: nat)
    requires n <= |headers|
    ensures RecordPrefix(headers, row, n).Keys == HeaderKeys(headers[..n])
  {
    if n > 0 {
      RecordPrefixKeys(headers, row, n - 1);
      var front := headers[..n - 1];
      assert headers[..n] == front + [headers[n - 1]];
      assert HeaderKeys(headers[..n]) == HeaderKeys(front) + {Key(headers[n - 1])} by {
        forall k | k in HeaderKeys(headers[..n])
          ensures k in HeaderKeys(front) + {Key(headers[n - 1])}
        {
          var j :| 0 <= j < n && k == Key(headers[..n][j]);
          if j < n - 1 {
            assert k == Key(front[j]);
          }
        }
        forall k | k in HeaderKeys(front)
          ensures k in HeaderKeys(headers[..n])
        {
          var j :| 0 <= j < n - 1 && k == Key(front[j]);
          assert k == Key(headers[..n][j]);
        }
        assert Key(headers[n - 1]) == Key(headers[..n][n - 1]);
      }
    }
  }

  /** The property of header `j`, when no later header has the same name, holds cell `j`
      of the row, or `''` when that cell is missing or `undefined`. */
  lemma {:induction false} RecordPrefixValue(headers: seq<Cell>, row: seq<Cell>, n: nat, j: nat)
    requires j < n <= |headers|
    requires forall k :: j < k < n ==> Key(headers[k]) != Key(headers[j])
    ensures Key(headers[j]) in RecordPrefix(headers, row, n)
    ensures RecordPrefix(headers, row, n)[Key(headers[j])] == CellValue(row, j)
  {
    if j < n - 1 {
      RecordPrefixValue(headers, row, n - 1, j);
    }
  }

  /** Record shape: the last header of a given name decides its value, which is that
      column's cell, or `''` for a missing or `undefined` cell. */
  lemma {:induction false} RecordValue(headers: seq<Cell>, row: seq<Cell>, j: nat)
    requires j < |headers|
    requires forall k :: j < k < |headers| ==> Key(headers[k]) != Key(headers[j])
    ensures Key(headers[j]) in RecordOf(headers, row)
    ensures RecordOf(headers, row)[Key(headers[j])]
            == if j < |row| && row[j].Text? then row[j].value else ""
  {
    RecordPrefixValue(headers, row, |headers|, j);
  }

  /** Cells beyond the header width play no part in the record. */
  lemma {:induction false} ExtraCellsIgnored(headers: seq<Cell>, row: seq<Cell>, n: nat)
    requires n <= |headers| < |row|
    ensures RecordPrefix(headers, row, n) == RecordPrefix(headers, row[..|headers|], n)
  {
    if n > 0 {
      ExtraCellsIgnored(headers, row, n - 1);
      assert CellValue(row, n - 1) == CellValue(row[..|headers|], n - 1);
    }
  }

  /** The loop over the headers that builds one record (js/main.js:133-136). */
  method BuildRecord(headers: seq<Cell>, aux: seq<Cell>) returns (record: Record)
    ensures record == RecordOf(headers, aux)
  {
    record := map[];
    for j := 0 to |headers|
      invariant record == RecordPrefix(headers, aux, j)
    {
      var value := if j < |aux| && aux[j].Text? then aux[j].value else "";
      record := record[Key(headers[j]) := value];
    }
  }

  // ---------------------------------------------------------------------------
  // All records

  /** The records of the data rows, in order, skipping empty lines. */
  function RecordsOf(headers: seq<Cell>, rows: seq<seq<Cell>>): (records: seq<Record>)
    ensures |records| == |rows| - EmptyLineCount(rows)
  {
    if rows == [] then []
    else
      var last := rows[|rows| - 1];
      RecordsOf(headers, rows[..|rows| - 1]) + (if IsEmptyLine(last) then [] else [RecordOf(headers, last)])
  }

  /** The number of rows that are an empty line. */
  function EmptyLineCount(rows: seq<seq<Cell>>): nat {
    if rows == [] then 0
    else EmptyLineCount(rows[..|rows| - 1]) + (if IsEmptyLine(rows[|rows| - 1]) then 1 else 0)
  }

  /** Without empty lines, record `i` is built from data row `i`. */
  lemma {:induction false} RecordsInOrder(headers: seq<Cell>, rows: seq<seq<Cell>>)
    requires forall i :: 0 <= i < |rows| ==> !IsEmptyLine(rows[i])
    ensures |RecordsOf(headers, rows)| == |rows|
    ensures forall i :: 0 <= i < |rows| ==> RecordsOf(headers, rows)[i] == RecordOf(headers, rows[i])
  {
    if rows != [] {
      var n := |rows|;
      var front := rows[..n - 1];
      RecordsInOrder(headers, front);
      var records := RecordsOf(headers, rows);
      var earlier := RecordsOf(headers, front);
      assert records == earlier + [RecordOf(headers, rows[n - 1])] by {
        assert !IsEmptyLine(rows[n - 1]);
      }
      forall i | 0 <= i < n
        ensures records[i] == RecordOf(headers, rows[i])
      {
        if i < n - 1 {
          assert records[i] == earlier[i] && rows[i] == front[i];
        }
      }
    }
  }

  /** The records of two runs of rows, one after the other, are the records of the first
      run followed by those of the second. */
  lemma {:induction false} RecordsAppend(headers: seq<Cell>, a: seq<seq<Cell>>, b: seq<seq<Cell>>)
    ensures RecordsOf(headers, a + b) == RecordsOf(headers, a) + RecordsOf(headers, b)
    decreases |b|
  {
    if b == [] {
      assert a + b == a;
    } else {
      var init, last := b[..|b| - 1], b[|b| - 1];
      assert (a + b)[..|a + b| - 1] == a + init;
      assert (a + b)[|a + b| - 1] == last;
      RecordsAppend(headers, a, init);
    }
  }

  /** An empty line anywhere among the data rows is skipped: it yields no record and does
      not disturb the records around it. */
  lemma {:induction false} SkipEmptyLine(headers: seq<Cell>, a: seq<seq<Cell>>, e: seq<Cell>, b: seq<seq<Cell>>)
    requires IsEmptyLine(e)
    ensures RecordsOf(headers, a + [e] + b) == RecordsOf(headers, a + b)
  {
    RecordsAppend(headers, a + [e], b);
    RecordsAppend(headers, a, [e]);
    RecordsAppend(headers, a, b);
    assert [e][..0] == [];
  }

  /** Every record has exactly the header names as properties. */
  lemma {:induction false} RecordsKeys(headers: seq<Cell>, rows: seq<seq<Cell>>)
    ensures forall i :: 0 <= i < |RecordsOf(headers, rows)| ==>
              RecordsOf(headers, rows)[i].Keys == HeaderKeys(headers)
  {
    if rows != [] {
      RecordsKeys(headers, rows[..|rows| - 1]);
    }
  }

  /** The loop over the data rows (js/main.js:127-141): every row after the header that is
      not an empty line is turned into a record and pushed onto `data`. */
  method BuildRecords(headers: seq<Cell>, csvAsArray: seq<seq<Cell>>) returns (data: seq<Record>)
    requires |csvAsArray| > 0
    ensures data == RecordsOf(headers, csvAsArray[1..])
  {
    data := [];
    for i := 1 to |csvAsArray|
      invariant data == RecordsOf(headers, csvAsArray[1..i])
    {
      assert csvAsArray[1..i + 1][..i - 1] == csvAsArray[1..i];
      var aux := csvAsArray[i];
      var emptyLine := |aux| == 1 && aux[0] == Text("");
      if !emptyLine {
        var record := BuildRecord(headers, aux);
        data := data + [record];
      }
    }
    assert csvAsArray[1..|csvAsArray|] == csvAsArray[1..];
  }
}
