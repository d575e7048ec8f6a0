/** The last phase of `parseCSV` in js/main.js: in every column typed `date`, each
    non-empty value is replaced by the ISO form of the date the library parses from it.
    A value the library cannot parse makes `toISOString` throw, which ends the parse. */
module DateNormalization {
  import opened Wrappers
  import opened FieldTypes
  import opened Records
  import opened ColumnTyping

  /** `Date.parse(value).toISOString()`, or the error it throws on `null`. */
  function IsoDate(h: Host, value: string): (r: Result<string, ParseError>)
    ensures r.Failure? <==> h.dateParse(value).None?
    ensures r.Failure? ==> r.error == InvalidDate(value)
  {
    match h.dateParse(value)
    case None => Failure(InvalidDate(value))
    case Some(instant) => Success(h.toIsoString(instant))
  }

  /** What the column loop does to one record: an empty value stays, any other value is
      replaced by its ISO date. */
  function NormalizeRecord(h: Host, record: Record, key: string): (r: Result<Record, ParseError>)
    requires key in record
    ensures r.Failure? <==> record[key] != "" && h.dateParse(record[key]).None?
    ensures r.Failure? ==> r.error == InvalidDate(record[key])
    ensures r.Success? ==> r.value == record[key := NormalValue(h, record[key])]
  {
    if record[key] == "" then
      assert record[key := record[key]] == record;
      Success(record)
    else
      match IsoDate(h, record[key])
      case Failure(e) => Failure(e)
      case Success(iso) => Success(record[key := iso])
  }

  /** The loop over the records for column `key`, from record `j` on. */
  function NormalizeFrom(h: Host, data: seq<Record>, key: string, j: nat): (r: Result<seq<Record>, ParseError>)
    requires j <= |data| && HasKey(data, key)
    ensures r.Success? ==> |r.value| == |data| && HasKey(r.value, key)
    decreases |data| - j
  {
    if j == |data| then Success(data)
    else
      match NormalizeRecord(h, data[j], key)
      case Failure(e) => Failure(e)
      case Success(record) => NormalizeFrom(h, data[j := record], key, j + 1)
  }

  /** The loop over the structure, from entry `i` on: each `date` entry normalises its
      column in the records as the earlier entries left them. */
  function DatesFrom(h: Host, structure: seq<Field>, data: seq<Record>, i: nat): (r: Result<seq<Record>, ParseError>)
    requires i <= |structure| && Keyed(data, structure)
    decreases |structure| - i
  {
    if i == |structure| then Success(data)
    else if structure[i].fieldType == DateType then
      var key := Key(structure[i].id);
      match NormalizeFrom(h, data, key, 0)
      case Failure(e) => Failure(e)
      case Success(next) =>
        NormalizeKeys(h, data, key, 0);
        KeyedAfter(data, next, structure);
        DatesFrom(h, structure, next, i + 1)
    else DatesFrom(h, structure, data, i + 1)
  }

  /** The records after date normalisation, or the first `InvalidDate`. */
  function Normalized(h: Host, structure: seq<Field>, data: seq<Record>): Result<seq<Record>, ParseError>
    requires Keyed(data, structure)
  {
    DatesFrom(h, structure, data, 0)
  }

  // ---------------------------------------------------------------------------
  // The loops

  /** The loop over the records of one `date` column (js/main.js:178-185), overwriting
      `data[j][field.id]` in place. */
  method NormalizeColumn(h: Host, data0: seq<Record>, key: string) returns (result: Result<seq<Record>, ParseError>)
    requires HasKey(data0, key)
    ensures result == NormalizeFrom(h, data0, key, 0)
  {
    var data := data0;
    for j := 0 to |data|
      invariant |data| == |data0| && HasKey(data, key)
      invariant NormalizeFrom(h, data, key, j) == NormalizeFrom(h, data0, key, 0)
    {
      if data[j][key] != "" {
        var parsed := h.dateParse(data[j][key]);
        if parsed.None? {
          return Failure(InvalidDate(data[j][key]));
        }
        assert NormalizeRecord(h, data[j], key) == Success(data[j][key := h.toIsoString(parsed.value)]);
        data := data[j := data[j][key := h.toIsoString(parsed.value)]];
      } else {
        assert data[j := data[j]] == data;
      }
    }
    return Success(data);
  }

  /** The loop over the structure (js/main.js:174-187). */
  method NormalizeDates(h: Host, structure: seq<Field>, data0: seq<Record>) returns (result: Result<seq<Record>, ParseError>)
    requires Keyed(data0, structure)
    ensures result == Normalized(h, structure, data0)
  {
    var data := data0;
    for i := 0 to |structure|
      invariant Keyed(data, structure)
      invariant DatesFrom(h, structure, data, i) == DatesFrom(h, structure, data0, 0)
    {
      var field := structure[i];
      if field.fieldType == DateType {
        var key := Key(field.id);
        var column := NormalizeColumn(h, data, key);
        if column.Failure? {
          return Failure(column.error);
        }
        NormalizeKeys(h, data, key, 0);
        KeyedAfter(data, column.value, structure);
        data := column.value;
      }
    }
    return Success(data);
  }

  // ---------------------------------------------------------------------------
  // Properties

  /** Normalisation changes values only: every record keeps its properties. */
  lemma {:induction false} NormalizeKeys(h: Host, data: seq<Record>, key: string, j: nat)
    requires j <= |data| && HasKey(data, key)
    ensures var r := NormalizeFrom(h, data, key, j);
            r.Success? ==> forall k :: 0 <= k < |data| ==> r.value[k].Keys == data[k].Keys
    decreases |data| - j
  {
    if j < |data| {
      var rec := NormalizeRecord(h, data[j], key);
      if rec.Success? {
        NormalizeKeys(h, data[j := rec.value], key, j + 1);
      }
    }
  }

  /** Records with the same properties as before still hold every structure entry's. */
  lemma {:induction false} KeyedAfter(data: seq<Record>, next: seq<Record>, structure: seq<Field>)
    requires Keyed(data, structure)
    requires |next| == |data|
    requires forall k :: 0 <= k < |data| ==> next[k].Keys == data[k].Keys
    ensures Keyed(next, structure)
  {
    forall i | 0 <= i < |structure|
      ensures HasKey(next, Key(structure[i].id))
    {
      assert HasKey(data, Key(structure[i].id));
    }
  }

  /** The value a normalised column holds: `''` stays, anything else becomes its ISO
      date. Only meaningful for a value the library parses. */
  function NormalValue(h: Host, value: string): string {
    if value == "" then value
    else match h.dateParse(value)
      case Some(instant) => h.toIsoString(instant)
      case None => value
  }

  /** Every non-empty value of the column parses. */
  predicate ColumnParses(h: Host, data: seq<Record>, key: string, from: nat)
    requires HasKey(data, key)
  {
    forall k :: from <= k < |data| && data[k][key] != "" ==> h.dateParse(data[k][key]).Some?
  }

  /** One column: the loop succeeds exactly when every non-empty value parses, and then
      it changes that column's non-empty values to their ISO dates and nothing else. */
  lemma {:induction false} NormalizeColumnEffect(h: Host, data: seq<Record>, key: string, j: nat)
    requires j <= |data| && HasKey(data, key)
    ensures NormalizeFrom(h, data, key, j).Success? <==> ColumnParses(h, data, key, j)
    ensures var r := NormalizeFrom(h, data, key, j);
            r.Success? ==> forall k :: 0 <= k < |data| ==>
              r.value[k] == if k < j then data[k] else data[k][key := NormalValue(h, data[k][key])]
    decreases |data| - j
  {
    if j < |data| {
      var rec := NormalizeRecord(h, data[j], key);
      if rec.Success? {
        var next := data[j := rec.value];
        NormalizeColumnEffect(h, next, key, j + 1);
        assert rec.value == data[j][key := NormalValue(h, data[j][key])];
        assert ColumnParses(h, next, key, j + 1) == ColumnParses(h, data, key, j) by {
          forall k | j + 1 <= k < |data|
            ensures next[k] == data[k]
          {
          }
        }
      } else {
        assert data[j][key] != "" && h.dateParse(data[j][key]).None?;
      }
    } else {
      var r := NormalizeFrom(h, data, key, j);
      forall k | 0 <= k < |data|
        ensures r.value[k] == data[k]
      {
      }
    }
  }

  /** No two `date` entries of the structure from `i` on name the same property. */
  predicate DistinctDateKeys(structure: seq<Field>, i: nat) {
    forall a, b :: i <= a < b < |structure| && structure[a].fieldType == DateType
                   && structure[b].fieldType == DateType ==>
      Key(structure[a].id) != Key(structure[b].id)
  }

  /** Whether `key` names a `date` entry of the structure from `i` on. */
  predicate IsDateKey(structure: seq<Field>, i: nat, key: string) {
    exists a :: i <= a < |structure| && structure[a].fieldType == DateType && Key(structure[a].id) == key
  }

  /** Every non-empty value of every `date` column from entry `i` on parses. */
  predicate DateColumnsParse(h: Host, structure: seq<Field>, data: seq<Record>, i: nat)
    requires Keyed(data, structure)
  {
    forall a :: i <= a < |structure| && structure[a].fieldType == DateType ==>
      ColumnParses(h, data, Key(structure[a].id), 0)
  }

  /** `out` is `data` with the non-empty values of the `date` columns from entry `i` on
      replaced by their ISO dates: same records, same properties, other values kept. */
  predicate DatesApplied(h: Host, structure: seq<Field>, i: nat, data: seq<Record>, out: seq<Record>) {
    |out| == |data|
    && (forall k :: 0 <= k < |data| ==> out[k].Keys == data[k].Keys)
    && (forall k, p :: 0 <= k < |data| && p in data[k] ==>
          out[k][p] == if IsDateKey(structure, i, p) then NormalValue(h, data[k][p]) else data[k][p])
  }

  /** Normalising column `key` leaves every other property as it was. */
  lemma {:induction false} OtherColumnsKept(h: Host, data: seq<Record>, key: string)
    requires HasKey(data, key)
    requires NormalizeFrom(h, data, key, 0).Success?
    ensures var next := NormalizeFrom(h, data, key, 0).value;
            forall k, other :: 0 <= k < |data| && other in data[k] && other != key ==>
              other in next[k] && next[k][other] == data[k][other]
  {
    NormalizeColumnEffect(h, data, key, 0);
  }

  /** The whole phase, when no property is named by two `date` entries: it succeeds
      exactly when every non-empty value of every `date` column parses, and it then turns
      those values into ISO dates and changes nothing else. */
  lemma {:induction false} DatesEffect(h: Host, structure: seq<Field>, data: seq<Record>, i: nat)
    requires i <= |structure| && Keyed(data, structure)
    requires DistinctDateKeys(structure, i)
    ensures DatesFrom(h, structure, data, i).Success? <==> DateColumnsParse(h, structure, data, i)
    ensures DatesFrom(h, structure, data, i).Success? ==>
              DatesApplied(h, structure, i, data, DatesFrom(h, structure, data, i).value)
    decreases |structure| - i
  {
    if i == |structure| {
      NothingApplied(h, structure, i, data);
    } else if structure[i].fieldType == DateType {
      var key := Key(structure[i].id);
      assert HasKey(data, key);
      NormalizeColumnEffect(h, data, key, 0);
      NormalizeKeys(h, data, key, 0);
      var column := NormalizeFrom(h, data, key, 0);
      if column.Success? {
        var next := column.value;
        KeyedAfter(data, next, structure);
        OtherColumnsKept(h, data, key);
        LaterDateKeys(structure, i, key);
        DatesEffect(h, structure, next, i + 1);
        ColumnsParseAfter(h, structure, data, next, i, key);
        var r := DatesFrom(h, structure, data, i);
        if r.Success? {
          ComposeApplied(h, structure, i, data, next, r.value);
        }
      } else {
        assert !ColumnParses(h, data, key, 0);
      }
    } else {
      DatesEffect(h, structure, data, i + 1);
      var r := DatesFrom(h, structure, data, i);
      if r.Success? {
        SkipApplied(h, structure, i, data, r.value);
      }
    }
  }

  /** With nothing left of the structure, the records are left as they are. */
  lemma {:induction false} NothingApplied(h: Host, structure: seq<Field>, i: nat, data: seq<Record>)
    requires i == |structure|
    ensures DatesApplied(h, structure, i, data, data)
  {
    forall k, p | 0 <= k < |data| && p in data[k]
      ensures !IsDateKey(structure, i, p)
    {
    }
  }

  /** An entry that is not `date` adds nothing to be normalised. */
  lemma {:induction false} SkipApplied(h: Host, structure: seq<Field>, i: nat, data: seq<Record>, out: seq<Record>)
    requires i < |structure| && structure[i].fieldType != DateType
    requires DatesApplied(h, structure, i + 1, data, out)
    ensures DatesApplied(h, structure, i, data, out)
  {
    forall k, p | 0 <= k < |data| && p in data[k]
      ensures out[k][p] == if IsDateKey(structure, i, p) then NormalValue(h, data[k][p]) else data[k][p]
    {
      assert out[k][p] == if IsDateKey(structure, i + 1, p) then NormalValue(h, data[k][p]) else data[k][p];
      if IsDateKey(structure, i, p) {
        var a :| i <= a < |structure| && structure[a].fieldType == DateType && Key(structure[a].id) == p;
        assert a != i;
        assert IsDateKey(structure, i + 1, p);
      }
    }
  }

  /** Normalising column `key` of entry `i` and then the later `date` columns, none of
      which is `key`, normalises every `date` column from entry `i` on. */
  lemma {:induction false} ComposeApplied(h: Host, structure: seq<Field>, i: nat,
                                          data: seq<Record>, next: seq<Record>, out: seq<Record>)
    requires i < |structure| && structure[i].fieldType == DateType
    requires !IsDateKey(structure, i + 1, Key(structure[i].id))
    requires HasKey(data, Key(structure[i].id)) && |next| == |data|
    requires forall k :: 0 <= k < |data| ==>
               next[k] == data[k][Key(structure[i].id) := NormalValue(h, data[k][Key(structure[i].id)])]
    requires DatesApplied(h, structure, i + 1, next, out)
    ensures DatesApplied(h, structure, i, data, out)
  {
    var key := Key(structure[i].id);
    forall k, p | 0 <= k < |data| && p in data[k]
      ensures out[k][p] == if IsDateKey(structure, i, p) then NormalValue(h, data[k][p]) else data[k][p]
    {
      assert p in next[k];
      assert out[k][p] == if IsDateKey(structure, i + 1, p) then NormalValue(h, next[k][p]) else next[k][p];
      if p == key {
        assert IsDateKey(structure, i, p);
        assert next[k][p] == NormalValue(h, data[k][p]);
      } else {
        assert next[k][p] == data[k][p];
        if IsDateKey(structure, i, p) {
          var a :| i <= a < |structure| && structure[a].fieldType == DateType && Key(structure[a].id) == p;
          assert a != i;
          assert IsDateKey(structure, i + 1, p);
        }
      }
    }
  }

  /** With distinct `date` keys, the key of entry `i` names no later `date` entry. */
  lemma {:induction false} LaterDateKeys(structure: seq<Field>, i: nat, key: string)
    requires i < |structure| && structure[i].fieldType == DateType && key == Key(structure[i].id)
    requires DistinctDateKeys(structure, i)
    ensures DistinctDateKeys(structure, i + 1)
    ensures !IsDateKey(structure, i + 1, key)
  {
  }

  /** The later `date` columns parse after column `key` is normalised exactly when they
      did before, since normalising `key` does not touch them. */
  lemma {:induction false} ColumnsParseAfter(h: Host, structure: seq<Field>, data: seq<Record>,
                                             next: seq<Record>, i: nat, key: string)
    requires i < |structure| && structure[i].fieldType == DateType && key == Key(structure[i].id)
    requires Keyed(data, structure) && Keyed(next, structure) && |next| == |data|
    requires !IsDateKey(structure, i + 1, key)
    requires forall k, other :: 0 <= k < |data| && other in data[k] && other != key ==>
               other in next[k] && next[k][other] == data[k][other]
    ensures DateColumnsParse(h, structure, data, i) <==>
              ColumnParses(h, data, key, 0) && DateColumnsParse(h, structure, next, i + 1)
  {
    forall a | i + 1 <= a < |structure| && structure[a].fieldType == DateType
      ensures ColumnParses(h, data, Key(structure[a].id), 0) == ColumnParses(h, next, Key(structure[a].id), 0)
    {
      var other := Key(structure[a].id);
      assert other != key;
      assert HasKey(data, other);
      forall k | 0 <= k < |data|
        ensures next[k][other] == data[k][other]
      {
      }
    }
  }

  /** Normalisation fails only with `InvalidDate`. */
  lemma {:induction false} DatesErrorIsInvalidDate(h: Host, structure: seq<Field>, data: seq<Record>, i: nat)
    requires i <= |structure| && Keyed(data, structure)
    requires DatesFrom(h, structure, data, i).Failure?
    ensures DatesFrom(h, structure, data, i).error.InvalidDate?
    decreases |structure| - i
  {
    if structure[i].fieldType == DateType {
      var key := Key(structure[i].id);
      var column := NormalizeFrom(h, data, key, 0);
      if column.Success? {
        NormalizeKeys(h, data, key, 0);
        KeyedAfter(data, column.value, structure);
        DatesErrorIsInvalidDate(h, structure, column.value, i + 1);
      } else {
        ColumnErrorIsInvalidDate(h, data, key, 0);
      }
    } else {
      DatesErrorIsInvalidDate(h, structure, data, i + 1);
    }
  }

  /** The loop over one column fails only with `InvalidDate`. */
  lemma {:induction false} ColumnErrorIsInvalidDate(h: Host, data: seq<Record>, key: string, j: nat)
    requires j <= |data| && HasKey(data, key)
    requires NormalizeFrom(h, data, key, j).Failure?
    ensures NormalizeFrom(h, data, key, j).error.InvalidDate?
    decreases |data| - j
  {
    var rec := NormalizeRecord(h, data[j], key);
    if rec.Success? {
      ColumnErrorIsInvalidDate(h, data[j := rec.value], key, j + 1);
    }
  }
}
