/** The third phase of `parseCSV` in js/main.js: every column gets a type. The type of
    the first record's value is kept when it is not `string` and every later non-empty
    value of the column has that same type; otherwise the column stays `string`. */
module ColumnTyping {
  import opened Wrappers
  import opened FieldTypes
  import opened Records

  /** The exceptions that end `parseCSV`. */
  datatype ParseError =
    | /** `data[0][fieldName]` with no records (a `TypeError`) */
      MissingFirstRecord
    | /** `Date.parse(value).toISOString()` where the library returned `null` */
      InvalidDate(value: string)

  /** Every record has the property `key`. */
  predicate HasKey(data: seq<Record>, key: string) {
    forall j :: 0 <= j < |data| ==> key in data[j]
  }

  /** Every record has the property of every structure entry. */
  predicate Keyed(data: seq<Record>, structure: seq<Field>) {
    forall i :: 0 <= i < |structure| ==> HasKey(data, Key(structure[i].id))
  }

  /** Every value of the column after the first record is empty or classifies as `t`. */
  predicate UniformAfterFirst(h: Host, data: seq<Record>, key: string, t: FieldType)
    requires HasKey(data, key)
  {
    forall j :: 1 <= j < |data| ==> data[j][key] == "" || GetType(h, data[j][key]) == t
  }

  /** The type `parseCSV` gives the column `key`. */
  function ColumnType(h: Host, data: seq<Record>, key: string): (t: FieldType)
    requires |data| > 0 && HasKey(data, key)
    ensures t == StringType || t == GetType(h, data[0][key])
    ensures t != StringType ==> UniformAfterFirst(h, data, key, t)
  {
    var firstType := GetType(h, data[0][key]);
    if firstType != StringType && UniformAfterFirst(h, data, key, firstType) then firstType
    else StringType
  }

  /** A structure entry after its turn of the loop: its type is overwritten only when the
      first type is not `string` and the column agrees with it. */
  function Retyped(h: Host, field: Field, data: seq<Record>): (r: Field)
    requires |data| > 0 && HasKey(data, Key(field.id))
    ensures r.id == field.id
    ensures r == field || r.fieldType == ColumnType(h, data, Key(field.id))
    ensures field.fieldType == StringType ==> r.fieldType == ColumnType(h, data, Key(field.id))
  {
    var key := Key(field.id);
    var firstType := GetType(h, data[0][key]);
    if firstType != StringType && UniformAfterFirst(h, data, key, firstType) then
      field.(fieldType := firstType)
    else field
  }

  /** The structure after type inference, or the error reading `data[0]` when there are
      columns but no records. */
  function Typed(h: Host, structure: seq<Field>, data: seq<Record>): (r: Result<seq<Field>, ParseError>)
    requires Keyed(data, structure)
    ensures r.Failure? <==> |structure| > 0 && |data| == 0
    ensures r.Failure? ==> r.error == MissingFirstRecord
    ensures r.Success? ==> |r.value| == |structure|
                           && forall i :: 0 <= i < |structure| ==> r.value[i].id == structure[i].id
  {
    if |structure| > 0 && |data| == 0 then Failure(MissingFirstRecord)
    else Success(seq(|structure|, i requires 0 <= i < |structure| => Retyped(h, structure[i], data)))
  }

  // ---------------------------------------------------------------------------
  // The loops

  /** The inner loop (js/main.js:154-163): it stops at the first non-empty value whose type
      differs from `firstType`. */
  method SameTypeThroughout(h: Host, data: seq<Record>, fieldName: string, firstType: FieldType)
    returns (sameType: bool)
    requires HasKey(data, fieldName)
    ensures sameType == UniformAfterFirst(h, data, fieldName, firstType)
  {
    sameType := true;
    var j := 1;
    while j < |data| && sameType
      invariant 1 <= j
      invariant sameType ==> forall k :: 1 <= k < j && k < |data| ==>
                  data[k][fieldName] == "" || GetType(h, data[k][fieldName]) == firstType
      invariant !sameType ==> !UniformAfterFirst(h, data, fieldName, firstType)
      decreases |data| - j
    {
      if data[j][fieldName] != "" {
        var t := GetType(h, data[j][fieldName]);
        if t != firstType {
          sameType := false;
        }
      }
      j := j + 1;
    }
  }

  /** The outer loop (js/main.js:144-171), updating `structure[i].type` in place. */
  method InferTypes(h: Host, structure0: seq<Field>, data: seq<Record>)
    returns (result: Result<seq<Field>, ParseError>)
    requires Keyed(data, structure0)
    ensures result == Typed(h, structure0, data)
  {
    var structure := structure0;
    for i := 0 to |structure|
      invariant |structure| == |structure0|
      invariant i > 0 ==> |data| > 0
      invariant forall k :: 0 <= k < i ==> structure[k] == Retyped(h, structure0[k], data)
      invariant forall k :: i <= k < |structure| ==> structure[k] == structure0[k]
    {
      var fieldName := Key(structure[i].id);
      if |data| == 0 {
        return Failure(MissingFirstRecord);
      }
      var firstType := GetType(h, data[0][fieldName]);
      if firstType != StringType {
        var sameType := SameTypeThroughout(h, data, fieldName, firstType);
        if sameType {
          structure := structure[i := structure[i].(fieldType := firstType)];
        }
      }
    }
    assert structure == seq(|structure0|, i requires 0 <= i < |structure0| => Retyped(h, structure0[i], data));
    return Success(structure);
  }

  // ---------------------------------------------------------------------------
  // Properties of the type rule

  /** Inference changes types only: ids and order stay, and an entry that starts as
      `string` ends with its column's type. */
  lemma {:induction false} TypedStructure(h: Host, structure: seq<Field>, data: seq<Record>)
    requires Keyed(data, structure)
    requires |data| > 0
    requires forall i :: 0 <= i < |structure| ==> structure[i].fieldType == StringType
    ensures Typed(h, structure, data).Success?
    ensures var typed := Typed(h, structure, data).value;
            |typed| == |structure|
            && forall i :: 0 <= i < |structure| ==>
                 typed[i] == Field(structure[i].id, ColumnType(h, data, Key(structure[i].id)))
  {
    var typed := Typed(h, structure, data).value;
    forall i | 0 <= i < |structure|
      ensures typed[i] == Field(structure[i].id, ColumnType(h, data, Key(structure[i].id)))
    {
      assert HasKey(data, Key(structure[i].id));
      assert typed[i] == Retyped(h, structure[i], data);
    }
  }

  /** A column typed `number` or `date` has that type in its first record and in every
      later non-empty value. */
  lemma {:induction false} TypedColumnAgrees(h: Host, data: seq<Record>, key: string)
    requires |data| > 0 && HasKey(data, key)
    requires ColumnType(h, data, key) != StringType
    ensures forall j :: 0 <= j < |data| && (j == 0 || data[j][key] != "") ==>
              GetType(h, data[j][key]) == ColumnType(h, data, key)
  {
    var t := ColumnType(h, data, key);
    assert UniformAfterFirst(h, data, key, t);
    forall j | 0 <= j < |data| && (j == 0 || data[j][key] != "")
      ensures GetType(h, data[j][key]) == t
    {
      if j > 0 {
        assert data[j][key] == "" || GetType(h, data[j][key]) == t;
      }
    }
  }

  /** Conversely, a first value of type `number` or `date` with which every later
      non-empty value agrees gives the column that type. */
  lemma {:induction false} AgreeingColumnTyped(h: Host, data: seq<Record>, key: string, t: FieldType)
    requires |data| > 0 && HasKey(data, key)
    requires t != StringType
    requires forall j :: 0 <= j < |data| && (j == 0 || data[j][key] != "") ==> GetType(h, data[j][key]) == t
    ensures ColumnType(h, data, key) == t
  {
    assert GetType(h, data[0][key]) == t;
    forall j | 1 <= j < |data|
      ensures data[j][key] == "" || GetType(h, data[j][key]) == t
    {
    }
  }

  /** One later non-empty value of another type leaves the column `string`. */
  lemma {:induction false} DisagreeingColumnIsString(h: Host, data: seq<Record>, key: string, j: nat)
    requires HasKey(data, key)
    requires 1 <= j < |data| && data[j][key] != ""
    requires GetType(h, data[j][key]) != GetType(h, data[0][key])
    ensures ColumnType(h, data, key) == StringType
  {
    assert !(data[j][key] == "" || GetType(h, data[j][key]) == GetType(h, data[0][key]));
  }

  /** An empty first value counts as a number, so a column whose first value is empty
      is a `number` column exactly when its other non-empty values are numbers, and it
      is never a `date` column, whatever its later values. */
  lemma {:induction false} EmptyFirstIsNumber(h: Host, data: seq<Record>, key: string)
    requires JsNumberSemantics(h)
    requires |data| > 0 && HasKey(data, key)
    requires data[0][key] == ""
    ensures ColumnType(h, data, key) == NumberType <==>
              forall j :: 1 <= j < |data| && data[j][key] != "" ==> IsNumber(h, data[j][key])
    ensures ColumnType(h, data, key) != DateType
  {
    EmptyIsNumber(h);
    if forall j :: 1 <= j < |data| && data[j][key] != "" ==> IsNumber(h, data[j][key]) {
      forall j | 0 <= j < |data| && (j == 0 || data[j][key] != "")
        ensures GetType(h, data[j][key]) == NumberType
      {
      }
      AgreeingColumnTyped(h, data, key, NumberType);
    } else {
      var j :| 1 <= j < |data| && data[j][key] != "" && !IsNumber(h, data[j][key]);
      DisagreeingColumnIsString(h, data, key, j);
    }
  }

  /** A column with no values at all is typed `number`. */
  lemma {:induction false} EmptyColumnIsNumber(h: Host, data: seq<Record>, key: string)
    requires JsNumberSemantics(h)
    requires |data| > 0 && HasKey(data, key)
    requires forall j :: 0 <= j < |data| ==> data[j][key] == ""
    ensures ColumnType(h, data, key) == NumberType
  {
    EmptyFirstIsNumber(h, data, key);
  }

  /** Every non-empty value of a `date` column parses, so normalising it cannot fail. */
  lemma {:induction false} DateColumnParses(h: Host, data: seq<Record>, key: string)
    requires |data| > 0 && HasKey(data, key)
    requires ColumnType(h, data, key) == DateType
    ensures forall j :: 0 <= j < |data| && data[j][key] != "" ==> h.dateParse(data[j][key]).Some?
  {
    TypedColumnAgrees(h, data, key);
  }
}
