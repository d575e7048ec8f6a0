/** The value classifiers `isNumber`, `isDate` and `getType` of js/main.js.

    `Number(value)`, the date library's `Date.parse` and `toISOString` are not part of
    this model: they come in as the fields of a `Host`. */
module FieldTypes {
  import opened Wrappers

  /** A point in time as the date library represents it (milliseconds since the epoch). */
  type Instant = int

  /** The foreign functions the classifiers and the date normalisation call. */
  datatype Host = Host(
    /** `isNaN(Number(value))` */
    numberIsNaN: string -> bool,
    /** the date library's `Date.parse(value)`; `None` is its `null` */
    dateParse: string -> Option<Instant>,
    /** `instant.toISOString()` */
    toIsoString: Instant -> string)

  /** The one fact about JavaScript's `Number` the source relies on: `Number('')` is 0,
      not NaN. */
  predicate JsNumberSemantics(h: Host) {
    !h.numberIsNaN("")
  }

  /** The three column types, in the order `getType` tries them. They stand for the
      constants `NUMBER_TYPE`, `DATE_TYPE` and `STRING_TYPE`. */
  datatype FieldType = NumberType | DateType | StringType

  /** `isNumber(value)`: `Number(value)` is not NaN. */
  predicate IsNumber(h: Host, value: string) {
    !h.numberIsNaN(value)
  }

  /** `isDate(value)`: the date library parses `value`. */
  predicate IsDate(h: Host, value: string) {
    h.dateParse(value).Some?
  }

  /** `getType(value)`: number first, then date, otherwise string. */
  function GetType(h: Host, value: string): (t: FieldType)
    ensures t == NumberType <==> IsNumber(h, value)
    ensures t == DateType <==> !IsNumber(h, value) && IsDate(h, value)
    ensures t == StringType <==> !IsNumber(h, value) && !IsDate(h, value)
  {
    if IsNumber(h, value) then NumberType
    else if IsDate(h, value) then DateType
    else StringType
  }

  /** A value classified as a date is one the date library can parse, so normalising it
      cannot hit the `null` result. */
  lemma {:induction false} DateTypeParses(h: Host, value: string)
    requires GetType(h, value) == DateType
    ensures h.dateParse(value).Some?
  {
  }

  /** The empty string classifies as a number, however the date library treats it. */
  lemma {:induction false} EmptyIsNumber(h: Host)
    requires JsNumberSemantics(h)
    ensures GetType(h, "") == NumberType
  {
  }
}
