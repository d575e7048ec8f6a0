# csv-loader-widget: the CSV tokenizer and type inferrer

A Dafny model of the parsing core of the csv-loader widget (`js/main.js`). The widget turns
an uploaded CSV text into a typed resource `{structure, data}`. The core has two parts:

- `CSVToArray`, the tokenizer. It runs a global regular expression in an `exec` loop and
  builds an array of rows of cells. It handles quoted fields, where `""` stands for one `"`.
  A line break outside quotes (`\r\n`, `\n`, `\r`) starts a new row.
- `parseCSV` with its classifiers `isNumber`, `isDate` and `getType`.
  - The header row becomes `structure`, one `{id, type}` entry per header cell.
  - Every later row that is not an empty line becomes a record keyed by header name.
  - Every column is typed `number`, `date` or `string` by a first-value-then-uniformity rule.
  - In `date` columns, every non-empty value is rewritten to the ISO form of its parse.

Modules, in pipeline order:

| file | module | what it holds |
|---|---|---|
| `wrappers.dfy` | `Wrappers` | `Option` and `Result` |
| `csv_tokenizer.dfy` | `CsvTokenizer` | One `exec` as an explicit left-to-right scan (`Exec`), all matches (`Scan`), the rows built from them (`Assemble`, `Rows`) and the imperative `exec` loop `CsvToArray`, proved to return `Rows`. |
| `csv_layout.dfy` | `CsvLayout` | How a table is laid out as text, as pieces (delimiter and field), and the proof that the tokens of those pieces rebuild the table. |
| `csv_quoting.dfy` | `CsvQuoting` | The round trip for quoted fields: a table written with quoted, escaped cells is read back by the tokenizer as that table. |
| `csv_plain.dfy` | `CsvPlain` | The round trip for unquoted fields: a table of bare cells written as they are is read back as that table. |
| `csv_leading.dfy` | `CsvLeading` | What the tokenizer does with a field delimiter or a line break at the very start of the text. |
| `field_types.dfy` | `FieldTypes` | `isNumber`, `isDate` and `getType` over a `Host` that supplies `Number`, `Date.parse` and `toISOString`. |
| `records.dfy` | `Records` | The header loop and the record loops, as methods proved against `Structure`, `RecordOf` and `RecordsOf`. |
| `column_typing.dfy` | `ColumnTyping` | The type-inference loops, proved against `ColumnType` and `Typed`, and the properties of the type rule. |
| `date_normalization.dfy` | `DateNormalization` | The date loops, proved against `NormalizeFrom` and `DatesFrom`, and what normalisation changes. |
| `csv_parsing.dfy` | `CsvParsing` | `parseCSV` as the method `ParseCsv`, proved against the function `Parse`, and properties of the whole parse. |

How the model represents the source:

- A cell is a `Cell`: a string, or `undefined`. `undefined` is what the tokenizer pushes for an
  empty quoted field `""`, because that match's group 2 is the falsy `''` and group 3 did not
  take part.
- A record is a `map<string, string>`. An `undefined` header stands for the property name
  `"undefined"`.
- The two exceptions that end `parseCSV` become `Failure` values of `ParseError`:
  - `MissingFirstRecord` is the `TypeError` raised when `data[0]` is read and there is no
    record;
  - `InvalidDate(v)` is the `TypeError` raised by `toISOString` on the `null` that
    `Date.parse(v)` returns.
- The `exec` loop stops only when the first match is non-empty. A zero-length match leaves
  `lastIndex` where it was, so `exec` repeats it forever. `Terminates` states the condition
  under which the loop stops, and `TerminatesIff` characterises it. `CsvToArray` and
  `ParseCsv` require it.
- Behaviour of the code worth knowing:
  - rows of any width are accepted. Short rows are padded with `''`, and cells beyond the
    header width are dropped (`ExtraCellsIgnored`);
  - `isDate` is `Date.parse(v) !== null`, with no other guard;
  - the type comes from the first record's value, even when that value is empty, and an
    empty string classifies as a number. So an all-empty column is typed `number`
    (`EmptyColumnIsNumber`), and a column whose first value is empty is never typed `date`
    (`EmptyFirstIsNumber`);
  - on empty input the tokenizer loops forever (`TerminatesIff`);
  - a field delimiter at the very start of the text is captured as the first match's
    delimiter, so no cell is pushed for the empty field in front of it:
    `CSVToArray(",a", ",")` is `[["a"]]`, not `[["", "a"]]` (`LeadingDelimiter`,
    `LeadingDelimiterExample`). A header `,b,c` over the data `1,2,3` therefore names the
    first column `b`, and every header name sits one column left of its data;
  - a line break at the very start of the text is captured the same way and starts a row,
    so the header row comes back empty: `CSVToArray("\na", ",")` is `[[], ["a"]]`
    (`LeadingLineBreak`, `LeadingLineBreakExample`). `parseCSV` then builds an empty
    `structure`, and every data record is empty (`RecordsKeys`);
  - the two `TypeError`s above are the only ways `parseCSV` fails (`ParseErrors`).

## Model

| member | source | states |
|---|---|---|
| CsvTokenizer.DelimiterOrDefault | js/main.js:60 | With no delimiter given, the delimiter is `,`; otherwise it is the one given. |
| CsvTokenizer.SearchFrom | js/main.js:63-85 | `exec` matches at position 0 on its first call. Later it matches only at a delimiter or line-break character at or after `lastIndex`, or finds nothing. |
| CsvTokenizer.SearchFromFirst | js/main.js:63-85 | The search skips no separator, and `null` means no separator is left in the text. |
| CsvTokenizer.MatchedDelimiter | js/main.js:66 | The delimiter group captures exactly the text at the match point: the empty `^`, the delimiter, or a line break. At a delimiter character it captures the delimiter, and at a separator it captures something non-empty. At `\r\n` it captures both characters as one line break, unless `\r` is the delimiter. |
| CsvTokenizer.ClosingQuote | js/main.js:69 | The quoted alternative closes on a quote character at or after the scan point, or on the last `""` pair it backtracks to. It fails only when no pair was taken. |
| CsvTokenizer.Unescape | js/main.js:101 | `replace(/""/g, '"')` never lengthens a value, and it empties only the empty value. |
| CsvTokenizer.UnquotedEnd | js/main.js:72 | The unquoted alternative stops at a quote, a separator, or the end of the text. |
| CsvTokenizer.UnquotedEndSpan | js/main.js:72 | Every character the unquoted alternative takes is neither a quote nor a separator. |
| CsvTokenizer.FieldAt | js/main.js:69-105 | The field part of a match stays within the text. At an opening quote it ends right after the closing quote that `ClosingQuote` finds, and its cell is the unescaped inside, or `undefined` when the inside is empty. Anywhere else it takes the unquoted run up to `UnquotedEnd`, and its cell is that run's text, even when empty. |
| CsvTokenizer.Terminates | js/main.js:85 | The loop can only end on non-empty text: its first match must be non-empty. |
| CsvTokenizer.Exec | js/main.js:63-105 | The first `exec` always matches. Every later match is non-empty, moves `lastIndex` forward, and starts with the delimiter or a line break. |
| CsvTokenizer.PushToken | js/main.js:92-108 | A match whose delimiter is a line break (neither empty nor the field delimiter) adds a row holding just its cell. Any other match appends its cell to the last row. Earlier rows never change. |
| CsvTokenizer.Assemble | js/main.js:79 | Building the rows starts from one empty row, so the result always has at least one row. |
| CsvTokenizer.CsvToArray | js/main.js:58-113 | The `exec` loop returns exactly `Rows` of the text with the defaulted delimiter. |
| CsvTokenizer.ScanStep | js/main.js:85-109 | One turn of the loop consumes the first token of the remaining scan. |
| CsvTokenizer.ScanUnfold | js/main.js:85 | The matches from a point where `exec` matches are that match, then the matches from where it ends. |
| CsvTokenizer.AssembleSnoc | js/main.js:92-108 | Handling one more match only pushes onto the rows built so far. |
| CsvTokenizer.GrowThenPush | js/main.js:92-108 | Pushing an empty row for a line break, then pushing the cell onto the last row, is `PushToken`. |
| CsvTokenizer.TerminatesIff | js/main.js:85 | The loop ends exactly when the text is non-empty and does not open with a quote that never closes. Otherwise the first match is the empty token ending at position 0. `lastIndex` stays at 0, so every turn gets that match again and pushes `''` onto the first row. |
| CsvTokenizer.ScanDelimiters | js/main.js:66-95 | Every match's delimiter is the field delimiter or a line break. Only the first match of the text may capture the empty `^`. |
| CsvTokenizer.AssembleRowCount | js/main.js:92-95 | When only line-break matches open rows, there is one row more than there are line breaks. |
| CsvTokenizer.RowCount | js/main.js:79-95 | `CSVToArray` returns one row more than the line breaks matched outside quoted fields. |
| CsvTokenizer.FlattenPush | js/main.js:108 | Each match adds exactly one cell, at the end of the last row. No earlier row changes. |
| CsvTokenizer.CellsInOrder | js/main.js:79-109 | Read row by row, the rows hold exactly one cell per match, in match order. |
| CsvTokenizer.LaterRowsNonEmpty | js/main.js:92-108 | Every row after the first holds at least one cell. |
| CsvQuoting.Escape | js/main.js:101 | Doubling quotes never shortens a value and keeps only the empty value empty. |
| CsvQuoting.UnescapeEscape | js/main.js:101 | `replace(/""/g, '"')` undoes the doubling of quotes. |
| CsvQuoting.ClosingQuoteAfterEscape | js/main.js:69 | In a quoted field whose inside doubles every quote, the closing quote is the one right after the inside. |
| CsvQuoting.FieldQuoted | js/main.js:69-105 | A quoted, escaped value that is not followed by a quote is read back as that value, or as `undefined` when it is empty. The match ends after the closing quote. |
| CsvQuoting.ExecQuoted | js/main.js:63-105 | One `exec` over a delimiter and a quoted value returns that delimiter and the decoded value. |
| CsvQuoting.ScanRendered | js/main.js:85-109 | The loop over rendered quoted values ends. It yields one match per value, with its delimiter and decoded cell. |
| CsvLayout.AssembleTable | js/main.js:79-109 | The matches of a table laid out with the delimiter between cells and a line break between rows build that table, row by row and cell by cell, whatever each field's text is read as. |
| CsvQuoting.TokenizeEncoded | js/main.js:58-113 | Round trip: `CSVToArray` reads a table with quoted, escaped cells back as the same table, with `\r\n`, `\n` or `\r` between rows; `\r\n` opens one row, not two. Delimiters, line breaks and quotes may appear inside cells. An empty cell comes back as `undefined`. |
| CsvPlain.UnquotedEndAt | js/main.js:72 | The unquoted alternative stops exactly at the end of a run of characters that are neither quotes nor separators, when a quote, a separator or the end of the text follows. |
| CsvPlain.FieldPlain | js/main.js:72-105 | A bare value (no quote, delimiter or line-break character) followed by a separator or the end is read back as its text, even when empty; the match ends right after it. |
| CsvPlain.ExecPlain | js/main.js:63-105 | One `exec` over a delimiter and a bare value returns that delimiter and the value's text. |
| CsvPlain.ExecFirstPlain | js/main.js:63-105 | In text laid out as bare pieces, `exec` at a piece returns that piece's delimiter and text and ends where the next piece starts. |
| CsvPlain.ScanPlain | js/main.js:85-109 | The loop over text laid out as bare pieces ends. It yields one match per piece, with its delimiter and its text as the cell. |
| CsvPlain.TokenizePlain | js/main.js:58-113 | Round trip: `CSVToArray` reads a table of bare cells, written with the delimiter between cells and `\r\n`, `\n` or `\r` between rows, back as the same table, each cell as its text; `\r\n` opens one row, not two. |
| CsvLeading.AssembleKeeps | js/main.js:92-108 | Later matches never change the rows built so far, except to extend the last of them. |
| CsvLeading.AssembleOne | js/main.js:79-108 | A single match whose delimiter is a line break gives an empty row and then a row holding its cell. Any other single match gives one row holding its cell. |
| CsvLeading.FirstTokenRows | js/main.js:79-108 | Whatever matches follow, the rows opened by the first match stay in place: an empty first row and its cell opening the second row when it starts with a line break, otherwise its cell first in the first row. |
| CsvLeading.FirstTokenAtSeparator | js/main.js:63-105 | At a separator at position 0 the first match captures that separator and the field after it. The match is non-empty, so the loop ends. |
| CsvLeading.LeadingDelimiter | js/main.js:63-108 | A field delimiter at the start of the text does not start a row and yields no cell for the empty field before it: the first cell of the first row is the field after the delimiter. |
| CsvLeading.LeadingLineBreak | js/main.js:63-108 | A line break at the start of the text starts a row: the first row is empty, and the field after the break opens the second row. |
| CsvLeading.LeadingDelimiterExample | js/main.js:58-113 | `CSVToArray(",a", ",")` returns `[["a"]]`. |
| CsvLeading.LeadingLineBreakExample | js/main.js:58-113 | `CSVToArray("\na", ",")` returns `[[], ["a"]]`. |
| FieldTypes.IsNumber | js/main.js:31-33 | `isNumber(value)` holds when `Number(value)` is not NaN. |
| FieldTypes.IsDate | js/main.js:35-37 | `isDate(value)` holds when the date library parses `value`. |
| FieldTypes.GetType | js/main.js:39-47 | `getType` is `number` exactly for numbers, and `date` exactly for non-numbers that parse as dates. It is `string` for all other values. |
| FieldTypes.DateTypeParses | js/main.js:35-47 | A value classified as a date is one the date library parses. |
| FieldTypes.EmptyIsNumber | js/main.js:31-33 | The empty string classifies as `number`, because `Number('')` is 0. |
| Records.Key | js/main.js:135 | A header cell names the property of its text; `undefined` names the property `"undefined"`, which a header `"undefined"` names too. |
| Records.CellValue | js/main.js:135 | The value stored for cell `j`, or `''` when it is falsy, is empty exactly when the cell is missing, `undefined` or empty, and is the cell's text otherwise. |
| Records.IsEmptyLine | js/main.js:129 | An empty line is a row with one cell whose value is `''`. A row holding one `undefined` is not an empty line. |
| Records.Structure | js/main.js:122-124 | `structure` has one entry per header cell. |
| Records.StructureEntries | js/main.js:117-124 | Entry `i` of `structure` is header cell `i` with type `string`. |
| Records.BuildStructure | js/main.js:122-124 | The header loop builds `Structure(headers)`. |
| Records.RecordPrefixKeys | js/main.js:133-136 | After `n` turns of the record loop, the record has exactly the first `n` header names as properties. |
| Records.RecordOf | js/main.js:131-136 | The record of a row has exactly the header names as properties. |
| Records.RecordPrefixValue | js/main.js:133-136 | After `n` turns, a header's property holds its cell, or `''`, when no later header among the first `n` has the same name. |
| Records.RecordValue | js/main.js:133-136 | The property of header `j` holds cell `j` of the row, or `''` when that cell is missing or `undefined`, unless a later header has the same name. With duplicate names the later column wins. |
| Records.ExtraCellsIgnored | js/main.js:133-136 | Cells beyond the header width play no part in the record. |
| Records.BuildRecord | js/main.js:133-136 | The loop over the headers builds `RecordOf(headers, aux)`. |
| Records.RecordsOf | js/main.js:127-141 | There is one record per data row, except rows that are an empty line. |
| Records.RecordsInOrder | js/main.js:127-141 | Without empty lines, record `i` is built from data row `i`. |
| Records.RecordsAppend | js/main.js:127-141 | The records of two runs of rows are the records of the first run followed by those of the second. |
| Records.SkipEmptyLine | js/main.js:129-132 | An empty line anywhere among the data rows yields no record and leaves the records before and after it as they were. With `RecordsAppend` and `RecordsInOrder`, this fixes the row of every record for any input, including text that ends in a line break. |
| Records.RecordsKeys | js/main.js:127-141 | Every record has exactly the header names as properties. |
| Records.BuildRecords | js/main.js:127-141 | The loop over the rows after the header builds `RecordsOf(headers, rows[1..])`. |
| ColumnTyping.ColumnType | js/main.js:148-168 | A column's type is `string` or its first value's type, and a non-`string` type is shared by every later non-empty value. |
| ColumnTyping.Retyped | js/main.js:148-168 | An entry keeps its id, and either stays as it was or takes its column's type; an entry that was `string` ends with its column's type. |
| ColumnTyping.Typed | js/main.js:144-171 | Typing fails exactly when there are columns but no records, and then with `MissingFirstRecord`. Otherwise it keeps the number of entries and their ids. |
| ColumnTyping.SameTypeThroughout | js/main.js:154-163 | The inner loop leaves `sameType` true exactly when every later non-empty value has the first value's type. |
| ColumnTyping.InferTypes | js/main.js:144-171 | The typing loop returns `Typed`. That is `MissingFirstRecord` when there are columns but no records. Otherwise it is each entry retyped by its column. |
| ColumnTyping.TypedStructure | js/main.js:144-171 | Starting from string-typed entries, inference keeps the ids and their order. Each entry gets its column's `ColumnType`. |
| ColumnTyping.TypedColumnAgrees | js/main.js:148-168 | A column typed `number` or `date` has that type in its first value and in every later non-empty value. |
| ColumnTyping.AgreeingColumnTyped | js/main.js:148-168 | Conversely, a non-`string` first type that every later non-empty value shares becomes the column type. |
| ColumnTyping.DisagreeingColumnIsString | js/main.js:154-163 | One later non-empty value of another type leaves the column `string`. |
| ColumnTyping.EmptyFirstIsNumber | js/main.js:148-163 | A column whose first value is empty is `number` exactly when its other non-empty values are numbers. It is never `date`. |
| ColumnTyping.EmptyColumnIsNumber | js/main.js:148-163 | A column with only empty values is typed `number`. |
| ColumnTyping.DateColumnParses | js/main.js:148-168 | Every non-empty value of a column typed `date` parses. |
| DateNormalization.IsoDate | js/main.js:182 | `Date.parse(v).toISOString()` throws (`InvalidDate(v)`) exactly when the library returns `null`. |
| DateNormalization.NormalizeRecord | js/main.js:181-183 | One record's value fails exactly when it is non-empty and does not parse, with `InvalidDate` of that value. Otherwise only that property changes, to its ISO date when non-empty. |
| DateNormalization.NormalizeFrom | js/main.js:178-185 | Normalising a column keeps the number of records, and each record keeps that column's property. |
| DateNormalization.NormalizeColumn | js/main.js:178-185 | The loop over one date column's records returns `NormalizeFrom`. |
| DateNormalization.NormalizeDates | js/main.js:174-187 | The loop over the structure returns `Normalized`. |
| DateNormalization.NormalizeKeys | js/main.js:178-185 | Normalisation keeps every record's properties. |
| DateNormalization.NormalizeColumnEffect | js/main.js:178-185 | Normalising one column succeeds exactly when every non-empty value in it parses. It then replaces those values by their ISO dates and changes nothing else. |
| DateNormalization.OtherColumnsKept | js/main.js:178-185 | Normalising a column leaves every other property as it was. |
| DateNormalization.DatesEffect | js/main.js:174-187 | With no property named by two `date` entries, the phase succeeds exactly when every non-empty `date` value parses. It then rewrites exactly those values to ISO dates. |
| DateNormalization.DatesErrorIsInvalidDate | js/main.js:174-187 | Date normalisation fails only with `InvalidDate`. |
| DateNormalization.ColumnErrorIsInvalidDate | js/main.js:178-185 | The loop over one column fails only with `InvalidDate`. |
| CsvParsing.Parse | js/main.js:115-191 | A successful parse has one structure entry per header cell and one record per raw record. |
| CsvParsing.ParseCsv | js/main.js:115-191 | `parseCSV` returns `Parse` of the text. |
| CsvParsing.NoRecordsIff | js/main.js:127-141 | There are no records exactly when every data row is an empty line. |
| CsvParsing.ParseErrors | js/main.js:115-191 | The parse fails with `MissingFirstRecord` exactly when the header row is non-empty and every data row is an empty line. Every other failure is `InvalidDate`. |
| CsvParsing.ParseShape | js/main.js:115-191 | On success there is one structure entry per header cell, in order. There is one record per data row that is not an empty line, each with exactly the header names as properties. |
| CsvParsing.DatesKeepRecords | js/main.js:174-187 | Date normalisation keeps the number of records and their properties. |
| CsvParsing.ParseTypes | js/main.js:115-171 | On success, every column's type is the `ColumnType` of its raw values. |
| CsvParsing.ParseDates | js/main.js:115-187 | Unless a header name that appears twice is typed `date`, the parse fails only when there are columns but no records. Otherwise it rewrites exactly the non-empty values of `date` columns to ISO dates. |

## Left out

- The user interface: `showError`, `hideError`, `init`, the layout repaint and the HTML summary
  of the parse (js/main.js:16-24, 192-202, 257-305). These are presentation only.
- File reading: `readFile`, `FileReader` and the MIME check (js/main.js:213-250). These are
  asynchronous browser I/O.
- Publishing: `MashupPlatform.wiring.pushEvent('resource', JSON.stringify(resource))`
  (js/main.js:205). `ParseCsv` returns the resource instead.
- `Number(value)`, the date library's `Date.parse` and `toISOString` are foreign code. They
  are the fields of a `Host` value. The only fact assumed about them is `Number('') == 0`
  (`JsNumberSemantics`), and only where a lemma needs it.
- The regular-expression engine. One `exec` is written out as the scan it performs for this
  pattern, with the backtracking of the quoted alternative analysed by hand.
- CsvTokenizer.CsvToArray: the delimiter is one character or absent. A multi-character
  `strDelimiter`, and the escapes that `"\\" + d` forms for letters, digits and line breaks,
  are not modelled. The round trip (`TokenizeEncoded`) is proved for delimiters satisfying
  `PlainDelimiter`, which include the `,` that `parseCSV` uses.
- CsvTokenizer.CsvToArray: non-termination is a precondition (`Terminates`), not a modelled
  outcome. On empty text, or text that opens with a quote that never closes, the source
  loops forever and grows its array without bound.
- CsvParsing.ParseCsv: the same precondition applies.
- Records.RecordOf: records are maps, so JavaScript's property order is not modelled. The
  special property `__proto__`, which does not create a property when assigned, is treated
  as an ordinary name.
- CsvQuoting.TokenizeEncoded: the round trip is proved for tables with at least one row and
  no empty row, with one kind of line break between all rows. An empty cell comes back as
  `undefined`.
- CsvPlain.TokenizePlain: the round trip is proved for tables with at least one row and
  no empty row, with one kind of line break between all rows, for cells with no quote,
  delimiter or line-break character, and with a non-empty very first cell. An empty very
  first cell is the leading-delimiter case of `CsvLeading`, where the round trip fails.
- CsvLeading.LeadingDelimiter: states the first cell of the first row, not the whole table;
  `CsvLeading.LeadingLineBreak` likewise states the first two rows. The whole table is
  stated for the two small texts of the example lemmas.
- DateNormalization.DatesEffect: the effect is stated only when no two `date` entries share
  a property name. With duplicate names, the source normalises the column twice, and the
  second parse of an ISO string is up to the date library.
- CsvParsing.ParseDates: the outcome is stated only when no header name that appears twice
  is typed `date`. Such a column is normalised once per header, and the second parse of its
  ISO strings is up to the date library.
- In-place updates of `structure[i].type` and `data[j][field.id]` are updates of sequence
  values. No record or entry is shared between two places in the source, so no aliasing is
  lost.
