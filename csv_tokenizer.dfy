/** The tokenizer `CSVToArray` of js/main.js.

    The source drives a global regular expression
      (\<d>|\r?\n|\r|^)(?:"([^"]*(?:""[^"]*)*)"|([^"\<d>\r\n]*))
    with repeated `exec` calls. Here one `exec` is the function `Exec`, written as an
    explicit left-to-right scan: `SearchFrom` finds where the delimiter group can match,
    `MatchedDelimiter` says which alternative it takes, and `FieldAt` (with
    `ClosingQuote` for the quoted alternative and its backtracking) gives the field.
    `Scan` lists the tokens of all matches, `Assemble` builds the rows from them,
    and the method `CsvToArray` is the source's `while` loop, proved to produce `Rows`. */
module CsvTokenizer {
  import opened Wrappers

  /** A value pushed into a row: a string, or JavaScript's `undefined`, which is what
      the source pushes for an empty quoted field `""` (its group 2 is falsy and its
      group 3 did not take part in the match). */
  datatype Cell = Undefined | Text(value: string)

  /** What one `exec` contributes: the text matched by the delimiter group and the cell. */
  datatype Token = Token(delimiter: string, cell: Cell)

  /** One successful `exec`: its token and the `lastIndex` it leaves behind. */
  datatype Match = Match(token: Token, end: nat)

  const DEFAULT_DELIMITER: char := ','

  /** `strDelimiter || ","`: a missing (or empty) delimiter means a comma. */
  function DelimiterOrDefault(delimiter: Option<char>): (d: char)
    ensures delimiter.None? ==> d == ','
    ensures delimiter.Some? ==> d == delimiter.value
  {
    match delimiter
    case None => DEFAULT_DELIMITER
    case Some(c) => c
  }

  /** Delimiters for which `"\\" + d` in the pattern stands for `d` itself: ASCII
      punctuation, space or control characters other than the quote and the line breaks.
      (A letter or digit after a backslash is a class, a control escape or a
      back-reference, and the `i` flag would fold a letter's case.) */
  predicate PlainDelimiter(d: char) {
    (d as int) < 128
    && !('a' <= d <= 'z') && !('A' <= d <= 'Z') && !('0' <= d <= '9')
    && d != '"' && d != '\r' && d != '\n'
  }

  /** A character at which the delimiter group can match somewhere other than position 0. */
  predicate IsSeparatorChar(c: char, d: char) {
    c == d || c == '\r' || c == '\n'
  }

  predicate IsLineBreak(delimiter: string) {
    delimiter == "\r\n" || delimiter == "\n" || delimiter == "\r"
  }

  /** Where `exec`, starting at `lastIndex == p`, finds its match: the first position at or
      after `p` where the delimiter group matches. At position 0 the alternative `^`
      always matches; elsewhere only a delimiter or line-break character does. */
  function SearchFrom(s: string, d: char, p: nat): (q: Option<nat>)
    requires p <= |s|
    decreases |s| - p
    ensures p == 0 ==> q == Some(0)
    ensures q.Some? ==> p <= q.value <= |s|
    ensures q.Some? && q.value > 0 ==> q.value < |s| && IsSeparatorChar(s[q.value], d)
    ensures q.None? ==> p > 0
  {
    if p == 0 then Some(0)
    else if p == |s| then None
    else if IsSeparatorChar(s[p], d) then Some(p)
    else SearchFrom(s, d, p + 1)
  }

  /** The text captured by the delimiter group at `q`, trying its alternatives in order:
      the delimiter, `\r?\n`, `\r`, and finally the empty `^`. */
  function MatchedDelimiter(s: string, d: char, q: nat): (m: string)
    requires q <= |s|
    ensures q + |m| <= |s| && s[q..q + |m|] == m
    ensures m == "" || m == [d] || IsLineBreak(m)
    ensures q < |s| && IsSeparatorChar(s[q], d) ==> m != ""
    ensures q < |s| && s[q] == d ==> m == [d]
    ensures q + 1 < |s| && s[q] == '\r' && s[q + 1] == '\n' && d != '\r' ==> m == "\r\n"
  {
    if q < |s| && s[q] == d then [d]
    else if q + 1 < |s| && s[q] == '\r' && s[q + 1] == '\n' then "\r\n"
    else if q < |s| && s[q] == '\n' then "\n"
    else if q < |s| && s[q] == '\r' then "\r"
    else ""
  }

  /** `SearchFrom` finds the first position where the delimiter group can match: no
      separator is skipped on the way, and `None` means there is none left. */
  lemma {:induction false} SearchFromFirst(s: string, d: char, p: nat)
    requires p <= |s|
    ensures var q := SearchFrom(s, d, p);
            (q.Some? ==> forall k :: p <= k < q.value ==> !IsSeparatorChar(s[k], d))
            && (q.None? ==> forall k :: p <= k < |s| ==> !IsSeparatorChar(s[k], d))
    decreases |s| - p
  {
    if p > 0 && p < |s| && !IsSeparatorChar(s[p], d) {
      SearchFromFirst(s, d, p + 1);
    }
  }

  /** Where the quoted alternative `"([^"]*(?:""[^"]*)*)"` puts its closing quote, scanning
      from index `i` after the opening quote. A `""` pair is taken greedily; a lone quote
      closes the field. If the text ends first, the expression backtracks to the first
      quote of the last pair taken (`pair`), or fails when no pair was taken. */
  function ClosingQuote(s: string, i: nat, pair: Option<nat>): (r: Option<nat>)
    requires i <= |s|
    requires pair.Some? ==> pair.value < i && s[pair.value] == '"'
    decreases |s| - i
    ensures r.Some? ==> r.value < |s| && s[r.value] == '"'
    ensures r.Some? ==> i <= r.value || r == pair
    ensures r.None? ==> pair.None?
  {
    if i == |s| then pair
    else if s[i] != '"' then ClosingQuote(s, i + 1, pair)
    else if i + 1 < |s| && s[i + 1] == '"' then ClosingQuote(s, i + 2, Some(i))
    else Some(i)
  }

  /** `value.replace(/""/g, '"')`: every `""`, read left to right, becomes one `"`. */
  function Unescape(s: string): (r: string)
    ensures |r| <= |s|
    ensures (r == "") == (s == "")
  {
    if |s| >= 2 && s[0] == '"' && s[1] == '"' then "\"" + Unescape(s[2..])
    else if s == "" then ""
    else [s[0]] + Unescape(s[1..])
  }

  /** Where the unquoted alternative `[^"\<d>\r\n]*` stops. */
  function UnquotedEnd(s: string, d: char, f: nat): (e: nat)
    requires f <= |s|
    decreases |s| - f
    ensures f <= e <= |s|
    ensures e < |s| ==> s[e] == '"' || IsSeparatorChar(s[e], d)
  {
    if f == |s| || s[f] == '"' || IsSeparatorChar(s[f], d) then f
    else UnquotedEnd(s, d, f + 1)
  }

  /** The unquoted alternative takes only characters that are neither quotes nor
      separators. */
  lemma {:induction false} UnquotedEndSpan(s: string, d: char, f: nat)
    requires f <= |s|
    ensures forall k :: f <= k < UnquotedEnd(s, d, f) ==> s[k] != '"' && !IsSeparatorChar(s[k], d)
    decreases |s| - f
  {
    if f < |s| && s[f] != '"' && !IsSeparatorChar(s[f], d) {
      UnquotedEndSpan(s, d, f + 1);
    }
  }

  /** Whether the quoted alternative matches at `f`: an opening quote whose field closes. */
  predicate QuotedAt(s: string, f: nat)
    requires f <= |s|
  {
    f < |s| && s[f] == '"' && ClosingQuote(s, f + 1, None).Some?
  }

  /** The field part of a match starting at `f`, and where the match ends. The quoted
      alternative is tried first; its capture is used only when it is non-empty
      (`if (arrMatches[2])`), so an empty quoted field gives `undefined`. Otherwise the
      unquoted alternative takes the longest run of characters that are neither quotes
      nor separators, as it stands. */
  function FieldAt(s: string, d: char, f: nat): (r: (Cell, nat))
    requires f <= |s|
    ensures f <= r.1 <= |s|
    ensures QuotedAt(s, f) ==>
              r.1 == ClosingQuote(s, f + 1, None).value + 1 && f + 2 <= r.1
              && r.0 == (if r.1 == f + 2 then Undefined else Text(Unescape(s[f + 1..r.1 - 1])))
    ensures !QuotedAt(s, f) ==> r.1 == UnquotedEnd(s, d, f) && r.0 == Text(s[f..r.1])
  {
    if QuotedAt(s, f) then
      var j := ClosingQuote(s, f + 1, None).value;
      var quoted := s[f + 1..j];
      (if quoted != "" then Text(Unescape(quoted)) else Undefined, j + 1)
    else
      var e := UnquotedEnd(s, d, f);
      (Text(s[f..e]), e)
  }

  /** One `objPattern.exec(strData)` with `lastIndex == p`; `None` is the `null` that ends
      the loop. */
  function Exec(s: string, d: char, p: nat): (m: Option<Match>)
    requires p <= |s|
    ensures p == 0 ==> m.Some?
    ensures m.Some? ==> p <= m.value.end <= |s|
    ensures m.Some? && p > 0 ==> m.value.end > p && m.value.token.delimiter != ""
    ensures m.Some? ==> m.value.token.delimiter == "" || m.value.token.delimiter == [d]
                        || IsLineBreak(m.value.token.delimiter)
  {
    match SearchFrom(s, d, p)
    case None => None
    case Some(q) =>
      var delimiter := MatchedDelimiter(s, d, q);
      var field := FieldAt(s, d, q + |delimiter|);
      Some(Match(Token(delimiter, field.0), field.1))
  }

  /** The `exec` loop stops only if its first match is non-empty: a global regular
      expression whose match is empty leaves `lastIndex` where it was, and every later
      `exec` repeats that match. Later matches always start with a delimiter. */
  predicate Terminates(s: string, d: char): (b: bool)
    ensures b ==> s != ""
  {
    Exec(s, d, 0).value.end > 0
  }

  /** The tokens of all matches from `lastIndex == p` on. */
  function Scan(s: string, d: char, p: nat): (ts: seq<Token>)
    requires p <= |s|
    requires p == 0 ==> Terminates(s, d)
    decreases |s| - p
  {
    match Exec(s, d, p)
    case None => []
    case Some(m) => [m.token] + Scan(s, d, m.end)
  }

  /** Whether a token opens a new row: its delimiter is non-empty and is not the field
      delimiter. */
  predicate StartsRow(t: Token, d: char) {
    |t.delimiter| > 0 && t.delimiter != [d]
  }

  /** The body of the loop: a token that starts a row adds a row holding just its cell;
      any other token appends its cell to the last row. Earlier rows are never touched. */
  function PushToken(rows: seq<seq<Cell>>, t: Token, d: char): (r: seq<seq<Cell>>)
    requires |rows| > 0
    ensures |r| == |rows| + (if StartsRow(t, d) then 1 else 0)
    ensures r[..|rows| - 1] == rows[..|rows| - 1]
    ensures StartsRow(t, d) ==> r[|rows| - 1] == rows[|rows| - 1] && r[|rows|] == [t.cell]
    ensures !StartsRow(t, d) ==> r[|rows| - 1] == rows[|rows| - 1] + [t.cell]
  {
    if StartsRow(t, d) then rows + [[t.cell]]
    else rows[..|rows| - 1] + [rows[|rows| - 1] + [t.cell]]
  }

  /** The rows built from a list of tokens, starting from one empty row. */
  function Assemble(ts: seq<Token>, d: char): (rows: seq<seq<Cell>>)
    ensures |rows| > 0
  {
    if ts == [] then [[]]
    else PushToken(Assemble(ts[..|ts| - 1], d), ts[|ts| - 1], d)
  }

  /** What `CSVToArray(s, d)` returns. */
  function Rows(s: string, d: char): seq<seq<Cell>>
    requires Terminates(s, d)
  {
    Assemble(Scan(s, d, 0), d)
  }

  /** `CSVToArray(strData, strDelimiter)`: the `exec` loop pushing rows and cells. */
  method CsvToArray(strData: string, strDelimiter: Option<char>) returns (arrData: seq<seq<Cell>>)
    requires Terminates(strData, DelimiterOrDefault(strDelimiter))
    ensures arrData == Rows(strData, DelimiterOrDefault(strDelimiter))
  {
    var d := DelimiterOrDefault(strDelimiter);
    arrData := [[]];
    var lastIndex := 0;
    ghost var done: seq<Token> := [];
    var arrMatches := Exec(strData, d, lastIndex);
    while arrMatches.Some?
      invariant lastIndex <= |strData|
      invariant arrMatches == Exec(strData, d, lastIndex)
      invariant done + Scan(strData, d, lastIndex) == Scan(strData, d, 0)
      invariant arrData == Assemble(done, d)
      decreases |strData| - lastIndex
    {
      var m := arrMatches.value;
      ScanStep(strData, d, lastIndex, done);
      AssembleSnoc(done, m.token, d);
      GrowThenPush(arrData, m.token, d);
      var strMatchedDelimiter := m.token.delimiter;
      if |strMatchedDelimiter| > 0 && strMatchedDelimiter != [d] {
        arrData := arrData + [[]];
      }
      arrData := arrData[..|arrData| - 1] + [arrData[|arrData| - 1] + [m.token.cell]];
      done := done + [m.token];
      lastIndex := m.end;
      arrMatches := Exec(strData, d, lastIndex);
    }
    assert Scan(strData, d, lastIndex) == [];
    assert done == Scan(strData, d, 0);
  }

  /** One turn of the loop consumes the first token of the remaining scan. */
  lemma {:induction false} ScanStep(s: string, d: char, p: nat, done: seq<Token>)
    requires p <= |s|
    requires p == 0 ==> Terminates(s, d)
    requires Exec(s, d, p).Some?
    ensures var m := Exec(s, d, p).value;
            (done + [m.token]) + Scan(s, d, m.end) == done + Scan(s, d, p)
  {
    var m := Exec(s, d, p).value;
    ScanUnfold(s, d, p);
    assert (done + [m.token]) + Scan(s, d, m.end) == done + ([m.token] + Scan(s, d, m.end));
  }

  /** The scan from a position where `exec` matches is that match's token, then the scan
      from where the match ends. */
  lemma {:induction false} ScanUnfold(s: string, d: char, p: nat)
    requires p <= |s|
    requires p == 0 ==> Terminates(s, d)
    requires Exec(s, d, p).Some?
    ensures Scan(s, d, p) == [Exec(s, d, p).value.token] + Scan(s, d, Exec(s, d, p).value.end)
  {
  }

  lemma {:induction false} AssembleSnoc(ts: seq<Token>, t: Token, d: char)
    ensures Assemble(ts + [t], d) == PushToken(Assemble(ts, d), t, d)
  {
    assert (ts + [t])[..|ts|] == ts;
  }

  /** The source's two steps (push an empty row, then push onto the last row) are
      `PushToken`. */
  lemma {:induction false} GrowThenPush(rows: seq<seq<Cell>>, t: Token, d: char)
    requires |rows| > 0
    ensures var grown := if |t.delimiter| > 0 && t.delimiter != [d] then rows + [[]] else rows;
            grown[..|grown| - 1] + [grown[|grown| - 1] + [t.cell]] == PushToken(rows, t, d)
  {
    if StartsRow(t, d) {
      var grown := rows + [[]];
      assert grown[..|grown| - 1] == rows && grown[|grown| - 1] == [];
      assert [] + [t.cell] == [t.cell];
    }
  }

  // ---------------------------------------------------------------------------
  // Properties of the tokenizer

  /** When the loop stops, and when it spins: it terminates exactly when the text is
      non-empty and does not open with a quote that never closes. Otherwise the first
      match is the empty token ending at 0: `lastIndex` stays at 0, so `exec` returns it
      again on every turn, and every turn pushes `''` onto the first row. */
  lemma {:induction false} TerminatesIff(s: string, d: char)
    requires PlainDelimiter(d)
    ensures Terminates(s, d) <==> s != "" && !(s[0] == '"' && ClosingQuote(s, 1, None).None?)
    ensures !Terminates(s, d) ==> Exec(s, d, 0) == Some(Match(Token("", Text("")), 0))
  {
    var delimiter := MatchedDelimiter(s, d, 0);
    if s != "" && IsSeparatorChar(s[0], d) {
      assert delimiter != "";
    } else if s != "" && s[0] != '"' {
      assert delimiter == "";
      assert UnquotedEnd(s, d, 0) > 0;
    }
  }

  /** Every token's delimiter is the field delimiter or a line break, except that the
      first token of the whole text may have the empty delimiter `^`. */
  lemma {:induction false} ScanDelimiters(s: string, d: char, p: nat)
    requires p <= |s|
    requires p == 0 ==> Terminates(s, d)
    ensures forall i :: 0 <= i < |Scan(s, d, p)| ==>
              var t := Scan(s, d, p)[i];
              t.delimiter == [d] || IsLineBreak(t.delimiter) || (i == 0 && p == 0 && t.delimiter == "")
    decreases |s| - p
  {
    match Exec(s, d, p)
    case None =>
    case Some(m) =>
      ScanDelimiters(s, d, m.end);
  }

  /** The number of tokens whose delimiter is a line break. */
  function LineBreakCount(ts: seq<Token>): nat {
    if ts == [] then 0
    else LineBreakCount(ts[..|ts| - 1]) + (if IsLineBreak(ts[|ts| - 1].delimiter) then 1 else 0)
  }

  /** Given that only line-break tokens open rows, there is one row more than there are
      line breaks. */
  lemma {:induction false} AssembleRowCount(ts: seq<Token>, d: char)
    requires forall i :: 0 <= i < |ts| ==> (StartsRow(ts[i], d) <==> IsLineBreak(ts[i].delimiter))
    ensures |Assemble(ts, d)| == 1 + LineBreakCount(ts)
  {
    if ts != [] {
      AssembleRowCount(ts[..|ts| - 1], d);
    }
  }

  /** Row count: `CSVToArray` returns one row more than the line breaks the matches
      consumed outside quoted fields. */
  lemma {:induction false} RowCount(s: string, d: char)
    requires PlainDelimiter(d)
    requires Terminates(s, d)
    ensures |Rows(s, d)| == 1 + LineBreakCount(Scan(s, d, 0))
  {
    var ts := Scan(s, d, 0);
    ScanDelimiters(s, d, 0);
    forall i | 0 <= i < |ts|
      ensures StartsRow(ts[i], d) <==> IsLineBreak(ts[i].delimiter)
    {
      assert [d] != "\n" && [d] != "\r" && [d] != "\r\n";
    }
    AssembleRowCount(ts, d);
  }

  /** The rows concatenated. */
  function Flatten(rows: seq<seq<Cell>>): seq<Cell> {
    if rows == [] then [] else Flatten(rows[..|rows| - 1]) + rows[|rows| - 1]
  }

  function Cells(ts: seq<Token>): (cs: seq<Cell>)
    ensures |cs| == |ts| && forall i :: 0 <= i < |ts| ==> cs[i] == ts[i].cell
  {
    seq(|ts|, i requires 0 <= i < |ts| => ts[i].cell)
  }

  lemma {:induction false} FlattenSnoc(rows: seq<seq<Cell>>, row: seq<Cell>)
    ensures Flatten(rows + [row]) == Flatten(rows) + row
  {
    assert (rows + [row])[..|rows|] == rows;
  }

  lemma {:induction false} FlattenPush(rows: seq<seq<Cell>>, t: Token, d: char)
    requires |rows| > 0
    ensures Flatten(PushToken(rows, t, d)) == Flatten(rows) + [t.cell]
  {
    var n := |rows|;
    var front, last := rows[..n - 1], rows[n - 1];
    assert Flatten(rows) == Flatten(front) + last;
    if StartsRow(t, d) {
      FlattenSnoc(rows, [t.cell]);
    } else {
      FlattenSnoc(front, last + [t.cell]);
    }
  }

  /** One cell per match: read row by row, the rows hold exactly the tokens' cells, in
      match order. */
  lemma {:induction false} CellsInOrder(ts: seq<Token>, d: char)
    ensures Flatten(Assemble(ts, d)) == Cells(ts)
  {
    if ts == [] {
      assert Flatten([[]]) == Flatten([]) + [];
    } else {
      var front, t := ts[..|ts| - 1], ts[|ts| - 1];
      CellsInOrder(front, d);
      FlattenPush(Assemble(front, d), t, d);
      assert Cells(ts) == Cells(front) + [t.cell];
    }
  }

  /** Every row after the first holds at least one cell, because the match that opens a
      row also pushes its cell. */
  lemma {:induction false} LaterRowsNonEmpty(ts: seq<Token>, d: char)
    ensures forall i :: 1 <= i < |Assemble(ts, d)| ==> |Assemble(ts, d)[i]| > 0
  {
    if ts != [] {
      LaterRowsNonEmpty(ts[..|ts| - 1], d);
    }
  }
}
