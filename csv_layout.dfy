/** How a table is laid out as text for the tokenizer of js/main.js, whatever the form of
    its fields: the pieces (delimiter and field) of a table, and the proof that the
    tokens of those pieces, read by `Assemble`, rebuild the table row by row. The round
    trips of `CsvQuoting` (quoted fields) and `CsvPlain` (unquoted fields) both end here. */
module CsvLayout {
  import opened Wrappers
  import opened CsvTokenizer

  /** One cell of a written table, as the text of its field, and the delimiter written
      before it: `""` for the very first cell, the field delimiter or the line break for
      the others. */
  datatype Piece = Piece(delimiter: string, text: string)

  /** The tokens `exec` should return for the pieces, when a field's text is read as the
      cell `cellOf(text)`. */
  function PieceTokens(pieces: seq<Piece>, cellOf: string -> Cell): (ts: seq<Token>)
    ensures |ts| == |pieces|
    ensures forall i :: 0 <= i < |pieces| ==> ts[i] == Token(pieces[i].delimiter, cellOf(pieces[i].text))
  {
    seq(|pieces|, i requires 0 <= i < |pieces| => Token(pieces[i].delimiter, cellOf(pieces[i].text)))
  }

  /** The pieces of one row: its first cell after `lead`, the others after the delimiter. */
  function RowPieces(row: seq<string>, lead: string, d: char): (ps: seq<Piece>)
    ensures |ps| == |row|
  {
    if row == [] then [] else [Piece(lead, row[0])] + CellPieces(row[1..], d)
  }

  /** Cells that continue a row, each after the field delimiter. */
  function CellPieces(cells: seq<string>, d: char): (ps: seq<Piece>)
    ensures |ps| == |cells|
  {
    if cells == [] then []
    else CellPieces(cells[..|cells| - 1], d) + [Piece([d], cells[|cells| - 1])]
  }

  /** The pieces of a table: rows one after the other, each after `eol` but the first. */
  function TablePieces(table: seq<seq<string>>, d: char, eol: string): seq<Piece> {
    if table == [] then []
    else TablePieces(table[..|table| - 1], d, eol)
         + RowPieces(table[|table| - 1], if |table| == 1 then "" else eol, d)
  }

  /** The cells of one row as `CSVToArray` should read them back. */
  function RowCells(row: seq<string>, cellOf: string -> Cell): (cells: seq<Cell>)
    ensures |cells| == |row|
  {
    seq(|row|, j requires 0 <= j < |row| => cellOf(row[j]))
  }

  /** The table `CSVToArray` should read back: each cell read, row by row. */
  function TableCells(table: seq<seq<string>>, cellOf: string -> Cell): (rows: seq<seq<Cell>>)
    ensures |rows| == |table|
    ensures forall i :: 0 <= i < |table| ==> rows[i] == RowCells(table[i], cellOf)
  {
    if table == [] then []
    else TableCells(table[..|table| - 1], cellOf) + [RowCells(table[|table| - 1], cellOf)]
  }

  /** `exec` from `p` with its three parts known: where it matches, what the delimiter
      group captures and what the field gives. */
  lemma {:induction false} ExecFrom(s: string, d: char, p: nat, delimiter: string, cell: Cell, e: nat)
    requires p + |delimiter| <= |s|
    requires SearchFrom(s, d, p) == Some(p) && MatchedDelimiter(s, d, p) == delimiter
    requires FieldAt(s, d, p + |delimiter|) == (cell, e)
    ensures Exec(s, d, p) == Some(Match(Token(delimiter, cell), e))
  {
  }

  lemma {:induction false} SliceOfSlice(s: string, a: nat, b: nat, c: nat, e: nat)
    requires a <= b <= c <= e <= |s|
    ensures s[a..e][b - a..c - a] == s[b..c]
  {
    forall k | 0 <= k < c - b
      ensures s[a..e][b - a..c - a][k] == s[b..c][k]
    {
    }
  }

  /** The three parts of a concatenation, recovered by slicing. */
  lemma {:induction false} ThreeParts(t: string, a: string, b: string, c: string)
    requires t == a + b + c
    ensures t[..|a|] == a && t[|a|..|a| + |b|] == b && t[|a| + |b|..] == c
  {
  }

  /** Slices of a suffix are slices of the whole. */
  lemma {:induction false} SuffixSlices(s: string, p: nat, i: nat, j: nat)
    requires p + j <= |s| && i <= j
    ensures s[p..][..i] == s[p..p + i]
    ensures s[p..][i..j] == s[p + i..p + j]
    ensures s[p..][j..] == s[p + j..]
  {
  }

  /** The delimiters a piece may start with: the field delimiter or a line break, and
      nothing only at the very start of the text. */
  predicate ValidLead(delimiter: string, d: char, p: nat) {
    delimiter == [d] || IsLineBreak(delimiter) || (p == 0 && delimiter == "")
  }

  /** Once `exec` matches at `p`, scanning from `p` yields the match and then the scan
      from its end. */
  lemma {:induction false} ScanAfterMatch(s: string, d: char, p: nat, t: Token, e: nat)
    requires p <= e <= |s| && 0 < e
    requires Exec(s, d, p) == Some(Match(t, e))
    ensures p == 0 ==> Terminates(s, d)
    ensures Scan(s, d, p) == [t] + Scan(s, d, e)
  {
    ScanUnfold(s, d, p);
  }

  /** At the end of the text (past position 0) `exec` finds nothing more. */
  lemma {:induction false} ScanAtEnd(s: string, d: char, p: nat)
    requires 0 < p == |s|
    ensures Scan(s, d, p) == []
  {
    assert Exec(s, d, p) == None;
  }

  lemma {:induction false} PieceTokensCons(pieces: seq<Piece>, cellOf: string -> Cell)
    requires pieces != []
    ensures PieceTokens(pieces, cellOf)
            == [Token(pieces[0].delimiter, cellOf(pieces[0].text))] + PieceTokens(pieces[1..], cellOf)
  {
    PieceTokensAppend([pieces[0]], pieces[1..], cellOf);
    assert [pieces[0]] + pieces[1..] == pieces;
  }

  lemma {:induction false} PieceTokensAppend(a: seq<Piece>, b: seq<Piece>, cellOf: string -> Cell)
    ensures PieceTokens(a + b, cellOf) == PieceTokens(a, cellOf) + PieceTokens(b, cellOf)
  {
  }

  /** A token led by the field delimiter extends the last row. */
  lemma {:induction false} PushDelimited(rows: seq<seq<Cell>>, last: seq<Cell>, t: Token, d: char)
    requires PlainDelimiter(d)
    requires t.delimiter == [d]
    ensures PushToken(rows + [last], t, d) == rows + [last + [t.cell]]
  {
    assert (rows + [last])[..|rows|] == rows;
  }

  /** Cells read after the field delimiter extend the last row, one by one. */
  lemma {:induction false} AssembleCells(ts: seq<Token>, cells: seq<string>, d: char, cellOf: string -> Cell)
    requires PlainDelimiter(d)
    ensures var rows := Assemble(ts, d);
            Assemble(ts + PieceTokens(CellPieces(cells, d), cellOf), d)
            == rows[..|rows| - 1] + [rows[|rows| - 1] + RowCells(cells, cellOf)]
    decreases |cells|
  {
    var rows := Assemble(ts, d);
    var k := |rows| - 1;
    if cells == [] {
      assert ts + PieceTokens(CellPieces(cells, d), cellOf) == ts;
      assert rows[k] + RowCells(cells, cellOf) == rows[k];
      assert rows[..k] + [rows[k]] == rows;
    } else {
      var front, last := cells[..|cells| - 1], cells[|cells| - 1];
      var t := Token([d], cellOf(last));
      var before := ts + PieceTokens(CellPieces(front, d), cellOf);
      assert ts + PieceTokens(CellPieces(cells, d), cellOf) == before + [t] by {
        PieceTokensAppend(CellPieces(front, d), [Piece([d], last)], cellOf);
      }
      AssembleCells(ts, front, d, cellOf);
      AssembleSnoc(before, t, d);
      PushDelimited(rows[..k], rows[k] + RowCells(front, cellOf), t, d);
      RowCellsSnoc(rows[k], cells, cellOf);
    }
  }

  lemma {:induction false} RowCellsSnoc(row: seq<Cell>, cells: seq<string>, cellOf: string -> Cell)
    requires cells != []
    ensures (row + RowCells(cells[..|cells| - 1], cellOf)) + [cellOf(cells[|cells| - 1])]
            == row + RowCells(cells, cellOf)
  {
    var n := |cells|;
    assert RowCells(cells, cellOf) == RowCells(cells[..n - 1], cellOf) + [cellOf(cells[n - 1])];
  }

  /** The tokens of a row: its lead token, then its other cells. */
  lemma {:induction false} RowTokens(row: seq<string>, lead: string, d: char, cellOf: string -> Cell)
    requires |row| > 0
    ensures PieceTokens(RowPieces(row, lead, d), cellOf)
            == [Token(lead, cellOf(row[0]))] + PieceTokens(CellPieces(row[1..], d), cellOf)
  {
    PieceTokensAppend([Piece(lead, row[0])], CellPieces(row[1..], d), cellOf);
  }

  /** The first row of an encoded table, written without a leading delimiter, fills the
      empty row that `CSVToArray` starts with. */
  lemma {:induction false} AssembleFirstRow(row: seq<string>, d: char, cellOf: string -> Cell)
    requires PlainDelimiter(d)
    requires |row| > 0
    ensures Assemble(PieceTokens(RowPieces(row, "", d), cellOf), d) == [RowCells(row, cellOf)]
  {
    var t := Token("", cellOf(row[0]));
    var cells := PieceTokens(CellPieces(row[1..], d), cellOf);
    assert PieceTokens(RowPieces(row, "", d), cellOf) == [t] + cells by {
      RowTokens(row, "", d, cellOf);
    }
    AssembleLead(t, d);
    AssembleCells([t], row[1..], d, cellOf);
    assert [cellOf(row[0])] + RowCells(row[1..], cellOf) == RowCells(row, cellOf);
  }

  /** A first token without a delimiter lands in the starting empty row. */
  lemma {:induction false} AssembleLead(t: Token, d: char)
    requires t.delimiter == ""
    ensures Assemble([t], d) == [[t.cell]]
  {
    assert [t][..0] == [];
    var r := PushToken([[]], t, d);
    var empty: seq<Cell> := [];
    assert empty + [t.cell] == [t.cell];
    assert r == [[t.cell]];
    assert Assemble([t], d) == PushToken(Assemble([t][..0], d), [t][0], d);
  }

  /** Every later row, written after a line break, adds one row. */
  lemma {:induction false} AssembleNextRow(ts: seq<Token>, row: seq<string>, d: char, eol: string, cellOf: string -> Cell)
    requires PlainDelimiter(d) && IsLineBreak(eol)
    requires |row| > 0
    ensures Assemble(ts + PieceTokens(RowPieces(row, eol, d), cellOf), d) == Assemble(ts, d) + [RowCells(row, cellOf)]
  {
    var t := Token(eol, cellOf(row[0]));
    var cells := PieceTokens(CellPieces(row[1..], d), cellOf);
    assert ts + PieceTokens(RowPieces(row, eol, d), cellOf) == (ts + [t]) + cells by {
      RowTokens(row, eol, d, cellOf);
    }
    assert Assemble(ts + [t], d) == Assemble(ts, d) + [[cellOf(row[0])]] by {
      AssembleSnoc(ts, t, d);
      assert eol != [d] by {
        if |eol| == 1 {
          assert eol[0] == '\n' || eol[0] == '\r';
        }
      }
    }
    var rows := Assemble(ts, d);
    var grown := rows + [[cellOf(row[0])]];
    AssembleCells(ts + [t], row[1..], d, cellOf);
    assert grown[..|grown| - 1] == rows && grown[|grown| - 1] == [cellOf(row[0])];
    assert [cellOf(row[0])] + RowCells(row[1..], cellOf) == RowCells(row, cellOf);
  }

  /** Reading the pieces of a whole table rebuilds the table, cell by cell. */
  lemma {:induction false} AssembleTable(table: seq<seq<string>>, d: char, eol: string, cellOf: string -> Cell)
    requires PlainDelimiter(d) && IsLineBreak(eol)
    requires |table| > 0
    requires forall i :: 0 <= i < |table| ==> |table[i]| > 0
    ensures Assemble(PieceTokens(TablePieces(table, d, eol), cellOf), d) == TableCells(table, cellOf)
    decreases |table|
  {
    var n := |table|;
    var front, last := table[..n - 1], table[n - 1];
    if n == 1 {
      assert front == [];
      assert TablePieces(table, d, eol) == RowPieces(last, "", d);
      AssembleFirstRow(last, d, cellOf);
      assert TableCells(table, cellOf) == [RowCells(last, cellOf)];
    } else {
      AssembleTable(front, d, eol, cellOf);
      PieceTokensAppend(TablePieces(front, d, eol), RowPieces(last, eol, d), cellOf);
      AssembleNextRow(PieceTokens(TablePieces(front, d, eol), cellOf), last, d, eol, cellOf);
    }
  }

  /** Where delimiters stand in the pieces of a table: only the very first piece has none. */
  lemma {:induction false} TablePiecesDelimiters(table: seq<seq<string>>, d: char, eol: string)
    requires IsLineBreak(eol)
    requires forall i :: 0 <= i < |table| ==> |table[i]| > 0
    ensures |TablePieces(table, d, eol)| > 0 <==> |table| > 0
    ensures forall i :: 0 <= i < |TablePieces(table, d, eol)| ==>
              TablePieces(table, d, eol)[i].delimiter == [d] || TablePieces(table, d, eol)[i].delimiter == eol
              || (i == 0 && TablePieces(table, d, eol)[i].delimiter == "")
    decreases |table|
  {
    if table != [] {
      var n := |table|;
      var lead := if n == 1 then "" else eol;
      assert n == 1 ==> table[..n - 1] == [];
      TablePiecesDelimiters(table[..n - 1], d, eol);
      RowPiecesDelimiters(table[n - 1], lead, d);
      LeadsAppend(TablePieces(table[..n - 1], d, eol), RowPieces(table[n - 1], lead, d), lead, d, eol);
    }
  }

  /** Appending a row's pieces keeps the delimiters where `TablePiecesDelimiters` says. */
  lemma {:induction false} LeadsAppend(front: seq<Piece>, row: seq<Piece>, lead: string, d: char, eol: string)
    requires lead == eol || (lead == "" && front == [])
    requires forall i :: 0 <= i < |front| ==>
               front[i].delimiter == [d] || front[i].delimiter == eol
               || (i == 0 && front[i].delimiter == "")
    requires forall i :: 0 <= i < |row| ==> row[i].delimiter == (if i == 0 then lead else [d])
    ensures forall i :: 0 <= i < |front + row| ==>
              (front + row)[i].delimiter == [d] || (front + row)[i].delimiter == eol
              || (i == 0 && (front + row)[i].delimiter == "")
  {
    forall i | 0 <= i < |front + row|
      ensures (front + row)[i].delimiter == [d] || (front + row)[i].delimiter == eol
              || (i == 0 && (front + row)[i].delimiter == "")
    {
      if i < |front| {
        assert (front + row)[i] == front[i];
      } else {
        assert (front + row)[i] == row[i - |front|];
      }
    }
  }

  lemma {:induction false} RowPiecesDelimiters(row: seq<string>, lead: string, d: char)
    ensures forall i :: 0 <= i < |row| ==>
              RowPieces(row, lead, d)[i].delimiter == (if i == 0 then lead else [d])
  {
    if row != [] {
      CellPiecesDelimiters(row[1..], d);
    }
  }

  lemma {:induction false} CellPiecesDelimiters(cells: seq<string>, d: char)
    ensures forall i :: 0 <= i < |cells| ==> CellPieces(cells, d)[i].delimiter == [d]
    decreases |cells|
  {
    if cells != [] {
      CellPiecesDelimiters(cells[..|cells| - 1], d);
    }
  }
}
