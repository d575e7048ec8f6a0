/** Unquoted fields in the tokenizer of js/main.js, stated as a round trip.

    A writer that puts every cell as it is, separates cells with the delimiter and rows
    with a line break (`\r\n`, `\n` or `\r`) produces text that `CSVToArray` reads back as
    the same table, each cell as its text, provided no cell holds a quote, the delimiter
    or a line-break character and the very first cell is not empty. Empty cells anywhere
    else come back as `''`. */
module CsvPlain {
  import opened Wrappers
  import opened CsvTokenizer
  import opened CsvLayout

  /** A cell that can be written without quotes: no quote, no delimiter and no
      line-break character. */
  predicate Bare(x: string, d: char) {
    forall k :: 0 <= k < |x| ==> x[k] != '"' && !IsSeparatorChar(x[k], d)
  }

  /** The cell `CSVToArray` pushes for an unquoted field: its text, even when empty. */
  function TextCell(x: string): Cell {
    Text(x)
  }

  /** Pieces written one after the other, each field as it is. */
  function PlainRender(pieces: seq<Piece>): string {
    if pieces == [] then ""
    else pieces[0].delimiter + pieces[0].text + PlainRender(pieces[1..])
  }

  /** The text of a table written without quotes: the delimiter between cells, `eol`
      between rows. */
  function WritePlain(table: seq<seq<string>>, d: char, eol: string): string {
    PlainRender(TablePieces(table, d, eol))
  }

  /** The delimiters a plain piece may start with: the field delimiter or the table's line
      break, and nothing only for a non-empty first cell at the very start of the text. */
  predicate PlainLead(piece: Piece, d: char, eol: string, p: nat) {
    piece.delimiter == [d] || piece.delimiter == eol
    || (p == 0 && piece.delimiter == "" && piece.text != "")
  }

  /** Where the pieces of plain text stand: each piece's delimiter and text at its
      position, the next piece right after it, and nothing after the last. */
  predicate PlainAt(s: string, d: char, eol: string, p: nat, pieces: seq<Piece>)
    decreases |pieces|
  {
    p <= |s| &&
    if pieces == [] then p == |s|
    else
      var f := p + |pieces[0].delimiter|;
      var e := f + |pieces[0].text|;
      PlainLead(pieces[0], d, eol, p) && Bare(pieces[0].text, d)
      && e <= |s| && s[p..f] == pieces[0].delimiter && s[f..e] == pieces[0].text
      && PlainAt(s, d, eol, e, pieces[1..])
  }

  // ---------------------------------------------------------------------------
  // One `exec` over a plain piece

  /** The unquoted alternative stops exactly at the end of a run of characters that are
      neither quotes nor separators, followed by a quote, a separator or the end. */
  lemma {:induction false} UnquotedEndAt(s: string, d: char, f: nat, e: nat)
    requires f <= e <= |s|
    requires forall k :: f <= k < e ==> s[k] != '"' && !IsSeparatorChar(s[k], d)
    requires e == |s| || s[e] == '"' || IsSeparatorChar(s[e], d)
    ensures UnquotedEnd(s, d, f) == e
    decreases e - f
  {
    if f < e {
      UnquotedEndAt(s, d, f + 1, e);
    }
  }

  /** The field alternative over a bare cell followed by a separator or the end: the cell
      comes back as its text and the match ends right after it. */
  lemma {:induction false} FieldPlain(s: string, d: char, f: nat, x: string)
    requires PlainDelimiter(d) && Bare(x, d)
    requires f + |x| <= |s| && s[f..f + |x|] == x
    requires f + |x| == |s| || IsSeparatorChar(s[f + |x|], d)
    ensures FieldAt(s, d, f) == (Text(x), f + |x|)
  {
    var e := f + |x|;
    forall k | f <= k < e
      ensures s[k] != '"' && !IsSeparatorChar(s[k], d)
    {
      assert s[k] == s[f..e][k - f];
    }
    if f < |s| {
      assert s[f] != '"' by {
        if x != "" {
          assert s[f] == s[f..e][0];
        }
      }
    }
    UnquotedEndAt(s, d, f, e);
  }

  /** The delimiter group at the start of a plain piece captures exactly the piece's
      delimiter; a lone `\r` is not taken for the start of a `\r\n`, because the character
      after it is a bare cell's, the delimiter or another `\r`. */
  lemma {:induction false} DelimiterOfPlain(s: string, d: char, eol: string, p: nat, piece: Piece)
    requires PlainDelimiter(d) && IsLineBreak(eol)
    requires PlainLead(piece, d, eol, p) && Bare(piece.text, d)
    requires var e := p + |piece.delimiter| + |piece.text|;
             e <= |s| && s[p..p + |piece.delimiter|] == piece.delimiter
             && s[p + |piece.delimiter|..e] == piece.text
             && (e == |s| || s[e] == d || s[e] == eol[0])
    ensures SearchFrom(s, d, p) == Some(p)
    ensures MatchedDelimiter(s, d, p) == piece.delimiter
  {
    var delimiter, x := piece.delimiter, piece.text;
    var f := p + |delimiter|;
    var e := f + |x|;
    if delimiter == "" {
      assert s[0] == s[f..e][0];
    } else {
      assert s[p] == s[p..f][0];
      if delimiter == "\r" {
        assert f == |s| || s[f] != '\n' by {
          if x != "" {
            assert s[f] == s[f..e][0];
          }
        }
      }
    }
  }

  /** One `exec` over a plain piece returns that piece's delimiter and its text, and the
      match ends right after the text. */
  lemma {:induction false} ExecPlain(s: string, d: char, eol: string, p: nat, piece: Piece)
    requires PlainDelimiter(d) && IsLineBreak(eol)
    requires PlainLead(piece, d, eol, p) && Bare(piece.text, d)
    requires var e := p + |piece.delimiter| + |piece.text|;
             e <= |s| && s[p..p + |piece.delimiter|] == piece.delimiter
             && s[p + |piece.delimiter|..e] == piece.text
             && (e == |s| || s[e] == d || s[e] == eol[0])
    ensures Exec(s, d, p) == Some(Match(Token(piece.delimiter, Text(piece.text)),
                                        p + |piece.delimiter| + |piece.text|))
  {
    var f := p + |piece.delimiter|;
    DelimiterOfPlain(s, d, eol, p, piece);
    FieldPlain(s, d, f, piece.text);
    ExecFrom(s, d, p, piece.delimiter, Text(piece.text), f + |piece.text|);
  }

  // ---------------------------------------------------------------------------
  // The whole text

  /** Splitting plain text at the end of its first piece. */
  lemma {:induction false} PlainFirst(s: string, p: nat, pieces: seq<Piece>)
    requires pieces != []
    requires p <= |s| && s[p..] == PlainRender(pieces)
    ensures var f := p + |pieces[0].delimiter|;
            var e := f + |pieces[0].text|;
            e <= |s| && s[p..f] == pieces[0].delimiter && s[f..e] == pieces[0].text
            && s[e..] == PlainRender(pieces[1..])
  {
    var a, b, c := pieces[0].delimiter, pieces[0].text, PlainRender(pieces[1..]);
    var t := s[p..];
    assert t[..|a|] == a && t[|a|..|a| + |b|] == b && t[|a| + |b|..] == c by {
      assert t == a + b + c;
      ThreeParts(t, a, b, c);
    }
    SuffixSlices(s, p, |a|, |a| + |b|);
  }

  lemma {:induction false} PlainAtRendered(s: string, d: char, eol: string, p: nat, pieces: seq<Piece>)
    requires p <= |s| && s[p..] == PlainRender(pieces)
    requires forall i :: 0 <= i < |pieces| ==>
               PlainLead(pieces[i], d, eol, if i == 0 then p else 1) && Bare(pieces[i].text, d)
    ensures PlainAt(s, d, eol, p, pieces)
    decreases |pieces|
  {
    if pieces != [] {
      var e := p + |pieces[0].delimiter| + |pieces[0].text|;
      PlainFirst(s, p, pieces);
      assert forall i :: 0 <= i < |pieces[1..]| ==> pieces[1..][i] == pieces[i + 1];
      PlainAtRendered(s, d, eol, e, pieces[1..]);
    }
  }

  /** A plain piece is followed by the end of the text or by the next piece's delimiter. */
  lemma {:induction false} PlainFollowed(s: string, d: char, eol: string, p: nat, pieces: seq<Piece>)
    requires IsLineBreak(eol)
    requires PlainAt(s, d, eol, p, pieces)
    requires pieces != []
    ensures var e := p + |pieces[0].delimiter| + |pieces[0].text|;
            e == |s| || s[e] == d || s[e] == eol[0]
  {
    var rest := pieces[1..];
    var e := p + |pieces[0].delimiter| + |pieces[0].text|;
    if rest != [] {
      assert e > 0;
      assert s[e] == s[e..e + |rest[0].delimiter|][0];
    }
  }

  /** Scanning from the start of a plain piece yields that piece's token, then the scan
      from its end. */
  lemma {:induction false} ScanFirstPlain(s: string, d: char, eol: string, p: nat, pieces: seq<Piece>)
    requires PlainDelimiter(d) && IsLineBreak(eol)
    requires PlainAt(s, d, eol, p, pieces)
    requires pieces != []
    ensures p == 0 ==> Terminates(s, d)
    ensures var e := p + |pieces[0].delimiter| + |pieces[0].text|;
            e <= |s| && Scan(s, d, p) == [Token(pieces[0].delimiter, Text(pieces[0].text))] + Scan(s, d, e)
  {
    var e := p + |pieces[0].delimiter| + |pieces[0].text|;
    ExecFirstPlain(s, d, eol, p, pieces);
    ScanAfterMatch(s, d, p, Token(pieces[0].delimiter, Text(pieces[0].text)), e);
  }

  /** The match at the start of plain pieces is the first piece's token. */
  lemma {:induction false} ExecFirstPlain(s: string, d: char, eol: string, p: nat, pieces: seq<Piece>)
    requires PlainDelimiter(d) && IsLineBreak(eol)
    requires PlainAt(s, d, eol, p, pieces)
    requires pieces != []
    ensures var e := p + |pieces[0].delimiter| + |pieces[0].text|;
            Exec(s, d, p) == Some(Match(Token(pieces[0].delimiter, Text(pieces[0].text)), e))
  {
    PlainFollowed(s, d, eol, p, pieces);
    ExecPlain(s, d, eol, p, pieces[0]);
  }

  /** Scanning plain pieces yields one token per piece, with the piece's delimiter and its
      text as the cell. */
  lemma {:induction false} ScanPlain(s: string, d: char, eol: string, p: nat, pieces: seq<Piece>)
    requires PlainDelimiter(d) && IsLineBreak(eol)
    requires PlainAt(s, d, eol, p, pieces)
    requires p == 0 ==> |pieces| > 0
    ensures p == 0 ==> Terminates(s, d)
    ensures Scan(s, d, p) == PieceTokens(pieces, TextCell)
    decreases |pieces|
  {
    if pieces == [] {
      ScanAtEnd(s, d, p);
    } else {
      var first, rest := pieces[0], pieces[1..];
      var e := p + |first.delimiter| + |first.text|;
      assert PlainAt(s, d, eol, e, rest);
      ScanPlain(s, d, eol, e, rest);
      ScanFirstPlain(s, d, eol, p, pieces);
      PieceTokensCons(pieces, TextCell);
    }
  }

  // ---------------------------------------------------------------------------
  // The pieces of a bare table

  lemma {:induction false} CellPiecesBare(cells: seq<string>, d: char)
    requires forall j :: 0 <= j < |cells| ==> Bare(cells[j], d)
    ensures forall i :: 0 <= i < |cells| ==> Bare(CellPieces(cells, d)[i].text, d)
    decreases |cells|
  {
    if cells != [] {
      CellPiecesBare(cells[..|cells| - 1], d);
    }
  }

  lemma {:induction false} TablePiecesBare(table: seq<seq<string>>, d: char, eol: string)
    requires forall i, j :: 0 <= i < |table| && 0 <= j < |table[i]| ==> Bare(table[i][j], d)
    ensures forall i :: 0 <= i < |TablePieces(table, d, eol)| ==> Bare(TablePieces(table, d, eol)[i].text, d)
    decreases |table|
  {
    if table != [] {
      var n := |table|;
      var front, last := table[..n - 1], table[n - 1];
      var lead := if n == 1 then "" else eol;
      TablePiecesBare(front, d, eol);
      if last != [] {
        CellPiecesBare(last[1..], d);
      }
      var a: seq<Piece> := TablePieces(front, d, eol);
      var b: seq<Piece> := RowPieces(last, lead, d);
      assert TablePieces(table, d, eol) == a + b;
      forall i | 0 <= i < |a + b|
        ensures Bare((a + b)[i].text, d)
      {
        if i < |a| {
          assert (a + b)[i] == a[i];
        } else if i > |a| {
          assert (a + b)[i] == CellPieces(last[1..], d)[i - |a| - 1];
        }
      }
    }
  }

  /** The first piece of a table is its first cell, with no delimiter. */
  lemma {:induction false} TablePiecesFirst(table: seq<seq<string>>, d: char, eol: string)
    requires |table| > 0 && |table[0]| > 0
    ensures |TablePieces(table, d, eol)| > 0
    ensures TablePieces(table, d, eol)[0] == Piece("", table[0][0])
    decreases |table|
  {
    var n := |table|;
    var front := table[..n - 1];
    if n == 1 {
      assert front == [];
    } else {
      TablePiecesFirst(front, d, eol);
    }
  }

  /** Round trip: `CSVToArray` reads a table written without quotes back as that table,
      each cell as its text, whichever line break separates the rows; `\r\n` counts as one
      line break. Empty cells other than the very first come back as `''`. */
  lemma {:induction false} TokenizePlain(table: seq<seq<string>>, d: char, eol: string)
    requires PlainDelimiter(d) && IsLineBreak(eol)
    requires |table| > 0
    requires forall i :: 0 <= i < |table| ==> |table[i]| > 0
    requires forall i, j :: 0 <= i < |table| && 0 <= j < |table[i]| ==> Bare(table[i][j], d)
    requires table[0][0] != ""
    ensures Terminates(WritePlain(table, d, eol), d)
    ensures Rows(WritePlain(table, d, eol), d) == TableCells(table, TextCell)
  {
    var s := WritePlain(table, d, eol);
    var pieces := TablePieces(table, d, eol);
    TablePiecesDelimiters(table, d, eol);
    TablePiecesBare(table, d, eol);
    TablePiecesFirst(table, d, eol);
    forall i | 0 <= i < |pieces|
      ensures PlainLead(pieces[i], d, eol, if i == 0 then 0 else 1)
    {
    }
    PlainAtRendered(s, d, eol, 0, pieces);
    ScanPlain(s, d, eol, 0, pieces);
    AssembleTable(table, d, eol, TextCell);
  }
}
