/** Quoting in the tokenizer of js/main.js, stated as a round trip.

    A writer that wraps every cell in quotes, doubles the quotes inside it, separates
    cells with the delimiter and rows with a line break (`\r\n`, `\n` or `\r`) produces text that `CSVToArray` reads
    back as the same table, whatever the cells contain (delimiters, line breaks, quotes),
    except that an empty cell comes back as `undefined`. */
module CsvQuoting {
  import opened Wrappers
  import opened CsvTokenizer
  import opened CsvLayout

  /** Doubles every quote: the inverse of `Unescape`. */
  function Escape(x: string): (r: string)
    ensures |r| >= |x|
    ensures (r == "") == (x == "")
  {
    if x == "" then ""
    else (if x[0] == '"' then "\"\"" else [x[0]]) + Escape(x[1..])
  }

  /** A cell as a quoted field. */
  function Quoted(x: string): string {
    "\"" + Escape(x) + "\""
  }

  /** The cell `CSVToArray` pushes for a quoted field holding `x`. */
  function Decoded(x: string): Cell {
    if x == "" then Undefined else Text(x)
  }

  function Render(pieces: seq<Piece>): string {
    if pieces == [] then ""
    else pieces[0].delimiter + Quoted(pieces[0].text) + Render(pieces[1..])
  }

  /** The text of a table: quoted cells, the delimiter between cells, `eol` between rows. */
  function Encode(table: seq<seq<string>>, d: char, eol: string): string {
    Render(TablePieces(table, d, eol))
  }

  // ---------------------------------------------------------------------------

  /** `replace(/""/g, '"')` undoes the doubling of quotes. */
  lemma {:induction false} UnescapeEscape(x: string)
    ensures Unescape(Escape(x)) == x
  {
    if x != "" {
      UnescapeEscape(x[1..]);
      if x[0] == '"' {
        assert Escape(x) == "\"\"" + Escape(x[1..]);
        assert Escape(x)[2..] == Escape(x[1..]);
      } else {
        assert Escape(x) == [x[0]] + Escape(x[1..]);
        assert Escape(x)[1..] == Escape(x[1..]);
      }
    }
  }

  /** The quoted alternative closes exactly at the quote that follows an escaped cell,
      when that quote is not itself followed by a quote. */
  lemma {:induction false} ClosingQuoteAfterEscape(s: string, i: nat, pair: Option<nat>, x: string)
    requires i + |Escape(x)| < |s|
    requires s[i..i + |Escape(x)|] == Escape(x)
    requires s[i + |Escape(x)|] == '"'
    requires i + |Escape(x)| + 1 == |s| || s[i + |Escape(x)| + 1] != '"'
    requires pair.Some? ==> pair.value < i && s[pair.value] == '"'
    ensures ClosingQuote(s, i, pair) == Some(i + |Escape(x)|)
    decreases |x|
  {
    if x != "" {
      var n := |Escape(x)|;
      var rest := Escape(x[1..]);
      if x[0] == '"' {
        assert s[i] == '"' && s[i + 1] == '"' && s[i + 2..i + 2 + |rest|] == rest by {
          assert Escape(x) == "\"\"" + rest;
          assert s[i] == Escape(x)[0] && s[i + 1] == Escape(x)[1];
          assert s[i + 2..i + 2 + |rest|] == Escape(x)[2..];
        }
        ClosingQuoteAfterEscape(s, i + 2, Some(i), x[1..]);
      } else {
        assert s[i] != '"' && s[i + 1..i + 1 + |rest|] == rest by {
          assert Escape(x) == [x[0]] + rest;
          assert s[i] == Escape(x)[0];
          assert s[i + 1..i + 1 + |rest|] == Escape(x)[1..];
        }
        ClosingQuoteAfterEscape(s, i + 1, pair, x[1..]);
      }
    }
  }

  /** The field alternative over a quoted, escaped cell: the cell comes back decoded and
      the match ends right after the closing quote. */
  lemma {:induction false} FieldQuoted(s: string, d: char, f: nat, x: string)
    requires f + |Quoted(x)| <= |s|
    requires s[f..f + |Quoted(x)|] == Quoted(x)
    requires var e := f + |Quoted(x)|; e == |s| || s[e] != '"'
    ensures FieldAt(s, d, f) == (Decoded(x), f + |Quoted(x)|)
  {
    var j := f + 1 + |Escape(x)|;
    QuotedParts(s, f, x);
    ClosingQuoteAfterEscape(s, f + 1, None, x);
    UnescapeEscape(x);
  }

  /** The parts of a quoted field in the text: the opening quote, the escaped cell and
      the closing quote. */
  lemma {:induction false} QuotedParts(s: string, f: nat, x: string)
    requires f + |Quoted(x)| <= |s|
    requires s[f..f + |Quoted(x)|] == Quoted(x)
    ensures var j := f + 1 + |Escape(x)|;
            f + |Quoted(x)| == j + 1 && s[f] == '"' && s[j] == '"' && s[f + 1..j] == Escape(x)
  {
    var n := |Escape(x)|;
    var e := f + |Quoted(x)|;
    var j := f + 1 + n;
    assert Quoted(x) == "\"" + Escape(x) + "\"";
    assert s[f..e][0] == '"' && s[f..e][n + 1] == '"';
    assert Quoted(x)[1..1 + n] == Escape(x);
    SliceOfSlice(s, f, f + 1, j, e);
  }

  /** A quoted field starts with a quote. */
  lemma {:induction false} QuoteOpens(s: string, f: nat, x: string)
    requires f + |Quoted(x)| <= |s| && s[f..f + |Quoted(x)|] == Quoted(x)
    ensures s[f] == '"'
  {
    assert Quoted(x)[0] == '"';
    assert s[f..f + |Quoted(x)|][0] == s[f];
  }

  /** The delimiter group at the start of a piece matches exactly the piece's delimiter. */
  lemma {:induction false} DelimiterOfPiece(s: string, d: char, p: nat, delimiter: string)
    requires PlainDelimiter(d)
    requires delimiter == "" || delimiter == [d] || IsLineBreak(delimiter)
    requires delimiter == "" ==> p == 0
    requires p + |delimiter| < |s|
    requires s[p..p + |delimiter|] == delimiter && s[p + |delimiter|] == '"'
    ensures SearchFrom(s, d, p) == Some(p)
    ensures MatchedDelimiter(s, d, p) == delimiter
  {
    if delimiter != "" {
      assert s[p] == s[p..p + |delimiter|][0];
    }
  }

  /** One `exec` over a delimiter and a quoted cell returns that cell, and the match ends
      right after the closing quote. */
  lemma {:induction false} ExecQuoted(s: string, d: char, p: nat, delimiter: string, x: string)
    requires PlainDelimiter(d)
    requires delimiter == "" || delimiter == [d] || IsLineBreak(delimiter)
    requires delimiter == "" ==> p == 0
    requires p + |delimiter| + |Quoted(x)| <= |s|
    requires s[p..p + |delimiter|] == delimiter
    requires s[p + |delimiter|..p + |delimiter| + |Quoted(x)|] == Quoted(x)
    requires var e := p + |delimiter| + |Quoted(x)|; e == |s| || IsSeparatorChar(s[e], d)
    ensures Exec(s, d, p) == Some(Match(Token(delimiter, Decoded(x)), p + |delimiter| + |Quoted(x)|))
  {
    QuotedPieceAt(s, d, p, delimiter, x);
    ExecFrom(s, d, p, delimiter, Decoded(x), p + |delimiter| + |Quoted(x)|);
  }

  /** The three parts of `exec` over a delimiter and a quoted cell: it matches at `p`, the
      delimiter group captures the delimiter, and the field is the decoded cell. */
  lemma {:induction false} QuotedPieceAt(s: string, d: char, p: nat, delimiter: string, x: string)
    requires PlainDelimiter(d)
    requires delimiter == "" || delimiter == [d] || IsLineBreak(delimiter)
    requires delimiter == "" ==> p == 0
    requires p + |delimiter| + |Quoted(x)| <= |s|
    requires s[p..p + |delimiter|] == delimiter
    requires s[p + |delimiter|..p + |delimiter| + |Quoted(x)|] == Quoted(x)
    requires var e := p + |delimiter| + |Quoted(x)|; e == |s| || IsSeparatorChar(s[e], d)
    ensures SearchFrom(s, d, p) == Some(p) && MatchedDelimiter(s, d, p) == delimiter
    ensures FieldAt(s, d, p + |delimiter|) == (Decoded(x), p + |delimiter| + |Quoted(x)|)
  {
    var f := p + |delimiter|;
    var e := f + |Quoted(x)|;
    QuoteOpens(s, f, x);
    DelimiterOfPiece(s, d, p, delimiter);
    assert e == |s| || s[e] != '"';
    FieldQuoted(s, d, f, x);
  }

  lemma {:induction false} RenderCons(pieces: seq<Piece>)
    requires pieces != []
    ensures Render(pieces) == pieces[0].delimiter + Quoted(pieces[0].text) + Render(pieces[1..])
  {
  }

  /** Splitting rendered text at the end of its first piece. */
  lemma {:induction false} RenderedFirst(s: string, p: nat, pieces: seq<Piece>)
    requires pieces != []
    requires p <= |s| && s[p..] == Render(pieces)
    ensures var f := p + |pieces[0].delimiter|;
            var e := f + |Quoted(pieces[0].text)|;
            e <= |s| && s[p..f] == pieces[0].delimiter && s[f..e] == Quoted(pieces[0].text)
            && s[e..] == Render(pieces[1..])
  {
    var a, b, c := pieces[0].delimiter, Quoted(pieces[0].text), Render(pieces[1..]);
    var t := s[p..];
    assert t[..|a|] == a && t[|a|..|a| + |b|] == b && t[|a| + |b|..] == c by {
      assert t == a + b + c;
      ThreeParts(t, a, b, c);
    }
    SuffixSlices(s, p, |a|, |a| + |b|);
  }

  /** Where the pieces of rendered text stand: each piece's delimiter and quoted cell at
      its position, the next piece right after it, and nothing after the last. */
  predicate RendersAt(s: string, d: char, p: nat, pieces: seq<Piece>)
    decreases |pieces|
  {
    p <= |s| &&
    if pieces == [] then p == |s|
    else
      var f := p + |pieces[0].delimiter|;
      var e := f + |Quoted(pieces[0].text)|;
      ValidLead(pieces[0].delimiter, d, p)
      && e <= |s| && s[p..f] == pieces[0].delimiter && s[f..e] == Quoted(pieces[0].text)
      && RendersAt(s, d, e, pieces[1..])
  }

  lemma {:induction false} RenderedAt(s: string, d: char, p: nat, pieces: seq<Piece>)
    requires p <= |s| && s[p..] == Render(pieces)
    requires forall i :: 0 <= i < |pieces| ==> ValidLead(pieces[i].delimiter, d, if i == 0 then p else 1)
    ensures RendersAt(s, d, p, pieces)
    decreases |pieces|
  {
    if pieces != [] {
      var e := p + |pieces[0].delimiter| + |Quoted(pieces[0].text)|;
      RenderedFirst(s, p, pieces);
      assert forall i :: 0 <= i < |pieces[1..]| ==> pieces[1..][i] == pieces[i + 1];
      RenderedAt(s, d, e, pieces[1..]);
    }
  }

  /** `exec` at the start of a rendered piece matches exactly that piece. */
  lemma {:induction false} ExecFirstPiece(s: string, d: char, p: nat, pieces: seq<Piece>)
    requires PlainDelimiter(d)
    requires RendersAt(s, d, p, pieces)
    requires pieces != []
    ensures var e := p + |pieces[0].delimiter| + |Quoted(pieces[0].text)|;
            Exec(s, d, p) == Some(Match(Token(pieces[0].delimiter, Decoded(pieces[0].text)), e))
  {
    PieceFollowed(s, d, p, pieces);
    ExecQuoted(s, d, p, pieces[0].delimiter, pieces[0].text);
  }

  /** A rendered piece is followed by the end of the text or by the next delimiter. */
  lemma {:induction false} PieceFollowed(s: string, d: char, p: nat, pieces: seq<Piece>)
    requires RendersAt(s, d, p, pieces)
    requires pieces != []
    ensures var e := p + |pieces[0].delimiter| + |Quoted(pieces[0].text)|;
            e == |s| || IsSeparatorChar(s[e], d)
  {
    var rest := pieces[1..];
    var e := p + |pieces[0].delimiter| + |Quoted(pieces[0].text)|;
    if rest != [] {
      assert s[e] == s[e..e + |rest[0].delimiter|][0];
    }
  }

  /** Scanning rendered pieces yields one token per piece, with the piece's delimiter and
      its decoded cell. */
  lemma {:induction false} ScanRendered(s: string, d: char, p: nat, pieces: seq<Piece>)
    requires PlainDelimiter(d)
    requires RendersAt(s, d, p, pieces)
    requires p == 0 ==> |pieces| > 0
    ensures p == 0 ==> Terminates(s, d)
    ensures Scan(s, d, p) == PieceTokens(pieces, Decoded)
    decreases |pieces|
  {
    if pieces == [] {
      ScanAtEnd(s, d, p);
    } else {
      var first, rest := pieces[0], pieces[1..];
      var e := p + |first.delimiter| + |Quoted(first.text)|;
      assert RendersAt(s, d, e, rest);
      ScanRendered(s, d, e, rest);
      ScanFirstPiece(s, d, p, pieces);
      PieceTokensCons(pieces, Decoded);
    }
  }

  /** Scanning from the start of a rendered piece yields that piece's token, then the scan
      from its end. */
  lemma {:induction false} ScanFirstPiece(s: string, d: char, p: nat, pieces: seq<Piece>)
    requires PlainDelimiter(d)
    requires RendersAt(s, d, p, pieces)
    requires pieces != []
    ensures p == 0 ==> Terminates(s, d)
    ensures var e := p + |pieces[0].delimiter| + |Quoted(pieces[0].text)|;
            e <= |s| && Scan(s, d, p) == [Token(pieces[0].delimiter, Decoded(pieces[0].text))] + Scan(s, d, e)
  {
    var e := p + |pieces[0].delimiter| + |Quoted(pieces[0].text)|;
    ExecFirstPiece(s, d, p, pieces);
    ScanAfterMatch(s, d, p, Token(pieces[0].delimiter, Decoded(pieces[0].text)), e);
  }

  /** Round trip: `CSVToArray` reads an encoded table back as that table, whatever its cells
      hold and whichever line break separates the rows; `\r\n` counts as one line break.
      Only an empty cell, written `""`, comes back as `undefined`. */
  lemma {:induction false} TokenizeEncoded(table: seq<seq<string>>, d: char, eol: string)
    requires PlainDelimiter(d)
    requires IsLineBreak(eol)
    requires |table| > 0
    requires forall i :: 0 <= i < |table| ==> |table[i]| > 0
    ensures Terminates(Encode(table, d, eol), d)
    ensures Rows(Encode(table, d, eol), d) == TableCells(table, Decoded)
  {
    var s := Encode(table, d, eol);
    TablePiecesDelimiters(table, d, eol);
    RenderedAt(s, d, 0, TablePieces(table, d, eol));
    ScanRendered(s, d, 0, TablePieces(table, d, eol));
    AssembleTable(table, d, eol, Decoded);
  }
}
