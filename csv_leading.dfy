/** What `CSVToArray` in js/main.js does with a separator at the very start of the text.
    At position 0 the delimiter group of the pattern tries the field delimiter and the
    line breaks before the empty `^`, so a leading separator is captured as the first
    match's delimiter and the empty field in front of it is never read:
    - a leading field delimiter does not start a row, so the first cell of the first row
      is the field after it (`,b,c` starts its row with `b`, not with an empty cell);
    - a leading line break starts a row, so the first row comes back empty and the
      field after the break opens the second row. */
module CsvLeading {
  import opened Wrappers
  import opened CsvTokenizer
  import opened CsvLayout

  // ---------------------------------------------------------------------------
  // Rows only grow

  /** `b` grows out of `a`: the rows of `a` but its last are untouched, and its last row
      can only have been extended. */
  predicate Keeps(a: seq<seq<Cell>>, b: seq<seq<Cell>>)
    requires |a| > 0
  {
    |a| <= |b| && a[..|a| - 1] == b[..|a| - 1] && a[|a| - 1] <= b[|a| - 1]
  }

  lemma {:induction false} PushTokenKeeps(rows: seq<seq<Cell>>, t: Token, d: char)
    requires |rows| > 0
    ensures Keeps(rows, PushToken(rows, t, d))
  {
  }

  lemma {:induction false} KeepsTrans(a: seq<seq<Cell>>, b: seq<seq<Cell>>, c: seq<seq<Cell>>)
    requires |a| > 0 && |b| > 0
    requires Keeps(a, b) && Keeps(b, c)
    ensures Keeps(a, c)
  {
    assert c[..|a| - 1] == c[..|b| - 1][..|a| - 1];
    assert b[..|a| - 1] == b[..|b| - 1][..|a| - 1];
    if |a| < |b| {
      assert c[|a| - 1] == c[..|b| - 1][|a| - 1];
      assert b[|a| - 1] == b[..|b| - 1][|a| - 1];
    }
  }

  /** Later tokens never touch the rows built so far, except to extend the last one. */
  lemma {:induction false} AssembleKeeps(ts: seq<Token>, more: seq<Token>, d: char)
    ensures Keeps(Assemble(ts, d), Assemble(ts + more, d))
    decreases |more|
  {
    if more == [] {
      assert ts + more == ts;
    } else {
      var init, last := more[..|more| - 1], more[|more| - 1];
      assert ts + more == (ts + init) + [last];
      AssembleKeeps(ts, init, d);
      AssembleSnoc(ts + init, last, d);
      PushTokenKeeps(Assemble(ts + init, d), last, d);
      KeepsTrans(Assemble(ts, d), Assemble(ts + init, d), Assemble(ts + more, d));
    }
  }

  /** The rows built from a single token. */
  lemma {:induction false} AssembleOne(first: Token, d: char)
    ensures Assemble([first], d)
            == if StartsRow(first, d) then [[], [first.cell]] else [[first.cell]]
  {
    assert [first][..0] == [];
    var start: seq<seq<Cell>>, none: seq<Cell> := [[]], [];
    assert none + [first.cell] == [first.cell];
    assert start[..0] == [];
    assert start[..0] + [[first.cell]] == [[first.cell]];
  }

  /** The rows opened by a first token stay in place whatever tokens follow. */
  lemma {:induction false} FirstTokenRows(first: Token, rest: seq<Token>, d: char)
    ensures var rows := Assemble([first] + rest, d);
            if StartsRow(first, d) then
              |rows| >= 2 && rows[0] == [] && rows[1] != [] && rows[1][0] == first.cell
            else
              rows[0] != [] && rows[0][0] == first.cell
  {
    AssembleOne(first, d);
    AssembleKeeps([first], rest, d);
    var a, b := Assemble([first], d), Assemble([first] + rest, d);
    if StartsRow(first, d) {
      assert b[..1] == a[..1] == [[]];
      assert b[0] == b[..1][0];
      assert a[1] <= b[1];
    } else {
      assert a[0] <= b[0];
    }
  }

  // ---------------------------------------------------------------------------
  // The first match

  /** At a leading separator the first match captures that separator and then reads the
      field after it; the match is never empty, so the loop moves on. */
  lemma {:induction false} FirstMatchAtSeparator(s: string, d: char)
    requires s != "" && IsSeparatorChar(s[0], d)
    ensures var m := MatchedDelimiter(s, d, 0);
            var r := FieldAt(s, d, |m|);
            m != "" && Exec(s, d, 0) == Some(Match(Token(m, r.0), r.1)) && r.1 > 0
  {
  }

  /** The first token of a text opening with a separator. */
  lemma {:induction false} FirstTokenAtSeparator(s: string, d: char)
    requires s != "" && IsSeparatorChar(s[0], d)
    ensures Terminates(s, d)
    ensures var m := MatchedDelimiter(s, d, 0);
            var r := FieldAt(s, d, |m|);
            Rows(s, d) == Assemble([Token(m, r.0)] + Scan(s, d, r.1), d)
  {
    FirstMatchAtSeparator(s, d);
    var m := MatchedDelimiter(s, d, 0);
    var r := FieldAt(s, d, |m|);
    ScanAfterMatch(s, d, 0, Token(m, r.0), r.1);
  }

  // ---------------------------------------------------------------------------
  // The two behaviours

  /** A field delimiter at the start of the text is taken as the first match's delimiter:
      it does not start a row, and no cell is pushed for the empty field in front of it.
      The first cell of the first row is the field after the delimiter, so a header
      written `,b,c` names its first column `b` and every later name moves one column to
      the left of the data under it. */
  lemma {:induction false} LeadingDelimiter(s: string, d: char)
    requires s != "" && s[0] == d
    ensures Terminates(s, d)
    ensures Rows(s, d)[0] != [] && Rows(s, d)[0][0] == FieldAt(s, d, 1).0
  {
    FirstTokenAtSeparator(s, d);
    assert MatchedDelimiter(s, d, 0) == [d];
    var r := FieldAt(s, d, 1);
    FirstTokenRows(Token([d], r.0), Scan(s, d, r.1), d);
  }

  /** A line break at the start of the text is taken as the first match's delimiter and
      starts a row: the first row comes back empty, and the field after the break is the
      first cell of the second row. */
  lemma {:induction false} LeadingLineBreak(s: string, d: char)
    requires PlainDelimiter(d)
    requires s != "" && (s[0] == '\r' || s[0] == '\n')
    ensures Terminates(s, d)
    ensures var m := MatchedDelimiter(s, d, 0);
            IsLineBreak(m) && |Rows(s, d)| >= 2 && Rows(s, d)[0] == []
            && Rows(s, d)[1] != [] && Rows(s, d)[1][0] == FieldAt(s, d, |m|).0
  {
    FirstTokenAtSeparator(s, d);
    var m := MatchedDelimiter(s, d, 0);
    var r := FieldAt(s, d, |m|);
    assert StartsRow(Token(m, r.0), d);
    FirstTokenRows(Token(m, r.0), Scan(s, d, r.1), d);
  }

  // ---------------------------------------------------------------------------
  // Two small texts

  /** In both texts the field read at position 1 is `a`, ending the text. */
  lemma {:induction false} FieldOfA(s: string, d: char)
    requires |s| == 2 && s[1] == 'a' && d != 'a'
    ensures FieldAt(s, d, 1) == (Text("a"), 2)
  {
    assert UnquotedEnd(s, d, 2) == 2;
    assert UnquotedEnd(s, d, 1) == 2;
    assert s[1..2] == "a";
  }

  /** The rows of a two-character text whose first match takes the first character as its
      delimiter and `a` as its field. */
  lemma {:induction false} RowsOfA(s: string, d: char)
    requires |s| == 2 && IsSeparatorChar(s[0], d) && s[1] == 'a' && d != 'a'
    requires MatchedDelimiter(s, d, 0) == [s[0]]
    ensures Terminates(s, d) && Rows(s, d) == Assemble([Token([s[0]], Text("a"))], d)
  {
    FirstTokenAtSeparator(s, d);
    FieldOfA(s, d);
    ScanAtEnd(s, d, 2);
    assert [Token([s[0]], Text("a"))] + [] == [Token([s[0]], Text("a"))];
  }

  /** `CSVToArray(",a", ",")` returns one row holding only `a`: the empty cell in front of
      the comma is lost. */
  lemma {:induction false} LeadingDelimiterExample()
    ensures Terminates(",a", ',') && Rows(",a", ',') == [[Text("a")]]
  {
    assert MatchedDelimiter(",a", ',', 0) == [','];
    RowsOfA(",a", ',');
    AssembleOne(Token([','], Text("a")), ',');
  }

  /** `CSVToArray("\na", ",")` returns an empty first row and then a row holding `a`. */
  lemma {:induction false} LeadingLineBreakExample()
    ensures Terminates("\na", ',') && Rows("\na", ',') == [[], [Text("a")]]
  {
    assert MatchedDelimiter("\na", ',', 0) == ['\n'];
    RowsOfA("\na", ',');
    AssembleOne(Token(['\n'], Text("a")), ',');
  }
}
