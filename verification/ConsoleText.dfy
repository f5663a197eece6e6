/**
 What the console shows: the last 25 rows of everything printed since it was cleared,
 wrapped at 80 columns.
 */
module ConsoleText {
  import opened Bytes
  import opened Console
  import opened Sequences

  type Row = seq<Byte>

  // ---------------------------------------------------------------------------------
  // The layout of a whole text, by its lines
  // ---------------------------------------------------------------------------------

  /** One line of text as rows: full rows of 80, then what remains, which may be nothing. */
  function Wrapped(line: Row): (rows: seq<Row>)
    ensures |rows| == |line| / 80 + 1
    decreases |line|
  {
    if |line| < 80 then [line] else [line[..80]] + Wrapped(line[80..])
  }

  function LineLength(text: seq<Byte>): (n: nat)
    ensures n <= |text| && (n < |text| ==> IsNewline(text[n]))
    ensures forall k :: 0 <= k < n ==> !IsNewline(text[k])
  {
    if text == [] || IsNewline(text[0]) then 0 else 1 + LineLength(text[1..])
  }

  /** The rows of a text: every newline starts one, and every line is wrapped on its own. */
  function Layout(text: seq<Byte>): (rows: seq<Row>)
    ensures |rows| > 0
    decreases |text|
  {
    var n := LineLength(text);
    if n == |text| then Wrapped(text) else Wrapped(text[..n]) + Layout(text[n + 1..])
  }

  // ---------------------------------------------------------------------------------
  // The same rows, built character by character
  // ---------------------------------------------------------------------------------

  function Typed(rows: seq<Row>, c: Byte): (r: seq<Row>)
    requires |rows| > 0
    ensures |r| > 0
  {
    var n := |rows| - 1;
    if IsNewline(c) then rows + [[]]
    else if |rows[n]| == 79 then rows[..n] + [rows[n] + [c]] + [[]]
    else rows[..n] + [rows[n] + [c]]
  }

  function TypedAll(rows: seq<Row>, text: seq<Byte>): (r: seq<Row>)
    requires |rows| > 0
    ensures |r| > 0
    decreases |text|
  {
    if text == [] then rows else TypedAll(Typed(rows, text[0]), text[1..])
  }

  lemma {:induction false} TypedLine(above: seq<Row>, row: Row, line: Row, rest: seq<Byte>)
    requires |row| < 80 && forall k :: 0 <= k < |line| ==> !IsNewline(line[k])
    ensures TypedAll(above + [row], line + rest) == TypedAll(above + Wrapped(row + line), rest)
    decreases |line|
  {
    if line == [] {
      assert row + line == row && line + rest == rest;
      assert Wrapped(row) == [row];
    } else {
      var c, tail := line[0], line[1..];
      var longer := row + [c];
      assert (line + rest)[0] == c && (line + rest)[1..] == tail + rest;
      assert row + line == longer + tail;
      assert TypedAll(above + [row], line + rest) == TypedAll(Typed(above + [row], c), tail + rest);
      if |row| == 79 {
        var done := above + [longer];
        assert Typed(above + [row], c) == done + [[]];
        TypedLine(done, [], tail, rest);
        assert (longer + tail)[..80] == longer && (longer + tail)[80..] == tail && [] + tail == tail;
        assert Wrapped(longer + tail) == [longer] + Wrapped(tail);
        Regrouped(above, [longer], Wrapped(tail));
      } else {
        assert Typed(above + [row], c) == above + [longer];
        TypedLine(above, longer, tail, rest);
      }
    }
  }

  /** A line below some finished rows, and the newline behind it. */
  lemma TypedBreak(above: seq<Row>, line: Row, rest: seq<Byte>)
    requires rest != [] && IsNewline(rest[0]) && forall k :: 0 <= k < |line| ==> !IsNewline(line[k])
    ensures TypedAll(above + [[]], line + rest) == TypedAll(above + Wrapped(line) + [[]], rest[1..])
  {
    assert [] + line == line;
    TypedLine(above, [], line, rest);
  }

  lemma TypedLast(above: seq<Row>, line: Row)
    requires forall k :: 0 <= k < |line| ==> !IsNewline(line[k])
    ensures TypedAll(above + [[]], line) == above + Wrapped(line)
  {
    assert [] + line == line && line + [] == line;
    TypedLine(above, [], line, []);
  }

  lemma Lines(text: seq<Byte>, n: nat)
    requires n < |text|
    ensures text[..n] + text[n..] == text && text[n..][1..] == text[n + 1..] && text[n..][0] == text[n]
  {}

  /** Typing a text below some finished rows appends its layout to them. */
  lemma {:induction false} TypedIsLayout(above: seq<Row>, text: seq<Byte>)
    ensures TypedAll(above + [[]], text) == above + Layout(text)
    decreases |text|
  {
    var n := LineLength(text);
    if n == |text| {
      TypedLast(above, text);
    } else {
      Lines(text, n);
      TypedBreak(above, text[..n], text[n..]);
      TypedIsLayout(above + Wrapped(text[..n]), text[n + 1..]);
      Regrouped(above, Wrapped(text[..n]), Layout(text[n + 1..]));
    }
  }

  // ---------------------------------------------------------------------------------
  // The screen shows the last 25 rows
  // ---------------------------------------------------------------------------------

  /** The row of the log on the top line of the screen. */
  function Top(rows: seq<Row>): nat { if |rows| > 25 then |rows| - 25 else 0 }

  /**
   What belongs at a column of a row. Rows past the 25th were brought in by scroll, whose
   blanks are 0; the others were cleared to spaces.
   */
  function CellOf(rows: seq<Row>, row: nat, column: nat): Cell {
    if row < |rows| && column < |rows[row]| then Cell(rows[row][column], 0x7)
    else if row < 25 then Cell(32, 0x7) else Cell(0, 0x7)
  }

  ghost predicate Shows(s: Screen, rows: seq<Row>) {
    && s.Inside() && |rows| > 0
    && s.y == |rows| - 1 - Top(rows) && s.x == |rows[|rows| - 1]|
    && forall k :: 0 <= k < 2000 ==> s.cells[k] == CellOf(rows, Top(rows) + k / 80, k % 80)
  }

  /** How many rows the log moves up the screen. */
  function Lifted(rows: seq<Row>, c: Byte): nat
    requires |rows| > 0
  {
    if Top(Typed(rows, c)) == Top(rows) then 0 else 1
  }

  lemma ShowsAt(s: Screen, rows: seq<Row>, r: nat, column: nat)
    requires Shows(s, rows) && r < 25 && column < 80
    ensures s.cells[80 * r + column] == CellOf(rows, Top(rows) + r, column)
  {
    assert (80 * r + column) / 80 == r && (80 * r + column) % 80 == column;
  }

  lemma CursorShows(s: Screen, rows: seq<Row>, c: Byte)
    requires Shows(s, rows) && (IsOrdinary(c) || IsNewline(c))
    ensures var (t, next) := (Put(s, c), Typed(rows, c));
      t.Inside() && t.y == |next| - 1 - Top(next) && t.x == |next[|next| - 1]|
  {}

  lemma NewlineShows(s: Screen, rows: seq<Row>, c: Byte, r: nat, column: nat)
    requires Shows(s, rows) && IsNewline(c) && r < 25 && column < 80
    ensures Put(s, c).cells[80 * r + column] == CellOf(Typed(rows, c), Top(Typed(rows, c)) + r, column)
  {
    var up := r + Lifted(rows, c);
    if up < 25 { ShowsAt(s, rows, up, column); }
  }

  /** An ordinary character on the screen, row by row. */
  lemma OrdinaryCell(s: Screen, c: Byte, r: nat, column: nat)
    requires s.Inside() && IsOrdinary(c) && r < 25 && column < 80
    ensures var up := if s.x == 79 && s.y == 24 then r + 1 else r;
      Put(s, c).cells[80 * r + column] ==
        if up == s.y && column == s.x then Cell(c, ATTRIB) else if up < 25 then s.cells[80 * up + column] else ERASED
  {}

  /** And in the log. */
  lemma OrdinaryTyped(rows: seq<Row>, c: Byte, r: nat, column: nat)
    requires |rows| > 0 && |rows[|rows| - 1]| < 80 && IsOrdinary(c) && r < 25 && column < 80
    ensures var (next, up) := (Typed(rows, c), r + Lifted(rows, c));
      CellOf(next, Top(next) + r, column) ==
        if Top(rows) + up == |rows| - 1 && column == |rows[|rows| - 1]| then Cell(c, ATTRIB)
        else if up < 25 then CellOf(rows, Top(rows) + up, column) else ERASED
  {}

  lemma OrdinaryShows(s: Screen, rows: seq<Row>, c: Byte, r: nat, column: nat)
    requires Shows(s, rows) && IsOrdinary(c) && r < 25 && column < 80
    ensures Put(s, c).cells[80 * r + column] == CellOf(Typed(rows, c), Top(Typed(rows, c)) + r, column)
  {
    var up := r + Lifted(rows, c);
    assert Lifted(rows, c) == if s.x == 79 && s.y == 24 then 1 else 0;
    if up < 25 { ShowsAt(s, rows, up, column); }
    OrdinaryCell(s, c, r, column);
    OrdinaryTyped(rows, c, r, column);
  }

  lemma PutShows(s: Screen, rows: seq<Row>, c: Byte)
    requires Shows(s, rows) && (IsOrdinary(c) || IsNewline(c))
    ensures Shows(Put(s, c), Typed(rows, c))
  {
    CursorShows(s, rows, c);
    forall k | 0 <= k < 2000
      ensures Put(s, c).cells[k] == CellOf(Typed(rows, c), Top(Typed(rows, c)) + k / 80, k % 80)
    {
      if IsNewline(c) {
        NewlineShows(s, rows, c, k / 80, k % 80);
      } else {
        OrdinaryShows(s, rows, c, k / 80, k % 80);
      }
    }
  }

  lemma {:induction false} RunShows(s: Screen, rows: seq<Row>, text: seq<Byte>)
    requires Shows(s, rows) && forall k :: 0 <= k < |text| ==> IsOrdinary(text[k]) || IsNewline(text[k])
    ensures Stays(s, text) && Shows(Run(s, text), TypedAll(rows, text))
    decreases |text|
  {
    if text != [] {
      PutShows(s, rows, text[0]);
      RunShows(Put(s, text[0]), Typed(rows, text[0]), text[1..]);
    }
  }

  /**
   After a clear, any text of ordinary characters and newlines, however long, leaves the
   cursor on the screen and the last 25 rows of its layout in view.
   */
  lemma ConsoleShowsText(page: seq<Cell>, text: seq<Byte>)
    requires |page| == 2048
    requires forall k :: 0 <= k < |text| ==> IsOrdinary(text[k]) || IsNewline(text[k])
    ensures var cleared := Screen(Fill(page, 0, 2000, CLEARED), 0, 0);
      Stays(cleared, text) && Shows(Run(cleared, text), Layout(text))
  {
    ClearedShows(page);
    var none: seq<Row> := [];
    RunShows(Screen(Fill(page, 0, 2000, CLEARED), 0, 0), none + [[]], text);
    TypedIsLayout(none, text);
    assert none + Layout(text) == Layout(text);
  }

  lemma ClearedShows(page: seq<Cell>)
    requires |page| == 2048
    ensures Shows(Screen(Fill(page, 0, 2000, CLEARED), 0, 0), [] + [[]])
  {}

  // ---------------------------------------------------------------------------------
  // Tabs
  // ---------------------------------------------------------------------------------

  /** A tab is filled up with spaces to the next column that is a multiple of four. */
  function Spaced(c: Byte, column: nat): seq<Byte> {
    if c == 9 then seq(4 - column % 4, _ => 32) else [c]
  }

  function ColumnAfter(c: Byte, column: nat): nat {
    if c == 9 then column + 4 - column % 4 else if IsNewline(c) || column == 79 then 0 else column + 1
  }

  /** The text with spaces for its tabs. */
  function Expanded(text: seq<Byte>, column: nat): seq<Byte>
    decreases |text|
  {
    if text == [] then []
    else Spaced(text[0], column) + Expanded(text[1..], ColumnAfter(text[0], column))
  }

  /** The same cursor and the same characters, whatever the attributes. */
  predicate SameCharacters(s: Screen, t: Screen) {
    s.Inside() && t.Inside() && s.x == t.x && s.y == t.y && forall k :: 0 <= k < 2000 ==> s.cells[k].ch == t.cells[k].ch
  }

  lemma SameAfterPut(s: Screen, t: Screen, c: Byte)
    requires SameCharacters(s, t) && (IsOrdinary(c) || IsNewline(c))
    ensures SameCharacters(Put(s, c), Put(t, c))
  {
    var (r, q) := (Put(s, c), Put(t, c));
    forall k | 0 <= k < 2000 ensures r.cells[k].ch == q.cells[k].ch {
      if k < 1920 { assert s.cells[k + 80].ch == t.cells[k + 80].ch; }
    }
  }

  /** Spaces that stay in the row. */
  lemma {:induction false} SpacesInRow(t: Screen, n: nat)
    requires t.Inside() && t.x + n < 80
    ensures FitsAll(t, seq(n, _ => 32))
    ensures var r := Run(t, seq(n, _ => 32));
      && r.x == t.x + n && r.y == t.y
      && forall k :: 0 <= k < 2048 ==> r.cells[k] == if t.Offset() <= k < t.Offset() + n then Cell(32, 0x7) else t.cells[k]
    decreases n
  {
    if n > 0 {
      assert seq(n, _ => 32)[1..] == seq(n - 1, _ => 32);
      SpacesInRow(Put(t, 32), n - 1);
    }
  }

  predicate IsText(text: seq<Byte>) {
    forall k :: 0 <= k < |text| ==> IsOrdinary(text[k]) || IsNewline(text[k]) || text[k] == TABULATOR
  }

  lemma SameStep(s: Screen, t: Screen, c: Byte)
    requires SameCharacters(s, t) && IsText([c]) && (c == TABULATOR ==> s.x < 76)
    ensures Put(s, c).Inside() && Put(s, c).x == ColumnAfter(c, s.x)
    ensures FitsAll(t, Spaced(c, s.x)) && SameCharacters(Put(s, c), Run(t, Spaced(c, s.x)))
  {
    assert [c][0] == c && [c][1..] == [];
    if c == TABULATOR {
      SpacesInRow(t, 4 - s.x % 4);
    } else {
      SameAfterPut(s, t, c);
      assert Run(t, [c]) == Put(t, c);
    }
  }

  lemma ExpandedPlain(text: seq<Byte>, column: nat)
    requires IsText(text)
    ensures forall k :: 0 <= k < |Expanded(text, column)| ==> IsOrdinary(Expanded(text, column)[k]) || IsNewline(Expanded(text, column)[k])
    decreases |text|
  {}

  /** A text with tabs shows the same characters as the text without them. */
  lemma {:induction false} RunExpanded(s: Screen, t: Screen, text: seq<Byte>)
    requires SameCharacters(s, t) && NoLateTab(s, text) && IsText(text)
    ensures Stays(s, text) && FitsAll(t, Expanded(text, s.x))
    ensures SameCharacters(Run(s, text), Run(t, Expanded(text, s.x)))
    decreases |text|
  {
    if text != [] {
      var (c, rest) := (text[0], text[1..]);
      assert IsText([c]);
      SameStep(s, t, c);
      var u := Run(t, Spaced(c, s.x));
      RunExpanded(Put(s, c), u, rest);
      RunSplit(t, Spaced(c, s.x), Expanded(rest, ColumnAfter(c, s.x)));
    }
  }

  /** The last 25 rows of a log, character by character, and the cursor behind it. */
  ghost predicate ShowsCharacters(s: Screen, rows: seq<Row>) {
    && s.Inside() && |rows| > 0
    && s.y == |rows| - 1 - Top(rows) && s.x == |rows[|rows| - 1]|
    && forall k :: 0 <= k < 2000 ==> s.cells[k].ch == CellOf(rows, Top(rows) + k / 80, k % 80).ch
  }

  /**
   After a clear, any text of characters, newlines and tabs, none of them in the last four
   columns, shows the last 25 rows of the layout in which tabs are spaces.
   */
  lemma ConsoleShowsTabs(page: seq<Cell>, text: seq<Byte>)
    requires |page| == 2048
    requires IsText(text)
    requires NoLateTab(Screen(Fill(page, 0, 2000, CLEARED), 0, 0), text)
    ensures var cleared := Screen(Fill(page, 0, 2000, CLEARED), 0, 0);
      Stays(cleared, text) && ShowsCharacters(Run(cleared, text), Layout(Expanded(text, 0)))
  {
    var cleared := Screen(Fill(page, 0, 2000, CLEARED), 0, 0);
    ExpandedPlain(text, 0);
    ConsoleShowsText(page, Expanded(text, 0));
    RunExpanded(cleared, cleared, text);
  }
}
