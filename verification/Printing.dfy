/**
 putc of student-distrib/lib.c on the video pages as they lie in memory: a byte that falls
 behind the page that is printed on lands in the next one.
 */
module Printing {
  import opened Bytes
  import opened Console

  /** Four pages: the one on display, and the backup page of each terminal. */
  predicate FourPages(pages: seq<seq<Cell>>) {
    |pages| == 4 && forall i :: 0 <= i < 4 ==> |pages[i]| == 2048
  }

  /** What is mapped from 0xB9000 on: the page on display and the backup pages. */
  const BEHIND: seq<nat> := [0, 1, 2, 3]

  /** What is mapped from 0xB8000 on while that address leads to page slot. */
  function Strip(slot: nat): (strip: seq<nat>)
    requires slot < 4
    ensures IsStrip(strip) && strip[0] == slot
  {
    [slot] + BEHIND
  }

  predicate IsStrip(strip: seq<nat>) { strip != [] && forall i :: 0 <= i < |strip| ==> strip[i] < 4 }

  /** Cell j counted from video_mem is cell k of page q. */
  predicate Lands(strip: seq<nat>, j: nat, q: nat, k: nat) {
    j / 2048 < |strip| && strip[j / 2048] == q && j % 2048 == k
  }

  function CellAt(pages: seq<seq<Cell>>, strip: seq<nat>, j: nat): Cell
    requires FourPages(pages) && IsStrip(strip) && j < 2048 * |strip|
  {
    pages[strip[j / 2048]][j % 2048]
  }

  function SetCell(pages: seq<seq<Cell>>, strip: seq<nat>, j: nat, c: Cell): (r: seq<seq<Cell>>)
    requires FourPages(pages) && IsStrip(strip) && j < 2048 * |strip|
    ensures FourPages(r)
  {
    pages[strip[j / 2048] := pages[strip[j / 2048]][j % 2048 := c]]
  }

  /** The n cells from j on. */
  function SetCells(pages: seq<seq<Cell>>, strip: seq<nat>, j: nat, n: nat, c: Cell): (r: seq<seq<Cell>>)
    requires FourPages(pages) && IsStrip(strip) && j + n <= 2048 * |strip|
    ensures FourPages(r)
    decreases n
  {
    if n == 0 then pages else SetCells(SetCell(pages, strip, j, c), strip, j + 1, n - 1, c)
  }

  /** The loop of a backspace: erases up to count cells before j, as long as they are a tab's. */
  function EraseBehind(pages: seq<seq<Cell>>, strip: seq<nat>, j: nat, count: nat): (r: (seq<seq<Cell>>, nat))
    requires FourPages(pages) && IsStrip(strip) && 0 < count < j <= 2048 * |strip|
    ensures FourPages(r.0) && 1 <= r.1 <= count
    decreases j
  {
    var erased := SetCell(pages, strip, j - 1, ERASED);
    if count == 1 || CellAt(erased, strip, j - 2).attr != TAB then (erased, 1)
    else
      var (rest, n) := EraseBehind(erased, strip, j - 1, count - 1);
      (rest, n + 1)
  }

  datatype Printed = Printed(pages: seq<seq<Cell>>, x: nat, y: nat, exit: Exit)

  /** The byte falls in a page that is mapped. */
  predicate InReach(strip: seq<nat>, x: nat, y: nat, c: Byte) {
    y < 25 && (IsNewline(c) || 80 * y + x < 2048 * |strip| || (c == BACKSPACE && 80 * y + x == 2048 * |strip|))
  }

  lemma GroupInStrip(offset: nat, length: nat)
    requires offset < 2048 * length
    ensures offset + 4 - offset % 4 <= 2048 * length
  {}

  /** A tab behind the page. Pages hold whole groups of four. */
  function SpillTab(pages: seq<seq<Cell>>, strip: seq<nat>, offset: nat): (r: seq<seq<Cell>>)
    requires FourPages(pages) && IsStrip(strip) && offset < 2048 * |strip|
    ensures FourPages(r)
  {
    GroupInStrip(offset, |strip|);
    SetCells(pages, strip, offset, 4 - offset % 4, Cell(SPACE, TAB))
  }

  function EraseLimit(pages: seq<seq<Cell>>, strip: seq<nat>, offset: nat): (count: nat)
    requires FourPages(pages) && IsStrip(strip) && 0 < offset <= 2048 * |strip|
    ensures count == 1 || count == 4
  {
    if CellAt(pages, strip, offset - 1).attr == TAB then 4 else 1
  }

  /** A backspace behind the page: what it leaves, and how many cells it takes. */
  function SpillBackspace(pages: seq<seq<Cell>>, strip: seq<nat>, offset: nat): (r: (seq<seq<Cell>>, nat))
    requires FourPages(pages) && IsStrip(strip) && 4 < offset <= 2048 * |strip|
    ensures FourPages(r.0) && 1 <= r.1 <= 4
  {
    EraseBehind(pages, strip, offset, EraseLimit(pages, strip, offset))
  }

  /** A byte behind the page that is printed on. */
  function Spill(pages: seq<seq<Cell>>, strip: seq<nat>, x: nat, y: nat, c: Byte): (r: Printed)
    requires FourPages(pages) && IsStrip(strip) && y < 25 && !Fits(Screen(pages[strip[0]], x, y), c)
    ensures FourPages(r.pages) && r.y == y
  {
    var offset := 80 * y + x;
    if !InReach(strip, x, y, c) then Printed(pages, x, y, PageFault)
    else if c == BACKSPACE then
      var (erased, n) := SpillBackspace(pages, strip, offset);
      Printed(erased, x - n, y, Done)
    else if c == TABULATOR then
      Printed(SpillTab(pages, strip, offset), x + 4 - offset % 4, y, Done)
    else
      Printed(SetCell(pages, strip, offset, Cell(c, ATTRIB)), x + 1, y, Done)
  }

  /** putc with video_mem at the first page of the strip. */
  function PrintOn(pages: seq<seq<Cell>>, strip: seq<nat>, front: Front, x: nat, y: nat, c: Byte): (r: Printed)
    requires FourPages(pages) && IsStrip(strip) && y < 25
    ensures FourPages(r.pages) && r.y < 25
  {
    var page := Screen(pages[strip[0]], x, y);
    if Fits(page, c) then
      var r := Put(page, c);
      Printed(pages[strip[0] := r.cells], r.x, r.y, PutExit(page, front, c))
    else
      Spill(pages, strip, x, y, c)
  }

  // ---------------------------------------------------------------------------------
  // Where a byte lands
  // ---------------------------------------------------------------------------------

  /** The byte falls behind the page that is printed on, in one that is mapped. */
  predicate Spills(pages: seq<seq<Cell>>, strip: seq<nat>, x: nat, y: nat, c: Byte) {
    && FourPages(pages) && IsStrip(strip) && y < 25
    && !Fits(Screen(pages[strip[0]], x, y), c) && InReach(strip, x, y, c)
  }

  /** The cells, counted from video_mem, that a byte behind the page is written to, and with what. */
  datatype Trace = Trace(lo: nat, hi: nat, cell: Cell)

  function Traced(pages: seq<seq<Cell>>, strip: seq<nat>, x: nat, y: nat, c: Byte): Trace
    requires Spills(pages, strip, x, y, c)
  {
    var offset := 80 * y + x;
    if c == BACKSPACE then
      Trace(offset - SpillBackspace(pages, strip, offset).1, offset, ERASED)
    else if c == TABULATOR then Trace(offset, offset + 4 - offset % 4, Cell(SPACE, TAB))
    else Trace(offset, offset + 1, Cell(c, ATTRIB))
  }

  /** Page cell (q, k) is one of them. */
  predicate Hit(strip: seq<nat>, lo: nat, hi: nat, q: nat, k: nat) {
    exists j :: lo <= j < hi && Lands(strip, j, q, k)
  }

  lemma {:induction false} SetCellsAt(pages: seq<seq<Cell>>, strip: seq<nat>, j: nat, n: nat, c: Cell, q: nat, k: nat)
    requires FourPages(pages) && IsStrip(strip) && j + n <= 2048 * |strip| && q < 4 && k < 2048
    ensures SetCells(pages, strip, j, n, c)[q][k] == if Hit(strip, j, j + n, q, k) then c else pages[q][k]
    decreases n
  {
    if n > 0 {
      var once := SetCell(pages, strip, j, c);
      SetCellsAt(once, strip, j + 1, n - 1, c, q, k);
      assert once[q][k] == if Lands(strip, j, q, k) then c else pages[q][k];
      assert Hit(strip, j, j + n, q, k) <==> Lands(strip, j, q, k) || Hit(strip, j + 1, j + n, q, k);
    }
  }

  lemma SetCellAt(pages: seq<seq<Cell>>, strip: seq<nat>, j: nat, c: Cell, q: nat, k: nat)
    requires FourPages(pages) && IsStrip(strip) && j < 2048 * |strip| && q < 4 && k < 2048
    ensures SetCell(pages, strip, j, c)[q][k] == if Lands(strip, j, q, k) then c else pages[q][k]
  {}

  lemma HitMore(strip: seq<nat>, lo: nat, hi: nat, q: nat, k: nat)
    requires lo < hi
    ensures Hit(strip, lo, hi, q, k) <==> Lands(strip, hi - 1, q, k) || Hit(strip, lo, hi - 1, q, k)
  {}

  lemma {:induction false} EraseBehindAt(pages: seq<seq<Cell>>, strip: seq<nat>, j: nat, count: nat, q: nat, k: nat)
    requires FourPages(pages) && IsStrip(strip) && 0 < count < j <= 2048 * |strip| && q < 4 && k < 2048
    ensures var (r, n) := EraseBehind(pages, strip, j, count);
      r[q][k] == if Hit(strip, j - n, j, q, k) then ERASED else pages[q][k]
    decreases count
  {
    var erased := SetCell(pages, strip, j - 1, ERASED);
    SetCellAt(pages, strip, j - 1, ERASED, q, k);
    HitMore(strip, j - EraseBehind(pages, strip, j, count).1, j, q, k);
    if count > 1 && CellAt(erased, strip, j - 2).attr == TAB {
      EraseBehindAt(erased, strip, j - 1, count - 1, q, k);
    }
  }

  lemma HitOne(strip: seq<nat>, j: nat, q: nat, k: nat)
    ensures Hit(strip, j, j + 1, q, k) <==> Lands(strip, j, q, k)
  {}

  /** A byte behind the page changes the cells that it lands on and no other. */
  lemma SpillAt(pages: seq<seq<Cell>>, strip: seq<nat>, x: nat, y: nat, c: Byte, q: nat, k: nat)
    requires Spills(pages, strip, x, y, c) && q < 4 && k < 2048
    ensures var w := Traced(pages, strip, x, y, c);
      var cell := if c == 8 then Cell(0, 0x7) else if c == 9 then Cell(32, 0xF) else Cell(c, 0x7);
      Spill(pages, strip, x, y, c).pages[q][k] == if Hit(strip, w.lo, w.hi, q, k) then cell else pages[q][k]
  {
    if c == BACKSPACE {
      SpillBackspaceAt(pages, strip, x, y, q, k);
    } else if c == TABULATOR {
      SpillTabAt(pages, strip, 80 * y + x, q, k);
    } else {
      HitOne(strip, 80 * y + x, q, k);
      SetCellAt(pages, strip, 80 * y + x, Cell(c, ATTRIB), q, k);
    }
  }

  lemma SpillTabAt(pages: seq<seq<Cell>>, strip: seq<nat>, offset: nat, q: nat, k: nat)
    requires FourPages(pages) && IsStrip(strip) && offset < 2048 * |strip| && q < 4 && k < 2048
    ensures SpillTab(pages, strip, offset)[q][k] ==
      if Hit(strip, offset, offset + 4 - offset % 4, q, k) then Cell(SPACE, TAB) else pages[q][k]
  {
    GroupInStrip(offset, |strip|);
    SetCellsAt(pages, strip, offset, 4 - offset % 4, Cell(SPACE, TAB), q, k);
  }

  lemma SpillBackspaceAt(pages: seq<seq<Cell>>, strip: seq<nat>, x: nat, y: nat, q: nat, k: nat)
    requires Spills(pages, strip, x, y, BACKSPACE) && q < 4 && k < 2048
    ensures var w := Traced(pages, strip, x, y, BACKSPACE);
      Spill(pages, strip, x, y, BACKSPACE).pages[q][k] == if Hit(strip, w.lo, w.hi, q, k) then w.cell else pages[q][k]
  {
    var offset := 80 * y + x;
    EraseBehindAt(pages, strip, offset, EraseLimit(pages, strip, offset), q, k);
  }

  lemma OtherCell(pages: seq<seq<Cell>>, strip: seq<nat>, i: nat, j: nat, c: Cell)
    requires FourPages(pages) && IsStrip(strip) && i < j < i + 2048 && j < 2048 * |strip|
    ensures CellAt(SetCell(pages, strip, j, c), strip, i) == CellAt(pages, strip, i)
  {
    SetCellAt(pages, strip, j, c, strip[i / 2048], i % 2048);
  }

  /** The loop of a backspace stops after count cells, or in front of a cell that is not a tab's. */
  lemma {:induction false} EraseRun(pages: seq<seq<Cell>>, strip: seq<nat>, j: nat, count: nat)
    requires FourPages(pages) && IsStrip(strip) && 0 < count < j <= 2048 * |strip| && count <= 4
    ensures var n := EraseBehind(pages, strip, j, count).1;
      && (forall i :: j - n <= i < j - 1 ==> CellAt(pages, strip, i).attr == 0xF)
      && (n < count ==> CellAt(pages, strip, j - n - 1).attr != 0xF)
    decreases count
  {
    var erased := SetCell(pages, strip, j - 1, ERASED);
    OtherCell(pages, strip, j - 2, j - 1, ERASED);
    if count > 1 && CellAt(erased, strip, j - 2).attr == TAB {
      EraseRun(erased, strip, j - 1, count - 1);
      forall i | j - 1 - count <= i < j - 2 ensures CellAt(erased, strip, i) == CellAt(pages, strip, i) {
        OtherCell(pages, strip, i, j - 1, ERASED);
      }
    }
  }

  /**
   Which cells these are: one for a character, those up to the next multiple of four for a tab,
   and for a backspace the last character or as much of a run of four tab cells as there is.
   The cursor moves by as many columns.
   */
  lemma SpillCells(pages: seq<seq<Cell>>, strip: seq<nat>, x: nat, y: nat, c: Byte)
    requires Spills(pages, strip, x, y, c)
    ensures var (p, w, offset) := (Spill(pages, strip, x, y, c), Traced(pages, strip, x, y, c), 80 * y + x);
      && p.y == y && p.exit == Done && w.lo < w.hi <= w.lo + 4
      && if c == 8 then
           && w.hi == offset && p.x == x - (w.hi - w.lo)
           && (forall i :: w.lo <= i < w.hi - 1 ==> CellAt(pages, strip, i).attr == 0xF)
           && (CellAt(pages, strip, offset - 1).attr != 0xF ==> w.lo == offset - 1)
           && (CellAt(pages, strip, offset - 1).attr == 0xF && w.hi < w.lo + 4 ==> CellAt(pages, strip, w.lo - 1).attr != 0xF)
         else
           w.lo == offset && p.x == x + (w.hi - w.lo) && if c == 9 then w.hi % 4 == 0 else w.hi == offset + 1
  {
    var offset := 80 * y + x;
    if c == BACKSPACE { EraseRun(pages, strip, offset, EraseLimit(pages, strip, offset)); }
  }

  /** What the cells of a page hold already where the byte lands. */
  predicate Harmless(pages: seq<seq<Cell>>, strip: seq<nat>, w: Trace, q: nat)
    requires FourPages(pages) && q < 4
  {
    forall j :: w.lo <= j < w.hi && Lands(strip, j, q, j % 2048) ==> pages[q][j % 2048] == w.cell
  }

  /** What a character or a tab puts into a cell. */
  function Ink(c: Byte): Cell { if c == TABULATOR then Cell(SPACE, TAB) else Cell(c, ATTRIB) }

  /** The cells of the next page that a character or a tab at an offset up to a page behind lands on. */
  predicate NextPageHas(cells: seq<Cell>, offset: nat, c: Byte)
    requires |cells| == 2048 && 2048 <= offset < 4096
  {
    var n := if c == TABULATOR then 4 - offset % 4 else 1;
    forall k :: offset - 2048 <= k < offset - 2048 + n ==> cells[k] == Ink(c)
  }

  lemma NextPageHarmless(pages: seq<seq<Cell>>, strip: seq<nat>, x: nat, y: nat, c: Byte, q: nat)
    requires FourPages(pages) && IsStrip(strip) && |strip| > 1 && y < 25 && q < 4
    requires (IsOrdinary(c) || c == TABULATOR) && 2048 <= 80 * y + x < 4096
    ensures Spills(pages, strip, x, y, c)
    ensures Harmless(pages, strip, Traced(pages, strip, x, y, c), q)
      <==> (strip[1] == q ==> NextPageHas(pages[q], 80 * y + x, c))
  {
    var w := Traced(pages, strip, x, y, c);
    forall j | w.lo <= j < w.hi ensures j / 2048 == 1 && j % 2048 == j - 2048 && (Lands(strip, j, q, j % 2048) <==> strip[1] == q) {}
    if strip[1] == q && Harmless(pages, strip, w, q) {
      forall k | w.lo - 2048 <= k < w.hi - 2048 ensures pages[q][k] == w.cell {
        assert Lands(strip, k + 2048, q, (k + 2048) % 2048);
      }
    }
  }

  /** A page stays as it is exactly when the byte lands elsewhere, or on cells that are what it makes of them. */
  lemma SpillSparesExactly(pages: seq<seq<Cell>>, strip: seq<nat>, x: nat, y: nat, c: Byte, q: nat)
    requires Spills(pages, strip, x, y, c) && q < 4
    ensures Spill(pages, strip, x, y, c).pages[q] == pages[q]
      <==> Harmless(pages, strip, Traced(pages, strip, x, y, c), q)
  {
    var (r, w) := (Spill(pages, strip, x, y, c).pages, Traced(pages, strip, x, y, c));
    if Harmless(pages, strip, w, q) {
      forall k | 0 <= k < 2048 ensures r[q][k] == pages[q][k] {
        SpillAt(pages, strip, x, y, c, q, k);
      }
    }
    if r[q] == pages[q] {
      forall j | w.lo <= j < w.hi && Lands(strip, j, q, j % 2048) ensures pages[q][j % 2048] == w.cell {
        SpillAt(pages, strip, x, y, c, q, j % 2048);
      }
    }
  }

  /** The page a byte behind the first one lands on: the one on display, then the backup pages in their order. */
  lemma PageBehind(slot: nat, j: nat)
    requires slot < 4 && 2048 <= j < 5 * 2048
    ensures |Strip(slot)| == 5
    ensures Lands(Strip(slot), j, if j < 2 * 2048 then 0 else if j < 3 * 2048 then 1 else if j < 4 * 2048 then 2 else 3, j % 2048)
  {}

  /** Behind the last page that is mapped every byte but a newline or a backspace faults, and so does what the handler prints. */
  lemma OutOfReach(pages: seq<seq<Cell>>, strip: seq<nat>, front: Front, x: nat, y: nat, c: Byte, d: Byte)
    requires FourPages(pages) && IsStrip(strip) && y < 25 && !InReach(strip, x, y, c) && IsOrdinary(d)
    ensures PrintOn(pages, strip, front, x, y, c) == Printed(pages, x, y, PageFault)
      == PrintOn(pages, strip, front, x, y, d)
  {}
}
