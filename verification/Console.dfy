/**
 The text console of student-distrib/lib.c: putc and scroll over one page of video memory.

 A page is 4096 bytes, seen as 2048 (character, attribute) pairs, of which the first
 80 * 25 are on the screen.
 */
module Console {
  import opened Bytes

  const BACKSPACE: Byte := 8
  const TABULATOR: Byte := 9
  const LINEFEED: Byte := 10
  const RETURN: Byte := 13

  datatype Cell = Cell(ch: Byte, attr: Byte)

  const ATTRIB: Byte := 0x7
  const TAB: Byte := 0xF
  const ERASED := Cell(NUL, ATTRIB)
  const CLEARED := Cell(SPACE, ATTRIB)

  // ---------------------------------------------------------------------------------
  // The console as a value
  // ---------------------------------------------------------------------------------

  /** A page together with the cursor, screen_x and screen_y. */
  datatype Screen = Screen(cells: seq<Cell>, x: nat, y: nat) {
    /** The cell under the cursor. */
    function Offset(): nat { 80 * y + x }

    predicate Inside() { |cells| == 2048 && x < 80 && y < 25 }

    /** Inside, or to the right of the screen, where a tab in the last columns puts the cursor. */
    predicate Paged() { |cells| == 2048 && y < 25 }

    /** No printed character: scroll leaves 0 behind, clear leaves a space. */
    static predicate Blank(c: Cell) { c == ERASED || c == CLEARED }

    /** From the cursor to the end of the screen there is nothing but blanks. */
    predicate BlankTail()
      requires |cells| == 2048
    {
      forall k :: Offset() <= k < 2000 ==> Blank(cells[k])
    }

    /** In every aligned group of four cells, those written by a tab form a suffix. */
    predicate TabSuffixes()
      requires |cells| == 2048
    {
      forall j, k :: 0 <= j < k < 2048 && j / 4 == k / 4 && cells[j].attr == TAB ==> cells[k].attr == TAB
    }

    /** No cell between the start of the cursor's group and the cursor was written by a tab. */
    predicate NoTabBefore()
      requires |cells| == 2048
    {
      forall k :: 0 <= k < 2048 && Offset() - Offset() % 4 <= k < Offset() ==> cells[k].attr != TAB
    }

    /** What every console satisfies whose page only putc and clear have written to. */
    predicate Tidy() { Paged() && TabSuffixes() && NoTabBefore() }

    /** A console whose cursor has stayed on the screen since it was cleared. */
    predicate Ok() { Inside() && BlankTail() }
  }

  function ScrolledCells(cells: seq<Cell>): (r: seq<Cell>)
    requires |cells| == 2048
    ensures |r| == 2048
  {
    seq(2048, k requires 0 <= k < 2048 =>
      if k < 1920 then cells[k + 80] else if k < 2000 then ERASED else cells[k])
  }

  /** Leaves the bottom line when the cursor has just stepped below it. */
  function Settle(s: Screen): (r: Screen)
    requires |s.cells| == 2048 && s.y <= 25
  {
    if s.y == 25 then Screen(ScrolledCells(s.cells), s.x, 24) else s
  }

  /** How many cells a backspace takes away when the cell before the cursor is a tab's. */
  function TabRun(cells: seq<Cell>, end: nat, limit: nat): (n: nat)
    requires end <= |cells|
    ensures n <= limit && n <= end
  {
    if limit == 0 || end == 0 || cells[end - 1].attr != TAB then 0
    else 1 + TabRun(cells, end - 1, limit - 1)
  }

  function EraseCount(s: Screen): (n: nat)
    requires s.Paged() && s.Offset() <= 2048
    ensures n <= s.Offset() && n <= 4
  {
    if s.Offset() == 0 then 0
    else if s.cells[s.Offset() - 1].attr == TAB then TabRun(s.cells, s.Offset(), 4)
    else 1
  }

  /** The loop of a backspace comes to the top left with cells still to take, and reads the attribute in front of the page. */
  predicate ReadsFront(s: Screen)
    requires s.Paged() && s.Offset() <= 2048
  {
    s.Offset() == 0 || (s.cells[s.Offset() - 1].attr == TAB && EraseCount(s) == s.Offset() < 4)
  }

  /** What lies in front of the page: memory that is not mapped, or a cell with some attribute. */
  datatype Front = Unmapped | Attribute(attr: Byte)

  /** How putc is left: at its end, at the return in its loop, or by a page fault. */
  datatype Exit = Done | EarlyReturn | PageFault

  function PutExit(s: Screen, front: Front, c: Byte): Exit
    requires Fits(s, c)
  {
    if c != BACKSPACE || !ReadsFront(s) then Done
    else if front.Unmapped? then PageFault
    else if s.Offset() == 0 || front.attr == TAB then EarlyReturn
    else Done
  }

  /** The cursor n places back, from the first column on to the end of the row above. */
  function Back(x: nat, y: nat, n: nat): (r: (nat, nat))
    requires n <= 80 * y + x && n <= 4
    ensures 80 * r.1 + r.0 == 80 * y + x - n && r.1 <= y
  {
    if n <= x then (x - n, y) else (x + 80 - n, y - 1)
  }

  function Fill(cells: seq<Cell>, from: nat, to: nat, c: Cell): (r: seq<Cell>)
    requires from <= to <= |cells|
    ensures |r| == |cells|
    ensures forall k :: 0 <= k < |cells| ==> r[k] == if from <= k < to then c else cells[k]
  {
    seq(|cells|, k requires 0 <= k < |cells| => if from <= k < to then c else cells[k])
  }

  function PutBackspace(s: Screen): Screen
    requires s.Paged() && s.Offset() <= 2048
  {
    var n := EraseCount(s);
    var (x, y) := Back(s.x, s.y, n);
    Screen(Fill(s.cells, s.Offset() - n, s.Offset(), ERASED), x, y)
  }

  /** As written: the tab fills its group of four and never moves to the next row. */
  function PutTab(s: Screen): Screen
    requires s.Paged() && s.Offset() < 2048
  {
    var n := 4 - s.Offset() % 4;
    Screen(Fill(s.cells, s.Offset(), s.Offset() + n, Cell(SPACE, TAB)), s.x + n, s.y)
  }

  function PutOrdinary(s: Screen, c: Byte): Screen
    requires s.Paged() && s.Offset() < 2048
  {
    var cells := s.cells[s.Offset() := Cell(c, ATTRIB)];
    if s.x == 79 then Settle(Screen(cells, 0, s.y + 1)) else Screen(cells, s.x + 1, s.y)
  }

  predicate IsNewline(c: Byte) { c == LINEFEED || c == RETURN }

  predicate IsOrdinary(c: Byte) { !IsNewline(c) && c != BACKSPACE && c != TABULATOR }

  /** putc writes to this page only; it does not look. Every byte fits when the cursor is on the screen. */
  predicate Fits(s: Screen, c: Byte) {
    s.Paged() && (IsNewline(c) || s.Offset() < 2048 || (c == BACKSPACE && s.Offset() == 2048))
  }

  /** What putc does to the page in front of it and to the cursor. */
  function Put(s: Screen, c: Byte): (r: Screen)
    requires Fits(s, c)
    ensures r.Paged()
  {
    if IsNewline(c) then Settle(Screen(s.cells, 0, s.y + 1))
    else if c == BACKSPACE then PutBackspace(s)
    else if c == TABULATOR then PutTab(s)
    else PutOrdinary(s, c)
  }

  // ---------------------------------------------------------------------------------
  // The code that updates the page in place
  // ---------------------------------------------------------------------------------

  class Video {
    var mem: array<Cell>
    var screenX: int
    var screenY: int

    ghost predicate Valid()
      reads this, mem
    {
      mem.Length == 2048 && 0 <= screenX && 0 <= screenY < 25
    }

    ghost function Now(): Screen
      reads this, mem
      requires 0 <= screenX && 0 <= screenY
    {
      Screen(mem[..], screenX, screenY)
    }

    constructor (page: array<Cell>)
      ensures mem == page && screenX == 0 && screenY == 0
    {
      mem, screenX, screenY := page, 0, 0;
    }

    /** The loop of clear. */
    method Blank()
      requires mem.Length == 2048
      modifies mem
      ensures mem[..] == Fill(old(mem[..]), 0, 2000, CLEARED)
    {
      for i := 0 to 2000
        invariant forall k :: 0 <= k < i ==> mem[k] == CLEARED
        invariant forall k :: i <= k < 2048 ==> mem[k] == old(mem[k])
      {
        mem[i] := CLEARED;
      }
    }

    /** clear, when the console being written is the one on display. */
    method Clear()
      requires mem.Length == 2048
      modifies this`screenX, this`screenY, mem
      ensures Valid()
      ensures Now() == Screen(Fill(old(mem[..]), 0, 2000, CLEARED), 0, 0)
    {
      Blank();
      screenX, screenY := 0, 0;
    }

    method Scroll()
      requires mem.Length == 2048 && 0 <= screenX && screenY == 25
      modifies this`screenY, mem
      ensures screenY == 24 && mem[..] == ScrolledCells(old(mem[..]))
    {
      var i := 0;
      while i < 1920
        modifies mem
        invariant 0 <= i <= 1920
        invariant forall k :: 0 <= k < i ==> mem[k] == old(mem[k + 80])
        invariant forall k :: i <= k < 2048 ==> mem[k] == old(mem[k])
      {
        mem[i] := mem[i + 80];
        i := i + 1;
      }
      while i < 2000
        modifies mem
        invariant 1920 <= i <= 2000
        invariant forall k :: 0 <= k < 1920 ==> mem[k] == old(mem[k + 80])
        invariant forall k :: 1920 <= k < i ==> mem[k] == ERASED
        invariant forall k :: i <= k < 2048 ==> mem[k] == old(mem[k])
      {
        mem[i] := ERASED;
        i := i + 1;
      }
      screenY := screenY - 1;
      assert mem[..] == ScrolledCells(old(mem[..]));
    }

    /** The backspace branch of putc: a tab goes in one stroke. */
    method Backspace(front: Front) returns (exit: Exit)
      requires Valid() && 80 * screenY + screenX <= 2048
      modifies this`screenX, this`screenY, mem
      ensures Valid() && Now() == PutBackspace(old(Now()))
      ensures exit == PutExit(old(Now()), front, BACKSPACE)
    {
      ghost var was := Now();
      TabRunShape(was.cells, was.Offset(), 4);
      var offset := 80 * screenY + screenX - 1;
      if offset < 0 {
        assert mem[..] == Fill(mem[..], 0, 0, ERASED);
        return if front.Unmapped? then PageFault else EarlyReturn;
      }
      var count := if mem[offset].attr == TAB then 4 else 1;
      exit := EraseBack(count, front, was.cells, EraseCount(was));
    }

    /** One place back, unless the cursor is at the top left. */
    method StepBack() returns (moved: bool)
      requires 0 <= screenX && 0 <= screenY
      modifies this`screenX, this`screenY
      ensures 0 <= screenX && 0 <= screenY && (moved <==> 80 * old(screenY) + old(screenX) > 0)
      ensures (screenX, screenY) == Back(old(screenX), old(screenY), if moved then 1 else 0)
    {
      if screenX != 0 {
        screenX := screenX - 1;
      } else if screenY != 0 {
        screenX := 79;
        screenY := screenY - 1;
      } else {
        return false;
      }
      return true;
    }

    /** The i cells before from are erased, and the others are as they were. */
    ghost predicate Gone(was: seq<Cell>, from: nat, i: nat)
      reads this, mem
    {
      mem.Length == |was| == 2048 && i <= from <= 2048 && mem[..] == Fill(was, from - i, from, ERASED)
    }

    method EraseOne(offset: nat, ghost was: seq<Cell>, ghost from: nat)
      requires offset < from && Gone(was, from, from - 1 - offset)
      modifies mem
      ensures Gone(was, from, from - offset)
    {
      mem[offset] := ERASED;
      assert mem[..] == Fill(was, offset, from, ERASED);
    }

    /** Reads the next attribute, which may be that in front of the page. */
    method IsTab(offset: int, front: Front, ghost was: seq<Cell>, ghost from: nat) returns (tab: bool, exit: Exit)
      requires -1 <= offset < from && Gone(was, from, from - 1 - offset)
      ensures exit == (if offset == -1 && front.Unmapped? then PageFault else Done)
      ensures tab <==> if offset >= 0 then was[offset].attr == TAB else front.Attribute? && front.attr == TAB
    {
      if offset >= 0 {
        assert mem[offset] == mem[..][offset];
        return mem[offset].attr == TAB, Done;
      }
      if front.Unmapped? { return false, PageFault; }
      return front.attr == TAB, Done;
    }

    /** The loop of that branch: stops after count cells, at a cell that is not a tab's, or at the top left. */
    method EraseBack(count: nat, front: Front, ghost was: seq<Cell>, ghost n: nat) returns (exit: Exit)
      requires Valid() && mem[..] == was && 0 < 80 * screenY + screenX <= 2048
      requires 0 < n <= 80 * screenY + screenX && n <= count <= 4
      requires forall k :: 80 * screenY + screenX - n <= k < 80 * screenY + screenX - 1 ==> was[k].attr == TAB
      requires n < count && n < 80 * screenY + screenX ==> was[80 * screenY + screenX - n - 1].attr != TAB
      modifies this`screenX, this`screenY, mem
      ensures Valid() && (screenX, screenY) == Back(old(screenX), old(screenY), n)
      ensures Gone(was, 80 * old(screenY) + old(screenX), n)
      ensures exit ==
        if n == count || n < 80 * old(screenY) + old(screenX) then Done
        else if front.Unmapped? then PageFault else if front.attr == TAB then EarlyReturn else Done
    {
      ghost var from := 80 * screenY + screenX;
      var offset, i := 80 * screenY + screenX - 1, 0;
      exit := Done;
      assert was == Fill(was, from, from, ERASED);
      while true
        invariant 0 <= i <= n && offset == from - 1 - i && exit == Done
        invariant i == n ==> offset == -1 && n < count && front.Attribute? && front.attr == TAB
        invariant 0 <= screenX && 0 <= screenY < 25 && (screenX, screenY) == Back(old(screenX), old(screenY), i)
        invariant Gone(was, from, i)
        decreases count - i
      {
        var moved := StepBack();
        if !moved {
          exit := EarlyReturn;
          break;
        }
        EraseOne(offset, was, from);
        i := i + 1;
        if i >= count { break; }
        offset := offset - 1;
        var more;
        more, exit := IsTab(offset, front, was, from);
        if !more { break; }
      }
    }

    /** The tab branch of putc. */
    method Tabulate()
      requires Valid() && 80 * screenY + screenX < 2048
      modifies this`screenX, mem
      ensures Valid() && Now() == PutTab(old(Now()))
      ensures screenY == old(screenY) && old(screenX) < screenX <= old(screenX) + 4 && (80 * screenY + screenX) % 4 == 0
      ensures forall k :: 80 * screenY + old(screenX) <= k < 80 * screenY + screenX ==> mem[k].ch == 32 && mem[k].attr == 0xF
      ensures forall k :: 0 <= k < 2048 && !(80 * screenY + old(screenX) <= k < 80 * screenY + screenX) ==> mem[k] == old(mem[k])
    {
      ghost var was := Now();
      var offset := 80 * screenY + screenX;
      var count := 4 - offset % 4;
      var i := 0;
      while i < count
        invariant 0 <= i <= count && offset == was.Offset() + i && screenX == was.x + i
        invariant forall k :: 0 <= k < 2048 ==>
          mem[k] == if was.Offset() <= k < offset then Cell(SPACE, TAB) else was.cells[k]
      {
        mem[offset] := Cell(SPACE, TAB);
        screenX := screenX + 1;
        i, offset := i + 1, offset + 1;
      }
      assert mem[..] == Fill(was.cells, was.Offset(), offset, Cell(SPACE, TAB));
    }

    /** putc, without the copy of the cursor into the terminal table. */
    method Putc(c: Byte, front: Front) returns (exit: Exit)
      requires Valid() && Fits(Now(), c)
      modifies this`screenX, this`screenY, mem
      ensures Valid() && Now() == Put(old(Now()), c) && exit == PutExit(old(Now()), front, c)
    {
      exit := Done;
      if c == LINEFEED || c == RETURN {
        screenY := screenY + 1;
        screenX := 0;
        if screenY == 25 { Scroll(); }
      } else if c == BACKSPACE {
        exit := Backspace(front);
      } else if c == TABULATOR {
        Tabulate();
      } else {
        mem[80 * screenY + screenX] := Cell(c, ATTRIB);
        assert mem[..] == old(mem[..])[80 * screenY + screenX := Cell(c, ATTRIB)];
        screenX := screenX + 1;
        if screenX == 80 {
          screenX := 0;
          screenY := screenY + 1;
          if screenY == 25 { Scroll(); }
        }
      }
    }
  }

  // ---------------------------------------------------------------------------------
  // Tabs and backspaces
  // ---------------------------------------------------------------------------------

  lemma {:induction false} TabRunShape(cells: seq<Cell>, end: nat, limit: nat)
    requires end <= |cells|
    ensures var n := TabRun(cells, end, limit);
      && (forall k :: end - n <= k < end ==> cells[k].attr == TAB)
      && (n == limit || n == end || cells[end - n - 1].attr != TAB)
  {
    if limit != 0 && end != 0 && cells[end - 1].attr == TAB {
      TabRunShape(cells, end - 1, limit - 1);
    }
  }

  /**
   On a tidy console a backspace takes either one cell or all the cells of one tab, which end
   just before the cursor and stay within their group of four.
   */
  lemma EraseCountShape(s: Screen)
    requires s.Tidy() && 0 < s.Offset() <= 2048
    ensures var p, n := s.Offset(), EraseCount(s);
      if s.cells[p - 1].attr == TAB then
        && p % 4 == 0 && 1 <= n <= 4
        && (forall k :: p - n <= k < p ==> s.cells[k].attr == TAB)
        && (n < 4 ==> s.cells[p - n - 1].attr != TAB)
      else
        n == 1
  {
    TabRunShape(s.cells, s.Offset(), 4);
  }

  /** So it reads the cell in front of the page at the top left only. */
  lemma TidyFront(s: Screen)
    requires s.Tidy() && s.Offset() <= 2048
    ensures ReadsFront(s) <==> s.Offset() == 0
  {
    if s.Offset() > 0 { EraseCountShape(s); }
  }

  /** Where a console leaves the screen: exactly at a tab in the last four columns. */
  lemma PutStaysInside(s: Screen, c: Byte)
    requires s.Inside()
    ensures Put(s, c).Inside() <==> (c == TABULATOR ==> s.x < 76)
  {}

  /** Line feed and return both lead to the first column of the next row, which scrolls in if there is none. */
  lemma NewlineMoves(s: Screen, c: Byte)
    requires s.Paged() && (c == 10 || c == 13)
    ensures Fits(s, c) && IsNewline(c)
    ensures var r := Put(s, c);
      && r.x == 0 && r.y == (if s.y == 24 then 24 else s.y + 1)
      && forall k :: 0 <= k < 2048 ==>
           r.cells[k] == if s.y < 24 || k >= 2000 then s.cells[k] else if k < 1920 then s.cells[k + 80] else Cell(0, 0x7)
  {}

  /** All bytes but backspace, tab, line feed and return are printed as they are. */
  lemma OrdinaryPrints(s: Screen, c: Byte)
    requires s.Inside() && c != 8 && c != 9 && c != 10 && c != 13
    ensures IsOrdinary(c) && Fits(s, c)
    ensures var r := Put(s, c);
      if s.x < 79 then r == Screen(s.cells[s.Offset() := Cell(c, 0x7)], s.x + 1, s.y)
      else r == Put(Screen(s.cells[s.Offset() := Cell(c, 0x7)], s.x, s.y), 10)
  {}

  /** Every byte that falls in the page, late tabs included, keeps a console tidy. */
  lemma PutKeepsTidy(s: Screen, c: Byte)
    requires s.Tidy() && Fits(s, c)
    ensures Put(s, c).Tidy()
  {
    if IsNewline(c) {
      SettleKeepsTidy(Screen(s.cells, 0, s.y + 1));
    } else if c == TABULATOR {
      TabKeepsTidy(s);
    } else if c == BACKSPACE {
      if s.Offset() > 0 { BackspaceKeepsTidy(s); } else { assert PutBackspace(s).cells == s.cells; }
    } else {
      OrdinaryKeepsTidy(s, c);
    }
  }

  /** Rows are 80 cells wide, so scrolling keeps the groups of four aligned. */
  lemma SettleKeepsTidy(s: Screen)
    requires |s.cells| == 2048 && s.y <= 25 && s.TabSuffixes() && (s.y == 25 ==> s.x == 0) && s.NoTabBefore()
    ensures Settle(s).Tidy()
  {
    var t := Settle(s);
    if s.y == 25 {
      forall j, k | 0 <= j < k < 2048 && j / 4 == k / 4 && t.cells[j].attr == TAB ensures t.cells[k].attr == TAB {
        if k < 1920 {
          assert (j + 80) / 4 == (k + 80) / 4 && s.cells[j + 80].attr == TAB && s.cells[k + 80].attr == TAB;
        } else {
          assert j >= 2000 && s.cells[j].attr == TAB && s.cells[k].attr == TAB;
        }
      }
    }
  }

  lemma OrdinaryKeepsTidy(s: Screen, c: Byte)
    requires s.Tidy() && s.Offset() < 2048 && IsOrdinary(c)
    ensures PutOrdinary(s, c).Tidy()
  {
    var p, cells := s.Offset(), s.cells[s.Offset() := Cell(c, ATTRIB)];
    forall j, k | 0 <= j < k < 2048 && j / 4 == k / 4 && cells[j].attr == TAB ensures cells[k].attr == TAB {
      assert s.cells[j].attr == TAB && s.cells[k].attr == TAB;
    }
    var t := if s.x == 79 then Screen(cells, 0, s.y + 1) else Screen(cells, s.x + 1, s.y);
    assert t.Offset() == p + 1;
    forall k | 0 <= k < 2048 && t.Offset() - t.Offset() % 4 <= k < t.Offset() ensures cells[k].attr != TAB {
      assert k != p ==> p - p % 4 <= k < p;
    }
    SettleKeepsTidy(t);
  }

  lemma BackspaceKeepsTidy(s: Screen)
    requires s.Tidy() && 0 < s.Offset() <= 2048
    ensures PutBackspace(s).Tidy()
  {
    BackspaceSuffixes(s);
    BackspaceNoTab(s);
  }

  lemma BackspaceSuffixes(s: Screen)
    requires s.Tidy() && 0 < s.Offset() <= 2048
    ensures PutBackspace(s).TabSuffixes()
  {
    EraseCountShape(s);
    var t := PutBackspace(s);
    forall j, k | 0 <= j < k < 2048 && j / 4 == k / 4 && t.cells[j].attr == TAB ensures t.cells[k].attr == TAB {
      SuffixAfterBackspace(s, j, k);
    }
  }

  lemma SuffixAfterBackspace(s: Screen, j: nat, k: nat)
    requires s.Tidy() && 0 < s.Offset() <= 2048 && j < k < 2048 && j / 4 == k / 4
    requires PutBackspace(s).cells[j].attr == TAB
    ensures PutBackspace(s).cells[k].attr == TAB
  {
    EraseCountShape(s);
    assert s.cells[j].attr == TAB && s.cells[k].attr == TAB;
  }

  lemma BackspaceNoTab(s: Screen)
    requires s.Tidy() && 0 < s.Offset() <= 2048
    ensures PutBackspace(s).NoTabBefore()
  {
    EraseCountShape(s);
    var p, n, t := s.Offset(), EraseCount(s), PutBackspace(s);
    assert t.Offset() == p - n;
    forall k | 0 <= k < 2048 && t.Offset() - t.Offset() % 4 <= k < t.Offset() ensures t.cells[k].attr != TAB {
      assert t.cells[k] == s.cells[k];
      assert p % 4 == 0 ==> k / 4 == (p - n) / 4 == (p - 1) / 4;
      assert p % 4 != 0 ==> p - p % 4 <= k < p;
    }
  }

  lemma TabKeepsTidy(s: Screen)
    requires s.Tidy() && s.Offset() < 2048
    ensures PutTab(s).Tidy()
  {
    var p, t := s.Offset(), PutTab(s);
    assert t.Offset() == p + 4 - p % 4 && t.Offset() % 4 == 0;
    forall j, k | 0 <= j < k < 2048 && j / 4 == k / 4 && t.cells[j].attr == TAB ensures t.cells[k].attr == TAB {
      if !(p <= k < t.Offset()) {
        assert !(p <= j < t.Offset());
        assert s.cells[j].attr == TAB && s.cells[k].attr == TAB;
      }
    }
  }

  /** While the cursor stays on the screen, everything from it on stays blank. */
  lemma PutKeepsOk(s: Screen, c: Byte)
    requires s.Ok() && Put(s, c).Inside()
    ensures Put(s, c).Ok()
  {}

  /** The same characters with the same attributes, except that a blank may be 0 or a space. */
  ghost predicate SameInk(a: seq<Cell>, b: seq<Cell>)
    requires |a| == |b| == 2048
  {
    forall k :: 0 <= k < 2048 ==> a[k] == b[k] || (Screen.Blank(a[k]) && Screen.Blank(b[k]))
  }

  /** The screen before a character, moved up if that character scrolls. */
  function Before(s: Screen, c: Byte): Screen
    requires s.Paged()
  {
    if c != TABULATOR && s.x == 79 && s.y == 24 then Screen(ScrolledCells(s.cells), 79, 23) else s
  }

  /** How many cells a character or a tab is written to. */
  function Width(s: Screen, c: Byte): nat
    requires s.Paged()
  {
    if c == TABULATOR then 4 - s.Offset() % 4 else 1
  }

  /**
   Backspace takes back the character or the tab before it, whatever came earlier and wherever
   the cursor is: the cursor is back, and the cells that were written are erased.
   */
  lemma BackspaceUndoes(s: Screen, c: Byte)
    requires s.Tidy() && s.Offset() < 2048 && (IsOrdinary(c) || c == TABULATOR)
    ensures Fits(Put(s, c), BACKSPACE)
    ensures var (was, n) := (Before(s, c), Width(s, c));
      Put(Put(s, c), BACKSPACE)
        == Screen(Fill(was.cells, was.Offset(), was.Offset() + n, ERASED), was.x, was.y)
  {
    if c == TABULATOR { BackspaceUndoesTab(s); } else { BackspaceUndoesOrdinary(s, c); }
  }

  lemma BackspaceUndoesTab(s: Screen)
    requires s.Tidy() && s.Offset() < 2048
    ensures PutTab(s).Offset() <= 2048
    ensures PutBackspace(PutTab(s))
      == Screen(Fill(s.cells, s.Offset(), s.Offset() + 4 - s.Offset() % 4, ERASED), s.x, s.y)
  {
    TabEraseCount(s);
    assert PutBackspace(PutTab(s)).cells == Fill(s.cells, s.Offset(), s.Offset() + 4 - s.Offset() % 4, ERASED);
  }

  lemma BackspaceUndoesOrdinary(s: Screen, c: Byte)
    requires s.Paged() && s.Offset() < 2048 && IsOrdinary(c)
    ensures PutOrdinary(s, c).Offset() <= 2048
    ensures var was := Before(s, c);
      PutBackspace(PutOrdinary(s, c)) == Screen(Fill(was.cells, was.Offset(), was.Offset() + 1, ERASED), was.x, was.y)
  {
    var was, m := Before(s, c), PutOrdinary(s, c);
    var p := was.Offset();
    OrdinaryBefore(s, c);
    assert EraseCount(m) == 1;
    assert PutBackspace(m).cells == Fill(was.cells, p, p + 1, ERASED);
  }

  /** A character is what was there before it, moved up if it scrolls, with one cell changed. */
  lemma OrdinaryBefore(s: Screen, c: Byte)
    requires s.Paged() && s.Offset() < 2048 && IsOrdinary(c)
    ensures var (was, m) := (Before(s, c), PutOrdinary(s, c));
      && m.cells == was.cells[was.Offset() := Cell(c, ATTRIB)]
      && m.Offset() == was.Offset() + 1 && Back(m.x, m.y, 1) == (was.x, was.y)
  {
    var (was, m) := (Before(s, c), PutOrdinary(s, c));
    assert m.cells == was.cells[was.Offset() := Cell(c, ATTRIB)];
  }

  /** The screen looks as before exactly when nothing was written over. */
  lemma BackspaceRestoresInk(s: Screen, c: Byte)
    requires s.Tidy() && s.Offset() < 2048 && (IsOrdinary(c) || c == TABULATOR)
    ensures Fits(Put(s, c), BACKSPACE)
    ensures var (was, n) := (Before(s, c), Width(s, c));
      SameInk(Put(Put(s, c), BACKSPACE).cells, was.cells)
      <==> forall k :: was.Offset() <= k < was.Offset() + n ==> Screen.Blank(was.cells[k])
  {
    BackspaceUndoes(s, c);
    var (was, n) := (Before(s, c), Width(s, c));
    var t := Put(Put(s, c), BACKSPACE);
    forall k | was.Offset() <= k < was.Offset() + n ensures t.cells[k] == ERASED {}
  }

  /** A tab's cells are exactly what the next backspace erases. */
  lemma TabEraseCount(s: Screen)
    requires s.Tidy() && s.Offset() < 2048
    ensures EraseCount(PutTab(s)) == 4 - s.Offset() % 4
  {
    var p, m := s.Offset(), PutTab(s);
    TabKeepsTidy(s);
    EraseCountShape(m);
    assert forall k :: p <= k < m.Offset() ==> m.cells[k].attr == TAB;
    assert p % 4 != 0 ==> m.cells[p - 1] == s.cells[p - 1] && s.cells[p - 1].attr != TAB;
  }

  // ---------------------------------------------------------------------------------
  // Runs
  // ---------------------------------------------------------------------------------

  /** Every character of text is written into the page. */
  predicate FitsAll(s: Screen, text: seq<Byte>)
    decreases |text|
  {
    s.Paged() && (text == [] || (Fits(s, text[0]) && FitsAll(Put(s, text[0]), text[1..])))
  }

  /** The cursor is on the screen before and after every character of text. */
  predicate Stays(s: Screen, text: seq<Byte>): (r: bool)
    ensures r ==> FitsAll(s, text)
    decreases |text|
  {
    s.Inside() && (text == [] || Stays(Put(s, text[0]), text[1..]))
  }

  function Run(s: Screen, text: seq<Byte>): (r: Screen)
    requires FitsAll(s, text)
    ensures r.Paged()
    decreases |text|
  {
    if text == [] then s else Run(Put(s, text[0]), text[1..])
  }

  /** No tab of text is printed in columns 76 to 79. */
  predicate NoLateTab(s: Screen, text: seq<Byte>)
    requires s.Inside()
    decreases |text|
  {
    text == [] ||
    ((text[0] == TABULATOR ==> s.x < 76) && NoLateTab(Put(s, text[0]), text[1..]))
  }

  /** For any history, the cursor stays on the screen exactly when no tab is late. */
  lemma {:induction false} StaysExactly(s: Screen, text: seq<Byte>)
    requires s.Inside()
    ensures Stays(s, text) <==> NoLateTab(s, text)
    decreases |text|
  {
    if text != [] {
      PutStaysInside(s, text[0]);
      if text[0] == TABULATOR ==> s.x < 76 {
        StaysExactly(Put(s, text[0]), text[1..]);
      }
    }
  }

  /** Every history of bytes that fall in the page keeps a console tidy. */
  lemma {:induction false} RunKeepsTidy(s: Screen, text: seq<Byte>)
    requires s.Tidy() && FitsAll(s, text)
    ensures Run(s, text).Tidy()
    decreases |text|
  {
    if text != [] {
      PutKeepsTidy(s, text[0]);
      RunKeepsTidy(Put(s, text[0]), text[1..]);
    }
  }

  /** And while the cursor stays on the screen, everything from it on stays blank. */
  lemma {:induction false} RunKeepsOk(s: Screen, text: seq<Byte>)
    requires s.Ok() && Stays(s, text)
    ensures Run(s, text).Ok()
    decreases |text|
  {
    if text != [] {
      PutKeepsOk(s, text[0]);
      RunKeepsOk(Put(s, text[0]), text[1..]);
    }
  }

  /** A page that was cleared, with the cursor at home, is both. */
  lemma ClearedIsTidy(page: seq<Cell>)
    requires |page| == 2048 && forall j, k :: 2000 <= j < k < 2048 && j / 4 == k / 4 && page[j].attr == TAB ==> page[k].attr == TAB
    ensures var s := Screen(Fill(page, 0, 2000, CLEARED), 0, 0); s.Tidy() && s.Ok()
  {
    var s := Screen(Fill(page, 0, 2000, CLEARED), 0, 0);
    forall j, k | 0 <= j < k < 2048 && j / 4 == k / 4 && s.cells[j].attr == TAB ensures s.cells[k].attr == TAB {
      assert j >= 2000 && page[j].attr == TAB;
    }
  }

  /** A tab in column 76 does put the cursor beside the screen. */
  lemma LateTab(s: Screen)
    requires s.Inside() && s.x == 76
    ensures !Stays(s, [TABULATOR]) && Put(s, TABULATOR).x == 80
  {
    StaysExactly(s, [TABULATOR]);
  }

  // ---------------------------------------------------------------------------------
  // Beside the screen
  // ---------------------------------------------------------------------------------

  /** From beside the screen only a newline or a backspace leads back. */
  lemma StaysBeside(s: Screen, c: Byte)
    requires Fits(s, c) && s.x >= 80
    ensures Put(s, c).x >= 80 <==> !IsNewline(c) && (c == BACKSPACE ==> s.x - EraseCount(s) >= 80)
  {}

  function Inked(text: seq<Byte>): (r: seq<Cell>)
    ensures |r| == |text|
  {
    seq(|text|, k requires 0 <= k < |text| => Cell(text[k], ATTRIB))
  }

  /**
   There a line is never wrapped: it runs over the rows below, whose text it replaces, and
   stays in the page exactly when it is no longer than what is left of the page.
   */
  lemma {:induction false} BesideSpills(s: Screen, text: seq<Byte>)
    requires s.Paged() && s.x >= 80 && forall k :: 0 <= k < |text| ==> IsOrdinary(text[k])
    ensures FitsAll(s, text) <==> text == [] || s.Offset() + |text| <= 2048
    ensures FitsAll(s, text) && text != [] ==>
      Run(s, text) == Screen(s.cells[..s.Offset()] + Inked(text) + s.cells[s.Offset() + |text|..], s.x + |text|, s.y)
    decreases |text|
  {
    if text != [] && Fits(s, text[0]) {
      var t := Put(s, text[0]);
      BesideSpills(t, text[1..]);
      if FitsAll(s, text) && |text| > 1 {
        assert Inked(text) == [Cell(text[0], ATTRIB)] + Inked(text[1..]);
        assert t.cells[..t.Offset()] == s.cells[..s.Offset()] + [Cell(text[0], ATTRIB)];
        assert t.cells[t.Offset() + |text[1..]|..] == s.cells[s.Offset() + |text|..];
      }
    }
  }

  /** A newline after such a line starts on the row that the line has just run over. */
  lemma SpilledUnderCursor(s: Screen, text: seq<Byte>)
    requires s.Paged() && s.x == 80 && s.y < 24 && 0 < |text| && s.Offset() + |text| <= 2048
    requires forall k :: 0 <= k < |text| ==> IsOrdinary(text[k])
    ensures FitsAll(s, text)
    ensures var t := Put(Run(s, text), LINEFEED);
      t.Offset() == s.Offset() && t.cells[t.Offset()] == Cell(text[0], ATTRIB)
  {
    BesideSpills(s, text);
  }

  // ---------------------------------------------------------------------------------
  // A text that ends at the end of the page
  // ---------------------------------------------------------------------------------

  lemma {:induction false} RunSplit(s: Screen, a: seq<Byte>, b: seq<Byte>)
    requires FitsAll(s, a) && FitsAll(Run(s, a), b)
    ensures FitsAll(s, a + b) && Run(s, a + b) == Run(Run(s, a), b)
    decreases |a|
  {
    if a == [] {
      assert a + b == b;
    } else {
      assert (a + b)[1..] == a[1..] + b;
      RunSplit(Put(s, a[0]), a[1..], b);
    }
  }

  lemma {:induction false} NewlinesDown(s: Screen, n: nat)
    requires s.Paged() && s.x == 0 && s.y + n < 25
    ensures var text: seq<Byte> := seq(n, _ => LINEFEED);
      FitsAll(s, text) && Run(s, text) == Screen(s.cells, 0, s.y + n)
    decreases n
  {
    var text: seq<Byte> := seq(n, _ => LINEFEED);
    if n > 0 {
      assert text[1..] == seq(n - 1, _ => LINEFEED);
      NewlinesDown(Put(s, LINEFEED), n - 1);
    }
  }

  lemma {:induction false} AlongTheRow(s: Screen, text: seq<Byte>)
    requires s.Paged() && s.x + |text| < 80 && forall k :: 0 <= k < |text| ==> IsOrdinary(text[k])
    ensures FitsAll(s, text) && Run(s, text).x == s.x + |text| && Run(s, text).y == s.y
    decreases |text|
  {
    if text != [] { AlongTheRow(Put(s, text[0]), text[1..]); }
  }

  /** Down to the bottom row, along it to column 76, a tab, and the 48 cells that are left of the page. */
  function FillingText(): seq<Byte> {
    seq(24, _ => LINEFEED) + (seq(76, _ => 97) + ([TABULATOR] + seq(48, _ => 98)))
  }

  lemma FillingTextFills(s: Screen)
    requires s.Paged() && s.x == 0 && s.y == 0
    ensures FitsAll(s, FillingText()) && Run(s, FillingText()).Offset() == 2048
  {
    var downs: seq<Byte>, along: seq<Byte>, spill: seq<Byte> := seq(24, _ => LINEFEED), seq(76, _ => 97), seq(48, _ => 98);
    NewlinesDown(s, 24);
    var t := Run(s, downs);
    AlongTheRow(t, along);
    var u := Run(t, along);
    BesideSpills(Put(u, TABULATOR), spill);
    assert ([TABULATOR] + spill)[1..] == spill;
    RunSplit(t, along, [TABULATOR] + spill);
    RunSplit(s, downs, along + ([TABULATOR] + spill));
  }
}
