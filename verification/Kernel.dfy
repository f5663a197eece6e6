/**
 The kernel's global variables and the code that updates them in place, statement by
 statement, proved to take the steps of module Machine.
 */
module Kernel {
  import opened Bytes
  import opened Console
  import opened Limits
  import opened Machine
  import opened Printing

  class Globals {
    var pcbs: seq<Pcb>
    var terms: seq<Terminal>
    var shown: nat
    var active: nat
    var kernelVid: int
    var userVid: int
    var userVidPresent: bool
    var userPage: int
    var esp0: int
    var cpu: nat
    /** screen_x, screen_y, and the memory that video_mem reaches through the page table. */
    const video: Video
    /** The displayed page and the backup page of each terminal. */
    const pages: seq<array<Cell>>

    /** initiate_shells, with whatever the tables held before and the first shell about to run. */
    constructor InitiateShells(pages: seq<array<Cell>>, video: Video, stalePcbs: seq<Pcb>, staleTerms: seq<Terminal>)
      requires |pages| == 4 && (forall i, j :: 0 <= i < j < 4 ==> pages[i] != pages[j])
      requires forall i :: 0 <= i < 4 ==> pages[i].Length == 2048
      requires |stalePcbs| == PROCESSES && |staleTerms| == TERMINALS
      requires forall p :: TERMINALS <= p < PROCESSES ==>
        stalePcbs[p].ebp.owner < PROCESSES && stalePcbs[p].parentEbp.owner < PROCESSES
      modifies video`mem, video`screenX, video`screenY
      ensures this.pages == pages && this.video == video && Valid()
      ensures Now() == Initial([pages[0][..], pages[1][..], pages[2][..], pages[3][..]], stalePcbs[TERMINALS..])
    {
      this.pages, this.video := pages, video;
      pcbs, terms := stalePcbs, staleTerms;
      shown, active, kernelVid, userVid, userVidPresent := 0, 0, VIDMEM_INDEX, VIDMEM_INDEX, false;
      userPage, esp0, cpu := 2, 0, 0;
      new;
      StartShells();
      esp0, cpu := pcbs[0].esp0, pcbs[0].ebp.owner;
      video.screenX, video.screenY, video.mem := 0, 0, pages[0];
      ghost var want := Initial([pages[0][..], pages[1][..], pages[2][..], pages[3][..]], stalePcbs[TERMINALS..]);
      assert pcbs == want.pcbs && terms == want.terms;
    }

    /** The loop over the terminals, from the last to the first. */
    method StartShells()
      requires |pcbs| == PROCESSES && |terms| == TERMINALS
      modifies this`terms, this`pcbs, this`userPage
      ensures |pcbs| == PROCESSES && |terms| == TERMINALS && userPage == 2
      ensures forall p :: 0 <= p < TERMINALS ==> terms[p] == Terminal(p, 0, 0, false)
      ensures forall p :: 0 <= p < TERMINALS ==>
        pcbs[p] == Pcb(true, false, p, -1, Frame(p, 0), Frame(p, 0), StackTop(p))
      ensures pcbs[TERMINALS..] == old(pcbs[TERMINALS..])
    {
      for pid := TERMINALS downto 0
        invariant |pcbs| == PROCESSES && |terms| == TERMINALS
        invariant forall p :: pid <= p < TERMINALS ==> terms[p] == Terminal(p, 0, 0, false)
        invariant forall p :: pid <= p < TERMINALS ==>
          pcbs[p] == Pcb(true, false, p, -1, Frame(p, 0), Frame(p, 0), StackTop(p))
        invariant pcbs[TERMINALS..] == old(pcbs[TERMINALS..])
        invariant pid < TERMINALS ==> userPage == 2 + pid
      {
        terms := terms[pid := Terminal(pid, 0, 0, false)];
        pcbs := pcbs[pid := Pcb(true, false, pid, -1, Frame(pid, 0), Frame(pid, 0), StackTop(pid))];
        userPage := 2 + pid;
      }
    }

    ghost function Now(): State
      reads this, video, pages
      requires |pages| == 4 && 0 <= video.screenX && 0 <= video.screenY
    {
      State(pcbs, terms, shown, active, kernelVid, userVid, userVidPresent, userPage, esp0, cpu,
            [pages[0][..], pages[1][..], pages[2][..], pages[3][..]], video.screenX, video.screenY)
    }

    ghost predicate Valid()
      reads this, video, pages
    {
      && |pages| == 4 && (forall i, j :: 0 <= i < j < 4 ==> pages[i] != pages[j])
      && (forall i :: 0 <= i < 4 ==> pages[i].Length == 2048)
      && 0 <= video.screenX && 0 <= video.screenY
      && Now().Sound() && video.mem == pages[State.Slot(kernelVid)]
    }

    /** Puts terminal t's cursor where the next character goes. */
    method SetScreenCoordinate(t: nat)
      requires t < |terms|
      modifies video`screenX, video`screenY
      ensures video.screenX == terms[t].x && video.screenY == terms[t].y
    {
      video.screenX, video.screenY := terms[t].x, terms[t].y;
    }

    /** Saves the running process and loads the one on top of terminal next. */
    method Reschedule(next: nat, id: nat) returns (o: Outcome)
      requires Valid() && next < TERMINALS
      modifies this`pcbs, this`active, this`esp0, this`userPage, this`userVidPresent, this`cpu
      ensures Valid() && active == next && o.Resume?
      ensures pcbs == old(pcbs[cpu := pcbs[cpu].(ebp := Frame(cpu, id), esp0 := esp0)])
      ensures var pcb := pcbs[terms[next].pid];
        && esp0 == pcb.esp0 && userPage == 2 + pcb.pid && userVidPresent == pcb.vidmap
        && cpu == pcb.ebp.owner && o.frame == pcb.ebp
    {
      active := next;
      pcbs := pcbs[cpu := pcbs[cpu].(ebp := Frame(cpu, id), esp0 := esp0)];
      var pcb := pcbs[terms[next].pid];
      esp0 := pcb.esp0;
      userPage := 2 + pcb.pid;
      userVidPresent := pcb.vidmap;
      cpu := pcb.ebp.owner;
      o := Resume(pcb.ebp);
    }

    /** Saves the active terminal's cursor and points the console at terminal next, mapped at vid. */
    method PointConsole(next: nat, vid: int)
      requires Valid() && next < TERMINALS
      requires vid == VIDMEM_INDEX || vid == VIDMEM_INDEX + next + 2
      modifies this`terms, this`kernelVid, this`userVid, video
      ensures Valid() && kernelVid == userVid == vid
      ensures terms == old(terms[active := terms[active].(x := video.screenX, y := video.screenY)])
      ensures video.screenX == terms[next].x && video.screenY == terms[next].y
    {
      terms := terms[active := terms[active].(x := video.screenX, y := video.screenY)];
      kernelVid := vid;
      userVid := vid;
      video.mem := pages[State.Slot(vid)];
      SetScreenCoordinate(next);
    }

    method PitHandler(id: nat) returns (o: Outcome)
      requires Valid()
      modifies this, video
      ensures Valid() && Now() == Machine.PitHandler(old(Now()), id).0 && o == Machine.PitHandler(old(Now()), id).1
    {
      ghost var want := Machine.PitHandler(Now(), id).0;
      var next := (active + 1) % TERMINALS;
      if next == shown {
        PointConsole(next, VIDMEM_INDEX);
      } else {
        PointConsole(next, VIDMEM_INDEX + next + 2);
      }
      o := Reschedule(next, id);
      assert Now().pages == want.pages;
      assert Now().(pages := []) == want.(pages := []);
    }

    method CopyPage(to: nat, from: nat)
      requires Valid() && to < 4 && from < 4 && to != from
      modifies pages[to]
      ensures Valid() && pages[to][..] == old(pages[from][..])
    {
      forall k | 0 <= k < 2048 {
        pages[to][k] := pages[from][k];
      }
    }

    /** Puts the displayed page away and brings the page of terminal next in. */
    method SwapPages(next: nat)
      requires Valid() && next < TERMINALS && next != shown
      modifies pages
      ensures Valid() && Now() == old(Now()).(pages := Now().pages)
      ensures var swapped := old(Now()).pages[1 + shown := old(Now()).pages[0]];
        Now().pages == swapped[0 := swapped[1 + next]]
    {
      CopyPage(1 + shown, 0);
      CopyPage(0, 1 + next);
    }

    /** Puts terminal next on display, with the console in front of it. */
    method Display(next: nat)
      requires Valid() && next < TERMINALS && next != shown
      modifies this, video, pages
      ensures Valid()
      ensures var swapped := old(Now()).pages[1 + old(shown) := old(Now()).pages[0]];
        var kept := old(terms[active := terms[active].(x := video.screenX, y := video.screenY)]);
        Now() == old(Now()).(pages := swapped[0 := swapped[1 + next]], shown := next, terms := kept,
                             kernelVid := VIDMEM_INDEX, userVid := VIDMEM_INDEX, x := kept[next].x, y := kept[next].y)
    {
      ghost var was := Now();
      SwapPages(next);
      ghost var swapped := Now().pages;
      PointConsole(next, VIDMEM_INDEX);
      shown := next;
      assert Now().pages == swapped;
    }

    method SwitchTerminal(next: nat, id: nat) returns (o: Outcome)
      requires Valid() && next < TERMINALS
      modifies this, video, pages
      ensures Valid() && Now() == Machine.SwitchTerminal(old(Now()), next, id).0
      ensures o == Machine.SwitchTerminal(old(Now()), next, id).1
    {
      if next == shown { return Continue; }
      ghost var want := Machine.SwitchTerminal(Now(), next, id);
      Display(next);
      ghost var mid := Now();
      o := Reschedule(next, id);
      assert Now().pages == mid.pages;
      assert Now().(pages := []) == want.0.(pages := []);
    }

    method Execute(executable: bool, id: nat) returns (o: Outcome)
      requires Valid()
      modifies this
      ensures Valid() && Now() == Exec(old(Now()), executable, id).0 && o == Exec(old(Now()), executable, id).1
    {
      if !executable { return Fail; }
      var i := 0;
      while i < PROCESSES && pcbs[i].present
        invariant 0 <= i <= PROCESSES && FirstFree(pcbs, i) == FirstFree(pcbs, 0)
      {
        i := i + 1;
      }
      assert i == FirstFree(pcbs, 0);
      if i == PROCESSES { return Fail; }
      ghost var want := Exec(Now(), true, id).0;
      var parent := if i < TERMINALS then -1 else cpu;
      pcbs := pcbs[i := pcbs[i].(present := true, pid := i, parent := parent,
                                 parentEbp := Frame(cpu, id), esp0 := StackTop(i))];
      terms := terms[active := terms[active].(pid := i)];
      userPage := 2 + i;
      esp0 := pcbs[i].esp0;
      cpu := i;
      o := Enter;
      assert Now().pages == want.pages;
    }

    method Halt(status: Byte, exceptionOccurred: bool, id: nat) returns (o: Outcome)
      requires Valid() && CanHalt(Now())
      modifies this
      ensures var value: int := if exceptionOccurred then 256 else status;
        Now() == Quit(old(Now()), value, id).0 && o == Quit(old(Now()), value, id).1
    {
      var pcb := pcbs[cpu];
      pcbs := pcbs[cpu := pcb.(present := false, vidmap := false)];
      terms := terms[active := terms[active].(toBeHalt := false)];
      if pcb.pid < TERMINALS {
        o := Execute(true, id);
        return;
      }
      var parent := pcbs[pcb.parent];
      terms := terms[active := terms[active].(pid := parent.pid)];
      userPage := 2 + parent.pid;
      esp0 := parent.esp0;
      cpu := pcb.parentEbp.owner;
      if exceptionOccurred {
        o := Return(pcb.parentEbp, EXCEPTION);
      } else {
        o := Return(pcb.parentEbp, status);
      }
    }

    /** The video pages as values. */
    ghost function PageSeqs(): (r: seq<seq<Cell>>)
      reads pages
      requires |pages| == 4
      ensures |r| == 4 && forall i :: 0 <= i < 4 ==> r[i] == pages[i][..]
    {
      [pages[0][..], pages[1][..], pages[2][..], pages[3][..]]
    }

    /** Four arrays, of the size of a page. */
    ghost predicate Separate()
      reads pages
    {
      |pages| == 4 && (forall i, k :: 0 <= i < k < 4 ==> pages[i] != pages[k]) && FourPages(PageSeqs())
    }

    /** Reads cell j of the strip. */
    method Peek(strip: seq<nat>, j: nat) returns (c: Cell)
      requires Separate() && IsStrip(strip) && j < 2048 * |strip|
      ensures c == CellAt(PageSeqs(), strip, j)
    {
      assert PageSeqs()[strip[j / 2048]] == pages[strip[j / 2048]][..];
      c := pages[strip[j / 2048]][j % 2048];
    }

    /** Writes cell j of the strip. */
    method Poke(strip: seq<nat>, j: nat, c: Cell)
      requires Separate() && IsStrip(strip) && j < 2048 * |strip|
      modifies pages
      ensures PageSeqs() == SetCell(old(PageSeqs()), strip, j, c)
    {
      ghost var want := SetCell(PageSeqs(), strip, j, c);
      var page := pages[strip[j / 2048]];
      page[j % 2048] := c;
      forall i | 0 <= i < 4 ensures pages[i][..] == want[i] {
        assert i != strip[j / 2048] ==> pages[i] != page;
      }
    }

    /** What the loop of a tab still has to do. */
    ghost predicate Filling(strip: seq<nat>, from: nat, count: nat, end: seq<seq<Cell>>)
      reads pages
    {
      && Separate() && IsStrip(strip) && from + count <= 2048 * |strip|
      && SetCells(PageSeqs(), strip, from, count, Cell(SPACE, TAB)) == end
    }

    /** One round of it. */
    method TabStep(strip: seq<nat>, from: nat, count: nat, ghost end: seq<seq<Cell>>)
      requires count > 0 && Filling(strip, from, count, end)
      modifies pages, video`screenX
      ensures Filling(strip, from + 1, count - 1, end) && video.screenX == old(video.screenX) + 1
    {
      Poke(strip, from, Cell(SPACE, TAB));
      video.screenX := video.screenX + 1;
    }

    /** The loop of a tab behind the page that is printed on. */
    method TabBehind(strip: seq<nat>, from: nat, count: nat)
      requires Separate() && IsStrip(strip) && from + count <= 2048 * |strip|
      modifies pages, video`screenX
      ensures PageSeqs() == SetCells(old(PageSeqs()), strip, from, count, Cell(SPACE, TAB))
      ensures video.screenX == old(video.screenX) + count
    {
      ghost var end := SetCells(PageSeqs(), strip, from, count, Cell(SPACE, TAB));
      var i := 0;
      while i < count
        invariant 0 <= i <= count && video.screenX == old(video.screenX) + i
        invariant Filling(strip, from + i, count - i, end)
      {
        TabStep(strip, from + i, count - i, end);
        i := i + 1;
      }
    }

    /** What the loop of a backspace still has to do: n cells more, the next one in front of j. */
    ghost predicate Erasing(strip: seq<nat>, j: nat, count: nat, end: seq<seq<Cell>>, n: nat)
      reads pages
    {
      && Separate() && IsStrip(strip) && 0 < count < j <= 2048 * |strip|
      && EraseBehind(PageSeqs(), strip, j, count) == (end, n)
    }

    /** One round of the loop of a backspace there; more tells whether another cell goes. */
    method EraseStep(strip: seq<nat>, j: nat, count: nat, ghost end: seq<seq<Cell>>, ghost n: nat) returns (more: bool)
      requires Erasing(strip, j, count, end, n)
      modifies pages, video`screenX
      ensures video.screenX == old(video.screenX) - 1
      ensures more ==> n > 1 && count > 1 && Erasing(strip, j - 1, count - 1, end, n - 1)
      ensures !more ==> PageSeqs() == end && n == 1
    {
      video.screenX := video.screenX - 1;
      Poke(strip, j - 1, ERASED);
      if count == 1 { return false; }
      var next := Peek(strip, j - 2);
      return next.attr == TAB;
    }

    /** The loop of a backspace there; the cursor is at least 128 columns to the right. */
    method BackspaceBehind(strip: seq<nat>, from: nat, count: nat)
      requires Separate() && IsStrip(strip) && 0 < count < from <= 2048 * |strip|
      requires video.screenX >= count
      modifies pages, video`screenX
      ensures var (end, n) := EraseBehind(old(PageSeqs()), strip, from, count);
        PageSeqs() == end && video.screenX == old(video.screenX) - n
    {
      ghost var (end, n) := EraseBehind(PageSeqs(), strip, from, count);
      var j, left := from, count;
      ghost var rest := n;
      var more := true;
      while more
        invariant video.screenX == old(video.screenX) - (n - rest)
        invariant more ==> Erasing(strip, j, left, end, rest)
        invariant !more ==> PageSeqs() == end && rest == 0
        decreases more, left
      {
        more := EraseStep(strip, j, left, end, rest);
        rest := rest - 1;
        if more { j, left := j - 1, left - 1; }
      }
    }

    method StartBackspace(strip: seq<nat>, offset: nat)
      requires Separate() && IsStrip(strip) && 4 < offset <= 2048 * |strip| && video.screenX >= 4
      modifies pages, video`screenX
      ensures var (end, n) := SpillBackspace(old(PageSeqs()), strip, offset);
        PageSeqs() == end && video.screenX == old(video.screenX) - n
    {
      var last := Peek(strip, offset - 1);
      var count := if last.attr == TAB then 4 else 1;
      BackspaceBehind(strip, offset, count);
    }

    method OneBackspace(strip: seq<nat>)
      requires Separate() && 0 <= video.screenX && 0 <= video.screenY && Spills(PageSeqs(), strip, video.screenX, video.screenY, BACKSPACE)
      modifies pages, video`screenX
      ensures var p := Spill(old(PageSeqs()), strip, old(video.screenX), video.screenY, BACKSPACE);
        PageSeqs() == p.pages && video.screenX == p.x
    {
      StartBackspace(strip, 80 * video.screenY + video.screenX);
    }

    method OneTab(strip: seq<nat>)
      requires Separate() && 0 <= video.screenX && 0 <= video.screenY && Spills(PageSeqs(), strip, video.screenX, video.screenY, TABULATOR)
      modifies pages, video`screenX
      ensures var p := Spill(old(PageSeqs()), strip, old(video.screenX), video.screenY, TABULATOR);
        PageSeqs() == p.pages && video.screenX == p.x
    {
      var offset := 80 * video.screenY + video.screenX;
      GroupInStrip(offset, |strip|);
      TabBehind(strip, offset, 4 - offset % 4);
    }

    method OrdinaryBehind(c: Byte, strip: seq<nat>)
      requires Separate() && 0 <= video.screenX && 0 <= video.screenY && Spills(PageSeqs(), strip, video.screenX, video.screenY, c)
      requires c != BACKSPACE && c != TABULATOR
      modifies pages, video`screenX
      ensures var p := Spill(old(PageSeqs()), strip, old(video.screenX), video.screenY, c);
        PageSeqs() == p.pages && video.screenX == p.x
    {
      Poke(strip, 80 * video.screenY + video.screenX, Cell(c, ATTRIB));
      video.screenX := video.screenX + 1;
    }

    /** putc where the byte falls behind the page that video_mem leads to. */
    method PutcBehind(c: Byte, strip: seq<nat>)
      requires Separate() && 0 <= video.screenX && 0 <= video.screenY && Spills(PageSeqs(), strip, video.screenX, video.screenY, c)
      modifies pages, video`screenX
      ensures var p := Spill(old(PageSeqs()), strip, old(video.screenX), video.screenY, c);
        PageSeqs() == p.pages && video.screenX == p.x
    {
      if c == BACKSPACE {
        OneBackspace(strip);
      } else if c == TABULATOR {
        OneTab(strip);
      } else {
        OrdinaryBehind(c, strip);
      }
    }

    /** What putc and echo need of the globals, wherever video_mem leads. */
    ghost predicate Ready(strip: seq<nat>)
      reads this, video, pages
    {
      && Separate() && IsStrip(strip) && video.mem == pages[strip[0]]
      && 0 <= video.screenX && 0 <= video.screenY < 25 && Now().Sound()
    }

    /** The part of putc that writes to memory. */
    method Write(c: Byte, front: Front, strip: seq<nat>) returns (exit: Exit)
      requires Ready(strip) && InReach(strip, video.screenX, video.screenY, c)
      modifies video`screenX, video`screenY, pages
      ensures 0 <= video.screenX && 0 <= video.screenY
      ensures var p := PrintOn(old(PageSeqs()), strip, front, old(video.screenX), old(video.screenY), c);
        PageSeqs() == p.pages && video.screenX == p.x && video.screenY == p.y && exit == p.exit
    {
      ghost var was := PageSeqs();
      if IsNewline(c) || 80 * video.screenY + video.screenX < 2048
        || (c == BACKSPACE && 80 * video.screenY + video.screenX == 2048)
      {
        ghost var p := PrintOn(was, strip, front, video.screenX, video.screenY, c);
        exit := video.Putc(c, front);
        forall i | 0 <= i < 4 ensures pages[i][..] == p.pages[i] {
          assert i != strip[0] ==> pages[i] != video.mem;
        }
      } else {
        PutcBehind(c, strip);
        exit := Done;
      }
    }

    /** putc, with video_mem at the first page of the strip. */
    method Putc(c: Byte, front: Front, strip: seq<nat>) returns (exit: Exit)
      requires Ready(strip) && InReach(strip, video.screenX, video.screenY, c)
      modifies this`terms, video`screenX, video`screenY, pages
      ensures 0 <= video.screenX && 0 <= video.screenY
      ensures var p := PrintOn(old(PageSeqs()), strip, front, old(video.screenX), old(video.screenY), c);
        Now() == AfterPutc(old(Now()), p) && exit == p.exit
    {
      exit := Write(c, front, strip);
      if exit == Done && pcbs[cpu].pid == terms[shown].pid {
        terms := terms[shown := terms[shown].(x := video.screenX, y := video.screenY)];
      }
    }

    method Echo(c: Byte) returns (o: Outcome)
      requires Valid() && CanEcho(Now(), c)
      modifies this`terms, video, pages
      ensures Valid() && (Now(), o) == EchoStep(old(Now()), c)
    {
      var exit;
      if active == shown {
        exit := Putc(c, Unmapped, Strip(State.Slot(kernelVid)));
      } else {
        exit := EchoAway(c);
      }
      o := Left(exit);
    }

    /** Borrows the console for the terminal on display and prints there. */
    method PutShown(c: Byte) returns (x: int, y: int, mapped: array<Cell>, exit: Exit)
      requires Valid() && active != shown && CanEcho(Now(), c)
      modifies this`terms, video, pages
      ensures (x, y, mapped) == old((video.screenX, video.screenY, video.mem))
      ensures 0 <= video.screenX && 0 <= video.screenY
      ensures var away := old(Now()).(x := old(terms[shown].x), y := old(terms[shown].y));
        var p := PrintOn(away.pages, BEHIND, FrontOfDisplay(old(Now())), away.x, away.y, c);
        Now() == AfterPutc(away, p) && exit == p.exit
    {
      ghost var away := Now().(x := terms[shown].x, y := terms[shown].y);
      x, y, mapped := video.screenX, video.screenY, video.mem;
      assert mapped[2047] == Now().pages[MappedPage(Now())][2047];
      var front := Attribute(mapped[2047].attr);
      SetScreenCoordinate(shown);
      video.mem := pages[0];
      assert Now() == away;
      exit := Putc(c, front, BEHIND);
    }

    /** Gives it back, after noting where the cursor has come to. */
    method GiveBack(x: int, y: int, mapped: array<Cell>)
      requires shown < |terms| && 0 <= video.screenX && 0 <= video.screenY
      modifies this`terms, video
      ensures (video.screenX, video.screenY, video.mem) == (x, y, mapped)
      ensures terms == old(terms[shown := terms[shown].(x := video.screenX, y := video.screenY)])
    {
      video.mem := mapped;
      terms := terms[shown := terms[shown].(x := video.screenX, y := video.screenY)];
      video.screenX, video.screenY := x, y;
    }

    /** echo while the active terminal is not on display. */
    method EchoAway(c: Byte) returns (exit: Exit)
      requires Valid() && active != shown && CanEcho(Now(), c)
      modifies this`terms, video, pages
      ensures Valid() && (Now(), Left(exit)) == EchoStep(old(Now()), c)
    {
      var cacheX, cacheY, mapped;
      ghost var want := EchoStep(Now(), c).0;
      cacheX, cacheY, mapped, exit := PutShown(c);
      GiveBack(cacheX, cacheY, mapped);
      assert terms == want.terms;
    }

    /** clear: the page that video_mem leads to, and the cursor of the terminal on display. */
    method Clear()
      requires Valid() && Printable(Now())
      modifies this`terms, video`screenX, video`screenY, pages
      ensures Valid() && Now() == ClearStep(old(Now()))
    {
      ghost var was := PageSeqs();
      ghost var want := was[State.Slot(kernelVid) := Fill(was[State.Slot(kernelVid)], 0, 2000, CLEARED)];
      video.Blank();
      forall i | 0 <= i < 4 ensures pages[i][..] == want[i] {
        assert i != State.Slot(kernelVid) ==> pages[i] != video.mem;
      }
      terms := terms[shown := terms[shown].(x := 0, y := 0)];
      if shown == active {
        video.screenX, video.screenY := 0, 0;
      }
    }

    /** The timer interrupt: the next process runs on, or is killed if Ctrl+C was pressed on its terminal. */
    method Tick(id: nat) returns (o: Outcome)
      requires Valid() && CanStep(Now(), Machine.Event.Tick)
      modifies this, video
      ensures 0 <= video.screenX && 0 <= video.screenY
      ensures (Now(), o) == Step(old(Now()), Machine.Event.Tick, id)
    {
      ghost var was := Now();
      o := PitHandler(id);
      SameHalt(was, id);
      if terms[active].toBeHalt {
        o := Halt(KILLED, false, id);
      }
    }
  }

  /** Whether the next process can be halted does not depend on where this one was interrupted. */
  lemma SameHalt(s: State, id: nat)
    requires s.Sound() && CanStep(s, Tick)
    ensures var after := Machine.PitHandler(s, id).0;
      after.terms[after.active].toBeHalt ==> CanHalt(after)
  {}
}
