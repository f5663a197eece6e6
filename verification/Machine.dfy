/**
 The kernel's processes, terminals and video paging as one state machine: the timer and
 terminal switches of student-distrib/sched.c and lib.c, execute and halt of syscall.c, and
 the two ways of printing.
 */
module Machine {
  import opened Bytes
  import opened Console
  import opened Limits
  import opened Printing

  const VIDMEM_INDEX := 0xB8
  const KERNEL_STACK := 0x800000
  const KERNEL_STACK_SIZE := 0x2000

  /** A saved context: the kernel stack it lies on, and which point of the run it is. */
  datatype Frame = Frame(owner: nat, id: nat)

  /** parent is the pid of the process that executed this one, or -1. */
  datatype Pcb = Pcb(present: bool, vidmap: bool, pid: int, parent: int,
                     ebp: Frame, parentEbp: Frame, esp0: int)

  datatype Terminal = Terminal(pid: int, x: nat, y: nat, toBeHalt: bool)

  /**
   pages holds the displayed page first and then the backup page of each terminal; cpu is
   the process on whose kernel stack the processor runs, which get_current_pcb reads off esp.
   */
  datatype State = State(
    pcbs: seq<Pcb>,
    terms: seq<Terminal>,
    shown: nat,
    active: nat,
    kernelVid: int,
    userVid: int,
    userVidPresent: bool,
    userPage: int,
    esp0: int,
    cpu: nat,
    pages: seq<seq<Cell>>,
    x: nat,
    y: nat)
  {
    /** The arrays have their sizes and every index the code follows is in range. */
    predicate Sound() {
      && |pcbs| == PROCESSES && |terms| == TERMINALS && |pages| == 4
      && shown < TERMINALS && active < TERMINALS && cpu < PROCESSES
      && (kernelVid == VIDMEM_INDEX || VIDMEM_INDEX + 2 <= kernelVid < VIDMEM_INDEX + 2 + TERMINALS)
      && (forall t :: 0 <= t < TERMINALS ==> 0 <= terms[t].pid < PROCESSES)
      && (forall p :: 0 <= p < PROCESSES ==> pcbs[p].ebp.owner < PROCESSES && pcbs[p].parentEbp.owner < PROCESSES)
    }

    /** The index in pages of the page frame a video page table entry holds. */
    static function Slot(frame: int): int {
      if frame == VIDMEM_INDEX then 0 else frame - VIDMEM_INDEX - 1
    }

    /** What terminal t looks like to its user. */
    function View(t: nat): Screen
      requires Sound() && t < TERMINALS
    {
      var cells := pages[if t == shown then 0 else 1 + t];
      if t == active then Screen(cells, x, y) else Screen(cells, terms[t].x, terms[t].y)
    }
  }

  /** esp0 of a process: its kernel stack begins here and grows down to its control block. */
  function StackTop(pid: int): int { KERNEL_STACK - KERNEL_STACK_SIZE * pid }

  /** The page frame behind 0xB8000 while a terminal executes. */
  function VideoFrame(terminal: int, shown: int): int {
    if terminal == shown then VIDMEM_INDEX else VIDMEM_INDEX + terminal + 2
  }

  /** How the processor leaves the kernel after a step. */
  datatype Outcome =
    | Continue                            // where it was
    | Resume(frame: Frame)                // a context saved by the scheduler
    | Return(frame: Frame, value: int)    // the execute that started the halted process
    | Enter                               // the first instruction of a program
    | Fail                                // -1 to the caller
    | Fault                               // the handler of page faults

  datatype Event =
    | Tick
    | Switch(terminal: nat)
    | Execute(executable: bool)
    | Halt(value: int)                    // the status, or EXCEPTION
    | Interrupt                           // Ctrl+C on the shown terminal
    | Putc(c: Byte)
    | Echo(c: Byte)
    | Clear                               // Ctrl+L

  const KILLED := 6
  const EXCEPTION := 256

  // ---------------------------------------------------------------------------------
  // The steps as the code takes them
  // ---------------------------------------------------------------------------------

  /** The part that the timer and the terminal switch share: save one process, load another. */
  function Schedule(s: State, next: nat, id: nat): (r: (State, Outcome))
    requires s.Sound() && next < TERMINALS
  {
    var terms := s.terms[s.active := s.terms[s.active].(x := s.x, y := s.y)];
    var pcbs := s.pcbs[s.cpu := s.pcbs[s.cpu].(ebp := Frame(s.cpu, id), esp0 := s.esp0)];
    var pcb := pcbs[terms[next].pid];
    (s.(terms := terms, pcbs := pcbs, active := next,
        x := terms[next].x, y := terms[next].y,
        esp0 := pcb.esp0, userPage := 2 + pcb.pid, userVidPresent := pcb.vidmap,
        cpu := pcb.ebp.owner),
     Resume(pcb.ebp))
  }

  function PitHandler(s: State, id: nat): (r: (State, Outcome))
    requires s.Sound()
  {
    var next := (s.active + 1) % TERMINALS;
    var vid := VideoFrame(next, s.shown);
    Schedule(s.(kernelVid := vid, userVid := vid), next, id)
  }

  /** Puts the displayed page away and brings the page of terminal next in, at the real page. */
  function Display(s: State, next: nat): (r: State)
    requires s.Sound() && next < TERMINALS
    ensures r.Sound()
  {
    var pages := s.pages[1 + s.shown := s.pages[0]];
    s.(pages := pages[0 := pages[1 + next]], shown := next, kernelVid := VIDMEM_INDEX, userVid := VIDMEM_INDEX)
  }

  function SwitchTerminal(s: State, next: nat, id: nat): (r: (State, Outcome))
    requires s.Sound() && next < TERMINALS
  {
    if next == s.shown then (s, Continue) else Schedule(Display(s, next), next, id)
  }

  function FirstFree(pcbs: seq<Pcb>, from: nat): (p: nat)
    requires |pcbs| == PROCESSES && from <= PROCESSES
    ensures from <= p <= PROCESSES && (p < PROCESSES ==> !pcbs[p].present)
    ensures forall q :: from <= q < p ==> pcbs[q].present
    decreases PROCESSES - from
  {
    if from < PROCESSES && pcbs[from].present then FirstFree(pcbs, from + 1) else from
  }

  function Exec(s: State, executable: bool, id: nat): (r: (State, Outcome))
    requires s.Sound()
  {
    var p := FirstFree(s.pcbs, 0);
    if !executable || p == PROCESSES then (s, Fail)
    else
      var pcb := s.pcbs[p].(present := true, pid := p,
                            parent := if p < TERMINALS then -1 else s.cpu,
                            parentEbp := Frame(s.cpu, id), esp0 := StackTop(p));
      (s.(pcbs := s.pcbs[p := pcb], terms := s.terms[s.active := s.terms[s.active].(pid := p)],
          userPage := 2 + p, esp0 := StackTop(p), cpu := p),
       Enter)
  }

  /** The guard on parent stands for the pointer the code follows. */
  predicate CanHalt(s: State) {
    s.Sound() && (s.pcbs[s.cpu].pid < TERMINALS || 0 <= s.pcbs[s.cpu].parent < PROCESSES)
  }

  function Quit(s: State, value: int, id: nat): (r: (State, Outcome))
    requires CanHalt(s)
  {
    var was := s.pcbs[s.cpu];
    var freed := s.(pcbs := s.pcbs[s.cpu := was.(present := false, vidmap := false)],
                    terms := s.terms[s.active := s.terms[s.active].(toBeHalt := false)]);
    if was.pid < TERMINALS then Exec(freed, true, id)
    else
      var parent := freed.pcbs[was.parent];
      (freed.(terms := freed.terms[s.active := freed.terms[s.active].(pid := parent.pid)],
              userPage := 2 + parent.pid, esp0 := parent.esp0, cpu := was.parentEbp.owner),
       Return(was.parentEbp, value))
  }

  /** The pages have their size, and the cursors that are printed at are in one of the 25 rows. */
  predicate Printable(s: State) {
    s.Sound() && FourPages(s.pages) && s.y < 25 && (s.active != s.shown ==> s.terms[s.shown].y < 25)
  }

  /** The page that video_mem leads to while it is not borrowed by echo. */
  function MappedPage(s: State): (slot: nat)
    requires s.Sound()
    ensures slot < 4
  {
    State.Slot(s.kernelVid)
  }

  function Left(exit: Exit): Outcome {
    if exit.PageFault? then Fault else Continue
  }

  predicate CanPutc(s: State, c: Byte) {
    Printable(s) && InReach(Strip(MappedPage(s)), s.x, s.y, c)
  }

  /** What putc leaves, the copy of the cursor included unless it was left before. */
  function AfterPutc(s: State, p: Printed): State
    requires s.Sound()
  {
    var seen := p.exit.Done? && s.pcbs[s.cpu].pid == s.terms[s.shown].pid;
    s.(pages := p.pages, x := p.x, y := p.y,
       terms := if seen then s.terms[s.shown := s.terms[s.shown].(x := p.x, y := p.y)] else s.terms)
  }

  /** putc through the kernel's mapping of the video pages; nothing is mapped in front of it. */
  function PutcStep(s: State, c: Byte): (r: (State, Outcome))
    requires CanPutc(s, c)
  {
    var p := PrintOn(s.pages, Strip(MappedPage(s)), Unmapped, s.x, s.y, c);
    (AfterPutc(s, p), Left(p.exit))
  }

  predicate CanEcho(s: State, c: Byte) {
    if s.active == s.shown then CanPutc(s, c)
    else Printable(s) && InReach(BEHIND, s.terms[s.shown].x, s.terms[s.shown].y, c)
  }

  /** What lies in front of the page on display at 0xB9000: the last cell of the page mapped at 0xB8000. */
  function FrontOfDisplay(s: State): Front
    requires Printable(s)
  {
    Attribute(s.pages[MappedPage(s)][2047].attr)
  }

  function AfterEcho(s: State, p: Printed): State
    requires s.Sound()
  {
    s.(pages := p.pages, terms := s.terms[s.shown := s.terms[s.shown].(x := p.x, y := p.y)])
  }

  /** echo prints on the displayed page even when another terminal is executing. */
  function EchoStep(s: State, c: Byte): (r: (State, Outcome))
    requires CanEcho(s, c)
  {
    if s.active == s.shown then PutcStep(s, c)
    else
      var p := PrintOn(s.pages, BEHIND, FrontOfDisplay(s), s.terms[s.shown].x, s.terms[s.shown].y, c);
      (AfterEcho(s, p), Left(p.exit))
  }

  /** clear: blanks the page of the active terminal and resets the cursor of the shown one. */
  function ClearStep(s: State): State
    requires Printable(s)
  {
    var slot := MappedPage(s);
    var home := s.active == s.shown;
    s.(pages := s.pages[slot := Fill(s.pages[slot], 0, 2000, CLEARED)],
       terms := s.terms[s.shown := s.terms[s.shown].(x := 0, y := 0)],
       x := if home then 0 else s.x, y := if home then 0 else s.y)
  }

  /** vidmap: the user's page, found by the process number where it should be the terminal's. */
  function VidmapStep(s: State): State
    requires s.Sound()
  {
    var pcb := s.pcbs[s.cpu];
    s.(pcbs := s.pcbs[s.cpu := pcb.(vidmap := true)], userVidPresent := true,
       userVid := if s.active == s.shown then VIDMEM_INDEX else VIDMEM_INDEX + pcb.pid + 2)
  }

  /** One event; id numbers the point at which the running process is interrupted. */
  function Step(s: State, e: Event, id: nat): (r: (State, Outcome))
    requires CanStep(s, e)
  {
    match e
    case Tick =>
      var (after, resumed) := PitHandler(s, id);
      if after.terms[after.active].toBeHalt then Quit(after, KILLED, id) else (after, resumed)
    case Switch(t) => SwitchTerminal(s, t, id)
    case Execute(executable) => Exec(s, executable, id)
    case Halt(value) => Quit(s, value, id)
    case Interrupt => (s.(terms := s.terms[s.shown := s.terms[s.shown].(toBeHalt := true)]), Continue)
    case Putc(c) => PutcStep(s, c)
    case Echo(c) => EchoStep(s, c)
    case Clear => (ClearStep(s), Continue)
  }

  /** The pointers that the step follows are good, and what it prints falls in a page that is mapped. */
  predicate CanStep(s: State, e: Event) {
    && s.Sound()
    && match e
       case Tick =>
         var after := PitHandler(s, 0).0;
         after.terms[after.active].toBeHalt ==> CanHalt(after)
       case Switch(t) => t < TERMINALS
       case Halt(_) => CanHalt(s)
       case Putc(c) => CanPutc(s, c)
       case Echo(c) => CanEcho(s, c)
       case Clear => Printable(s)
       case _ => true
  }

  // ---------------------------------------------------------------------------------
  // Runs
  // ---------------------------------------------------------------------------------

  predicate CanRun(s: State, es: seq<Event>, id: nat)
    decreases |es|
  {
    es == [] || (CanStep(s, es[0]) && CanRun(Step(s, es[0], id).0, es[1..], id + 1))
  }

  /** The state after a run and how the processor left the kernel after each of its steps. */
  function RunAll(s: State, es: seq<Event>, id: nat): (r: (State, seq<Outcome>))
    requires CanRun(s, es, id)
    ensures |r.1| == |es|
    decreases |es|
  {
    if es == [] then (s, [])
    else
      var (r, o) := Step(s, es[0], id);
      var (end, os) := RunAll(r, es[1..], id + 1);
      (end, [o] + os)
  }

  /** What initiate_shells leaves: three shells, each about to start on its own stack. */
  function Initial(pages: seq<seq<Cell>>, rest: seq<Pcb>): State
    requires |rest| == PROCESSES - TERMINALS
  {
    State(
      seq(TERMINALS, p requires 0 <= p < TERMINALS =>
        Pcb(true, false, p, -1, Frame(p, 0), Frame(p, 0), StackTop(p))) + rest,
      seq(TERMINALS, t requires 0 <= t < TERMINALS => Terminal(t, 0, 0, false)),
      0, 0, VIDMEM_INDEX, VIDMEM_INDEX, false, 2, StackTop(0), 0, pages, 0, 0)
  }

  /**
   The mask of get_current_pcb: every stack pointer within the 8 KB below a process's stack
   top gives the address of that process's control block, and no other pointer does.
   */
  lemma StackMask(esp: bv32, p: bv32)
    requires p < 6 && esp < 0x800000
    ensures esp & 0x7FE000 == 0x800000 - (p + 1) * 0x2000
      <==> 0x800000 - (p + 1) * 0x2000 <= esp && esp - (0x800000 - (p + 1) * 0x2000) < 0x2000
  {}
}
