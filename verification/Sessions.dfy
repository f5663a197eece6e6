/**
 What the kernel is for: three terminals, each with a screen of its own and a stack of programs
 that called each other, and a scheduler that picks which one runs. They know nothing of each
 other but for two things: a byte that falls behind its page, and clear.
 */
module Sessions {
  import opened Bytes
  import opened Console
  import opened Limits
  import opened Machine
  import opened Printing

  /**
   A terminal of its own: what it shows, its processes from the base shell to the one that
   executes, the calls to execute that have not returned, the context it waits in while
   another terminal runs, and whether Ctrl+C is pending.
   */
  datatype Session = Session(view: Screen, chain: seq<nat>, calls: seq<Frame>, waiting: Frame, doomed: bool) {
    function Top(): nat
      requires chain != []
    {
      chain[|chain| - 1]
    }
  }

  /**
   behind is the backup page of the terminal on display, which nobody sees: what that terminal
   showed when it came on display.
   */
  datatype Ideal = Ideal(sessions: seq<Session>, active: nat, shown: nat, behind: seq<Cell>) {
    predicate Sound() {
      && |sessions| == TERMINALS && active < TERMINALS && shown < TERMINALS && |behind| == 2048
      && forall t :: 0 <= t < TERMINALS ==>
           |sessions[t].chain| == |sessions[t].calls| + 1 && sessions[t].view.Paged()
    }

    /** The i-th process of terminal t, from the base shell up. */
    function At(t: nat, i: nat): nat
      requires Sound() && t < TERMINALS && i < |sessions[t].chain|
    {
      sessions[t].chain[i]
    }

    predicate InUse(p: nat)
      requires Sound()
    {
      p in sessions[0].chain || p in sessions[1].chain || p in sessions[2].chain
    }

    function LeastUnused(from: nat): (p: nat)
      requires Sound() && from <= PROCESSES
      ensures from <= p <= PROCESSES && (p < PROCESSES ==> !InUse(p))
      decreases PROCESSES - from
    {
      if from < PROCESSES && InUse(from) then LeastUnused(from + 1) else from
    }

    /** Replaces the session that executes. */
    function With(s: Session): Ideal
      requires Sound()
    {
      this.(sessions := sessions[active := s])
    }

    function Showing(t: nat, view: Screen): Ideal
      requires Sound() && t < TERMINALS
    {
      this.(sessions := sessions[t := sessions[t].(view := view)])
    }

    /** The page that terminal t is shown on. */
    function Place(t: nat): nat { if t == shown then 0 else 1 + t }

    /** The video pages, as the screens of the terminals. */
    function Pages(): (pages: seq<seq<Cell>>)
      requires Sound()
      ensures FourPages(pages) && forall t :: 0 <= t < TERMINALS ==> pages[Place(t)] == sessions[t].view.cells
    {
      [sessions[shown].view.cells]
      + seq(TERMINALS, t requires 0 <= t < TERMINALS => if t == shown then behind else sessions[t].view.cells)
    }

    function WithPages(pages: seq<seq<Cell>>): (r: Ideal)
      requires Sound() && FourPages(pages)
      ensures r.Sound() && r.Pages() == pages
    {
      var r := this.(
        sessions := seq(TERMINALS, t requires 0 <= t < TERMINALS =>
          sessions[t].(view := sessions[t].view.(cells := pages[Place(t)]))),
        behind := pages[1 + shown]);
      assert r.Pages() == pages;
      r
    }

    function Me(): Session
      requires Sound()
    {
      sessions[active]
    }

    /** The point where the executing process is now. */
    function Here(id: nat): Frame
      requires Sound()
    {
      Frame(Me().Top(), id)
    }
  }

  /** b is a but for what the terminals show, what is behind the display, and pending Ctrl+Cs. */
  ghost predicate OnlyViews(a: Ideal, b: Ideal)
    requires a.Sound() && b.Sound()
  {
    && b.active == a.active && b.shown == a.shown
    && forall t :: 0 <= t < TERMINALS ==>
         b.sessions[t] == a.sessions[t].(view := b.sessions[t].view, doomed := b.sessions[t].doomed)
  }

  /** Puts terminal next on display; its own page stays behind. */
  function IdealDisplay(a: Ideal, next: nat): (r: Ideal)
    requires a.Sound() && next < TERMINALS
    ensures r.Sound()
  {
    a.(shown := next, behind := a.sessions[next].view.cells)
  }

  function IdealSchedule(a: Ideal, next: nat, id: nat): (r: (Ideal, Outcome))
    requires a.Sound() && next < TERMINALS
    ensures r.0.Sound()
  {
    var b := a.With(a.Me().(waiting := a.Here(id)));
    (b.(active := next), Resume(b.sessions[next].waiting))
  }

  /** Runs a program on top of the caller, unless all processes are taken. */
  function IdealExec(a: Ideal, executable: bool, id: nat): (r: (Ideal, Outcome))
    requires a.Sound()
    ensures r.0.Sound()
  {
    var p := a.LeastUnused(0);
    if !executable || p == PROCESSES then (a, Fail)
    else (a.With(a.Me().(chain := a.Me().chain + [p], calls := a.Me().calls + [a.Here(id)])), Enter)
  }

  /** Returns from the latest execute; a base shell starts afresh. */
  function IdealHalt(a: Ideal, value: int): (r: (Ideal, Outcome))
    requires a.Sound()
    ensures r.0.Sound()
  {
    var me := a.Me().(doomed := false);
    var depth := |me.calls|;
    if depth == 0 then (a.With(me), Enter)
    else (a.With(me.(chain := me.chain[..depth], calls := me.calls[..depth - 1])),
          Return(me.calls[depth - 1], value))
  }

  function EchoStrip(a: Ideal): (strip: seq<nat>)
    requires a.Sound()
    ensures IsStrip(strip) && strip[0] == a.Place(a.shown)
  {
    if a.active == a.shown then Strip(0) else BEHIND
  }

  /** A byte for terminal t that falls behind its page. */
  function IdealSpill(a: Ideal, t: nat, strip: seq<nat>, c: Byte): (r: Ideal)
    requires a.Sound() && t < TERMINALS && IsStrip(strip) && strip[0] == a.Place(t)
    requires !Fits(a.sessions[t].view, c) && InReach(strip, a.sessions[t].view.x, a.sessions[t].view.y, c)
    ensures r.Sound() && OnlyViews(a, r)
  {
    var p := Spill(a.Pages(), strip, a.sessions[t].view.x, a.sessions[t].view.y, c);
    var b := a.WithPages(p.pages);
    b.Showing(t, b.sessions[t].view.(x := p.x))
  }

  /** Prints on the page of terminal t, as a console of its own does, as long as the byte falls in it. */
  function IdealPut(a: Ideal, t: nat, strip: seq<nat>, c: Byte): (r: Ideal)
    requires a.Sound() && t < TERMINALS && IsStrip(strip) && strip[0] == a.Place(t)
    requires InReach(strip, a.sessions[t].view.x, a.sessions[t].view.y, c)
    ensures r.Sound() && OnlyViews(a, r)
  {
    if Fits(a.sessions[t].view, c) then a.Showing(t, Put(a.sessions[t].view, c)) else IdealSpill(a, t, strip, c)
  }

  /** A backspace that would read the cell in front of video memory faults. */
  function IdealExit(view: Screen, c: Byte): Outcome {
    if Fits(view, c) then Left(PutExit(view, Unmapped, c)) else Continue
  }

  /** clear takes the page from the terminal that executes and the cursor from the one on display. */
  function IdealClear(a: Ideal): (r: Ideal)
    requires a.Sound()
    ensures r.Sound() && OnlyViews(a, r)
  {
    var view := a.Me().view;
    var b := a.Showing(a.active, view.(cells := Fill(view.cells, 0, 2000, CLEARED)));
    b.Showing(b.shown, b.sessions[b.shown].view.(x := 0, y := 0))
  }

  // ---------------------------------------------------------------------------------
  // What holds at every moment
  // ---------------------------------------------------------------------------------

  /** The base shell has the terminal's own pid, and the context it waits in lies on its top process's stack. */
  ghost predicate GoodSession(a: Ideal, t: nat)
    requires a.Sound() && t < TERMINALS
  {
    var me := a.sessions[t];
    me.chain[0] == t && (t != a.active ==> me.waiting.owner == me.Top())
  }

  /** A process above a base shell, called from a point on its parent's stack. */
  ghost predicate GoodCall(a: Ideal, t: nat, i: nat)
    requires a.Sound() && t < TERMINALS && 0 < i < |a.sessions[t].chain|
  {
    var me := a.sessions[t];
    TERMINALS <= me.chain[i] < PROCESSES && me.calls[i - 1].owner == me.chain[i - 1]
  }

  /** No process is in two places. */
  ghost predicate Distinct(a: Ideal)
    requires a.Sound()
  {
    forall t, i, u, j | 0 <= t < TERMINALS && 0 <= u < TERMINALS
      && 0 <= i < |a.sessions[t].chain| && 0 <= j < |a.sessions[u].chain|
      && a.At(t, i) == a.At(u, j) :: t == u && i == j
  }

  /** Everything the three terminals satisfy at every moment. */
  ghost predicate Good(a: Ideal) {
    && a.Sound()
    && (forall t :: 0 <= t < TERMINALS ==> GoodSession(a, t))
    && (forall t, i :: 0 <= t < TERMINALS && 0 < i < |a.sessions[t].chain| ==> GoodCall(a, t, i))
    && Distinct(a)
  }

  // ---------------------------------------------------------------------------------
  // Steps and runs
  // ---------------------------------------------------------------------------------

  /**
   What a program or a user prints falls in a page that is mapped. Behind those it faults, and
   so does the message of the handler, again and again.
   */
  predicate Allowed(a: Ideal, e: Event)
    requires a.Sound()
  {
    match e
    case Switch(t) => t < TERMINALS
    case Putc(c) => InReach(Strip(a.Place(a.active)), a.Me().view.x, a.Me().view.y, c)
    case Echo(c) => InReach(EchoStrip(a), a.sessions[a.shown].view.x, a.sessions[a.shown].view.y, c)
    case _ => true
  }

  function IdealStep(a: Ideal, e: Event, id: nat): (r: (Ideal, Outcome))
    requires a.Sound() && Allowed(a, e)
    ensures r.0.Sound()
  {
    match e
    case Tick =>
      var (b, resumed) := IdealSchedule(a, (a.active + 1) % TERMINALS, id);
      if b.Me().doomed then IdealHalt(b, KILLED) else (b, resumed)
    case Switch(t) =>
      if t == a.shown then (a, Continue)
      else IdealSchedule(IdealDisplay(a, t), t, id)
    case Execute(executable) => IdealExec(a, executable, id)
    case Halt(value) => IdealHalt(a, value)
    case Interrupt =>
      (a.(sessions := a.sessions[a.shown := a.sessions[a.shown].(doomed := true)]), Continue)
    case Putc(c) => (IdealPut(a, a.active, Strip(a.Place(a.active)), c), IdealExit(a.Me().view, c))
    case Echo(c) =>
      (IdealPut(a, a.shown, EchoStrip(a), c), if a.active == a.shown then IdealExit(a.Me().view, c) else Continue)
    case Clear => (IdealClear(a), Continue)
  }

  /** Different terminals have different processes on top. */
  lemma TopsDiffer(a: Ideal, t: nat, u: nat)
    requires Good(a) && t < TERMINALS && u < TERMINALS && t != u
    ensures a.sessions[t].Top() != a.sessions[u].Top()
  {
    assert a.At(t, |a.sessions[t].chain| - 1) != a.At(u, |a.sessions[u].chain| - 1);
  }

  lemma SameChains(a: Ideal, b: Ideal)
    requires a.Sound() && b.Sound() && Distinct(a)
    requires forall t :: 0 <= t < TERMINALS ==> b.sessions[t].chain == a.sessions[t].chain
    ensures Distinct(b)
  {
    assert forall t, i :: 0 <= t < TERMINALS && 0 <= i < |b.sessions[t].chain| ==> b.At(t, i) == a.At(t, i);
  }

  lemma IdealScheduleGood(a: Ideal, next: nat, id: nat)
    requires Good(a) && next < TERMINALS
    ensures Good(IdealSchedule(a, next, id).0)
  {
    var b := IdealSchedule(a, next, id).0;
    SameChains(a, b);
    forall t | 0 <= t < TERMINALS ensures GoodSession(b, t) {
      assert GoodSession(a, t);
    }
    forall t, i | 0 <= t < TERMINALS && 0 < i < |b.sessions[t].chain| ensures GoodCall(b, t, i) {
      assert GoodCall(a, t, i);
    }
  }

  lemma InUseAt(a: Ideal, t: nat, i: nat)
    requires a.Sound() && t < TERMINALS && i < |a.sessions[t].chain|
    ensures a.InUse(a.sessions[t].chain[i])
  {}

  lemma BasesInUse(a: Ideal)
    requires Good(a)
    ensures a.InUse(0) && a.InUse(1) && a.InUse(2)
  {
    assert GoodSession(a, 0) && GoodSession(a, 1) && GoodSession(a, 2);
    InUseAt(a, 0, 0);
    InUseAt(a, 1, 0);
    InUseAt(a, 2, 0);
  }

  lemma IdealExecGood(a: Ideal, id: nat)
    requires Good(a) && a.LeastUnused(0) < PROCESSES
    ensures Good(IdealExec(a, true, id).0)
  {
    BasesInUse(a);
    var b := IdealExec(a, true, id).0;
    forall t | 0 <= t < TERMINALS ensures GoodSession(b, t) {
      assert GoodSession(a, t);
    }
    forall t, i | 0 <= t < TERMINALS && 0 < i < |b.sessions[t].chain| ensures GoodCall(b, t, i) {
      assert i < |a.sessions[t].chain| ==> GoodCall(a, t, i);
    }
    forall t, i | 0 <= t < TERMINALS && 0 <= i < |b.sessions[t].chain|
      ensures b.At(t, i) == a.LeastUnused(0) <==> t == a.active && i == |a.Me().chain|
      ensures b.At(t, i) != a.LeastUnused(0) ==> i < |a.sessions[t].chain| && b.At(t, i) == a.At(t, i)
    {
      if i < |a.sessions[t].chain| { InUseAt(a, t, i); }
    }
  }

  lemma IdealHaltGood(a: Ideal, value: int)
    requires Good(a)
    ensures Good(IdealHalt(a, value).0)
  {
    var b := IdealHalt(a, value).0;
    assert forall t, i :: 0 <= t < TERMINALS && 0 <= i < |b.sessions[t].chain| ==> b.At(t, i) == a.At(t, i);
    forall t | 0 <= t < TERMINALS ensures GoodSession(b, t) {
      assert GoodSession(a, t);
    }
    forall t, i | 0 <= t < TERMINALS && 0 < i < |b.sessions[t].chain| ensures GoodCall(b, t, i) {
      assert GoodCall(a, t, i);
    }
  }

  lemma OnlyTop(a: Ideal, t: nat, i: nat)
    requires Good(a) && t < TERMINALS && i < |a.sessions[t].chain|
    ensures a.sessions[t].chain[i] == a.Me().Top() ==> t == a.active && i == |a.Me().calls|
  {
    assert a.At(t, i) == a.sessions[t].chain[i] && a.At(a.active, |a.Me().calls|) == a.Me().Top();
  }

  lemma ReturnInUse(a: Ideal, value: int, q: nat)
    requires Good(a) && a.Me().calls != []
    ensures IdealHalt(a, value).0.InUse(q) <==> a.InUse(q) && q != a.Me().Top()
  {
    var b := IdealHalt(a, value).0;
    assert a.Me().chain == b.Me().chain + [a.Me().Top()];
    forall t, i | 0 <= t < TERMINALS && 0 <= i < |b.sessions[t].chain|
      ensures b.sessions[t].chain[i] != a.Me().Top()
    {
      OnlyTop(a, t, i);
    }
  }

  lemma ViewsGood(a: Ideal, b: Ideal)
    requires Good(a) && b.Sound() && OnlyViews(a, b)
    ensures Good(b)
  {
    SameChains(a, b);
    forall u | 0 <= u < TERMINALS ensures GoodSession(b, u) {
      assert GoodSession(a, u);
    }
    forall u, i | 0 <= u < TERMINALS && 0 < i < |b.sessions[u].chain| ensures GoodCall(b, u, i) {
      assert GoodCall(a, u, i);
    }
  }

  predicate AllowedAll(a: Ideal, es: seq<Event>, id: nat)
    requires a.Sound()
    decreases |es|
  {
    es == [] || (Allowed(a, es[0]) && AllowedAll(IdealStep(a, es[0], id).0, es[1..], id + 1))
  }

  function IdealRun(a: Ideal, es: seq<Event>, id: nat): (r: (Ideal, seq<Outcome>))
    requires a.Sound() && AllowedAll(a, es, id)
    ensures r.0.Sound() && |r.1| == |es|
    decreases |es|
  {
    if es == [] then (a, [])
    else
      var (b, o) := IdealStep(a, es[0], id);
      var (end, os) := IdealRun(b, es[1..], id + 1);
      (end, [o] + os)
  }

  function InitialIdeal(pages: seq<seq<Cell>>): Ideal
    requires |pages| == 4
  {
    Ideal(
      seq(TERMINALS, t requires 0 <= t < TERMINALS =>
        Session(Screen(pages[if t == 0 then 0 else 1 + t], 0, 0), [t], [], Frame(t, 0), false)),
      0, 0, pages[1])
  }

  /** The characters of a run that are meant for terminal t. */
  function Addressed(a: Ideal, es: seq<Event>, id: nat, t: nat): seq<Byte>
    requires a.Sound() && AllowedAll(a, es, id)
    decreases |es|
  {
    if es == [] then []
    else
      var rest := Addressed(IdealStep(a, es[0], id).0, es[1..], id + 1, t);
      match es[0]
      case Putc(c) => if t == a.active then [c] + rest else rest
      case Echo(c) => if t == a.shown then [c] + rest else rest
      case _ => rest
  }

  /** A byte for terminal u leaves terminal t alone, or is one that a console of its own takes. */
  predicate SparesByte(a: Ideal, u: nat, strip: seq<nat>, c: Byte, t: nat)
    requires a.Sound() && t < TERMINALS && u < TERMINALS && IsStrip(strip) && strip[0] == a.Place(u)
    requires InReach(strip, a.sessions[u].view.x, a.sessions[u].view.y, c)
  {
    var view := a.sessions[u].view;
    Fits(view, c) || (t != u && Harmless(a.Pages(), strip, Traced(a.Pages(), strip, view.x, view.y, c), a.Place(t)))
  }

  /** The step does to terminal t only what a console of its own does. */
  predicate Spares(a: Ideal, e: Event, t: nat)
    requires a.Sound() && Allowed(a, e) && t < TERMINALS
  {
    match e
    case Putc(c) => SparesByte(a, a.active, Strip(a.Place(a.active)), c, t)
    case Echo(c) => SparesByte(a, a.shown, EchoStrip(a), c, t)
    case Clear =>
      && (t == a.active ==> forall k :: 0 <= k < 2000 ==> a.sessions[t].view.cells[k] == CLEARED)
      && (t == a.shown ==> a.sessions[t].view.x == 0 && a.sessions[t].view.y == 0)
    case _ => true
  }

  predicate IsFor(a: Ideal, e: Event, t: nat) {
    (e.Putc? && t == a.active) || (e.Echo? && t == a.shown)
  }

  lemma SpillSpares(a: Ideal, u: nat, strip: seq<nat>, c: Byte, t: nat)
    requires a.Sound() && t < TERMINALS && u < TERMINALS && t != u && IsStrip(strip) && strip[0] == a.Place(u)
    requires !Fits(a.sessions[u].view, c) && InReach(strip, a.sessions[u].view.x, a.sessions[u].view.y, c)
    ensures IdealSpill(a, u, strip, c).sessions[t].view == a.sessions[t].view <==> SparesByte(a, u, strip, c, t)
  {
    var view := a.sessions[u].view;
    SpillSparesExactly(a.Pages(), strip, view.x, view.y, c, a.Place(t));
  }

  /** A terminal that a step is not meant for looks the same afterwards exactly when the step spares it. */
  lemma SparesExactly(a: Ideal, e: Event, id: nat, t: nat)
    requires a.Sound() && Allowed(a, e) && t < TERMINALS && !IsFor(a, e, t)
    ensures IdealStep(a, e, id).0.sessions[t].view == a.sessions[t].view <==> Spares(a, e, t)
  {
    match e
    case Putc(c) =>
      if !Fits(a.Me().view, c) { SpillSpares(a, a.active, Strip(a.Place(a.active)), c, t); }
    case Echo(c) =>
      if !Fits(a.sessions[a.shown].view, c) { SpillSpares(a, a.shown, EchoStrip(a), c, t); }
    case Clear => ClearSparesExactly(a, t);
    case _ =>
  }

  lemma ClearSparesExactly(a: Ideal, t: nat)
    requires a.Sound() && t < TERMINALS
    ensures IdealClear(a).sessions[t].view == a.sessions[t].view <==> Spares(a, Clear, t)
  {
    var cells := a.sessions[t].view.cells;
    if forall k :: 0 <= k < 2000 ==> cells[k] == CLEARED {
      assert Fill(cells, 0, 2000, CLEARED) == cells;
    }
  }

  predicate SparesAll(a: Ideal, es: seq<Event>, id: nat, t: nat)
    requires a.Sound() && AllowedAll(a, es, id) && t < TERMINALS
    decreases |es|
  {
    es == [] || (Spares(a, es[0], t) && SparesAll(IdealStep(a, es[0], id).0, es[1..], id + 1, t))
  }

  /** Whatever else runs, a terminal that is spared ends up showing its own characters and nothing more. */
  lemma {:induction false} PrivateScreen(a: Ideal, es: seq<Event>, id: nat, t: nat)
    requires a.Sound() && AllowedAll(a, es, id) && t < TERMINALS && SparesAll(a, es, id, t)
    ensures var text := Addressed(a, es, id, t);
      FitsAll(a.sessions[t].view, text)
      && IdealRun(a, es, id).0.sessions[t].view == Run(a.sessions[t].view, text)
    decreases |es|
  {
    if es != [] {
      var b := IdealStep(a, es[0], id).0;
      PrivateScreen(b, es[1..], id + 1, t);
      var rest := Addressed(b, es[1..], id + 1, t);
      if IsFor(a, es[0], t) {
        assert ([es[0].c] + rest)[1..] == rest;
        assert b.sessions[t].view == Put(a.sessions[t].view, es[0].c);
      } else {
        SparesExactly(a, es[0], id, t);
      }
    }
  }

  /** Every byte of a run falls in the page it is meant for, and nobody clears. */
  predicate Contained(a: Ideal, es: seq<Event>, id: nat)
    requires a.Sound() && AllowedAll(a, es, id)
    decreases |es|
  {
    es == [] || (
      && (es[0].Putc? ==> Fits(a.Me().view, es[0].c)) && (es[0].Echo? ==> Fits(a.sessions[a.shown].view, es[0].c))
      && !es[0].Clear? && Contained(IdealStep(a, es[0], id).0, es[1..], id + 1))
  }

  /** Such a run spares every terminal. */
  lemma {:induction false} ContainedSpares(a: Ideal, es: seq<Event>, id: nat, t: nat)
    requires a.Sound() && AllowedAll(a, es, id) && t < TERMINALS && Contained(a, es, id)
    ensures SparesAll(a, es, id, t)
    decreases |es|
  {
    if es != [] { ContainedSpares(IdealStep(a, es[0], id).0, es[1..], id + 1, t); }
  }

  /** The first depth calls of terminal t stay open throughout a run. */
  predicate KeepsOpen(a: Ideal, es: seq<Event>, id: nat, t: nat, depth: nat)
    requires a.Sound() && AllowedAll(a, es, id) && t < TERMINALS
    decreases |es|
  {
    depth <= |a.sessions[t].calls| &&
    (es == [] || KeepsOpen(IdealStep(a, es[0], id).0, es[1..], id + 1, t, depth))
  }

  lemma HaltCalls(a: Ideal, value: int, t: nat, depth: nat)
    requires a.Sound() && t < TERMINALS && depth <= |a.sessions[t].calls|
    requires depth <= |IdealHalt(a, value).0.sessions[t].calls|
    ensures IdealHalt(a, value).0.sessions[t].calls[..depth] == a.sessions[t].calls[..depth]
  {}

  lemma StepCalls(a: Ideal, e: Event, id: nat, t: nat, depth: nat)
    requires a.Sound() && Allowed(a, e) && t < TERMINALS && depth <= |a.sessions[t].calls|
    requires depth <= |IdealStep(a, e, id).0.sessions[t].calls|
    ensures IdealStep(a, e, id).0.sessions[t].calls[..depth] == a.sessions[t].calls[..depth]
  {
    match e
    case Tick =>
      var b := IdealSchedule(a, (a.active + 1) % TERMINALS, id).0;
      assert b.sessions[t].calls == a.sessions[t].calls;
      if b.Me().doomed { HaltCalls(b, KILLED, t, depth); }
    case Halt(value) => HaltCalls(a, value, t, depth);
    case Putc(c) => assert OnlyViews(a, IdealStep(a, e, id).0);
    case Echo(c) => assert OnlyViews(a, IdealStep(a, e, id).0);
    case Clear => assert OnlyViews(a, IdealStep(a, e, id).0);
    case _ =>
  }

  lemma {:induction false} OpenCallsStay(a: Ideal, es: seq<Event>, id: nat, t: nat, depth: nat)
    requires a.Sound() && AllowedAll(a, es, id) && t < TERMINALS && KeepsOpen(a, es, id, t, depth)
    ensures var end := IdealRun(a, es, id).0.sessions[t].calls;
      depth <= |end| && end[..depth] == a.sessions[t].calls[..depth]
    decreases |es|
  {
    if es != [] {
      var b := IdealStep(a, es[0], id).0;
      OpenCallsStay(b, es[1..], id + 1, t, depth);
      StepCalls(a, es[0], id, t, depth);
    }
  }

  /** After a successful execute, es runs until its own calls are closed and its caller's terminal executes. */
  predicate Nested(a: Ideal, id: nat, es: seq<Event>)
    requires a.Sound()
  {
    var (b, o) := IdealExec(a, true, id);
    var depth := |a.Me().calls|;
    && o == Enter && AllowedAll(b, es, id + 1)
    && KeepsOpen(b, es, id + 1, a.active, depth + 1)
    && var c := IdealRun(b, es, id + 1).0;
       c.active == a.active && |c.Me().calls| == depth + 1
  }

  lemma IdealHaltMatches(a: Ideal, id: nat, es: seq<Event>, value: int)
    requires a.Sound() && Nested(a, id, es)
    ensures IdealHalt(IdealRun(IdealExec(a, true, id).0, es, id + 1).0, value).1 == Return(a.Here(id), value)
  {
    var (b, depth) := (IdealExec(a, true, id).0, |a.Me().calls|);
    OpenCallsStay(b, es, id + 1, a.active, depth + 1);
    var c := IdealRun(b, es, id + 1).0;
    assert c.Me().calls[depth] == c.Me().calls[..depth + 1][depth] == a.Here(id);
  }
}
