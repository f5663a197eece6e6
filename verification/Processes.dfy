/**
 What the steps of module Machine mean for a single process: the stack it runs on, when it gets
 the processor, and where it goes on.
 */
module Processes {
  import opened Bytes
  import opened Console
  import opened Limits
  import opened Machine
  import opened Refinement
  import opened Sessions

  // ---------------------------------------------------------------------------------
  // Stacks
  // ---------------------------------------------------------------------------------

  /** get_current_pcb: the control block that a stack pointer leads to. */
  function CurrentPcb(esp: bv32): bv32 { esp & 0x7FE000 }

  /**
   A process that starts its kernel stack at esp0 has the 8 KB from its control block on to
   itself: pointers into them, and no others, lead to that block.
   */
  ghost predicate OwnsStack(p: int, esp0: int) {
    && 0 <= p < 6 && esp0 == (0x800000 - (p + 1) * 0x2000) + 0x2000
    && forall esp: bv32 :: esp < 0x800000 ==>
         (CurrentPcb(esp) == 0x800000 - ((p as bv32) + 1) * 0x2000
          <==> 0x800000 - ((p as bv32) + 1) * 0x2000 <= esp < (esp0 as bv32))
  }

  lemma ShellStackOwned(p: int)
    requires 0 <= p < 3
    ensures OwnsStack(p, StackTop(p))
  {
    if
    case p == 0 => assert StackTop(p) == 0x800000;
    case p == 1 => assert StackTop(p) == 0x7FE000;
    case p == 2 => assert StackTop(p) == 0x7FC000;
  }

  lemma StackOwned(p: int)
    requires 0 <= p < 6
    ensures OwnsStack(p, StackTop(p))
  {
    if
    case p < 3 => ShellStackOwned(p);
    case p == 3 => assert StackTop(p) == 0x7FA000;
    case p == 4 => assert StackTop(p) == 0x7F8000;
    case p == 5 => assert StackTop(p) == 0x7F6000;
  }

  /** The processor enters the kernel on the stack of the running process, and every process has its own. */
  lemma StacksApart(s: State, a: Ideal)
    requires Refines(s, a)
    ensures OwnsStack(s.cpu, s.esp0)
    ensures forall p :: 0 <= p < PROCESSES && s.pcbs[p].present ==> OwnsStack(p, s.pcbs[p].esp0)
  {
    StackOwned(s.cpu);
    forall p | 0 <= p < PROCESSES && s.pcbs[p].present ensures OwnsStack(p, s.pcbs[p].esp0) {
      assert a.InUse(p);
      var t, i :| 0 <= t < TERMINALS && 0 <= i < |a.sessions[t].chain| && a.sessions[t].chain[i] == p;
      assert Linked(s, a, t, i);
      StackOwned(p);
    }
  }

  // ---------------------------------------------------------------------------------
  // Starting
  // ---------------------------------------------------------------------------------

  /** execute fails exactly when the file is no program or six processes run; otherwise the lowest slot that is free runs it. */
  lemma ExecExactly(s: State, executable: bool, id: nat)
    requires s.Sound()
    ensures Exec(s, executable, id).1 == Fail <==> !executable || forall p :: 0 <= p < 6 ==> s.pcbs[p].present
    ensures var (r, o) := Exec(s, executable, id);
      if o == Fail then r == s
      else
        && o == Enter && r.cpu < 6 && !s.pcbs[r.cpu].present && (forall p :: 0 <= p < r.cpu ==> s.pcbs[p].present)
        && r.pcbs[r.cpu].present && r.pcbs[r.cpu].pid == r.terms[s.active].pid == r.cpu && r.userPage == 2 + r.cpu
        && r.pcbs[r.cpu].parent == (if r.cpu < 3 then -1 else s.cpu) && r.pcbs[r.cpu].parentEbp == Frame(s.cpu, id)
        && OwnsStack(r.cpu, r.esp0) && r.pcbs[r.cpu].esp0 == r.esp0
        && (forall p :: 0 <= p < 6 && p != r.cpu ==> r.pcbs[p] == s.pcbs[p])
        && forall t :: 0 <= t < 3 && t != s.active ==> r.terms[t] == s.terms[t]
  {
    var p := FirstFree(s.pcbs, 0);
    if p < 6 { StackOwned(p); }
  }

  /**
   halt of a program gives the processor back to its caller on the caller's own stack, page and
   process, and leaves the other processes alone; its slot is free and asks for no mapping.
   */
  lemma HaltExactly(s: State, a: Ideal, value: int, id: nat)
    requires Refines(s, a) && a.Me().calls != []
    ensures CanHalt(s)
    ensures var (r, o) := Quit(s, value, id);
      && r.cpu == r.terms[s.active].pid == s.pcbs[s.cpu].parent && r.userPage == 2 + r.cpu
      && o == Return(s.pcbs[s.cpu].parentEbp, value) && s.pcbs[s.cpu].parentEbp.owner == r.cpu
      && r.esp0 == s.pcbs[r.cpu].esp0 && OwnsStack(r.cpu, r.esp0)
      && !r.pcbs[s.cpu].present && !r.pcbs[s.cpu].vidmap && !r.terms[s.active].toBeHalt
      && (forall p :: 0 <= p < 6 && p != s.cpu ==> r.pcbs[p] == s.pcbs[p])
      && forall t :: 0 <= t < 3 && t != s.active ==> r.terms[t] == s.terms[t]
  {
    QuitRefines(s, a, value, id);
    TopLinked(s, a);
    StacksApart(Quit(s, value, id).0, IdealHalt(a, value).0);
  }

  /** halt of a base shell starts it anew in its own slot, which asks for no mapping. */
  lemma ShellAgain(s: State, a: Ideal, value: int, id: nat)
    requires Refines(s, a) && a.Me().calls == []
    ensures CanHalt(s)
    ensures var (r, o) := Quit(s, value, id);
      && o == Enter && r.cpu == s.cpu == s.active && r.pcbs[s.cpu].present && !r.pcbs[s.cpu].vidmap
      && OwnsStack(s.cpu, r.esp0) && !r.terms[s.active].toBeHalt
      && forall p :: 0 <= p < 6 && p != s.cpu ==> r.pcbs[p] == s.pcbs[p]
  {
    QuitRefines(s, a, value, id);
    RespawnSlot(s, a);
    TopLinked(s, a);
    StacksApart(Quit(s, value, id).0, IdealHalt(a, value).0);
  }

  // ---------------------------------------------------------------------------------
  // Turns
  // ---------------------------------------------------------------------------------

  /** Which terminal executes and which is on display after some events: round and round, and where the user goes. */
  function Turns(active: nat, shown: nat, es: seq<Event>): (nat, nat)
    decreases |es|
  {
    if es == [] then (active, shown)
    else
      match es[0]
      case Tick => Turns(if active == 2 then 0 else active + 1, shown, es[1..])
      case Switch(t) => if t == shown then Turns(active, shown, es[1..]) else Turns(t, t, es[1..])
      case _ => Turns(active, shown, es[1..])
  }

  lemma StepTurns(a: Ideal, e: Event, id: nat)
    requires a.Sound() && Allowed(a, e)
    ensures var b := IdealStep(a, e, id).0;
      Turns(a.active, a.shown, [e]) == (b.active, b.shown)
  {
    assert [e][1..] == [];
  }

  lemma {:induction false} IdealTurns(a: Ideal, es: seq<Event>, id: nat)
    requires a.Sound() && AllowedAll(a, es, id)
    ensures var b := IdealRun(a, es, id).0;
      Turns(a.active, a.shown, es) == (b.active, b.shown)
    decreases |es|
  {
    if es != [] {
      StepTurns(a, es[0], id);
      IdealTurns(IdealStep(a, es[0], id).0, es[1..], id + 1);
      assert [es[0]][1..] == [];
    }
  }

  /** Over any run ticks give the processor to the terminals in turn, and nothing but a switch changes what is on display. */
  lemma RunTurns(s: State, a: Ideal, es: seq<Event>, id: nat)
    requires Refines(s, a) && AllowedAll(a, es, id)
    ensures CanRun(s, es, id)
    ensures var r := RunAll(s, es, id).0;
      (r.active, r.shown) == Turns(s.active, s.shown, es)
  {
    RunRefines(s, a, es, id);
    IdealTurns(a, es, id);
  }

  // ---------------------------------------------------------------------------------
  // Going on
  // ---------------------------------------------------------------------------------

  /** Terminal t does not execute while a run goes on, and gets the processor with its last step. */
  predicate BackAtLast(active: nat, shown: nat, es: seq<Event>, t: nat) {
    && es != [] && Turns(active, shown, es).0 == t
    && forall k :: 0 < k < |es| ==> Turns(active, shown, es[..k]).0 != t
  }

  /** Ctrl+C is pressed while terminal t is on display. */
  predicate Pressed(active: nat, shown: nat, es: seq<Event>, t: nat) {
    exists k :: 0 <= k < |es| && es[k] == Interrupt && Turns(active, shown, es[..k]).1 == t
  }

  lemma TurnsAfter(a: Ideal, es: seq<Event>, id: nat, k: nat)
    requires a.Sound() && k < |es| && Allowed(a, es[0])
    ensures var b := IdealStep(a, es[0], id).0;
      Turns(a.active, a.shown, es[..k + 1]) == Turns(b.active, b.shown, es[1..][..k])
  {
    StepTurns(a, es[0], id);
    assert [es[0]][1..] == [];
    assert es[..k + 1][1..] == es[1..][..k] && es[..k + 1][0] == es[0];
  }

  lemma BackLater(a: Ideal, es: seq<Event>, id: nat, t: nat)
    requires a.Sound() && |es| > 1 && Allowed(a, es[0]) && BackAtLast(a.active, a.shown, es, t)
    ensures var b := IdealStep(a, es[0], id).0;
      b.active != t && BackAtLast(b.active, b.shown, es[1..], t)
  {
    var (b, rest) := (IdealStep(a, es[0], id).0, es[1..]);
    forall k | 0 <= k < |es| ensures Turns(b.active, b.shown, rest[..k]) == Turns(a.active, a.shown, es[..k + 1]) {
      TurnsAfter(a, es, id, k);
    }
    assert es[..|es|] == es && rest[..|rest|] == rest && rest[..0] == [];
    assert b.active == Turns(b.active, b.shown, rest[..0]).0;
  }

  lemma PressedMore(a: Ideal, es: seq<Event>, id: nat, t: nat)
    requires a.Sound() && es != [] && Allowed(a, es[0])
    ensures var b := IdealStep(a, es[0], id).0;
      Pressed(a.active, a.shown, es, t) <==> (es[0] == Interrupt && a.shown == t) || Pressed(b.active, b.shown, es[1..], t)
  {
    var (b, rest) := (IdealStep(a, es[0], id).0, es[1..]);
    forall k | 0 <= k < |es| ensures Turns(b.active, b.shown, rest[..k]) == Turns(a.active, a.shown, es[..k + 1]) {
      TurnsAfter(a, es, id, k);
    }
    if Pressed(b.active, b.shown, rest, t) {
      var k :| 0 <= k < |rest| && rest[k] == Interrupt && Turns(b.active, b.shown, rest[..k]).1 == t;
      assert es[k + 1] == Interrupt && Turns(a.active, a.shown, es[..k + 1]).1 == t;
    }
    if es[0] == Interrupt && a.shown == t { assert Turns(a.active, a.shown, es[..0]).1 == t; }
    if Pressed(a.active, a.shown, es, t) {
      var k :| 0 <= k < |es| && es[k] == Interrupt && Turns(a.active, a.shown, es[..k]).1 == t;
      if k > 0 { assert rest[k - 1] == Interrupt && Turns(b.active, b.shown, rest[..k - 1]).1 == t; }
    }
  }

  /** Nothing about terminal t changes but its screen, and a Ctrl+C that is then pending. */
  ghost predicate Waits(a: Ideal, b: Ideal, t: nat, pressed: bool)
    requires a.Sound() && b.Sound() && t < TERMINALS
  {
    var (was, now) := (a.sessions[t], b.sessions[t]);
    now.waiting == was.waiting && now.calls == was.calls && (now.doomed <==> was.doomed || pressed)
  }

  lemma HaltAway(a: Ideal, value: int, t: nat)
    requires a.Sound() && a.active != t && t < TERMINALS
    ensures Waits(a, IdealHalt(a, value).0, t, false)
  {}

  lemma ScheduleAway(a: Ideal, next: nat, id: nat, t: nat)
    requires a.Sound() && next < TERMINALS && a.active != t && t < TERMINALS
    ensures var b := IdealSchedule(a, next, id).0; b.active == next && Waits(a, b, t, false)
  {}

  lemma TickAway(a: Ideal, id: nat, t: nat)
    requires a.Sound() && a.active != t && t < TERMINALS && IdealStep(a, Tick, id).0.active != t
    ensures Waits(a, IdealStep(a, Tick, id).0, t, false)
  {
    var next := (a.active + 1) % TERMINALS;
    ScheduleAway(a, next, id, t);
    var b := IdealSchedule(a, next, id).0;
    if next != t { HaltAway(b, KILLED, t); }
  }

  lemma PrintAway(a: Ideal, e: Event, id: nat, t: nat)
    requires a.Sound() && Allowed(a, e) && a.active != t && t < TERMINALS && (e.Putc? || e.Echo? || e.Clear?)
    ensures Waits(a, IdealStep(a, e, id).0, t, false)
  {}

  /** While others execute, a terminal waits. */
  lemma StepAway(a: Ideal, e: Event, id: nat, t: nat)
    requires a.Sound() && Allowed(a, e) && a.active != t && t < TERMINALS && IdealStep(a, e, id).0.active != t
    ensures Waits(a, IdealStep(a, e, id).0, t, e == Interrupt && a.shown == t)
  {
    if
    case e.Tick? => TickAway(a, id, t);
    case e.Switch? => if e.terminal != a.shown { ScheduleAway(IdealDisplay(a, e.terminal), e.terminal, id, t); }
    case e.Halt? => HaltAway(a, e.value, t);
    case e.Execute? || e.Interrupt? =>
    case e.Putc? || e.Echo? || e.Clear? => PrintAway(a, e, id, t);
  }

  /** The step that takes the processor from a terminal notes the point where it was. */
  lemma Leaves(a: Ideal, e: Event, id: nat)
    requires a.Sound() && Allowed(a, e) && IdealStep(a, e, id).0.active != a.active
    ensures var now := IdealStep(a, e, id).0.sessions[a.active];
      e != Interrupt && now.waiting == Frame(a.Me().Top(), id) && now.calls == a.Me().calls && now.doomed == a.Me().doomed
  {}

  /** How a program goes on that gets the processor back: where it was, or not at all if it is killed. */
  function Back(left: Frame, calls: seq<Frame>, killed: bool): Outcome {
    if !killed then Resume(left)
    else if calls == [] then Enter
    else Return(calls[|calls| - 1], 6)
  }

  lemma Returns(a: Ideal, f: Event, id: nat, t: nat)
    requires a.Sound() && Allowed(a, f) && t < TERMINALS && a.active != t && IdealStep(a, f, id).0.active == t
    ensures f != Interrupt
    ensures IdealStep(a, f, id).1 == Back(a.sessions[t].waiting, a.sessions[t].calls, f == Tick && a.sessions[t].doomed)
  {}

  lemma {:induction false} IdealBack(a: Ideal, es: seq<Event>, id: nat, t: nat)
    requires a.Sound() && AllowedAll(a, es, id) && t < TERMINALS && a.active != t && BackAtLast(a.active, a.shown, es, t)
    ensures IdealRun(a, es, id).1[|es| - 1] == Back(a.sessions[t].waiting, a.sessions[t].calls,
      es[|es| - 1] == Tick && (a.sessions[t].doomed || Pressed(a.active, a.shown, es, t)))
    decreases |es|
  {
    var (b, rest) := (IdealStep(a, es[0], id).0, es[1..]);
    PressedMore(a, es, id, t);
    if rest == [] {
      assert es == [es[0]];
      StepTurns(a, es[0], id);
      Returns(a, es[0], id, t);
    } else {
      BackLater(a, es, id, t);
      StepAway(a, es[0], id, t);
      IdealBack(b, rest, id + 1, t);
      LastExit(a, es, id);
    }
  }

  lemma LastExit(a: Ideal, es: seq<Event>, id: nat)
    requires a.Sound() && AllowedAll(a, es, id) && |es| > 1
    ensures IdealRun(a, es, id).1[|es| - 1] == IdealRun(IdealStep(a, es[0], id).0, es[1..], id + 1).1[|es| - 2]
  {}

  /**
   A program that loses the processor and, whatever the other terminals do meanwhile, gets it
   back goes on at the very point where it was, unless Ctrl+C was pressed on its terminal and a
   tick brings it back: then its caller gets 6, and a base shell starts anew.
   */
  lemma ResumesWhereLeft(s: State, a: Ideal, es: seq<Event>, id: nat)
    requires Refines(s, a) && AllowedAll(a, es, id) && |es| > 1 && BackAtLast(s.active, s.shown, es, s.active)
    ensures CanRun(s, es, id)
    ensures RunAll(s, es, id).1[|es| - 1] == Back(Frame(s.cpu, id), a.Me().calls,
      es[|es| - 1] == Tick && (s.terms[s.active].toBeHalt || Pressed(s.active, s.shown, es, s.active)))
  {
    RunRefines(s, a, es, id);
    BackLater(a, es, id, a.active);
    Leaves(a, es[0], id);
    PressedMore(a, es, id, a.active);
    IdealBack(IdealStep(a, es[0], id).0, es[1..], id + 1, a.active);
    LastExit(a, es, id);
    assert Matches(s, a, s.active);
  }

  // ---------------------------------------------------------------------------------
  // The video memory of user programs
  // ---------------------------------------------------------------------------------

  /** No slot that is free still asks for the mapping of vidmap. */
  predicate NoStaleMapping(s: State)
    requires s.Sound()
  {
    forall p :: 0 <= p < PROCESSES && !s.pcbs[p].present ==> !s.pcbs[p].vidmap
  }

  lemma ScheduleMapping(s: State, next: nat, id: nat)
    requires s.Sound() && NoStaleMapping(s) && next < TERMINALS
    ensures var r := Schedule(s, next, id).0;
      r.Sound() ==> NoStaleMapping(r) && (r.cpu == r.terms[next].pid ==> r.userVidPresent == r.pcbs[r.cpu].vidmap)
  {}

  lemma QuitMapping(s: State, value: int, id: nat)
    requires CanHalt(s) && NoStaleMapping(s)
    ensures var (r, o) := Quit(s, value, id); (r.Sound() ==> NoStaleMapping(r)) && !o.Resume?
  {}

  lemma PitMapping(s: State, a: Ideal, id: nat)
    requires Refines(s, a) && NoStaleMapping(s)
    ensures var r := PitHandler(s, id).0; r.Sound() && NoStaleMapping(r) && r.userVidPresent == r.pcbs[r.cpu].vidmap
  {
    var next := (s.active + 1) % TERMINALS;
    var vid := VideoFrame(next, s.shown);
    PitRefines(s, a, id);
    var b := IdealSchedule(a, next, id).0;
    assert Matches(PitHandler(s, id).0, b, b.active);
    ScheduleMapping(s.(kernelVid := vid, userVid := vid), next, id);
  }

  lemma TickMapping(s: State, a: Ideal, id: nat)
    requires Refines(s, a) && NoStaleMapping(s)
    ensures CanStep(s, Tick)
    ensures var (r, o) := Step(s, Tick, id);
      r.Sound() && NoStaleMapping(r) && (o.Resume? ==> r.userVidPresent == r.pcbs[r.cpu].vidmap)
  {
    TickRefines(s, a, id);
    PitMapping(s, a, id);
    KillMapping(s, id);
  }

  lemma KillMapping(s: State, id: nat)
    requires CanStep(s, Tick) && PitHandler(s, id).0.Sound() && NoStaleMapping(PitHandler(s, id).0)
    ensures var (r, o) := Step(s, Tick, id);
      (r.Sound() ==> NoStaleMapping(r)) && (o.Resume? ==> r == PitHandler(s, id).0)
  {
    var after := PitHandler(s, id).0;
    if after.terms[after.active].toBeHalt { QuitMapping(after, KILLED, id); }
  }

  lemma SwitchMapping(s: State, a: Ideal, t: nat, id: nat)
    requires Refines(s, a) && NoStaleMapping(s) && t < TERMINALS
    ensures var (r, o) := SwitchTerminal(s, t, id);
      r.Sound() && NoStaleMapping(r) && (o.Resume? ==> r.userVidPresent == r.pcbs[r.cpu].vidmap)
  {
    SwitchRefines(s, a, t, id);
    if t != s.shown {
      var b := IdealStep(a, Switch(t), id).0;
      assert Matches(SwitchTerminal(s, t, id).0, b, b.active);
      ScheduleMapping(Display(s, t), t, id);
    }
  }

  /** Before anything runs only the shells are there, on their own stacks and without the mapping. */
  lemma ShellsBegin(pages: seq<seq<Cell>>, rest: seq<Pcb>)
    requires Fresh(pages, rest)
    ensures var s := Initial(pages, rest);
      && s.Sound() && s.cpu == 0 && OwnsStack(0, s.esp0) && !s.userVidPresent
      && (forall p :: 0 <= p < 6 ==> (s.pcbs[p].present <==> p < 3))
      && (forall p :: 0 <= p < 3 ==> OwnsStack(p, s.pcbs[p].esp0) && !s.pcbs[p].vidmap)
      && (NoStaleMapping(s) <==> forall p :: 0 <= p < 3 ==> !rest[p].vidmap)
  {
    var s := Initial(pages, rest);
    ShellStackOwned(0);
    ShellStackOwned(1);
    ShellStackOwned(2);
    forall p | 0 <= p < 3 ensures s.pcbs[3 + p] == rest[p] {}
  }

  /** vidmap asks for the mapping and gets it; it is the terminal's own exactly when everything else still fits together. */
  lemma VidmapAsks(s: State, a: Ideal)
    requires Refines(s, a)
    ensures var r := VidmapStep(s);
      && r.userVidPresent && r.pcbs[r.cpu].vidmap && (r.Sound() && NoStaleMapping(s) ==> NoStaleMapping(r))
      && (Refines(r, a) <==> s.active == s.shown || a.Me().calls == [])
  {
    VidmapOwnPage(s, a);
    StacksApart(s, a);
    TopLinked(s, a);
    var r := VidmapStep(s);
    if s.active == s.shown || a.Me().calls == [] {
      forall t, i | 0 <= t < TERMINALS && 0 <= i < |a.sessions[t].chain| ensures Linked(r, a, t, i) {
        assert Linked(s, a, t, i);
      }
      forall t | 0 <= t < TERMINALS ensures Matches(r, a, t) {
        assert Matches(s, a, t);
      }
    }
  }

  /** Every step keeps free slots without a mapping, and a program that goes on sees the mapping exactly when its control block asks for it. */
  lemma StepKeepsMapping(s: State, a: Ideal, e: Event, id: nat)
    requires Refines(s, a) && Allowed(a, e) && NoStaleMapping(s)
    ensures CanStep(s, e)
    ensures var (r, o) := Step(s, e, id);
      r.Sound() && NoStaleMapping(r) && (o.Resume? ==> r.userVidPresent == r.pcbs[r.cpu].vidmap)
  {
    StepRefines(s, a, e, id);
    match e
    case Tick => TickMapping(s, a, id);
    case Switch(t) => SwitchMapping(s, a, t, id);
    case Halt(value) => QuitMapping(s, value, id);
    case _ =>
  }

  /** So does every run. */
  lemma {:induction false} RunKeepsMapping(s: State, a: Ideal, es: seq<Event>, id: nat)
    requires Refines(s, a) && AllowedAll(a, es, id) && NoStaleMapping(s)
    ensures CanRun(s, es, id) && RunAll(s, es, id).0.Sound() && NoStaleMapping(RunAll(s, es, id).0)
    decreases |es|
  {
    if es != [] {
      StepRefines(s, a, es[0], id);
      StepKeepsMapping(s, a, es[0], id);
      RunKeepsMapping(Step(s, es[0], id).0, IdealStep(a, es[0], id).0, es[1..], id + 1);
    }
  }

  /** Until the next tick a program that has just been started has the mapping that its caller had, though it never asked for it. */
  lemma MappingInherited(s: State, id: nat)
    requires s.Sound() && NoStaleMapping(s) && Exec(s, true, id).1 == Enter
    ensures var r := Exec(s, true, id).0;
      r.Sound() && !r.pcbs[r.cpu].vidmap && r.userVidPresent == s.userVidPresent
  {
    ExecExactly(s, true, id);
  }
}
