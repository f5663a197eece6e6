/**
 The machine of module Machine is the three terminals of module Sessions, step
 by step and over every run; and what follows from that.
 */
module Refinement {
  import opened Bytes
  import opened Console
  import opened Limits
  import opened Machine
  import opened Printing
  import opened Sessions

  /** The control block of the i-th process of terminal t: its own fields, and the link to its parent. */
  ghost predicate Linked(s: State, a: Ideal, t: nat, i: nat)
    requires s.Sound() && a.Sound() && t < TERMINALS && i < |a.sessions[t].chain|
  {
    var p := a.sessions[t].chain[i];
    && p < PROCESSES && s.pcbs[p].pid == p && s.pcbs[p].esp0 == StackTop(p)
    && s.pcbs[p].parent == (if i == 0 then -1 else a.sessions[t].chain[i - 1])
    && (0 < i ==> s.pcbs[p].parentEbp == a.sessions[t].calls[i - 1])
  }

  /** The processor, its task state segment and the page tables all belong to the active terminal. */
  ghost predicate Coherent(s: State, a: Ideal)
    requires s.Sound() && a.Sound()
  {
    && s.cpu == a.Me().Top() && s.esp0 == StackTop(s.cpu) && s.userPage == 2 + s.cpu
    && s.kernelVid == s.userVid == VideoFrame(s.active, s.shown)
  }

  /** What the kernel holds for terminal t is what its session says. */
  ghost predicate Matches(s: State, a: Ideal, t: nat)
    requires s.Sound() && a.Sound() && t < TERMINALS
  {
    && s.View(t) == a.sessions[t].view
    && s.terms[t].pid == a.sessions[t].Top() && s.terms[t].toBeHalt == a.sessions[t].doomed
    && (t != s.active ==> s.pcbs[s.terms[t].pid].ebp == a.sessions[t].waiting)
  }

  /**
   The kernel is in the state that the three sessions describe: the present processes are those
   of the three chains, each chain is linked by its parent pointers from its base shell up, and
   the context, the screens and the waiting terminals are theirs.
   */
  ghost predicate Refines(s: State, a: Ideal) {
    && s.Sound() && Good(a)
    && s.active == a.active && s.shown == a.shown && Coherent(s, a)
    && FourPages(s.pages) && s.pages[1 + s.shown] == a.behind
    && (forall p :: 0 <= p < PROCESSES ==> (s.pcbs[p].present <==> a.InUse(p)))
    && (forall t, i :: 0 <= t < TERMINALS && 0 <= i < |a.sessions[t].chain| ==> Linked(s, a, t, i))
    && (forall t :: 0 <= t < TERMINALS ==> Matches(s, a, t))
  }

  // ---------------------------------------------------------------------------------
  // Scheduling
  // ---------------------------------------------------------------------------------

  lemma ScheduleRefines(s: State, a: Ideal, next: nat, id: nat)
    requires Refines(s, a) && next < TERMINALS
    ensures var vid := VideoFrame(next, s.shown);
      var (r, o) := Schedule(s.(kernelVid := vid, userVid := vid), next, id);
      Refines(r, IdealSchedule(a, next, id).0) && o == IdealSchedule(a, next, id).1
  {
    IdealScheduleGood(a, next, id);
    ScheduleCoherent(s, a, next, id);
    ScheduleViews(s, a, next, id);
    ScheduleLinks(s, a, next, id);
  }

  lemma ScheduleLinks(s: State, a: Ideal, next: nat, id: nat)
    requires Refines(s, a) && next < TERMINALS
    ensures var vid := VideoFrame(next, s.shown);
      var (r, b) := (Schedule(s.(kernelVid := vid, userVid := vid), next, id).0, IdealSchedule(a, next, id).0);
      r.Sound() && forall t, i :: 0 <= t < TERMINALS && 0 <= i < |b.sessions[t].chain| ==> Linked(r, b, t, i)
  {
    ScheduleCoherent(s, a, next, id);
    var vid := VideoFrame(next, s.shown);
    var (r, b) := (Schedule(s.(kernelVid := vid, userVid := vid), next, id).0, IdealSchedule(a, next, id).0);
    forall t, i | 0 <= t < TERMINALS && 0 <= i < |b.sessions[t].chain| ensures Linked(r, b, t, i) {
      assert Linked(s, a, t, i);
      ScheduleLinked(s, a, next, id, t, i);
    }
  }

  lemma ScheduleViews(s: State, a: Ideal, next: nat, id: nat)
    requires Refines(s, a) && next < TERMINALS
    ensures var vid := VideoFrame(next, s.shown);
      var (r, b) := (Schedule(s.(kernelVid := vid, userVid := vid), next, id).0, IdealSchedule(a, next, id).0);
      r.Sound() && forall t :: 0 <= t < TERMINALS ==> Matches(r, b, t)
  {
    ScheduleCoherent(s, a, next, id);
    var vid := VideoFrame(next, s.shown);
    var (r, b) := (Schedule(s.(kernelVid := vid, userVid := vid), next, id).0, IdealSchedule(a, next, id).0);
    forall t | 0 <= t < TERMINALS ensures Matches(r, b, t) {
      assert Matches(s, a, t);
      if t != a.active { TopsDiffer(a, t, a.active); }
      ScheduleMatches(s, a, next, id, t);
    }
  }

  lemma ScheduleLinked(s: State, a: Ideal, next: nat, id: nat, t: nat, i: nat)
    requires s.Sound() && a.Sound() && next < TERMINALS && t < TERMINALS && i < |a.sessions[t].chain|
    requires Linked(s, a, t, i) && s.esp0 == StackTop(s.cpu)
    ensures Schedule(s, next, id).0.Sound()
    ensures Linked(Schedule(s, next, id).0, IdealSchedule(a, next, id).0, t, i)
  {}

  lemma ScheduleMatches(s: State, a: Ideal, next: nat, id: nat, t: nat)
    requires s.Sound() && a.Sound() && next < TERMINALS && t < TERMINALS
    requires s.active == a.active && s.cpu == a.Me().Top()
    requires Matches(s, a, t)
    requires t != s.active ==> a.sessions[t].Top() != s.cpu
    ensures Schedule(s, next, id).0.Sound()
    ensures Matches(Schedule(s, next, id).0, IdealSchedule(a, next, id).0, t)
  {}

  lemma ScheduleCoherent(s: State, a: Ideal, next: nat, id: nat)
    requires Refines(s, a) && next < TERMINALS
    ensures var vid := VideoFrame(next, s.shown);
      var (r, o) := Schedule(s.(kernelVid := vid, userVid := vid), next, id);
      r.Sound() && Coherent(r, IdealSchedule(a, next, id).0) && o == IdealSchedule(a, next, id).1
  {
    assert Matches(s, a, next) && GoodSession(a, next);
    if next != a.active { TopsDiffer(a, next, a.active); }
    assert Linked(s, a, next, |a.sessions[next].chain| - 1);
    assert Linked(s, a, s.active, |a.sessions[s.active].chain| - 1);
  }

  /** Copying the pages out and in changes which page is on display, but no terminal's view. */
  lemma SwapRefines(s: State, a: Ideal, next: nat)
    requires Refines(s, a) && next < TERMINALS && next != s.shown
    ensures var vid := VideoFrame(s.active, next);
      Refines(Display(s, next).(kernelVid := vid, userVid := vid), IdealDisplay(a, next))
  {
    var vid := VideoFrame(s.active, next);
    var r := Display(s, next).(kernelVid := vid, userVid := vid);
    var b := IdealDisplay(a, next);
    assert Matches(s, a, next);
    SameChains(a, b);
    forall t | 0 <= t < TERMINALS ensures GoodSession(b, t) && Matches(r, b, t) {
      assert GoodSession(a, t) && Matches(s, a, t);
    }
    forall t, i | 0 <= t < TERMINALS && 0 <= i < |b.sessions[t].chain|
      ensures Linked(r, b, t, i) && (i > 0 ==> GoodCall(b, t, i))
    {
      assert Linked(s, a, t, i) && (i > 0 ==> GoodCall(a, t, i));
    }
  }

  lemma SwitchRefines(s: State, a: Ideal, next: nat, id: nat)
    requires Refines(s, a) && next < TERMINALS
    ensures var (r, o) := SwitchTerminal(s, next, id);
      var (b, p) := IdealStep(a, Switch(next), id);
      Refines(r, b) && o == p
  {
    if next != s.shown {
      SwapRefines(s, a, next);
      var vid := VideoFrame(s.active, next);
      ScheduleRefines(Display(s, next).(kernelVid := vid, userVid := vid), IdealDisplay(a, next), next, id);
    }
  }

  // ---------------------------------------------------------------------------------
  // Starting and halting processes
  // ---------------------------------------------------------------------------------

  lemma {:induction false} FirstFreeIsLeastUnused(s: State, a: Ideal, from: nat)
    requires s.Sound() && a.Sound() && from <= PROCESSES
    requires forall p :: 0 <= p < PROCESSES ==> (s.pcbs[p].present <==> a.InUse(p))
    ensures FirstFree(s.pcbs, from) == a.LeastUnused(from)
    decreases PROCESSES - from
  {
    if from < PROCESSES && s.pcbs[from].present {
      FirstFreeIsLeastUnused(s, a, from + 1);
    }
  }

  lemma ExecRefines(s: State, a: Ideal, executable: bool, id: nat)
    requires Refines(s, a)
    ensures var (r, o) := Exec(s, executable, id);
      var (b, p) := IdealExec(a, executable, id);
      Refines(r, b) && o == p
  {
    FirstFreeIsLeastUnused(s, a, 0);
    if executable && a.LeastUnused(0) < PROCESSES {
      BasesInUse(a);
      IdealExecGood(a, id);
      ExecLinks(s, a, id);
      ExecTables(s, a, id);
    }
  }

  lemma ExecLinks(s: State, a: Ideal, id: nat)
    requires Refines(s, a) && TERMINALS <= FirstFree(s.pcbs, 0) == a.LeastUnused(0) < PROCESSES
    ensures Exec(s, true, id).0.Sound()
    ensures var (r, b) := (Exec(s, true, id).0, IdealExec(a, true, id).0);
      forall t, i :: 0 <= t < TERMINALS && 0 <= i < |b.sessions[t].chain| ==> Linked(r, b, t, i)
  {
    var (r, b) := (Exec(s, true, id).0, IdealExec(a, true, id).0);
    forall t, i | 0 <= t < TERMINALS && 0 <= i < |b.sessions[t].chain| ensures Linked(r, b, t, i) {
      if i < |a.sessions[t].chain| {
        assert Linked(s, a, t, i);
        ExecLinked(s, a, id, t, i);
      }
    }
  }

  lemma ExecTables(s: State, a: Ideal, id: nat)
    requires Refines(s, a) && FirstFree(s.pcbs, 0) == a.LeastUnused(0) < PROCESSES
    ensures var (r, b) := (Exec(s, true, id).0, IdealExec(a, true, id).0);
      && r.Sound()
      && (forall t :: 0 <= t < TERMINALS ==> Matches(r, b, t))
      && (forall q :: 0 <= q < PROCESSES ==> (r.pcbs[q].present <==> b.InUse(q)))
  {
    var (r, b) := (Exec(s, true, id).0, IdealExec(a, true, id).0);
    forall t | 0 <= t < TERMINALS ensures Matches(r, b, t) {
      assert Matches(s, a, t);
      InUseAt(a, t, |a.sessions[t].chain| - 1);
      ExecMatches(s, a, id, t);
    }
    forall q | 0 <= q < PROCESSES ensures r.pcbs[q].present <==> b.InUse(q) {
      assert s.pcbs[q].present <==> a.InUse(q);
      ExecInUse(a, id, q);
    }
  }

  lemma ExecLinked(s: State, a: Ideal, id: nat, t: nat, i: nat)
    requires s.Sound() && a.Sound() && t < TERMINALS && i < |a.sessions[t].chain| && Linked(s, a, t, i)
    requires FirstFree(s.pcbs, 0) == a.LeastUnused(0) < PROCESSES
    ensures Exec(s, true, id).0.Sound()
    ensures Linked(Exec(s, true, id).0, IdealExec(a, true, id).0, t, i)
  {
    InUseAt(a, t, i);
  }

  lemma ExecMatches(s: State, a: Ideal, id: nat, t: nat)
    requires s.Sound() && a.Sound() && t < TERMINALS && Matches(s, a, t) && s.active == a.active
    requires FirstFree(s.pcbs, 0) == a.LeastUnused(0) < PROCESSES
    requires a.InUse(a.sessions[t].Top())
    ensures Exec(s, true, id).0.Sound()
    ensures Matches(Exec(s, true, id).0, IdealExec(a, true, id).0, t)
  {}

  lemma ExecInUse(a: Ideal, id: nat, q: nat)
    requires a.Sound() && a.LeastUnused(0) < PROCESSES
    ensures IdealExec(a, true, id).0.InUse(q) <==> a.InUse(q) || q == a.LeastUnused(0)
  {
    var chain := a.Me().chain + [a.LeastUnused(0)];
    assert q in chain <==> q in a.Me().chain || q == a.LeastUnused(0);
  }

  /** The top of a chain and what lies below it, as the process table has them. */
  lemma TopLinked(s: State, a: Ideal)
    requires Refines(s, a)
    ensures var depth := |a.Me().calls|;
      && s.cpu == a.Me().chain[depth] && s.pcbs[s.cpu].pid == s.cpu
      && (depth == 0 ==> s.cpu == s.active)
      && (depth > 0 ==>
            && TERMINALS <= s.cpu && s.pcbs[s.cpu].parent == a.Me().chain[depth - 1] < PROCESSES
            && s.pcbs[s.cpu].parentEbp == a.Me().calls[depth - 1]
            && s.pcbs[s.cpu].parentEbp.owner == a.Me().chain[depth - 1]
            && s.pcbs[a.Me().chain[depth - 1]].pid == a.Me().chain[depth - 1]
            && s.pcbs[a.Me().chain[depth - 1]].esp0 == StackTop(a.Me().chain[depth - 1]))
  {
    var depth := |a.Me().calls|;
    assert GoodSession(a, a.active) && Linked(s, a, a.active, depth);
    if depth > 0 {
      assert GoodCall(a, a.active, depth) && Linked(s, a, a.active, depth - 1);
    }
  }

  /** halt ends the program on top, or starts the base shell afresh. */
  lemma QuitRefines(s: State, a: Ideal, value: int, id: nat)
    requires Refines(s, a)
    ensures CanHalt(s)
    ensures var (r, o) := Quit(s, value, id);
      var (b, p) := IdealHalt(a, value);
      Refines(r, b) && o == p
  {
    TopLinked(s, a);
    if |a.Me().calls| == 0 {
      RespawnRefines(s, a, value, id);
    } else {
      ReturnRefines(s, a, value, id);
    }
  }

  /** The lowest free slot after a base shell halts is its own. */
  lemma RespawnSlot(s: State, a: Ideal)
    requires Refines(s, a) && a.Me().calls == []
    ensures s.cpu == s.active
    ensures FirstFree(s.pcbs[s.cpu := s.pcbs[s.cpu].(present := false, vidmap := false)], 0) == s.cpu
  {
    TopLinked(s, a);
    BasesInUse(a);
  }

  lemma RespawnRefines(s: State, a: Ideal, value: int, id: nat)
    requires Refines(s, a) && a.Me().calls == [] && CanHalt(s)
    ensures var (r, o) := Quit(s, value, id);
      var (b, p) := IdealHalt(a, value);
      Refines(r, b) && o == p
  {
    TopLinked(s, a);
    RespawnSlot(s, a);
    IdealHaltGood(a, value);
    RespawnLinks(s, a, value, id);
    var (r, b) := (Quit(s, value, id).0, IdealHalt(a, value).0);
    forall t | 0 <= t < TERMINALS ensures Matches(r, b, t) {
      assert Matches(s, a, t);
      if t != a.active { TopsDiffer(a, t, a.active); }
      RespawnMatches(s, a, value, id, t);
    }
    forall q | 0 <= q < PROCESSES ensures r.pcbs[q].present <==> b.InUse(q) {
      assert s.pcbs[q].present <==> a.InUse(q);
      InUseAt(a, a.active, 0);
    }
  }

  lemma RespawnLinks(s: State, a: Ideal, value: int, id: nat)
    requires Refines(s, a) && a.Me().calls == [] && CanHalt(s)
    ensures Quit(s, value, id).0.Sound()
    ensures var (r, b) := (Quit(s, value, id).0, IdealHalt(a, value).0);
      forall t, i :: 0 <= t < TERMINALS && 0 <= i < |b.sessions[t].chain| ==> Linked(r, b, t, i)
  {
    TopLinked(s, a);
    RespawnSlot(s, a);
    var (r, b) := (Quit(s, value, id).0, IdealHalt(a, value).0);
    forall t, i | 0 <= t < TERMINALS && 0 <= i < |b.sessions[t].chain| ensures Linked(r, b, t, i) {
      assert Linked(s, a, t, i);
      OnlyTop(a, t, i);
      RespawnLinked(s, a, value, id, t, i);
    }
  }

  lemma RespawnLinked(s: State, a: Ideal, value: int, id: nat, t: nat, i: nat)
    requires s.Sound() && a.Sound() && t < TERMINALS && i < |a.sessions[t].chain| && Linked(s, a, t, i)
    requires a.Me().calls == [] && s.pcbs[s.cpu].pid == s.cpu == s.active == a.active
    requires FirstFree(s.pcbs[s.cpu := s.pcbs[s.cpu].(present := false, vidmap := false)], 0) == s.cpu
    requires a.sessions[t].chain[i] == s.cpu ==> i == 0
    ensures Quit(s, value, id).0.Sound()
    ensures Linked(Quit(s, value, id).0, IdealHalt(a, value).0, t, i)
  {}

  lemma RespawnMatches(s: State, a: Ideal, value: int, id: nat, t: nat)
    requires s.Sound() && a.Sound() && t < TERMINALS && Matches(s, a, t)
    requires a.Me().calls == [] && s.pcbs[s.cpu].pid == s.cpu == s.active == a.active == a.Me().Top()
    requires FirstFree(s.pcbs[s.cpu := s.pcbs[s.cpu].(present := false, vidmap := false)], 0) == s.cpu
    requires t != a.active ==> a.sessions[t].Top() != s.cpu
    ensures Quit(s, value, id).0.Sound()
    ensures Matches(Quit(s, value, id).0, IdealHalt(a, value).0, t)
  {}

  lemma ReturnRefines(s: State, a: Ideal, value: int, id: nat)
    requires Refines(s, a) && a.Me().calls != [] && CanHalt(s)
    ensures var (r, o) := Quit(s, value, id);
      var (b, p) := IdealHalt(a, value);
      Refines(r, b) && o == p
  {
    TopLinked(s, a);
    IdealHaltGood(a, value);
    ReturnLinks(s, a, value, id);
    ReturnViews(s, a, value, id);
    ReturnPresent(s, a, value, id);
    var (r, b) := (Quit(s, value, id).0, IdealHalt(a, value).0);
    assert forall t, i :: 0 <= t < TERMINALS && 0 <= i < |b.sessions[t].chain| ==> Linked(r, b, t, i);
    assert forall t :: 0 <= t < TERMINALS ==> Matches(r, b, t);
  }

  lemma ReturnLinks(s: State, a: Ideal, value: int, id: nat)
    requires Refines(s, a) && a.Me().calls != [] && CanHalt(s)
    ensures Quit(s, value, id).0.Sound()
    ensures var (r, b) := (Quit(s, value, id).0, IdealHalt(a, value).0);
      forall t, i :: 0 <= t < TERMINALS && 0 <= i < |b.sessions[t].chain| ==> Linked(r, b, t, i)
  {
    TopLinked(s, a);
    var (r, b) := (Quit(s, value, id).0, IdealHalt(a, value).0);
    forall t, i | 0 <= t < TERMINALS && 0 <= i < |b.sessions[t].chain| ensures Linked(r, b, t, i) {
      assert Linked(s, a, t, i);
      OnlyTop(a, t, i);
      ReturnLinked(s, a, value, id, t, i);
    }
  }

  lemma ReturnViews(s: State, a: Ideal, value: int, id: nat)
    requires Refines(s, a) && a.Me().calls != [] && CanHalt(s)
    ensures Quit(s, value, id).0.Sound()
    ensures var (r, b) := (Quit(s, value, id).0, IdealHalt(a, value).0);
      forall t :: 0 <= t < TERMINALS ==> Matches(r, b, t)
  {
    TopLinked(s, a);
    OnlyTop(a, a.active, |a.Me().calls| - 1);
    var (r, b) := (Quit(s, value, id).0, IdealHalt(a, value).0);
    forall t | 0 <= t < TERMINALS ensures Matches(r, b, t) {
      assert Matches(s, a, t);
      if t != a.active { TopsDiffer(a, t, a.active); }
      ReturnMatches(s, a, value, id, t);
    }
  }

  lemma ReturnPresent(s: State, a: Ideal, value: int, id: nat)
    requires Refines(s, a) && a.Me().calls != [] && CanHalt(s)
    ensures Quit(s, value, id).0.Sound()
    ensures forall q :: 0 <= q < PROCESSES ==>
      (Quit(s, value, id).0.pcbs[q].present <==> IdealHalt(a, value).0.InUse(q))
  {
    TopLinked(s, a);
    forall q | 0 <= q < PROCESSES
      ensures Quit(s, value, id).0.pcbs[q].present <==> IdealHalt(a, value).0.InUse(q)
    {
      assert s.pcbs[q].present <==> a.InUse(q);
      ReturnInUse(a, value, q);
    }
  }

  lemma ReturnLinked(s: State, a: Ideal, value: int, id: nat, t: nat, i: nat)
    requires s.Sound() && a.Sound() && t < TERMINALS && i < |a.sessions[t].chain| && Linked(s, a, t, i)
    requires a.Me().calls != [] && CanHalt(s) && s.pcbs[s.cpu].pid >= TERMINALS
    requires 0 <= s.pcbs[s.pcbs[s.cpu].parent].pid < PROCESSES && s.active == a.active
    requires a.sessions[t].chain[i] != s.cpu && (t == a.active ==> i < |a.Me().calls|)
    ensures Quit(s, value, id).0.Sound()
    ensures Linked(Quit(s, value, id).0, IdealHalt(a, value).0, t, i)
  {}

  lemma ReturnMatches(s: State, a: Ideal, value: int, id: nat, t: nat)
    requires s.Sound() && a.Sound() && t < TERMINALS && Matches(s, a, t)
    requires a.Me().calls != [] && CanHalt(s) && s.pcbs[s.cpu].pid >= TERMINALS && s.active == a.active
    requires s.pcbs[s.pcbs[s.cpu].parent].pid == a.Me().chain[|a.Me().calls| - 1] < PROCESSES
    requires s.pcbs[s.cpu].parent != s.cpu
    requires t != a.active ==> a.sessions[t].Top() != s.cpu
    ensures Quit(s, value, id).0.Sound()
    ensures Matches(Quit(s, value, id).0, IdealHalt(a, value).0, t)
  {}

  // ---------------------------------------------------------------------------------
  // Printing
  // ---------------------------------------------------------------------------------

  /** r keeps the processes and the context, and shows what the sessions of b say. */
  ghost predicate Redrawn(s: State, r: State, a: Ideal, b: Ideal)
    requires s.Sound() && a.Sound()
  {
    && b.Sound() && OnlyViews(a, b)
    && r.Sound() && r == s.(pages := r.pages, x := r.x, y := r.y, terms := r.terms)
    && FourPages(r.pages) && r.pages[1 + r.shown] == b.behind
    && forall u :: 0 <= u < TERMINALS ==> RedrawnAt(s, r, b, u)
  }

  ghost predicate RedrawnAt(s: State, r: State, b: Ideal, u: nat)
    requires s.Sound() && r.Sound() && b.Sound() && u < TERMINALS
  {
    r.terms[u].pid == s.terms[u].pid && r.terms[u].toBeHalt == b.sessions[u].doomed && r.View(u) == b.sessions[u].view
  }

  lemma RedrawnRefines(s: State, r: State, a: Ideal, b: Ideal)
    requires Refines(s, a) && Redrawn(s, r, a, b)
    ensures Refines(r, b)
  {
    ViewsGood(a, b);
    forall u | 0 <= u < TERMINALS ensures Matches(r, b, u) {
      assert Matches(s, a, u) && RedrawnAt(s, r, b, u);
    }
    forall u, i | 0 <= u < TERMINALS && 0 <= i < |b.sessions[u].chain| ensures Linked(r, b, u, i) {
      assert Linked(s, a, u, i);
    }
    forall q | 0 <= q < PROCESSES ensures r.pcbs[q].present <==> b.InUse(q) {
      assert s.pcbs[q].present <==> a.InUse(q);
    }
  }

  /** putc copies the cursor exactly when the terminal on display is the one that executes. */
  lemma SeenIffShown(s: State, a: Ideal)
    requires Refines(s, a)
    ensures s.pcbs[s.cpu].pid == s.terms[s.shown].pid <==> s.active == s.shown
  {
    TopLinked(s, a);
    assert Matches(s, a, s.shown) && Matches(s, a, s.active);
    if s.active != s.shown { TopsDiffer(a, s.active, s.shown); }
  }

  /** The pages are those of the sessions, and so are the cursors that are printed at. */
  ghost predicate Drawn(s: State, a: Ideal)
    requires s.Sound() && a.Sound()
  {
    && s.active == a.active && s.shown == a.shown && Printable(s) && s.pages == a.Pages()
    && MappedPage(s) == a.Place(a.active) && s.x == a.Me().view.x && s.y == a.Me().view.y
    && (s.active != s.shown ==>
          s.terms[s.shown].x == a.sessions[a.shown].view.x && s.terms[s.shown].y == a.sessions[a.shown].view.y)
  }

  lemma PagesDrawn(s: State, a: Ideal)
    requires s.Sound() && a.Sound() && s.shown == a.shown && FourPages(s.pages) && s.pages[1 + s.shown] == a.behind
    requires forall t :: 0 <= t < TERMINALS ==> Matches(s, a, t)
    ensures s.pages == a.Pages()
  {
    forall t | 0 <= t < TERMINALS ensures s.pages[a.Place(t)] == a.sessions[t].view.cells {
      assert Matches(s, a, t);
    }
  }

  /** What putc and echo work on. */
  lemma Drawing(s: State, a: Ideal)
    requires Refines(s, a)
    ensures Drawn(s, a)
  {
    PagesDrawn(s, a);
    assert Matches(s, a, s.active) && Matches(s, a, s.shown);
  }

  /** The screens of b are those of a after a byte was printed on the page of terminal t. */
  ghost predicate PrintedIn(a: Ideal, b: Ideal, p: Printed, t: nat)
    requires a.Sound() && b.Sound() && t < TERMINALS
  {
    && FourPages(p.pages) && OnlyViews(a, b) && b.behind == p.pages[1 + a.shown]
    && (forall u :: 0 <= u < TERMINALS ==> b.sessions[u].doomed == a.sessions[u].doomed)
    && forall u :: 0 <= u < TERMINALS ==>
         b.sessions[u].view == (if u == t then Screen(p.pages[a.Place(u)], p.x, p.y)
                                else Screen(p.pages[a.Place(u)], a.sessions[u].view.x, a.sessions[u].view.y))
  }

  lemma PutPrinted(a: Ideal, t: nat, strip: seq<nat>, front: Front, c: Byte)
    requires a.Sound() && t < TERMINALS && IsStrip(strip) && strip[0] == a.Place(t)
    requires InReach(strip, a.sessions[t].view.x, a.sessions[t].view.y, c)
    ensures var p := PrintOn(a.Pages(), strip, front, a.sessions[t].view.x, a.sessions[t].view.y, c);
      && PrintedIn(a, IdealPut(a, t, strip, c), p, t)
      && Left(p.exit) == if Fits(a.sessions[t].view, c) then Left(PutExit(a.sessions[t].view, front, c)) else Continue
  {
    var p := PrintOn(a.Pages(), strip, front, a.sessions[t].view.x, a.sessions[t].view.y, c);
    if Fits(a.sessions[t].view, c) {
      ShowingPrinted(a, t, p, Put(a.sessions[t].view, c));
    } else {
      SpillPrinted(a, t, p);
    }
  }

  lemma ShowingPrinted(a: Ideal, t: nat, p: Printed, view: Screen)
    requires a.Sound() && t < TERMINALS && view == Screen(view.cells, p.x, p.y) && view.Paged()
    requires p.pages == a.Pages()[a.Place(t) := view.cells]
    ensures PrintedIn(a, a.Showing(t, view), p, t)
  {}

  lemma SpillPrinted(a: Ideal, t: nat, p: Printed)
    requires a.Sound() && t < TERMINALS && FourPages(p.pages) && p.y == a.sessions[t].view.y
    ensures var b := a.WithPages(p.pages);
      PrintedIn(a, b.Showing(t, b.sessions[t].view.(x := p.x)), p, t)
  {}

  lemma AfterPutcRefines(s: State, a: Ideal, b: Ideal, p: Printed)
    requires Refines(s, a) && Drawn(s, a) && b.Sound() && PrintedIn(a, b, p, a.active)
    ensures Refines(AfterPutc(s, p), b)
  {
    SeenIffShown(s, a);
    var r := AfterPutc(s, p);
    forall u | 0 <= u < TERMINALS ensures RedrawnAt(s, r, b, u) {
      assert Matches(s, a, u);
    }
    RedrawnRefines(s, r, a, b);
  }

  lemma AfterEchoRefines(s: State, a: Ideal, b: Ideal, p: Printed)
    requires Refines(s, a) && Drawn(s, a) && b.Sound() && s.active != s.shown && PrintedIn(a, b, p, a.shown)
    ensures Refines(AfterEcho(s, p), b)
  {
    var r := AfterEcho(s, p);
    forall u | 0 <= u < TERMINALS ensures RedrawnAt(s, r, b, u) {
      assert Matches(s, a, u);
    }
    RedrawnRefines(s, r, a, b);
  }

  lemma PutcRefines(s: State, a: Ideal, c: Byte)
    requires Refines(s, a) && Allowed(a, Putc(c))
    ensures CanStep(s, Putc(c))
    ensures Refines(PutcStep(s, c).0, IdealStep(a, Putc(c), 0).0)
    ensures PutcStep(s, c).1 == IdealStep(a, Putc(c), 0).1
  {
    Drawing(s, a);
    var strip := Strip(a.Place(a.active));
    PutPrinted(a, a.active, strip, Unmapped, c);
    AfterPutcRefines(s, a, IdealPut(a, a.active, strip, c), PrintOn(s.pages, strip, Unmapped, s.x, s.y, c));
  }

  lemma EchoRefines(s: State, a: Ideal, c: Byte)
    requires Refines(s, a) && Allowed(a, Echo(c))
    ensures CanStep(s, Echo(c))
    ensures Refines(EchoStep(s, c).0, IdealStep(a, Echo(c), 0).0)
    ensures EchoStep(s, c).1 == IdealStep(a, Echo(c), 0).1
  {
    if s.active == s.shown {
      PutcRefines(s, a, c);
    } else {
      EchoAwayRefines(s, a, c);
    }
  }

  lemma EchoAwayRefines(s: State, a: Ideal, c: Byte)
    requires Refines(s, a) && Allowed(a, Echo(c)) && s.active != s.shown
    ensures CanStep(s, Echo(c))
    ensures Refines(EchoStep(s, c).0, IdealStep(a, Echo(c), 0).0)
    ensures EchoStep(s, c).1 == IdealStep(a, Echo(c), 0).1
  {
    Drawing(s, a);
    var (x, y) := (s.terms[s.shown].x, s.terms[s.shown].y);
    PutPrinted(a, a.shown, BEHIND, FrontOfDisplay(s), c);
    AfterEchoRefines(s, a, IdealPut(a, a.shown, BEHIND, c), PrintOn(s.pages, BEHIND, FrontOfDisplay(s), x, y, c));
  }

  lemma InterruptRefines(s: State, a: Ideal)
    requires Refines(s, a)
    ensures Refines(Step(s, Interrupt, 0).0, IdealStep(a, Interrupt, 0).0)
  {
    var (r, b) := (Step(s, Interrupt, 0).0, IdealStep(a, Interrupt, 0).0);
    forall u | 0 <= u < TERMINALS ensures RedrawnAt(s, r, b, u) {
      assert Matches(s, a, u);
    }
    RedrawnRefines(s, r, a, b);
  }

  lemma ClearRedrawn(s: State, a: Ideal, u: nat)
    requires s.Sound() && a.Sound() && Drawn(s, a) && u < TERMINALS && Matches(s, a, u)
    ensures ClearStep(s).Sound() && RedrawnAt(s, ClearStep(s), IdealClear(a), u)
  {}

  /** clear takes the page of one terminal and the cursor of another, unless they are the same. */
  lemma ClearRefines(s: State, a: Ideal)
    requires Refines(s, a)
    ensures Printable(s) && Refines(ClearStep(s), IdealClear(a))
  {
    Drawing(s, a);
    forall u | 0 <= u < TERMINALS ensures ClearStep(s).Sound() && RedrawnAt(s, ClearStep(s), IdealClear(a), u) {
      assert Matches(s, a, u);
      ClearRedrawn(s, a, u);
    }
    assert ClearStep(s).Sound() by { assert RedrawnAt(s, ClearStep(s), IdealClear(a), 0); }
    RedrawnRefines(s, ClearStep(s), a, IdealClear(a));
  }

  // ---------------------------------------------------------------------------------
  // Every step, every run
  // ---------------------------------------------------------------------------------

  lemma PitRefines(s: State, a: Ideal, id: nat)
    requires Refines(s, a)
    ensures var (r, o) := PitHandler(s, id);
      var (b, p) := IdealSchedule(a, (a.active + 1) % TERMINALS, id);
      Refines(r, b) && o == p && (r.terms[r.active].toBeHalt <==> b.Me().doomed)
  {
    var next := (a.active + 1) % TERMINALS;
    ScheduleRefines(s, a, next, id);
    assert Matches(PitHandler(s, id).0, IdealSchedule(a, next, id).0, next);
  }

  lemma TickRefines(s: State, a: Ideal, id: nat)
    requires Refines(s, a)
    ensures CanStep(s, Tick)
    ensures var (r, o) := Step(s, Tick, id);
      var (b, p) := IdealStep(a, Tick, id);
      Refines(r, b) && o == p
  {
    TickCan(s, a);
    PitRefines(s, a, id);
    var (r, b) := (PitHandler(s, id).0, IdealSchedule(a, (a.active + 1) % TERMINALS, id).0);
    if b.Me().doomed { QuitRefines(r, b, KILLED, id); }
  }

  lemma TickCan(s: State, a: Ideal)
    requires Refines(s, a)
    ensures CanStep(s, Tick)
  {
    PitRefines(s, a, 0);
    var (r, b) := (PitHandler(s, 0).0, IdealSchedule(a, (a.active + 1) % TERMINALS, 0).0);
    if b.Me().doomed { QuitRefines(r, b, KILLED, 0); }
  }

  /** One step of the kernel, whichever it is, is one step of the three terminals, with the same exit. */
  lemma StepRefines(s: State, a: Ideal, e: Event, id: nat)
    requires Refines(s, a) && Allowed(a, e)
    ensures CanStep(s, e)
    ensures var (r, o) := Step(s, e, id);
      var (b, p) := IdealStep(a, e, id);
      Refines(r, b) && o == p
  {
    match e
    case Tick => TickRefines(s, a, id);
    case Switch(t) => SwitchRefines(s, a, t, id);
    case Execute(executable) => ExecRefines(s, a, executable, id);
    case Halt(value) => QuitRefines(s, a, value, id);
    case Interrupt => InterruptRefines(s, a);
    case Putc(c) => PutcRefines(s, a, c);
    case Echo(c) => EchoRefines(s, a, c);
    case Clear => ClearRefines(s, a);
  }

  /** Every run of the kernel, with the way the processor left it after each step. */
  lemma {:induction false} RunRefines(s: State, a: Ideal, es: seq<Event>, id: nat)
    requires Refines(s, a) && AllowedAll(a, es, id)
    ensures CanRun(s, es, id)
    ensures Refines(RunAll(s, es, id).0, IdealRun(a, es, id).0)
    ensures RunAll(s, es, id).1 == IdealRun(a, es, id).1
    decreases |es|
  {
    if es != [] {
      StepRefines(s, a, es[0], id);
      RunRefines(Step(s, es[0], id).0, IdealStep(a, es[0], id).0, es[1..], id + 1);
    }
  }

  /** The process slots that initiate_shells leaves alone must not look taken; nothing else matters. */
  lemma InitialRefines(pages: seq<seq<Cell>>, rest: seq<Pcb>)
    requires |rest| == PROCESSES - TERMINALS && |pages| == 4
    requires forall p :: 0 <= p < |rest| ==> rest[p].ebp.owner < PROCESSES && rest[p].parentEbp.owner < PROCESSES
    requires forall i :: 0 <= i < 4 ==> |pages[i]| == 2048
    ensures Refines(Initial(pages, rest), InitialIdeal(pages)) <==> forall p :: 0 <= p < |rest| ==> !rest[p].present
  {
    var (s, a) := (Initial(pages, rest), InitialIdeal(pages));
    assert forall t, i :: 0 <= t < TERMINALS && 0 <= i < |a.sessions[t].chain| ==> a.sessions[t].chain[i] == t;
    forall p | 0 <= p < PROCESSES ensures a.InUse(p) <==> p < TERMINALS {
      if p < TERMINALS { InUseAt(a, p, 0); }
    }
    forall p | 0 <= p < |rest| ensures s.pcbs[TERMINALS + p] == rest[p] {}
    forall t | 0 <= t < TERMINALS ensures GoodSession(a, t) && Matches(s, a, t) {}
    forall t, i | 0 <= t < TERMINALS && 0 <= i < |a.sessions[t].chain| ensures Linked(s, a, t, i) {}
  }

  // ---------------------------------------------------------------------------------
  // What follows for a user, a caller of execute, and the processor
  // ---------------------------------------------------------------------------------

  /** A terminal that is spared shows what a console of its own would show after its own characters. */
  lemma KernelPrivateScreen(s: State, a: Ideal, es: seq<Event>, id: nat, t: nat)
    requires Refines(s, a) && AllowedAll(a, es, id) && t < TERMINALS && SparesAll(a, es, id, t)
    ensures CanRun(s, es, id) && RunAll(s, es, id).0.Sound()
    ensures FitsAll(s.View(t), Addressed(a, es, id, t))
    ensures RunAll(s, es, id).0.View(t) == Run(s.View(t), Addressed(a, es, id, t))
  {
    RunRefines(s, a, es, id);
    PrivateScreen(a, es, id, t);
    assert Matches(s, a, t) && Matches(RunAll(s, es, id).0, IdealRun(a, es, id).0, t);
  }

  /** In the kernel a step leaves what another terminal shows exactly when it spares that terminal. */
  lemma KernelSparesExactly(s: State, a: Ideal, e: Event, id: nat, t: nat)
    requires Refines(s, a) && Allowed(a, e) && t < TERMINALS && !IsFor(a, e, t)
    ensures CanStep(s, e) && Step(s, e, id).0.Sound()
    ensures Step(s, e, id).0.View(t) == s.View(t) <==> Spares(a, e, t)
  {
    StepRefines(s, a, e, id);
    SparesExactly(a, e, id, t);
    assert Matches(s, a, t) && Matches(Step(s, e, id).0, IdealStep(a, e, id).0, t);
  }

  /**
   A character or a tab, up to a page behind the page of the terminal that executes, lands on
   the page on display, and leaves the other terminals alone exactly when that is the same
   terminal, or shows that very character there.
   */
  lemma PutcLeaksExactly(s: State, a: Ideal, c: Byte)
    requires Refines(s, a) && (IsOrdinary(c) || c == TABULATOR) && 2048 <= 80 * s.y + s.x < 4096
    ensures CanStep(s, Putc(c)) && PutcStep(s, c).0.Sound() && s.View(s.shown).Paged()
    ensures (forall t :: 0 <= t < TERMINALS && t != s.active ==> PutcStep(s, c).0.View(t) == s.View(t))
      <==> s.active == s.shown || NextPageHas(s.View(s.shown).cells, 80 * s.y + s.x, c)
  {
    Drawing(s, a);
    forall t | 0 <= t < TERMINALS && t != s.active
      ensures PutcStep(s, c).0.View(t) == s.View(t)
        <==> t != s.shown || NextPageHas(s.View(s.shown).cells, 80 * s.y + s.x, c)
    {
      PutcLeaksAt(s, a, c, t);
    }
    assert Matches(s, a, s.shown);
  }

  lemma PutcLeaksAt(s: State, a: Ideal, c: Byte, t: nat)
    requires Refines(s, a) && (IsOrdinary(c) || c == TABULATOR) && 2048 <= 80 * s.y + s.x < 4096
    requires t < TERMINALS && t != s.active
    ensures CanStep(s, Putc(c)) && PutcStep(s, c).0.Sound() && s.View(t).Paged()
    ensures PutcStep(s, c).0.View(t) == s.View(t) <==> t != s.shown || NextPageHas(s.View(t).cells, 80 * s.y + s.x, c)
  {
    Drawing(s, a);
    assert Matches(s, a, t);
    NextPageHarmless(a.Pages(), Strip(a.Place(a.active)), s.x, s.y, c, a.Place(t));
    KernelSparesExactly(s, a, Putc(c), 0, t);
  }

  /**
   A key for the terminal on display while another one executes lands, up to a page behind, on
   the backup page of terminal 0, which nobody sees exactly when terminal 0 is the one on display.
   */
  lemma EchoLeaksExactly(s: State, a: Ideal, c: Byte)
    requires Refines(s, a) && (IsOrdinary(c) || c == TABULATOR) && s.active != s.shown
    requires 2048 <= 80 * s.terms[s.shown].y + s.terms[s.shown].x < 4096
    ensures CanStep(s, Echo(c)) && EchoStep(s, c).0.Sound() && s.View(0).Paged()
    ensures (forall t :: 0 <= t < TERMINALS && t != s.shown ==> EchoStep(s, c).0.View(t) == s.View(t))
      <==> s.shown == 0 || NextPageHas(s.View(0).cells, 80 * s.terms[s.shown].y + s.terms[s.shown].x, c)
  {
    Drawing(s, a);
    forall t | 0 <= t < TERMINALS && t != s.shown
      ensures EchoStep(s, c).0.View(t) == s.View(t)
        <==> t != 0 || NextPageHas(s.View(0).cells, 80 * s.terms[s.shown].y + s.terms[s.shown].x, c)
    {
      EchoLeaksAt(s, a, c, t);
    }
    assert Matches(s, a, 0);
  }

  lemma EchoLeaksAt(s: State, a: Ideal, c: Byte, t: nat)
    requires Refines(s, a) && (IsOrdinary(c) || c == TABULATOR) && s.active != s.shown && t < TERMINALS && t != s.shown
    requires 2048 <= 80 * s.terms[s.shown].y + s.terms[s.shown].x < 4096
    ensures CanStep(s, Echo(c)) && EchoStep(s, c).0.Sound() && s.View(t).Paged()
    ensures EchoStep(s, c).0.View(t) == s.View(t)
      <==> t != 0 || NextPageHas(s.View(t).cells, 80 * s.terms[s.shown].y + s.terms[s.shown].x, c)
  {
    Drawing(s, a);
    assert Matches(s, a, t);
    NextPageHarmless(a.Pages(), BEHIND, s.terms[s.shown].x, s.terms[s.shown].y, c, a.Place(t));
    KernelSparesExactly(s, a, Echo(c), 0, t);
  }

  /** What the pages and the unused process slots must be like before the shells are started. */
  predicate Fresh(pages: seq<seq<Cell>>, rest: seq<Pcb>) {
    && |rest| == PROCESSES - TERMINALS && |pages| == 4 && (forall i :: 0 <= i < 4 ==> |pages[i]| == 2048)
    && forall p :: 0 <= p < |rest| ==>
         !rest[p].present && rest[p].ebp.owner < PROCESSES && rest[p].parentEbp.owner < PROCESSES
  }

  /** From the moment the shells are started, every run of the kernel is a run of three terminals. */
  lemma EveryRun(pages: seq<seq<Cell>>, rest: seq<Pcb>, es: seq<Event>)
    requires Fresh(pages, rest)
    requires InitialIdeal(pages).Sound() && AllowedAll(InitialIdeal(pages), es, 1)
    ensures var (s, a) := (Initial(pages, rest), InitialIdeal(pages));
      && CanRun(s, es, 1)
      && Refines(RunAll(s, es, 1).0, IdealRun(a, es, 1).0)
      && RunAll(s, es, 1).1 == IdealRun(a, es, 1).1
  {
    InitialRefines(pages, rest);
    RunRefines(Initial(pages, rest), InitialIdeal(pages), es, 1);
  }

  /**
   Until the next tick, vidmap shows a program the page of its own terminal exactly when that
   terminal is on display or the program is its base shell.
   */
  lemma VidmapOwnPage(s: State, a: Ideal)
    requires Refines(s, a)
    ensures VidmapStep(s).userVid == VideoFrame(s.active, s.shown) <==> s.active == s.shown || a.Me().calls == []
  {
    TopLinked(s, a);
  }

  /**
   clear leaves the terminals that are not on display alone exactly when the active terminal
   is on display, or has nothing to lose.
   */
  lemma ClearSpares(s: State, a: Ideal)
    requires Refines(s, a)
    ensures Printable(s) && ClearStep(s).Sound()
    ensures (forall t :: 0 <= t < TERMINALS && t != s.shown ==> ClearStep(s).View(t) == s.View(t))
      <==> s.active == s.shown || (forall k :: 0 <= k < 2000 ==> s.View(s.active).cells[k] == CLEARED)
  {
    Drawing(s, a);
    assert Matches(s, a, s.active);
    var cells := s.View(s.active).cells;
    var after := ClearStep(s).View(s.active).cells;
    if s.active != s.shown {
      assert after == Fill(cells, 0, 2000, CLEARED);
      if forall k :: 0 <= k < 2000 ==> cells[k] == CLEARED {
        assert after == cells;
      }
    }
  }

  /** The terminal on display is cleared exactly when it is the active one, or was clear but for its cursor. */
  lemma ClearClears(s: State, a: Ideal)
    requires Refines(s, a)
    ensures Printable(s) && ClearStep(s).Sound() && s.View(s.shown).Paged()
    ensures ClearStep(s).View(s.shown) == Screen(Fill(s.View(s.shown).cells, 0, 2000, CLEARED), 0, 0)
      <==> s.active == s.shown || (forall k :: 0 <= k < 2000 ==> s.View(s.shown).cells[k] == CLEARED)
  {
    Drawing(s, a);
    assert Matches(s, a, s.active) && Matches(s, a, s.shown);
    var cells := s.View(s.shown).cells;
    var after := ClearStep(s).View(s.shown).cells;
    if s.active != s.shown {
      assert after == cells;
      if forall k :: 0 <= k < 2000 ==> cells[k] == CLEARED {
        assert cells == Fill(cells, 0, 2000, CLEARED);
      }
    }
  }

  lemma RunOfTwo(a: Ideal, e: Event, f: Event, id: nat)
    requires a.Sound() && Allowed(a, e) && Allowed(IdealStep(a, e, id).0, f)
    ensures AllowedAll(a, [e, f], id)
    ensures IdealRun(a, [e, f], id).0 == IdealStep(IdealStep(a, e, id).0, f, id + 1).0
  {
    var b := IdealStep(a, e, id).0;
    var c := IdealStep(b, f, id + 1).0;
    assert [e, f][1..] == [f] && [f][1..] == [];
    assert AllowedAll(c, [], id + 2) && IdealRun(c, [], id + 2).0 == c;
    assert AllowedAll(b, [f], id + 1) && IdealRun(b, [f], id + 1).0 == IdealRun(c, [], id + 2).0;
  }

  /** Wiping out a page is seen where something was printed. */
  lemma ClearSeen(s: State, a: Ideal, t: nat)
    requires Refines(s, a) && s.active == t != s.shown && s.View(t).Paged() && s.View(t).cells[0] == Cell(65, ATTRIB)
    ensures Printable(s) && ClearStep(s).Sound() && ClearStep(s).View(t) != s.View(t)
  {
    Drawing(s, a);
    assert Matches(s, a, t);
    assert ClearStep(s).View(t).cells[0] == CLEARED;
  }

  /** The second terminal prints an A, and Ctrl+L on the first wipes it out. */
  lemma ClearLosesAnA(pages: seq<seq<Cell>>, rest: seq<Pcb>)
    requires Fresh(pages, rest)
    ensures var es := [Tick, Putc(65)];
      && CanRun(Initial(pages, rest), es, 1)
      && var s := RunAll(Initial(pages, rest), es, 1).0;
         Printable(s) && ClearStep(s).Sound() && s.shown == 0 && ClearStep(s).View(1) != s.View(1)
  {
    var (a, es) := (InitialIdeal(pages), [Tick, Putc(65)]);
    SecondPrinted(pages);
    RunOfTwo(a, Tick, Putc(65), 1);
    EveryRun(pages, rest, es);
    var (s, c) := (RunAll(Initial(pages, rest), es, 1).0, IdealRun(a, es, 1).0);
    assert Matches(s, c, 1);
    ClearSeen(s, c, 1);
  }

  lemma SecondPrinted(pages: seq<seq<Cell>>)
    requires FourPages(pages)
    ensures var b := IdealStep(InitialIdeal(pages), Tick, 1).0;
      && Allowed(b, Putc(65))
      && var c := IdealStep(b, Putc(65), 2).0;
         c.active == 1 && c.shown == 0 && c.sessions[1].view.cells[0] == Cell(65, ATTRIB)
  {
    var b := IdealStep(InitialIdeal(pages), Tick, 1).0;
    assert b.active == 1 && b.shown == 0 && b.sessions[1].view == Screen(pages[2], 0, 0);
    assert Fits(b.Me().view, 65);
  }

  /** A program of the second terminal gets the page behind the backup pages. */
  lemma VidmapWrongPage(pages: seq<seq<Cell>>, rest: seq<Pcb>)
    requires Fresh(pages, rest)
    ensures var es := [Tick, Execute(true)];
      && CanRun(Initial(pages, rest), es, 1)
      && var s := RunAll(Initial(pages, rest), es, 1).0;
         s.active == 1 && VidmapStep(s).userVid == VIDMEM_INDEX + 5 != VideoFrame(1, s.shown) == VIDMEM_INDEX + 3
  {
    var (a, es) := (InitialIdeal(pages), [Tick, Execute(true)]);
    RunOfTwo(a, Tick, Execute(true), 1);
    EveryRun(pages, rest, es);
    SecondTop(pages, rest);
    TopLinked(RunAll(Initial(pages, rest), es, 1).0, IdealRun(a, es, 1).0);
  }

  lemma SecondTop(pages: seq<seq<Cell>>, rest: seq<Pcb>)
    requires Fresh(pages, rest)
    ensures var c := IdealStep(IdealStep(InitialIdeal(pages), Tick, 1).0, Execute(true), 2).0;
      c.active == 1 && c.shown == 0 && c.Me().Top() == 3
  {
    var b := IdealStep(InitialIdeal(pages), Tick, 1).0;
    assert forall t :: 0 <= t < TERMINALS ==> b.sessions[t].chain == [t];
    ThreeInUse(b);
  }

  lemma ThreeInUse(b: Ideal)
    requires b.Sound() && forall t :: 0 <= t < TERMINALS ==> b.sessions[t].chain == [t]
    ensures b.LeastUnused(0) == 3
  {
    assert b.LeastUnused(3) == 3;
    assert b.LeastUnused(2) == b.LeastUnused(3);
    assert b.LeastUnused(1) == b.LeastUnused(2);
  }

  function Putcs(text: seq<Byte>): (es: seq<Event>)
    ensures |es| == |text|
  {
    seq(|text|, i requires 0 <= i < |text| => Putc(text[i]))
  }

  /** A text that fits the page of the terminal that executes. */
  lemma {:induction false} PutcsRun(a: Ideal, text: seq<Byte>, id: nat)
    requires a.Sound() && FitsAll(a.Me().view, text)
    ensures AllowedAll(a, Putcs(text), id)
    ensures IdealRun(a, Putcs(text), id).0 == a.Showing(a.active, Run(a.Me().view, text))
    decreases |text|
  {
    if text == [] {
      assert a.Showing(a.active, a.Me().view) == a;
    } else {
      var b := a.Showing(a.active, Put(a.Me().view, text[0]));
      assert Putcs(text)[0] == Putc(text[0]) && Putcs(text)[1..] == Putcs(text[1..]);
      assert IdealStep(a, Putc(text[0]), id).0 == b;
      PutcsRun(b, text[1..], id + 1);
    }
  }

  /**
   The second terminal, off display, prints 24 newlines, 76 characters, a tab and 48 characters.
   The next character changes the top left of the first terminal's screen.
   */
  lemma CharacterLeaks(pages: seq<seq<Cell>>, rest: seq<Pcb>)
    requires Fresh(pages, rest) && pages[0][0] != Cell(98, ATTRIB)
    ensures var es := [Tick] + Putcs(FillingText());
      && CanRun(Initial(pages, rest), es, 1)
      && var s := RunAll(Initial(pages, rest), es, 1).0;
         && s.active == 1 && s.shown == 0 && CanPutc(s, 98) && PutcStep(s, 98).0.Sound()
         && PutcStep(s, 98).0.View(0) != s.View(0)
  {
    var (a, text) := (InitialIdeal(pages), FillingText());
    var (b, es) := (IdealStep(a, Tick, 1).0, [Tick] + Putcs(text));
    assert b.Me().view == Screen(pages[2], 0, 0);
    FillingTextFills(b.Me().view);
    PutcsRun(b, text, 2);
    assert es[1..] == Putcs(text);
    EveryRun(pages, rest, es);
    var c := b.Showing(1, Run(b.Me().view, text));
    assert IdealRun(a, es, 1).0 == c;
    LeaksAtTheEnd(RunAll(Initial(pages, rest), es, 1).0, c);
  }

  lemma LeaksAtTheEnd(s: State, a: Ideal)
    requires Refines(s, a) && a.active == 1 && a.shown == 0 && a.Me().view.Offset() == 2048
    requires a.sessions[0].view.cells[0] != Cell(98, ATTRIB)
    ensures CanPutc(s, 98) && PutcStep(s, 98).0.Sound() && PutcStep(s, 98).0.View(0) != s.View(0)
  {
    Drawing(s, a);
    assert Matches(s, a, 0);
    PutcLeaksAt(s, a, 98, 0);
  }

  /** While a terminal is tidy, a byte for it faults exactly when it is a backspace at the top left. */
  lemma FaultsExactly(s: State, a: Ideal, c: Byte)
    requires Refines(s, a) && a.Me().view.Tidy() && Fits(a.Me().view, c)
    ensures CanPutc(s, c)
    ensures PutcStep(s, c).1 == Fault <==> c == BACKSPACE && s.x == 0 && s.y == 0
  {
    Drawing(s, a);
    PutcRefines(s, a, c);
    if c == BACKSPACE { TidyFront(a.Me().view); }
  }

  lemma RunThenQuit(s: State, a: Ideal, id: nat, es: seq<Event>, value: int)
    requires Refines(s, a) && AllowedAll(a, es, id)
    ensures CanRun(s, es, id) && CanHalt(RunAll(s, es, id).0)
    ensures Quit(RunAll(s, es, id).0, value, id + |es|).1 == IdealHalt(IdealRun(a, es, id).0, value).1
  {
    RunRefines(s, a, es, id);
    QuitRefines(RunAll(s, es, id).0, IdealRun(a, es, id).0, value, id + |es|);
  }

  /**
   Last in, first out: however many programs run, switch or halt in between, the halt that
   closes the call made by an execute returns to the very point of that execute.
   */
  lemma HaltMatchesExecute(s: State, a: Ideal, id: nat, es: seq<Event>, value: int)
    requires Refines(s, a) && Nested(a, id, es)
    ensures var r := Exec(s, true, id).0;
      && CanRun(r, es, id + 1)
      && var end := RunAll(r, es, id + 1).0;
         CanHalt(end) && Quit(end, value, id + 1 + |es|).1 == Return(Frame(s.cpu, id), value)
  {
    ExecRefines(s, a, true, id);
    RunThenQuit(Exec(s, true, id).0, IdealExec(a, true, id).0, id + 1, es, value);
    IdealHaltMatches(a, id, es, value);
  }

  /** Where the processor and the page tables point, in every state the kernel reaches. */
  lemma ContextCoherent(s: State, a: Ideal)
    requires Refines(s, a)
    ensures s.cpu == s.terms[s.active].pid && s.pcbs[s.cpu].present
    ensures s.userPage == 2 + s.terms[s.active].pid
    ensures s.esp0 == s.pcbs[s.cpu].esp0 == 0x800000 - 0x2000 * s.terms[s.active].pid
    ensures s.kernelVid == s.userVid == if s.active == s.shown then 0xB8 else 0xBA + s.active
    ensures State.Slot(s.kernelVid) == if s.active == s.shown then 0 else 1 + s.active
  {
    assert Matches(s, a, s.active);
    TopLinked(s, a);
    InUseAt(a, a.active, |a.Me().chain| - 1);
    assert Linked(s, a, a.active, |a.Me().chain| - 1);
  }
}
