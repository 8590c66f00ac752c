/** What every kernel step keeps, and what follows for whole runs. */
module KernelSafety {
  import opened Processes
  import opened Wrappers

  /** What one step may do to one slot: keep its process (a dead one stays dead), free it, or fill it
      with a process that has the next pid. */
  predicate SlotMoves(s: Sys, s': Sys, p: Process, p': Process) {
    || (p'.pid == p.pid && p'.parent == p.parent && (p.state == Zombie ==> p'.state == Zombie))
    || (p' == EMPTY && p.pid != 0)
    || (p.pid == 0 && p'.pid == s.nextPid && s'.nextPid == s.nextPid + 1)
  }

  ghost predicate Moves(s: Sys, s': Sys) {
    && Shaped(s) && Shaped(s') && s.nextPid <= s'.nextPid
    && forall i | 0 <= i < SLOTS :: SlotMoves(s, s', s.procs[i], s'.procs[i])
  }

  lemma PositionUnique(s: Sys, i: nat)
    requires Inv(s) && i < SLOTS && s.procs[i].pid != 0
    ensures Position(s.procs, s.procs[i].pid) == i
  {
  }

  lemma LaunchKeeps(s: Sys, parent: nat, cr3: nat)
    requires Inv(s) && parent < s.nextPid
    ensures Inv(Launch(s, parent, cr3)) && Moves(s, Launch(s, parent, cr3))
  {
    var s' := Launch(s, parent, cr3);
    assert forall j | 0 <= j < SLOTS :: SlotOk(s, s.procs[j], s.stacks[j]);
    forall j | 0 <= j < SLOTS
      ensures SlotOk(s', s'.procs[j], s'.stacks[j])
    {
    }
  }

  lemma AllocKeeps(s: Sys, parent: nat)
    requires Inv(s) && parent < s.nextPid
    ensures Inv(Alloc(s, parent)) && Moves(s, Alloc(s, parent))
  {
    var s' := Alloc(s, parent);
    assert forall j | 0 <= j < SLOTS :: SlotOk(s, s.procs[j], s.stacks[j]);
    forall j | 0 <= j < SLOTS
      ensures SlotOk(s', s'.procs[j], s'.stacks[j])
    {
    }
  }

  /** Replacing one record by a lawful one with the same pid and parent. */
  lemma UpdateKeeps(s: Sys, i: nat, p: Process)
    requires Inv(s) && i < SLOTS && SlotOk(s, p, s.stacks[i])
    requires p.pid == s.procs[i].pid && p.parent == s.procs[i].parent && (s.procs[i].state == Zombie ==> p.state == Zombie)
    ensures Inv(s.(procs := s.procs[i := p])) && Moves(s, s.(procs := s.procs[i := p]))
  {
    var s' := s.(procs := s.procs[i := p]);
    forall j | 0 <= j < SLOTS
      ensures SlotOk(s', s'.procs[j], s'.stacks[j])
    {
      assert SlotOk(s, s.procs[j], s.stacks[j]);
    }
  }

  lemma MarkExitKeeps(s: Sys, pid: nat, code: int)
    requires Inv(s) && pid != 0
    ensures Inv(MarkExit(s, pid, code)) && Moves(s, MarkExit(s, pid, code))
  {
    MovesRefl(s);
    hide Inv, Moves;
    var i := Position(s.procs, pid);
    if i < |s.procs| {
      SlotFacts(s, i);
      UpdateKeeps(s, i, s.procs[i].(state := Zombie, exitCode := code));
    }
  }

  lemma SlotFacts(s: Sys, i: nat)
    requires Inv(s)
    ensures Shaped(s) && s.slice <= SLICE && s.current < s.nextPid
    ensures i < SLOTS ==> SlotOk(s, s.procs[i], s.stacks[i])
  {
  }

  lemma MovesRefl(s: Sys)
    requires Inv(s)
    ensures Moves(s, s) && Shaped(s)
  {
  }

  /** A switch to a Ready process: it runs, and whoever ran before is Ready again. */
  lemma SwitchKeeps(s: Sys, n: nat)
    requires Inv(s) && n < SLOTS && s.procs[n].state == Ready
    ensures Inv(Switch(s, n)) && Moves(s, Switch(s, n)) && s.stacks[n]
    ensures Switch(s, n).current == s.procs[n].pid
  {
    var s' := Switch(s, n);
    assert SlotOk(s, s.procs[n], s.stacks[n]);
    var c := Position(s.procs, s.current);
    forall j | 0 <= j < SLOTS
      ensures SlotOk(s', s'.procs[j], s'.stacks[j]) && SlotMoves(s, s', s.procs[j], s'.procs[j])
      ensures s'.procs[j].pid == s.procs[j].pid
    {
      assert SlotOk(s, s.procs[j], s.stacks[j]);
      if j != n && s.procs[j].state == Running {
        PositionUnique(s, j);
      }
    }
  }

  lemma ScheduleKeeps(s: Sys)
    requires Inv(s)
    ensures Inv(Schedule(s)) && Moves(s, Schedule(s))
  {
    var n := NextReady(s.procs, CurrentSlot(s), 1);
    if n.Some? {
      assert SlotOk(s, s.procs[n.value], s.stacks[n.value]);
      SwitchKeeps(s, n.value);
    }
  }

  lemma MovesTrans(s: Sys, s1: Sys, s2: Sys)
    requires Moves(s, s1) && Moves(s1, s2) && s1.nextPid == s.nextPid && s2.nextPid == s1.nextPid
    requires forall i | 0 <= i < SLOTS :: s1.procs[i].pid == s.procs[i].pid && s1.procs[i].parent == s.procs[i].parent
    ensures Moves(s, s2)
  {
    forall i | 0 <= i < SLOTS
      ensures SlotMoves(s, s2, s.procs[i], s2.procs[i])
    {
      assert SlotMoves(s, s1, s.procs[i], s1.procs[i]);
      assert SlotMoves(s1, s2, s1.procs[i], s2.procs[i]);
    }
  }

  lemma ExitKeeps(s: Sys, code: int)
    requires Inv(s) && s.current != 0
    ensures Inv(Exit(s, code)) && Moves(s, Exit(s, code))
  {
    hide Inv, Moves, SlotOk, Switch, NextReady;
    SlotFacts(s, 0);
    MarkExitKeeps(s, s.current, code);
    var s1 := MarkExit(s, s.current, code);
    SwitchNextKeeps(s1);
    MovesTrans(s, s1, SwitchNext(s1));
  }

  lemma SwitchNextKeeps(s: Sys)
    requires Inv(s)
    ensures Inv(SwitchNext(s)) && Moves(s, SwitchNext(s)) && SwitchNext(s).nextPid == s.nextPid
  {
    MovesRefl(s);
    var n := NextReady(s.procs, CurrentSlot(s), 1);
    if n.Some? {
      SwitchKeeps(s, n.value);
    }
  }

  lemma KillKeeps(s: Sys, pid: nat, signum: nat)
    requires Inv(s)
    ensures Inv(Kill(s, pid, signum)) && Moves(s, Kill(s, pid, signum))
  {
    MovesRefl(s);
    hide Inv, Moves;
    var i := Position(s.procs, pid);
    if pid != 0 && i < |s.procs| {
      SlotFacts(s, i);
      var p := s.procs[i];
      UpdateKeeps(s, i, p.(pending := {}, state := Zombie, exitCode := 128 + signum));
      if signum > 0 {
        UpdateKeeps(s, i, p.(pending := p.pending + {(signum - 1) % 32}));
      }
    }
  }

  lemma DeliverKeeps(s: Sys)
    requires Inv(s)
    ensures Inv(Deliver(s)) && Moves(s, Deliver(s))
  {
    MovesRefl(s);
    hide Inv, Moves;
    var i := Position(s.procs, s.current);
    if s.current != 0 && i < |s.procs| {
      SlotFacts(s, i);
      UpdateKeeps(s, i, Deliver(s).procs[i]);
    }
  }

  lemma SliceKeeps(s: Sys, slice: nat)
    requires Inv(s) && slice <= SLICE
    ensures Inv(s.(slice := slice)) && Moves(s, s.(slice := slice))
  {
    var s' := s.(slice := slice);
    forall j | 0 <= j < SLOTS
      ensures SlotOk(s', s'.procs[j], s'.stacks[j])
    {
      assert SlotOk(s, s.procs[j], s.stacks[j]);
    }
  }

  lemma TickKeeps(s: Sys)
    requires Inv(s)
    ensures Inv(Tick(s)) && Moves(s, Tick(s))
  {
    MovesRefl(s);
    TickIs(s);
    hide Inv, Moves, Tick, Schedule, Deliver, AfterDelivery;
    SlotFacts(s, 0);
    var s1 := s.(slice := if s.slice > 0 then s.slice - 1 else 0);
    SliceKeeps(s, s1.slice);
    if s.active && s1.slice == 0 {
      ScheduleMoves(s1);
      MovesTrans(s, s1, Tick(s));
    } else if s.active {
      DeliveryMoves(s1);
      MovesTrans(s, s1, Tick(s));
    }
  }

  lemma TickIs(s: Sys)
    requires Shaped(s)
    ensures var s1 := s.(slice := if s.slice > 0 then s.slice - 1 else 0);
            Tick(s) == if !s.active then s else if s1.slice == 0 then Schedule(s1) else AfterDelivery(Deliver(s1))
  {
  }

  lemma DeliveryMoves(s: Sys)
    requires Inv(s)
    ensures Shaped(s) && Inv(AfterDelivery(Deliver(s))) && Moves(s, AfterDelivery(Deliver(s)))
    ensures AfterDelivery(Deliver(s)).nextPid == s.nextPid
  {
    SlotFacts(s, 0);
    MovesRefl(s);
    DeliverKeeps(s);
    var s2 := Deliver(s);
    DeliverSame(s);
    hide Inv, Moves, Schedule, Deliver;
    ScheduleMoves(s2);
    MovesTrans(s, s2, Schedule(s2));
  }

  lemma DeliverSame(s: Sys)
    ensures var s' := Deliver(s);
            && s'.nextPid == s.nextPid && s'.current == s.current && s'.slice == s.slice && s'.stacks == s.stacks && s'.active == s.active
            && forall i | 0 <= i < |s.procs| ::
                 s'.procs[i].pid == s.procs[i].pid && s'.procs[i].parent == s.procs[i].parent
                 && s'.procs[i].pending <= s.procs[i].pending
  {
  }

  lemma ScheduleMoves(s: Sys)
    requires Inv(s)
    ensures Shaped(s) && Inv(Schedule(s)) && Moves(s, Schedule(s)) && Schedule(s).nextPid == s.nextPid
  {
    hide Inv, Moves;
    SlotFacts(s, 0);
    ScheduleKeeps(s);
  }

  lemma FreeKeeps(s: Sys, procs: seq<Process>)
    requires Inv(s) && |procs| == SLOTS
    requires forall i | 0 <= i < SLOTS :: procs[i] == s.procs[i] || (procs[i] == EMPTY && s.procs[i].pid != 0)
    ensures Inv(s.(procs := procs)) && Moves(s, s.(procs := procs))
  {
    var s' := s.(procs := procs);
    forall j | 0 <= j < SLOTS
      ensures SlotOk(s', procs[j], s'.stacks[j])
    {
      assert SlotOk(s, s.procs[j], s.stacks[j]);
    }
  }

  lemma WaitKeeps(s: Sys, pid: Option<nat>)
    requires Inv(s)
    ensures Inv(Wait(s, pid).0) && Moves(s, Wait(s, pid).0)
  {
    MovesRefl(s);
    hide Inv, Moves, Schedule;
    ScheduleMoves(s);
    var i := ChildFrom(s.procs, s.current, pid, 0);
    if i < |s.procs| && s.procs[i].state == Zombie {
      FreeKeeps(s, s.procs[i := EMPTY]);
    }
  }

  lemma OomKeeps(s: Sys)
    requires Inv(s)
    ensures Inv(Oom(s)) && Moves(s, Oom(s))
  {
    MovesRefl(s);
    forall i | 0 <= i < SLOTS
      ensures s.procs[i].state == Zombie ==> s.procs[i].pid != 0
    {
      assert SlotOk(s, s.procs[i], s.stacks[i]);
    }
    hide Inv, Moves;
    FreeKeeps(s, Oom(s).procs);
  }

  /** Running out of memory frees slots only: all the zombies', or, when there are none, that of the first process
      that may be killed. */
  lemma OomFrees(s: Sys, i: nat)
    requires Inv(s) && i < SLOTS && s.procs[i].pid != 0
    ensures Oom(s).procs[i] == s.procs[i] || Oom(s).procs[i] == EMPTY
    ensures Oom(s).procs[i] == EMPTY <==>
            || s.procs[i].state == Zombie
            || (&& s.procs[i].pid > 2 && s.procs[i].state == Ready
                && (forall j | 0 <= j < i :: !IsVictim(s.procs[j])) && forall j | 0 <= j < SLOTS :: s.procs[j].state != Zombie)
  {
  }

  /** Exec restarts its caller in place. */
  lemma ExecIs(s: Sys, cr3: nat)
    requires Inv(s) && CurrentRuns(s)
    ensures var c := Position(s.procs, s.current);
            Exec(s, cr3) == s.(procs := s.procs[c := s.procs[c].(cr3 := cr3)], slice := SLICE)
  {
    var c := Position(s.procs, s.current);
    assert SlotOk(s, s.procs[c], s.stacks[c]);
    assert s.stacks[c := true] == s.stacks;
    var procs := s.procs[c := s.procs[c].(cr3 := cr3, state := Ready)];
    assert Position(procs, s.current) == c by {
      assert forall j | 0 <= j < |procs| :: procs[j].pid == s.procs[j].pid;
    }
    assert Exec(s, cr3).procs == s.procs[c := s.procs[c].(cr3 := cr3)];
  }

  lemma ExecKeeps(s: Sys, cr3: nat)
    requires Inv(s) && CurrentRuns(s)
    ensures Inv(Exec(s, cr3)) && Moves(s, Exec(s, cr3))
  {
    ExecIs(s, cr3);
    hide Inv, Moves, Exec;
    var c := Position(s.procs, s.current);
    SlotFacts(s, c);
    UpdateKeeps(s, c, s.procs[c].(cr3 := cr3));
    var s1 := s.(procs := s.procs[c := s.procs[c].(cr3 := cr3)]);
    SliceKeeps(s1, SLICE);
    MovesTrans(s, s1, s1.(slice := SLICE));
  }

  /** Every step keeps the invariant and moves every slot lawfully. */
  lemma StepKeeps(s: Sys, e: Event)
    requires Inv(s) && Enabled(s, e)
    ensures Shaped(s) && Inv(Step(s, e)) && Moves(s, Step(s, e))
  {
    MovesRefl(s);
    SlotFacts(s, 0);
    match e
    case Reserving => AllocKeeps(s, 0);
    case Spawning(cr3) => LaunchKeeps(s, 0, cr3);
    case Forking(clone) => if clone.Some? { LaunchKeeps(s, s.current, clone.value); }
    case Exiting(code) => ExitKeeps(s, code);
    case Killing(pid, signum) => KillKeeps(s, pid, signum);
    case Waiting(pid) => WaitKeeps(s, pid);
    case Ticking => TickKeeps(s);
    case Yielding => ScheduleKeeps(s);
    case Executing(cr3) => ExecKeeps(s, cr3);
    case OutOfMemory => OomKeeps(s);
    case Starting => StartKeeps(s);
  }

  lemma StartKeeps(s: Sys)
    requires Inv(s)
    ensures Inv(s.(active := true)) && Moves(s, s.(active := true))
  {
    var s' := s.(active := true);
    forall j | 0 <= j < SLOTS
      ensures SlotOk(s', s'.procs[j], s'.stacks[j])
    {
      assert SlotOk(s, s.procs[j], s.stacks[j]);
    }
  }

  /** The state after a sequence of events. */
  function Run(s: Sys, es: seq<Event>): (r: Sys)
    requires Shaped(s)
    ensures Shaped(r)
    decreases |es|
  {
    if es == [] then s else Run(Step(s, es[0]), es[1..])
  }

  predicate AllEnabled(s: Sys, es: seq<Event>)
    requires Shaped(s)
    decreases |es|
  {
    es == [] || (Enabled(s, es[0]) && AllEnabled(Step(s, es[0]), es[1..]))
  }

  /** Over every run: pids unique and handed out, parents older, at most the current process Running. */
  lemma {:induction false} RunKeeps(s: Sys, es: seq<Event>)
    requires Inv(s) && AllEnabled(s, es)
    ensures Inv(Run(s, es)) && s.nextPid <= Run(s, es).nextPid
    decreases |es|
  {
    if es != [] {
      StepKeeps(s, es[0]);
      RunKeeps(Step(s, es[0]), es[1..]);
    }
  }

  /** Two processes never run at once, and the one that does is the current one. */
  lemma OneRuns(s: Sys, i: nat, j: nat)
    requires Inv(s) && i < SLOTS && j < SLOTS && s.procs[i].state == Running && s.procs[j].state == Running
    ensures i == j && s.procs[i].pid == s.current
  {
    assert SlotOk(s, s.procs[i], s.stacks[i]) && SlotOk(s, s.procs[j], s.stacks[j]);
    PositionUnique(s, i);
    PositionUnique(s, j);
  }

  predicate IsParentSlot(s: Sys, child: nat, parent: nat) {
    child < |s.procs| && parent < |s.procs| && s.procs[child].pid != 0 && s.procs[child].parent == s.procs[parent].pid
  }

  /** Ancestry is well founded: along any path from child to parent, pids strictly fall. */
  lemma {:induction false} AncestryDescends(s: Sys, path: seq<nat>, j: nat)
    requires Inv(s) && 0 < j < |path| && forall k: nat | k < |path| - 1 :: IsParentSlot(s, path[k], path[k + 1])
    ensures path[0] < |s.procs| && path[j] < |s.procs| && s.procs[path[j]].pid < s.procs[path[0]].pid
  {
    assert IsParentSlot(s, path[j - 1], path[j - 1 + 1]);
    assert SlotOk(s, s.procs[path[j - 1]], s.stacks[path[j - 1]]);
    if j > 1 {
      AncestryDescends(s, path, j - 1);
    }
  }

  /** Handed out, and every slot that still holds it is a zombie. */
  ghost predicate Dead(s: Sys, pid: nat) {
    0 < pid < s.nextPid && forall i | 0 <= i < |s.procs| :: s.procs[i].pid == pid ==> s.procs[i].state == Zombie
  }

  /** Handed out and in no slot. */
  ghost predicate Gone(s: Sys, pid: nat) {
    0 < pid < s.nextPid && forall i | 0 <= i < |s.procs| :: s.procs[i].pid != pid
  }

  lemma DeadStep(s: Sys, s': Sys, pid: nat)
    requires Moves(s, s')
    ensures Dead(s, pid) ==> Dead(s', pid)
    ensures Gone(s, pid) ==> Gone(s', pid)
  {
    forall i | 0 <= i < SLOTS && 0 < pid < s.nextPid && s'.procs[i].pid == pid
      ensures s.procs[i].pid == pid && (s.procs[i].state == Zombie ==> s'.procs[i].state == Zombie)
    {
      assert SlotMoves(s, s', s.procs[i], s'.procs[i]);
    }
  }

  /** A dead process is never revived, however the run goes on; its pid is never handed out again. */
  lemma {:induction false} DeadForever(s: Sys, es: seq<Event>, pid: nat)
    requires Inv(s) && AllEnabled(s, es)
    ensures Dead(s, pid) ==> Dead(Run(s, es), pid)
    ensures Gone(s, pid) ==> Gone(Run(s, es), pid)
    decreases |es|
  {
    if es != [] {
      StepKeeps(s, es[0]);
      DeadStep(s, Step(s, es[0]), pid);
      DeadForever(Step(s, es[0]), es[1..], pid);
    }
  }

  /** The pids that waitpid returned along a run. */
  function Returned(s: Sys, es: seq<Event>): seq<nat>
    requires Shaped(s)
    decreases |es|
  {
    if es == [] then []
    else
      var rest := Returned(Step(s, es[0]), es[1..]);
      if es[0].Waiting? && Wait(s, es[0].child).1.Reaped? then [Wait(s, es[0].child).1.pid] + rest else rest
  }

  /** Waitpid returns a child of the caller that was a zombie; afterwards its pid is gone. */
  lemma WaitReaps(s: Sys, pid: Option<nat>)
    requires Inv(s) && Wait(s, pid).1.Reaped?
    ensures var w := Wait(s, pid).1;
            && Live(s.procs, w.pid) && Gone(Wait(s, pid).0, w.pid) && (pid.Some? ==> w.pid == pid.value)
            && var p := s.procs[Position(s.procs, w.pid)];
            p.parent == s.current && p.state == Zombie && p.exitCode == w.code
  {
    var i := ChildFrom(s.procs, s.current, pid, 0);
    PositionUnique(s, i);
    assert SlotOk(s, s.procs[i], s.stacks[i]);
  }

  lemma {:induction false} GoneNotReturned(s: Sys, es: seq<Event>, pid: nat)
    requires Inv(s) && AllEnabled(s, es) && Gone(s, pid)
    ensures pid !in Returned(s, es)
    decreases |es|
  {
    if es != [] {
      StepKeeps(s, es[0]);
      DeadStep(s, Step(s, es[0]), pid);
      GoneNotReturned(Step(s, es[0]), es[1..], pid);
      if es[0].Waiting? && Wait(s, es[0].child).1.Reaped? {
        WaitReaps(s, es[0].child);
      }
    }
  }

  ghost predicate OnceEach(pids: seq<nat>) {
    forall i, j | 0 <= i < j < |pids| :: pids[i] != pids[j]
  }

  lemma OnceMore(pid: nat, pids: seq<nat>)
    requires OnceEach(pids) && pid !in pids
    ensures OnceEach([pid] + pids)
  {
  }

  /** Over any run, waitpid returns each pid at most once. */
  lemma {:induction false} ReturnedOnce(s: Sys, es: seq<Event>)
    requires Inv(s) && AllEnabled(s, es)
    ensures OnceEach(Returned(s, es))
    decreases |es|
  {
    if es != [] {
      SlotFacts(s, 0);
      FirstReturn(s, es);
      hide Inv, AllEnabled, Returned, Step, Wait, Gone, OnceEach;
      var s', rest := Step(s, es[0]), es[1..];
      ReturnedOnce(s', rest);
      if es[0].Waiting? && Wait(s, es[0].child).1.Reaped? {
        GoneNotReturned(s', rest, Wait(s, es[0].child).1.pid);
        OnceMore(Wait(s, es[0].child).1.pid, Returned(s', rest));
      }
    }
  }

  lemma FirstReturn(s: Sys, es: seq<Event>)
    requires Inv(s) && AllEnabled(s, es) && es != []
    ensures Inv(Step(s, es[0])) && AllEnabled(Step(s, es[0]), es[1..])
    ensures var rest := Returned(Step(s, es[0]), es[1..]);
            if es[0].Waiting? && Wait(s, es[0].child).1.Reaped?
            then var pid := Wait(s, es[0].child).1.pid;
                 Returned(s, es) == [pid] + rest && Gone(Step(s, es[0]), pid)
            else Returned(s, es) == rest
  {
    StepKeeps(s, es[0]);
    hide Inv, Gone;
    if es[0].Waiting? && Wait(s, es[0].child).1.Reaped? {
      WaitReaps(s, es[0].child);
    }
  }

  /** `waitpid(-1)` looks at the first child slot only: it reaps exactly when that child is a zombie, whatever the
      other children are. */
  lemma WaitAnyReapsIff(s: Sys, i: nat)
    requires Inv(s) && i < SLOTS && IsChild(s.procs[i], s.current, None)
    requires forall j | 0 <= j < i :: !IsChild(s.procs[j], s.current, None)
    ensures Wait(s, None).1.Reaped? <==> s.procs[i].state == Zombie
  {
    assert ChildFrom(s.procs, s.current, None, 0) == i;
  }

  /** Exec revives its caller: dead processes stay dead exactly when the caller is not a zombie. */
  lemma ExecRevivesIff(s: Sys, cr3: nat)
    requires Inv(s) && s.current != 0
    ensures Dead(s, s.current) && Live(s.procs, s.current) <==> Dead(s, s.current) && !Dead(Exec(s, cr3), s.current)
  {
    var c := Position(s.procs, s.current);
    if c < |s.procs| {
      var procs := s.procs[c := s.procs[c].(cr3 := cr3, state := Ready)];
      assert Position(procs, s.current) == c by {
        assert forall j | 0 <= j < |procs| :: procs[j].pid == s.procs[j].pid;
      }
      assert Exec(s, cr3).procs[c].state == Running;
    }
  }

  /** Exit by pid 0 turns a free slot into a zombie: the table stays sound exactly when there is a caller
      or no free slot. */
  lemma ExitKeepsIff(s: Sys, code: int)
    requires Inv(s)
    ensures Inv(Exit(s, code)) <==> s.current != 0 || forall i | 0 <= i < SLOTS :: s.procs[i].pid != 0
  {
    if s.current != 0 {
      ExitKeeps(s, code);
    } else {
      var i := Position(s.procs, 0);
      if i < |s.procs| {
        GhostStays(MarkExit(s, 0, code), i);
      } else {
        SwitchNextKeeps(s);
      }
    }
  }

  /** A zombie without a pid survives the switch that follows. */
  lemma GhostStays(s: Sys, i: nat)
    requires Shaped(s) && i < SLOTS && s.procs[i].pid == 0 && s.procs[i].state == Zombie
    ensures !Inv(SwitchNext(s))
  {
    var s' := SwitchNext(s);
    assert s'.procs[i].pid == 0 && s'.procs[i].state == Zombie;
    assert !SlotOk(s', s'.procs[i], s'.stacks[i]);
  }

  /** No process has a pending kill or terminate bit. */
  ghost predicate Quiet(s: Sys) {
    forall i | 0 <= i < |s.procs| :: SIGKILL - 1 !in s.procs[i].pending && SIGTERM - 1 !in s.procs[i].pending
  }

  /** A signal sets one of those bits exactly when its number is 9 or 15 modulo 32 but neither of the two. */
  predicate Disguised(signum: nat) {
    signum > 0 && signum != SIGKILL && signum != SIGTERM && signum % 32 in {SIGKILL, SIGTERM}
  }

  lemma KillQuietIff(s: Sys, pid: nat, signum: nat)
    requires Inv(s) && Quiet(s)
    ensures Quiet(Kill(s, pid, signum)) <==> !(Live(s.procs, pid) && Disguised(signum))
  {
    var i := Position(s.procs, pid);
    if pid != 0 && i < |s.procs| {
      assert SlotOk(s, s.procs[i], s.stacks[i]);
      var p := Kill(s, pid, signum).procs[i];
      if Disguised(signum) {
        assert (signum - 1) % 32 == signum % 32 - 1;
        assert (signum - 1) % 32 in p.pending;
      }
    }
  }

  /** While the bits stay clear, the timer never kills. */
  lemma DeliverHarmless(s: Sys)
    requires Inv(s) && Quiet(s)
    ensures Quiet(Deliver(s)) && forall i | 0 <= i < SLOTS :: Deliver(s).procs[i].state == s.procs[i].state
  {
  }

  /** Delivery leaves every other signal pending, for ever: it clears only the two bits it has just found clear. */
  lemma DeliverClearsNothing(s: Sys)
    requires Inv(s) && Quiet(s)
    ensures Deliver(s) == s
  {
    var i := Position(s.procs, s.current);
    if s.current != 0 && i < |s.procs| {
      assert s.procs[i].pending - {SIGKILL - 1, SIGTERM - 1} == s.procs[i].pending;
      assert Deliver(s).procs == s.procs;
    }
  }

  predicate Plain(e: Event) { e.Killing? ==> !Disguised(e.signum) }

  ghost predicate SamePending(s: Sys, s': Sys) {
    && |s'.procs| == |s.procs|
    && forall i | 0 <= i < |s.procs| :: s'.procs[i].pending <= s.procs[i].pending
  }

  lemma SwitchPending(s: Sys, n: nat)
    requires Shaped(s) && n < SLOTS
    ensures SamePending(s, Switch(s, n))
  {
  }

  lemma SchedulePending(s: Sys)
    requires Shaped(s)
    ensures SamePending(s, Schedule(s)) && SamePending(s, SwitchNext(s))
  {
    var n := NextReady(s.procs, CurrentSlot(s), 1);
    if n.Some? {
      SwitchPending(s, n.value);
    }
  }

  lemma TickPending(s: Sys)
    requires Shaped(s)
    ensures SamePending(s, Tick(s))
  {
    hide Schedule, Deliver;
    var s1 := s.(slice := if s.slice > 0 then s.slice - 1 else 0);
    SchedulePending(s1);
    DeliverSame(s1);
    SchedulePending(Deliver(s1));
  }

  lemma QuietStep(s: Sys, e: Event)
    requires Inv(s) && Quiet(s) && Plain(e)
    ensures Shaped(s) && Quiet(Step(s, e))
  {
    hide Inv, Schedule, SwitchNext, Switch, Tick, NextReady;
    SlotFacts(s, 0);
    match e
    case Reserving =>
    case Spawning(cr3) =>
    case Forking(clone) =>
    case Exiting(code) => SchedulePending(MarkExit(s, s.current, code));
    case Killing(pid, signum) => KillQuietIff(s, pid, signum);
    case Waiting(pid) => SchedulePending(s);
    case Ticking => TickPending(s);
    case Yielding => SchedulePending(s);
    case Executing(cr3) => ExecPending(s, cr3);
    case OutOfMemory =>
    case Starting =>
  }

  lemma ExecPending(s: Sys, cr3: nat)
    requires Shaped(s)
    ensures SamePending(s, Exec(s, cr3))
  {
    hide Switch;
    var c := Position(s.procs, s.current);
    if c < |s.procs| {
      SwitchPending(s.(procs := s.procs[c := s.procs[c].(cr3 := cr3, state := Ready)], stacks := s.stacks[c := true]), c);
    }
  }

  /** Signals 1 to 32 are never disguised, so over runs that use only those the timer never kills. */
  lemma {:induction false} QuietRun(s: Sys, es: seq<Event>)
    requires Inv(s) && Quiet(s) && AllEnabled(s, es)
    requires forall i | 0 <= i < |es| :: es[i].Killing? ==> es[i].signum <= 32
    ensures Quiet(Run(s, es))
    decreases |es|
  {
    if es != [] {
      StepKeeps(s, es[0]);
      QuietStep(s, es[0]);
      QuietRun(Step(s, es[0]), es[1..]);
    }
  }

  /** The caller of exit is a zombie with its exit code when the next process runs. */
  lemma ExitMarks(s: Sys, code: int)
    requires Shaped(s)
    ensures var c := Position(s.procs, s.current);
            c < SLOTS ==> Exit(s, code).procs[c] == s.procs[c].(state := Zombie, exitCode := code)
  {
    var c, s1 := Position(s.procs, s.current), MarkExit(s, s.current, code);
    if c < SLOTS {
      DeadKept(s1, c);
    }
  }

  /** Switching leaves a zombie as it is. */
  lemma DeadKept(s: Sys, i: nat)
    requires Shaped(s) && i < SLOTS && s.procs[i].state == Zombie
    ensures SwitchNext(s).procs[i] == s.procs[i] && Schedule(s).procs[i] == s.procs[i]
  {
  }

  /** Slot `i` holds a dead process of this pid, to be reported with this code. */
  predicate DiedWith(s: Sys, i: nat, pid: nat, code: int) {
    i < |s.procs| && pid != 0 && s.procs[i].pid == pid && s.procs[i].state == Zombie && s.procs[i].exitCode == code
  }

  /** The dead process does not call exit a second time. */
  predicate SilentStep(s: Sys, e: Event, pid: nat) { e.Exiting? ==> s.current != pid }

  predicate Silent(s: Sys, es: seq<Event>, pid: nat)
    requires Shaped(s)
    decreases |es|
  {
    es == [] || (SilentStep(s, es[0], pid) && Silent(Step(s, es[0]), es[1..], pid))
  }

  predicate SameButPending(p: Process, p': Process) { p' == p.(pending := p'.pending) }

  /** A step leaves a dead process as it is, or frees its slot. */
  lemma DeadStays(s: Sys, e: Event, i: nat)
    requires Inv(s) && Quiet(s) && Enabled(s, e) && i < SLOTS && s.procs[i].state == Zombie
    requires SilentStep(s, e, s.procs[i].pid)
    ensures Shaped(s) && (SameButPending(s.procs[i], Step(s, e).procs[i]) || Step(s, e).procs[i] == EMPTY)
  {
    SlotFacts(s, i);
    DeadKept(s, i);
    hide Inv, Quiet, Schedule, SwitchNext, Tick, Exit, Kill, Oom, Exec, Deliver, Wait, Alloc, Launch;
    match e
    case Reserving => DeadAlloc(s, i, 0, 0);
    case Spawning(cr3) => DeadAlloc(s, i, 0, cr3);
    case Forking(clone) => if clone.Some? { DeadAlloc(s, i, s.current, clone.value); }
    case Exiting(code) => DeadExit(s, i, code);
    case Killing(pid, signum) => DeadKill(s, i, pid, signum);
    case Waiting(pid) => DeadWait(s, i, pid);
    case Ticking => CodeTick(s, i);
    case Yielding =>
    case Executing(cr3) => ExecIs(s, cr3);
    case OutOfMemory => CodeOom(s, i);
    case Starting =>
  }

  lemma DeadAlloc(s: Sys, i: nat, parent: nat, cr3: nat)
    requires Shaped(s) && i < SLOTS && s.procs[i].pid != 0
    ensures Alloc(s, parent).procs[i] == s.procs[i] && Launch(s, parent, cr3).procs[i] == s.procs[i]
  {
  }

  lemma DeadExit(s: Sys, i: nat, code: int)
    requires Shaped(s) && i < SLOTS && s.procs[i].state == Zombie && s.current != s.procs[i].pid
    ensures Exit(s, code).procs[i] == s.procs[i]
  {
    hide SwitchNext, Position;
    DeadKept(MarkExit(s, s.current, code), i);
  }

  lemma DeadKill(s: Sys, i: nat, pid: nat, signum: nat)
    requires Shaped(s) && i < SLOTS && s.procs[i].state == Zombie
    ensures SameButPending(s.procs[i], Kill(s, pid, signum).procs[i])
  {
  }

  lemma DeadWait(s: Sys, i: nat, pid: Option<nat>)
    requires Shaped(s) && i < SLOTS && s.procs[i].state == Zombie
    ensures Wait(s, pid).0.procs[i] == s.procs[i] || Wait(s, pid).0.procs[i] == EMPTY
  {
    DeadKept(s, i);
    hide Schedule, ChildFrom;
  }

  /** A step keeps the exit code of a dead process, or frees its slot. */
  lemma CodeStep(s: Sys, e: Event, i: nat, pid: nat, code: int)
    requires Inv(s) && Quiet(s) && Enabled(s, e) && SilentStep(s, e, pid) && DiedWith(s, i, pid, code)
    ensures Shaped(s) && (DiedWith(Step(s, e), i, pid, code) || Gone(Step(s, e), pid))
  {
    hide Inv, Quiet, Enabled, SilentStep, Gone, Step, Moves;
    SlotFacts(s, i);
    StepKeeps(s, e);
    DeadStays(s, e, i);
    if Step(s, e).procs[i] == EMPTY {
      FreedGone(s, Step(s, e), i);
    }
  }

  lemma FreedGone(s: Sys, s': Sys, i: nat)
    requires Inv(s) && Moves(s, s') && i < SLOTS && s.procs[i].pid != 0 && s'.procs[i] == EMPTY
    ensures Gone(s', s.procs[i].pid)
  {
    var pid := s.procs[i].pid;
    assert SlotOk(s, s.procs[i], s.stacks[i]);
    forall j | 0 <= j < SLOTS
      ensures s'.procs[j].pid != pid
    {
      assert SlotMoves(s, s', s.procs[j], s'.procs[j]);
      OneSlot(s, i, j);
    }
  }

  lemma OneSlot(s: Sys, i: nat, j: nat)
    requires Inv(s) && i < SLOTS && j < SLOTS && s.procs[i].pid != 0
    ensures s.procs[j].pid == s.procs[i].pid ==> j == i
  {
  }

  lemma CodeTick(s: Sys, i: nat)
    requires Inv(s) && Quiet(s) && i < SLOTS && s.procs[i].state == Zombie
    ensures Shaped(s) && Tick(s).procs[i] == s.procs[i]
  {
    SlotFacts(s, 0);
    TickIs(s);
    var s1 := s.(slice := if s.slice > 0 then s.slice - 1 else 0);
    SliceKeeps(s, s1.slice);
    assert Quiet(s1);
    hide Inv, Moves, Schedule, Tick, Deliver;
    DeliverClearsNothing(s1);
    DeadKept(s1, i);
  }

  lemma CodeOom(s: Sys, i: nat)
    requires Shaped(s) && i < SLOTS && s.procs[i].state == Zombie
    ensures Oom(s).procs[i] == EMPTY
  {
  }

  /** The exit code of a dead process is kept until its slot is freed, over every run with signals 1 to 32. */
  lemma {:induction false} CodeKept(s: Sys, es: seq<Event>, i: nat, pid: nat, code: int)
    requires Inv(s) && Quiet(s) && AllEnabled(s, es) && Silent(s, es, pid) && DiedWith(s, i, pid, code)
    requires forall k | 0 <= k < |es| :: es[k].Killing? ==> es[k].signum <= 32
    ensures DiedWith(Run(s, es), i, pid, code) || Gone(Run(s, es), pid)
    decreases |es|
  {
    if es != [] {
      StepKeeps(s, es[0]);
      QuietStep(s, es[0]);
      CodeStep(s, es[0], i, pid, code);
      hide Inv, Quiet, Gone, DiedWith, Moves, SilentStep;
      if DiedWith(Step(s, es[0]), i, pid, code) {
        CodeKept(Step(s, es[0]), es[1..], i, pid, code);
      } else {
        DeadForever(Step(s, es[0]), es[1..], pid);
      }
    }
  }

  /** From exit to waitpid: whatever runs in between, if waitpid returns the pid, it returns the code given to exit. */
  lemma ExitCodeReturned(s: Sys, code: int, es: seq<Event>, child: Option<nat>)
    requires Inv(s) && Quiet(s) && Live(s.procs, s.current)
    requires var s1 := Step(s, Exiting(code)); AllEnabled(s1, es) && Silent(s1, es, s.current)
    requires forall k | 0 <= k < |es| :: es[k].Killing? ==> es[k].signum <= 32
    ensures Inv(Run(Step(s, Exiting(code)), es))
    ensures var w := Wait(Run(Step(s, Exiting(code)), es), child).1;
            w.Reaped? && w.pid == s.current ==> w.code == code
  {
    var s1, i := Step(s, Exiting(code)), Position(s.procs, s.current);
    StepKeeps(s, Exiting(code));
    QuietStep(s, Exiting(code));
    ExitMarks(s, code);
    assert DiedWith(s1, i, s.current, code);
    CodeKept(s1, es, i, s.current, code);
    RunKeeps(s1, es);
    hide Quiet, Run, Step, Moves;
    var r := Run(s1, es);
    if Wait(r, child).1.Reaped? && Wait(r, child).1.pid == s.current {
      WaitReaps(r, child);
      hide Wait;
      if DiedWith(r, i, s.current, code) {
        PositionUnique(r, i);
      }
    }
  }

  /** No two processes share an address space; cr3 0 stands for the kernel's own. */
  ghost predicate SpacesApart(s: Sys) {
    forall i, j | 0 <= i < j < |s.procs| ::
      s.procs[i].pid != 0 && s.procs[j].pid != 0 && s.procs[i].cr3 == s.procs[j].cr3 ==> s.procs[i].cr3 == 0
  }

  /** The handle is not in use. */
  ghost predicate Unused(s: Sys, cr3: nat) {
    cr3 != 0 ==> forall i | 0 <= i < |s.procs| :: s.procs[i].pid != 0 ==> s.procs[i].cr3 != cr3
  }

  /** A step that brings in an address space brings in one that no process has. */
  ghost predicate NewSpace(s: Sys, e: Event) {
    match e
    case Spawning(cr3) => Unused(s, cr3)
    case Forking(clone) => clone.Some? ==> Unused(s, clone.value)
    case Executing(cr3) => Unused(s, cr3)
    case _ => true
  }

  /** Every slot keeps its process and space, or is freed. */
  ghost predicate SpacesFall(s: Sys, s': Sys) {
    && |s'.procs| == |s.procs|
    && forall i | 0 <= i < |s.procs| ::
         s'.procs[i].pid == 0 || (s'.procs[i].pid == s.procs[i].pid && s'.procs[i].cr3 == s.procs[i].cr3)
  }

  /** So does every slot but `k`, which holds the space `cr3`. */
  ghost predicate SpaceAdded(s: Sys, s': Sys, k: nat, cr3: nat) {
    && |s'.procs| == |s.procs| && k < |s.procs| && s'.procs[k].cr3 == cr3
    && SpacesFall(s, s'.(procs := s'.procs[k := s.procs[k]]))
  }

  lemma FallKeeps(s: Sys, s': Sys)
    requires SpacesApart(s) && SpacesFall(s, s')
    ensures SpacesApart(s')
  {
  }

  lemma AddedKeeps(s: Sys, s': Sys, k: nat, cr3: nat)
    requires SpacesApart(s) && Unused(s, cr3) && SpaceAdded(s, s', k, cr3)
    ensures SpacesApart(s')
  {
    var procs := s'.procs[k := s.procs[k]];
    FallKeeps(s, s'.(procs := procs));
    forall i, j | 0 <= i < j < |procs| && s'.procs[i].pid != 0 && s'.procs[j].pid != 0 && s'.procs[i].cr3 == s'.procs[j].cr3
      ensures s'.procs[i].cr3 == 0
    {
      assert i != k ==> s'.procs[i] == procs[i];
      assert j != k ==> s'.procs[j] == procs[j];
    }
  }

  lemma SwitchSpaces(s: Sys)
    requires Shaped(s)
    ensures SpacesFall(s, Schedule(s)) && SpacesFall(s, SwitchNext(s))
  {
  }

  lemma FallTrans(s: Sys, s1: Sys, s2: Sys)
    requires SpacesFall(s, s1) && SpacesFall(s1, s2)
    ensures SpacesFall(s, s2)
  {
  }

  lemma TickSpaces(s: Sys)
    requires Shaped(s)
    ensures SpacesFall(s, Tick(s))
  {
    TickIs(s);
    var s1 := s.(slice := if s.slice > 0 then s.slice - 1 else 0);
    var s2 := Deliver(s1);
    assert SpacesFall(s, s) && SpacesFall(s, s1) && SpacesFall(s, s2);
    hide SpacesFall, Schedule, Deliver, Tick;
    SwitchSpaces(s1);
    SwitchSpaces(s2);
    FallTrans(s, s1, Schedule(s1));
    FallTrans(s, s2, Schedule(s2));
  }

  lemma ExitSpaces(s: Sys, code: int)
    requires Shaped(s)
    ensures SpacesFall(s, Exit(s, code))
  {
    var s1 := MarkExit(s, s.current, code);
    assert SpacesFall(s, s1);
    hide SpacesFall, SwitchNext;
    SwitchSpaces(s1);
    FallTrans(s, s1, SwitchNext(s1));
  }

  lemma WaitSpaces(s: Sys, pid: Option<nat>)
    requires Shaped(s)
    ensures SpacesFall(s, Wait(s, pid).0)
  {
    hide Schedule;
    SwitchSpaces(s);
  }

  lemma KillSpaces(s: Sys, pid: nat, signum: nat)
    ensures SpacesFall(s, Kill(s, pid, signum)) && SpacesFall(s, Oom(s))
  {
  }

  lemma LaunchSpaces(s: Sys, parent: nat, cr3: nat)
    requires Shaped(s)
    ensures var k := Position(s.procs, 0);
            if k < SLOTS then SpaceAdded(s, Launch(s, parent, cr3), k, cr3) && SpaceAdded(s, Alloc(s, parent), k, 0)
            else Launch(s, parent, cr3) == s == Alloc(s, parent)
  {
  }

  lemma ExecSpaces(s: Sys, cr3: nat)
    requires Inv(s) && CurrentRuns(s)
    ensures SpaceAdded(s, Exec(s, cr3), Position(s.procs, s.current), cr3)
  {
    ExecIs(s, cr3);
    hide Inv, Exec, Position;
  }

  /** A step that brings in no space used by another process keeps all spaces apart. */
  lemma SpacesStep(s: Sys, e: Event)
    requires Inv(s) && Enabled(s, e) && SpacesApart(s) && NewSpace(s, e)
    ensures Shaped(s) && SpacesApart(Step(s, e))
  {
    SlotFacts(s, 0);
    assert Unused(s, 0) && SpacesFall(s, s.(active := true));
    hide Inv, SpacesApart, SpacesFall, SpaceAdded, Unused, Schedule, Tick, Exit, Kill, Oom, Exec, Wait, Alloc, Launch;
    match e
    case Reserving => AllocSpaces(s, 0, 0);
    case Spawning(cr3) => AllocSpaces(s, 0, cr3);
    case Forking(clone) => if clone.Some? { AllocSpaces(s, s.current, clone.value); }
    case Exiting(code) => ExitSpaces(s, code); FallKeeps(s, Exit(s, code));
    case Killing(pid, signum) => KillSpaces(s, pid, signum); FallKeeps(s, Kill(s, pid, signum));
    case Waiting(pid) => WaitSpaces(s, pid); FallKeeps(s, Wait(s, pid).0);
    case Ticking => TickSpaces(s); FallKeeps(s, Tick(s));
    case Yielding => SwitchSpaces(s); if s.current != 0 { FallKeeps(s, Schedule(s)); }
    case Executing(cr3) => ExecSpaces(s, cr3); AddedKeeps(s, Exec(s, cr3), Position(s.procs, s.current), cr3);
    case OutOfMemory => KillSpaces(s, 0, 0); FallKeeps(s, Oom(s));
    case Starting => FallKeeps(s, s.(active := true));
  }

  lemma AllocSpaces(s: Sys, parent: nat, cr3: nat)
    requires Shaped(s) && SpacesApart(s) && Unused(s, cr3) && Unused(s, 0)
    ensures SpacesApart(Launch(s, parent, cr3)) && SpacesApart(Alloc(s, parent))
  {
    hide SpacesApart, SpaceAdded, Launch, Alloc;
    LaunchSpaces(s, parent, cr3);
    var k := Position(s.procs, 0);
    if k < SLOTS {
      AddedKeeps(s, Launch(s, parent, cr3), k, cr3);
      AddedKeeps(s, Alloc(s, parent), k, 0);
    }
  }

  ghost predicate NewSpaces(s: Sys, es: seq<Event>)
    requires Shaped(s)
    decreases |es|
  {
    es == [] || (NewSpace(s, es[0]) && NewSpaces(Step(s, es[0]), es[1..]))
  }

  /** While clone, spawn and exec bring in spaces that nobody has, no two processes ever share one. */
  lemma {:induction false} SpacesApartRun(s: Sys, es: seq<Event>)
    requires Inv(s) && SpacesApart(s) && AllEnabled(s, es) && NewSpaces(s, es)
    ensures SpacesApart(Run(s, es))
    decreases |es|
  {
    if es != [] {
      StepKeeps(s, es[0]);
      SpacesStep(s, es[0]);
      SpacesApartRun(Step(s, es[0]), es[1..]);
    }
  }
}
