/** Bounded waiting: a process that stays Ready gets the CPU. */
module KernelFairness {
  import opened Processes
  import opened KernelSafety
  import opened Wrappers

  /** Slots to go from `c` forward to `t`, around the table. */
  function Ahead(c: nat, t: nat): nat
    requires c < SLOTS && t < SLOTS
  {
    if t >= c then t - c else t + SLOTS - c
  }

  predicate CurrentLives(s: Sys) { s.current != 0 && Position(s.procs, s.current) < |s.procs| }

  /** Process `pid` waits in slot `t`, and the current process is in the table. */
  predicate WaitsIn(s: Sys, t: nat, pid: nat) {
    Shaped(s) && t < SLOTS && s.procs[t].pid == pid && s.procs[t].state == Ready && CurrentLives(s)
  }

  function Distance(s: Sys, t: nat): nat
    requires Shaped(s) && t < SLOTS && CurrentLives(s)
  {
    Ahead(Position(s.procs, s.current), t)
  }

  /** An upper bound on the ticks until slot `t` runs. */
  function TicksLeft(s: Sys, t: nat): nat
    requires Shaped(s) && t < SLOTS && CurrentLives(s)
  {
    SLICE * Distance(s, t) + (if s.slice == 0 then 1 else s.slice)
  }

  /** The scan stops at the first Ready slot, so no later than any given one. */
  lemma {:induction false} ScanStops(procs: seq<Process>, slot: nat, k: nat, d: nat) returns (m: nat)
    requires |procs| == SLOTS && 1 <= k <= d <= SLOTS
    requires procs[(slot + d) % SLOTS].pid != 0 && procs[(slot + d) % SLOTS].state == Ready
    ensures k <= m <= d && NextReady(procs, slot, k) == Some((slot + m) % SLOTS)
    decreases d - k
  {
    var i := (slot + k) % SLOTS;
    if procs[i].pid != 0 && procs[i].state == Ready {
      return k;
    }
    m := ScanStops(procs, slot, k + 1, d);
  }

  /** What a reschedule does while a process waits: a real switch, to it or to a slot before it. */
  lemma ScheduleCloser(s: Sys, t: nat, pid: nat)
    requires Inv(s) && WaitsIn(s, t, pid)
    ensures var s' := Schedule(s);
            && s' == SwitchNext(s) && s'.current != s.current && s'.slice == SLICE && CurrentLives(s')
            && Distance(s', t) < Distance(s, t)
  {
    var c := Position(s.procs, s.current);
    assert SlotOk(s, s.procs[c], s.stacks[c]) && SlotOk(s, s.procs[t], s.stacks[t]);
    hide Inv, Switch, NextReady, Ahead;
    var d := Ahead(c, t);
    AheadReaches(c, t);
    var m := ScanStops(s.procs, c, 1, d);
    var n := (c + m) % SLOTS;
    SlotFacts(s, n);
    SwitchKeeps(s, n);
    SwitchedTo(s, n);
    AheadFalls(c, t, m);
  }

  lemma AheadReaches(c: nat, t: nat)
    requires c < SLOTS && t < SLOTS
    ensures Ahead(c, t) < SLOTS && (c + Ahead(c, t)) % SLOTS == t && (c != t ==> Ahead(c, t) >= 1)
  {
  }

  lemma AheadFalls(c: nat, t: nat, m: nat)
    requires c < SLOTS && t < SLOTS && m <= Ahead(c, t)
    ensures Ahead((c + m) % SLOTS, t) == Ahead(c, t) - m
  {
  }

  lemma SwitchedTo(s: Sys, n: nat)
    requires Inv(s) && n < SLOTS && s.procs[n].state == Ready && s.stacks[n] && s.procs[n].pid != s.current
    ensures var s' := Switch(s, n);
            s'.current != s.current && s'.slice == SLICE && CurrentLives(s') && Position(s'.procs, s'.current) == n
  {
    assert SlotOk(s, s.procs[n], s.stacks[n]);
    var s' := Switch(s, n);
    SwitchKeeps(s, n);
    PositionUnique(s', n);
  }

  /** A process that stays current stays in its slot. */
  lemma SameSlot(s: Sys, s': Sys)
    requires Inv(s) && Inv(s') && Moves(s, s') && CurrentLives(s) && CurrentLives(s') && s'.current == s.current
    ensures Position(s'.procs, s'.current) == Position(s.procs, s.current)
  {
    var c, c' := Position(s.procs, s.current), Position(s'.procs, s'.current);
    assert SlotMoves(s, s', s.procs[c'], s'.procs[c']);
    assert SlotOk(s, s.procs[c], s.stacks[c]);
  }

  /** Marking the current process changes neither who waits nor how far away. */
  lemma MarkedWaits(s: Sys, code: int, t: nat, pid: nat)
    requires Inv(s) && WaitsIn(s, t, pid)
    ensures var s1 := MarkExit(s, s.current, code);
            Inv(s1) && WaitsIn(s1, t, pid) && Distance(s1, t) == Distance(s, t) && s1.current == s.current
  {
    var c := Position(s.procs, s.current);
    assert SlotOk(s, s.procs[t], s.stacks[t]);
    MarkExitKeeps(s, s.current, code);
    PositionUnique(MarkExit(s, s.current, code), c);
  }

  lemma DeliveredWaits(s: Sys, t: nat, pid: nat)
    requires Inv(s) && WaitsIn(s, t, pid)
    ensures var s1 := Deliver(s);
            Inv(s1) && WaitsIn(s1, t, pid) && Distance(s1, t) == Distance(s, t) && s1.current == s.current && s1.slice == s.slice
  {
    var c := Position(s.procs, s.current);
    assert SlotOk(s, s.procs[t], s.stacks[t]);
    DeliverKeeps(s);
    PositionUnique(Deliver(s), c);
  }

  /** One tick: the bound falls, and a switch brings the waiting process closer. */
  lemma TickCloser(s: Sys, t: nat, pid: nat)
    requires Inv(s) && WaitsIn(s, t, pid) && s.active
    ensures var s' := Tick(s);
            && CurrentLives(s') && TicksLeft(s', t) < TicksLeft(s, t)
            && (if s'.current == s.current then Distance(s', t) == Distance(s, t) else Distance(s', t) < Distance(s, t))
  {
    hide Inv, Schedule, Deliver, Tick, SwitchNext;
    SlotFacts(s, 0);
    TickIs(s);
    var s1 := s.(slice := if s.slice > 0 then s.slice - 1 else 0);
    SliceKeeps(s, s1.slice);
    if s1.slice == 0 {
      ScheduleCloser(s1, t, pid);
    } else {
      DeliveredWaits(s1, t, pid);
      ScheduleCloser(Deliver(s1), t, pid);
    }
  }

  /** One step of any kind, while a process waits before and after it. */
  lemma StepCloser(s: Sys, e: Event, t: nat, pid: nat)
    requires Inv(s) && Enabled(s, e) && WaitsIn(s, t, pid) && WaitsIn(Step(s, e), t, pid)
    ensures var s' := Step(s, e);
            && (if s'.current == s.current then Distance(s', t) == Distance(s, t) else Distance(s', t) < Distance(s, t))
            && (!e.Executing? ==> TicksLeft(s', t) <= TicksLeft(s, t) && (e.Ticking? && s.active ==> TicksLeft(s', t) < TicksLeft(s, t)))
            && (e.Executing? ==> TicksLeft(s', t) <= TicksLeft(s, t) + SLICE)
  {
    hide Inv, Moves, Schedule, SwitchNext, Tick, Deliver, Switch, MarkExit, Launch, Alloc, Exec, Kill, Oom;
    StepKeeps(s, e);
    SlotFacts(s, 0);
    var s' := Step(s, e);
    SlotFacts(s', 0);
    if s'.current == s.current {
      SameSlot(s, s');
    }
    match e
    case Reserving => Idle(s, e);
    case Spawning(cr3) => Idle(s, e);
    case Forking(clone) => Idle(s, e);
    case Exiting(code) => MarkedWaits(s, code, t, pid); ScheduleCloser(MarkExit(s, s.current, code), t, pid);
    case Killing(p, signum) => Idle(s, e);
    case Waiting(child) => ScheduleCloser(s, t, pid);
    case Ticking => if s.active { TickCloser(s, t, pid); } else { TickIs(s); }
    case Yielding => ScheduleCloser(s, t, pid);
    case Executing(cr3) => ExecSame(s, cr3);
    case OutOfMemory => Idle(s, e);
    case Starting =>
  }

  /** Events that never reach the scheduler. */
  lemma Idle(s: Sys, e: Event)
    requires Shaped(s) && (e.Reserving? || e.Spawning? || e.Forking? || e.Killing? || e.OutOfMemory?)
    ensures Step(s, e).current == s.current && Step(s, e).slice == s.slice
  {
  }

  lemma ExecSame(s: Sys, cr3: nat)
    requires Inv(s) && CurrentRuns(s)
    ensures Shaped(s) && Exec(s, cr3).current == s.current
  {
    ExecIs(s, cr3);
  }

  /** `pid` is Ready in slot `t`, and the current process in the table, all along the run. */
  predicate WaitsAlong(s: Sys, es: seq<Event>, t: nat, pid: nat)
    decreases |es|
  {
    WaitsIn(s, t, pid) && (es == [] || WaitsAlong(Step(s, es[0]), es[1..], t, pid))
  }

  /** How often the CPU changes hands. */
  function Switches(s: Sys, es: seq<Event>): nat
    requires Shaped(s)
    decreases |es|
  {
    if es == [] then 0
    else (if Step(s, es[0]).current != s.current then 1 else 0) + Switches(Step(s, es[0]), es[1..])
  }

  function Ticks(es: seq<Event>): nat {
    if es == [] then 0 else (if es[0].Ticking? then 1 else 0) + Ticks(es[1..])
  }

  /** Every switch brings a waiting process strictly closer, so it waits through at most 31 of them. */
  lemma {:induction false} SwitchBound(s: Sys, es: seq<Event>, t: nat, pid: nat)
    requires Inv(s) && AllEnabled(s, es) && WaitsAlong(s, es, t, pid)
    ensures Switches(s, es) <= Distance(s, t) < SLOTS
    decreases |es|
  {
    if es != [] {
      StepKeeps(s, es[0]);
      SwitchBound(Step(s, es[0]), es[1..], t, pid);
      StepCloser(s, es[0], t, pid);
    }
  }

  function Execs(es: seq<Event>): nat {
    if es == [] then 0 else (if es[0].Executing? then 1 else 0) + Execs(es[1..])
  }

  /** A process waits less than 32 default slices of ticks, and one more slice for every exec. */
  lemma {:induction false} TickBound(s: Sys, es: seq<Event>, t: nat, pid: nat)
    requires Inv(s) && AllEnabled(s, es) && WaitsAlong(s, es, t, pid) && s.active
    ensures Ticks(es) < TicksLeft(s, t) + SLICE * Execs(es) && TicksLeft(s, t) <= SLOTS * SLICE
    decreases |es|
  {
    SlotFacts(s, 0);
    if es != [] {
      StepKeeps(s, es[0]);
      ActiveStays(s, es[0]);
      TickBound(Step(s, es[0]), es[1..], t, pid);
      StepCloser(s, es[0], t, pid);
    }
  }

  lemma ScheduleActive(s: Sys)
    requires Shaped(s)
    ensures Schedule(s).active == s.active && SwitchNext(s).active == s.active
  {
    hide NextReady, Position;
  }

  lemma ExecActive(s: Sys, cr3: nat)
    requires Shaped(s)
    ensures Exec(s, cr3).active == s.active
  {
    hide Position;
  }

  lemma ActiveStays(s: Sys, e: Event)
    requires Shaped(s) && s.active
    ensures Step(s, e).active
  {
    hide Schedule, SwitchNext, Exec, Deliver, Position, ChildFrom, Reap, VictimFrom, HasZombie, Tick;
    match e
    case Exiting(code) => ScheduleActive(MarkExit(s, s.current, code));
    case Ticking =>
      TickIs(s);
      var s1 := s.(slice := if s.slice > 0 then s.slice - 1 else 0);
      ScheduleActive(s1);
      DeliverSame(s1);
      ScheduleActive(Deliver(s1));
    case Executing(cr3) => ExecActive(s, cr3);
    case _ => ScheduleActive(s);
  }

  /** The caller's record after an exec. */
  function WithSpace(s: Sys, cr3: nat): Sys
    requires CurrentRuns(s)
  {
    var c := Position(s.procs, s.current);
    s.(procs := s.procs[c := s.procs[c].(cr3 := cr3)])
  }

  /** Four ticks and an exec into a new address space. */
  function Round(cr3: nat): seq<Event> { [Ticking, Ticking, Ticking, Ticking, Executing(cr3)] }

  function Rounds(spaces: seq<nat>): seq<Event> {
    if spaces == [] then [] else Round(spaces[0]) + Rounds(spaces[1..])
  }

  /** A running process with a full slice and nothing pending. */
  ghost predicate Fresh(s: Sys) { Inv(s) && Quiet(s) && CurrentRuns(s) && s.active && s.slice == SLICE }

  /** Exec refills the caller's slice: a process that calls it every four ticks keeps the CPU, round after round, for as
      many rounds as it likes, while any other process waits. Nothing changes but the caller's address space. */
  lemma {:induction false} ExecStarves(s: Sys, spaces: seq<nat>, t: nat, pid: nat)
    requires Fresh(s)
    ensures AllEnabled(s, Rounds(spaces)) && Switches(s, Rounds(spaces)) == 0 && Ticks(Rounds(spaces)) == 4 * |spaces|
    ensures Run(s, Rounds(spaces)) == if spaces == [] then s else WithSpace(s, spaces[|spaces| - 1])
    ensures WaitsIn(s, t, pid) ==> WaitsAlong(s, Rounds(spaces), t, pid)
    decreases |spaces|
  {
    if spaces != [] {
      var cr3, rest := spaces[0], Rounds(spaces[1..]);
      var s' := WithSpace(s, cr3);
      RoundLeads(s, cr3, t, pid);
      ExecStarves(s', spaces[1..], t, pid);
      RoundThen(s, cr3, rest, t, pid);
      SpaceTwice(s, cr3, spaces[|spaces| - 1]);
    }
  }

  lemma SpaceTwice(s: Sys, a: nat, b: nat)
    requires Fresh(s)
    ensures CurrentRuns(WithSpace(s, a)) && WithSpace(WithSpace(s, a), b) == WithSpace(s, b)
  {
    var c := Position(s.procs, s.current);
    SamePosition(s.procs, WithSpace(s, a).procs, s.current);
    assert s.procs[c := s.procs[c].(cr3 := a)][c := s.procs[c].(cr3 := b)] == s.procs[c := s.procs[c].(cr3 := b)];
  }

  lemma SamePosition(procs: seq<Process>, procs': seq<Process>, pid: nat)
    requires |procs'| == |procs| && forall j | 0 <= j < |procs| :: procs'[j].pid == procs[j].pid
    ensures Position(procs', pid) == Position(procs, pid)
  {
  }

  /** Where a round leads: the same state but for the address space. */
  lemma RoundLeads(s: Sys, cr3: nat, t: nat, pid: nat)
    requires Fresh(s)
    ensures var s' := WithSpace(s, cr3);
            && Fresh(s') && (WaitsIn(s, t, pid) ==> WaitsIn(s', t, pid))
            && Tick(s) == s.(slice := 4) && Tick(s.(slice := 4)) == s.(slice := 3) && Tick(s.(slice := 3)) == s.(slice := 2)
            && Tick(s.(slice := 2)) == s.(slice := 1) && CurrentRuns(s.(slice := 1)) && Exec(s.(slice := 1), cr3) == s'
  {
    var s', t4 := WithSpace(s, cr3), s.(slice := 1);
    QuietTick(s);
    SliceKeeps(s, 4);
    QuietTick(s.(slice := 4));
    SliceKeeps(s, 3);
    QuietTick(s.(slice := 3));
    SliceKeeps(s, 2);
    QuietTick(s.(slice := 2));
    SliceKeeps(s, 1);
    ExecIs(t4, cr3);
    ExecKeeps(t4, cr3);
    hide Tick, Exec, Inv;
    SamePosition(s.procs, s'.procs, s.current);
  }

  /** One event in front of a run. */
  lemma ConsStep(s: Sys, e: Event, es: seq<Event>, t: nat, pid: nat)
    requires Shaped(s) && Enabled(s, e)
    ensures Run(s, [e] + es) == Run(Step(s, e), es) && (AllEnabled(s, [e] + es) <==> AllEnabled(Step(s, e), es))
    ensures Step(s, e).current == s.current ==> Switches(s, [e] + es) == Switches(Step(s, e), es)
    ensures WaitsAlong(s, [e] + es, t, pid) <==> WaitsIn(s, t, pid) && WaitsAlong(Step(s, e), es, t, pid)
    ensures Ticks([e] + es) == (if e.Ticking? then 1 else 0) + Ticks(es)
  {
    hide Enabled, WaitsIn;
    assert ([e] + es)[1..] == es;
  }

  lemma RoundThen(s: Sys, cr3: nat, rest: seq<Event>, t: nat, pid: nat)
    requires Fresh(s)
    ensures var s' := WithSpace(s, cr3);
            && Shaped(s) && Shaped(s') && Run(s, Round(cr3) + rest) == Run(s', rest)
            && (AllEnabled(s', rest) ==> AllEnabled(s, Round(cr3) + rest))
            && Switches(s, Round(cr3) + rest) == Switches(s', rest) && Ticks(Round(cr3) + rest) == 4 + Ticks(rest)
            && (WaitsIn(s, t, pid) && WaitsAlong(s', rest, t, pid) ==> WaitsAlong(s, Round(cr3) + rest, t, pid))
  {
    RoundLeads(s, cr3, t, pid);
    SlotFacts(s, 0);
    hide Fresh, Inv, Tick, Exec, Run, AllEnabled, Switches, WaitsAlong, Ticks, CurrentRuns;
    var e5 := [Executing(cr3)] + rest;
    var e4 := [Ticking] + e5;
    var e3 := [Ticking] + e4;
    var e2 := [Ticking] + e3;
    assert Round(cr3) + rest == [Ticking] + e2;
    ConsStep(s, Ticking, e2, t, pid);
    ConsStep(s.(slice := 4), Ticking, e3, t, pid);
    ConsStep(s.(slice := 3), Ticking, e4, t, pid);
    ConsStep(s.(slice := 2), Ticking, e5, t, pid);
    ConsStep(s.(slice := 1), Executing(cr3), rest, t, pid);
  }

  lemma QuietTick(s: Sys)
    requires Inv(s) && Quiet(s) && CurrentRuns(s) && s.active && s.slice > 1
    ensures Tick(s) == s.(slice := s.slice - 1)
  {
    var s1 := s.(slice := s.slice - 1);
    var c := Position(s.procs, s.current);
    var p := s.procs[c];
    assert p.pending - {SIGKILL - 1, SIGTERM - 1} == p.pending;
    assert Deliver(s1).procs == s.procs;
  }

  /** A tick within the time slice delivers a pending kill or terminate signal: the current process is dead with the
      code of the signal, and another one runs if any can. */
  lemma TickKills(s: Sys)
    requires Inv(s) && s.active && s.slice > 1 && Live(s.procs, s.current)
    ensures var c := Position(s.procs, s.current);
            && Shaped(s) && c < SLOTS
            && var p, p' := s.procs[c], Tick(s).procs[c];
            (8 in p.pending || 14 in p.pending ==>
               && p'.pid == s.current && p'.state == Zombie && p'.exitCode == (if 8 in p.pending then 137 else 143)
               && forall t | 0 <= t < SLOTS && s.procs[t].state == Ready :: Tick(s).current != s.current)
  {
    SlotFacts(s, 0);
    TickIs(s);
    var c, s1 := Position(s.procs, s.current), s.(slice := s.slice - 1);
    var s2 := Deliver(s1);
    SliceKeeps(s, s1.slice);
    DeliverKeeps(s1);
    if 8 in s.procs[c].pending || 14 in s.procs[c].pending {
      DeliverDead(s1, c);
      hide Inv, Moves, Tick, Schedule, Deliver;
      DeadKept(s2, c);
      assert AfterDelivery(s2) == Schedule(s2);
      forall t | 0 <= t < SLOTS && s.procs[t].state == Ready
        ensures Schedule(s2).current != s.current
      {
        SlotFacts(s, t);
        ScheduleCloser(s2, t, s.procs[t].pid);
      }
    }
  }

  lemma DeliverDead(s: Sys, c: nat)
    requires Inv(s) && c < SLOTS && c == Position(s.procs, s.current) && s.current != 0
    requires 8 in s.procs[c].pending || 14 in s.procs[c].pending
    ensures var s' := Deliver(s);
            && Shaped(s') && s'.current == s.current && Position(s'.procs, s.current) == c && s'.procs[c].pid == s.current
            && s'.procs[c].state == Zombie && s'.procs[c].exitCode == (if 8 in s.procs[c].pending then 137 else 143)
            && forall t | 0 <= t < SLOTS && t != c :: s'.procs[t] == s.procs[t]
  {
    var procs := Deliver(s).procs;
    assert forall j | 0 <= j < SLOTS :: procs[j].pid == s.procs[j].pid;
  }
}
