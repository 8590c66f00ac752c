/** The kernel's process table and scheduler, updated in place. */
module Kernel {
  import opened KernelSafety
  import opened Processes
  import opened Wrappers

  /** With unique pids, looking a pid up leads back to its slot. */
  lemma PositionIs(procs: seq<Process>, n: nat)
    requires Unique(procs) && n < |procs| && procs[n].pid != 0
    ensures Position(procs, procs[n].pid) == n
  {
  }

  lemma UniqueOf(s: Sys)
    requires Inv(s)
    ensures Unique(s.procs)
  {
  }

  lemma ExitFacts(s: Sys, code: int)
    requires Inv(s)
    ensures Shaped(s) && Unique(MarkExit(s, s.current, code).procs) && (s.current != 0 ==> Inv(Exit(s, code)))
    ensures var c := Position(s.procs, s.current);
            c < SLOTS ==> Exit(s, code).procs[c] == s.procs[c].(state := Zombie, exitCode := code)
  {
    assert forall j | 0 <= j < SLOTS :: MarkExit(s, s.current, code).procs[j].pid == s.procs[j].pid;
    ExitMarks(s, code);
    hide Exit;
    if s.current != 0 {
      ExitKeeps(s, code);
    }
  }

  lemma DeliverUnique(s: Sys)
    requires Unique(s.procs)
    ensures Unique(Deliver(s).procs)
  {
    var i, procs := Position(s.procs, s.current), Deliver(s).procs;
    assert forall j | 0 <= j < |s.procs| :: procs[j].pid == s.procs[j].pid;
  }

  /** From `s` to `s'` only slot `i` changed: it was free and now holds a runnable child of the current process,
      with a kernel stack prepared, in the address space `cr3`. */
  ghost predicate ChildAt(s: Sys, s': Sys, i: nat, pid: int, cr3: nat) {
    && Shaped(s) && Shaped(s') && i < SLOTS && pid == s.nextPid && s'.nextPid == s.nextPid + 1
    && s.current != 0 && s'.current == s.current && s'.slice == s.slice && s'.active == s.active
    && s.procs[i].pid == 0 && s'.stacks[i]
    && var p := s'.procs[i];
    && p.pid == pid && p.parent == s.current && p.cr3 == cr3 && p.state == Ready && p.pending == {}
    && forall j | 0 <= j < SLOTS && j != i :: s'.procs[j] == s.procs[j] && s'.stacks[j] == s.stacks[j]
  }

  class ProcessTable {
    const procs: array<Process>
    const stacks: array<bool>
    var nextPid: nat
    var current: nat
    var slice: nat
    var active: bool

    ghost function State(): Sys
      reads this, procs, stacks
    {
      Sys(procs[..], nextPid, current, stacks[..], slice, active)
    }

    ghost predicate Valid()
      reads this, procs, stacks
    {
      procs.Length == SLOTS && stacks.Length == SLOTS && Inv(State())
    }

    constructor ()
      ensures Valid() && fresh(procs) && fresh(stacks)
      ensures State() == Sys(seq(SLOTS, _ => EMPTY), 1, 0, seq(SLOTS, _ => false), SLICE, false)
    {
      procs := new Process[SLOTS](_ => EMPTY);
      stacks := new bool[SLOTS](_ => false);
      nextPid, current, slice, active := 1, 0, SLICE, false;
      new;
      assert procs[..] == seq(SLOTS, _ => EMPTY);
      assert stacks[..] == seq(SLOTS, _ => false);
    }

    /** `get`, `get_mut` and `find_slot`: the slot of a pid. */
    method Find(pid: nat) returns (i: nat)
      ensures i == Position(procs[..], pid)
    {
      i := 0;
      while i < procs.Length
        invariant 0 <= i <= procs.Length
        invariant PositionFrom(procs[..], pid, i) == Position(procs[..], pid)
      {
        if procs[i].pid == pid {
          return;
        }
        i := i + 1;
      }
    }

    method AllocSlot(parent: nat) returns (i: nat)
      requires procs.Length == SLOTS
      modifies this`nextPid, procs
      ensures i == Position(old(procs[..]), 0)
      ensures State() == Alloc(old(State()), parent)
      ensures i < SLOTS ==> procs[i] == Process(old(nextPid), parent, Blocked, 0, {}, 0) && old(procs[i]).pid == 0
      ensures forall j | 0 <= j < SLOTS && j != i :: procs[j] == old(procs[j])
    {
      i := Find(0);
      if i < procs.Length {
        procs[i] := Process(nextPid, parent, Blocked, 0, {}, 0);
        nextPid := nextPid + 1;
      }
    }

    method Spawn(parent: nat, cr3: nat) returns (pid: nat)
      requires procs.Length == SLOTS && stacks.Length == SLOTS
      modifies this`nextPid, procs, stacks
      ensures State() == Launch(old(State()), parent, cr3)
      ensures pid == if Position(old(procs[..]), 0) < SLOTS then old(nextPid) else 0
      ensures old(Valid()) && parent < old(nextPid) ==> Valid()
      ensures var i := Position(old(procs[..]), 0);
              && (i < SLOTS ==> procs[i] == Process(old(nextPid), parent, Ready, cr3, {}, 0) && stacks[i])
              && forall j | 0 <= j < SLOTS && j != i :: procs[j] == old(procs[j]) && stacks[j] == old(stacks[j])
    {
      if Inv(State()) && parent < nextPid {
        LaunchKeeps(State(), parent, cr3);
      }
      pid := nextPid;
      var i := AllocSlot(parent);
      if i == procs.Length {
        return 0;
      }
      procs[i] := procs[i].(cr3 := cr3, state := Ready);
      stacks[i] := true;
    }

    /** `fork`: -38 without a process to fork, -12 without memory or a slot, else the child's pid. */
    method ForkCurrent(clone: Option<nat>) returns (r: int)
      requires Valid()
      modifies this`nextPid, procs, stacks
      ensures Valid() && State() == Fork(old(State()), clone)
      ensures var c, free := Position(old(procs[..]), old(current)), Position(old(procs[..]), 0);
              r == if old(current) == 0 || c == SLOTS || old(procs[..])[c].cr3 == 0 then -38
              else if clone.None? || free == SLOTS then -12 else old(nextPid)
      ensures r <= 0 ==> State() == old(State())
      ensures r > 0 ==> clone.Some? && exists i | 0 <= i < SLOTS :: ChildAt(old(State()), State(), i, r, clone.value)
    {
      SlotFacts(State(), 0);
      ghost var i := Position(procs[..], 0);
      if current == 0 {
        return -38;
      }
      var c := Find(current);
      if c == procs.Length || procs[c].cr3 == 0 {
        return -38;
      }
      if clone.None? {
        return -12;
      }
      var pid := Spawn(current, clone.value);
      assert i < SLOTS ==> ChildAt(old(State()), State(), i, pid, clone.value);
      return if pid == 0 then -12 else pid;
    }

    method ExitProcess(pid: nat, code: int)
      requires procs.Length == SLOTS
      modifies procs
      ensures State() == MarkExit(old(State()), pid, code)
    {
      var i := Find(pid);
      if i < procs.Length {
        procs[i] := procs[i].(state := Zombie, exitCode := code);
      }
    }

    /** `find_next_ready`: the pid found forward from the current slot, around the table once. */
    method FindNextReady() returns (r: Option<nat>)
      requires procs.Length == SLOTS
      ensures var n := NextReady(procs[..], CurrentSlot(State()), 1);
              r == if n.Some? then Some(procs[n.value].pid) else None
    {
      var c := Find(current);
      var n := ScanFrom(if c == procs.Length then 0 else c);
      return if n.Some? then Some(procs[n.value].pid) else None;
    }

    method ScanFrom(slot: nat) returns (r: Option<nat>)
      requires procs.Length == SLOTS
      ensures r == NextReady(procs[..], slot, 1)
    {
      var k := 1;
      while k <= SLOTS
        invariant 1 <= k <= SLOTS + 1
        invariant NextReady(procs[..], slot, k) == NextReady(procs[..], slot, 1)
      {
        var i := (slot + k) % SLOTS;
        if procs[i].pid != 0 && procs[i].state == Ready {
          return Some(i);
        }
        k := k + 1;
      }
      return None;
    }

    /** `do_context_switch`. */
    method ContextSwitch(newPid: nat)
      requires procs.Length == SLOTS && stacks.Length == SLOTS
      modifies this`current, this`slice, procs
      ensures var n := Position(old(procs[..]), newPid);
              State() == if n < SLOTS then Switch(old(State()), n) else old(State())
      ensures var n, c := Position(old(procs[..]), newPid), Position(old(procs[..]), old(current));
              if n < SLOTS && stacks[n] then
                && current == newPid && slice == SLICE && procs[n] == old(procs[..])[n].(state := Running)
                && (c < SLOTS && c != n && old(current) != 0 && old(procs[..])[c].state == Running ==>
                      procs[c] == old(procs[..])[c].(state := Ready))
                && forall j | 0 <= j < SLOTS && j != n :: procs[j] != old(procs[j]) ==>
                                                            j == c && old(current) != 0 && old(procs[j]).state == Running
              else
                && current == old(current) && slice == old(slice)
                && (n < SLOTS && old(procs[..])[n].state == Ready ==> procs[n] == old(procs[..])[n].(state := Blocked))
                && forall j | 0 <= j < SLOTS :: procs[j] != old(procs[j]) ==> j == n && old(procs[j]).state == Ready
    {
      var n := Find(newPid);
      if n == procs.Length {
        return;
      }
      var c := Find(current);
      if !stacks[n] {
        if procs[n].state == Ready {
          procs[n] := procs[n].(state := Blocked);
        }
        return;
      }
      if current != 0 && c < procs.Length && procs[c].state == Running {
        procs[c] := procs[c].(state := Ready);
      }
      procs[n] := procs[n].(state := Running);
      current := newPid;
      slice := SLICE;
    }

    method ScheduleNext()
      requires procs.Length == SLOTS && stacks.Length == SLOTS && Unique(procs[..])
      modifies this`current, this`slice, procs
      ensures State() == Schedule(old(State()))
    {
      var n := FindNextReady();
      if n.None? {
        return;
      }
      if n.value == current {
        slice := SLICE;
        return;
      }
      PositionIs(procs[..], NextReady(procs[..], CurrentSlot(State()), 1).value);
      ContextSwitch(n.value);
    }

    method ExitCurrent(code: int)
      requires Valid()
      modifies this`current, this`slice, procs
      ensures State() == Exit(old(State()), code)
      ensures old(current) != 0 ==> Valid()
      ensures var c := Position(old(procs[..]), old(current));
              c < SLOTS ==> procs[c] == old(procs[..])[c].(state := Zombie, exitCode := code)
    {
      ExitFacts(State(), code);
      hide Inv, Unique, Switch, NextReady, MarkExit;
      ExitProcess(current, code);
      var n := FindNextReady();
      if n.Some? && n.value != current {
        PositionIs(procs[..], NextReady(procs[..], CurrentSlot(State()), 1).value);
        ContextSwitch(n.value);
      }
    }

    method SendSignal(pid: nat, signum: nat) returns (ok: bool)
      requires Valid()
      modifies procs
      ensures Valid() && State() == Kill(old(State()), pid, signum)
      ensures var i := Position(old(procs[..]), pid);
              ok <==> pid != 0 && i < SLOTS && (signum != 0 ==> old(procs[..])[i].state != Free)
                      && (signum in {SIGKILL, SIGTERM} ==> old(procs[..])[i].state != Zombie)
      ensures var i := Position(old(procs[..]), pid);
              && (forall j | 0 <= j < SLOTS && (!ok || signum == 0 || j != i) :: procs[j] == old(procs[j]))
              && (ok && signum in {9, 15} ==>
                    procs[i] == old(procs[..])[i].(state := Zombie, exitCode := 128 + signum, pending := {}))
              && (ok && signum !in {0, 9, 15} ==>
                    procs[i] == old(procs[..])[i].(pending := old(procs[..])[i].pending + {(signum - 1) % 32}))
    {
      KillKeeps(State(), pid, signum);
      hide Inv, Moves;
      var i := Find(pid);
      if pid == 0 {
        return false;
      }
      if signum == 0 {
        return i < procs.Length;
      }
      if i == procs.Length || procs[i].state == Free {
        return false;
      }
      if signum == SIGKILL || signum == SIGTERM {
        if procs[i].state == Zombie {
          return false;
        }
        procs[i] := procs[i].(pending := {}, state := Zombie, exitCode := 128 + signum);
        return true;
      }
      procs[i] := procs[i].(pending := procs[i].pending + {(signum - 1) % 32});
      return true;
    }

    method DeliverPending()
      requires procs.Length == SLOTS
      modifies procs
      ensures State() == Deliver(old(State()))
      ensures forall j | 0 <= j < SLOTS && procs[j] != old(procs[j]) :: old(current) != 0 && procs[j].pid == old(current)
      ensures var i := Position(old(procs[..]), current);
              current != 0 && i < SLOTS ==>
                var p := old(procs[..])[i];
                && (8 in p.pending ==> procs[i] == p.(pending := {}, state := Zombie, exitCode := 137))
                && (8 !in p.pending && 14 in p.pending ==> procs[i] == p.(pending := {}, state := Zombie, exitCode := 143))
                && (8 !in p.pending && 14 !in p.pending ==> procs[i] == p)
    {
      var i := Find(current);
      if current == 0 || i == procs.Length {
        return;
      }
      if SIGKILL - 1 in procs[i].pending {
        procs[i] := procs[i].(pending := {}, state := Zombie, exitCode := 128 + SIGKILL);
        return;
      }
      if SIGTERM - 1 in procs[i].pending {
        procs[i] := procs[i].(pending := {}, state := Zombie, exitCode := 128 + SIGTERM);
        return;
      }
      assert procs[i].pending == procs[i].pending - {SIGKILL - 1, SIGTERM - 1};
      procs[i] := procs[i].(pending := procs[i].pending - {SIGKILL - 1, SIGTERM - 1});
    }

    method TimerTick()
      requires Valid()
      modifies this`current, this`slice, procs
      ensures Valid() && State() == Tick(old(State()))
    {
      TickKeeps(State());
      UniqueOf(State());
      TickIs(State());
      hide Inv, Tick, Schedule, Deliver, AfterDelivery, Unique, Moves;
      if !active {
        return;
      }
      var expired := UseTick();
      if expired {
        ScheduleNext();
        return;
      }
      DeliverUnique(State());
      DeliverPending();
      ReplaceDead();
    }

    method UseTick() returns (expired: bool)
      modifies this`slice
      ensures State() == old(State()).(slice := if old(slice) > 0 then old(slice) - 1 else 0)
      ensures expired <==> slice == 0
    {
      if slice > 0 {
        slice := slice - 1;
      }
      return slice == 0;
    }

    /** The zombie check at the end of a tick. */
    method ReplaceDead()
      requires procs.Length == SLOTS && stacks.Length == SLOTS && Unique(procs[..])
      modifies this`current, this`slice, procs
      ensures State() == AfterDelivery(old(State()))
    {
      hide Schedule, Unique;
      var c := Find(current);
      if current != 0 && c < procs.Length && procs[c].state == Zombie {
        ScheduleNext();
      }
    }

    method YieldNow()
      requires Valid()
      modifies this`current, this`slice, procs
      ensures Valid() && State() == Yield(old(State()))
    {
      ScheduleKeeps(State());
      if current != 0 {
        ScheduleNext();
      }
    }

    /** One round of the loop in `waitpid`. */
    method WaitOnce(pid: Option<nat>) returns (r: Waited)
      requires Valid()
      modifies this`current, this`slice, procs
      ensures Valid() && (State(), r) == Wait(old(State()), pid)
    {
      WaitKeeps(State(), pid);
      hide Inv, Moves, Schedule;
      var i := 0;
      while i < procs.Length && !IsChild(procs[i], current, pid)
        invariant 0 <= i <= procs.Length
        invariant ChildFrom(procs[..], current, pid, i) == ChildFrom(procs[..], current, pid, 0)
      {
        i := i + 1;
      }
      if i == procs.Length {
        return NoChild;
      }
      if procs[i].state == Zombie {
        r := Reaped(procs[i].pid, procs[i].exitCode);
        procs[i] := EMPTY;
        return;
      }
      YieldNow();
      return Again;
    }

    method ExecCurrent(cr3: nat)
      requires Valid()
      modifies this`current, this`slice, procs, stacks
      ensures State() == Exec(old(State()), cr3)
      ensures CurrentRuns(old(State())) ==> Valid()
    {
      if CurrentRuns(State()) {
        ExecKeeps(State(), cr3);
      }
      var c := Find(current);
      if c == procs.Length {
        stacks[0] := true;
        return;
      }
      procs[c] := procs[c].(cr3 := cr3, state := Ready);
      stacks[c] := true;
      if current != 0 {
        ContextSwitch(current);
      }
    }

    method ReapZombies()
      requires procs.Length == SLOTS
      modifies procs
      ensures procs[..] == Reap(old(procs[..]))
    {
      var i := 0;
      while i < procs.Length
        invariant 0 <= i <= procs.Length
        invariant forall j | 0 <= j < i :: procs[j] == Reap(old(procs[..]))[j]
        invariant forall j | i <= j < procs.Length :: procs[j] == old(procs[j])
      {
        if procs[i].state == Zombie {
          procs[i] := EMPTY;
        }
        i := i + 1;
      }
      assert procs[..] == Reap(old(procs[..]));
    }

    method HandleOom() returns (reclaimed: bool)
      requires Valid()
      modifies procs
      ensures Valid() && State() == Oom(old(State()))
      ensures reclaimed <==> HasZombie(old(procs[..])) || exists i | 0 <= i < SLOTS :: IsVictim(old(procs[..])[i])
    {
      OomKeeps(State());
      hide Inv, Moves;
      var zombies, i := 0, 0;
      while i < procs.Length
        invariant 0 <= i <= procs.Length
        invariant zombies > 0 <==> exists j | 0 <= j < i :: procs[..][j].state == Zombie
      {
        if procs[i].state == Zombie {
          zombies := zombies + 1;
        }
        i := i + 1;
      }
      if zombies > 0 {
        ReapZombies();
        return true;
      }
      i := 0;
      while i < procs.Length
        invariant 0 <= i <= procs.Length && procs[..] == old(procs[..])
        invariant VictimFrom(procs[..], i) == VictimFrom(procs[..], 0)
      {
        if procs[i].pid > 2 && procs[i].state == Ready {
          procs[i] := procs[i].(state := Zombie, exitCode := -9);
          ReapZombies();
          return true;
        }
        i := i + 1;
      }
      return false;
    }
  }
}
