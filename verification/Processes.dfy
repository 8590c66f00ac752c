/** The process table and scheduler as one value, and what every kernel step does to it. */
module Processes {
  import opened Wrappers

  const SLOTS: nat := 32
  const SLICE: nat := 5
  const SIGKILL: nat := 9
  const SIGTERM: nat := 15

  datatype RunState = Free | Ready | Running | Blocked | Zombie

  /** `pending` is the set of bits of the pending-signal mask. */
  datatype Process = Process(pid: nat, parent: nat, state: RunState, cr3: nat, pending: set<nat>, exitCode: int)

  const EMPTY: Process := Process(0, 0, Free, 0, {}, 0)

  /** `stacks` says which kernel stacks hold a saved context. */
  datatype Sys = Sys(procs: seq<Process>, nextPid: nat, current: nat, stacks: seq<bool>, slice: nat, active: bool)

  /** Live pids are unique and were handed out; parents are older than children; only the current
      process runs; whatever may be scheduled has a context to resume. */
  ghost predicate Inv(s: Sys) {
    && Shaped(s) && s.current < s.nextPid && s.slice <= SLICE
    && (forall i | 0 <= i < SLOTS :: SlotOk(s, s.procs[i], s.stacks[i]))
    && Unique(s.procs)
  }

  predicate SlotOk(s: Sys, p: Process, stack: bool) {
    && (p.pid == 0 <==> p.state == Free)
    && p.pid < s.nextPid && (p.pid != 0 ==> p.parent < p.pid)
    && (p.state == Running ==> p.pid == s.current) && (p.state == Ready ==> p.pid != s.current)
    && (p.state == Ready || p.state == Running ==> stack)
  }

  ghost predicate Unique(procs: seq<Process>) {
    forall i, j | 0 <= i < j < |procs| :: procs[i].pid == procs[j].pid ==> procs[i].pid == 0
  }

  /** The first slot from `i` on with this pid, or the number of slots. */
  function PositionFrom(procs: seq<Process>, pid: nat, i: nat): (r: nat)
    requires i <= |procs|
    ensures i <= r <= |procs|
    ensures r < |procs| ==> procs[r].pid == pid
    ensures forall j | i <= j < r :: procs[j].pid != pid
    decreases |procs| - i
  {
    if i == |procs| || procs[i].pid == pid then i else PositionFrom(procs, pid, i + 1)
  }

  function Position(procs: seq<Process>, pid: nat): (r: nat)
    ensures r <= |procs|
    ensures r < |procs| ==> procs[r].pid == pid
    ensures forall j | 0 <= j < r :: procs[j].pid != pid
  {
    PositionFrom(procs, pid, 0)
  }

  predicate Live(procs: seq<Process>, pid: nat) {
    pid != 0 && exists i | 0 <= i < |procs| :: procs[i].pid == pid
  }

  /** `alloc`: the first free slot, a fresh pid, Blocked. */
  function Alloc(s: Sys, parent: nat): (s': Sys)
    ensures |s'.procs| == |s.procs| && |s'.stacks| == |s.stacks|
  {
    var i := Position(s.procs, 0);
    if i == |s.procs| then s
    else s.(procs := s.procs[i := Process(s.nextPid, parent, Blocked, 0, {}, 0)], nextPid := s.nextPid + 1)
  }

  /** A new process, made runnable with a kernel stack to start from. */
  function Launch(s: Sys, parent: nat, cr3: nat): (s': Sys)
    requires |s.stacks| == |s.procs|
    ensures |s'.procs| == |s.procs| && |s'.stacks| == |s.stacks|
  {
    var i := Position(s.procs, 0);
    if i == |s.procs| then s
    else s.(procs := s.procs[i := Process(s.nextPid, parent, Ready, cr3, {}, 0)], nextPid := s.nextPid + 1,
         stacks := s.stacks[i := true])
  }

  function Fork(s: Sys, clone: Option<nat>): (s': Sys)
    requires |s.stacks| == |s.procs|
    ensures |s'.procs| == |s.procs| && |s'.stacks| == |s.stacks|
  {
    var c := Position(s.procs, s.current);
    if s.current == 0 || c == |s.procs| || s.procs[c].cr3 == 0 || clone.None? then s
    else Launch(s, s.current, clone.value)
  }

  /** `mark_exit`. */
  function MarkExit(s: Sys, pid: nat, code: int): (s': Sys)
    ensures |s'.procs| == |s.procs| && |s'.stacks| == |s.stacks|
  {
    var i := Position(s.procs, pid);
    if i == |s.procs| then s else s.(procs := s.procs[i := s.procs[i].(state := Zombie, exitCode := code)])
  }

  /** The next Ready slot after `slot`, cyclically, `k` steps on or later. */
  function NextReady(procs: seq<Process>, slot: nat, k: nat): (r: Option<nat>)
    requires |procs| == SLOTS && 1 <= k
    ensures r.Some? ==> r.value < SLOTS && procs[r.value].pid != 0 && procs[r.value].state == Ready
    decreases SLOTS + 1 - k
  {
    if k > SLOTS then None
    else
      var i := (slot + k) % SLOTS;
      if procs[i].pid != 0 && procs[i].state == Ready then Some(i) else NextReady(procs, slot, k + 1)
  }

  /** Where the scan starts: the current process's slot, or slot 0 when it is gone. */
  function CurrentSlot(s: Sys): nat {
    var c := Position(s.procs, s.current);
    if c == |s.procs| then 0 else c
  }

  /** `do_context_switch` to the process in slot `n`. */
  function Switch(s: Sys, n: nat): (s': Sys)
    requires n < |s.procs| && |s.stacks| == |s.procs|
    ensures |s'.procs| == |s.procs| && |s'.stacks| == |s.stacks|
  {
    if !s.stacks[n] then
      if s.procs[n].state == Ready then s.(procs := s.procs[n := s.procs[n].(state := Blocked)]) else s
    else
      var c := Position(s.procs, s.current);
      var procs := if s.current != 0 && c < |s.procs| && s.procs[c].state == Running
                   then s.procs[c := s.procs[c].(state := Ready)] else s.procs;
      s.(procs := procs[n := procs[n].(state := Running)], current := s.procs[n].pid, slice := SLICE)
  }

  predicate Shaped(s: Sys) { |s.procs| == SLOTS && |s.stacks| == SLOTS }

  function Schedule(s: Sys): (s': Sys)
    requires Shaped(s)
    ensures |s'.procs| == |s.procs| && |s'.stacks| == |s.stacks|
  {
    var n := NextReady(s.procs, CurrentSlot(s), 1);
    if n.None? then s
    else if s.procs[n.value].pid == s.current then s.(slice := SLICE)
    else Switch(s, n.value)
  }

  /** `switch_to_next`, as used by exit. */
  function SwitchNext(s: Sys): (s': Sys)
    requires Shaped(s)
    ensures |s'.procs| == |s.procs| && |s'.stacks| == |s.stacks|
  {
    var n := NextReady(s.procs, CurrentSlot(s), 1);
    if n.None? || s.procs[n.value].pid == s.current then s else Switch(s, n.value)
  }

  function Exit(s: Sys, code: int): (s': Sys)
    requires Shaped(s)
    ensures |s'.procs| == |s.procs| && |s'.stacks| == |s.stacks|
  {
    SwitchNext(MarkExit(s, s.current, code))
  }

  /** `sys_kill` and `send_signal`. The shift of the pending bit wraps at 32. */
  function Kill(s: Sys, pid: nat, signum: nat): (s': Sys)
    ensures |s'.procs| == |s.procs| && |s'.stacks| == |s.stacks|
  {
    var i := Position(s.procs, pid);
    if pid == 0 || signum == 0 || i == |s.procs| || s.procs[i].state == Free then s
    else if signum == SIGKILL || signum == SIGTERM then
      if s.procs[i].state == Zombie then s
      else s.(procs := s.procs[i := s.procs[i].(pending := {}, state := Zombie, exitCode := 128 + signum)])
    else s.(procs := s.procs[i := s.procs[i].(pending := s.procs[i].pending + {(signum - 1) % 32})])
  }

  /** `deliver_pending_into`. */
  function Deliver(s: Sys): (s': Sys)
    ensures |s'.procs| == |s.procs| && |s'.stacks| == |s.stacks|
  {
    var i := Position(s.procs, s.current);
    if s.current == 0 || i == |s.procs| then s
    else
      var p := s.procs[i];
      var p' := if SIGKILL - 1 in p.pending then p.(pending := {}, state := Zombie, exitCode := 128 + SIGKILL)
                else if SIGTERM - 1 in p.pending then p.(pending := {}, state := Zombie, exitCode := 128 + SIGTERM)
                else p.(pending := p.pending - {SIGKILL - 1, SIGTERM - 1});
      s.(procs := s.procs[i := p'])
  }

  /** `on_timer_tick`. */
  function Tick(s: Sys): (s': Sys)
    requires Shaped(s)
    ensures |s'.procs| == |s.procs| && |s'.stacks| == |s.stacks|
  {
    if !s.active then s
    else
      var s1 := s.(slice := if s.slice > 0 then s.slice - 1 else 0);
      if s1.slice == 0 then Schedule(s1)
      else AfterDelivery(Deliver(s1))
  }

  /** A current process that is dead gives up the CPU at once. */
  function AfterDelivery(s: Sys): (s': Sys)
    requires Shaped(s)
    ensures Shaped(s')
  {
    var c := Position(s.procs, s.current);
    if s.current != 0 && c < |s.procs| && s.procs[c].state == Zombie then Schedule(s) else s
  }

  function Yield(s: Sys): (s': Sys)
    requires Shaped(s)
    ensures |s'.procs| == |s.procs| && |s'.stacks| == |s.stacks|
  {
    if s.current == 0 then s else Schedule(s)
  }

  predicate IsChild(p: Process, parent: nat, pid: Option<nat>) {
    p.pid != 0 && p.parent == parent && (pid.None? || p.pid == pid.value)
  }

  /** The first slot from `i` on that holds a child as asked for. */
  function ChildFrom(procs: seq<Process>, parent: nat, pid: Option<nat>, i: nat): (r: nat)
    requires i <= |procs|
    ensures i <= r <= |procs|
    ensures r < |procs| ==> IsChild(procs[r], parent, pid)
    ensures forall j | i <= j < r :: !IsChild(procs[j], parent, pid)
    decreases |procs| - i
  {
    if i == |procs| || IsChild(procs[i], parent, pid) then i else ChildFrom(procs, parent, pid, i + 1)
  }

  datatype Waited = Reaped(pid: nat, code: int) | Again | NoChild

  /** One round of `sys_waitpid`; no pid stands for -1. */
  function Wait(s: Sys, pid: Option<nat>): (r: (Sys, Waited))
    requires Shaped(s)
    ensures Shaped(r.0)
  {
    var i := ChildFrom(s.procs, s.current, pid, 0);
    if i == |s.procs| then (s, NoChild)
    else if s.procs[i].state == Zombie then (s.(procs := s.procs[i := EMPTY]), Reaped(s.procs[i].pid, s.procs[i].exitCode))
    else (Yield(s), Again)
  }

  /** The process record after `exec`, and the restart of the caller on its new stack. */
  function Exec(s: Sys, cr3: nat): (s': Sys)
    requires Shaped(s)
    ensures |s'.procs| == |s.procs| && |s'.stacks| == |s.stacks|
  {
    var c := Position(s.procs, s.current);
    if c == |s.procs| then s.(stacks := s.stacks[0 := true])
    else
      var s1 := s.(procs := s.procs[c := s.procs[c].(cr3 := cr3, state := Ready)], stacks := s.stacks[c := true]);
      if s.current == 0 then s1 else Switch(s1, c)
  }

  /** `reap_zombies`. */
  function Reap(procs: seq<Process>): (r: seq<Process>)
    ensures |r| == |procs|
    ensures forall i | 0 <= i < |procs| :: r[i] == if procs[i].state == Zombie then EMPTY else procs[i]
  {
    seq(|procs|, i requires 0 <= i < |procs| => if procs[i].state == Zombie then EMPTY else procs[i])
  }

  predicate HasZombie(procs: seq<Process>) { exists i | 0 <= i < |procs| :: procs[i].state == Zombie }

  predicate IsVictim(p: Process) { p.pid > 2 && p.state == Ready }

  function VictimFrom(procs: seq<Process>, i: nat): (r: nat)
    requires i <= |procs|
    ensures i <= r <= |procs|
    ensures r < |procs| ==> IsVictim(procs[r])
    ensures forall j | i <= j < r :: !IsVictim(procs[j])
    decreases |procs| - i
  {
    if i == |procs| || IsVictim(procs[i]) then i else VictimFrom(procs, i + 1)
  }

  /** `handle_oom`: reap the dead, else kill the first Ready process that is not a system process. */
  function Oom(s: Sys): (s': Sys)
    ensures |s'.procs| == |s.procs| && |s'.stacks| == |s.stacks|
  {
    var i := VictimFrom(s.procs, 0);
    if HasZombie(s.procs) then s.(procs := Reap(s.procs))
    else if i < |s.procs| then s.(procs := Reap(s.procs[i := s.procs[i].(state := Zombie, exitCode := -9)]))
    else s
  }

  datatype Event =
    | Reserving                            // boot_service: a slot without a program
    | Spawning(cr3: nat)
    | Forking(clone: Option<nat>)          // None: the address space could not be cloned
    | Exiting(code: int)
    | Killing(pid: nat, signum: nat)
    | Waiting(child: Option<nat>)
    | Ticking
    | Yielding
    | Executing(newCr3: nat)
    | OutOfMemory
    | Starting

  function Step(s: Sys, e: Event): (s': Sys)
    requires Shaped(s)
    ensures Shaped(s')
  {
    match e
    case Reserving => Alloc(s, 0)
    case Spawning(cr3) => Launch(s, 0, cr3)
    case Forking(clone) => Fork(s, clone)
    case Exiting(code) => Exit(s, code)
    case Killing(pid, signum) => Kill(s, pid, signum)
    case Waiting(pid) => Wait(s, pid).0
    case Ticking => Tick(s)
    case Yielding => Yield(s)
    case Executing(cr3) => Exec(s, cr3)
    case OutOfMemory => Oom(s)
    case Starting => s.(active := true)
  }

  /** Exit needs a process to exit; exec is called by the running process. */
  predicate Enabled(s: Sys, e: Event) {
    match e
    case Exiting(_) => s.current != 0
    case Executing(_) => CurrentRuns(s)
    case _ => true
  }

  predicate CurrentRuns(s: Sys) {
    var c := Position(s.procs, s.current);
    s.current != 0 && c < |s.procs| && s.procs[c].state == Running
  }
}
