/** Kernel stacks as push/pop programs: context switch, system-call trampoline, and the child's first return. */
module ForkResume {
  import opened Wrappers

  datatype Reg = RAX | RBX | RCX | RDX | RSI | RDI | RBP | R8 | R9 | R10 | R11 | R12 | R13 | R14 | R15

  /** What `int 0x80` pushes and `iretq` pops. */
  datatype Frame = Frame(rip: nat, cs: nat, rflags: nat, rsp: nat, ss: nat)

  /** A CPU on a kernel stack; `sp` counts 8-byte words from the bottom of the stack. */
  datatype Cpu = Cpu(regs: map<Reg, nat>, mem: seq<nat>, sp: nat)

  predicate Full(regs: map<Reg, nat>) { forall r: Reg :: r in regs }

  function Push(c: Cpu, r: Reg): Option<Cpu> {
    if c.sp == 0 || c.sp > |c.mem| || r !in c.regs then None
    else Some(c.(mem := c.mem[c.sp - 1 := c.regs[r]], sp := c.sp - 1))
  }

  function Pop(c: Cpu, r: Reg): Option<Cpu> {
    if c.sp >= |c.mem| then None else Some(c.(regs := c.regs[r := c.mem[c.sp]], sp := c.sp + 1))
  }

  function Pushes(c: Cpu, rs: seq<Reg>): Option<Cpu>
    decreases |rs|
  {
    if rs == [] then Some(c) else
    var c' := Push(c, rs[0]);
    if c'.None? then None else Pushes(c'.value, rs[1..])
  }

  function Pops(c: Cpu, rs: seq<Reg>): Option<Cpu>
    decreases |rs|
  {
    if rs == [] then Some(c) else
    var c' := Pop(c, rs[0]);
    if c'.None? then None else Pops(c'.value, rs[1..])
  }

  /** `ret`: the address it jumps to. */
  function Ret(c: Cpu): Option<(nat, Cpu)> {
    if c.sp >= |c.mem| then None else Some((c.mem[c.sp], c.(sp := c.sp + 1)))
  }

  /** `iretq`: the user-mode state it enters. */
  function Iretq(c: Cpu): Option<(Frame, Cpu)> {
    if c.sp + 5 > |c.mem| then None
    else Some((Frame(c.mem[c.sp], c.mem[c.sp + 1], c.mem[c.sp + 2], c.mem[c.sp + 3], c.mem[c.sp + 4]), c.(sp := c.sp + 5)))
  }

  /** The CPU's own pushes on `int 0x80`, onto an empty kernel stack. */
  function Interrupt(f: Frame, regs: map<Reg, nat>, mem: seq<nat>): Cpu
    requires |mem| >= 5
  {
    var top := |mem|;
    Cpu(regs, mem[top - 1 := f.ss][top - 2 := f.rsp][top - 3 := f.rflags][top - 4 := f.cs][top - 5 := f.rip], top - 5)
  }

  function SwitchSaves(): seq<Reg> { [RBP, RBX, R12, R13, R14, R15] }

  function SwitchRestores(): seq<Reg> { [R15, R14, R13, R12, RBX, RBP] }

  function TrampolineSaves(): seq<Reg> {
    [RAX, RBX, RCX, RDX, RSI, RDI, RBP, R8, R9, R10, R11, R12, R13, R14, R15]
  }

  function TrampolineRestores(): seq<Reg> {
    [R15, R14, R13, R12, R11, R10, R9, R8, RBP, RDI, RSI, RDX, RCX, RBX, RAX]
  }

  ghost predicate Once(rs: seq<Reg>) { forall i, j | 0 <= i < j < |rs| :: rs[i] != rs[j] }

  /** Popping a list of distinct registers reads one stack word after the other. */
  lemma {:induction false} PopsRead(c: Cpu, rs: seq<Reg>)
    requires Once(rs) && c.sp + |rs| <= |c.mem|
    ensures var r := Pops(c, rs);
            && r.Some? && r.value.mem == c.mem && r.value.sp == c.sp + |rs|
            && (forall i | 0 <= i < |rs| :: rs[i] in r.value.regs && r.value.regs[rs[i]] == c.mem[c.sp + i])
            && (forall x | x in c.regs && x !in rs :: x in r.value.regs && r.value.regs[x] == c.regs[x])
    decreases |rs|
  {
    if rs != [] {
      var c' := Pop(c, rs[0]).value;
      PopsRead(c', rs[1..]);
      assert rs[0] !in rs[1..];
      var r := Pops(c, rs);
      forall i | 0 <= i < |rs|
        ensures rs[i] in r.value.regs && r.value.regs[rs[i]] == c.mem[c.sp + i]
      {
        if i > 0 {
          assert rs[1..][i - 1] == rs[i];
        }
      }
    }
  }

  /** Pushing writes the registers downward and leaves the rest of the stack alone. */
  lemma {:induction false} PushesWrite(c: Cpu, rs: seq<Reg>)
    requires |rs| <= c.sp <= |c.mem| && forall i | 0 <= i < |rs| :: rs[i] in c.regs
    ensures var r := Pushes(c, rs);
            && r.Some? && r.value.regs == c.regs && r.value.sp == c.sp - |rs| && |r.value.mem| == |c.mem|
            && (forall i | 0 <= i < |rs| :: r.value.mem[c.sp - 1 - i] == c.regs[rs[i]])
            && (forall a | 0 <= a < |c.mem| && !(c.sp - |rs| <= a < c.sp) :: r.value.mem[a] == c.mem[a])
    decreases |rs|
  {
    if rs != [] {
      var c' := Push(c, rs[0]).value;
      PushesWrite(c', rs[1..]);
      var r := Pushes(c, rs);
      forall i | 0 <= i < |rs|
        ensures r.value.mem[c.sp - 1 - i] == c.regs[rs[i]]
      {
        if i > 0 {
          assert rs[1..][i - 1] == rs[i];
        }
      }
    }
  }

  ghost predicate Reversed(rs: seq<Reg>, rs': seq<Reg>) {
    |rs'| == |rs| && forall i | 0 <= i < |rs| :: rs'[i] == rs[|rs| - 1 - i]
  }

  /** What is saved in one order and restored in the opposite one comes back, whatever ran in between. */
  lemma SaveRestore(c: Cpu, rs: seq<Reg>, rs': seq<Reg>, d: Cpu)
    requires Once(rs') && Reversed(rs, rs') && |rs| <= c.sp <= |c.mem| && forall i | 0 <= i < |rs| :: rs[i] in c.regs
    requires Pushes(c, rs).Some? && d.mem == Pushes(c, rs).value.mem && d.sp == Pushes(c, rs).value.sp
    ensures var r := Pops(d, rs');
            && r.Some? && r.value.sp == c.sp && |r.value.mem| == |c.mem|
            && (forall a | c.sp <= a < |c.mem| :: r.value.mem[a] == c.mem[a])
            && forall i | 0 <= i < |rs| :: rs[i] in r.value.regs && r.value.regs[rs[i]] == c.regs[rs[i]]
  {
    hide Pushes, Pops, Once, Reversed;
    PushesWrite(c, rs);
    ReversedLen(rs, rs');
    PopsRead(d, rs');
    forall i | 0 <= i < |rs|
      ensures rs[i] in Pops(d, rs').value.regs && Pops(d, rs').value.regs[rs[i]] == c.regs[rs[i]]
    {
      ReversedAt(rs, rs', i);
      assert d.mem[c.sp - 1 - i] == c.regs[rs[i]];
      assert rs'[|rs| - 1 - i] == rs[i];
    }
  }

  lemma ReversedLen(rs: seq<Reg>, rs': seq<Reg>)
    requires Reversed(rs, rs')
    ensures |rs'| == |rs|
  {
  }

  lemma ReversedAt(rs: seq<Reg>, rs': seq<Reg>, i: nat)
    requires Reversed(rs, rs') && i < |rs|
    ensures |rs'| == |rs| && rs'[|rs| - 1 - i] == rs[i]
  {
    var k := |rs| - 1 - i;
    assert rs'[k] == rs[|rs| - 1 - k];
  }

  /** Where the trampoline keeps a register, counted from the top of the stack. */
  function Index(r: Reg): (i: nat)
    ensures i < 15
  {
    match r
    case R15 => 0 case R14 => 1 case R13 => 2 case R12 => 3 case R11 => 4 case R10 => 5 case R9 => 6 case R8 => 7
    case RBP => 8 case RDI => 9 case RSI => 10 case RDX => 11 case RCX => 12 case RBX => 13 case RAX => 14
  }

  lemma SavesAt(r: Reg)
    ensures TrampolineSaves()[14 - Index(r)] == r && TrampolineRestores()[Index(r)] == r
  {
  }

  lemma IndexOf(i: nat)
    requires i < 15
    ensures Index(TrampolineRestores()[i]) == i
  {
    var rs := TrampolineRestores();
    if i < 8 {
      assert i == 0 || i == 1 || i == 2 || i == 3 || i == 4 || i == 5 || i == 6 || i == 7;
    } else {
      assert i == 8 || i == 9 || i == 10 || i == 11 || i == 12 || i == 13 || i == 14;
    }
  }

  /** Every register is restored exactly once. */
  lemma TrampolineOnce()
    ensures Once(TrampolineRestores())
  {
    hide TrampolineRestores, Index;
    TrampolineLen();
    var rs := TrampolineRestores();
    forall i, j | 0 <= i < j < |rs|
      ensures rs[i] != rs[j]
    {
      IndexOf(i);
      IndexOf(j);
    }
  }

  lemma TrampolineLen()
    ensures |TrampolineRestores()| == 15 && |TrampolineSaves()| == 15
  {
  }

  lemma SwitchOrders()
    ensures Once(SwitchRestores()) && Reversed(SwitchSaves(), SwitchRestores())
  {
  }

  /** Where `switch_context` keeps a callee-saved register, counted from the top of the stack. */
  function SwitchIndex(r: Reg): (i: nat)
    ensures i < 6
  {
    match r
    case R15 => 0
    case R14 => 1
    case R13 => 2
    case R12 => 3
    case RBX => 4
    case _ => 5
  }

  lemma SwitchCovers()
    ensures |SwitchRestores()| == 6 == |SwitchSaves()|
    ensures forall x | x in {RBP, RBX, R12, R13, R14, R15} ::
              SwitchRestores()[SwitchIndex(x)] == x && SwitchSaves()[5 - SwitchIndex(x)] == x
  {
  }

  /** `switch_context` away and back: the callee-saved registers, the stack pointer and the return address. */
  lemma SwitchRoundTrip(c: Cpu, d: Cpu)
    requires Full(c.regs) && 6 <= c.sp < |c.mem|
    requires Pushes(c, SwitchSaves()).Some? && d.mem == Pushes(c, SwitchSaves()).value.mem && d.sp == Pushes(c, SwitchSaves()).value.sp
    ensures var r := Pops(d, SwitchRestores());
            && r.Some? && Ret(r.value) == Some((c.mem[c.sp], r.value.(sp := c.sp + 1)))
            && forall x | x in {RBP, RBX, R12, R13, R14, R15} :: x in r.value.regs && r.value.regs[x] == c.regs[x]
  {
    SwitchOrders();
    SwitchCovers();
    hide Pushes, Pops, Once, Reversed, SwitchIndex, SwitchSaves, SwitchRestores;
    SaveRestore(c, SwitchSaves(), SwitchRestores(), d);
    var regs := Pops(d, SwitchRestores()).value.regs;
    forall x | x in {RBP, RBX, R12, R13, R14, R15}
      ensures x in regs && regs[x] == c.regs[x]
    {
      assert SwitchSaves()[5 - SwitchIndex(x)] == x;
    }
  }

  /** The saved registers as the dispatcher sees them, in memory order. */
  datatype Context = Context(r15: nat, r14: nat, r13: nat, r12: nat, r11: nat, r10: nat, r9: nat, r8: nat, rbp: nat, rdi: nat,
                             rsi: nat, rdx: nat, rcx: nat, rbx: nat, rax: nat, frame: Frame)

  function ContextAt(mem: seq<nat>, sp: nat): Context
    requires sp + 20 <= |mem|
  {
    Context(mem[sp], mem[sp + 1], mem[sp + 2], mem[sp + 3], mem[sp + 4], mem[sp + 5], mem[sp + 6], mem[sp + 7], mem[sp + 8],
            mem[sp + 9], mem[sp + 10], mem[sp + 11], mem[sp + 12], mem[sp + 13], mem[sp + 14],
            Frame(mem[sp + 15], mem[sp + 16], mem[sp + 17], mem[sp + 18], mem[sp + 19]))
  }

  function Value(c: Context, r: Reg): nat {
    match r
    case RAX => c.rax
    case RBX => c.rbx
    case RCX => c.rcx
    case RDX => c.rdx
    case RSI => c.rsi
    case RDI => c.rdi
    case RBP => c.rbp
    case R8 => c.r8
    case R9 => c.r9
    case R10 => c.r10
    case R11 => c.r11
    case R12 => c.r12
    case R13 => c.r13
    case R14 => c.r14
    case R15 => c.r15
  }

  lemma ValueAt(mem: seq<nat>, sp: nat, r: Reg)
    requires sp + 20 <= |mem|
    ensures Value(ContextAt(mem, sp), r) == mem[sp + Index(r)]
  {
  }

  /** On entry the trampoline hands the dispatcher exactly the user's registers, flags and stack. */
  lemma EntryContext(f: Frame, regs: map<Reg, nat>, mem: seq<nat>)
    requires Full(regs) && |mem| >= 20
    ensures var c := Pushes(Interrupt(f, regs, mem), TrampolineSaves());
            && c.Some? && c.value.sp == |mem| - 20 && |c.value.mem| == |mem|
            && var ctx := ContextAt(c.value.mem, c.value.sp);
            ctx.frame == f && forall r: Reg :: Value(ctx, r) == regs[r]
  {
    hide Pushes, TrampolineSaves, TrampolineRestores, Value, Index;
    TrampolineLen();
    var c := Interrupt(f, regs, mem);
    PushesWrite(c, TrampolineSaves());
    var c' := Pushes(c, TrampolineSaves()).value;
    forall r: Reg
      ensures Value(ContextAt(c'.mem, c'.sp), r) == regs[r]
    {
      ValueAt(c'.mem, c'.sp, r);
      SavesAt(r);
      assert c'.mem[c.sp - 1 - (14 - Index(r))] == regs[TrampolineSaves()[14 - Index(r)]];
    }
  }

  /** The epilogue loads a context back: every register, and the frame. */
  lemma EpilogueLoads(c: Cpu)
    requires c.sp + 20 == |c.mem|
    ensures var r := Pops(c, TrampolineRestores());
            && r.Some? && Full(r.value.regs)
            && (forall x: Reg :: r.value.regs[x] == Value(ContextAt(c.mem, c.sp), x))
            && Iretq(r.value) == Some((ContextAt(c.mem, c.sp).frame, r.value.(sp := |c.mem|)))
  {
    hide Pops, TrampolineSaves, TrampolineRestores, Value, Index, Once;
    TrampolineLen();
    TrampolineOnce();
    PopsRead(c, TrampolineRestores());
    var r := Pops(c, TrampolineRestores()).value;
    forall x: Reg
      ensures x in r.regs && r.regs[x] == Value(ContextAt(c.mem, c.sp), x)
    {
      ValueAt(c.mem, c.sp, x);
      SavesAt(x);
      assert r.regs[TrampolineRestores()[Index(x)]] == c.mem[c.sp + Index(x)];
    }
  }

  const STACK_WORDS: nat := 4096

  class KernelStack {
    const words: array<nat>
    var savedSp: nat
    var initialised: bool

    constructor ()
      ensures fresh(words) && words.Length == STACK_WORDS && !initialised && savedSp == 0
    {
      words := new nat[STACK_WORDS](_ => 0);
      savedSp, initialised := 0, false;
    }

    /** Write values downward from `sp`, the first one highest. */
    method PushWords(sp: nat, vs: seq<nat>) returns (sp': nat)
      requires |vs| <= sp <= words.Length
      modifies words
      ensures sp' == sp - |vs|
      ensures forall i | 0 <= i < |vs| :: words[sp - 1 - i] == vs[i]
      ensures forall a | 0 <= a < words.Length && !(sp - |vs| <= a < sp) :: words[a] == old(words[a])
    {
      sp' := sp;
      var i := 0;
      while i < |vs|
        invariant 0 <= i <= |vs| && sp' == sp - i
        invariant forall k | 0 <= k < i :: words[sp - 1 - k] == vs[k]
        invariant forall a | 0 <= a < words.Length && !(sp - i <= a < sp) :: words[a] == old(words[a])
      {
        sp' := sp' - 1;
        words[sp'] := vs[i];
        i := i + 1;
      }
    }

    /** `sys_fork`, step 3: the child's stack, 27 words below the top. */
    method BuildChild(ctx: Context, afterCall: nat)
      requires words.Length == STACK_WORDS
      modifies this, words
      ensures initialised && savedSp == STACK_WORDS - 27
      ensures ContextAt(words[..], STACK_WORDS - 20) == ctx.(rax := 0) && words[STACK_WORDS - 21] == afterCall
      ensures forall a | 0 <= a < STACK_WORDS - 27 :: words[a] == old(words[a])
      ensures forall regs :: ResumesAs(regs, words[..], savedSp, afterCall, ctx)
    {
      var frame := [ctx.frame.ss, ctx.frame.rsp, ctx.frame.rflags, ctx.frame.cs, ctx.frame.rip];
      var sp := PushWords(STACK_WORDS, frame);
      FrameStored(words[..], sp, ctx.frame, frame);
      var gprs := [0, ctx.rbx, ctx.rcx, ctx.rdx, ctx.rsi, ctx.rdi, ctx.rbp, ctx.r8, ctx.r9, ctx.r10, ctx.r11,
                   ctx.r12, ctx.r13, ctx.r14, ctx.r15];
      sp := PushWords(sp, gprs);
      GprsStored(words[..], sp, ctx.(rax := 0), gprs);
      ghost var built := words[..];
      var saved := [afterCall, 0, 0, 0, 0, 0, 0];
      sp := PushWords(sp, saved);
      assert words[STACK_WORDS - 20 - 1 - 0] == saved[0];
      assert forall a | STACK_WORDS - 20 <= a < STACK_WORDS :: words[a] == built[a];
      savedSp, initialised := sp, true;
      forall regs
        ensures ResumesAs(regs, words[..], savedSp, afterCall, ctx)
      {
        ForkResumes(ctx, words[..], afterCall, regs);
      }
    }

    /** `setup_initial_context`: seven words, the entry point on top. */
    method SetupInitial(entry: nat)
      requires words.Length == STACK_WORDS
      modifies this, words
      ensures initialised && savedSp == STACK_WORDS - 7 && words[STACK_WORDS - 1] == entry
      ensures forall a | STACK_WORDS - 7 <= a < STACK_WORDS - 1 :: words[a] == 0
      ensures forall a | 0 <= a < STACK_WORDS - 7 :: words[a] == old(words[a])
    {
      var saved := [entry, 0, 0, 0, 0, 0, 0];
      var sp := PushWords(STACK_WORDS, saved);
      forall a | STACK_WORDS - 7 <= a < STACK_WORDS - 1
        ensures words[a] == 0
      {
        var i := STACK_WORDS - 1 - a;
        assert words[STACK_WORDS - 1 - i] == saved[i];
      }
      assert words[STACK_WORDS - 1 - 0] == saved[0];
      savedSp, initialised := sp, true;
    }
  }

  lemma FrameStored(mem: seq<nat>, sp: nat, f: Frame, vs: seq<nat>)
    requires sp + 5 <= |mem| && vs == [f.ss, f.rsp, f.rflags, f.cs, f.rip] && forall i | 0 <= i < 5 :: mem[sp + 4 - i] == vs[i]
    ensures Frame(mem[sp], mem[sp + 1], mem[sp + 2], mem[sp + 3], mem[sp + 4]) == f
  {
    var at := sp + 4;
    assert mem[at - 0] == vs[0] && mem[at - 1] == vs[1] && mem[at - 2] == vs[2] && mem[at - 3] == vs[3] && mem[at - 4] == vs[4];
  }

  lemma GprsStored(mem: seq<nat>, sp: nat, c: Context, gprs: seq<nat>)
    requires sp + 20 <= |mem| && Frame(mem[sp + 15], mem[sp + 16], mem[sp + 17], mem[sp + 18], mem[sp + 19]) == c.frame
    requires gprs == [c.rax, c.rbx, c.rcx, c.rdx, c.rsi, c.rdi, c.rbp, c.r8, c.r9, c.r10, c.r11, c.r12, c.r13, c.r14, c.r15]
    requires forall i | 0 <= i < 15 :: mem[sp + 14 - i] == gprs[i]
    ensures ContextAt(mem, sp) == c
  {
    var at := sp + 14;
    assert mem[at - 0] == gprs[0] && mem[at - 1] == gprs[1] && mem[at - 2] == gprs[2] && mem[at - 3] == gprs[3];
    assert mem[at - 4] == gprs[4] && mem[at - 5] == gprs[5] && mem[at - 6] == gprs[6] && mem[at - 7] == gprs[7];
    assert mem[at - 8] == gprs[8] && mem[at - 9] == gprs[9] && mem[at - 10] == gprs[10] && mem[at - 11] == gprs[11];
    assert mem[at - 12] == gprs[12] && mem[at - 13] == gprs[13] && mem[at - 14] == gprs[14];
  }

  /** The user-mode state a resumed process enters, with how much of its kernel stack is left. */
  datatype Entered = Entered(regs: map<Reg, nat>, frame: Frame, sp: nat)

  /** The trampoline's epilogue. */
  function Epilogue(c: Cpu): Option<Entered> {
    var d := Pops(c, TrampolineRestores());
    if d.None? || Iretq(d.value).None? then None
    else Some(Entered(d.value.regs, Iretq(d.value).value.0, Iretq(d.value).value.1.sp))
  }

  /** `switch_context`'s restore half: where it returns to, and the CPU then. */
  function Restore(regs: map<Reg, nat>, mem: seq<nat>, sp: nat): Option<(nat, Cpu)> {
    var c := Pops(Cpu(regs, mem, sp), SwitchRestores());
    if c.None? then None else Ret(c.value)
  }

  lemma RestoreReturns(regs: map<Reg, nat>, mem: seq<nat>, sp: nat)
    requires sp + 7 <= |mem|
    ensures var r := Restore(regs, mem, sp);
            && r.Some? && r.value.0 == mem[sp + 6] && r.value.1.mem == mem && r.value.1.sp == sp + 7
            && forall i | 0 <= i < 6 :: SwitchRestores()[i] in r.value.1.regs && r.value.1.regs[SwitchRestores()[i]] == mem[sp + i]
  {
    SwitchOrders();
    hide Pops, Once, Reversed;
    PopsRead(Cpu(regs, mem, sp), SwitchRestores());
  }

  /** User mode with the registers and frame of `ctx`, except rax, and an empty kernel stack. */
  ghost predicate EntersAs(e: Option<Entered>, ctx: Context, rax: nat, top: nat) {
    && e.Some? && Full(e.value.regs) && e.value.frame == ctx.frame && e.value.sp == top
    && forall r: Reg :: e.value.regs[r] == if r == RAX then rax else Value(ctx, r)
  }

  lemma EpilogueEnters(c: Cpu, ctx: Context, rax: nat)
    requires c.sp + 20 == |c.mem| && ContextAt(c.mem, c.sp) == ctx.(rax := rax)
    ensures EntersAs(Epilogue(c), ctx, rax, |c.mem|)
  {
    EpilogueLoads(c);
    hide Pops, TrampolineRestores, ContextAt;
  }

  /** Restoring from `sp` returns to `at`, and the epilogue there enters user mode as `ctx` with rax == 0. */
  ghost predicate ResumesAs(regs: map<Reg, nat>, mem: seq<nat>, sp: nat, at: nat, ctx: Context) {
    var r := Restore(regs, mem, sp);
    r.Some? && r.value.0 == at && EntersAs(Epilogue(r.value.1), ctx, 0, |mem|)
  }

  /** The child's first run: from whatever the CPU held, `switch_context` returns into the trampoline and the
      trampoline into user mode, with the parent's registers, flags, rip and rsp, except rax == 0. All 27 words
      are consumed, each once. */
  lemma ForkResumes(ctx: Context, mem: seq<nat>, afterCall: nat, regs: map<Reg, nat>)
    requires |mem| == STACK_WORDS && ContextAt(mem, STACK_WORDS - 20) == ctx.(rax := 0) && mem[STACK_WORDS - 21] == afterCall
    ensures ResumesAs(regs, mem, STACK_WORDS - 27, afterCall, ctx)
  {
    hide Restore, Epilogue, ContextAt, EntersAs;
    RestoreReturns(regs, mem, STACK_WORDS - 27);
    EpilogueEnters(Restore(regs, mem, STACK_WORDS - 27).value.1, ctx, 0);
  }

  /** A fresh process: `switch_context` returns to its entry point with an empty stack and cleared registers. */
  lemma FreshResumes(mem: seq<nat>, entry: nat, regs: map<Reg, nat>)
    requires |mem| == STACK_WORDS && mem[STACK_WORDS - 1] == entry && forall a | STACK_WORDS - 7 <= a < STACK_WORDS - 1 :: mem[a] == 0
    ensures var r := Restore(regs, mem, STACK_WORDS - 7);
            && r.Some? && r.value.0 == entry && r.value.1.sp == STACK_WORDS
            && forall x | x in {RBP, RBX, R12, R13, R14, R15} :: x in r.value.1.regs && r.value.1.regs[x] == 0
  {
    hide Restore;
    SwitchCovers();
    RestoreReturns(regs, mem, STACK_WORDS - 7);
    hide SwitchIndex, SwitchRestores;
    var c := Restore(regs, mem, STACK_WORDS - 7).value.1;
    forall x | x in {RBP, RBX, R12, R13, R14, R15}
      ensures x in c.regs && c.regs[x] == 0
    {
      assert SwitchRestores()[SwitchIndex(x)] == x;
    }
  }

  /** The context at a system call's entry. */
  function Entry(f: Frame, regs: map<Reg, nat>, mem: seq<nat>): Option<Cpu>
    requires |mem| >= 5
  {
    Pushes(Interrupt(f, regs, mem), TrampolineSaves())
  }

  /** The dispatcher's `ctx.rax = retval`. */
  function SetResult(c: Cpu, v: nat): Cpu
    requires c.sp + 14 < |c.mem|
  {
    c.(mem := c.mem[c.sp + 14 := v])
  }

  /** Every system call returns to its caller with all registers as they were, except the result in rax. */
  lemma SyscallReturns(f: Frame, regs: map<Reg, nat>, mem: seq<nat>, v: nat)
    requires Full(regs) && |mem| >= 20
    ensures var c := Entry(f, regs, mem);
            && c.Some? && c.value.sp + 20 == |mem| == |c.value.mem|
            && var ctx := ContextAt(c.value.mem, c.value.sp);
            && ctx.frame == f && (forall r: Reg :: Value(ctx, r) == regs[r])
            && EntersAs(Epilogue(SetResult(c.value, v)), ctx, v, |mem|)
  {
    EntryContext(f, regs, mem);
    var c := Entry(f, regs, mem).value;
    hide Entry, Pushes, Epilogue, EntersAs;
    SetResultAt(c, v);
    EpilogueEnters(SetResult(c, v), ContextAt(c.mem, c.sp), v);
  }

  lemma SetResultAt(c: Cpu, v: nat)
    requires c.sp + 20 <= |c.mem|
    ensures ContextAt(SetResult(c, v).mem, c.sp) == ContextAt(c.mem, c.sp).(rax := v)
  {
  }
}
