/**
 Whole runs of the kernel: safety in every reachable state, exactly-once delivery, bounded
 waiting, and contexts that survive whatever ran in between.
 */
module KernelRuns {
  import opened Egos
  import opened Processes
  import opened Rendezvous
  import opened KernelSteps

  ghost predicate StepTo(k: Kernel, e: Event, k': Kernel) {
    Quiescent(k) && Allowed(k, e) && Step(k, e) == Some(k')
  }

  /** ks is a run of the system under the events es; a step is defined in a quiescent state, which
      is assumed of the first state only. */
  ghost predicate Run(ks: seq<Kernel>, es: seq<Event>) {
    && |ks| == |es| + 1
    && Quiescent(ks[0])
    && (forall j :: 0 <= j < |es| ==> Quiescent(ks[j]) ==> StepTo(ks[j], es[j], ks[j + 1]))
  }

  /** The boot state: only GPID_PROCESS exists, and it runs. */
  ghost predicate Boot(k: Kernel) {
    && WellFormed(k) && k.curr == GPID_PROCESS && k.procs[1].status == Running
    && (forall i :: 1 < i < 16 ==> k.procs[i].status == Unused)
    && (forall i :: 0 < i < 16 ==> k.procs[i].syscall.kind != SYS_RECV || k.procs[i].syscall.status != PENDING)
  }

  lemma BootIsQuiescent(k: Kernel)
    requires Boot(k)
    ensures Quiescent(k)
  {
  }

  /** Every state of every run is quiescent. */
  lemma {:induction false} AlwaysQuiescent(ks: seq<Kernel>, es: seq<Event>, n: nat)
    requires Run(ks, es) && n <= |es|
    ensures Quiescent(ks[n])
    decreases n
  {
    hide Quiescent, Allowed, Step;
    if n > 0 {
      AlwaysQuiescent(ks, es, n - 1);
      assert StepTo(ks[n - 1], es[n - 1], ks[n]);
      StepKeeps(ks[n - 1], es[n - 1]);
    }
  }

  lemma Sixteen(k: Kernel)
    requires Quiescent(k)
    ensures |k.procs| == 16
  {
  }

  // ---------- exactly once ----------

  /** The rendezvous that a step completes; at most one. */
  ghost function Delivery(k: Kernel, e: Event): Option<(nat, nat)>
    requires Quiescent(k) && Allowed(k, e)
  {
    if e.Trap? && KnownCall(k) then
      (EnteredTrap(k, e); Pair(Entered(k, e), k.curr))
    else None
  }

  /** The process that opens a call of the given kind with this step. */
  ghost predicate Opens(k: Kernel, e: Event, kind: int, p: nat)
    requires Quiescent(k)
  {
    e.Trap? && k.curr == p && Decode(k.mem[Arg(p)]).kind == kind
  }

  ghost predicate OpenCall(k: Kernel, kind: int, p: nat)
    requires |k.procs| == 16
  {
    Blocked(k, p) && k.procs[p].syscall.kind == kind
  }

  function Bit(b: bool): nat { if b then 1 else 0 }

  ghost predicate Serves(k: Kernel, e: Event, kind: int, p: nat)
    requires Quiescent(k) && Allowed(k, e)
  {
    Delivery(k, e).Some? && p == if kind == SYS_SEND then Delivery(k, e).value.0 else Delivery(k, e).value.1
  }

  /** One step opens a call, or completes one, or leaves it as it was. */
  lemma CallBalance(k: Kernel, e: Event, k': Kernel, kind: int, p: nat)
    requires StepTo(k, e, k') && kind in {SYS_SEND, SYS_RECV} && 0 < p < 16
    ensures |k'.procs| == 16
    ensures Bit(OpenCall(k, kind, p)) + Bit(Opens(k, e, kind, p))
        == Bit(OpenCall(k', kind, p)) + Bit(Serves(k, e, kind, p))
  {
    if e.Timer? {
      TimerBalance(k, e, k', kind, p);
    } else if e.Trap? {
      TrapBalance(k, e, k', kind, p);
    }
  }

  lemma ResumeCalls(k: Kernel, k': Kernel, kind: int, p: nat)
    requires WellFormed(k) && Schedule(k) == Some(k') && 0 < p < 16
    ensures |k'.procs| == 16 && (OpenCall(k', kind, p) <==> OpenCall(k, kind, p))
  {
  }

  lemma TimerBalance(k: Kernel, e: Event, k': Kernel, kind: int, p: nat)
    requires StepTo(k, e, k') && e.Timer? && 0 < p < 16
    ensures |k'.procs| == 16 && (OpenCall(k', kind, p) <==> OpenCall(k, kind, p))
  {
    hide PagesAgree, Records;
    EnteredTimer(k, e);
    var k1 := Entered(k, e);
    PairIsOnlyMatch(k1, k1.curr);
    ResumeCalls(k1, k', kind, p);
  }

  /** The trap opens the call of the current process, which was not blocked. */
  lemma EnteredCalls(k: Kernel, e: Event, kind: int, p: nat)
    requires Quiescent(k) && Allowed(k, e) && e.Trap? && 0 < p < 16
    ensures |Entered(k, e).procs| == 16 && |k.procs| == 16
    ensures Bit(OpenCall(k, kind, p)) + Bit(Opens(k, e, kind, p)) == Bit(OpenCall(Entered(k, e), kind, p))
  {
    hide PagesAgree, Records, Match;
  }

  /** Settling closes the two calls of the pair and no other. */
  lemma SettleCalls(k: Kernel, kind: int, p: nat)
    requires WellFormed(k) && Records(k) && OthersSettled(k, k.curr) && Settle(k).Some?
    requires kind in {SYS_SEND, SYS_RECV} && 0 < p < 16
    ensures |Settle(k).value.procs| == 16
    ensures Bit(OpenCall(k, kind, p)) == Bit(OpenCall(Settle(k).value, kind, p))
      + Bit(Pair(k, k.curr).Some? && p == if kind == SYS_SEND then Pair(k, k.curr).value.0 else Pair(k, k.curr).value.1)
  {
    PairIsOnlyMatch(k, k.curr);
    match Pair(k, k.curr)
    case None =>
    case Some((s, d)) => DeliverUnblocks(k, s, d);
  }

  lemma TrapBalance(k: Kernel, e: Event, k': Kernel, kind: int, p: nat)
    requires StepTo(k, e, k') && e.Trap? && kind in {SYS_SEND, SYS_RECV} && 0 < p < 16
    ensures |k'.procs| == 16
    ensures Bit(OpenCall(k, kind, p)) + Bit(Opens(k, e, kind, p))
        == Bit(OpenCall(k', kind, p)) + Bit(Serves(k, e, kind, p))
  {
    hide Quiescent, Allowed, Records, PagesAgree, WellFormed, Match, Entered, Pair, OpenCall, Opens, Bit,
        OthersSettled, Schedule, Settle;
    EnteredTrap(k, e);
    EnteredCalls(k, e, kind, p);
    var k1 := Entered(k, e);
    SettledWellFormed(k1);
    SettleCalls(k1, kind, p);
    ResumeCalls(Settle(k1).value, k', kind, p);
    assert Bit(OpenCall(k', kind, p)) == Bit(OpenCall(Settle(k1).value, kind, p));
  }

  /** How many of the first n steps open, or complete, a call of process p. */
  ghost function Opened(ks: seq<Kernel>, es: seq<Event>, n: nat, kind: int, p: nat): nat
    requires Run(ks, es) && n <= |es|
  {
    if n == 0 then 0 else
    AlwaysQuiescent(ks, es, n - 1);
    Opened(ks, es, n - 1, kind, p) + Bit(Opens(ks[n - 1], es[n - 1], kind, p))
  }

  ghost function Served(ks: seq<Kernel>, es: seq<Event>, n: nat, kind: int, p: nat): nat
    requires Run(ks, es) && n <= |es|
  {
    if n == 0 then 0 else
    AlwaysQuiescent(ks, es, n - 1);
    assert StepTo(ks[n - 1], es[n - 1], ks[n]);
    Served(ks, es, n - 1, kind, p) + Bit(Serves(ks[n - 1], es[n - 1], kind, p))
  }

  /** Exactly once: over every run, the sends (or receives) a process has opened are those that
      were part of a delivery, plus the one it is blocked in. */
  lemma {:induction false} ExactlyOnce(ks: seq<Kernel>, es: seq<Event>, n: nat, kind: int, p: nat)
    requires Run(ks, es) && n <= |es| && kind in {SYS_SEND, SYS_RECV} && 0 < p < 16
    requires !OpenCall(ks[0], kind, p)
    ensures |ks[n].procs| == 16
    ensures Opened(ks, es, n, kind, p) == Served(ks, es, n, kind, p) + Bit(OpenCall(ks[n], kind, p))
    decreases n
  {
    hide WellFormed, PagesAgree, Records, Opens, Serves, OpenCall, Step, Allowed;
    AlwaysQuiescent(ks, es, n);
    Sixteen(ks[n]);
    if n > 0 {
      AlwaysQuiescent(ks, es, n - 1);
      ExactlyOnce(ks, es, n - 1, kind, p);
      assert StepTo(ks[n - 1], es[n - 1], ks[n]);
      CallBalance(ks[n - 1], es[n - 1], ks[n], kind, p);
    }
  }

  // ---------- bounded waiting ----------

  predicate Yields(e: Event) { e.Timer? || e.Trap? }

  /** The slot that a yield chooses lies strictly before any other eligible slot, so it brings
      the scan closer to that slot. */
  lemma ScheduleCloser(k: Kernel, k': Kernel, x: nat)
    requires WellFormed(k) && Schedule(k) == Some(k') && x < 16 && Eligible(k, x)
    ensures k'.curr < 16
    ensures k'.curr != x ==> Position(k'.curr, x) < Position(k.curr, x)
  {
    assert Slot(k.curr, Position(k.curr, x)) == x;
  }

  /** Neither entering the kernel nor settling touches a process that is ready to run. */
  lemma EnteredEligible(k: Kernel, e: Event, x: nat)
    requires Quiescent(k) && Allowed(k, e) && Yields(e) && 0 < x < 16 && Eligible(k, x)
    ensures Entered(k, e).curr == k.curr && |Entered(k, e).procs| == 16 && Eligible(Entered(k, e), x)
  {
  }

  lemma SettleEligible(k: Kernel, x: nat)
    requires WellFormed(k) && Records(k) && OthersSettled(k, k.curr) && Settle(k).Some? && 0 < x < 16 && Eligible(k, x)
    ensures |Settle(k).value.procs| == 16 && Eligible(Settle(k).value, x)
  {
  }

  lemma YieldCloser(k: Kernel, e: Event, k': Kernel, x: nat)
    requires StepTo(k, e, k') && Yields(e) && 0 < x < 16 && |k.procs| == 16 && Eligible(k, x)
    ensures k.curr < 16 && k'.curr < 16
    ensures k'.curr != x ==> Position(k'.curr, x) < Position(k.curr, x)
  {
    EnteredEligible(k, e, x);
    hide PagesAgree, Match, Records, Entered, Settle, Schedule;
    if e.Timer? { EnteredTimer(k, e); } else { EnteredTrap(k, e); }
    var k1 := Entered(k, e);
    SettledWellFormed(k1);
    SettleEligible(k1, x);
    ScheduleCloser(Settle(k1).value, k', x);
  }

  lemma NoYieldSameCurrent(k: Kernel, e: Event, k': Kernel)
    requires StepTo(k, e, k') && !Yields(e)
    ensures k'.curr == k.curr
  {
    hide Quiescent, Allowed;
  }

  ghost function YieldCount(es: seq<Event>, n: nat): nat
    requires n <= |es|
  {
    if n == 0 then 0 else YieldCount(es, n - 1) + Bit(Yields(es[n - 1]))
  }

  /** Throughout the first n steps process x waits, ready to run. */
  ghost predicate Waits(ks: seq<Kernel>, n: nat, x: nat) {
    n < |ks| && x < 16 && forall j :: 0 <= j <= n ==> WaitsAt(ks[j], x)
  }

  ghost predicate WaitsAt(k: Kernel, x: nat) {
    && |k.procs| == 16 && 0 < x < 16 && k.curr < 16
    && (k.procs[x].status == Ready || k.procs[x].status == Runnable)
  }

  lemma WaitingIsNotCurrent(k: Kernel, x: nat)
    requires Quiescent(k) && WaitsAt(k, x)
    ensures x != k.curr
  {
  }

  lemma {:induction false} WaitingGetsCloser(ks: seq<Kernel>, es: seq<Event>, n: nat, x: nat)
    requires Run(ks, es) && n <= |es| && Waits(ks, n, x)
    ensures Position(ks[n].curr, x) + YieldCount(es, n) <= Position(ks[0].curr, x)
    decreases n
  {
    hide Quiescent, Step, Allowed, Position;
    if n > 0 {
      assert WaitsAt(ks[n - 1], x) && WaitsAt(ks[n], x);
      WaitingGetsCloser(ks, es, n - 1, x);
      AlwaysQuiescent(ks, es, n - 1);
      AlwaysQuiescent(ks, es, n);
      assert StepTo(ks[n - 1], es[n - 1], ks[n]);
      if Yields(es[n - 1]) {
        YieldCloser(ks[n - 1], es[n - 1], ks[n], x);
        WaitingIsNotCurrent(ks[n], x);
      } else {
        NoYieldSameCurrent(ks[n - 1], es[n - 1], ks[n]);
      }
    }
  }

  /** A process that stays READY or RUNNABLE waits through at most 14 yields; the next one runs it. */
  lemma BoundedWaiting(ks: seq<Kernel>, es: seq<Event>, n: nat, x: nat)
    requires Run(ks, es) && n <= |es| && Waits(ks, n, x)
    ensures YieldCount(es, n) <= 14
  {
    WaitingGetsCloser(ks, es, n, x);
    assert WaitsAt(ks[0], x);
    WaitingIsNotCurrent(ks[0], x);
  }

  // ---------- contexts ----------

  function ContextOf(k: Kernel, x: nat): Context
    requires |k.procs| == 16 && x < 16
  {
    Context(k.procs[x].mepc, k.procs[x].regs)
  }

  /** A process that has been interrupted, and not started afresh, since it last ran. */
  ghost predicate Suspended(k: Kernel, x: nat) {
    |k.procs| == 16 && 0 < x < 16 && (k.procs[x].status == Runnable || k.procs[x].status == Pending) && x != k.curr
  }

  /** Entering the kernel saves the context of the interrupted process: its program counter moves
      past the instruction after a system call and not after a timer interrupt. */
  lemma EntrySaves(k: Kernel, e: Event)
    requires Quiescent(k) && Allowed(k, e) && Yields(e)
    ensures |Entered(k, e).procs| == 16 && k.curr < 16
    ensures ContextOf(Entered(k, e), k.curr) ==
      Context(if e.Trap? then (e.ctx.mepc + 4) % WORD_LIMIT else e.ctx.mepc, e.ctx.regs)
    ensures Entered(k, e).procs[k.curr].status in {Runnable, Pending}
    ensures forall x :: 0 <= x < 16 && x != k.curr ==> Entered(k, e).procs[x] == k.procs[x]
  {
  }

  /** Settling keeps every context, and the page of everybody who stays blocked. */
  lemma SettleFrame(k: Kernel, x: nat)
    requires WellFormed(k) && Records(k) && OthersSettled(k, k.curr) && Settle(k).Some? && 0 < x < 16
    ensures var k' := Settle(k).value;
      && |k'.procs| == 16 && k'.mem.Keys == k.mem.Keys
      && ContextOf(k', x) == ContextOf(k, x)
      && (k.procs[x].status in {Runnable, Pending} ==> k'.procs[x].status in {Runnable, Pending})
      && (Blocked(k', x) ==> Blocked(k, x) && Arg(x) in k.mem && k'.mem[Arg(x)] == k.mem[Arg(x)])
  {
    PairIsOnlyMatch(k, k.curr);
    match Pair(k, k.curr)
    case None =>
    case Some((s, d)) => DeliverUnblocks(k, s, d);
  }

  lemma ScheduleFrame(k: Kernel, k': Kernel, x: nat)
    requires WellFormed(k) && Schedule(k) == Some(k') && 0 < x < 16
    ensures |k'.procs| == 16 && k'.mem == k.mem && (Blocked(k', x) <==> Blocked(k, x))
    ensures k.procs[x].status in {Runnable, Pending} ==>
      ContextOf(k', x) == ContextOf(k, x) && k'.procs[x].status in {Runnable, Pending, Running}
  {
  }

  /** Settling and scheduling leave the saved context of every suspended process alone, also of the
      one that is chosen to run. */
  lemma YieldContext(k: Kernel, k': Kernel, x: nat)
    requires WellFormed(k) && Records(k) && OthersSettled(k, k.curr) && Yield(k) == Some(k')
    requires 0 < x < 16 && k.procs[x].status in {Runnable, Pending}
    ensures |k'.procs| == 16 && ContextOf(k', x) == ContextOf(k, x)
    ensures k'.procs[x].status in {Runnable, Pending, Running}
  {
    hide WellFormed, Records, Settle, Schedule, Match, ContextOf;
    SettledWellFormed(k);
    SettleFrame(k, x);
    ScheduleFrame(Settle(k).value, k', x);
  }

  lemma StepContext(k: Kernel, e: Event, k': Kernel, x: nat)
    requires StepTo(k, e, k') && Suspended(k, x) && e != Exit(x)
    ensures |k'.procs| == 16 && ContextOf(k', x) == ContextOf(k, x)
    ensures x != k'.curr ==> Suspended(k', x)
  {
    StepKeeps(k, e);
    if Yields(e) {
      if e.Timer? { EnteredTimer(k, e); } else { EnteredTrap(k, e); }
      EntrySaves(k, e);
      YieldContext(Entered(k, e), k', x);
    }
  }

  /** Over every run in which x stays off the processor and does not exit, its context is kept. */
  lemma {:induction false} ContextKept(ks: seq<Kernel>, es: seq<Event>, t: nat, n: nat, x: nat)
    requires Run(ks, es) && t <= n <= |es| && Suspended(ks[t], x)
    requires forall j :: t <= j < n ==> x != ks[j].curr && es[j] != Exit(x)
    ensures |ks[n].procs| == 16 && ContextOf(ks[n], x) == ContextOf(ks[t], x)
    ensures x != ks[n].curr ==> Suspended(ks[n], x)
    decreases n
  {
    hide Quiescent, Step, Allowed;
    if n > t {
      ContextKept(ks, es, t, n - 1, x);
      AlwaysQuiescent(ks, es, n - 1);
      assert StepTo(ks[n - 1], es[n - 1], ks[n]);
      StepContext(ks[n - 1], es[n - 1], ks[n], x);
    }
  }

  /** The context to resume after an interrupt or a system call. */
  function SavedContext(e: Event): Context
    requires Yields(e)
  {
    Context(if e.Trap? then (e.ctx.mepc + 4) % WORD_LIMIT else e.ctx.mepc, e.ctx.regs)
  }

  /** The step that interrupts the current process leaves its saved context in its slot, whether the
      process is suspended or chosen again at once. */
  lemma InterruptSaves(k: Kernel, e: Event, k': Kernel)
    requires StepTo(k, e, k') && Yields(e)
    ensures 0 < k.curr < 16 && |k'.procs| == 16 && ContextOf(k', k.curr) == SavedContext(e)
    ensures k.curr != k'.curr ==> Suspended(k', k.curr)
  {
    hide Records, PagesAgree, Match, Settle, Schedule;
    StepKeeps(k, e);
    if e.Timer? { EnteredTimer(k, e); } else { EnteredTrap(k, e); }
    EntrySaves(k, e);
    YieldContext(Entered(k, e), k', k.curr);
  }

  /** The transparent context switch: a process that is interrupted or makes a system call at step t
      resumes, whenever that is and whatever ran in between, with the registers and the program
      counter of that moment, plus 4 after a system call. */
  lemma ContextRestored(ks: seq<Kernel>, es: seq<Event>, t: nat, n: nat, x: nat)
    requires Run(ks, es) && t < n <= |es| && ks[t].curr == x && Yields(es[t])
    requires forall j :: t < j < n ==> x != ks[j].curr && es[j] != Exit(x)
    ensures 0 < x < 16 && |ks[n].procs| == 16 && ContextOf(ks[n], x) == SavedContext(es[t])
    ensures x != ks[n].curr ==> Suspended(ks[n], x)
  {
    hide Quiescent, Step, Allowed;
    AlwaysQuiescent(ks, es, t);
    assert StepTo(ks[t], es[t], ks[t + 1]);
    InterruptSaves(ks[t], es[t], ks[t + 1]);
    if n > t + 1 { ContextKept(ks, es, t + 1, n, x); }
  }

  // ---------- messages ----------

  /** The page that sys_send leaves for the trap: the message is a prefix of the content. */
  function SendPage(p: Page, receiver: int, msg: seq<int>): Page
    requires |msg| <= 256
  {
    Encode(p, Syscall(SYS_SEND, p[1], receiver, msg + p[3 + |msg|..259], PENDING))
  }

  /** The page that sys_recv leaves for the trap. */
  function RecvPage(p: Page, from: int): Page {
    Encode(p, Syscall(SYS_RECV, from, p[2], p[3..259], PENDING))
  }

  /** What sys_recv copies out of its page after the trap. */
  function ReceivedMessage(p: Page, size: nat): seq<int>
    requires size <= 256
  {
    Decode(p).content[..size]
  }

  /** While a process stays blocked, its system call page does not change. */
  lemma BlockedPageKept(k: Kernel, e: Event, k': Kernel, x: nat)
    requires StepTo(k, e, k') && 0 < x < 16 && |k.procs| == 16 && |k'.procs| == 16
    requires Blocked(k', x) && (Blocked(k, x) || k.curr == x)
    ensures Arg(x) in k.mem && Arg(x) in k'.mem && k'.mem[Arg(x)] == k.mem[Arg(x)]
  {
    assert Arg(x) in k.mem;
    if Yields(e) {
      BlockedPageYield(k, e, k', x);
    } else {
      hide PagesAgree, Records, Match;
    }
  }

  lemma BlockedPageYield(k: Kernel, e: Event, k': Kernel, x: nat)
    requires StepTo(k, e, k') && Yields(e) && 0 < x < 16 && |k'.procs| == 16 && Blocked(k', x)
    ensures Arg(x) in k.mem && Arg(x) in k'.mem && k'.mem[Arg(x)] == k.mem[Arg(x)]
  {
    hide PagesAgree, Records, Match, WellFormed, Settle, Schedule, ContextOf;
    if e.Timer? { EnteredTimer(k, e); } else { EnteredTrap(k, e); }
    var k1 := Entered(k, e);
    SettledWellFormed(k1);
    SettleFrame(k1, x);
    ScheduleFrame(Settle(k1).value, k', x);
  }

  lemma {:induction false} BlockedPageKeptInRun(ks: seq<Kernel>, es: seq<Event>, t: nat, n: nat, x: nat)
    requires Run(ks, es) && t <= n <= |es| && 0 < x < 16 && ks[t].curr == x
    requires forall j :: t < j <= n ==> |ks[j].procs| == 16 && Blocked(ks[j], x)
    ensures Arg(x) in ks[t].mem && Arg(x) in ks[n].mem && ks[n].mem[Arg(x)] == ks[t].mem[Arg(x)]
    decreases n
  {
    AlwaysQuiescent(ks, es, t);
    assert Arg(x) in ks[t].mem;
    if n > t {
      hide Step, Allowed, PagesAgree, Match, Records;
      BlockedPageKeptInRun(ks, es, t, n - 1, x);
      AlwaysQuiescent(ks, es, n - 1);
      assert StepTo(ks[n - 1], es[n - 1], ks[n]);
      BlockedPageKept(ks[n - 1], es[n - 1], ks[n], x);
    }
  }

  /** The step that completes a rendezvous changes memory as Deliver does. */
  lemma DeliveryStep(k: Kernel, e: Event, k': Kernel, s: nat, d: nat)
    requires StepTo(k, e, k') && Delivery(k, e) == Some((s, d))
    ensures s != d && 0 < s < 16 && 0 < d < 16 && Arg(s) in k.mem && Arg(d) in k.mem && k'.mem.Keys == k.mem.Keys
    ensures Decode(k'.mem[Arg(d)]).content == Decode(k.mem[Arg(s)]).content
    ensures Decode(k'.mem[Arg(d)]).sender == s
    ensures Decode(k'.mem[Arg(d)]).status == DONE && Decode(k'.mem[Arg(s)]).status == DONE
    ensures forall x :: x in k.mem && x != Arg(s) && x != Arg(d) ==> k'.mem[x] == k.mem[x]
  {
    EnteredTrap(k, e);
    var k1 := Entered(k, e);
    hide PagesAgree, Entered, Quiescent;
    assert k1.mem == k.mem;
    SettledWellFormed(k1);
    PairIsOnlyMatch(k1, k1.curr);
    DeliverCarries(k1, s, d);
  }

  /** A rendezvous is one that both sides asked for: the sender's page names the receiver, and the
      receiver's page names the sender or takes from anybody. */
  lemma DeliveryAsked(k: Kernel, e: Event, s: nat, d: nat)
    requires Quiescent(k) && Allowed(k, e) && Delivery(k, e) == Some((s, d))
    ensures Arg(s) in k.mem && Decode(k.mem[Arg(s)]).kind == 2 && Decode(k.mem[Arg(s)]).receiver == d
    ensures Arg(d) in k.mem && Decode(k.mem[Arg(d)]).kind == 1
    ensures Decode(k.mem[Arg(d)]).sender == -1 || Decode(k.mem[Arg(d)]).sender == s
  {
    EnteredTrap(k, e);
    var k1 := Entered(k, e);
    assert k1.mem == k.mem;
    PairIsOnlyMatch(k1, k1.curr);
    assert Blocked(k1, s) && Blocked(k1, d);
  }

  /** The step n completes the rendezvous of sender s and receiver d. */
  ghost predicate DeliveredAt(ks: seq<Kernel>, es: seq<Event>, n: nat, s: nat, d: nat)
    requires Run(ks, es) && n < |es|
  {
    Quiescent(ks[n]) && Allowed(ks[n], es[n]) && Delivery(ks[n], es[n]) == Some((s, d))
  }

  /** Only its own system call blocks a process. */
  lemma BlocksItself(k: Kernel, e: Event, k': Kernel, x: nat)
    requires StepTo(k, e, k') && 0 < x < 16 && |k.procs| == 16 && |k'.procs| == 16
    requires Blocked(k', x) && !Blocked(k, x)
    ensures k.curr == x && e.Trap?
  {
    if Yields(e) {
      hide PagesAgree, Records, Match, WellFormed, Settle, Schedule, ContextOf;
      if e.Timer? { EnteredTimer(k, e); } else { EnteredTrap(k, e); }
      EntrySaves(k, e);
      var k1 := Entered(k, e);
      SettledWellFormed(k1);
      SettleFrame(k1, x);
      ScheduleFrame(Settle(k1).value, k', x);
    }
  }

  /** Every blocked process has trapped, and has stayed blocked since. */
  lemma {:induction false} TrapOfBlocked(ks: seq<Kernel>, es: seq<Event>, n: nat, x: nat) returns (t: nat)
    requires Run(ks, es) && n <= |es| && 0 < x < 16
    requires |ks[0].procs| == 16 && !Blocked(ks[0], x) && |ks[n].procs| == 16 && Blocked(ks[n], x)
    ensures t < n && ks[t].curr == x && es[t].Trap?
    ensures forall j :: t < j <= n ==> |ks[j].procs| == 16 && Blocked(ks[j], x)
    decreases n
  {
    hide Quiescent, Step, Allowed;
    AlwaysQuiescent(ks, es, n - 1);
    Sixteen(ks[n - 1]);
    assert StepTo(ks[n - 1], es[n - 1], ks[n]);
    if Blocked(ks[n - 1], x) {
      t := TrapOfBlocked(ks, es, n - 1, x);
    } else {
      BlocksItself(ks[n - 1], es[n - 1], ks[n], x);
      t := n - 1;
    }
  }

  /** The sender of a delivery was blocked, or is the process that traps. */
  lemma SenderIsBlocked(k: Kernel, e: Event, s: nat, d: nat)
    requires Quiescent(k) && Allowed(k, e) && Delivery(k, e) == Some((s, d))
    ensures 0 < s < 16 && |k.procs| == 16 && e.Trap? && (s == k.curr || Blocked(k, s))
  {
    EnteredTrap(k, e);
    PairIsOnlyMatch(Entered(k, e), k.curr);
    EntrySaves(k, e);
  }

  /** So every delivery goes back to one trap of its sender. */
  lemma SenderTrap(ks: seq<Kernel>, es: seq<Event>, n: nat, s: nat, d: nat) returns (t: nat)
    requires Run(ks, es) && Boot(ks[0]) && n < |es| && DeliveredAt(ks, es, n, s, d)
    ensures 0 < s < 16 && t <= n && ks[t].curr == s && es[t].Trap?
    ensures forall j :: t < j <= n ==> |ks[j].procs| == 16 && Blocked(ks[j], s)
  {
    hide Quiescent, Allowed, Delivery, Step;
    SenderIsBlocked(ks[n], es[n], s, d);
    if s == ks[n].curr {
      t := n;
    } else {
      t := TrapOfBlocked(ks, es, n, s);
    }
  }

  /** A message has been carried from s to d: k is the state at the sender's trap, and the step from k1 to
      k2 completed the rendezvous.  The sender's page named the receiver, and the receiver's page asked for
      the sender or for anybody; then it holds the content that the sender's page held at the trap and
      the sender's pid, both status words are DONE, and no other page of any process has changed. */
  ghost predicate Carried(k: Kernel, k1: Kernel, k2: Kernel, s: nat, d: nat) {
    && Arg(s) in k.mem && Arg(d) in k1.mem && Arg(s) in k2.mem && Arg(d) in k2.mem
    && Decode(k.mem[Arg(s)]).kind == 2 && Decode(k.mem[Arg(s)]).receiver == d
    && Decode(k1.mem[Arg(d)]).kind == 1
    && (Decode(k1.mem[Arg(d)]).sender == -1 || Decode(k1.mem[Arg(d)]).sender == s)
    && Decode(k2.mem[Arg(d)]).content == Decode(k.mem[Arg(s)]).content
    && Decode(k2.mem[Arg(d)]).sender == s
    && Decode(k2.mem[Arg(d)]).status == 2 && Decode(k2.mem[Arg(s)]).status == 2
    && (forall x :: x in k1.mem && x != Arg(s) && x != Arg(d) ==> x in k2.mem && k2.mem[x] == k1.mem[x])
  }

  /** A message is carried end to end over every run: for every rendezvous that completes there is the
      trap of its sender, and the message is carried from there. */
  lemma MessageCarried(ks: seq<Kernel>, es: seq<Event>, n: nat, s: nat, d: nat) returns (t: nat)
    requires Run(ks, es) && Boot(ks[0]) && n < |es| && DeliveredAt(ks, es, n, s, d)
    ensures t <= n && ks[t].curr == s && es[t].Trap? && Carried(ks[t], ks[n], ks[n + 1], s, d)
  {
    hide Quiescent, Delivery, Boot, Decode;
    t := SenderTrap(ks, es, n, s, d);
    BlockedPageKeptInRun(ks, es, t, n, s);
    assert StepTo(ks[n], es[n], ks[n + 1]);
    DeliveryStep(ks[n], es[n], ks[n + 1], s, d);
    DeliveryAsked(ks[n], es[n], s, d);
  }

  // ---------- until the receiver runs ----------

  ghost predicate Idles(k: Kernel, x: nat) {
    |k.procs| == 16 && 0 < x < 16 && k.procs[x].status == Runnable && x != k.curr
  }

  /** The pages of x in k are pages of x in k', with the same contents. */
  ghost predicate SamePages(k: Kernel, k': Kernel, x: nat) {
    forall y :: y in k.mem && y.pid == x ==> y in k'.mem && k'.mem[y] == k.mem[y]
  }

  lemma SettleLeavesAlone(k: Kernel, x: nat)
    requires WellFormed(k) && Records(k) && OthersSettled(k, k.curr) && Settle(k).Some?
    requires 0 < x < 16 && k.procs[x].status == Runnable
    ensures |Settle(k).value.procs| == 16 && Settle(k).value.procs[x] == k.procs[x] && SamePages(k, Settle(k).value, x)
  {
    hide Schedule, NextSlot;
    PairIsOnlyMatch(k, k.curr);
    match Pair(k, k.curr)
    case None =>
    case Some((s, d)) => DeliverUnblocks(k, s, d);
  }

  /** Settling and scheduling leave a process that is ready to run, and its pages, alone. */
  lemma YieldLeavesAlone(k: Kernel, k': Kernel, x: nat)
    requires WellFormed(k) && Records(k) && OthersSettled(k, k.curr) && Yield(k) == Some(k')
    requires 0 < x < 16 && k.procs[x].status == Runnable
    ensures |k'.procs| == 16 && (x != k'.curr ==> k'.procs[x].status == Runnable)
    ensures SamePages(k, k', x)
  {
    hide WellFormed, Records, Settle, Match, OthersSettled, NextSlot;
    SettledWellFormed(k);
    SettleLeavesAlone(k, x);
    ScheduleFrame(Settle(k).value, k', x);
  }

  /** While a process is ready and does not run, none of its pages changes. */
  lemma PagesKept(k: Kernel, e: Event, k': Kernel, x: nat)
    requires StepTo(k, e, k') && Idles(k, x) && e != Exit(x)
    ensures x != k'.curr ==> Idles(k', x)
    ensures SamePages(k, k', x)
  {
    if Yields(e) {
      hide PagesAgree, Records, Match, Yield;
      if e.Timer? { EnteredTimer(k, e); } else { EnteredTrap(k, e); }
      EntrySaves(k, e);
      YieldLeavesAlone(Entered(k, e), k', x);
    } else {
      hide PagesAgree, Records, Match;
    }
  }

  lemma {:induction false} PagesKeptInRun(ks: seq<Kernel>, es: seq<Event>, a: nat, b: nat, x: nat)
    requires Run(ks, es) && a <= b <= |es| && Idles(ks[a], x)
    requires forall j :: a <= j < b ==> ks[j].curr != x && es[j] != Exit(x)
    ensures SamePages(ks[a], ks[b], x)
    ensures x != ks[b].curr ==> Idles(ks[b], x)
    decreases b
  {
    hide Quiescent, Step, Allowed;
    if b > a {
      PagesKeptInRun(ks, es, a, b - 1, x);
      AlwaysQuiescent(ks, es, b - 1);
      assert StepTo(ks[b - 1], es[b - 1], ks[b]);
      PagesKept(ks[b - 1], es[b - 1], ks[b], x);
    }
  }

  /** After the delivery the receiver runs or is ready to. */
  lemma ReceiverIsReady(k: Kernel, e: Event, k': Kernel, s: nat, d: nat)
    requires StepTo(k, e, k') && Delivery(k, e) == Some((s, d))
    ensures 0 < d < 16 && (d != k'.curr ==> Idles(k', d))
  {
    EnteredTrap(k, e);
    var k1 := Entered(k, e);
    hide PagesAgree, Entered, Quiescent, Records;
    PairIsOnlyMatch(k1, k1.curr);
    DeliverUnblocks(k1, s, d);
    SettledWellFormed(k1);
  }

  /** From user to user: when the receiver of a completed rendezvous runs again, what sys_recv copies
      out of its page is what was passed to sys_send, and it is told who sent it. */
  lemma UserToUser(ks: seq<Kernel>, es: seq<Event>, n: nat, m: nat, s: nat, d: nat) returns (t: nat)
    requires Run(ks, es) && Boot(ks[0]) && n < m <= |es| && DeliveredAt(ks, es, n, s, d)
    requires ks[m].curr == d && forall j :: n < j < m ==> ks[j].curr != d && es[j] != Exit(d)
    ensures t <= n && ks[t].curr == s && es[t].Trap? && Arg(s) in ks[t].mem && Arg(d) in ks[m].mem
    ensures Decode(ks[m].mem[Arg(d)]).content == Decode(ks[t].mem[Arg(s)]).content
    ensures Decode(ks[m].mem[Arg(d)]).sender == s && Decode(ks[m].mem[Arg(d)]).status == DONE
    ensures forall p: Page, msg: seq<int> :: |msg| <= 256 && ks[t].mem[Arg(s)] == SendPage(p, d, msg) ==>
      ReceivedMessage(ks[m].mem[Arg(d)], |msg|) == msg
  {
    hide Quiescent, Delivery, Decode, Encode, Boot;
    t := MessageCarried(ks, es, n, s, d);
    assert StepTo(ks[n], es[n], ks[n + 1]);
    ReceiverIsReady(ks[n], es[n], ks[n + 1], s, d);
    if m > n + 1 { PagesKeptInRun(ks, es, n + 1, m, d); }
    forall p: Page, msg: seq<int> | |msg| <= 256 && ks[t].mem[Arg(s)] == SendPage(p, d, msg)
      ensures ReceivedMessage(ks[m].mem[Arg(d)], |msg|) == msg
    {
      DecodeEncode(p, Syscall(SYS_SEND, p[1], d, msg + p[3 + |msg|..259], PENDING));
    }
  }
}
