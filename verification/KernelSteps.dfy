/**
 Kernel entries and the other steps of the system as functions on kernel states, and what every
 step keeps.
 */
module KernelSteps {
  import opened Egos
  import opened PrivateMemory
  import opened Processes
  import opened Rendezvous

  /** The interrupted program counter and registers. */
  datatype Context = Context(mepc: int, regs: seq<int>)

  // ---------- pieces of an entry ----------

  function SaveContext(k: Kernel, ctx: Context): Kernel
    requires |k.procs| == 16 && k.curr < 16
  {
    k.(procs := k.procs[k.curr := k.procs[k.curr].(mepc := ctx.mepc, regs := ctx.regs)])
  }

  /** The current process enters a system call: its page becomes its record. */
  function Record(k: Kernel): Kernel
    requires |k.procs| == 16 && k.curr < 16 && Arg(k.curr) in k.mem
  {
    var p := k.procs[k.curr];
    k.(procs := k.procs[k.curr := p.(syscall := Decode(k.mem[Arg(k.curr)]).(status := PENDING),
                                     status := Pending,
                                     mepc := (p.mepc + 4) % WORD_LIMIT)])
  }

  /** clear_pending_syscalls: the one rendezvous of the current process, if any, is completed; a
      sender to a process that does not exist is fatal. */
  ghost function Settle(k: Kernel): Option<Kernel>
    requires WellFormed(k)
  {
    if exists x :: OrphanAt(k, x) then None
    else match Pair(k, k.curr)
      case None => Some(k)
      case Some((s, d)) => if s < 16 && d < 16 && Match(k, s, d) then Some(Deliver(k, s, d)) else Some(k)
  }

  predicate Eligible(k: Kernel, x: nat)
    requires |k.procs| == 16 && x < 16
  {
    k.procs[x].status == Ready || k.procs[x].status == Runnable
  }

  /** round_robin: the first eligible slot in cyclic order after the current one. */
  function NextSlot(k: Kernel, i: nat): (r: Option<nat>)
    requires |k.procs| == 16 && k.curr < 16 && 1 <= i
    ensures match r
      case Some(n) =>
        && n < 16 && Eligible(k, n) && i <= Position(k.curr, n)
        && (forall j :: i <= j < Position(k.curr, n) ==> !Eligible(k, Slot(k.curr, j)))
      case None => forall j :: i <= j <= 16 ==> !Eligible(k, Slot(k.curr, j))
    decreases 17 - i
  {
    if i > 16 then None
    else if Eligible(k, Slot(k.curr, i)) then
      assert Position(k.curr, Slot(k.curr, i)) == i;
      Some(Slot(k.curr, i))
    else NextSlot(k, i + 1)
  }

  /** The chosen process becomes current; a new process starts at the application entry. */
  function Resume(k: Kernel, n: nat): Kernel
    requires |k.procs| == 16 && n < 16 && |k.procs[n].regs| == 32
  {
    var p := k.procs[n];
    var p' := if p.status == Ready
              then p.(regs := p.regs[0 := APPS_ARG][1 := APPS_ARG + 4], mepc := APPS_ENTRY)
              else p;
    k.(curr := n, procs := k.procs[n := p'.(status := Running)])
  }

  ghost function Schedule(k: Kernel): Option<Kernel>
    requires WellFormed(k)
  {
    match NextSlot(k, 1)
    case None => None
    case Some(n) => Some(Resume(k, n))
  }

  /** proc_yield after the current process's own status was dealt with. */
  ghost function Yield(k: Kernel): Option<Kernel>
    requires WellFormed(k) && Records(k) && OthersSettled(k, k.curr)
  {
    match Settle(k)
    case None => None
    case Some(k') => SettledWellFormed(k); Schedule(k')
  }

  lemma SettledWellFormed(k: Kernel)
    requires WellFormed(k) && Records(k) && OthersSettled(k, k.curr)
    ensures Settle(k).Some? ==>
      && WellFormed(Settle(k).value) && Records(Settle(k).value) && Settle(k).value.curr == k.curr
      && (forall s, d :: !Match(Settle(k).value, s, d))
  {
    PairIsOnlyMatch(k, k.curr);
    match Pair(k, k.curr)
    case None =>
    case Some((s, d)) => DeliverCloses(k, s, d);
  }

  function SetCurrent(k: Kernel, status: Status): Kernel
    requires |k.procs| == 16 && k.curr < 16
  {
    k.(procs := k.procs[k.curr := k.procs[k.curr].(status := status)])
  }

  // ---------- steps ----------

  datatype Event =
    | Timer(ctx: Context)                           // timer interrupt
    | CtrlC(ctx: Context)                           // timer interrupt that finds ctrl+c
    | Trap(ctx: Context)                            // system call
    | UserStore(vpage: nat, page: Page)             // the running process writes one of its pages
    | Alloc(pid: nat)                               // GPID_PROCESS: proc_alloc
    | Load(pid: nat, pages: Memory<Page>)           // GPID_PROCESS: elf_load, proc_set_ready
    | Exit(pid: nat)                                // GPID_PROCESS: proc_free after PROC_EXIT

  ghost predicate Allowed(k: Kernel, e: Event)
    requires WellFormed(k)
  {
    match e
    case Timer(ctx) => |ctx.regs| == 32
    case CtrlC(ctx) => |ctx.regs| == 32 && k.curr >= GPID_USER_START
    case Trap(ctx) => |ctx.regs| == 32
    case UserStore(v, _) => Entry(k.curr, v) in k.mem
    case Alloc(pid) => k.curr == GPID_PROCESS && 0 < pid < 16 && k.procs[pid].status == Unused
    case Load(pid, pages) =>
      && k.curr == GPID_PROCESS && 0 < pid < 16 && k.procs[pid].status == Loading
      && Arg(pid) in pages && (forall x :: x in pages ==> x.pid == pid)
    case Exit(pid) => k.curr == GPID_PROCESS && 0 < pid < 16 && k.procs[pid].status == Runnable
  }

  /** The state in which the pending calls are cleared, for the entries that yield. */
  ghost function Entered(k: Kernel, e: Event): Kernel
    requires Quiescent(k) && Allowed(k, e) && (e.Timer? || e.Trap?)
  {
    if e.Timer? then SetCurrent(SaveContext(k, e.ctx), Runnable)
    else Record(SaveContext(k, e.ctx))
  }

  /** A system call is refused when its kind is unknown. */
  ghost predicate KnownCall(k: Kernel)
    requires Quiescent(k)
  {
    Decode(k.mem[Arg(k.curr)]).kind in {SYS_SEND, SYS_RECV}
  }

  lemma EnteredTimer(k: Kernel, e: Event)
    requires Quiescent(k) && Allowed(k, e) && e.Timer?
    ensures var k1 := Entered(k, e);
      WellFormed(k1) && Records(k1) && PagesAgree(k1) && OthersSettled(k1, k1.curr) && k1.curr == k.curr
      && (forall s, d :: !Match(k1, s, d))
  {
    var k1 := Entered(k, e);
    forall s, d ensures !Match(k1, s, d) { assert !Match(k, s, d); }
  }

  lemma EnteredTrap(k: Kernel, e: Event)
    requires Quiescent(k) && Allowed(k, e) && e.Trap? && KnownCall(k)
    ensures var k1 := Entered(k, e);
      WellFormed(k1) && Records(k1) && PagesAgree(k1) && OthersSettled(k1, k1.curr) && k1.curr == k.curr
  {
    var k1 := Entered(k, e);
    forall s, d | Match(k1, s, d)
      ensures s == k.curr || d == k.curr
    {
      assert !Match(k, s, d);
    }
  }

  /** One step; None when the kernel stops. */
  ghost function Step(k: Kernel, e: Event): Option<Kernel>
    requires Quiescent(k) && Allowed(k, e)
  {
    match e
    case Timer(_) => EnteredTimer(k, e); Yield(Entered(k, e))
    case CtrlC(ctx) => Some(SaveContext(k, ctx.(mepc := APPS_ENTRY + 0xC)))
    case Trap(_) => if !KnownCall(k) then None else EnteredTrap(k, e); Yield(Entered(k, e))
    case UserStore(v, page) => Some(k.(mem := k.mem[Entry(k.curr, v) := page]))
    case Alloc(pid) => Some(k.(procs := k.procs[pid := k.procs[pid].(pid := pid, status := Loading)]))
    case Load(pid, pages) =>
      Some(k.(procs := k.procs[pid := k.procs[pid].(status := Ready)], mem := k.mem + pages))
    case Exit(pid) =>
      Some(k.(procs := k.procs[pid := k.procs[pid].(status := Unused)],
              mem := map x | x in k.mem && x.pid != pid :: k.mem[x]))
  }

  // ---------- every step keeps quiescence ----------

  lemma ScheduleKeeps(k: Kernel)
    requires WellFormed(k) && Records(k) && PagesAgree(k) && (forall s, d :: !Match(k, s, d))
    requires forall i :: 0 < i < 16 ==> k.procs[i].status != Running
    ensures Schedule(k).Some? ==> Quiescent(Schedule(k).value)
  {
    if Schedule(k).Some? {
      var k' := Schedule(k).value;
      forall s, d ensures !Match(k', s, d) { assert !Match(k, s, d); }
    }
  }

  lemma SettleKeepsPages(k: Kernel)
    requires WellFormed(k) && Records(k) && PagesAgree(k) && OthersSettled(k, k.curr)
    ensures Settle(k).Some? ==> WellFormed(Settle(k).value) && PagesAgree(Settle(k).value)
    ensures Settle(k).Some? && (forall i :: 0 < i < 16 ==> k.procs[i].status != Running) ==>
      forall i :: 0 < i < 16 ==> Settle(k).value.procs[i].status != Running
  {
    PairIsOnlyMatch(k, k.curr);
    match Pair(k, k.curr)
    case None =>
    case Some((s, d)) =>
      DeliverUnblocks(k, s, d);
      var k' := Deliver(k, s, d);
      forall i | Blocked(k', i)
        ensures Decode(k'.mem[Arg(i)]).(status := PENDING) == k'.procs[i].syscall
      {
        assert Blocked(k, i) && k'.mem[Arg(i)] == k.mem[Arg(i)];
      }
  }

  lemma YieldKeeps(k: Kernel)
    requires WellFormed(k) && Records(k) && PagesAgree(k) && OthersSettled(k, k.curr)
    requires forall i :: 0 < i < 16 ==> k.procs[i].status != Running
    ensures Yield(k).Some? ==> Quiescent(Yield(k).value)
  {
    hide Quiescent, PagesAgree, Schedule, Records;
    SettledWellFormed(k);
    SettleKeepsPages(k);
    if Settle(k).Some? { ScheduleKeeps(Settle(k).value); }
  }

  /** A step that blocks nobody and leaves blocked records alone opens no rendezvous. */
  lemma MatchFrame(k: Kernel, k': Kernel)
    requires |k.procs| == |k'.procs| == 16 && forall s, d :: !Match(k, s, d)
    requires forall i :: 0 < i < 16 && k'.procs[i].status == Pending ==> k'.procs[i] == k.procs[i]
    ensures forall s, d :: !Match(k', s, d)
  {
    forall s, d ensures !Match(k', s, d) { assert !Match(k, s, d); }
  }

  /** The steps that do not yield. */
  lemma QuietStepKeeps(k: Kernel, e: Event)
    requires Quiescent(k) && Allowed(k, e) && !e.Timer? && !e.Trap?
    ensures Step(k, e).Some? && Quiescent(Step(k, e).value)
  {
    hide Match, Step, Allowed, Records, PagesAgree, WellFormed;
    QuietTable(k, e);
    QuietPages(k, e);
    MatchFrame(k, Step(k, e).value);
  }

  lemma QuietTable(k: Kernel, e: Event)
    requires Quiescent(k) && Allowed(k, e) && !e.Timer? && !e.Trap?
    ensures Step(k, e).Some?
    ensures var k' := Step(k, e).value;
      && |k'.procs| == 16 && Records(k')
      && (forall i :: 0 < i < 16 ==> (k'.procs[i].status == Running <==> i == k'.curr))
      && (forall i :: 0 < i < 16 && k'.procs[i].status == Pending ==> k'.procs[i] == k.procs[i])
  {
    hide Match, PagesAgree, Decode;
  }

  lemma QuietPages(k: Kernel, e: Event)
    requires Quiescent(k) && Allowed(k, e) && !e.Timer? && !e.Trap?
    ensures WellFormed(Step(k, e).value) && PagesAgree(Step(k, e).value)
  {
    hide Match, Records, Decode;
    var k' := Step(k, e).value;
    forall i | Blocked(k', i)
      ensures Blocked(k, i) && Arg(i) in k'.mem && k'.mem[Arg(i)] == k.mem[Arg(i)] && k'.procs[i] == k.procs[i]
    {
    }
  }

  /** After every step of every kind the system is quiescent again: exactly one process is RUNNING,
      it is the current one, and no rendezvous has been left undone. */
  lemma StepKeeps(k: Kernel, e: Event)
    requires Quiescent(k) && Allowed(k, e)
    ensures Step(k, e).Some? ==> Quiescent(Step(k, e).value)
  {
    hide WellFormed, Records, PagesAgree, Match, Allowed, Yield, Entered;
    if e.Timer? {
      EnteredTimer(k, e);
      NoneRunning(k, e);
      YieldKeeps(Entered(k, e));
    } else if e.Trap? {
      if KnownCall(k) {
        EnteredTrap(k, e);
        NoneRunning(k, e);
        YieldKeeps(Entered(k, e));
      }
    } else {
      QuietStepKeeps(k, e);
    }
  }

  lemma NoneRunning(k: Kernel, e: Event)
    requires Quiescent(k) && Allowed(k, e) && (e.Timer? || e.Trap?)
    ensures |Entered(k, e).procs| == 16
    ensures forall i :: 0 < i < 16 ==> Entered(k, e).procs[i].status != Running
  {
  }

  // ---------- removing processes at any time ----------

  /** proc_free of one pid: its pages and its slot are given back. */
  ghost function Freed(k: Kernel, pid: int): Kernel {
    k.(procs := SetStatus(k.procs, pid, Unused), mem := map x | x in k.mem && x.pid != pid :: k.mem[x])
  }

  /** One of the first n slots holds the user process pid. */
  predicate UserSlot(procs: seq<Process>, n: nat, pid: int)
    requires n <= |procs|
  {
    pid >= GPID_USER_START && exists i :: 0 <= i < n && procs[i].pid == pid && procs[i].status != Unused
  }

  function Killed(p: Process): Process {
    if p.pid >= GPID_USER_START then p.(status := Unused) else p
  }

  /** proc_free of GPID_ALL, after the first n slots. */
  ghost function FreedUsers(k: Kernel, n: nat): Kernel
    requires n <= |k.procs|
  {
    k.(procs := seq(|k.procs|, i requires 0 <= i < |k.procs| => if i < n then Killed(k.procs[i]) else k.procs[i]),
       mem := map x | x in k.mem && !UserSlot(k.procs, n, x.pid) :: k.mem[x])
  }

  lemma FreedSlots(k: Kernel, pid: nat)
    requires WellFormed(k) && 0 < pid < 16 && pid != k.curr && k.procs[pid].status != Unused
    ensures |Freed(k, pid).procs| == 16 && Freed(k, pid).curr == k.curr
    ensures forall i :: 0 < i < 16 ==>
      Freed(k, pid).procs[i] == if i == pid then k.procs[i].(status := Unused) else k.procs[i]
  {
  }

  lemma FreedPages(k: Kernel, pid: nat)
    requires Settled(k) && 0 < pid < 16 && pid != k.curr && k.procs[pid].status != Unused
    ensures WellFormed(Freed(k, pid)) && PagesAgree(Freed(k, pid))
  {
    hide OpenCalls, Match, Decode;
    var k' := Freed(k, pid);
    forall i | Blocked(k', i)
      ensures Blocked(k, i) && Arg(i) in k'.mem && k'.mem[Arg(i)] == k.mem[Arg(i)] && k'.procs[i] == k.procs[i]
    {
    }
  }

  /** Removing another process, in whatever state it is, keeps the system settled. */
  lemma FreeKeepsSettled(k: Kernel, pid: nat)
    requires Settled(k) && 0 < pid < 16 && pid != k.curr && k.procs[pid].status != Unused
    ensures Settled(Freed(k, pid))
  {
    hide PagesAgree, Match, Freed, WellFormed;
    FreedSlots(k, pid);
    FreedPages(k, pid);
    MatchFrame(k, Freed(k, pid));
  }

  lemma FreedUsersPages(k: Kernel)
    requires Settled(k) && k.curr < GPID_USER_START
    ensures WellFormed(FreedUsers(k, 16)) && PagesAgree(FreedUsers(k, 16))
  {
    hide OpenCalls, Match, Decode;
    var k' := FreedUsers(k, 16);
    forall i | 0 < i < 16 && k'.procs[i].status != Unused
      ensures k'.procs[i] == k.procs[i] && i < GPID_USER_START
      ensures Arg(i) in k.mem ==> Arg(i) in k'.mem && k'.mem[Arg(i)] == k.mem[Arg(i)]
    {
    }
  }

  /** Removing all user processes, in whatever state they are, leaves the system processes and their
      pages alone and keeps the system settled. */
  lemma FreeAllKeepsSettled(k: Kernel)
    requires Settled(k) && k.curr < GPID_USER_START
    ensures var k' := FreedUsers(k, 16);
      && Settled(k')
      && (forall i :: GPID_USER_START <= i < 16 ==> k'.procs[i].status == Unused)
      && (forall i :: 0 <= i < GPID_USER_START ==> k'.procs[i] == k.procs[i])
      && (forall x :: x in k.mem && x.pid < GPID_USER_START ==> x in k'.mem && k'.mem[x] == k.mem[x])
  {
    hide PagesAgree, Match;
    FreedUsersPages(k);
    MatchFrame(k, FreedUsers(k, 16));
  }

  // ---------- what a removed receiver leaves behind ----------

  /** The slot of pid is allocated and made ready again, with new pages. */
  ghost function Reused(k: Kernel, pid: nat, pages: Memory<Page>): Kernel
    requires |k.procs| == 16 && pid < 16
  {
    k.(procs := k.procs[pid := k.procs[pid].(pid := pid, status := Ready)], mem := k.mem + pages)
  }

  /** After a process is removed and its pid is used again, its slot holds a stale receive exactly if
      the process was blocked in one. */
  lemma ReuseKeepsRecord(k: Kernel, pid: nat, pages: Memory<Page>, s: int)
    requires Quiescent(k) && 0 < pid < 16 && pid != k.curr && k.procs[pid].status != Unused
    ensures |Reused(Freed(k, pid), pid, pages).procs| == 16
    ensures StaleReceive(Reused(Freed(k, pid), pid, pages), pid, s) <==> Receiving(k, pid, s)
  {
    hide PagesAgree, Match, WellFormed;
    FreedSlots(k, pid);
  }

  /** The current process makes a system call. */
  ghost function Trapped(k: Kernel, ctx: Context): Kernel
    requires |k.procs| == 16 && k.curr < 16 && Arg(k.curr) in k.mem
  {
    Record(SaveContext(k, ctx))
  }

  /** A send, by the current process s, to a live process d that is not blocked: nobody receives it, and
      s stays blocked however often the call is tried.  Its page is nevertheless marked DONE, and the
      message put into the record of d, exactly if d's slot holds a stale receive. */
  lemma SendToReusedPid(k: Kernel, ctx: Context, d: nat)
    requires Settled(k) && |ctx.regs| == 32 && Live(k, d) && !Blocked(k, d) && d != k.curr
    requires Decode(k.mem[Arg(k.curr)]).kind == SYS_SEND && Decode(k.mem[Arg(k.curr)]).receiver == d
    requires Decode(k.mem[Arg(k.curr)]).status == PENDING
    ensures var k1 := Trapped(k, ctx);
      && TrySyscall(k1, k.curr).Some?
      && var k2 := TrySyscall(k1, k.curr).value;
         && |k2.procs| == 16 && Blocked(k2, k.curr) && !Blocked(k2, d) && k2.mem.Keys == k.mem.Keys
         && (Decode(k2.mem[Arg(k.curr)]).status == DONE <==> StaleReceive(k, d, k.curr))
         && (k2 == k1 <==> !StaleReceive(k, d, k.curr))
         && (forall x :: x in k.mem && x != Arg(k.curr) ==> k2.mem[x] == k.mem[x])
         && TrySyscall(k2, k.curr) == Some(k2)
  {
    hide PagesAgree, Match;
    var s := k.curr;
    var k1 := Trapped(k, ctx);
    DecodeWithStatus(k1.mem[Arg(s)], DONE);
    assert k1.procs[d] == k.procs[d] && k1.procs[s].pid == s;
    var k2 := TrySyscall(k1, s).value;
    assert StaleReceive(k, d, s) ==> k2 == Half(k1, s, d);
    assert !StaleReceive(k, d, s) ==> k2 == k1;
  }
}
