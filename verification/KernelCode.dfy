/**
 The kernel code: a process table changed in place, user pages reached through the software TLB,
 and the entry points for timer interrupts and system calls.  Every method is proved to do what
 the functions of KernelSteps say.
 */
module KernelCode {
  import opened Egos
  import opened Processes
  import opened Rendezvous
  import opened KernelSteps
  import KernelRuns
  import KernelEffects
  import PrivateMemory
  import SoftTlb

  datatype Cause = TimerInterrupt(tty: Option<int>) | SoftInterrupt | OtherCause

  /** What trying the current call right after the trap leaves for the pass that follows. */
  lemma TrapTry(k: Kernel)
    requires WellFormed(k) && Records(k) && OthersSettled(k, k.curr) && Blocked(k, k.curr)
    ensures TrySyscall(k, k.curr) == None <==> OrphanAt(k, k.curr)
    ensures TrySyscall(k, k.curr).Some? ==> PassState(k, k.curr, 0, TrySyscall(k, k.curr).value)
  {
    var c := k.curr;
    PairIsOnlyMatch(k, c);
    assert Visit(k, c) == TrySyscall(k, c);
    match Pair(k, c)
    case None => VisitUnmatched(k, c);
    case Some((s, d)) => if s == c { VisitMatched(k, c, d); }
  }

  lemma BlockedFacts(k: Kernel, x: nat)
    requires WellFormed(k) && 0 < x < 16 && k.procs[x].status == Pending
    ensures k.procs[x].pid == x && |k.procs[x].syscall.content| == 256 && Arg(x) in k.mem
  {
  }

  lemma OrphanIsFatal(k: Kernel)
    requires WellFormed(k) && exists x :: OrphanAt(k, x)
    ensures Settle(k) == None
  {
  }

  lemma LiveFacts(k: Kernel, x: nat)
    requires WellFormed(k) && 0 < x < 16 && k.procs[x].status != Unused
    ensures k.procs[x].pid == x && |k.procs[x].regs| == 32
  {
  }

  ghost function BlockedSet(k: Kernel): set<nat>
    requires |k.procs| == 16
  {
    set i: nat | i < 16 && Blocked(k, i)
  }

  /** Where a pass has ended: nothing was left to do, or the pair was delivered and nothing is
      left to do now; fewer processes are blocked after a delivery. */
  lemma PassEnd(k: Kernel, st: Kernel)
    requires WellFormed(k) && Records(k) && OthersSettled(k, k.curr) && PassState(k, k.curr, 16, st)
    ensures WellFormed(st) && Records(st) && OthersSettled(st, st.curr) && st.curr == k.curr
    ensures Pair(st, st.curr) == None && PassState(st, st.curr, 0, st)
    ensures (forall x :: !OrphanAt(k, x)) ==> Settle(k) == Some(st) && (forall x :: !OrphanAt(st, x))
    ensures (exists x :: OrphanAt(st, x)) ==> Settle(k) == None
    ensures Pair(k, k.curr) == None ==> st == k
    ensures Pair(k, k.curr) != None ==> BlockedSet(st) < BlockedSet(k)
  {
    PairIsOnlyMatch(k, k.curr);
    match Pair(k, k.curr)
    case None =>
    case Some((s, d)) =>
      DeliverCloses(k, s, d);
      DeliverUnblocks(k, s, d);
      PairIsOnlyMatch(st, st.curr);
      assert s in BlockedSet(k) && s !in BlockedSet(st);
  }

  /** Slot x is the receiver of the rendezvous that a pass over k completes. */
  ghost predicate Completes(k: Kernel, x: nat)
    requires |k.procs| == 16 && k.curr < 16
  {
    Pair(k, k.curr).Some? && x == Pair(k, k.curr).value.1
  }

  /** The sixteen steps of a pass visit every slot. */
  lemma PassVisitsAll(k: Kernel)
    requires WellFormed(k) && Records(k) && OthersSettled(k, k.curr)
    ensures (forall j :: 1 <= j < 17 ==> !OrphanAt(k, Slot(k.curr, j))) ==> forall x :: !OrphanAt(k, x)
    ensures Pair(k, k.curr).Some? <==> exists j :: 1 <= j < 17 && Completes(k, Slot(k.curr, j))
  {
    PairIsOnlyMatch(k, k.curr);
    forall x | OrphanAt(k, x)
      ensures exists j :: 1 <= j < 17 && OrphanAt(k, Slot(k.curr, j))
    {
      assert Slot(k.curr, Position(k.curr, x)) == x;
    }
    if Pair(k, k.curr).Some? {
      assert Completes(k, Slot(k.curr, Position(k.curr, Pair(k, k.curr).value.1)));
    }
  }

  lemma SetStatusResumes(k: Kernel, n: nat, procs: seq<Process>)
    requires WellFormed(k) && 0 < n < 16 && k.procs[n].pid == n && |k.procs[n].regs| == 32
    requires procs == k.procs[n := if k.procs[n].status == Ready
      then k.procs[n].(regs := k.procs[n].regs[0 := APPS_ARG][1 := APPS_ARG + 4], mepc := APPS_ENTRY)
      else k.procs[n]]
    ensures SetStatus(procs, n, Running) == Resume(k, n).procs
  {
  }

  /** Setting the status of a live pid changes its own slot. */
  lemma SetStatusOfLive(k: Kernel, x: nat, procs: seq<Process>, status: Status)
    requires WellFormed(k) && 0 < x < 16 && k.procs[x].pid == x
    requires |procs| == 16 && procs[x].pid == x && forall i :: 0 <= i < 16 && i != x ==> procs[i] == k.procs[i]
    ensures SetStatus(procs, x, status) == k.procs[x := procs[x].(status := status)]
  {
  }

  lemma NextSlotStep(k: Kernel, i: nat)
    requires |k.procs| == 16 && k.curr < 16 && 1 <= i
    ensures i > 16 ==> NextSlot(k, i) == None
    ensures i <= 16 && Eligible(k, Slot(k.curr, i)) ==> NextSlot(k, i) == Some(Slot(k.curr, i))
    ensures i <= 16 && !Eligible(k, Slot(k.curr, i)) ==> NextSlot(k, i) == NextSlot(k, i + 1)
  {
    hide Eligible, Position, Slot;
  }

  lemma NextIsLive(k: Kernel, n: nat)
    requires WellFormed(k) && NextSlot(k, 1) == Some(n)
    ensures 0 < n < 16 && k.procs[n].status != Unused
  {
    hide NextSlot, Position;
  }

  lemma RunningFacts(k: Kernel)
    requires Quiescent(k)
    ensures WellFormed(k) && k.procs[k.curr].status == Running && k.procs[k.curr].pid == k.curr && Arg(k.curr) in k.mem
  {
  }

  /** With no match open, a pass starts from the state itself. */
  lemma PassStarts(k: Kernel)
    requires WellFormed(k) && Records(k) && OthersSettled(k, k.curr) && (forall s, d :: !Match(k, s, d))
    ensures PassState(k, k.curr, 0, k)
  {
    PairIsOnlyMatch(k, k.curr);
  }

  lemma YieldFatal(k: Kernel)
    requires WellFormed(k) && Records(k) && OthersSettled(k, k.curr) && Settle(k) == None
    ensures Yield(k) == None
  {
  }

  /** What an entry leaves in the slot of the process that was interrupted. */
  lemma EntryContext(k: Kernel, e: Event, k': Kernel)
    requires Quiescent(k) && Allowed(k, e) && Step(k, e) == Some(k') && (e.Timer? || e.CtrlC? || e.Trap?)
    ensures |k'.procs| == 16 && 0 < k.curr < 16 && |k.procs| == 16
    ensures e.CtrlC? ==>
      && k'.curr == k.curr && k'.mem == k.mem
      && Context(k'.procs[k.curr].mepc, k'.procs[k.curr].regs) == Context(0x8020000C, e.ctx.regs)
      && forall i :: 0 <= i < 16 && i != k.curr ==> k'.procs[i] == k.procs[i]
    ensures !e.CtrlC? ==>
      && k'.procs[k.curr].regs == e.ctx.regs
      && k'.procs[k.curr].mepc == if e.Trap? then (e.ctx.mepc + 4) % 0x1_0000_0000 else e.ctx.mepc
  {
    hide Step, Allowed, Records, PagesAgree, Match;
    if e.CtrlC? {
      KernelEffects.CtrlCResets(k, e.ctx);
    } else {
      KernelRuns.InterruptSaves(k, e, k');
    }
  }

  /** The step that a cause amounts to. */
  function EventOf(curr: nat, cause: Cause, ctx: Context): Event
    requires !cause.OtherCause?
  {
    match cause
    case TimerInterrupt(tty) => if curr >= GPID_USER_START && tty == Some(3) then CtrlC(ctx) else Timer(ctx)
    case SoftInterrupt => Trap(ctx)
  }

  class Machine {
    const procs: array<Process>
    var curr: nat
    const tlb: SoftTlb.Mmu<Page>

    ghost predicate Sound()
      reads this, procs, tlb, tlb.table, tlb.frames, tlb.region
    {
      && procs.Length == 16
      && tlb.Distinct()
      && procs as object != tlb.table && procs as object != tlb.frames && procs as object != tlb.region
      && PrivateMemory.Valid(tlb.Value())
    }

    /** The kernel state that the machine represents; memory is seen process by process. */
    ghost function Value(): Kernel
      requires Sound()
      reads this, procs, tlb, tlb.table, tlb.frames, tlb.region
    {
      Kernel(procs[..], curr, PrivateMemory.View(tlb.Value()))
    }

    constructor (procs: array<Process>, curr: nat, tlb: SoftTlb.Mmu<Page>)
      ensures this.procs == procs && this.curr == curr && this.tlb == tlb
    {
      this.procs, this.curr, this.tlb := procs, curr, tlb;
    }

    /** proc_set_status. */
    method ProcSetStatus(pid: int, status: Status)
      requires Sound()
      modifies procs
      ensures Sound() && Value() == old(Value()).(procs := SetStatus(old(procs[..]), pid, status))
    {
      ghost var before := procs[..];
      var i := 0;
      while i < 16
        invariant 0 <= i <= 16 && Sound()
        invariant tlb.Value() == old(tlb.Value())
        invariant forall j :: 0 <= j < i ==> procs[j] == SetStatus(before, pid, status)[j]
        invariant forall j :: i <= j < 16 ==> procs[j] == before[j]
      {
        if procs[i].pid == pid {
          procs[i] := procs[i].(status := status);
        }
        i := i + 1;
      }
      assert procs[..] == SetStatus(before, pid, status);
    }

    /** Reads the system call page of a process, through its address space. */
    method ReadPage(pid: int) returns (page: Page)
      requires Sound() && pid > 0 && Arg(pid) in Value().mem
      modifies tlb`resident, tlb.frames, tlb.region
      ensures Sound() && Value() == old(Value()) && tlb.resident == pid
      ensures page == Value().mem[Arg(pid)]
    {
      var v := tlb.Translate(pid, SYSCALL_PAGE);
      page := tlb.LoadPage(v);
    }

    /** Writes the system call page of a process, through its address space. */
    method WritePage(pid: int, page: Page)
      requires Sound() && pid > 0 && Arg(pid) in Value().mem
      modifies tlb`resident, tlb.frames, tlb.region
      ensures Sound() && Value() == old(Value()).(mem := old(Value().mem)[Arg(pid) := page]) && tlb.resident == pid
    {
      var v := tlb.Translate(pid, SYSCALL_PAGE);
      tlb.StorePage(v, page);
    }

    /** proc_try_send. */
    method ProcTrySend(x: nat) returns (fatal: bool)
      requires Sound() && WellFormed(Value()) && 0 < x < 16 && procs[x].status == Pending
      modifies procs, tlb`resident, tlb.frames, tlb.region
      ensures Sound()
      ensures fatal <==> TrySend(old(Value()), x) == None
      ensures !fatal ==> Some(Value()) == TrySend(old(Value()), x)
    {
      ghost var k := Value();
      assert k.procs[x] == procs[x] && k.procs[x].pid == x;
      var sender := procs[x];
      var i := 0;
      while i < 16
        invariant 0 <= i <= 16
        invariant forall j :: 0 <= j < i ==> k.procs[j].pid != sender.syscall.receiver || k.procs[j].status == Unused
      {
        assert k.procs[i] == procs[i];
        var dst := procs[i];
        if dst.pid == sender.syscall.receiver && dst.status != Unused {
          assert i == sender.syscall.receiver;
          if !(dst.syscall.kind == SYS_RECV && dst.syscall.status == PENDING) { return false; }
          if !(dst.syscall.sender == GPID_ALL || dst.syscall.sender == sender.pid) { return false; }
          procs[i] := dst.(syscall := dst.syscall.(status := DONE, sender := sender.pid,
              content := sender.syscall.content));
          assert procs[..] == Half(k, x, i).procs;
          var page := ReadPage(sender.pid);
          WritePage(sender.pid, WithStatus(page, DONE));
          return false;
        }
        i := i + 1;
      }
      fatal := true;
    }

    /** proc_try_recv. */
    method ProcTryRecv(x: nat)
      requires Sound() && WellFormed(Value()) && 0 < x < 16 && procs[x].status == Pending
      modifies procs, tlb`resident, tlb.frames, tlb.region
      ensures Sound() && Value() == TryRecv(old(Value()), x)
    {
      hide Encode, WithStatus, SetStatus, WellFormed, PrivateMemory.Valid, PrivateMemory.View;
      ghost var k := Value();
      BlockedFacts(k, x);
      assert k.procs[x] == procs[x];
      var sc := procs[x].syscall;
      var pid := procs[x].pid;
      if sc.status == PENDING { return; }
      var page := ReadPage(pid);
      var filled := Encode(page, sc);
      WritePage(pid, filled);
      ProcSetStatus(pid, Runnable);
      ProcSetStatus(sc.sender, Runnable);
      page := ReadPage(pid);
      WritePage(pid, WithStatus(page, DONE));
    }

    /** proc_try_syscall. */
    method ProcTrySyscall(x: nat) returns (fatal: bool)
      requires Sound() && WellFormed(Value()) && 0 < x < 16 && procs[x].status == Pending
      modifies procs, tlb`resident, tlb.frames, tlb.region
      ensures Sound()
      ensures Value().curr == old(curr)
      ensures fatal <==> TrySyscall(old(Value()), x) == None
      ensures !fatal ==> Some(Value()) == TrySyscall(old(Value()), x)
    {
      ghost var k := Value();
      assert k.procs[x] == procs[x];
      if procs[x].syscall.kind == SYS_RECV {
        ProcTryRecv(x);
        fatal := false;
      } else if procs[x].syscall.kind == SYS_SEND {
        fatal := ProcTrySend(x);
      } else {
        fatal := true;
      }
    }

    /** clear_pending_syscalls: passes over the table until one makes no progress.  k is the state
        before the current call was tried for the first time. */
    method ClearPending(ghost k: Kernel) returns (fatal: bool)
      requires Sound() && WellFormed(k) && Records(k) && OthersSettled(k, k.curr)
      requires curr == k.curr && PassState(k, k.curr, 0, Value())
      modifies procs, tlb`resident, tlb.frames, tlb.region
      ensures Sound()
      ensures fatal <==> Settle(k) == None
      ensures !fatal ==> Some(Value()) == Settle(k)
    {
      hide WellFormed, Records, OthersSettled, PassState, Settle, Pair, BlockedSet, OrphanAt, Sound, Value;
      ghost var base := k;
      while true
        invariant Sound() && curr == k.curr == base.curr
        invariant WellFormed(base) && Records(base) && OthersSettled(base, base.curr)
        invariant PassState(base, base.curr, 0, Value())
        invariant base == k ||
          (Settle(k) == Some(base) && Pair(base, base.curr) == None && forall x :: !OrphanAt(base, x))
        decreases BlockedSet(base)
      {
        var progress;
        fatal, progress := Pass(base);
        if fatal {
          OrphanIsFatal(base);
          return;
        }
        ghost var after := Value();
        PassEnd(base, after);
        base := after;
        if progress == 0 { break; }
      }
    }

    /** One pass over the table, starting after the current slot. */
    method Pass(ghost k: Kernel) returns (fatal: bool, progress: nat)
      requires Sound() && WellFormed(k) && Records(k) && OthersSettled(k, k.curr)
      requires curr == k.curr && PassState(k, k.curr, 0, Value())
      modifies procs, tlb`resident, tlb.frames, tlb.region
      ensures Sound() && curr == old(curr)
      ensures fatal <==> exists x :: OrphanAt(k, x)
      ensures !fatal ==> PassState(k, k.curr, 16, Value())
      ensures !fatal ==> (progress > 0 <==> Pair(k, k.curr).Some?)
    {
      hide WellFormed, Records, OthersSettled, PassState, Pair, OrphanAt, TrySyscall, PrivateMemory.Valid,
          PrivateMemory.View;
      PassVisitsAll(k);
      fatal, progress := false, 0;
      var i := 1;
      while i <= 16
        invariant 1 <= i <= 17 && Sound() && curr == k.curr && !fatal
        invariant PassState(k, k.curr, i - 1, Value())
        invariant forall j :: 1 <= j < i ==> !OrphanAt(k, Slot(k.curr, j))
        invariant progress > 0 <==> exists j :: 1 <= j < i && Completes(k, Slot(k.curr, j))
      {
        ghost var st := Value();
        PassStep(k, k.curr, i, st);
        var x := (curr + i) % 16;
        assert st.procs[x] == procs[x] && x == Slot(k.curr, i);
        if procs[x].status == Pending {
          fatal := ProcTrySyscall(x);
          if fatal { return; }
          assert Value().procs[x] == procs[x];
          if procs[x].syscall.status == DONE { progress := progress + 1; }
        }
        i := i + 1;
      }
    }

    /** round_robin; 16 when no process can run. */
    method RoundRobin() returns (next: nat)
      requires Sound() && curr < 16
      ensures next <= 16
      ensures NextSlot(Value(), 1) == if next < 16 then Some(next) else None
      ensures next < 16 ==> procs[next].status == Ready || procs[next].status == Runnable
      ensures forall j :: 1 <= j <= 16 && (next == 16 || j < Position(curr, next)) ==>
        procs[Slot(curr, j)].status != Ready && procs[Slot(curr, j)].status != Runnable
    {
      hide NextSlot, Position, PrivateMemory.Valid, PrivateMemory.View;
      ghost var k := Value();
      next := 16;
      var i := 1;
      while i <= 16
        invariant 1 <= i <= 17 && next == 16
        invariant NextSlot(k, 1) == NextSlot(k, i)
        invariant forall j :: 1 <= j < i ==>
          procs[Slot(curr, j)].status != Ready && procs[Slot(curr, j)].status != Runnable
      {
        NextSlotStep(k, i);
        var x := (curr + i) % 16;
        assert k.procs[x] == procs[x] && x == Slot(k.curr, i);
        if procs[x].status == Ready || procs[x].status == Runnable {
          next := x;
          assert Position(curr, next) == i;
          break;
        }
        i := i + 1;
      }
      NextSlotStep(k, i);
    }

    /** The second half of proc_yield: choose a process, make its address space resident, start it
        afresh if it is new, and mark it RUNNING. */
    method SwitchTo(next: nat)
      requires Sound() && WellFormed(Value()) && 0 < next < 16 && procs[next].status != Unused
      modifies `curr, procs, tlb`resident, tlb.frames, tlb.region
      ensures Sound() && Value() == Resume(old(Value()), next) && tlb.resident == next == curr
    {
      hide WellFormed, SetStatus, PrivateMemory.Valid, PrivateMemory.View;
      ghost var k := Value();
      LiveFacts(k, next);
      assert k.procs[next] == procs[next];
      curr := next;
      tlb.Switch(procs[curr].pid);
      if procs[curr].status == Ready {
        procs[curr] := procs[curr].(regs := procs[curr].regs[0 := APPS_ARG][1 := APPS_ARG + 4], mepc := APPS_ENTRY);
      }
      SetStatusResumes(k, next, procs[..]);
      ProcSetStatus(procs[curr].pid, Running);
    }

    /** proc_yield, after the status of the current process was dealt with. */
    method ProcYield(ghost k: Kernel) returns (fatal: bool)
      requires Sound() && WellFormed(k) && Records(k) && OthersSettled(k, k.curr)
      requires curr == k.curr && PassState(k, k.curr, 0, Value())
      modifies `curr, procs, tlb`resident, tlb.frames, tlb.region
      ensures Sound()
      ensures fatal <==> Yield(k) == None
      ensures !fatal ==> Some(Value()) == Yield(k) && tlb.resident == curr && 0 < curr < 16
    {
      hide WellFormed, Records, OthersSettled, PassState, Settle, NextSlot, Resume, PrivateMemory.Valid,
          PrivateMemory.View;
      SettledWellFormed(k);
      fatal := ClearPending(k);
      if fatal { return; }
      var next := RoundRobin();
      if next == 16 { return true; }
      NextIsLive(Value(), next);
      SwitchTo(next);
    }

    /** kernel_entry: saves the context of the interrupted process, handles the interrupt, and
        returns the context to resume. */
    method KernelEntry(cause: Cause, ctx: Context) returns (fatal: bool, resumed: Context)
      requires Sound() && Quiescent(Value()) && tlb.resident == curr && |ctx.regs| == 32
      modifies `curr, procs, tlb`resident, tlb.frames, tlb.region
      ensures Sound()
      ensures cause.OtherCause? ==> fatal
      ensures !cause.OtherCause? ==>
        && Allowed(old(Value()), EventOf(old(curr), cause, ctx))
        && (fatal <==> Step(old(Value()), EventOf(old(curr), cause, ctx)) == None)
        && (!fatal ==> Some(Value()) == Step(old(Value()), EventOf(old(curr), cause, ctx)))
      ensures !fatal ==> Quiescent(Value()) && tlb.resident == curr && 0 < curr < 16
      ensures !fatal ==> resumed == Context(procs[curr].mepc, procs[curr].regs)
      ensures old(curr) >= 5 && cause == TimerInterrupt(Some(3)) ==>
        && !fatal && curr == old(curr) && resumed == Context(0x8020000C, ctx.regs)
        && Value().mem == old(Value().mem)
        && forall i :: 0 <= i < 16 && i != curr ==> procs[i] == old(procs[..])[i]
      ensures !fatal && !(old(curr) >= 5 && cause == TimerInterrupt(Some(3))) ==>
        && procs[old(curr)].regs == ctx.regs
        && procs[old(curr)].mepc == if cause.SoftInterrupt? then (ctx.mepc + 4) % 0x1_0000_0000 else ctx.mepc
    {
      hide WellFormed, Records, OthersSettled, PassState, Yield, TrySyscall, PagesAgree, Match,
          PrivateMemory.Valid, PrivateMemory.View;
      ghost var k := Value();
      RunningFacts(k);
      assert k.procs[curr] == procs[curr];
      procs[curr] := procs[curr].(mepc := ctx.mepc, regs := ctx.regs);
      assert Value() == SaveContext(k, ctx);
      resumed := ctx;
      if cause.OtherCause? { return true, resumed; }
      ghost var e := EventOf(k.curr, cause, ctx);
      StepKeeps(k, e);
      match cause {
      case TimerInterrupt(tty) =>
        if procs[curr].pid >= GPID_USER_START && tty == Some(3) {
          procs[curr] := procs[curr].(mepc := APPS_ENTRY + 0xC);
          assert Value() == SaveContext(k, ctx.(mepc := APPS_ENTRY + 0xC));
          fatal := false;
        } else {
          EnteredTimer(k, e);
          assert procs[curr].status == Running;
          SetStatusOfLive(k, curr, procs[..], Runnable);
          if procs[curr].status == Running {
            ProcSetStatus(procs[curr].pid, Runnable);
          }
          assert Value() == Entered(k, e);
          PassStarts(Value());
          fatal := ProcYield(Entered(k, e));
        }
      case SoftInterrupt =>
        fatal := Syscall(k, e);
      }
      if !fatal {
        resumed := Context(procs[curr].mepc, procs[curr].regs);
        EntryContext(k, e, Value());
      }
    }

    /** The soft-interrupt branch of intr_entry. */
    method Syscall(ghost k: Kernel, ghost e: Event) returns (fatal: bool)
      requires Sound() && Quiescent(k) && Allowed(k, e) && e.Trap?
      requires Value() == SaveContext(k, e.ctx)
      modifies `curr, procs, tlb`resident, tlb.frames, tlb.region
      ensures Sound()
      ensures fatal <==> Step(k, e) == None
      ensures !fatal ==> Some(Value()) == Step(k, e) && tlb.resident == curr && 0 < curr < 16
    {
      hide WellFormed, Records, OthersSettled, PassState, Yield, TrySyscall, PagesAgree, Match,
          PrivateMemory.Valid, PrivateMemory.View;
      RunningFacts(k);
      assert Value().procs[curr] == procs[curr];
      var page := ReadPage(procs[curr].pid);
      var record := Decode(page).(status := PENDING);
      procs[curr] := procs[curr].(syscall := record);
      SetStatusOfLive(k, curr, procs[..], Pending);
      ProcSetStatus(procs[curr].pid, Pending);
      procs[curr] := procs[curr].(mepc := (procs[curr].mepc + 4) % WORD_LIMIT);
      assert Value() == Entered(k, e);
      if record.kind != SYS_SEND && record.kind != SYS_RECV { return true; }
      EnteredTrap(k, e);
      ghost var k1 := Value();
      TrapTry(k1);
      fatal := ProcTrySyscall(curr);
      if fatal {
        OrphanIsFatal(k1);
        YieldFatal(k1);
        return;
      }
      fatal := ProcYield(k1);
    }

    /** proc_alloc over the slots 1..15: the lowest unused pid. */
    method ProcAlloc() returns (fatal: bool, pid: nat)
      requires Sound() && Quiescent(Value()) && curr == GPID_PROCESS
      modifies procs
      ensures Sound()
      ensures fatal <==> forall i :: 1 <= i < 16 ==> old(procs[..])[i].status != Unused
      ensures !fatal ==> Allowed(old(Value()), Alloc(pid)) && Some(Value()) == Step(old(Value()), Alloc(pid))
      ensures !fatal ==> forall j :: 1 <= j < pid ==> old(procs[..])[j].status != Unused
      ensures !fatal ==> 0 < pid < 16 && procs[pid].status == Loading && procs[pid].pid == pid
      ensures forall i :: 0 <= i < 16 && (fatal || i != pid) ==> procs[i] == old(procs[..])[i]
    {
      hide Records, PagesAgree, Match, PrivateMemory.Valid, PrivateMemory.View;
      ghost var k := Value();
      pid := 1;
      while pid < 16
        invariant 1 <= pid <= 16
        invariant forall j :: 1 <= j < pid ==> k.procs[j].status != Unused
      {
        assert k.procs[pid] == procs[pid];
        if procs[pid].status == Unused {
          procs[pid] := procs[pid].(pid := pid, status := Loading);
          assert procs[..] == k.procs[pid := k.procs[pid].(pid := pid, status := Loading)];
          return false, pid;
        }
        pid := pid + 1;
      }
      fatal := true;
    }

    /** proc_free of one pid, or of all user processes for GPID_ALL. */
    method ProcFree(pid: int)
      requires Sound() && (pid == GPID_ALL || pid > 0)
      modifies procs, tlb.table
      ensures Sound()
      ensures Value() == if pid == GPID_ALL then FreedUsers(old(Value()), 16) else Freed(old(Value()), pid)
    {
      hide PrivateMemory.Valid, PrivateMemory.View;
      ghost var k := Value();
      if pid != GPID_ALL {
        tlb.Free(pid);
        ProcSetStatus(pid, Unused);
      } else {
        NoneFreed(k);
        var i := 0;
        while i < 16
          invariant 0 <= i <= 16 && Sound() && Value() == FreedUsers(k, i)
        {
          FreedNext(k, i);
          assert Value().procs[i] == procs[i];
          if procs[i].pid >= GPID_USER_START && procs[i].status != Unused {
            tlb.Free(procs[i].pid);
            procs[i] := procs[i].(status := Unused);
          }
          assert Value() == FreedUsers(k, i + 1);
          i := i + 1;
        }
      }
    }

    /** The same for a process that has exited, as a step of the system. */
    method FreeExited(pid: nat)
      requires Sound() && Quiescent(Value()) && Allowed(Value(), Exit(pid))
      modifies procs, tlb.table
      ensures Sound() && Some(Value()) == Step(old(Value()), Exit(pid)) && Quiescent(Value())
    {
      hide PrivateMemory.Valid, PrivateMemory.View;
      ghost var k := Value();
      StepKeeps(k, Exit(pid));
      FreedIsExit(k, pid);
      ProcFree(pid);
    }
  }

  lemma FreedIsExit(k: Kernel, pid: nat)
    requires Quiescent(k) && Allowed(k, Exit(pid))
    ensures Step(k, Exit(pid)) == Some(Freed(k, pid))
  {
    hide Records, PagesAgree, Match;
    assert SetStatus(k.procs, pid, Unused) == k.procs[pid := k.procs[pid].(status := Unused)];
  }

  lemma NoneFreed(k: Kernel)
    requires |k.procs| == 16
    ensures FreedUsers(k, 0) == k
  {
    assert FreedUsers(k, 0).procs == k.procs;
    assert FreedUsers(k, 0).mem == k.mem;
  }

  /** One round of the freeing loop. */
  lemma FreedNext(k: Kernel, i: nat)
    requires i < |k.procs| == 16
    ensures var k', p := FreedUsers(k, i), k.procs[i];
      && k'.procs[i] == p
      && FreedUsers(k, i + 1) == (if p.pid >= GPID_USER_START && p.status != Unused
           then k'.(procs := k'.procs[i := p.(status := Unused)],
                    mem := map x | x in k'.mem && x.pid != p.pid :: k'.mem[x])
           else k')
  {
    var k', k2, p := FreedUsers(k, i), FreedUsers(k, i + 1), k.procs[i];
    forall pid
      ensures UserSlot(k.procs, i + 1, pid) <==>
        UserSlot(k.procs, i, pid) || (pid == p.pid && pid >= GPID_USER_START && p.status != Unused)
    {
    }
    if p.pid >= GPID_USER_START && p.status != Unused {
      assert k2.procs == k'.procs[i := p.(status := Unused)];
      assert k2.mem == map x | x in k'.mem && x.pid != p.pid :: k'.mem[x];
    } else {
      assert k2.procs == k'.procs;
      assert k2.mem == k'.mem;
    }
  }
}
