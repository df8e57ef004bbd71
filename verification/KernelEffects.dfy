/**
 What the steps of the kernel do to a process, said in terms of statuses, system call pages, addresses
 and program counters, and not of the functions that define the steps.
 */
module KernelEffects {
  import opened Egos
  import opened Processes
  import opened Rendezvous
  import opened KernelSteps
  import opened KernelRuns
  import PrivateMemory

  // ---------- choosing a process ----------

  /** Whenever a process is READY or RUNNABLE one is chosen, and none is passed over: the chosen slot
      is READY or RUNNABLE itself and comes no later in cyclic order than any other such slot. */
  lemma NextSlotFirst(k: Kernel, n: nat)
    requires WellFormed(k) && 0 < n < 16 && (k.procs[n].status == Ready || k.procs[n].status == Runnable)
    ensures NextSlot(k, 1).Some?
    ensures var c := NextSlot(k, 1).value;
      && (k.procs[c].status == Ready || k.procs[c].status == Runnable)
      && Ahead(k.curr, c) <= Ahead(k.curr, n)
  {
    assert Slot(k.curr, Position(k.curr, n)) == n;
    AheadIsPosition(k.curr, n);
    AheadIsPosition(k.curr, NextSlot(k, 1).value);
  }

  /** How many steps of the cyclic order slot x comes after slot c: 1 for the next one, 16 for c itself. */
  function Ahead(c: nat, x: nat): int { (x - c - 1) % 16 + 1 }

  lemma AheadIsPosition(c: nat, x: nat)
    requires c < 16 && x < 16
    ensures Ahead(c, x) == Position(c, x)
  {
  }

  lemma NextSlotNone(k: Kernel)
    requires WellFormed(k) && forall i :: 0 < i < 16 ==> k.procs[i].status != Ready && k.procs[i].status != Runnable
    ensures NextSlot(k, 1) == None
  {
    hide NextSlot, Position, Slot;
  }

  /** A step that yields runs some process whenever another one is READY or RUNNABLE. */
  lemma SomebodyRuns(k: Kernel, n: nat)
    requires WellFormed(k) && Records(k) && OthersSettled(k, k.curr) && (forall x :: !OrphanAt(k, x))
    requires 0 < n < 16 && (k.procs[n].status == Ready || k.procs[n].status == Runnable)
    ensures Yield(k).Some?
  {
    SettledWellFormed(k);
    SettleKeepsReady(k, n);
    NextSlotFirst(Settle(k).value, n);
  }

  lemma SettleKeepsReady(k: Kernel, n: nat)
    requires WellFormed(k) && Records(k) && OthersSettled(k, k.curr) && Settle(k).Some?
    requires 0 < n < 16 && k.procs[n].status != Pending
    ensures |Settle(k).value.procs| == 16 && Settle(k).value.procs[n] == k.procs[n]
  {
    hide NextSlot;
    PairIsOnlyMatch(k, k.curr);
    match Pair(k, k.curr)
    case None =>
    case Some((s, d)) => DeliverUnblocks(k, s, d);
  }

  // ---------- the first run of a process ----------

  /** The program counter and the two argument registers of a process that starts. */
  predicate AtEntry(c: Context) {
    |c.regs| == 32 && c.mepc == 0x80200000 && c.regs[0] == 0x80300000 && c.regs[1] == 0x80300004
  }

  /** A yield that chooses a READY process starts it at the application entry with its arguments; any
      other READY process stays READY. */
  lemma YieldStarts(k: Kernel, k': Kernel, x: nat)
    requires WellFormed(k) && Records(k) && OthersSettled(k, k.curr) && Yield(k) == Some(k')
    requires 0 < x < 16 && k.procs[x].status == Ready
    ensures |k'.procs| == 16
    ensures if k'.curr == x then AtEntry(ContextOf(k', x)) && k'.procs[x].status == Running
            else k'.procs[x].status == Ready
  {
    hide Records, Settle, Match, OthersSettled, NextSlot;
    SettledWellFormed(k);
    SettleKeepsReady(k, x);
  }

  lemma StepStarts(k: Kernel, e: Event, k': Kernel, x: nat)
    requires StepTo(k, e, k') && 0 < x < 16 && |k.procs| == 16 && k.procs[x].status == Ready
    ensures |k'.procs| == 16
    ensures if k'.curr == x then AtEntry(ContextOf(k', x)) && k'.procs[x].status == Running
            else k'.procs[x].status == Ready
  {
    if Yields(e) {
      hide Records, PagesAgree, Match, Yield;
      if e.Timer? { EnteredTimer(k, e); } else { EnteredTrap(k, e); }
      EntrySaves(k, e);
      YieldStarts(Entered(k, e), k', x);
    } else {
      hide Records, PagesAgree, Match;
    }
  }

  /** Over every run: a process that was loaded starts, when it is first chosen, at the application
      entry with the address of its argument page and of argv. */
  lemma {:induction false} FirstRun(ks: seq<Kernel>, es: seq<Event>, t: nat, n: nat, x: nat)
    requires Run(ks, es) && t < n <= |es| && es[t].Load? && es[t].pid == x
    requires forall j :: t < j < n ==> ks[j].curr != x
    ensures 0 < x < 16 && |ks[n].procs| == 16
    ensures if ks[n].curr == x then AtEntry(ContextOf(ks[n], x)) else ks[n].procs[x].status == Ready
    decreases n
  {
    hide Quiescent, Step, Allowed, AtEntry;
    AlwaysQuiescent(ks, es, n - 1);
    assert StepTo(ks[n - 1], es[n - 1], ks[n]);
    if n == t + 1 {
      LoadMakesReady(ks[t], es[t], ks[n]);
    } else {
      FirstRun(ks, es, t, n - 1, x);
      StepStarts(ks[n - 1], es[n - 1], ks[n], x);
    }
  }

  lemma LoadMakesReady(k: Kernel, e: Event, k': Kernel)
    requires StepTo(k, e, k') && e.Load?
    ensures 0 < e.pid < 16 && |k'.procs| == 16 && k'.procs[e.pid].status == Ready && k'.curr != e.pid
  {
  }

  // ---------- allocating ----------

  /** An allocation takes the slot: it cannot be allocated again, and it can be loaded.  No other slot,
      and no page, changes. */
  lemma AllocTakes(k: Kernel, p: nat, pages: PrivateMemory.Memory<Page>)
    requires Quiescent(k) && Allowed(k, Alloc(p))
    ensures Step(k, Alloc(p)).Some?
    ensures var k' := Step(k, Alloc(p)).value;
      && WellFormed(k') && k'.procs[p].pid == p && k'.procs[p].status == Loading
      && !Allowed(k', Alloc(p))
      && (Arg(p) in pages && (forall x :: x in pages ==> x.pid == p) ==> Allowed(k', Load(p, pages)))
      && (forall i :: 0 <= i < 16 && i != p ==> k'.procs[i] == k.procs[i])
      && k'.mem == k.mem && k'.curr == k.curr
  {
    hide Records, PagesAgree, Match;
  }

  lemma SettleKeepsUsed(k: Kernel, p: nat)
    requires WellFormed(k) && Records(k) && OthersSettled(k, k.curr) && Settle(k).Some?
    requires 0 < p < 16 && k.procs[p].status != Unused
    ensures |Settle(k).value.procs| == 16 && Settle(k).value.procs[p].status != Unused
  {
    hide NextSlot;
  }

  /** A slot in use stays in use until its process exits. */
  lemma StaysUsed(k: Kernel, e: Event, k': Kernel, p: nat)
    requires StepTo(k, e, k') && 0 < p < 16 && |k.procs| == 16 && k.procs[p].status != Unused && e != Exit(p)
    ensures |k'.procs| == 16 && k'.procs[p].status != Unused
  {
    if Yields(e) {
      hide Records, PagesAgree, Match, Settle, NextSlot;
      if e.Timer? { EnteredTimer(k, e); } else { EnteredTrap(k, e); }
      EntrySaves(k, e);
      var k1 := Entered(k, e);
      SettledWellFormed(k1);
      SettleKeepsUsed(k1, p);
    } else {
      hide Records, PagesAgree, Match;
    }
  }

  lemma {:induction false} UsedInRun(ks: seq<Kernel>, es: seq<Event>, a: nat, b: nat, p: nat)
    requires Run(ks, es) && a < b <= |es| && es[a] == Alloc(p) && forall j :: a < j < b ==> es[j] != Exit(p)
    ensures 0 < p < 16 && |ks[b].procs| == 16 && ks[b].procs[p].status != Unused
    decreases b
  {
    hide Quiescent, Step;
    AlwaysQuiescent(ks, es, b - 1);
    assert StepTo(ks[b - 1], es[b - 1], ks[b]);
    if b == a + 1 {
      AllocTakes(ks[a], p, map[]);
    } else {
      UsedInRun(ks, es, a, b - 1, p);
      StaysUsed(ks[b - 1], es[b - 1], ks[b], p);
    }
  }

  /** Over every run, two allocations return different pids unless the first process has exited in
      between. */
  lemma AllocsDiffer(ks: seq<Kernel>, es: seq<Event>, a: nat, b: nat, p: nat, q: nat)
    requires Run(ks, es) && a < b < |es| && es[a] == Alloc(p) && es[b] == Alloc(q)
    requires forall j :: a < j < b ==> es[j] != Exit(p)
    ensures p != q
  {
    hide Quiescent, Step;
    UsedInRun(ks, es, a, b, p);
    AlwaysQuiescent(ks, es, b);
    assert StepTo(ks[b], es[b], ks[b + 1]);
  }

  // ---------- ctrl+c, stores, exits ----------

  /** ctrl+c sends the running process to its exit path, with its registers, and changes nothing else. */
  lemma CtrlCResets(k: Kernel, ctx: Context)
    requires Quiescent(k) && Allowed(k, CtrlC(ctx))
    ensures Step(k, CtrlC(ctx)).Some?
    ensures var k' := Step(k, CtrlC(ctx)).value;
      && |k'.procs| == 16 && k'.curr == k.curr && k'.mem == k.mem
      && ContextOf(k', k.curr) == Context(0x8020000C, ctx.regs)
      && k'.procs[k.curr].status == Running
      && (forall i :: 0 <= i < 16 && i != k.curr ==> k'.procs[i] == k.procs[i])
  {
  }

  /** A store by the running process is seen in its own page and nowhere else. */
  lemma StoreWrites(k: Kernel, v: nat, page: Page)
    requires Quiescent(k) && Allowed(k, UserStore(v, page))
    ensures Step(k, UserStore(v, page)).Some?
    ensures var k' := Step(k, UserStore(v, page)).value;
      && k'.procs == k.procs && k'.curr == k.curr && k'.mem.Keys == k.mem.Keys
      && (forall x :: x in k.mem ==> k'.mem[x] == if x.pid == k.curr && x.vpage == v then page else k.mem[x])
  {
  }

  /** An exit leaves no page of the process and an unused slot, which can be allocated again; every other
      slot and page stays. */
  lemma ExitEmpties(k: Kernel, p: nat)
    requires Quiescent(k) && Allowed(k, Exit(p))
    ensures Step(k, Exit(p)).Some?
    ensures var k' := Step(k, Exit(p)).value;
      && WellFormed(k') && k'.procs[p].status == Unused && Allowed(k', Alloc(p))
      && (forall x :: x in k'.mem ==> x.pid != p)
      && (forall x :: x in k.mem && x.pid != p ==> x in k'.mem && k'.mem[x] == k.mem[x])
      && (forall i :: 0 <= i < 16 && i != p ==> k'.procs[i] == k.procs[i])
  {
    hide Records, PagesAgree, Match;
  }

  /** Removing one process, in any state, leaves none of its pages; removing all user processes leaves
      no page of a process that had a user slot. */
  lemma FreedLeavesNoPage(k: Kernel, pid: int)
    requires WellFormed(k)
    ensures forall x :: x in Freed(k, pid).mem ==> x.pid != pid
    ensures forall x :: x in k.mem && x.pid != pid ==> x in Freed(k, pid).mem && Freed(k, pid).mem[x] == k.mem[x]
    ensures forall x :: x in FreedUsers(k, 16).mem ==>
      !(5 <= x.pid < 16 && k.procs[x.pid].status != Unused)
    ensures forall x :: x in k.mem && !(5 <= x.pid < 16 && k.procs[x.pid].status != Unused) ==>
      x in FreedUsers(k, 16).mem && FreedUsers(k, 16).mem[x] == k.mem[x]
  {
    forall p: int
      ensures UserSlot(k.procs, 16, p) <==> 5 <= p < 16 && k.procs[p].status != Unused
    {
    }
  }

  // ---------- rendezvous ----------

  /** In its page process s asks to send to d. */
  predicate AsksToSend(k: Kernel, s: nat, d: int) {
    Arg(s) in k.mem && Decode(k.mem[Arg(s)]).kind == 2 && Decode(k.mem[Arg(s)]).receiver == d
  }

  /** In its page process d asks to receive from s, or from anybody. */
  predicate AsksToReceive(k: Kernel, d: nat, s: int) {
    && Arg(d) in k.mem && Decode(k.mem[Arg(d)]).kind == 1
    && (Decode(k.mem[Arg(d)]).sender == -1 || Decode(k.mem[Arg(d)]).sender == s)
  }

  /** The page that sys_send leaves asks to send that message to that process, and the page that sys_recv
      leaves asks to receive from exactly the processes it names. */
  lemma CallsAsk(k: Kernel, i: nat, p: Page, other: int, msg: seq<int>, s: int)
    requires Arg(i) in k.mem && |msg| <= 256
    ensures k.mem[Arg(i)] == SendPage(p, other, msg) ==>
      && AsksToSend(k, i, other)
      && Decode(k.mem[Arg(i)]).content[..|msg|] == msg && Decode(k.mem[Arg(i)]).status == 1
    ensures k.mem[Arg(i)] == RecvPage(p, other) ==>
      (AsksToReceive(k, i, s) <==> other == -1 || other == s) && Decode(k.mem[Arg(i)]).status == 1
  {
    hide Encode, Decode;
    DecodeEncode(p, Syscall(SYS_SEND, p[1], other, msg + p[3 + |msg|..259], PENDING));
    DecodeEncode(p, Syscall(SYS_RECV, other, p[2], p[3..259], PENDING));
  }

  /** Process i waits in a system call. */
  predicate WaitsInCall(k: Kernel, i: nat) { |k.procs| == 16 && 0 < i < 16 && k.procs[i].status == Pending }

  /** A process that waits, or now traps, to send has a receiver that exists. */
  ghost predicate ReceiversExist(k: Kernel) {
    |k.procs| == 16 && forall s: nat, d: int :: (WaitsInCall(k, s) || s == k.curr) && AsksToSend(k, s, d) ==>
      0 < d < 16 && k.procs[d].status != Unused
  }

  lemma TrapRecords(k: Kernel, e: Event)
    requires Quiescent(k) && Allowed(k, e) && e.Trap? && KnownCall(k)
    ensures var k1 := Entered(k, e);
      && |k1.procs| == 16 && k1.curr == k.curr && k1.mem == k.mem && WellFormed(k1)
      && (forall i: nat :: 0 < i < 16 ==> (Blocked(k1, i) <==> WaitsInCall(k, i) || i == k.curr))
      && (forall s: nat, d: int :: Sending(k1, s, d) <==> (WaitsInCall(k, s) || s == k.curr) && AsksToSend(k, s, d))
      && (forall s: int, d: nat ::
            Receiving(k1, d, s) <==> (WaitsInCall(k, d) || d == k.curr) && AsksToReceive(k, d, s))
      && (forall i: nat :: 0 < i < 16 && i != k.curr ==> k1.procs[i] == k.procs[i])
  {
    EnteredTrap(k, e);
    hide Match, Encode;
    var k1 := Entered(k, e);
    forall i: nat | Blocked(k1, i)
      ensures Arg(i) in k.mem && Decode(k.mem[Arg(i)]).(status := PENDING) == k1.procs[i].syscall
    {
    }
  }

  lemma NoOrphan(k: Kernel, e: Event)
    requires Quiescent(k) && Allowed(k, e) && e.Trap? && KnownCall(k) && ReceiversExist(k)
    ensures forall x :: !OrphanAt(Entered(k, e), x)
  {
    hide Quiescent, Allowed, Match, Entered, Decode;
    TrapRecords(k, e);
    var k1 := Entered(k, e);
    forall x: int ensures !OrphanAt(k1, x) {
      if Blocked(k1, x) && k1.procs[x].syscall.kind == SYS_SEND {
        var s: nat, d := x, k1.procs[x].syscall.receiver;
        assert Sending(k1, s, d) && AsksToSend(k, s, d);
        assert Blocked(k1, k.curr);
      }
    }
  }

  /** Meeting: the process that traps, and one that waits, ask for each other. */
  ghost predicate Meets(k: Kernel, s: nat, d: nat) {
    && |k.procs| == 16 && 0 < s < 16 && 0 < d < 16 && s != d
    && (s == k.curr || d == k.curr)
    && (s == k.curr || WaitsInCall(k, s)) && (d == k.curr || WaitsInCall(k, d))
    && AsksToSend(k, s, d) && AsksToReceive(k, d, s)
  }

  /** A trap completes a rendezvous exactly if the process that traps and one that waits ask for each
      other; it is then such a pair, of a receiver the one whose sender comes first in cyclic order, and
      the kernel goes on. */
  lemma TrapDelivers(k: Kernel, e: Event)
    requires Quiescent(k) && Allowed(k, e) && e.Trap?
    ensures Delivery(k, e).Some? <==> exists s: nat, d: nat :: Meets(k, s, d)
    ensures Delivery(k, e).Some? ==> Meets(k, Delivery(k, e).value.0, Delivery(k, e).value.1)
    ensures Delivery(k, e).Some? ==>
      var (s, d) := Delivery(k, e).value;
      forall s': nat, d': nat :: Meets(k, s', d') ==> d' == d && (d == k.curr ==> Ahead(k.curr, s) <= Ahead(k.curr, s'))
    ensures Delivery(k, e).Some? && ReceiversExist(k) ==> Step(k, e).Some?
  {
    hide Quiescent, Allowed, Decode, Entered, Yield;
    if KnownCall(k) {
      EnteredTrap(k, e);
      TrapRecords(k, e);
      var k1 := Entered(k, e);
      PairIsOnlyMatch(k1, k1.curr);
      MeetsIsMatch(k, e);
      if Delivery(k, e).Some? { FirstMeets(k1); }
      if Delivery(k, e).Some? && ReceiversExist(k) {
        NoOrphan(k, e);
        DeliveredRuns(k1);
      }
    } else {
      UnknownMeetsNobody(k);
    }
  }

  lemma MeetsIsMatch(k: Kernel, e: Event)
    requires Quiescent(k) && Allowed(k, e) && e.Trap? && KnownCall(k)
    ensures |Entered(k, e).procs| == 16
    ensures forall s: nat, d: nat :: Match(Entered(k, e), s, d) <==> Meets(k, s, d)
  {
    hide Quiescent, Allowed, Decode, Entered;
    EnteredTrap(k, e);
    TrapRecords(k, e);
  }

  lemma FirstMeets(k: Kernel)
    requires WellFormed(k) && Records(k) && OthersSettled(k, k.curr) && Pair(k, k.curr).Some?
    ensures var (s, d) := Pair(k, k.curr).value;
      && s < 16
      && forall s': nat, d': nat :: Match(k, s', d') ==>
           d' == d && (d == k.curr ==> Ahead(k.curr, s) <= Ahead(k.curr, s'))
  {
    hide Records;
    PairIsOnlyMatch(k, k.curr);
    var (s, d) := Pair(k, k.curr).value;
    forall s': nat, d': nat | Match(k, s', d')
      ensures d' == d && (d == k.curr ==> Ahead(k.curr, s) <= Ahead(k.curr, s'))
    {
      AheadIsPosition(k.curr, s);
      AheadIsPosition(k.curr, s');
      assert Slot(k.curr, Position(k.curr, s')) == s';
    }
  }

  lemma UnknownMeetsNobody(k: Kernel)
    requires Quiescent(k) && !KnownCall(k)
    ensures forall s: nat, d: nat :: !Meets(k, s, d)
  {
    hide PagesAgree, Match;
  }

  lemma DeliveredRuns(k: Kernel)
    requires WellFormed(k) && Records(k) && OthersSettled(k, k.curr) && Pair(k, k.curr).Some?
    requires forall x :: !OrphanAt(k, x)
    ensures Yield(k).Some?
  {
    hide Records, NextSlot;
    SettledWellFormed(k);
    PairIsOnlyMatch(k, k.curr);
    match Pair(k, k.curr)
    case Some((s, d)) =>
      DeliverUnblocks(k, s, d);
      NextSlotFirst(Deliver(k, s, d), s);
  }

  /** After a delivery both processes can run. */
  lemma DeliveryWakes(k: Kernel, e: Event, k': Kernel, s: nat, d: nat)
    requires StepTo(k, e, k') && Delivery(k, e) == Some((s, d))
    ensures 0 < s < 16 && 0 < d < 16 && |k'.procs| == 16
    ensures k'.procs[s].status == if k'.curr == s then Running else Runnable
    ensures k'.procs[d].status == if k'.curr == d then Running else Runnable
  {
    EnteredTrap(k, e);
    var k1 := Entered(k, e);
    hide PagesAgree, Entered, Quiescent, Records;
    PairIsOnlyMatch(k1, k1.curr);
    DeliverUnblocks(k1, s, d);
    SettledWellFormed(k1);
  }

  /** A send to a pid that no process has, and a call of unknown kind, stop the kernel. */
  lemma BadCallIsFatal(k: Kernel, e: Event, d: int)
    requires Quiescent(k) && Allowed(k, e) && e.Trap?
    requires Decode(k.mem[Arg(k.curr)]).kind !in {1, 2} ||
      (AsksToSend(k, k.curr, d) && !(0 < d < 16 && k.procs[d].status != Unused))
    ensures Step(k, e) == None
  {
    hide Match, PagesAgree;
    if KnownCall(k) {
      EnteredTrap(k, e);
      assert OrphanAt(Entered(k, e), k.curr);
    }
  }
}
