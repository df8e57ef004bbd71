/**
 The kernel's process table and system call records, as values, and the rendezvous between a
 sender and a receiver as grass/ipc.c performs it.
 */
module Processes {
  import opened Egos
  import opened PrivateMemory

  const SYS_RECV := 1
  const SYS_SEND := 2
  const PENDING := 1
  const DONE := 2

  // ---------- the system call page ----------

  type Page = p: seq<int> | |p| == 1024 witness seq(1024, _ => 0)

  datatype Syscall = Syscall(kind: int, sender: int, receiver: int, content: seq<int>, status: int)

  /** struct syscall at the start of a page: kind, sender, receiver, content, status. */
  function Decode(p: Page): (s: Syscall)
    ensures |s.content| == 256
  {
    Syscall(p[0], p[1], p[2], p[3..259], p[259])
  }

  function Encode(p: Page, s: Syscall): Page
    requires |s.content| == 256
  {
    [s.kind, s.sender, s.receiver] + s.content + [s.status] + p[260..]
  }

  lemma DecodeEncode(p: Page, s: Syscall)
    requires |s.content| == 256
    ensures Decode(Encode(p, s)) == s
    ensures var q := Encode(p, s);
      q[0] == s.kind && q[1] == s.sender && q[2] == s.receiver && q[3..259] == s.content && q[259] == s.status
    ensures Encode(p, s)[260..] == p[260..]
  {
    var q := Encode(p, s);
    assert q[3..259] == s.content;
  }

  /** The user-side status word. */
  function WithStatus(p: Page, status: int): Page { p[259 := status] }

  lemma DecodeWithStatus(p: Page, status: int)
    ensures Decode(WithStatus(p, status)) == Decode(p).(status := status)
  {
    assert WithStatus(p, status)[3..259] == p[3..259];
  }

  // ---------- processes ----------

  datatype Status = Unused | Loading | Ready | Running | Runnable | Pending

  datatype Process = Process(pid: int, syscall: Syscall, status: Status, mepc: int, regs: seq<int>)

  /** The kernel's view of the machine: the process table, the current slot and everybody's
      private memory. */
  datatype Kernel = Kernel(procs: seq<Process>, curr: nat, mem: Memory<Page>)

  /** Slots 1..15 hold the process whose pid is the slot number, or have never been used; slot 0
      is a place holder. */
  ghost predicate WellFormed(k: Kernel)
    ensures WellFormed(k) ==> |k.procs| == 16 && 0 < k.curr < 16
  {
    && |k.procs| == 16 && 0 < k.curr < 16
    && k.procs[0].pid == 0 && k.procs[0].status == Unused
    && (forall i :: 0 < i < 16 ==> k.procs[i].pid == i || (k.procs[i].pid == 0 && k.procs[i].status == Unused))
    && (forall i :: 0 <= i < 16 ==> |k.procs[i].syscall.content| == 256 && |k.procs[i].regs| == 32)
    && (forall i :: 0 < i < 16 && k.procs[i].status != Unused && k.procs[i].status != Loading ==> Arg(i) in k.mem)
  }

  /** The system call page of a process. */
  function Arg(pid: int): Entry { Entry(pid, SYSCALL_PAGE) }

  predicate Live(k: Kernel, pid: int)
    requires |k.procs| == 16
  {
    0 < pid < 16 && k.procs[pid].status != Unused
  }

  predicate Blocked(k: Kernel, i: int)
    requires |k.procs| == 16
  {
    0 < i < 16 && k.procs[i].status == Pending
  }

  /** Process s is blocked sending to process d. */
  predicate Sending(k: Kernel, s: int, d: int)
    requires |k.procs| == 16
  {
    Blocked(k, s) && k.procs[s].syscall.kind == SYS_SEND && k.procs[s].syscall.receiver == d
  }

  /** Process d is blocked in an open receive that takes a message from s. */
  predicate Receiving(k: Kernel, d: int, s: int)
    requires |k.procs| == 16
  {
    && Blocked(k, d) && k.procs[d].syscall.kind == SYS_RECV && k.procs[d].syscall.status == PENDING
    && (k.procs[d].syscall.sender == GPID_ALL || k.procs[d].syscall.sender == s)
  }

  predicate Match(k: Kernel, s: int, d: int)
    requires |k.procs| == 16
  {
    Sending(k, s, d) && Receiving(k, d, s)
  }

  /** The records of blocked processes are open calls, and open receives belong to blocked
      processes only. */
  ghost predicate Records(k: Kernel)
    requires |k.procs| == 16
  {
    forall i :: 0 < i < 16 ==>
      && (Blocked(k, i) ==> k.procs[i].syscall.kind in {SYS_SEND, SYS_RECV} && k.procs[i].syscall.status == PENDING)
      && (k.procs[i].syscall.kind == SYS_RECV && k.procs[i].syscall.status == PENDING ==> Blocked(k, i))
  }

  /** While a process is blocked, its record is what its page holds. */
  ghost predicate PagesAgree(k: Kernel)
    requires WellFormed(k)
  {
    forall i :: Blocked(k, i) ==> Decode(k.mem[Arg(i)]).(status := PENDING) == k.procs[i].syscall
  }

  /** The records of blocked processes are open calls. */
  ghost predicate OpenCalls(k: Kernel)
    requires |k.procs| == 16
  {
    forall i :: Blocked(k, i) ==>
      k.procs[i].syscall.kind in {SYS_SEND, SYS_RECV} && k.procs[i].syscall.status == PENDING
  }

  /** What can be seen of the system whenever a process runs: it is the only one RUNNING, no blocked
      receive is already complete, and no blocked sender and receiver match. */
  ghost predicate Settled(k: Kernel) {
    && WellFormed(k)
    && (forall i :: 0 < i < 16 ==> (k.procs[i].status == Running <==> i == k.curr))
    && OpenCalls(k)
    && PagesAgree(k)
    && (forall s, d :: !Match(k, s, d))
  }

  /** Settled, and moreover no slot keeps the open receive of a process that is gone. */
  ghost predicate Quiescent(k: Kernel) {
    && WellFormed(k)
    && (forall i :: 0 < i < 16 ==> (k.procs[i].status == Running <==> i == k.curr))
    && Records(k)
    && PagesAgree(k)
    && (forall s, d :: !Match(k, s, d))
  }

  /** Slot d, whose process is not blocked, still holds an open receive that takes a message from s. */
  predicate StaleReceive(k: Kernel, d: int, s: int)
    requires |k.procs| == 16 && 0 <= d < 16
  {
    && !Blocked(k, d) && k.procs[d].syscall.kind == SYS_RECV && k.procs[d].syscall.status == PENDING
    && (k.procs[d].syscall.sender == GPID_ALL || k.procs[d].syscall.sender == s)
  }

  lemma QuiescentIff(k: Kernel)
    ensures Quiescent(k) <==> Settled(k) && forall d, s :: 0 < d < 16 ==> !StaleReceive(k, d, s)
  {
    hide PagesAgree, Match;
    if Settled(k) && forall d, s :: 0 < d < 16 ==> !StaleReceive(k, d, s) {
      forall i | 0 < i < 16
        ensures k.procs[i].syscall.kind == SYS_RECV && k.procs[i].syscall.status == PENDING ==> Blocked(k, i)
      {
        assert !StaleReceive(k, i, k.procs[i].syscall.sender);
      }
    }
  }

  // ---------- the rendezvous ----------

  /** proc_set_status: the slots that carry the pid. */
  function SetStatus(procs: seq<Process>, pid: int, status: Status): (r: seq<Process>)
    ensures |r| == |procs|
    ensures forall i :: 0 <= i < |procs| ==>
      r[i] == if procs[i].pid == pid then procs[i].(status := status) else procs[i]
  {
    seq(|procs|, i requires 0 <= i < |procs| => if procs[i].pid == pid then procs[i].(status := status) else procs[i])
  }

  /** The record of receiver d once the message of sender s is in it. */
  function Filled(k: Kernel, s: nat, d: nat): Syscall
    requires |k.procs| == 16 && s < 16 && d < 16
  {
    k.procs[d].syscall.(status := DONE, sender := k.procs[s].pid, content := k.procs[s].syscall.content)
  }

  /** First half, done when the sender is tried: the message is in the receiver's record and the
      sender's page says DONE. */
  function Half(k: Kernel, s: nat, d: nat): Kernel
    requires |k.procs| == 16 && s < 16 && d < 16 && Arg(s) in k.mem
  {
    k.(procs := k.procs[d := k.procs[d].(syscall := Filled(k, s, d))],
       mem := k.mem[Arg(s) := WithStatus(k.mem[Arg(s)], DONE)])
  }

  /** Both halves: the receiver's page holds the filled record and both processes can run. */
  function Deliver(k: Kernel, s: nat, d: nat): Kernel
    requires |k.procs| == 16 && s < 16 && d < 16 && s != d && Arg(s) in k.mem && Arg(d) in k.mem
    requires |k.procs[s].syscall.content| == 256
  {
    k.(procs := k.procs[d := k.procs[d].(syscall := Filled(k, s, d), status := Runnable)]
                       [s := k.procs[s].(status := Runnable)],
       mem := k.mem[Arg(s) := WithStatus(k.mem[Arg(s)], DONE)]
                   [Arg(d) := Encode(k.mem[Arg(d)], Filled(k, s, d))])
  }

  /** A message is carried end to end: the receiver's page gets the content of the sender's page
      and the sender's pid, both status words become DONE, and nothing else of anybody's memory
      changes. */
  lemma DeliverCarries(k: Kernel, s: nat, d: nat)
    requires WellFormed(k) && PagesAgree(k) && Match(k, s, d)
    ensures s != d && 0 < s < 16 && 0 < d < 16 && Arg(s) in k.mem && Arg(d) in k.mem
    ensures var k' := Deliver(k, s, d);
      && k'.mem.Keys == k.mem.Keys
      && Decode(k'.mem[Arg(d)]).content == Decode(k.mem[Arg(s)]).content
      && Decode(k'.mem[Arg(d)]).sender == s
      && Decode(k'.mem[Arg(d)]).status == DONE
      && Decode(k'.mem[Arg(d)]).kind == Decode(k.mem[Arg(d)]).kind
      && Decode(k'.mem[Arg(d)]).receiver == Decode(k.mem[Arg(d)]).receiver
      && k'.mem[Arg(d)][260..] == k.mem[Arg(d)][260..]
      && k'.mem[Arg(s)] == WithStatus(k.mem[Arg(s)], DONE)
      && Decode(k'.mem[Arg(s)]) == Decode(k.mem[Arg(s)]).(status := DONE)
      && (forall x :: x in k.mem && x != Arg(s) && x != Arg(d) ==> k'.mem[x] == k.mem[x])
  {
    DecodeEncode(k.mem[Arg(d)], Filled(k, s, d));
    DecodeWithStatus(k.mem[Arg(s)], DONE);
  }

  /** After the delivery sender and receiver have left the blocked state together, and nobody else
      has changed. */
  lemma DeliverUnblocks(k: Kernel, s: nat, d: nat)
    requires WellFormed(k) && Match(k, s, d)
    ensures s != d && 0 < s < 16 && 0 < d < 16 && Arg(s) in k.mem && Arg(d) in k.mem
    ensures var k' := Deliver(k, s, d);
      && WellFormed(k')
      && !Blocked(k', s) && !Blocked(k', d)
      && (forall i :: 0 <= i < 16 && i != s && i != d ==> k'.procs[i] == k.procs[i])
      && k'.curr == k.curr
  {
  }
}
