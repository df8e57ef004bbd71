/**
 Trying system calls, and what one pass over the process table makes of them: a pass that
 starts after the current slot and visits the current slot last completes the one rendezvous
 that the current system call has made possible, and nothing else.
 */
module Rendezvous {
  import opened Egos
  import opened PrivateMemory
  import opened Processes

  // ---------- trying one process ----------

  /** proc_try_send; None is the fatal case of an unknown receiver. */
  function TrySend(k: Kernel, x: nat): Option<Kernel>
    requires |k.procs| == 16 && x < 16 && Arg(x) in k.mem
  {
    var d := k.procs[x].syscall.receiver;
    if !Live(k, d) then None
    else if !(k.procs[d].syscall.kind == SYS_RECV && k.procs[d].syscall.status == PENDING) then Some(k)
    else if !(k.procs[d].syscall.sender == GPID_ALL || k.procs[d].syscall.sender == k.procs[x].pid) then Some(k)
    else Some(Half(k, x, d))
  }

  /** proc_try_recv. */
  function TryRecv(k: Kernel, x: nat): Kernel
    requires |k.procs| == 16 && x < 16 && Arg(x) in k.mem && |k.procs[x].syscall.content| == 256
  {
    var sc := k.procs[x].syscall;
    if sc.status == PENDING then k
    else k.(procs := SetStatus(SetStatus(k.procs, k.procs[x].pid, Runnable), sc.sender, Runnable),
            mem := k.mem[Arg(x) := WithStatus(Encode(k.mem[Arg(x)], sc), DONE)])
  }

  /** proc_try_syscall. */
  function TrySyscall(k: Kernel, x: nat): Option<Kernel>
    requires |k.procs| == 16 && x < 16 && Arg(x) in k.mem && |k.procs[x].syscall.content| == 256
  {
    if k.procs[x].syscall.kind == SYS_RECV then Some(TryRecv(k, x))
    else if k.procs[x].syscall.kind == SYS_SEND then TrySend(k, x)
    else None
  }

  /** One visit of a pass: only blocked processes are tried. */
  function Visit(k: Kernel, x: nat): Option<Kernel>
    requires |k.procs| == 16 && x < 16
    requires k.procs[x].status == Pending ==> Arg(x) in k.mem && |k.procs[x].syscall.content| == 256
  {
    if k.procs[x].status == Pending then TrySyscall(k, x) else Some(k)
  }

  ghost predicate OrphanAt(k: Kernel, x: int)
    requires |k.procs| == 16
  {
    Blocked(k, x) && k.procs[x].syscall.kind == SYS_SEND && !Live(k, k.procs[x].syscall.receiver)
  }

  /** A process that matches nobody is left alone. */
  lemma VisitUnmatched(k: Kernel, x: nat)
    requires WellFormed(k) && Records(k) && x < 16 && forall d :: !Match(k, x, d)
    ensures Visit(k, x) == if OrphanAt(k, x) then None else Some(k)
  {
    if Blocked(k, x) && k.procs[x].syscall.kind == SYS_SEND {
      assert !Match(k, x, k.procs[x].syscall.receiver);
    }
  }

  /** A sender that matches fills the receiver's record. */
  lemma VisitMatched(k: Kernel, x: nat, d: nat)
    requires WellFormed(k) && x < 16 && Match(k, x, d)
    ensures d < 16 && Arg(x) in k.mem
    ensures Visit(k, x) == Some(Half(k, x, d)) && !OrphanAt(k, x)
  {
  }

  /** Until the filled receive is visited, every other visit changes nothing. */
  lemma VisitWhileHalf(k: Kernel, s: nat, d: nat, x: nat)
    requires WellFormed(k) && Records(k) && Match(k, s, d) && x < 16 && x != d
    requires forall s', d' :: Match(k, s', d') ==> d' == d
    ensures d < 16 && s < 16 && Arg(s) in k.mem && WellFormed(Half(k, s, d))
    ensures Visit(Half(k, s, d), x) == if OrphanAt(k, x) then None else Some(Half(k, s, d))
  {
    var h := Half(k, s, d);
    if Blocked(k, x) && k.procs[x].syscall.kind == SYS_SEND {
      assert Match(k, x, k.procs[x].syscall.receiver) ==> k.procs[x].syscall.receiver == d;
    }
  }

  /** Visiting the filled receive completes the delivery and frees both processes. */
  lemma VisitFilled(k: Kernel, s: nat, d: nat)
    requires WellFormed(k) && Match(k, s, d)
    ensures d < 16 && s < 16 && s != d && Arg(s) in k.mem && Arg(d) in k.mem && WellFormed(Half(k, s, d))
    ensures Visit(Half(k, s, d), d) == Some(Deliver(k, s, d))
  {
    var h := Half(k, s, d);
    var r := TryRecv(h, d);
    var sc := Filled(k, s, d);
    assert h.procs[d].syscall == sc;
    assert WithStatus(Encode(h.mem[Arg(d)], sc), DONE) == Encode(k.mem[Arg(d)], sc);
    assert r.procs == Deliver(k, s, d).procs;
    assert r.mem == Deliver(k, s, d).mem;
  }

  /** After the delivery everything is closed again. */
  lemma DeliverCloses(k: Kernel, s: nat, d: nat)
    requires WellFormed(k) && Records(k) && Match(k, s, d)
    requires forall s', d' :: Match(k, s', d') ==> d' == d
    ensures d < 16 && s < 16 && s != d && Arg(s) in k.mem && Arg(d) in k.mem
    ensures WellFormed(Deliver(k, s, d)) && Records(Deliver(k, s, d))
    ensures forall s', d' :: !Match(Deliver(k, s, d), s', d')
    ensures forall x :: OrphanAt(Deliver(k, s, d), x) <==> OrphanAt(k, x)
  {
    DeliverUnblocks(k, s, d);
    var k' := Deliver(k, s, d);
    forall s', d' | Match(k', s', d')
      ensures false
    {
      assert Match(k, s', d');
    }
  }

  // ---------- the order of a pass ----------

  /** The slot visited at step i of a pass that starts after slot c. */
  function Slot(c: nat, i: nat): (x: nat)
    ensures x < 16
  {
    (c + i) % 16
  }

  /** The step, 1..16, at which slot x is visited; the current slot comes last. */
  function Position(c: nat, x: nat): (i: nat)
    requires c < 16 && x < 16
    ensures 1 <= i <= 16 && Slot(c, i) == x
    ensures i == 16 <==> x == c
    ensures forall j :: 1 <= j <= 16 && Slot(c, j) == x ==> j == i
  {
    if x > c then x - c else x + 16 - c
  }

  /** The first sender, in the order of the pass, that matches the current process. */
  function FirstSender(k: Kernel, c: nat, i: nat): (r: Option<nat>)
    requires |k.procs| == 16 && c < 16 && 1 <= i
    ensures match r
      case Some(s) => s < 16 && Match(k, s, c) && Position(c, s) >= i
          && (forall j :: i <= j < Position(c, s) ==> !Match(k, Slot(c, j), c))
      case None => forall j :: i <= j <= 16 ==> !Match(k, Slot(c, j), c)
    decreases 17 - i
  {
    if i > 16 then None
    else if Match(k, Slot(c, i), c) then
      assert Position(c, Slot(c, i)) == i;
      Some(Slot(c, i))
    else FirstSender(k, c, i + 1)
  }

  /** The rendezvous, sender and receiver, that the current process's call makes possible. */
  function Pair(k: Kernel, c: nat): Option<(nat, nat)>
    requires |k.procs| == 16 && c < 16
  {
    if !Blocked(k, c) then None
    else if k.procs[c].syscall.kind == SYS_SEND then
      if Match(k, c, k.procs[c].syscall.receiver) then Some((c, k.procs[c].syscall.receiver)) else None
    else match FirstSender(k, c, 1)
      case Some(s) => Some((s, c))
      case None => None
  }

  /** All matches involve the current process: everybody else was settled before. */
  ghost predicate OthersSettled(k: Kernel, c: nat)
    requires |k.procs| == 16
  {
    forall s, d :: Match(k, s, d) ==> s == c || d == c
  }

  lemma PairIsOnlyMatch(k: Kernel, c: nat)
    requires WellFormed(k) && Records(k) && 0 < c < 16 && OthersSettled(k, c)
    ensures match Pair(k, c)
      case None => forall s, d :: !Match(k, s, d)
      case Some((s, d)) =>
        && s < 16 && d < 16 && Match(k, s, d) && (s == c || d == c) && s != d
        && (forall s', d' :: Match(k, s', d') ==> d' == d)
        && (d == c ==> forall j :: 1 <= j < Position(c, s) ==> !Match(k, Slot(c, j), c))
  {
    forall s, d | Match(k, s, d)
      ensures Pair(k, c).Some? && d == Pair(k, c).value.1
    {
      if d == c && s != c { assert Slot(c, Position(c, s)) == s; }
    }
  }

  // ---------- one pass ----------

  /** The state after i steps of a pass over k: untouched, then half delivered once the sender
      was tried, then delivered once the receiver was visited. */
  ghost predicate PassState(k: Kernel, c: nat, i: nat, st: Kernel)
    requires WellFormed(k) && 0 < c < 16
  {
    match Pair(k, c)
    case None => st == k
    case Some((s, d)) =>
      && s < 16 && d < 16 && Match(k, s, d)
      && (if s != c && i < Position(c, s) then st == k
          else if i < Position(c, d) then st == Half(k, s, d)
          else st == Deliver(k, s, d))
  }

  /** Step i of a pass: the visit moves to the next state of the pass, or is fatal exactly at an
      orphaned sender; the visited call is found completed exactly at the receiver of the pair. */
  lemma PassStep(k: Kernel, c: nat, i: nat, st: Kernel)
    requires WellFormed(k) && Records(k) && 0 < c < 16 && OthersSettled(k, c)
    requires 0 < i <= 16 && PassState(k, c, i - 1, st)
    ensures WellFormed(st)
    ensures var x := Slot(c, i);
      && (Visit(st, x) == None <==> OrphanAt(k, x))
      && (Visit(st, x).Some? ==>
            && PassState(k, c, i, Visit(st, x).value)
            && WellFormed(Visit(st, x).value)
            && (st.procs[x].status == Pending && Visit(st, x).value.procs[x].syscall.status == DONE <==>
                  Pair(k, c).Some? && x == Pair(k, c).value.1))
  {
    var x := Slot(c, i);
    PairIsOnlyMatch(k, c);
    match Pair(k, c)
    case None => VisitUnmatched(k, x);
    case Some((s, d)) =>
      var f, p := if s == c then 0 else Position(c, s), Position(c, d);
      DeliverCloses(k, s, d);
      VisitWhileHalf(k, s, d, if x != d then x else s);
      if i - 1 >= p {
        VisitUnmatched(Deliver(k, s, d), x);
      } else if i == p {
        VisitFilled(k, s, d);
      } else if i < f {
        VisitUnmatched(k, x);
      } else if i == f {
        VisitMatched(k, s, d);
      }
  }
}
