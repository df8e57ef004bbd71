/**
 Between the loader and the kernel: the memory that elf_load builds out of bytes, read as words, is
 what the kernel's load step adds for a new process.
 */
module KernelLoad {
  import opened Egos
  import opened PrivateMemory
  import P = Processes
  import S = KernelSteps
  import E = ElfLoader

  /** A page of bytes as a page of words, low byte first. */
  function WordsOf(p: E.Page): (w: P.Page)
    ensures forall i: nat :: i < 1024 ==> w[i] == E.WordAt(p, 4 * i)
  {
    seq(1024, i requires 0 <= i < 1024 => E.WordAt(p, 4 * i))
  }

  function AsWords(m: Memory<E.Page>): Memory<P.Page> { map x | x in m :: WordsOf(m[x]) }

  /** The pages of one process. */
  function PagesOfPid(m: Memory<E.Page>, pid: int): Memory<E.Page> { map x | x in m && x.pid == pid :: m[x] }

  /** The memory after elf_load: the segments, the arguments, the system call page, the stack. */
  ghost predicate Built(m1: Memory<E.Page>, m0: Memory<E.Page>, pid: int, segs: seq<E.Segment>, reader: E.Reader,
                        m: Memory<E.Page>, p: E.Page)
  {
    && E.Loaded(m, m0, pid, segs, |segs|, reader)
    && m1 == m[Entry(pid, ARG_PAGE) := p][Entry(pid, SYSCALL_PAGE) := E.ZeroPage()]
              [Entry(pid, STACK_TOP_PAGE - 1) := E.ZeroPage()][Entry(pid, STACK_TOP_PAGE - 2) := E.ZeroPage()]
  }

  /** elf_load changes only pages of the new process. */
  lemma OthersKept(m1: Memory<E.Page>, m0: Memory<E.Page>, pid: int, segs: seq<E.Segment>, reader: E.Reader,
                   m: Memory<E.Page>, p: E.Page)
    requires Built(m1, m0, pid, segs, reader, m, p) && forall x :: x in m0 ==> x.pid != pid
    ensures forall x: Entry :: x.pid != pid ==> (x in m1 <==> x in m0) && (x in m0 ==> m1[x] == m0[x])
    ensures Entry(pid, SYSCALL_PAGE) in m1 && m1[Entry(pid, SYSCALL_PAGE)] == E.ZeroPage()
  {
    hide E.SegPage, E.ZeroPage;
  }

  /** What elf_load builds for a process that is being loaded is an allowed load step, and the memory
      after the step is the memory it built. */
  lemma ElfLoadIsLoad(k: P.Kernel, m1: Memory<E.Page>, m0: Memory<E.Page>, pid: nat, segs: seq<E.Segment>,
                      reader: E.Reader, m: Memory<E.Page>, p: E.Page)
    requires P.Quiescent(k) && k.curr == GPID_PROCESS && 0 < pid < 16 && k.procs[pid].status == P.Loading
    requires k.mem == AsWords(m0) && forall x :: x in m0 ==> x.pid != pid
    requires Built(m1, m0, pid, segs, reader, m, p)
    ensures var e := S.Load(pid, AsWords(PagesOfPid(m1, pid)));
      && S.Allowed(k, e)
      && S.Step(k, e).Some? && P.Quiescent(S.Step(k, e).value)
      && S.Step(k, e).value.mem == AsWords(m1)
      && S.Step(k, e).value.procs == k.procs[pid := k.procs[pid].(status := P.Ready)]
  {
    hide P.Records, P.PagesAgree, P.Match, P.Quiescent, WordsOf, E.Loaded, Built;
    OthersKept(m1, m0, pid, segs, reader, m, p);
    var pages := AsWords(PagesOfPid(m1, pid));
    assert P.WellFormed(k) by { Formed(k); }
    assert P.Arg(pid) in pages;
    assert k.mem + pages == AsWords(m1);
    S.StepKeeps(k, S.Load(pid, pages));
  }

  lemma Formed(k: P.Kernel)
    requires P.Quiescent(k)
    ensures P.WellFormed(k)
  {
  }

  /** Loading a process and making it ready: the loader's code runs, and the kernel takes the load step
      with the pages it has built.  It fails exactly when there are too few frames. */
  method LoadProcess(loader: E.Loader, pid: nat, segs: seq<E.Segment>, reader: E.Reader, argc: nat, args: seq<E.Byte>,
                     ghost k: P.Kernel)
    returns (ok: bool, ghost k': P.Kernel)
    requires loader.Sound() && loader.mmu.resident == k.curr && E.Laid(segs)
    requires argc <= CMD_NARGS && |args| == CMD_ARG_LEN * argc
    requires P.Quiescent(k) && k.curr == GPID_PROCESS && 0 < pid < 16 && k.procs[pid].status == P.Loading
    requires k.mem == AsWords(loader.Mem()) && forall x :: x in loader.Mem() ==> x.pid != pid
    modifies loader.alloc.bitmap, loader.mmu.table, loader.mmu.frames
    ensures ok <==> E.FreeFrames(old(loader.mmu.table[..])) >= E.PagesOf(segs, |segs|) + 4
    ensures ok ==> loader.Sound() && k'.mem == AsWords(loader.Mem()) && P.Quiescent(k')
    ensures ok ==>
      var e := S.Load(pid, AsWords(PagesOfPid(loader.Mem(), pid)));
      S.Allowed(k, e) && S.Step(k, e) == Some(k')
  {
    hide *;
    ghost var m0 := loader.Mem();
    NotCurrent(k, pid);
    ghost var m, p;
    ok, m, p := loader.ElfLoad(pid, segs, reader, argc, args);
    k' := k;
    if !ok { return; }
    ghost var m1 := loader.Mem();
    BuiltByLoader(m1, m0, pid, segs, reader, m, p);
    ElfLoadIsLoad(k, m1, m0, pid, segs, reader, m, p);
    k' := S.Step(k, S.Load(pid, AsWords(PagesOfPid(m1, pid)))).value;
  }

  lemma NotCurrent(k: P.Kernel, pid: nat)
    requires P.Quiescent(k) && 0 < pid < 16 && k.procs[pid].status == P.Loading
    ensures pid != k.curr && P.WellFormed(k)
  {
  }

  lemma BuiltByLoader(m1: Memory<E.Page>, m0: Memory<E.Page>, pid: int, segs: seq<E.Segment>, reader: E.Reader,
                      m: Memory<E.Page>, p: E.Page)
    requires E.Loaded(m, m0, pid, segs, |segs|, reader)
    requires m1 == m[Entry(pid, ARG_PAGE) := p][Entry(pid, SYSCALL_PAGE) := E.ZeroPage()]
                    [Entry(pid, STACK_TOP_PAGE - 1) := E.ZeroPage()][Entry(pid, STACK_TOP_PAGE - 2) := E.ZeroPage()]
    ensures Built(m1, m0, pid, segs, reader, m, p)
  {
  }
}
