/**
 One private memory per process, implemented by copying: every mapped page of a process has a
 frame, the process that is resident works on a copy of its pages in one shared user region,
 and switching copies the pages of the old process out and those of the new process in.

 Pages are opaque here.  Virtual pages are counted from the start of the user region.
 */
module PrivateMemory {

  const NOBODY := -1   // no process has been switched in yet

  datatype Entry = Entry(pid: int, vpage: nat)   // pid 0: the frame is free

  /** The state of the software TLB: who owns each frame, the frames, the user region, and the
      process whose pages are in the user region. */
  datatype Tlb<Page> = Tlb(table: seq<Entry>, frames: seq<Page>, region: seq<Page>, resident: int)

  /** No frame has two owners and no page two frames; mapped pages lie in the user region. */
  ghost predicate Valid<Page>(t: Tlb<Page>) {
    && |t.frames| == |t.table|
    && t.resident != 0
    && (forall i :: 0 <= i < |t.table| ==>
          t.table[i].pid >= 0 && (t.table[i].pid > 0 ==> t.table[i].vpage < |t.region|))
    && (forall i, j :: 0 <= i < j < |t.table| && t.table[i].pid > 0 ==> t.table[i] != t.table[j])
  }

  /** The current contents of the virtual page that owns frame i. */
  function PageOf<Page>(t: Tlb<Page>, i: nat): Page
    requires i < |t.table| == |t.frames|
    requires t.table[i].pid == t.resident ==> t.table[i].vpage < |t.region|
  {
    if t.table[i].pid == t.resident then t.region[t.table[i].vpage] else t.frames[i]
  }

  type Memory<Page> = map<Entry, Page>

  /** The frame of a mapped page. */
  ghost function FrameOf(table: seq<Entry>, x: Entry): (i: nat)
    requires x in table
    ensures i < |table| && table[i] == x
  {
    var i: nat :| i < |table| && table[i] == x;
    i
  }

  /** The simple view: the page of each process at each mapped virtual page. */
  ghost function View<Page>(t: Tlb<Page>): Memory<Page>
    requires Valid(t)
  {
    map x | x in t.table && x.pid > 0 :: PageOf(t, FrameOf(t.table, x))
  }

  // ---------- the operations ----------

  /** Switching: same owners, same contents of every owned page, another resident. */
  ghost predicate Switched<Page>(t: Tlb<Page>, pid: int, t': Tlb<Page>) {
    && Valid(t) && Valid(t')
    && t'.table == t.table && t'.resident == pid && |t'.region| == |t.region|
    && (forall i: nat :: i < |t.table| && t.table[i].pid > 0 ==> PageOf(t', i) == PageOf(t, i))
  }

  datatype Event<Page> =
    | Switch(pid: int)                          // soft_tlb_switch, soft_tlb_translate
    | Store(vpage: nat, page: Page)             // the resident process writes a page of the user region
    | MapFrame(pid: int, vpage: nat, frame: nat) // soft_tlb_map
    | Fill(frame: nat, page: Page)              // the loader writes a frame
    | Release(pid: int)                         // soft_tlb_free

  /** What callers respect: a frame that is mapped is free, and a page is mapped once. */
  ghost predicate Allowed<Page>(t: Tlb<Page>, e: Event<Page>) {
    match e
    case Switch(pid) => pid > 0
    case Store(v, _) => v < |t.region|
    case MapFrame(pid, v, i) =>
      && pid > 0 && v < |t.region| && i < |t.table| && t.table[i].pid == 0
      && Entry(pid, v) !in t.table
    case Fill(i, _) => i < |t.table|
    case Release(pid) => pid > 0
  }

  /** One step of the implementation. */
  ghost predicate Step<Page>(t: Tlb<Page>, e: Event<Page>, t': Tlb<Page>)
    requires Valid(t) && Allowed(t, e)
  {
    match e
    case Switch(pid) => Switched(t, pid, t')
    case Store(v, page) => t' == t.(region := t.region[v := page])
    case MapFrame(pid, v, i) => t' == t.(table := t.table[i := Entry(pid, v)])
    case Fill(i, page) => t' == t.(frames := t.frames[i := page])
    case Release(pid) => t' == t.(table := Released(t.table, pid))
  }

  function Released(table: seq<Entry>, pid: int): (r: seq<Entry>)
    ensures |r| == |table|
    ensures forall i :: 0 <= i < |table| ==> r[i] == if table[i].pid == pid then table[i].(pid := 0) else table[i]
  {
    seq(|table|, i requires 0 <= i < |table| => if table[i].pid == pid then table[i].(pid := 0) else table[i])
  }

  /** The same event on the simple view; t tells who is resident, who owns a frame, and what a newly
      mapped page shows.  The pages of the resident process are in the user region, so a frame that is
      mapped for it shows the region, and filling one of its frames is not seen. */
  ghost function Effect<Page>(t: Tlb<Page>, e: Event<Page>, m: Memory<Page>): Memory<Page>
    requires Valid(t) && Allowed(t, e)
  {
    match e
    case Switch(_) => m
    case Store(v, page) => if Entry(t.resident, v) in m then m[Entry(t.resident, v) := page] else m
    case MapFrame(pid, v, i) => m[Entry(pid, v) := if pid == t.resident then t.region[v] else t.frames[i]]
    case Fill(i, page) => if t.table[i].pid > 0 && t.table[i].pid != t.resident then m[t.table[i] := page] else m
    case Release(pid) => map x | x in m && x.pid != pid :: m[x]
  }

  /** Two states with the same owners and the same owned pages show the same memory. */
  lemma SameView<Page>(t: Tlb<Page>, t': Tlb<Page>)
    requires Valid(t) && Valid(t') && t'.table == t.table
    requires forall i: nat :: i < |t.table| && t.table[i].pid > 0 ==> PageOf(t', i) == PageOf(t, i)
    ensures View(t') == View(t)
  {
  }

  /** A write by the resident process changes that process's page and no other page of anyone. */
  lemma StoreView<Page>(t: Tlb<Page>, v: nat, page: Page)
    requires Valid(t) && v < |t.region|
    ensures var t' := t.(region := t.region[v := page]);
      && Valid(t')
      && View(t') == if Entry(t.resident, v) in View(t) then View(t)[Entry(t.resident, v) := page] else View(t)
  {
  }

  /** Mapping a frame adds a page: the frame's contents for a process that is not resident, the
      present contents of the user region for the resident one. */
  lemma MapView<Page>(t: Tlb<Page>, pid: int, v: nat, i: nat)
    requires Valid(t) && pid > 0 && v < |t.region| && i < |t.table| && t.table[i].pid == 0 && Entry(pid, v) !in t.table
    ensures var t' := t.(table := t.table[i := Entry(pid, v)]);
      && Valid(t')
      && View(t') == View(t)[Entry(pid, v) := if pid == t.resident then t.region[v] else t.frames[i]]
  {
    var t' := t.(table := t.table[i := Entry(pid, v)]);
    forall x: Entry | x.pid > 0
      ensures x in t'.table <==> x in t.table || x == Entry(pid, v)
      ensures x in t.table ==> FrameOf(t'.table, x) == FrameOf(t.table, x)
      ensures x == Entry(pid, v) ==> FrameOf(t'.table, x) == i
    {
      assert t'.table[i] == Entry(pid, v);
      if x in t.table { assert t'.table[FrameOf(t.table, x)] == x; }
    }
  }

  /** So mapping shows what was put into the frame if and only if the process is not resident
      or the user region happens to hold the same page. */
  lemma MapShowsFrame<Page>(t: Tlb<Page>, pid: int, v: nat, i: nat)
    requires Valid(t) && pid > 0 && v < |t.region| && i < |t.table| && t.table[i].pid == 0 && Entry(pid, v) !in t.table
    ensures var t' := t.(table := t.table[i := Entry(pid, v)]);
      && Valid(t') && Entry(pid, v) in View(t')
      && (View(t')[Entry(pid, v)] == t.frames[i] <==> pid != t.resident || t.region[v] == t.frames[i])
  {
    hide View, Valid;
    MapView(t, pid, v, i);
  }

  lemma FillView<Page>(t: Tlb<Page>, i: nat, page: Page)
    requires Valid(t) && i < |t.table|
    ensures var t' := t.(frames := t.frames[i := page]);
      && Valid(t')
      && View(t') == if t.table[i].pid > 0 && t.table[i].pid != t.resident then View(t)[t.table[i] := page] else View(t)
  {
    if t.table[i].pid > 0 { assert FrameOf(t.table, t.table[i]) == i; }
  }

  lemma ReleaseView<Page>(t: Tlb<Page>, pid: int)
    requires Valid(t) && pid > 0
    ensures var t' := t.(table := Released(t.table, pid));
      Valid(t') && View(t') == map x | x in View(t) && x.pid != pid :: View(t)[x]
  {
    var t' := t.(table := Released(t.table, pid));
    forall x: Entry | x.pid > 0
      ensures x in t'.table <==> x in t.table && x.pid != pid
      ensures x in t'.table ==> FrameOf(t'.table, x) == FrameOf(t.table, x)
    {
      assert x in t'.table ==> t.table[FrameOf(t'.table, x)] == x;
      assert x in t.table && x.pid != pid ==> t'.table[FrameOf(t.table, x)] == x;
    }
  }

  /** Every step of the implementation is the same step of the simple view. */
  lemma StepRefines<Page>(t: Tlb<Page>, e: Event<Page>, t': Tlb<Page>)
    requires Valid(t) && Allowed(t, e) && Step(t, e, t')
    ensures Valid(t') && View(t') == Effect(t, e, View(t))
  {
    hide Valid, View;
    match e
    case Switch(_) => SameView(t, t');
    case Store(v, page) => StoreView(t, v, page);
    case MapFrame(pid, v, i) => MapView(t, pid, v, i);
    case Fill(i, page) => FillView(t, i, page);
    case Release(pid) => ReleaseView(t, pid);
  }

  // ---------- runs ----------

  /** ts is a run of the implementation under the events es. */
  ghost predicate Run<Page>(ts: seq<Tlb<Page>>, es: seq<Event<Page>>) {
    && |ts| == |es| + 1 && Valid(ts[0])
    && (forall k: nat :: k < |es| ==> StepAt(ts[k], es[k], ts[k + 1]))
  }

  ghost predicate StepAt<Page>(t: Tlb<Page>, e: Event<Page>, t': Tlb<Page>) {
    Valid(t) && Allowed(t, e) && Step(t, e, t')
  }

  lemma RunPrefix<Page>(ts: seq<Tlb<Page>>, es: seq<Event<Page>>)
    requires Run(ts, es) && |es| > 0
    ensures Run(ts[..|es|], es[..|es| - 1])
    ensures StepAt(ts[|es| - 1], es[|es| - 1], ts[|es|])
  {
    hide StepAt, Valid;
  }

  /** The simple view after a run: the effects of the events in order. */
  ghost function ViewAfter<Page>(ts: seq<Tlb<Page>>, es: seq<Event<Page>>): Memory<Page>
    requires Run(ts, es)
    decreases |es|
  {
    if |es| == 0 then View(ts[0]) else
    RunPrefix(ts, es);
    Effect(ts[|es| - 1], es[|es| - 1], ViewAfter(ts[..|es|], es[..|es| - 1]))
  }

  /** The copying implementation refines the simple view over every run. */
  lemma {:induction false} RunRefines<Page>(ts: seq<Tlb<Page>>, es: seq<Event<Page>>)
    requires Run(ts, es)
    ensures Valid(ts[|es|]) && View(ts[|es|]) == ViewAfter(ts, es)
    decreases |es|
  {
    hide Valid, View, Effect, Step, Allowed;
    if |es| > 0 {
      var n := |es| - 1;
      RunPrefix(ts, es);
      RunRefines(ts[..n + 1], es[..n]);
      StepRefines(ts[n], es[n], ts[n + 1]);
    }
  }

  /** The event does not write, map, fill or release a page of pid. */
  ghost predicate Untouched<Page>(t: Tlb<Page>, e: Event<Page>, pid: int) {
    match e
    case Switch(_) => true
    case Store(_, _) => t.resident != pid
    case MapFrame(q, _, _) => q != pid
    case Fill(i, _) => i < |t.table| && t.table[i].pid != pid
    case Release(q) => q != pid
  }

  /** Over every run in which a process neither writes nor has pages mapped, filled or released,
      its pages stay the same, whatever the processes that are switched in write. */
  lemma {:induction false} Isolation<Page>(ts: seq<Tlb<Page>>, es: seq<Event<Page>>, x: Entry)
    requires Run(ts, es) && x in View(ts[0])
    requires forall k: nat :: k < |es| ==> Untouched(ts[k], es[k], x.pid)
    ensures Valid(ts[|es|]) && x in View(ts[|es|]) && View(ts[|es|])[x] == View(ts[0])[x]
    decreases |es|
  {
    hide Valid, View, Step, Allowed;
    if |es| > 0 {
      var n := |es| - 1;
      RunPrefix(ts, es);
      Isolation(ts[..n + 1], es[..n], x);
      StepRefines(ts[n], es[n], ts[n + 1]);
      assert Untouched(ts[n], es[n], x.pid);
    }
  }

  /** The resident process sees exactly its own pages in the user region. */
  lemma ResidentSees<Page>(t: Tlb<Page>, x: Entry)
    requires Valid(t) && x in View(t) && x.pid == t.resident
    ensures x.vpage < |t.region| && t.region[x.vpage] == View(t)[x]
  {
  }
}
