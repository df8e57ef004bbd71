/**
 The software TLB: the page table, the frames and the user region, changed in place.
 */
module SoftTlb {
  import opened PrivateMemory

  /** The frames once the pages of the resident process were copied out. */
  ghost function SwappedOut<Page>(t: Tlb<Page>): (r: seq<Page>)
    requires Valid(t)
    ensures |r| == |t.frames|
    ensures forall i: nat :: i < |r| ==> r[i] == PageOf(t, i)
  {
    seq(|t.frames|, i requires 0 <= i < |t.frames| => PageOf(t, i))
  }

  /** The user region shows the pages of pid as they are in the frames. */
  ghost predicate SwappedIn<Page>(t: Tlb<Page>, pid: int)
    requires Valid(t) && pid > 0
  {
    forall i: nat :: i < |t.table| && t.table[i].pid == pid ==> t.region[t.table[i].vpage] == t.frames[i]
  }

  /** Copying out and then in is a switch. */
  lemma SwapSwitches<Page>(t: Tlb<Page>, pid: int, t': Tlb<Page>)
    requires Valid(t) && pid > 0 && pid != t.resident
    requires t'.table == t.table && t'.frames == SwappedOut(t) && t'.resident == pid && |t'.region| == |t.region|
    requires Valid(t') && SwappedIn(t', pid)
    ensures Switched(t, pid, t')
  {
    forall i: nat | i < |t.table| && t.table[i].pid > 0
      ensures PageOf(t', i) == PageOf(t, i)
    {
      assert t'.frames[i] == PageOf(t, i);
    }
  }

  class Mmu<Page> {
    const table: array<Entry>
    const frames: array<Page>
    const region: array<Page>
    var resident: int

    ghost function Value(): (t: Tlb<Page>)
      reads this, table, frames, region
    {
      Tlb(table[..], frames[..], region[..], resident)
    }

    ghost predicate Distinct() {
      frames != region && table as object != frames && table as object != region
    }

    constructor (nframes: nat, nregion: nat, blank: Page)
      ensures Valid(Value()) && View(Value()) == map[] && Distinct()
      ensures table.Length == nframes && region.Length == nregion && resident == NOBODY < 0
      ensures fresh(table) && fresh(frames) && fresh(region)
    {
      table := new Entry[nframes](_ => Entry(0, 0));
      frames := new Page[nframes](_ => blank);
      region := new Page[nregion](_ => blank);
      resident := NOBODY;
    }

    /** Copies the pages of the resident process out to their frames. */
    method SwapOut()
      requires Valid(Value()) && Distinct()
      modifies frames
      ensures Value() == old(Value()).(frames := SwappedOut(old(Value())))
    {
      ghost var t := Value();
      var i := 0;
      while i < table.Length
        invariant 0 <= i <= table.Length
        invariant forall j :: 0 <= j < i ==> frames[j] == SwappedOut(t)[j]
        invariant forall j :: i <= j < frames.Length ==> frames[j] == t.frames[j]
      {
        assert t.table[i] == table[i];
        if table[i].pid == resident {
          frames[i] := region[table[i].vpage];
        }
        i := i + 1;
      }
      assert frames[..] == SwappedOut(t);
    }

    /** Copies the pages of process pid from their frames into the user region. */
    method SwapIn(pid: int)
      requires Valid(Value()) && Distinct() && pid > 0
      modifies region
      ensures table[..] == old(table[..]) && frames[..] == old(frames[..]) && resident == old(resident)
      ensures SwappedIn(Value(), pid)
    {
      ghost var t := Value();
      var i := 0;
      while i < table.Length
        invariant 0 <= i <= table.Length
        invariant forall j :: 0 <= j < i && t.table[j].pid == pid ==> region[t.table[j].vpage] == t.frames[j]
      {
        assert t.table[i] == table[i] && t.frames[i] == frames[i];
        if table[i].pid == pid {
          region[table[i].vpage] := frames[i];
        }
        i := i + 1;
      }
      assert t.table == table[..] && t.frames == frames[..];
    }

    /** soft_tlb_switch: nobody's memory changes, and pid becomes resident. */
    method Switch(pid: int)
      requires Valid(Value()) && Distinct() && pid > 0
      modifies `resident, frames, region
      ensures Switched(old(Value()), pid, Value())
      ensures View(Value()) == View(old(Value()))
    {
      ghost var t := Value();
      if pid == resident { return; }
      SwapOut();
      SwapIn(pid);
      resident := pid;
      SwapSwitches(t, pid, Value());
      SameView(t, Value());
    }

    /** soft_tlb_translate: makes pid resident, so that the virtual page can be used directly. */
    method Translate(pid: int, vpage: nat) returns (page: nat)
      requires Valid(Value()) && Distinct() && pid > 0
      modifies `resident, frames, region
      ensures page == vpage && resident == pid
      ensures Valid(Value()) && View(Value()) == View(old(Value()))
    {
      Switch(pid);
      page := vpage;
    }

    /** A read of the user region. */
    method LoadPage(vpage: nat) returns (page: Page)
      requires Valid(Value()) && Entry(resident, vpage) in View(Value())
      ensures page == View(Value())[Entry(resident, vpage)]
    {
      ResidentSees(Value(), Entry(resident, vpage));
      page := region[vpage];
    }

    /** A write to the user region. */
    method StorePage(vpage: nat, page: Page)
      requires Valid(Value()) && Distinct() && Entry(resident, vpage) in View(Value())
      modifies region
      ensures Valid(Value()) && View(Value()) == View(old(Value()))[Entry(resident, vpage) := page]
    {
      ghost var t := Value();
      ResidentSees(t, Entry(resident, vpage));
      StoreView(t, vpage, page);
      region[vpage] := page;
      assert Value() == t.(region := t.region[vpage := page]);
    }

    /** A write to a frame; it is seen by the owner unless that is the resident process. */
    method FillFrame(frame: nat, page: Page)
      requires Valid(Value()) && Distinct() && frame < table.Length
      modifies frames
      ensures Valid(Value()) && frames[..] == old(frames[..])[frame := page]
      ensures View(Value()) == if table[frame].pid > 0 && table[frame].pid != resident
                               then View(old(Value()))[table[frame] := page] else View(old(Value()))
    {
      ghost var t := Value();
      assert t.table[frame] == table[frame];
      frames[frame] := page;
      assert Value() == t.(frames := t.frames[frame := page]);
      FillView(t, frame, page);
    }

    /** soft_tlb_map: the frame becomes a page of pid.  It shows the frame's contents, or for the
        resident process what is in the user region. */
    method Map(pid: int, vpage: nat, frame: nat)
      requires Valid(Value()) && Distinct() && pid > 0 && vpage < region.Length
      requires frame < table.Length && table[frame].pid == 0 && Entry(pid, vpage) !in table[..]
      modifies table
      ensures Valid(Value())
      ensures View(Value()) ==
        View(old(Value()))[Entry(pid, vpage) := if pid == resident then region[vpage] else frames[frame]]
      ensures table[..] == old(table[..])[frame := Entry(pid, vpage)]
    {
      ghost var t := Value();
      MapView(t, pid, vpage, frame);
      table[frame] := Entry(pid, vpage);
      assert Value() == t.(table := t.table[frame := Entry(pid, vpage)]);
    }

    /** soft_tlb_free without the page allocator: the frames of pid lose their owner. */
    method Free(pid: int)
      requires Valid(Value()) && Distinct() && pid > 0
      modifies table
      ensures table[..] == Released(old(table[..]), pid)
      ensures Valid(Value())
      ensures View(Value()) == map x | x in View(old(Value())) && x.pid != pid :: View(old(Value()))[x]
    {
      ghost var t := Value();
      var i := 0;
      while i < table.Length
        invariant 0 <= i <= table.Length
        invariant forall j :: 0 <= j < i ==> table[j] == Released(t.table, pid)[j]
        invariant forall j :: i <= j < table.Length ==> table[j] == t.table[j]
      {
        if table[i].pid == pid {
          table[i] := table[i].(pid := 0);
        }
        i := i + 1;
      }
      assert table[..] == Released(t.table, pid);
      ReleaseView(t, pid);
      assert Value() == t.(table := Released(t.table, pid));
    }
  }
}
