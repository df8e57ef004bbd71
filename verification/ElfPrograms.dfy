/**
 Whole programs: when every segment of a program is in memory where its header asks for it, whatever
 the file holds.
 */
module ElfPrograms {
  import opened Egos
  import opened PrivateMemory
  import opened ElfLoader

  // ---------- files with one mark ----------

  /** A file of zeros with a one at position pos. */
  function MarkReader(pos: nat): Reader { (b: nat) => MarkedFile(pos, b) }

  function MarkedFile(pos: nat, b: nat): FileBlock {
    if b == pos / 512 then MarkedBlock(pos % 512) else MarkedBlock(512)
  }

  function MarkedBlock(i: nat): (b: FileBlock)
    ensures forall j :: 0 <= j < 512 ==> b[j] == if j == i then 1 else 0
  {
    MarkedBytes(i, |OnesBlock()|)
  }

  function MarkedBytes(i: nat, n: nat): (b: seq<Byte>)
    ensures |b| == n && forall j :: 0 <= j < n ==> b[j] == if j == i then 1 else 0
  {
    if n == 0 then [] else MarkedBytes(i, n - 1) + [if n - 1 == i then 1 else 0]
  }

  lemma MarkByte(pos: nat, p: nat)
    ensures ByteOfFile(MarkReader(pos), p) == if p == pos then 1 else 0
  {
    hide MarkedBlock;
    assert p / 512 == pos / 512 && p % 512 == pos % 512 ==> p == pos;
  }

  lemma FileByteAt(reader: Reader, start: nat, k: nat)
    ensures FileByte(reader, start, k) == ByteOfFile(reader, 512 * start + k)
  {
    assert (512 * start + k) / 512 == start + k / 512 && (512 * start + k) % 512 == k % 512;
  }

  /** The image byte at vaddr + k: a byte of the file, or zero from filesz on. */
  lemma ImageByteAt(seg: Segment, reader: Reader, k: nat)
    ensures var at := seg.vaddr % PAGE_SIZE + k;
      ImageByte(seg, reader, seg.vaddr + k)
        == if at < seg.filesz then ByteOfFile(reader, 512 * seg.StartBlock() + at) else 0
  {
    FileByteAt(reader, seg.StartBlock(), seg.vaddr % PAGE_SIZE + k);
  }

  // ---------- the condition ----------

  /** The number of the page just behind the segment's own pages. */
  function NextPage(seg: Segment): int { seg.First() + seg.Pages() }

  /** The file bytes start at the same place of a page and of a block, and end the segment's last page,
      so that as many bytes as the start is off spill onto the next page. */
  predicate Spills(seg: Segment) {
    && seg.vaddr % PAGE_SIZE == seg.offset % BLOCK_SIZE
    && seg.filesz % PAGE_SIZE == 0
    && seg.MemPages() <= seg.FilePages()
  }

  /** The other segment has, on that page, the file bytes that spill. */
  predicate Continues(next: Segment, seg: Segment) {
    var q := NextPage(seg) - next.First();
    && !next.Skipped() && 0 <= q < next.Pages()
    && 512 * next.StartBlock() + PAGE_SIZE * q == 512 * seg.StartBlock() + seg.filesz
    && PAGE_SIZE * q + seg.vaddr % PAGE_SIZE <= next.filesz
  }

  ghost predicate Continued(segs: seq<Segment>, seg: Segment) {
    Spills(seg) && exists j :: 0 <= j < |segs| && Continues(segs[j], seg)
  }

  // ---------- the memory of a program ----------

  /** Every program whose segments are laid out has a memory that loading builds. */
  lemma {:induction false} ProgramImage(m0: Memory<Page>, pid: int, segs: seq<Segment>, n: nat, reader: Reader)
    returns (m: Memory<Page>)
    requires n <= |segs| && Laid(segs) && forall x :: x in m0 ==> x.pid != pid
    ensures Loaded(m, m0, pid, segs, n, reader)
  {
    hide Loaded, Laid, Image, Shows, Segment.Skipped, Segment.Placed;
    if n == 0 {
      NoSegments(m0, [], pid, segs, reader);
      m := m0;
    } else {
      var before := ProgramImage(m0, pid, segs, n - 1, reader);
      var seg := segs[n - 1];
      SegmentIsFree(before, m0, pid, segs, n - 1, reader);
      if seg.Skipped() {
        m := before;
      } else {
        m := Image(before, pid, seg, reader);
        ImageShows(before, pid, seg, reader);
        SegmentAdded(before, m0, pid, segs, n - 1, reader, m);
      }
    }
  }

  // ---------- bytes on the segment's own pages ----------

  /** Unless the file bytes merely spill, a segment that is not aligned has a wrong byte on one of its
      own pages, for some file. */
  lemma OwnByteWrong(seg: Segment) returns (reader: Reader, k: nat)
    requires !Aligned(seg) && seg.filesz > 0 && !Spills(seg)
    ensures k < seg.filesz && MappedAt(seg, k)
    ensures ImageByte(seg, reader, seg.vaddr + k) != ByteOfFile(reader, seg.offset + k)
  {
    hide ImageByte, ByteOfFile;
    var a, f := seg.vaddr % PAGE_SIZE, seg.filesz;
    k := if a == seg.offset % BLOCK_SIZE && f >= a then f - a else 0;
    reader := MarkReader(seg.offset + k);
    OwnPage(seg, k);
    ImageByteAt(seg, reader, k);
    MarkByte(seg.offset + k, seg.offset + k);
    MarkByte(seg.offset + k, 512 * seg.StartBlock() + a + k);
  }

  lemma OwnPage(seg: Segment, k: nat)
    requires seg.filesz > 0 && seg.vaddr % PAGE_SIZE + k < PAGE_SIZE * seg.Pages()
    ensures MappedAt(seg, k)
  {
    hide Segment.Pages;
    assert (seg.vaddr + k) / 4096 == seg.vaddr / 4096 + (seg.vaddr % 4096 + k) / 4096;
  }

  // ---------- bytes that spill ----------

  lemma SpillPlace(seg: Segment, k: nat)
    requires Spills(seg) && seg.filesz > 0 && k < seg.filesz
    ensures seg.filesz == PAGE_SIZE * seg.Pages()
    ensures var at := seg.vaddr % PAGE_SIZE + k;
      && (MappedAt(seg, k) <==> at < seg.filesz)
      && (at >= seg.filesz ==>
            && (seg.vaddr + k) / PAGE_SIZE == seg.vaddr / PAGE_SIZE + seg.Pages()
            && (seg.vaddr + k) % PAGE_SIZE == at - seg.filesz)
  {
    var at := seg.vaddr % 4096 + k;
    assert seg.filesz == 4096 * seg.Pages();
    assert (seg.vaddr + k) / 4096 == seg.vaddr / 4096 + at / 4096 && (seg.vaddr + k) % 4096 == at % 4096;
  }

  /** What another segment shows at a place of the next page. */
  lemma SpillShows(m: Memory<Page>, m0: Memory<Page>, pid: int, segs: seq<Segment>, j: nat, reader: Reader,
                   x: Entry, t: nat)
    requires Loaded(m, m0, pid, segs, |segs|, reader) && j < |segs| && !segs[j].Skipped() && segs[j].Covers(x, pid)
    requires t < PAGE_SIZE
    ensures x in m
    ensures var at := PAGE_SIZE * (x.vpage - segs[j].First()) + t;
      && at >= 0
      && m[x][t] == if at < segs[j].filesz then ByteOfFile(reader, 512 * segs[j].StartBlock() + at) else 0
  {
    hide SegPage, SegBytes, Segment.First, Segment.Pages, ByteOfFile, FileByte;
    assert CoveredBy(segs, |segs|, x, pid);
    FileByteAt(reader, segs[j].StartBlock(), PAGE_SIZE * (x.vpage - segs[j].First()) + t);
  }

  /** A segment whose spilling bytes another one has is right for every file. */
  lemma ContinuedIsRight(m: Memory<Page>, m0: Memory<Page>, pid: int, segs: seq<Segment>, i: nat, reader: Reader)
    requires Loaded(m, m0, pid, segs, |segs|, reader) && i < |segs| && segs[i].vaddr >= 0x80000000 && segs[i].Placed()
    requires segs[i].filesz > 0 && Continued(segs, segs[i])
    ensures RightIn(m, pid, segs[i], reader)
  {
    hide Loaded, ImageByte, ByteOfFile, Segment.First, Segment.Pages, Segment.Placed, MappedAt, Spills;
    var seg := segs[i];
    var j: nat :| j < |segs| && Continues(segs[j], seg);
    forall k: nat | k < seg.filesz
      ensures ByteIn(m, pid, seg, reader, k)
    {
      SpillPlace(seg, k);
      PageOfByte(seg, pid, k);
      SameStart(seg);
      if MappedAt(seg, k) {
        LoadedByte(m, m0, pid, segs, i, reader, k);
        ImageByteAt(seg, reader, k);
      } else {
        SpillShows(m, m0, pid, segs, j, reader, PageAt(pid, seg.vaddr + k), (seg.vaddr + k) % PAGE_SIZE);
      }
    }
  }

  lemma SameStart(seg: Segment)
    requires Spills(seg)
    ensures 512 * seg.StartBlock() + seg.vaddr % PAGE_SIZE == seg.offset
  {
  }

  /** A file that shows that another segment does not have the spilling bytes. */
  lemma SpillWrong(next: Segment, seg: Segment) returns (reader: Reader, k: nat)
    requires Spills(seg) && !Aligned(seg) && seg.filesz > 0 && !next.Skipped()
    requires 0 <= NextPage(seg) - next.First() < next.Pages() && !Continues(next, seg)
    ensures k < seg.filesz && seg.vaddr % PAGE_SIZE + k >= seg.filesz
    ensures var at := PAGE_SIZE * (NextPage(seg) - next.First()) + (seg.vaddr % PAGE_SIZE + k - seg.filesz);
      (if at < next.filesz then ByteOfFile(reader, 512 * next.StartBlock() + at) else 0)
        != ByteOfFile(reader, seg.offset + k)
  {
    hide ByteOfFile, Segment.First, Segment.Pages;
    SameStart(seg);
    var a, f := seg.vaddr % PAGE_SIZE, seg.filesz;
    var q := NextPage(seg) - next.First();
    assert 0 < a < f;
    k := if PAGE_SIZE * q + a > next.filesz then f - 1 else f - a;
    reader := MarkReader(seg.offset + k);
    var at := PAGE_SIZE * q + (a + k - f);
    MarkByte(seg.offset + k, seg.offset + k);
    MarkByte(seg.offset + k, 512 * next.StartBlock() + at);
  }

  // ---------- the theorem ----------

  /** A program in which segment i is wrong. */
  ghost predicate WrongFor(m: Memory<Page>, m0: Memory<Page>, pid: int, segs: seq<Segment>, i: nat, reader: Reader)
    requires i < |segs|
  {
    Loaded(m, m0, pid, segs, |segs|, reader) && !RightIn(m, pid, segs[i], reader)
  }

  lemma OwnPageFails(m0: Memory<Page>, pid: int, segs: seq<Segment>, i: nat) returns (m: Memory<Page>, reader: Reader)
    requires Laid(segs) && i < |segs| && segs[i].vaddr >= 0x80000000 && forall x :: x in m0 ==> x.pid != pid
    requires !Aligned(segs[i]) && segs[i].filesz > 0 && !Spills(segs[i])
    ensures WrongFor(m, m0, pid, segs, i, reader)
  {
    hide Loaded, ImageByte, ByteOfFile, MappedAt, Spills;
    var k;
    reader, k := OwnByteWrong(segs[i]);
    m := ProgramImage(m0, pid, segs, |segs|, reader);
    LoadedByte(m, m0, pid, segs, i, reader, k);
    assert !ByteIn(m, pid, segs[i], reader, k);
  }

  lemma SpillFails(m0: Memory<Page>, pid: int, segs: seq<Segment>, i: nat) returns (m: Memory<Page>, reader: Reader)
    requires Laid(segs) && i < |segs| && segs[i].vaddr >= 0x80000000 && forall x :: x in m0 ==> x.pid != pid
    requires !Aligned(segs[i]) && segs[i].filesz > 0 && Spills(segs[i]) && !Continued(segs, segs[i])
    ensures WrongFor(m, m0, pid, segs, i, reader)
  {
    hide Loaded, ImageByte, ByteOfFile, MappedAt, Spills, Continues, Segment.First, Segment.Pages;
    var seg := segs[i];
    var x := Entry(pid, 0);
    var k: nat;
    PlacedOf(segs, i);
    SpillStart(seg);
    if j: nat :| j < |segs| && !segs[j].Skipped() && 0 <= NextPage(seg) - segs[j].First() < segs[j].Pages() {
      assert !Continues(segs[j], seg);
      reader, k := SpillWrong(segs[j], seg);
      m := ProgramImage(m0, pid, segs, |segs|, reader);
      SpillPlace(seg, k);
      PageOfByte(seg, pid, k);
      SpillShows(m, m0, pid, segs, j, reader, PageAt(pid, seg.vaddr + k), (seg.vaddr + k) % PAGE_SIZE);
    } else {
      reader, k := MarkReader(0), seg.filesz - 1;
      m := ProgramImage(m0, pid, segs, |segs|, reader);
      SpillPlace(seg, k);
      PageOfByte(seg, pid, k);
      UnmappedByte(m, m0, pid, segs, i, reader, k);
    }
    assert !ByteIn(m, pid, seg, reader, k);
  }

  lemma PlacedOf(segs: seq<Segment>, i: nat)
    requires Laid(segs) && i < |segs| && segs[i].vaddr >= 0x80000000
    ensures segs[i].Placed()
  {
  }

  lemma SpillStart(seg: Segment)
    requires Spills(seg) && !Aligned(seg) && seg.filesz > 0
    ensures 0 < seg.vaddr % PAGE_SIZE < seg.filesz
  {
  }

  /** Segment i of a program is in memory where its header asks for it, for every file, if and only if it
      is aligned, takes nothing from the file, or spills onto a page where another segment has the
      same file bytes. */
  lemma ProgramRightIff(m0: Memory<Page>, pid: int, segs: seq<Segment>, i: nat)
    requires Laid(segs) && i < |segs| && segs[i].vaddr >= 0x80000000 && forall x :: x in m0 ==> x.pid != pid
    ensures (forall reader: Reader, m :: Loaded(m, m0, pid, segs, |segs|, reader) ==> RightIn(m, pid, segs[i], reader))
      <==> Aligned(segs[i]) || segs[i].filesz == 0 || Continued(segs, segs[i])
  {
    hide Loaded, Continued, RightIn, Spills;
    PlacedOf(segs, i);
    if Aligned(segs[i]) || segs[i].filesz == 0 {
      forall reader: Reader, m | Loaded(m, m0, pid, segs, |segs|, reader)
        ensures RightIn(m, pid, segs[i], reader)
      {
        LoadedRight(m, m0, pid, segs, i, reader);
      }
    } else if Continued(segs, segs[i]) {
      forall reader: Reader, m | Loaded(m, m0, pid, segs, |segs|, reader)
        ensures RightIn(m, pid, segs[i], reader)
      {
        ContinuedIsRight(m, m0, pid, segs, i, reader);
      }
    } else if Spills(segs[i]) {
      var m, reader := SpillFails(m0, pid, segs, i);
    } else {
      var m, reader := OwnPageFails(m0, pid, segs, i);
    }
  }

  /** In a program of one segment nothing can continue it. */
  lemma LoadedRightIff(m0: Memory<Page>, pid: int, seg: Segment)
    requires seg.Placed() && seg.vaddr >= 0x80000000 && forall x :: x in m0 ==> x.pid != pid
    ensures (forall reader: Reader, m :: Loaded(m, m0, pid, [seg], |[seg]|, reader) ==> RightIn(m, pid, seg, reader))
      <==> Aligned(seg) || seg.filesz == 0
  {
    hide Loaded, RightIn, Spills;
    OneIsLaid(seg);
    ProgramRightIff(m0, pid, [seg], 0);
  }

  lemma OneIsLaid(seg: Segment)
    requires seg.Placed()
    ensures Laid([seg])
  {
  }
}
