/**
 The ELF loader: segments are copied from the file block by block into fresh frames, mapped page
 by page, and zero filled; then come the pages for the arguments, the system calls and the stack.
 */
module ElfLoader {
  import opened Egos
  import opened PrivateMemory
  import opened PageBitmap
  import SoftTlb

  const FIRST_PAGE := 0x80200      // APPS_ENTRY / PAGE_SIZE

  newtype Byte = b: int | 0 <= b < 256
  type Page = p: seq<Byte> | |p| == 4096 witness seq(4096, _ => 0)
  type FileBlock = p: seq<Byte> | |p| == 512 witness seq(512, _ => 0)
  type Reader = nat -> FileBlock

  /** The fields of a program header that the loader uses. */
  datatype Segment = Segment(vaddr: nat, memsz: nat, filesz: nat, offset: nat) {
    function First(): int { vaddr / PAGE_SIZE - FIRST_PAGE }
    function StartBlock(): nat { offset / BLOCK_SIZE }
    function FilePages(): nat { (filesz + PAGE_SIZE - 1) / PAGE_SIZE }
    function MemPages(): nat { (vaddr + memsz) / PAGE_SIZE - vaddr / PAGE_SIZE }
    /** The number of pages that are mapped for the segment. */
    function Pages(): nat { if FilePages() >= MemPages() then FilePages() else MemPages() }
    predicate Skipped() { vaddr < RAM_START }
    /** The pages of the segment lie in the code and data area. */
    predicate Placed() { 0 <= First() && First() + Pages() <= ARG_PAGE }
    predicate Covers(x: Entry, pid: int) { InPages(x, pid, First(), Pages()) }
  }

  function ZeroPage(): (p: Page)
    ensures forall b :: 0 <= b < 4096 ==> p[b] == 0
  {
    seq(4096, _ => 0)
  }

  function FileByte(reader: Reader, start: nat, k: nat): Byte {
    reader(start + k / 512)[k % 512]
  }

  function SegByte(reader: Reader, start: nat, limit: nat, k: nat): Byte {
    if k < limit then FileByte(reader, start, k) else 0
  }

  function SegBytes(reader: Reader, start: nat, limit: nat, from: nat, n: nat): (p: seq<Byte>)
    ensures |p| == n
    ensures forall b :: 0 <= b < n ==> p[b] == SegByte(reader, start, limit, from + b)
    decreases n
  {
    if n == 0 then [] else SegBytes(reader, start, limit, from, n - 1) + [SegByte(reader, start, limit, from + n - 1)]
  }

  /** Page j of a segment: the file bytes up to limit, then zeros. */
  function SegPage(reader: Reader, start: nat, limit: nat, j: nat): (p: Page)
    ensures forall b :: 0 <= b < 4096 ==> p[b] == SegByte(reader, start, limit, 4096 * j + b)
  {
    SegBytes(reader, start, limit, 4096 * j, |ZeroPage()|)
  }

  // ---------- what a partly loaded segment shows ----------

  /** Compared with before, exactly the pages [first, first + n) of pid are new, and they hold the
      file bytes up to limit. */
  ghost predicate Shows(m: Memory<Page>, m0: Memory<Page>, pid: int, first: nat, n: nat, reader: Reader,
      start: nat, limit: nat)
  {
    && (forall x :: x in m <==> x in m0 || InPages(x, pid, first, n))
    && (forall x :: x in m0 ==> m[x] == m0[x])
    && (forall x :: InPages(x, pid, first, n) && x in m ==> m[x] == SegPage(reader, start, limit, x.vpage - first))
  }

  predicate InPages(x: Entry, pid: int, first: int, n: nat) { x.pid == pid && first <= x.vpage < first + n }

  /** A zero page extends the picture when nothing beyond it was read yet. */
  lemma ShowsNewPage(m: Memory<Page>, m0: Memory<Page>, pid: int, first: nat, n: nat, reader: Reader,
      start: nat, limit: nat)
    requires Shows(m, m0, pid, first, n, reader, start, limit) && limit <= 4096 * n
    requires Entry(pid, first + n) !in m0
    ensures Shows(m[Entry(pid, first + n) := ZeroPage()], m0, pid, first, n + 1, reader, start, limit)
  {
    hide SegPage, SegBytes, ZeroPage, FileByte;
    assert SegPage(reader, start, limit, n) == ZeroPage();
  }

  lemma ZeroTail(reader: Reader, start: nat, limit: nat, n: nat)
    requires limit <= 4096 * n
    ensures SegPage(reader, start, limit, n) == ZeroPage()
  {
    hide SegPage, SegBytes, ZeroPage, FileByte;
  }

  lemma NothingLoaded(m: Memory<Page>, t: seq<Entry>, pid: int, first: nat, reader: Reader, start: nat)
    ensures Shows(m, m, pid, first, 0, reader, start, 0) && OnlyAdds(t, t, pid)
  {
  }

  /** Copying one block into the last page moves the limit. */
  lemma ShowsNewBlock(m: Memory<Page>, m0: Memory<Page>, pid: int, first: nat, n: nat, reader: Reader, start: nat,
                      off: nat, limit: nat, page: Page)
    requires Shows(m, m0, pid, first, n, reader, start, off)
    requires n > 0 && 4096 * (n - 1) <= off < limit <= 4096 * n
    requires forall x :: InPages(x, pid, first, n) ==> x !in m0
    requires page == SegPage(reader, start, limit, n - 1)
    ensures Shows(m[Entry(pid, first + n - 1) := page], m0, pid, first, n, reader, start, limit)
  {
    hide SegPage, SegBytes, ZeroPage, FileByte;
    var m' := m[Entry(pid, first + n - 1) := page];
    forall x | InPages(x, pid, first, n) && x in m'
      ensures m'[x] == SegPage(reader, start, limit, x.vpage - first)
    {
      var j := x.vpage - first;
      if j < n - 1 {
        assert SegPage(reader, start, limit, j) == SegPage(reader, start, off, j);
      }
    }
    assert InPages(Entry(pid, first + (n - 1)), pid, first, n);
  }

  /** The block copy of the loader, on the bytes of the page. */
  lemma CopyBlock(reader: Reader, start: nat, off: nat, limit: nat)
    requires off % 512 == 0 && off < limit <= off + 512
    ensures var j, o, size := off / 4096, off % 4096, limit - off;
      && o + size <= 4096
      && SegPage(reader, start, off, j)[..o]
          + reader(start + off / 512)[..size] + SegPage(reader, start, off, j)[o + size..]
         == SegPage(reader, start, limit, j)
  {
    hide SegPage, SegBytes, ZeroPage;
    var j, o, size := off / 4096, off % 4096, limit - off;
    var p := SegPage(reader, start, off, j);
    var q := p[..o] + reader(start + off / 512)[..size] + p[o + size..];
    forall b | 0 <= b < 4096
      ensures q[b] == SegPage(reader, start, limit, j)[b]
    {
      if o <= b < o + size {
        BlockIndex(off, b - o);
      }
    }
  }

  lemma BlockIndex(off: nat, d: nat)
    requires off % 512 == 0 && d < 512
    ensures (off + d) / 512 == off / 512 && (off + d) % 512 == d
  {
  }

  /** The page that is filled, before and after a block. */
  lemma BlockSteps(off: nat)
    requires off % 512 == 0
    ensures (off + 4095) / 4096 == if off % 4096 == 0 then off / 4096 else off / 4096 + 1
    ensures (off + 512 + 4095) / 4096 == off / 4096 + 1
    ensures (off + 512) % 512 == 0 && ((off + 512) % 4096 != 0 ==> (off + 512) / 4096 == off / 4096)
  {
  }

  /** The byte that loading a segment puts at an address of its pages. */
  function ImageByte(seg: Segment, reader: Reader, addr: nat): Byte
    requires addr >= seg.vaddr - seg.vaddr % PAGE_SIZE
  {
    SegByte(reader, seg.StartBlock(), seg.filesz, addr - (seg.vaddr - seg.vaddr % PAGE_SIZE))
  }

  lemma ImageByteIsInPage(seg: Segment, reader: Reader, addr: nat)
    requires seg.vaddr / PAGE_SIZE <= addr / PAGE_SIZE < seg.vaddr / PAGE_SIZE + seg.Pages()
    ensures addr >= seg.vaddr - seg.vaddr % PAGE_SIZE
    ensures SegPage(reader, seg.StartBlock(), seg.filesz, addr / PAGE_SIZE - seg.vaddr / PAGE_SIZE)[addr % PAGE_SIZE]
            == ImageByte(seg, reader, addr)
  {
    hide SegPage, SegBytes, SegByte;
    var k := addr - (seg.vaddr - seg.vaddr % 4096);
    assert k == 4096 * (addr / 4096 - seg.vaddr / 4096) + addr % 4096;
  }

  function ByteOfFile(reader: Reader, pos: nat): Byte { reader(pos / BLOCK_SIZE)[pos % BLOCK_SIZE] }

  /** Byte k of the segment lies on a page that is mapped for it. */
  predicate MappedAt(seg: Segment, k: nat) {
    seg.vaddr / PAGE_SIZE <= (seg.vaddr + k) / PAGE_SIZE < seg.vaddr / PAGE_SIZE + seg.Pages()
  }

  /** What a program header asks for byte k of the segment: it is at address vaddr + k. */
  predicate RightAt(seg: Segment, reader: Reader, k: nat) {
    MappedAt(seg, k) && ImageByte(seg, reader, seg.vaddr + k) == ByteOfFile(reader, seg.offset + k)
  }

  ghost predicate ImageRight(seg: Segment, reader: Reader) {
    forall k: nat :: k < seg.filesz ==> RightAt(seg, reader, k)
  }

  predicate Aligned(seg: Segment) { seg.vaddr % PAGE_SIZE == 0 && seg.offset % BLOCK_SIZE == 0 }

  lemma AlignedIsRight(seg: Segment, reader: Reader)
    requires Aligned(seg) || seg.filesz == 0
    ensures ImageRight(seg, reader)
  {
    forall k: nat | k < seg.filesz
      ensures RightAt(seg, reader, k)
    {
      assert (seg.offset + k) / 512 == seg.offset / 512 + k / 512 && (seg.offset + k) % 512 == k % 512;
      assert (seg.vaddr + k) / 4096 == seg.vaddr / 4096 + k / 4096;
    }
  }

  function MarkBlock(): FileBlock { [1] + seq(511, _ => 0) }

  function OnesBlock(): FileBlock { seq(512, _ => 1) }

  /** A file on which a segment that is not aligned is loaded wrongly: a byte of it is on a mapped page
      with another value, or is not mapped. */
  lemma MisalignedIsWrong(seg: Segment) returns (reader: Reader, k: nat)
    requires !Aligned(seg) && seg.filesz > 0
    ensures k < seg.filesz && !RightAt(seg, reader, k)
  {
    if seg.vaddr % PAGE_SIZE != 0 {
      reader, k := _ => OnesBlock(), seg.filesz - 1;
      assert ImageByte(seg, reader, seg.vaddr + k) == 0;
    } else {
      reader, k := _ => MarkBlock(), 0;
      assert ImageByte(seg, reader, seg.vaddr + 0) == 1;
    }
  }

  /** The loader puts every file in the right place if and only if the segment is page aligned in
      memory and block aligned in the file, or takes nothing from the file. */
  lemma ImageRightIff(seg: Segment)
    ensures (forall reader: Reader :: ImageRight(seg, reader)) <==> Aligned(seg) || seg.filesz == 0
  {
    if Aligned(seg) || seg.filesz == 0 {
      forall reader: Reader ensures ImageRight(seg, reader) { AlignedIsRight(seg, reader); }
    } else {
      var reader, k := MisalignedIsWrong(seg);
      assert !ImageRight(seg, reader);
    }
  }

  /** All of the segment's memory is mapped if and only if it is empty, ends at a page boundary, or
      has its end on a page that holds file bytes; otherwise its last page is missing. */
  lemma MemoryMappedIff(seg: Segment)
    ensures (forall k: nat :: k < seg.memsz ==> MappedAt(seg, k)) <==>
      (seg.memsz == 0 || (seg.vaddr + seg.memsz) % PAGE_SIZE == 0 || seg.FilePages() > seg.MemPages())
  {
    hide Segment.FilePages;
    if seg.memsz > 0 {
      var end := seg.vaddr + seg.memsz;
      assert (end - 1) / 4096 == if end % 4096 == 0 then end / 4096 - 1 else end / 4096;
      assert MappedAt(seg, seg.memsz - 1) <==> end % 4096 == 0 || seg.FilePages() > seg.MemPages();
      forall k: nat | k < seg.memsz && MappedAt(seg, seg.memsz - 1)
        ensures MappedAt(seg, k)
      {
        assert seg.vaddr / 4096 <= (seg.vaddr + k) / 4096 <= (end - 1) / 4096;
      }
    }
  }

  /** Such a segment: the memory after the file bytes needs a page of its own and gets none. */
  lemma UnmappedTail() returns (seg: Segment)
    ensures seg.Placed() && Aligned(seg) && seg.memsz > 0 && !MappedAt(seg, seg.memsz - 1)
  {
    seg := Segment(APPS_ENTRY, 100, 0, 0);
  }

  // ---------- the argument page ----------

  /** The four bytes of a word, low byte first. */
  function Le32(x: nat): (r: seq<Byte>)
    requires x < 0x1_0000_0000
    ensures |r| == 4 && r[0] as int == x % 256 && r[3] as int == x / 0x100_0000
  {
    [(x % 256) as Byte, (x / 256 % 256) as Byte, (x / 65536 % 256) as Byte, (x / 16777216) as Byte]
  }

  /** The word stored at a place of a page. */
  function WordAt(p: Page, at: nat): int
    requires at + 4 <= 4096
  {
    (p[at] as int) + 256 * (p[at + 1] as int) + 65536 * (p[at + 2] as int) + 16777216 * (p[at + 3] as int)
  }

  lemma WordStored(p: Page, at: nat, x: nat)
    requires at + 4 <= 4096 && x < 0x1_0000_0000
    requires forall k: nat :: k < 4 ==> p[at + k] == Le32(x)[k]
    ensures WordAt(p, at) == x
  {
    var b := Le32(x);
    assert p[at + 0] == b[0] && p[at + 1] == b[1] && p[at + 2] == b[2] && p[at + 3] == b[3];
    assert x / 65536 == x / 256 / 256 && x / 16777216 == x / 65536 / 256;
  }

  /** The address of argument string i. */
  function ArgAddr(i: nat): nat { APPS_ARG + 4 + 4 * CMD_NARGS + CMD_ARG_LEN * i }

  /** The bytes that argv[i] points to. */
  function StringAt(p: Page, i: nat): seq<Byte>
    requires i < CMD_NARGS
  {
    p[ArgAddr(i) - APPS_ARG..ArgAddr(i) - APPS_ARG + CMD_ARG_LEN]
  }

  /** memcpy into a page. */
  function Patch(p: Page, at: nat, bytes: seq<Byte>): (r: Page)
    requires at + |bytes| <= 4096
    ensures forall k: nat :: k < |bytes| ==> r[at + k] == bytes[k]
    ensures forall k :: 0 <= k < 4096 && !(at <= k < at + |bytes|) ==> r[k] == p[k]
  {
    p[..at] + bytes + p[at + |bytes|..]
  }

  /** Stores a word and leaves the rest of the page alone. */
  method StoreWord(p: Page, at: nat, x: nat) returns (r: Page)
    requires at + 4 <= 4096 && x < 0x1_0000_0000
    ensures WordAt(r, at) == x
    ensures forall k :: 0 <= k < 4096 && !(at <= k < at + 4) ==> r[k] == p[k]
  {
    r := Patch(p, at, Le32(x));
    WordStored(r, at, x);
  }

  /** Builds the page for main(): argc, the argv pointers, the strings, zeros elsewhere. */
  method BuildArgPage(argc: nat, args: seq<Byte>) returns (p: Page)
    requires argc <= CMD_NARGS && |args| == CMD_ARG_LEN * argc
    ensures ArgPage(p, argc, args)
  {
    p := StoreWord(ZeroPage(), 0, argc);
    p := Patch(p, 68, args);
    var i := 0;
    while i < argc
      invariant 0 <= i <= argc
      invariant WordAt(p, 0) == argc
      invariant forall k: nat :: k < |args| ==> p[68 + k] == args[k]
      invariant forall j: nat :: j < i ==> WordAt(p, 4 + 4 * j) == ArgAddr(j)
      invariant forall k :: 4 + 4 * i <= k < 68 || 68 + |args| <= k < 4096 ==> p[k] == 0
    {
      p := StoreWord(p, 4 + 4 * i, ArgAddr(i));
      i := i + 1;
    }
    forall j: nat | j < argc
      ensures StringAt(p, j) == args[CMD_ARG_LEN * j..CMD_ARG_LEN * j + CMD_ARG_LEN]
    {
      assert p[68..68 + |args|] == args;
      assert StringAt(p, j) == p[68..68 + |args|][32 * j..32 * j + 32];
    }
  }

  /** argv[i] of the process points to a copy of argument string i. */
  ghost predicate ArgPage(p: Page, argc: nat, args: seq<Byte>) {
    && argc <= CMD_NARGS && |args| == CMD_ARG_LEN * argc
    && WordAt(p, 0) == argc
    && (forall i: nat :: i < argc ==> WordAt(p, 4 + 4 * i) == ArgAddr(i))
    && (forall i: nat :: i < argc ==> StringAt(p, i) == args[CMD_ARG_LEN * i..CMD_ARG_LEN * i + CMD_ARG_LEN])
    && (forall k :: 4 + 4 * argc <= k < 68 || 68 + |args| <= k < 4096 ==> p[k] == 0)
  }

  // ---------- frames and their owners ----------

  /** A frame's bit is set exactly when the frame has an owner. */
  ghost predicate Owned(bitmap: seq<bv8>, table: seq<Entry>) {
    8 * |bitmap| == |table| && forall i: nat :: i < |table| ==> (Bit(bitmap, i) <==> table[i].pid > 0)
  }

  /** Frames that were free may have become frames of pid; the others are as they were. */
  ghost predicate OnlyAdds(before: seq<Entry>, after: seq<Entry>, pid: int) {
    && |after| == |before|
    && (forall i :: 0 <= i < |before| ==> after[i] == before[i] || (before[i].pid == 0 && after[i].pid == pid))
  }

  lemma OwnedFacts(t: Tlb<Page>, bits: seq<bv8>, x: Entry)
    requires Valid(t) && Owned(bits, t.table)
    ensures 8 * |bits| == |t.table| == |t.frames| && t.resident != 0
    ensures x.pid > 0 && x !in View(t) ==> x !in t.table
    ensures forall i: nat :: i < |t.table| ==> (Bit(bits, i) <==> t.table[i].pid > 0)
    ensures forall i: nat :: i < |t.table| ==> t.table[i].pid >= 0
  {
    hide Bit;
  }

  lemma OwnedAfter(table: seq<Entry>, bits: seq<bv8>, bits': seq<bv8>, frame: nat, x: Entry)
    requires Owned(bits, table) && |bits'| == |bits| && frame < |table| && x.pid > 0
    requires forall j: nat :: j < |table| ==> (Bit(bits', j) <==> j == frame || Bit(bits, j))
    ensures Owned(bits', table[frame := x])
  {
    hide Bit;
  }

  /** Ownership determines the packed bitmap. */
  lemma OwnersDetermineBitmap(a: seq<bv8>, ta: seq<Entry>, b: seq<bv8>, tb: seq<Entry>)
    requires Owned(a, ta) && Owned(b, tb) && |ta| == |tb|
    requires forall i :: 0 <= i < |ta| ==> (ta[i].pid > 0 <==> tb[i].pid > 0)
    ensures a == b
  {
    hide Bit;
    SameBitmap(a, b);
  }

  /** The number of frames without an owner. */
  ghost function FreeFrames(table: seq<Entry>): nat { |FreeSet(table)| }

  ghost function FreeSet(table: seq<Entry>): set<nat> { set i: nat | i < |table| && table[i].pid == 0 }

  lemma TakeFrame(table: seq<Entry>, frame: nat, x: Entry)
    requires frame < |table| && table[frame].pid == 0 && x.pid != 0
    ensures FreeFrames(table) > 0 && FreeFrames(table[frame := x]) == FreeFrames(table) - 1
  {
    assert frame in FreeSet(table);
    assert FreeSet(table[frame := x]) == FreeSet(table) - {frame};
  }

  lemma NoFreeFrame(table: seq<Entry>)
    requires forall i :: 0 <= i < |table| ==> table[i].pid > 0
    ensures FreeFrames(table) == 0
  {
    assert FreeSet(table) == {};
  }

  /** The frames that the first n segments take. */
  function PagesOf(segs: seq<Segment>, n: nat): nat
    requires n <= |segs|
  {
    if n == 0 then 0 else PagesOf(segs, n - 1) + (if segs[n - 1].Skipped() then 0 else segs[n - 1].Pages())
  }

  lemma PagesOfGrows(segs: seq<Segment>, n: nat)
    requires n <= |segs|
    ensures PagesOf(segs, n) <= PagesOf(segs, |segs|)
    decreases |segs| - n
  {
    if n < |segs| { PagesOfGrows(segs, n + 1); }
  }

  /** The pages of the segments lie in the code area and do not overlap. */
  ghost predicate Laid(segs: seq<Segment>) {
    && (forall i :: 0 <= i < |segs| && !segs[i].Skipped() ==> segs[i].Placed())
    && (forall i, j, x: Entry :: 0 <= i < j < |segs| && !segs[i].Skipped() && !segs[j].Skipped() ==>
          !(segs[i].Covers(x, x.pid) && segs[j].Covers(x, x.pid)))
  }

  ghost predicate CoveredBy(segs: seq<Segment>, n: nat, x: Entry, pid: int)
    requires n <= |segs|
  {
    exists i :: 0 <= i < n && !segs[i].Skipped() && segs[i].Covers(x, pid)
  }

  /** Compared with before, exactly the pages of the first n segments are new, with their image. */
  ghost predicate Loaded(m: Memory<Page>, m0: Memory<Page>, pid: int, segs: seq<Segment>, n: nat, reader: Reader)
    requires n <= |segs|
  {
    && (forall x :: x in m <==> x in m0 || CoveredBy(segs, n, x, pid))
    && (forall x :: x in m0 ==> m[x] == m0[x])
    && (forall i, x :: 0 <= i < n && !segs[i].Skipped() && segs[i].Covers(x, pid) && x in m ==>
          m[x] == SegPage(reader, segs[i].StartBlock(), segs[i].filesz, x.vpage - segs[i].First()))
  }

  // ---------- the image in memory ----------

  /** The page of a process that holds an address of the user region. */
  function PageAt(pid: int, addr: nat): Entry
    requires addr >= APPS_ENTRY
  {
    Entry(pid, addr / PAGE_SIZE - FIRST_PAGE)
  }

  /** In the memory that elf_load builds, aligned or not: the bytes on the pages mapped for a segment
      are those of its image, and zero after the file part. */
  lemma LoadedByte(m: Memory<Page>, m0: Memory<Page>, pid: int, segs: seq<Segment>, i: nat, reader: Reader, k: nat)
    requires Loaded(m, m0, pid, segs, |segs|, reader) && i < |segs| && segs[i].vaddr >= 0x80000000 && segs[i].Placed()
    requires MappedAt(segs[i], k)
    ensures segs[i].vaddr >= APPS_ENTRY && PageAt(pid, segs[i].vaddr + k) in m
    ensures m[PageAt(pid, segs[i].vaddr + k)][(segs[i].vaddr + k) % PAGE_SIZE]
        == ImageByte(segs[i], reader, segs[i].vaddr + k)
    ensures k >= segs[i].filesz ==> m[PageAt(pid, segs[i].vaddr + k)][(segs[i].vaddr + k) % PAGE_SIZE] == 0
  {
    hide SegPage, SegBytes, Segment.Pages, Segment.First, Segment.Placed, Segment.Covers;
    var seg := segs[i];
    PageOfByte(seg, pid, k);
    assert CoveredBy(segs, |segs|, PageAt(pid, seg.vaddr + k), pid);
    ImageByteIsInPage(seg, reader, seg.vaddr + k);
  }

  lemma PageOfByte(seg: Segment, pid: int, k: nat)
    requires seg.Placed()
    ensures seg.vaddr >= APPS_ENTRY
    ensures MappedAt(seg, k) <==> seg.Covers(PageAt(pid, seg.vaddr + k), pid)
    ensures PageAt(pid, seg.vaddr + k).vpage - seg.First() == (seg.vaddr + k) / PAGE_SIZE - seg.vaddr / PAGE_SIZE >= 0
  {
    hide Segment.Pages;
    assert seg.vaddr / 4096 <= (seg.vaddr + k) / 4096;
  }

  /** A byte that is not on a page mapped for its segment is not mapped, unless another segment
      happens to cover that page. */
  lemma UnmappedByte(m: Memory<Page>, m0: Memory<Page>, pid: int, segs: seq<Segment>, i: nat, reader: Reader, k: nat)
    requires Loaded(m, m0, pid, segs, |segs|, reader) && i < |segs| && segs[i].vaddr >= 0x80000000 && segs[i].Placed()
    requires !MappedAt(segs[i], k) && forall x :: x in m0 ==> x.pid != pid
    ensures segs[i].vaddr >= APPS_ENTRY
    ensures PageAt(pid, segs[i].vaddr + k) in m ==>
      exists j :: 0 <= j < |segs| && j != i && !segs[j].Skipped() && segs[j].Covers(PageAt(pid, segs[i].vaddr + k), pid)
  {
    hide SegPage, Segment.Pages, Segment.First, Segment.Placed, Segment.Covers, MappedAt;
    PageOfByte(segs[i], pid, k);
  }

  /** In memory m, byte k of the segment's part of the file is at address vaddr + k. */
  ghost predicate ByteIn(m: Memory<Page>, pid: int, seg: Segment, reader: Reader, k: nat) {
    && seg.vaddr >= APPS_ENTRY
    && PageAt(pid, seg.vaddr + k) in m
    && m[PageAt(pid, seg.vaddr + k)][(seg.vaddr + k) % PAGE_SIZE] == ByteOfFile(reader, seg.offset + k)
  }

  ghost predicate RightIn(m: Memory<Page>, pid: int, seg: Segment, reader: Reader) {
    forall k: nat :: k < seg.filesz ==> ByteIn(m, pid, seg, reader, k)
  }

  /** Every aligned segment of a program is where its header asks for it, whatever the file holds. */
  lemma LoadedRight(m: Memory<Page>, m0: Memory<Page>, pid: int, segs: seq<Segment>, i: nat, reader: Reader)
    requires Loaded(m, m0, pid, segs, |segs|, reader) && i < |segs| && segs[i].vaddr >= 0x80000000 && segs[i].Placed()
    requires Aligned(segs[i]) || segs[i].filesz == 0
    ensures RightIn(m, pid, segs[i], reader)
  {
    hide Loaded, ImageByte, ByteOfFile, MappedAt;
    AlignedIsRight(segs[i], reader);
    forall k: nat | k < segs[i].filesz
      ensures ByteIn(m, pid, segs[i], reader, k)
    {
      assert RightAt(segs[i], reader, k);
      LoadedByte(m, m0, pid, segs, i, reader, k);
    }
  }

  /** All bytes of the pages of an aligned segment: byte k is byte k of its part of the file, and zero
      behind it. */
  lemma LoadedImage(m: Memory<Page>, m0: Memory<Page>, pid: int, segs: seq<Segment>, i: nat, reader: Reader, k: nat)
    requires Loaded(m, m0, pid, segs, |segs|, reader) && i < |segs| && segs[i].vaddr >= 0x80000000 && segs[i].Placed()
    requires Aligned(segs[i]) && k < PAGE_SIZE * segs[i].Pages()
    ensures segs[i].vaddr >= APPS_ENTRY && PageAt(pid, segs[i].vaddr + k) in m
    ensures m[PageAt(pid, segs[i].vaddr + k)][(segs[i].vaddr + k) % PAGE_SIZE]
            == if k < segs[i].filesz then ByteOfFile(reader, segs[i].offset + k) else 0
  {
    hide Loaded, ImageByte, ByteOfFile, Segment.Pages;
    var seg := segs[i];
    assert (seg.vaddr + k) / 4096 == seg.vaddr / 4096 + k / 4096;
    LoadedByte(m, m0, pid, segs, i, reader, k);
    LoadedRight(m, m0, pid, segs, i, reader);
    assert k < seg.filesz ==> ByteIn(m, pid, seg, reader, k);
  }

  /** The memory that loading one segment builds. */
  ghost function Image(m0: Memory<Page>, pid: int, seg: Segment, reader: Reader): Memory<Page>
    requires seg.Placed()
  {
    m0 + map x | x in PageSet(pid, seg.First(), seg.Pages()) ::
           SegPage(reader, seg.StartBlock(), seg.filesz, x.vpage - seg.First())
  }

  lemma ImageShows(m0: Memory<Page>, pid: int, seg: Segment, reader: Reader)
    requires seg.Placed() && forall x :: InPages(x, pid, seg.First(), seg.Pages()) ==> x !in m0
    ensures Shows(Image(m0, pid, seg, reader), m0, pid, seg.First(), seg.Pages(), reader, seg.StartBlock(), seg.filesz)
  {
    hide SegPage, Segment.First, Segment.Pages;
  }

  ghost function PageSet(pid: int, first: int, n: nat): (r: set<Entry>)
    requires first >= 0
    ensures forall x :: x in r <==> InPages(x, pid, first, n)
  {
    set v: nat | first <= v < first + n :: Entry(pid, v)
  }

  // ---------- the fixed pages ----------

  /** The bytes at an address of a process. */
  predicate BytesIn(m: Memory<Page>, pid: int, addr: nat, bytes: seq<Byte>) {
    && addr >= 0x80200000 && addr % 4096 + |bytes| <= 4096
    && PageAt(pid, addr) in m
    && m[PageAt(pid, addr)][addr % 4096..addr % 4096 + |bytes|] == bytes
  }

  /** The word at an address of a process. */
  predicate WordIn(m: Memory<Page>, pid: int, addr: nat, w: int) {
    && addr >= 0x80200000 && addr % 4096 + 4 <= 4096
    && PageAt(pid, addr) in m
    && WordAt(m[PageAt(pid, addr)], addr % 4096) == w
  }

  /** argv[i] is the address of a copy of argument i. */
  ghost predicate ArgIn(m: Memory<Page>, pid: int, i: nat, args: seq<Byte>)
    requires 32 * i + 32 <= |args|
  {
    exists a: nat :: ArgAt(m, pid, i, args, a)
  }

  predicate ArgAt(m: Memory<Page>, pid: int, i: nat, args: seq<Byte>, a: nat)
    requires 32 * i + 32 <= |args|
  {
    WordIn(m, pid, 0x80300004 + 4 * i, a) && BytesIn(m, pid, a, args[32 * i..32 * i + 32])
  }

  /** What a process finds at the addresses it starts with: argc at 0x80300000, argv behind it with the
      argument strings, a blank page for system calls, and two blank pages below the stack top. */
  ghost predicate StartPages(m: Memory<Page>, pid: int, argc: nat, args: seq<Byte>) {
    && argc <= 16 && |args| == 32 * argc
    && WordIn(m, pid, 0x80300000, argc)
    && (forall i: nat :: i < argc ==> ArgIn(m, pid, i, args))
    && BytesIn(m, pid, 0x80301000, seq(4096, _ => 0))
    && BytesIn(m, pid, 0x803FF000, seq(4096, _ => 0))
    && BytesIn(m, pid, 0x803FE000, seq(4096, _ => 0))
  }

  lemma PageStarts(m: Memory<Page>, pid: int, addr: nat)
    requires addr >= 0x80200000 && addr % 4096 == 0 && PageAt(pid, addr) in m && m[PageAt(pid, addr)] == ZeroPage()
    ensures BytesIn(m, pid, addr, seq(4096, _ => 0))
  {
    var p := m[PageAt(pid, addr)];
    assert p[0..4096] == p;
    assert p == seq(4096, _ => 0);
  }

  lemma ArgReached(m: Memory<Page>, pid: int, p: Page, argc: nat, args: seq<Byte>, i: nat)
    requires PageAt(pid, 0x80300000) in m && m[PageAt(pid, 0x80300000)] == p && ArgPage(p, argc, args) && i < argc
    ensures ArgIn(m, pid, i, args)
  {
    hide ArgPage, StringAt;
    ArgFacts(p, argc, args, i);
    var a := 0x80300044 + 32 * i;
    assert PageAt(pid, 0x80300004 + 4 * i) == PageAt(pid, 0x80300000) == PageAt(pid, a);
    assert WordIn(m, pid, 0x80300004 + 4 * i, a);
    assert ArgAt(m, pid, i, args, a);
  }

  lemma ArgFacts(p: Page, argc: nat, args: seq<Byte>, i: nat)
    requires ArgPage(p, argc, args) && i < argc
    ensures i < 16 && |args| == 32 * argc && WordAt(p, 4 + 4 * i) == 0x80300044 + 32 * i
    ensures p[68 + 32 * i..68 + 32 * i + 32] == args[32 * i..32 * i + 32]
  {
    assert StringAt(p, i) == args[32 * i..32 * i + 32];
  }

  /** The pages that elf_load adds are at those addresses. */
  lemma FixedPages(m: Memory<Page>, m1: Memory<Page>, pid: int, p: Page, argc: nat, args: seq<Byte>)
    requires ArgPage(p, argc, args)
    requires m1 == m[Entry(pid, ARG_PAGE) := p][Entry(pid, SYSCALL_PAGE) := ZeroPage()]
                    [Entry(pid, STACK_TOP_PAGE - 1) := ZeroPage()][Entry(pid, STACK_TOP_PAGE - 2) := ZeroPage()]
    ensures StartPages(m1, pid, argc, args)
  {
    hide ZeroPage, ArgIn;
    forall i: nat | i < argc ensures ArgIn(m1, pid, i, args) { ArgReached(m1, pid, p, argc, args, i); }
    PageStarts(m1, pid, 0x80301000);
    PageStarts(m1, pid, 0x803FF000);
    PageStarts(m1, pid, 0x803FE000);
  }

  class Loader {
    const mmu: SoftTlb.Mmu<Page>
    const alloc: PageAllocator

    constructor (mmu: SoftTlb.Mmu<Page>, alloc: PageAllocator)
      ensures this.mmu == mmu && this.alloc == alloc
    {
      this.mmu, this.alloc := mmu, alloc;
    }

    ghost predicate Sound()
      reads this, mmu, mmu.table, mmu.frames, mmu.region, alloc, alloc.bitmap
    {
      && mmu.Distinct() && Valid(mmu.Value()) && alloc.Valid()
      && alloc.bitmap as object != mmu.table && alloc.bitmap as object != mmu.frames
          && alloc.bitmap as object != mmu.region
      && mmu.region.Length == STACK_TOP_PAGE && alloc.pages == mmu.table.Length == mmu.frames.Length
      && Owned(alloc.bitmap[..], mmu.table[..])
    }

    ghost function Mem(): Memory<Page>
      requires Sound()
      reads this, mmu, mmu.table, mmu.frames, mmu.region, alloc, alloc.bitmap
    {
      View(mmu.Value())
    }

    /** mmu_alloc and mmu_map: a zeroed frame becomes page vpage of pid; fails when no frame is free. */
    method NewPage(pid: int, vpage: nat) returns (ok: bool, frame: nat)
      requires Sound() && pid > 0 && pid != mmu.resident && vpage < STACK_TOP_PAGE && Entry(pid, vpage) !in Mem()
      modifies alloc.bitmap, mmu.table, mmu.frames
      ensures ok ==> Sound() && Mem() == old(Mem())[Entry(pid, vpage) := ZeroPage()]
      ensures ok ==> frame < mmu.table.Length && mmu.table[frame] == Entry(pid, vpage)
      ensures ok ==> old(mmu.table[..])[frame].pid == 0
      ensures ok ==> mmu.table[..] == old(mmu.table[..])[frame := Entry(pid, vpage)] && mmu.frames[frame] == ZeroPage()
      ensures ok <==> FreeFrames(old(mmu.table[..])) > 0
      ensures ok ==> FreeFrames(mmu.table[..]) == FreeFrames(old(mmu.table[..])) - 1
    {
      hide Bit, ZeroPage, Valid, View, Owned, FreeFrames;
      ghost var t := mmu.Value();
      ghost var bits := alloc.bitmap[..];
      OwnedFacts(t, bits, Entry(pid, vpage));
      ok, frame := alloc.Take();
      assert mmu.Value() == t;
      if !ok {
        NoFreeFrame(t.table);
        return;
      }
      assert t.table[frame].pid == 0 && t.table[frame] == mmu.table[frame];
      TakeFrame(t.table, frame, Entry(pid, vpage));
      mmu.FillFrame(frame, ZeroPage());
      mmu.Map(pid, vpage, frame);
      OwnedAfter(t.table, bits, alloc.bitmap[..], frame, Entry(pid, vpage));
    }

    /** A copy into a frame of a process that is not resident. */
    method FillPage(frame: nat, page: Page)
      requires Sound() && frame < mmu.table.Length && mmu.table[frame].pid > 0 && mmu.table[frame].pid != mmu.resident
      modifies mmu.frames
      ensures Sound() && Mem() == old(Mem())[mmu.table[frame] := page]
      ensures mmu.table[..] == old(mmu.table[..]) && mmu.frames[frame] == page
    {
      hide Valid, View, Owned;
      mmu.FillFrame(frame, page);
    }

    /** Allocates and maps the next page of a segment. */
    method GrowSegment(pid: int, first: nat, n: nat, ghost m0: Memory<Page>, ghost t0: seq<Entry>,
                       ghost reader: Reader, ghost start: nat, ghost limit: nat)
      returns (ok: bool, frame: nat)
      requires Sound() && pid > 0 && pid != mmu.resident && first + n < STACK_TOP_PAGE && Entry(pid, first + n) !in m0
      requires Shows(Mem(), m0, pid, first, n, reader, start, limit) && limit <= 4096 * n
      requires OnlyAdds(t0, mmu.table[..], pid)
      modifies alloc.bitmap, mmu.table, mmu.frames
      ensures ok ==> Sound() && OnlyAdds(t0, mmu.table[..], pid)
      ensures ok ==> Shows(Mem(), m0, pid, first, n + 1, reader, start, limit)
      ensures ok ==> frame < mmu.table.Length && mmu.table[frame] == Entry(pid, first + n)
      ensures ok ==> mmu.frames[frame] == SegPage(reader, start, limit, n)
      ensures ok <==> FreeFrames(old(mmu.table[..])) > 0
      ensures ok ==> FreeFrames(mmu.table[..]) == FreeFrames(old(mmu.table[..])) - 1
    {
      hide Valid, View, Owned, ZeroPage, SegPage, SegByte, FreeFrames;
      ShowsNewPage(Mem(), m0, pid, first, n, reader, start, limit);
      ZeroTail(reader, start, limit, n);
      ok, frame := NewPage(pid, first + n);
    }

    /** Copies one block of the file into the last page of a segment. */
    method CopyIn(frame: nat, buf: FileBlock, off: nat, size: nat, ghost pid: int, ghost first: nat,
                  ghost m0: Memory<Page>, ghost reader: Reader, ghost start: nat)
      requires Sound() && pid > 0 && pid != mmu.resident && frame < mmu.table.Length
      requires mmu.table[frame] == Entry(pid, first + off / 4096)
      requires mmu.frames[frame] == SegPage(reader, start, off, off / 4096)
      requires off % 512 == 0 && 0 < size <= 512 && buf == reader(start + off / 512)
      requires forall x :: InPages(x, pid, first, off / 4096 + 1) ==> x !in m0
      requires Shows(Mem(), m0, pid, first, off / 4096 + 1, reader, start, off)
      modifies mmu.frames
      ensures Sound() && mmu.table[..] == old(mmu.table[..])
      ensures mmu.frames[frame] == SegPage(reader, start, off + size, off / 4096)
      ensures Shows(Mem(), m0, pid, first, off / 4096 + 1, reader, start, off + size)
    {
      hide Valid, View, Owned, ZeroPage, SegPage, SegByte, SegBytes, FileByte, Shows;
      ghost var n := off / 4096 + 1;
      CopyBlock(reader, start, off, off + size);
      ShowsNewBlock(Mem(), m0, pid, first, n, reader, start, off, off + size,
                    SegPage(reader, start, off + size, n - 1));
      var page := mmu.frames[frame];
      FillPage(frame, page[..off % 4096] + buf[..size] + page[off % 4096 + size..]);
    }

    /** One block of the file part; every eighth block gets a new page first. */
    method LoadBlock(pid: int, seg: Segment, reader: Reader, off: nat, last: nat,
                     ghost m0: Memory<Page>, ghost t0: seq<Entry>)
      returns (ok: bool, frame: nat)
      requires Sound() && OnlyAdds(t0, mmu.table[..], pid) && pid > 0 && pid != mmu.resident && seg.Placed()
      requires forall x :: InPages(x, pid, seg.First(), seg.Pages()) ==> x !in m0
      requires off % 512 == 0 && off < seg.filesz
      requires Shows(Mem(), m0, pid, seg.First(), (off + 4095) / 4096, reader, seg.StartBlock(), off)
      requires off % 4096 != 0 ==> InFrame(last, pid, seg, reader, off)
      modifies alloc.bitmap, mmu.table, mmu.frames
      ensures ok <==> off % 4096 != 0 || FreeFrames(old(mmu.table[..])) > 0
      ensures ok ==> Sound() && OnlyAdds(t0, mmu.table[..], pid)
      ensures ok ==> FreeFrames(mmu.table[..]) == FreeFrames(old(mmu.table[..])) - (if off % 4096 == 0 then 1 else 0)
      ensures ok ==> Shows(Mem(), m0, pid, seg.First(), (off + 512 + 4095) / 4096, reader, seg.StartBlock(),
                           if off + 512 < seg.filesz then off + 512 else seg.filesz)
      ensures ok && off + 512 < seg.filesz && (off + 512) % 4096 != 0 ==> InFrame(frame, pid, seg, reader, off + 512)
    {
      hide Valid, View, Owned, ZeroPage, SegPage, SegByte, SegBytes, FileByte, Shows, OnlyAdds, FreeFrames;
      BlockSteps(off);
      var first: nat, n: nat := seg.First(), off / 4096;
      ok, frame := true, last;
      if off % 4096 == 0 {
        assert InPages(Entry(pid, first + n), pid, first, seg.Pages());
        ok, frame := GrowSegment(pid, first, n, m0, t0, reader, seg.StartBlock(), off);
        if !ok { return; }
      }
      var size := if off + 512 < seg.filesz then 512 else seg.filesz - off;
      var buf := reader(seg.StartBlock() + off / 512);
      CopyIn(frame, buf, off, size, pid, first, m0, reader, seg.StartBlock());
    }

    /** The page in the frame is the one that byte off of the file part goes to, filled up to there. */
    ghost predicate InFrame(frame: nat, pid: int, seg: Segment, reader: Reader, off: nat)
      reads this, mmu, mmu.table, mmu.frames
    {
      && frame < mmu.table.Length == mmu.frames.Length
      && 0 <= seg.First() && mmu.table[frame] == Entry(pid, seg.First() + off / 4096)
      && mmu.frames[frame] == SegPage(reader, seg.StartBlock(), off, off / 4096)
    }

    /** The part of a segment that comes from the file, one page for every eight blocks. */
    method LoadFile(pid: int, seg: Segment, reader: Reader, ghost m0: Memory<Page>, ghost t0: seq<Entry>)
      returns (ok: bool)
      requires Sound() && pid > 0 && pid != mmu.resident && seg.Placed() && m0 == Mem() && t0 == mmu.table[..]
      requires forall x :: InPages(x, pid, seg.First(), seg.Pages()) ==> x !in m0
      modifies alloc.bitmap, mmu.table, mmu.frames
      ensures ok ==> Sound() && OnlyAdds(t0, mmu.table[..], pid)
      ensures ok ==> Shows(Mem(), m0, pid, seg.First(), seg.FilePages(), reader, seg.StartBlock(), seg.filesz)
      ensures ok <==> FreeFrames(t0) >= seg.FilePages()
      ensures ok ==> FreeFrames(mmu.table[..]) == FreeFrames(t0) - seg.FilePages()
    {
      hide Valid, View, Owned, ZeroPage, SegPage, SegByte, SegBytes, FileByte, Shows, OnlyAdds, FreeFrames, InPages;
      NothingLoaded(m0, t0, pid, seg.First(), reader, seg.StartBlock());
      var off: nat, frame: nat := 0, 0;
      while off < seg.filesz
        invariant Sound() && OnlyAdds(t0, mmu.table[..], pid)
        invariant off % 512 == 0 && off < seg.filesz + 512
        invariant FreeFrames(mmu.table[..]) == FreeFrames(t0) - (off + 4095) / 4096
        invariant Shows(Mem(), m0, pid, seg.First(), (off + 4095) / 4096, reader, seg.StartBlock(),
                        if off < seg.filesz then off else seg.filesz)
        invariant off % 4096 != 0 && off < seg.filesz ==> InFrame(frame, pid, seg, reader, off)
      {
        BlockSteps(off);
        ok, frame := LoadBlock(pid, seg, reader, off, frame, m0, t0);
        if !ok { return; }
        off := off + 512;
      }
      ok := true;
    }

    /** One segment of the program: the file part, then zero pages up to its size in memory. */
    method LoadSegment(pid: int, seg: Segment, reader: Reader) returns (ok: bool)
      requires Sound() && pid > 0 && pid != mmu.resident && seg.Placed()
      requires forall x :: InPages(x, pid, seg.First(), seg.Pages()) ==> x !in Mem()
      modifies alloc.bitmap, mmu.table, mmu.frames
      ensures ok ==> Sound() && OnlyAdds(old(mmu.table[..]), mmu.table[..], pid)
      ensures ok ==> Shows(Mem(), old(Mem()), pid, seg.First(), seg.Pages(), reader, seg.StartBlock(), seg.filesz)
      ensures ok <==> FreeFrames(old(mmu.table[..])) >= seg.Pages()
      ensures ok ==> FreeFrames(mmu.table[..]) == FreeFrames(old(mmu.table[..])) - seg.Pages()
    {
      hide Valid, View, Owned, ZeroPage, SegPage, SegByte, SegBytes, FileByte, Shows, OnlyAdds, FreeFrames;
      ghost var m0, t0 := Mem(), mmu.table[..];
      ok := LoadFile(pid, seg, reader, m0, t0);
      if !ok { return; }
      var first: nat, n: nat := seg.First(), seg.FilePages();
      while n < seg.MemPages()
        invariant Sound() && OnlyAdds(t0, mmu.table[..], pid)
        invariant seg.FilePages() <= n <= seg.Pages()
        invariant FreeFrames(mmu.table[..]) == FreeFrames(t0) - n
        invariant Shows(Mem(), m0, pid, first, n, reader, seg.StartBlock(), seg.filesz)
      {
        assert InPages(Entry(pid, first + n), pid, first, seg.Pages());
        var frame;
        ok, frame := GrowSegment(pid, first, n, m0, t0, reader, seg.StartBlock(), seg.filesz);
        if !ok { return; }
        n := n + 1;
      }
      ok := true;
    }

    /** All segments; those below RAM_START are skipped. */
    method LoadSegments(pid: int, segs: seq<Segment>, reader: Reader) returns (ok: bool)
      requires Sound() && pid > 0 && pid != mmu.resident && Laid(segs)
      requires forall x :: x in Mem() ==> x.pid != pid
      modifies alloc.bitmap, mmu.table, mmu.frames
      ensures ok ==> Sound() && OnlyAdds(old(mmu.table[..]), mmu.table[..], pid)
      ensures ok ==> Loaded(Mem(), old(Mem()), pid, segs, |segs|, reader)
      ensures ok <==> FreeFrames(old(mmu.table[..])) >= PagesOf(segs, |segs|)
      ensures ok ==> FreeFrames(mmu.table[..]) == FreeFrames(old(mmu.table[..])) - PagesOf(segs, |segs|)
    {
      hide Valid, View, Owned, ZeroPage, SegPage, SegByte, SegBytes, FileByte, Shows, OnlyAdds, Loaded, Laid,
          FreeFrames;
      ghost var m0, t0 := Mem(), mmu.table[..];
      NoSegments(m0, t0, pid, segs, reader);
      var i: nat := 0;
      while i < |segs|
        invariant 0 <= i <= |segs| && Sound() && OnlyAdds(t0, mmu.table[..], pid)
        invariant Loaded(Mem(), m0, pid, segs, i, reader)
        invariant FreeFrames(mmu.table[..]) == FreeFrames(t0) - PagesOf(segs, i)
      {
        PagesOfGrows(segs, i + 1);
        ghost var m, t := Mem(), mmu.table[..];
        SegmentIsFree(m, m0, pid, segs, i, reader);
        if segs[i].vaddr >= RAM_START {
          ok := LoadSegment(pid, segs[i], reader);
          if !ok { return; }
          SegmentAdded(m, m0, pid, segs, i, reader, Mem());
          AddsCompose(t0, t, mmu.table[..], pid);
        }
        i := i + 1;
      }
      ok := true;
    }

    /** elf_load: the segments, the arguments, a page for system calls and two stack pages.  m is the
        memory once the segments are in, p the argument page. */
    method ElfLoad(pid: int, segs: seq<Segment>, reader: Reader, argc: nat, args: seq<Byte>)
      returns (ok: bool, ghost m: Memory<Page>, ghost p: Page)
      requires Sound() && pid > 0 && pid != mmu.resident && Laid(segs)
      requires forall x :: x in Mem() ==> x.pid != pid
      requires argc <= CMD_NARGS && |args| == CMD_ARG_LEN * argc
      modifies alloc.bitmap, mmu.table, mmu.frames
      ensures ok ==> Sound() && OnlyAdds(old(mmu.table[..]), mmu.table[..], pid)
      ensures ok ==> Loaded(m, old(Mem()), pid, segs, |segs|, reader) && ArgPage(p, argc, args)
      ensures ok ==> Mem() == m[Entry(pid, ARG_PAGE) := p][Entry(pid, SYSCALL_PAGE) := ZeroPage()]
                              [Entry(pid, STACK_TOP_PAGE - 1) := ZeroPage()]
                              [Entry(pid, STACK_TOP_PAGE - 2) := ZeroPage()]
      ensures ok ==> StartPages(Mem(), pid, argc, args) && forall x :: x in m ==> x in Mem() && Mem()[x] == m[x]
      ensures ok <==> FreeFrames(old(mmu.table[..])) >= PagesOf(segs, |segs|) + 4
      ensures ok ==> FreeFrames(mmu.table[..]) == FreeFrames(old(mmu.table[..])) - PagesOf(segs, |segs|) - 4
    {
      hide Valid, View, Owned, ZeroPage, SegPage, SegByte, SegBytes, FileByte, Shows, OnlyAdds, Loaded, Laid,
          ArgPage, FreeFrames, StartPages;
      ghost var m0, t0 := Mem(), mmu.table[..];
      m, p := m0, ZeroPage();
      ok := LoadSegments(pid, segs, reader);
      if !ok { return; }
      m := Mem();
      FixedPagesFree(m, m0, pid, segs, reader, ARG_PAGE);
      FixedPagesFree(m, m0, pid, segs, reader, SYSCALL_PAGE);
      FixedPagesFree(m, m0, pid, segs, reader, STACK_TOP_PAGE - 1);
      FixedPagesFree(m, m0, pid, segs, reader, STACK_TOP_PAGE - 2);
      ok, p := AddArgPage(pid, argc, args, t0);
      if !ok { return; }
      ok := AddBlankPages(pid, t0);
      if !ok { return; }
      FixedPages(m, Mem(), pid, p, argc, args);
    }

    method AddArgPage(pid: int, argc: nat, args: seq<Byte>, ghost t0: seq<Entry>) returns (ok: bool, p: Page)
      requires Sound() && pid > 0 && pid != mmu.resident && Entry(pid, ARG_PAGE) !in Mem()
      requires OnlyAdds(t0, mmu.table[..], pid) && argc <= CMD_NARGS && |args| == CMD_ARG_LEN * argc
      modifies alloc.bitmap, mmu.table, mmu.frames
      ensures ok ==> Sound() && OnlyAdds(t0, mmu.table[..], pid) && ArgPage(p, argc, args)
      ensures ok ==> Mem() == old(Mem())[Entry(pid, ARG_PAGE) := p]
      ensures ok <==> FreeFrames(old(mmu.table[..])) > 0
      ensures ok ==> FreeFrames(mmu.table[..]) == FreeFrames(old(mmu.table[..])) - 1
    {
      hide Valid, View, Owned, ZeroPage, OnlyAdds, ArgPage, FreeFrames;
      ghost var m: Memory<Page> := Mem();
      p := BuildArgPage(argc, args);
      var frame;
      ok, frame := AddPage(pid, ARG_PAGE, t0);
      if !ok { return; }
      FillPage(frame, p);
      assert Mem() == m[Entry(pid, ARG_PAGE) := p];
    }

    /** The page for system calls and the two stack pages. */
    method AddBlankPages(pid: int, ghost t0: seq<Entry>) returns (ok: bool)
      requires Sound() && pid > 0 && pid != mmu.resident && OnlyAdds(t0, mmu.table[..], pid)
      requires Entry(pid, SYSCALL_PAGE) !in Mem()
      requires Entry(pid, STACK_TOP_PAGE - 1) !in Mem() && Entry(pid, STACK_TOP_PAGE - 2) !in Mem()
      modifies alloc.bitmap, mmu.table, mmu.frames
      ensures ok ==> Sound() && OnlyAdds(t0, mmu.table[..], pid)
      ensures ok ==> Mem() == old(Mem())[Entry(pid, SYSCALL_PAGE) := ZeroPage()]
                              [Entry(pid, STACK_TOP_PAGE - 1) := ZeroPage()]
                              [Entry(pid, STACK_TOP_PAGE - 2) := ZeroPage()]
      ensures ok <==> FreeFrames(old(mmu.table[..])) >= 3
      ensures ok ==> FreeFrames(mmu.table[..]) == FreeFrames(old(mmu.table[..])) - 3
    {
      hide Valid, View, Owned, ZeroPage, OnlyAdds, FreeFrames;
      var frame;
      ok, frame := AddPage(pid, SYSCALL_PAGE, t0);
      if !ok { return; }
      ok, frame := AddPage(pid, STACK_TOP_PAGE - 1, t0);
      if !ok { return; }
      ok, frame := AddPage(pid, STACK_TOP_PAGE - 2, t0);
    }

    method AddPage(pid: int, vpage: nat, ghost t0: seq<Entry>) returns (ok: bool, frame: nat)
      requires Sound() && pid > 0 && pid != mmu.resident && vpage < STACK_TOP_PAGE && Entry(pid, vpage) !in Mem()
      requires OnlyAdds(t0, mmu.table[..], pid)
      modifies alloc.bitmap, mmu.table, mmu.frames
      ensures ok ==> Sound() && Mem() == old(Mem())[Entry(pid, vpage) := ZeroPage()] && OnlyAdds(t0, mmu.table[..], pid)
      ensures ok ==> frame < mmu.table.Length && mmu.table[frame] == Entry(pid, vpage)
      ensures ok <==> FreeFrames(old(mmu.table[..])) > 0
      ensures ok ==> FreeFrames(mmu.table[..]) == FreeFrames(old(mmu.table[..])) - 1
    {
      hide Valid, View, Owned, ZeroPage, FreeFrames;
      ok, frame := NewPage(pid, vpage);
    }

    /** soft_tlb_free with pfree: the frames of pid lose their owner and their bits are cleared. */
    method Release(pid: int)
      requires Sound() && pid > 0
      modifies alloc.bitmap, mmu.table
      ensures Sound() && mmu.table[..] == Released(old(mmu.table[..]), pid)
      ensures Mem() == map x | x in old(Mem()) && x.pid != pid :: old(Mem())[x]
    {
      hide Bit, View, Valid;
      ghost var t, bits := mmu.Value(), alloc.bitmap[..];
      OwnedFacts(t, bits, Entry(pid, 0));
      ReleaseView(t, pid);
      var i: nat := 0;
      while i < mmu.table.Length
        invariant 0 <= i <= mmu.table.Length && alloc.Valid()
        invariant mmu.frames[..] == t.frames && mmu.region[..] == t.region
        invariant forall j: nat :: j < i ==> mmu.table[j] == Released(t.table, pid)[j]
        invariant forall j: nat :: i <= j < mmu.table.Length ==> mmu.table[j] == t.table[j]
        invariant forall j: nat :: j < mmu.table.Length ==> (Bit(alloc.bitmap[..], j) <==> mmu.table[j].pid > 0)
      {
        if mmu.table[i].pid == pid {
          mmu.table[i] := mmu.table[i].(pid := 0);
          alloc.Clear(i);
        }
        i := i + 1;
      }
      assert mmu.table[..] == Released(t.table, pid);
      assert mmu.Value() == t.(table := Released(t.table, pid));
    }

    /** Loading a process and freeing it again restores the packed bitmap exactly. */
    method LoadThenFree(pid: int, segs: seq<Segment>, reader: Reader, argc: nat, args: seq<Byte>) returns (ok: bool)
      requires Sound() && pid > 0 && pid != mmu.resident && Laid(segs)
      requires forall i :: 0 <= i < mmu.table.Length ==> mmu.table[i].pid != pid
      requires argc <= CMD_NARGS && |args| == CMD_ARG_LEN * argc
      modifies alloc.bitmap, mmu.table, mmu.frames
      ensures ok <==> FreeFrames(old(mmu.table[..])) >= PagesOf(segs, |segs|) + 4
      ensures ok ==> Sound() && alloc.bitmap[..] == old(alloc.bitmap[..])
    {
      hide Bit, View, Laid, OnlyAdds, Loaded, Valid, FreeFrames;
      ghost var t, bits := mmu.Value(), alloc.bitmap[..];
      OwnedFacts(t, bits, Entry(pid, 0));
      NotInView(t, pid);
      ghost var m, p;
      ok, m, p := ElfLoad(pid, segs, reader, argc, args);
      if !ok { return; }
      FreeUndoesAdd(t.table, mmu.table[..], pid);
      Release(pid);
      OwnersDetermineBitmap(alloc.bitmap[..], mmu.table[..], bits, t.table);
    }
  }

  lemma NotInView(t: Tlb<Page>, pid: int)
    requires Valid(t) && forall i :: 0 <= i < |t.table| ==> t.table[i].pid != pid
    ensures forall x :: x in View(t) ==> x.pid != pid
  {
  }

  // ---------- putting segments together ----------

  /** The pages above the code area are still free after the segments are loaded. */
  lemma FixedPagesFree(m: Memory<Page>, m0: Memory<Page>, pid: int, segs: seq<Segment>, reader: Reader, v: nat)
    requires Laid(segs) && Loaded(m, m0, pid, segs, |segs|, reader) && v >= ARG_PAGE
    requires forall x :: x in m0 ==> x.pid != pid
    ensures Entry(pid, v) !in m
  {
    hide SegPage, Segment.First, Segment.Pages;
    assert !CoveredBy(segs, |segs|, Entry(pid, v), pid);
  }

  /** Taking back the frames of pid after they were added leaves the owners as they were. */
  lemma FreeUndoesAdd(before: seq<Entry>, loaded: seq<Entry>, pid: int)
    requires OnlyAdds(before, loaded, pid) && pid > 0
    requires forall i :: 0 <= i < |before| ==> before[i].pid >= 0 && before[i].pid != pid
    ensures forall i :: 0 <= i < |before| ==> (Released(loaded, pid)[i].pid > 0 <==> before[i].pid > 0)
  {
  }

  lemma NoSegments(m: Memory<Page>, t: seq<Entry>, pid: int, segs: seq<Segment>, reader: Reader)
    ensures Loaded(m, m, pid, segs, 0, reader) && OnlyAdds(t, t, pid)
  {
  }

  lemma AddsCompose(a: seq<Entry>, b: seq<Entry>, c: seq<Entry>, pid: int)
    requires OnlyAdds(a, b, pid) && OnlyAdds(b, c, pid) && pid > 0
    ensures OnlyAdds(a, c, pid)
  {
  }

  /** The pages of the next segment are not mapped yet; a skipped segment changes nothing. */
  lemma SegmentIsFree(m: Memory<Page>, m0: Memory<Page>, pid: int, segs: seq<Segment>, i: nat, reader: Reader)
    requires i < |segs| && Laid(segs) && Loaded(m, m0, pid, segs, i, reader)
    requires forall x :: x in m0 ==> x.pid != pid
    ensures segs[i].Skipped() ==> Loaded(m, m0, pid, segs, i + 1, reader)
    ensures !segs[i].Skipped() ==> segs[i].Placed()
    ensures !segs[i].Skipped() ==> forall x :: InPages(x, pid, segs[i].First(), segs[i].Pages()) ==> x !in m
  {
    hide SegPage, Segment.First, Segment.Pages, Segment.StartBlock;
    if segs[i].Skipped() {
      forall x ensures CoveredBy(segs, i + 1, x, pid) <==> CoveredBy(segs, i, x, pid) { }
    } else {
      forall x | InPages(x, pid, segs[i].First(), segs[i].Pages())
        ensures x !in m
      {
        assert segs[i].Covers(x, x.pid);
        assert !CoveredBy(segs, i, x, pid);
      }
    }
  }

  lemma SegmentAdded(m: Memory<Page>, m0: Memory<Page>, pid: int, segs: seq<Segment>, i: nat, reader: Reader,
      m': Memory<Page>)
    requires i < |segs| && Laid(segs) && Loaded(m, m0, pid, segs, i, reader) && !segs[i].Skipped() && segs[i].Placed()
    requires Shows(m', m, pid, segs[i].First(), segs[i].Pages(), reader, segs[i].StartBlock(), segs[i].filesz)
    ensures Loaded(m', m0, pid, segs, i + 1, reader)
  {
    hide SegPage, Segment.First, Segment.Pages, Segment.StartBlock, Laid;
    forall x
      ensures CoveredBy(segs, i + 1, x, pid) <==> CoveredBy(segs, i, x, pid) || segs[i].Covers(x, pid)
    {
      if segs[i].Covers(x, pid) { assert 0 <= i < i + 1 && !segs[i].Skipped() && segs[i].Covers(x, pid); }
    }
    forall j, x | 0 <= j < i + 1 && !segs[j].Skipped() && segs[j].Covers(x, pid) && x in m'
      ensures m'[x] == SegPage(reader, segs[j].StartBlock(), segs[j].filesz, x.vpage - segs[j].First())
    {
      if j < i {
        assert CoveredBy(segs, i, x, pid);
        assert x in m && m'[x] == m[x];
      }
    }
  }
}
