/**
 A freshly formatted disk: the shape of the free list that setup_freelist lays out over a
 range of blocks, and the order in which it is used up.
 */
module DiskFormat {
  import opened Egos
  import opened Radix
  import opened DiskLayout
  import opened DiskSteps
  import opened DiskPaths
  import opened DiskFiles

  /** The number of inode blocks for a number of inodes, in 32-bit arithmetic. */
  function InodeBlocksFor(ninodes: Word): (n: Word)
    ensures n * INODES_PER_BLOCK < WORD_LIMIT
  {
    (ninodes + INODES_PER_BLOCK - 1) % WORD_LIMIT / INODES_PER_BLOCK
  }

  /** The inodes asked for all fit, with no block to spare, exactly if the rounding up does not wrap. */
  lemma EnoughInodes(ninodes: Word)
    ensures InodeBlocksFor(ninodes) * 64 >= ninodes <==> ninodes + 63 < 0x1_0000_0000
    ensures ninodes + 63 < 0x1_0000_0000 ==>
      forall n: nat :: n * 64 >= ninodes ==> InodeBlocksFor(ninodes) <= n
  {
  }

  /** List block k over the range [base, n): it sits at base + 128 k and names the blocks after it. */
  function ListBlock(base: nat, n: nat, k: nat): Block
    requires base + 128 * k < n < WORD_LIMIT
  {
    seq(128, i requires 0 <= i < 128 => ListWord(base, n, k, i))
  }

  function ListWord(base: nat, n: nat, k: nat, i: nat): Word
    requires base + 128 * k < n < WORD_LIMIT
  {
    if i == 0 then (if k == 0 then 0 else base + 128 * (k - 1))
    else if base + 128 * k + i < n then base + 128 * k + i
    else 0
  }

  /** The number of list blocks over [base, n). */
  function ListDepth(base: nat, n: nat): nat {
    if base < n then (n - base + 127) / 128 else 0
  }

  /** The place of block b on the free list over [base, n). */
  function FreePlace(base: nat, b: Word): Role
    requires base <= b
  {
    Free((b - base) / 128, (b - base) % 128)
  }

  ghost function FreshPlaces(base: nat, n: nat): set<Role> {
    set b: Word | base <= b < n :: FreePlace(base, b)
  }

  /** The block at a place of the free list over [base, n). */
  function BlockAt(base: nat, n: nat, r: Role): Word
    requires n < WORD_LIMIT
  {
    if r.Free? && base + 128 * r.k + r.i < n then base + 128 * r.k + r.i else 0
  }

  /** The roles of the blocks of a new disk: all of them are free. */
  ghost function FreshLayout(base: nat, n: nat, ninodes: nat): Layout
    requires 0 < base && n < WORD_LIMIT
  {
    Layout(map r | r in FreshPlaces(base, n) :: BlockAt(base, n, r),
           map b: Word | base <= b < n :: FreePlace(base, b),
           ListDepth(base, n),
           seq(ninodes, _ => 0))
  }

  /** The list blocks over [base, n) have been written. */
  ghost predicate ListsWritten(d: Disk, base: nat, n: nat) {
    && n <= |d| && n < WORD_LIMIT
    && (forall k: nat :: k < ListDepth(base, n) ==> base + 128 * k < n && d[base + 128 * k] == ListBlock(base, n, k))
  }

  lemma FreshRole(base: nat, n: nat, ninodes: nat, k: nat, i: nat)
    requires 0 < base && n < WORD_LIMIT
    ensures Free(k, i) in FreshLayout(base, n, ninodes).at <==> i < 128 && base + 128 * k + i < n
    ensures Free(k, i) in FreshLayout(base, n, ninodes).at ==>
      FreshLayout(base, n, ninodes).at[Free(k, i)] == base + 128 * k + i
  {
    if i < 128 && base + 128 * k + i < n {
      var b: Word := base + 128 * k + i;
      assert FreePlace(base, b) == Free(k, i);
      assert FreePlace(base, b) in FreshPlaces(base, n);
    }
  }

  /** A formatted disk is valid, every file is empty, and every block is free. */
  lemma FreshValid(d: Disk, nib: nat, g: Layout)
    requires nib + 1 < |d| < WORD_LIMIT && nib * INODES_PER_BLOCK < WORD_LIMIT
    requires InodeBlocks(d) == nib && FreeHead(d) == nib + 1 + 128 * (ListDepth(nib + 1, |d|) - 1)
    requires ListsWritten(d, nib + 1, |d|)
    requires forall b :: 1 <= b <= nib ==> d[b] == Zeros()
    requires g == FreshLayout(nib + 1, |d|, nib * INODES_PER_BLOCK)
    ensures Valid(d, g) && |g.lev| == nib * INODES_PER_BLOCK
    ensures forall ino: nat :: ino < |g.lev| ==> Size(d, ino) == 0
    ensures FreeBlocks(g) == Range(nib + 1, |d|)
  {
    hide Partition, FreeList, Forest;
    FreshPartition(d, nib, g);
    FreshList(d, nib, g);
    FreshForest(d, nib, g);
    FreshFree(nib + 1, |d|, g);
  }

  /** Zeroing the inode blocks after the free list is laid out completes the formatting. */
  lemma FreshFiles(listed: Disk, d: Disk, nib: nat, g: Layout)
    requires nib + 1 < |d| == |listed| < WORD_LIMIT && nib * INODES_PER_BLOCK < WORD_LIMIT
    requires InodeBlocks(d) == nib && FreeHead(d) == nib + 1 + 128 * (ListDepth(nib + 1, |d|) - 1)
    requires forall b :: 1 <= b <= nib ==> d[b] == Zeros()
    requires forall b :: nib < b < |d| ==> d[b] == listed[b]
    requires ListsWritten(listed, nib + 1, |d|)
    requires g == FreshLayout(nib + 1, |d|, nib * INODES_PER_BLOCK)
    ensures Valid(d, g)
    ensures Files(d) == seq(nib * INODES_PER_BLOCK, _ => [])
    ensures FreeBlocks(g) == Range(nib + 1, |d|)
  {
    hide Valid, FreshLayout, FreeBlocks, Range;
    FreshValid(d, nib, g);
  }

  function Range(lo: nat, hi: nat): set<Word> {
    set b: Word | lo <= b < hi && InRange(lo, hi, b)
  }

  predicate InRange(lo: nat, hi: nat, b: Word) { lo <= b < hi }

  /** A new disk has one free place for each block after the inode blocks. */
  lemma {:induction false} FreshCount(base: nat, n: nat, ninodes: nat)
    requires 0 < base <= n < WORD_LIMIT
    ensures |FreePlaces(FreshLayout(base, n, ninodes))| == n - base
    decreases n
  {
    var free := FreePlaces(FreshLayout(base, n, ninodes));
    assert free == FreshPlaces(base, n);
    if n > base {
      FreshCount(base, n - 1, ninodes);
      var before := FreePlaces(FreshLayout(base, n - 1, ninodes));
      var last := FreePlace(base, n - 1);
      assert before == FreshPlaces(base, n - 1);
      assert last !in before;
      assert free == before + {last};
    }
  }

  lemma FreshFree(base: nat, n: nat, g: Layout)
    requires 0 < base && n < WORD_LIMIT && g == FreshLayout(base, n, |g.lev|)
    ensures FreeBlocks(g) == Range(base, n)
  {
    forall b: Word | b in FreeBlocks(g)
      ensures InRange(base, n, b)
    {
    }
    forall b: Word | InRange(base, n, b)
      ensures b in FreeBlocks(g)
    {
      assert FreePlace(base, b) in FreePlaces(g);
    }
  }

  lemma FreshForest(d: Disk, nib: nat, g: Layout)
    requires nib + 1 < |d| < WORD_LIMIT && nib * INODES_PER_BLOCK < WORD_LIMIT && InodeBlocks(d) == nib
    requires forall b :: 1 <= b <= nib ==> d[b] == Zeros()
    requires g == FreshLayout(nib + 1, |d|, nib * INODES_PER_BLOCK) && Partition(d, g)
    ensures Header(d, g) && Forest(d, g) && NoneTaken(g)
    ensures forall ino: nat :: ino < |g.lev| ==> Size(d, ino) == 0 && Fits(d, g, ino)
  {
    hide Partition;
    forall ino: nat | ino < |g.lev|
      ensures Root(d, ino) == 0 && Size(d, ino) == 0
    {
      assert d[InodeBlockNo(ino)] == Zeros();
    }
  }

  lemma FreshPartition(d: Disk, nib: nat, g: Layout)
    requires nib + 1 < |d| < WORD_LIMIT && InodeBlocks(d) == nib
    requires g == FreshLayout(nib + 1, |d|, nib * INODES_PER_BLOCK)
    ensures Partition(d, g)
  {
    var base, n := nib + 1, |d|;
    forall r | r in g.at
      ensures InodeBlocks(d) < g.at[r] < |d| && g.at[r] in g.role && g.role[g.at[r]] == r
    {
      FreshRole(base, n, nib * INODES_PER_BLOCK, r.k, r.i);
    }
    forall b: Word | InodeBlocks(d) < b < |d|
      ensures b in g.role && g.role[b] in g.at && g.at[g.role[b]] == b
    {
      FreshRole(base, n, nib * INODES_PER_BLOCK, (b - base) / 128, (b - base) % 128);
    }
  }

  lemma FreshListAt(d: Disk, nib: nat, g: Layout, k: nat)
    requires nib + 1 < |d| < WORD_LIMIT && ListsWritten(d, nib + 1, |d|)
    requires g == FreshLayout(nib + 1, |d|, nib * INODES_PER_BLOCK) && Partition(d, g) && k < g.depth
    ensures ListAt(d, g, k)
  {
    hide Partition;
    var base, n := nib + 1, |d|;
    FreshRole(base, n, nib * INODES_PER_BLOCK, k, 0);
    if k > 0 { FreshRole(base, n, nib * INODES_PER_BLOCK, k - 1, 0); }
    forall i: nat | 1 <= i < 128
      ensures ListBlock(base, n, k)[i] == Get(g.at, Free(k, i))
    {
      FreshRole(base, n, nib * INODES_PER_BLOCK, k, i);
    }
  }

  lemma FreshList(d: Disk, nib: nat, g: Layout)
    requires nib + 1 < |d| < WORD_LIMIT
    requires InodeBlocks(d) == nib && FreeHead(d) == nib + 1 + 128 * (ListDepth(nib + 1, |d|) - 1)
    requires ListsWritten(d, nib + 1, |d|)
    requires g == FreshLayout(nib + 1, |d|, nib * INODES_PER_BLOCK) && Partition(d, g)
    ensures FreeList(d, g)
  {
    hide Partition, ListAt;
    var base, n := nib + 1, |d|;
    forall k: nat, i: nat | Free(k, i) in g.at
      ensures k < g.depth && i < 128
    {
      FreshRole(base, n, nib * INODES_PER_BLOCK, k, i);
    }
    forall k: nat | k < g.depth
      ensures ListAt(d, g, k)
    {
      FreshListAt(d, nib, g, k);
    }
    FreshRole(base, n, nib * INODES_PER_BLOCK, g.depth - 1, 0);
  }

  // ---------- using up the free list ----------

  /** The blocks that n allocations in a row return. */
  ghost function Drain(d: Disk, n: nat): seq<Word>
    requires |d| > 0
    decreases n
  {
    if n == 0 || !(0 < FreeHead(d) < |d|) then [] else [Pop(d).1] + Drain(Pop(d).0, n - 1)
  }

  ghost function FreeBlocks(g: Layout): set<Word> {
    set r | r in FreePlaces(g) :: g.at[r]
  }

  /** The disk after n allocations in a row. */
  ghost function Drained(d: Disk, n: nat): (d': Disk)
    requires |d| > 0
    ensures |d'| == |d|
    decreases n
  {
    if n == 0 || !(0 < FreeHead(d) < |d|) then d else Drained(Pop(d).0, n - 1)
  }

  /** One allocation removes precisely the returned block from the free blocks. */
  lemma PopBlocks(d: Disk, g: Layout, t: nat)
    requires Header(d, g) && Partition(d, g) && FreeList(d, g) && g.depth > 0 && Taken(t) !in g.at
    ensures 0 < FreeHead(d) < |d|
    ensures FreeBlocks(PopLayout(d, g, t)) == FreeBlocks(g) - {Pop(d).1}
    ensures Pop(d).1 in FreeBlocks(g)
  {
    var r, g' := PopRole(d, g), PopLayout(d, g, t);
    assert r in FreePlaces(g);
    forall b: Word | b in FreeBlocks(g) && b != Pop(d).1
      ensures b in FreeBlocks(g')
    {
      var s :| s in FreePlaces(g) && g.at[s] == b;
      assert s in FreePlaces(g') && g'.at[s] == b;
    }
    forall b: Word | b in FreeBlocks(g')
      ensures b in FreeBlocks(g) && b != Pop(d).1
    {
      var s :| s in FreePlaces(g') && g'.at[s] == b;
      assert s in FreePlaces(g) && g.at[s] == b;
    }
  }

  lemma DrainStep(d: Disk, g: Layout, t: nat) returns (g': Layout)
    requires Formed(d, g) && forall u: nat :: u >= t ==> Taken(u) !in g.at
    ensures |d| > 0 && 0 !in FreeBlocks(g)
    ensures FreeHead(d) == 0 <==> FreeBlocks(g) == {}
    ensures FreeHead(d) == 0 <==> |FreePlaces(g)| == 0
    ensures FreeHead(d) != 0 ==>
      && FreeHead(d) < |d|
      && Formed(Pop(d).0, g') && (forall u: nat :: u >= t + 1 ==> Taken(u) !in g'.at)
      && |FreePlaces(g')| == |FreePlaces(g)| - 1
      && Pop(d).1 in FreeBlocks(g) && FreeBlocks(g') == FreeBlocks(g) - {Pop(d).1}
  {
    hide Forest;
    g' := g;
    FullIffNoHead(d, g);
    if FreeHead(d) != 0 {
      PopKeeps(d, g, t);
      PopCount(d, g, t);
      PopBlocks(d, g, t);
      g' := PopLayout(d, g, t);
    }
  }

  /** Allocating over and over hands out every free block exactly once, never block 0, and the
      list is empty exactly when all have been handed out. */
  lemma {:induction false} DrainAll(d: Disk, g: Layout, t: nat)
    requires Formed(d, g) && forall u: nat :: u >= t ==> Taken(u) !in g.at
    ensures |d| > 0
    ensures var n := |FreePlaces(g)|;
      && |Drain(d, n)| == n
      && (forall b: Word :: b in Drain(d, n) <==> b in FreeBlocks(g))
      && (forall i, j :: 0 <= i < j < n ==> Drain(d, n)[i] != Drain(d, n)[j])
      && FreeHead(Drained(d, n)) == 0
    ensures 0 !in FreeBlocks(g)
    ensures FreeHead(d) == 0 <==> FreeBlocks(g) == {}
    decreases |FreePlaces(g)|
  {
    hide Formed, Pop, FreeBlocks, FreePlaces;
    var g' := DrainStep(d, g, t);
    if FreeHead(d) != 0 {
      DrainAll(Pop(d).0, g', t + 1);
    }
  }

  /** On a formatted disk, allocating until the list is empty returns every block of
      [nib + 1, |d|) exactly once. */
  lemma FreshDrain(d: Disk, nib: nat, g: Layout)
    requires nib + 1 < |d| < WORD_LIMIT && nib * INODES_PER_BLOCK < WORD_LIMIT
    requires InodeBlocks(d) == nib && FreeHead(d) == nib + 1 + 128 * (ListDepth(nib + 1, |d|) - 1)
    requires ListsWritten(d, nib + 1, |d|)
    requires forall b :: 1 <= b <= nib ==> d[b] == Zeros()
    requires g == FreshLayout(nib + 1, |d|, nib * INODES_PER_BLOCK)
    ensures var bs := Drain(d, |FreePlaces(g)|);
      && (forall b: Word :: b in bs <==> nib < b < |d|)
      && (forall i, j :: 0 <= i < j < |bs| ==> bs[i] != bs[j])
      && FreeHead(Drained(d, |bs|)) == 0
  {
    hide FreshLayout, Formed, Fits, FreeBlocks, FreePlaces;
    FreshValid(d, nib, g);
    DrainAll(d, g, 0);
    var range := Range(nib + 1, |d|);
    assert forall b: Word :: b in range <==> nib < b < |d|;
  }
}
