/**
 What a whole write does to the files of a disk, and what it costs.
 */
module DiskFiles {
  import opened Egos
  import opened Radix
  import opened DiskLayout
  import opened DiskSteps
  import opened DiskPaths
  import opened DiskWalk

  /** A file after block c was written at offset off; a gap reads as null blocks. */
  function Put(f: seq<Block>, off: nat, c: Block): seq<Block> {
    if off < |f| then f[off := c] else f + seq(off - |f|, _ => Zeros()) + [c]
  }

  /** All files of a disk, by inode number. */
  function Files(d: Disk): (fs: seq<seq<Block>>)
    requires |d| > 0 && InodeBlocks(d) < |d|
    ensures |fs| == InodeBlocks(d) * INODES_PER_BLOCK
  {
    seq(InodeBlocks(d) * INODES_PER_BLOCK, i requires 0 <= i < InodeBlocks(d) * INODES_PER_BLOCK => File(d, i))
  }

  /** The height of the tree of ino that a write at off needs. */
  ghost function HeightAfter(d: Disk, g: Layout, ino: nat, off: nat): nat
    requires Header(d, g) && ino < |g.lev|
  {
    if off >= Size(d, ino) then Levels(off) else g.lev[ino]
  }

  /** The number of blocks that a write at off takes from the free list. */
  ghost function WriteCost(d: Disk, g: Layout, ino: nat, off: nat): nat
    requires Header(d, g) && ino < |g.lev|
  {
    var lo, hi := g.lev[ino], HeightAfter(d, g, ino, off);
    if hi > lo then 2 * hi - lo else Missing(g, ino, off, lo)
  }

  /** Writes only ever make a tree higher. */
  lemma HeightGrows(d: Disk, g: Layout, ino: nat, off: nat)
    requires Header(d, g) && ino < |g.lev| && Fits(d, g, ino)
    ensures g.lev[ino] <= HeightAfter(d, g, ino, off)
    ensures Prefix(off, HeightAfter(d, g, ino, off)) == 0
  {
    if off < Size(d, ino) {
      LevelsMonotone(off, Size(d, ino) - 1);
    } else if Size(d, ino) > 0 {
      LevelsMonotone(Size(d, ino) - 1, off);
    }
    LevelsLeast(off, HeightAfter(d, g, ino, off));
  }

  /** After growing, only the new top of the path exists. */
  lemma MissingAfterGrowth(g: Layout, g': Layout, ino: nat, off: nat, hi: nat)
    requires Rooted(g) && Rooted(g') && ino < |g.lev| && hi >= g.lev[ino]
    requires GrownBy(g, g', ino, g.lev[ino], hi)
    requires hi > g.lev[ino] ==> hi == Levels(off)
    ensures Missing(g', ino, off, hi) == if hi > g.lev[ino] then hi else Missing(g, ino, off, hi)
  {
    if hi > g.lev[ino] {
      LevelsLeast(off, hi);
      LevelsLeast(off, hi - 1);
      assert Tree(ino, hi, Prefix(off, hi)) in g'.at;
      assert Tree(ino, hi - 1, Prefix(off, hi - 1)) !in g'.at;
      MissingBelow(g', ino, off, hi - 1);
      MissingAll(g', ino, off, hi - 1);
    } else {
      MissingFrame(g, g', ino, off, hi);
    }
  }

  /** The disk right after the size word was brought up to date in memory. */
  ghost function Resized(d: Disk, ino: nat, off: nat): Disk
    requires InodeBlockNo(ino) < |d| && off + 1 < WORD_LIMIT
  {
    if off >= Size(d, ino)
    then Seen(d, InodeBlockNo(ino), d[InodeBlockNo(ino)][SizeWord(ino) := off + 1])
    else d
  }

  /** The size of file i after a write to ino at off: files never shrink. */
  ghost function NewSize(d: Disk, ino: nat, off: nat, i: nat): nat
    requires InodeBlockNo(i) < |d| && InodeBlockNo(ino) < |d|
  {
    if i == ino && off >= Size(d, ino) then off + 1 else Size(d, i)
  }

  lemma ResizedKeeps(d: Disk, g: Layout, ino: nat, off: nat)
    requires Formed(d, g) && ino < |g.lev| && off + 1 < WORD_LIMIT
    ensures Formed(Resized(d, ino, off), g)
    ensures SameContents(d, g, Resized(d, ino, off), g)
    ensures |Resized(d, ino, off)| == |d|
    ensures forall i: nat :: i < |g.lev| ==>
      Size(Resized(d, ino, off), i) == NewSize(d, ino, off, i)
  {
    if off >= Size(d, ino) {
      ResizeKeeps(d, g, Resized(d, ino, off), ino, off + 1);
    }
  }

  /** The stages of a write: resize, grow, walk. */
  ghost predicate Written(d: Disk, g: Layout, d2: Disk, g2: Layout, d3: Disk, g3: Layout, ino: nat, off: nat,
      c: Block) {
    && Valid(d, g) && ino < |g.lev| && off + 1 < WORD_LIMIT
    && Grown(Resized(d, ino, off), g, d2, g2, ino, HeightAfter(d, g, ino, off))
    && Finished(d2, g2, d3, g3, ino, off, c)
  }

  /** The sizes and stored blocks after a write, by offset. */
  lemma WrittenFacts(d: Disk, g: Layout, d2: Disk, g2: Layout, d3: Disk, g3: Layout, ino: nat, off: nat, c: Block)
    requires Written(d, g, d2, g2, d3, g3, ino, off, c)
    ensures Formed(d3, g3) && NoneTaken(g3) && |d3| == |d|
    ensures g3.lev == g.lev[ino := HeightAfter(d, g, ino, off)]
    ensures forall i: nat :: i < |g.lev| ==> Size(d3, i) == NewSize(d, ino, off, i)
    ensures forall i: nat, o: nat :: (i, o) != (ino, off) ==> Content(d3, g3, i, o) == Content(d, g, i, o)
    ensures Content(d3, g3, ino, off) == c
    ensures forall i: nat, o: nat :: Tree(i, 0, o) in g3.at <==> (Tree(i, 0, o) in g.at || (i, o) == (ino, off))
  {
    hide FreeList, Forest, Partition;
    ResizedKeeps(d, g, ino, off);
    forall i: nat, o: nat
      ensures Tree(i, 0, o) in g3.at <==> (Tree(i, 0, o) in g.at || (i, o) == (ino, off))
    {
      assert Prefix(off, 0) == off;
    }
  }

  /** A write keeps the invariant of the disk. */
  lemma WrittenValid(d: Disk, g: Layout, d2: Disk, g2: Layout, d3: Disk, g3: Layout, ino: nat, off: nat, c: Block)
    requires Written(d, g, d2, g2, d3, g3, ino, off, c)
    ensures Valid(d3, g3)
  {
    hide Grown, Finished, Content, FreeList, Forest, Partition;
    WrittenFacts(d, g, d2, g2, d3, g3, ino, off, c);
    forall i: nat | i < |g3.lev|
      ensures Fits(d3, g3, i)
    {
      assert Fits(d, g, i);
    }
  }

  /** A write changes one file, by Put, and no other. */
  lemma WrittenFiles(d: Disk, g: Layout, d2: Disk, g2: Layout, d3: Disk, g3: Layout, ino: nat, off: nat, c: Block)
    requires Written(d, g, d2, g2, d3, g3, ino, off, c)
    requires Valid(d3, g3)
    ensures ino < |Files(d)| == |g.lev|
    ensures Files(d3) == Files(d)[ino := Put(Files(d)[ino], off, c)]
  {
    hide Grown, Finished, FreeList, Forest, Partition;
    WrittenFacts(d, g, d2, g2, d3, g3, ino, off, c);
    forall i: nat | i < |g.lev|
      ensures File(d3, i) == if i == ino then Put(File(d, i), off, c) else File(d, i)
    {
      FileIsContent(d, g, i);
      FileIsContent(d3, g3, i);
      GapIsEmpty(d, g, i);
    }
  }

  lemma GapIsEmpty(d: Disk, g: Layout, ino: nat)
    requires Valid(d, g) && ino < |g.lev|
    ensures forall o: nat :: o >= Size(d, ino) ==> Content(d, g, ino, o) == Zeros()
  {
    hide FreeList, Forest;
    assert Fits(d, g, ino);
  }

  lemma WrittenCost(d: Disk, g: Layout, d2: Disk, g2: Layout, ino: nat, off: nat)
    requires Valid(d, g) && ino < |g.lev| && off + 1 < WORD_LIMIT
    requires Grown(Resized(d, ino, off), g, d2, g2, ino, HeightAfter(d, g, ino, off))
    ensures ino < |g2.lev| && g2.lev[ino] == HeightAfter(d, g, ino, off)
    ensures HeightAfter(d, g, ino, off) - g.lev[ino] + Missing(g2, ino, off, g2.lev[ino]) == WriteCost(d, g, ino, off)
  {
    hide FreeList, Partition, Content;
    assert Fits(d, g, ino);
    HeightGrows(d, g, ino, off);
    MissingAfterGrowth(g, g2, ino, off, HeightAfter(d, g, ino, off));
  }

  /** The exact cost when levels are added, the bound when none is, and the bound overall. */
  lemma CostBounds(d: Disk, g: Layout, ino: nat, off: Word)
    requires Valid(d, g) && ino < |g.lev|
    ensures var lo, hi, cost := g.lev[ino], HeightAfter(d, g, ino, off), WriteCost(d, g, ino, off);
      && (hi > lo ==> cost == 2 * hi - lo)
      && (hi == lo && Size(d, ino) > 0 ==> cost <= hi)
      && (Size(d, ino) == 0 && off == 0 ==> cost == 1)
      && cost <= 10
  {
    hide FreeList, Partition;
    assert Fits(d, g, ino);
    var lo := g.lev[ino];
    HeightGrows(d, g, ino, off);
    LevelsAtMostFive(off);
    MissingBound(g, ino, off, lo);
    if Size(d, ino) > 0 {
      LevelsAtMostFive(Size(d, ino) - 1);
      LevelsLeast(Size(d, ino) - 1, lo);
      AncestorExists(g, ino, Size(d, ino) - 1, lo);
      LevelsLeast(off, lo);
    }
  }

  // ---------- reading ----------

  /** A read starts at the root of the tree. */
  lemma ReadStart(d: Disk, g: Layout, ino: nat, off: nat)
    requires Valid(d, g) && ino < |g.lev| && off < Size(d, ino)
    ensures g.lev[ino] == Levels(Size(d, ino) - 1)
    ensures Root(d, ino) == Get(g.at, Tree(ino, g.lev[ino], Prefix(off, g.lev[ino])))
    ensures Walk(d, Root(d, ino), g.lev[ino], off) == Files(d)[ino][off]
  {
    hide FreeList, Partition;
    assert Fits(d, g, ino);
    LevelsMonotone(off, Size(d, ino) - 1);
    LevelsLeast(off, g.lev[ino]);
  }

  /** A read goes down by one digit of the offset. */
  lemma ReadStep(d: Disk, g: Layout, ino: nat, off: Word, h: nat)
    requires Valid(d, g) && ino < |g.lev| && h <= g.lev[ino]
    requires Get(g.at, Tree(ino, h, Prefix(off, h))) != 0
    ensures var b := Get(g.at, Tree(ino, h, Prefix(off, h)));
      && b < |d|
      && (h == 0 ==> Walk(d, b, h, off) == d[b])
      && (h > 0 ==> Walk(d, b, h, off) == Walk(d, d[b][Digit(off, h - 1)], h - 1, off))
      && (h > 0 ==> d[b][Digit(off, h - 1)] == Get(g.at, Tree(ino, h - 1, Prefix(off, h - 1))))
  {
    hide FreeList;
    if h > 0 {
      StepDown(d, g, ino, off, h);
      ShiftIsPrefix(off, h - 1);
    }
  }

  lemma FilesOfValid(d: Disk, g: Layout)
    requires Valid(d, g)
    ensures |d| > 0 && InodeBlocks(d) < |d| && |Files(d)| == |g.lev|
  {
    hide FreeList, Forest, Partition, Fits;
  }

  lemma FileSize(d: Disk, g: Layout, ino: nat)
    requires Valid(d, g) && ino < |Files(d)|
    ensures 0 < InodeBlockNo(ino) < |d| && ino < |g.lev|
    ensures |Files(d)[ino]| == Size(d, ino) == d[InodeBlockNo(ino)][SizeWord(ino)]
    ensures Root(d, ino) == d[InodeBlockNo(ino)][RootWord(ino)]
  {
    hide FreeList, Forest, Partition, Fits;
  }

  lemma WalkHole(d: Disk, h: nat, off: nat)
    ensures Walk(d, 0, h, off) == Zeros()
  {
  }

  // ---------- the stages of a write, as the code meets them ----------

  lemma WriteStart(d: Disk, g: Layout, ino: nat, off: nat)
    requires Valid(d, g) && ino < |Files(d)| && off + 1 < WORD_LIMIT
    ensures 0 < InodeBlockNo(ino) < |d| && ino < |g.lev| && NoneTaken(g) && Header(d, g)
    ensures Size(d, ino) == d[InodeBlockNo(ino)][SizeWord(ino)]
    ensures g.lev[ino] == if Size(d, ino) == 0 then 0 else Levels(Size(d, ino) - 1)
    ensures HeightAfter(d, g, ino, off) == if off >= Size(d, ino) then Levels(off) else g.lev[ino]
    ensures Prefix(off, HeightAfter(d, g, ino, off)) == 0
    ensures g.lev[ino] <= HeightAfter(d, g, ino, off) <= g.lev[ino] + WriteCost(d, g, ino, off)
    ensures Resized(d, ino, off) ==
            Seen(d, InodeBlockNo(ino),
                 if off >= Size(d, ino) then d[InodeBlockNo(ino)][SizeWord(ino) := off + 1] else d[InodeBlockNo(ino)])
    ensures Resized(d, ino, off)[0] == d[0]
    ensures Formed(Resized(d, ino, off), g)
    ensures Grown(Resized(d, ino, off), g, Resized(d, ino, off), g, ino, g.lev[ino])
  {
    hide FreeList, Forest, Partition;
    assert Fits(d, g, ino);
    HeightGrows(d, g, ino, off);
    ResizedKeeps(d, g, ino, off);
    GrownNothing(Resized(d, ino, off), g, ino);
  }

  lemma WriteGrown(d: Disk, g: Layout, d2: Disk, g2: Layout, ino: nat, off: nat)
    requires Valid(d, g) && ino < |g.lev| && off + 1 < WORD_LIMIT
    requires Grown(Resized(d, ino, off), g, d2, g2, ino, HeightAfter(d, g, ino, off))
    ensures Formed(d2, g2) && NoneTaken(g2) && ino < |g2.lev| && g2.lev[ino] == HeightAfter(d, g, ino, off)
    ensures |d2| == |d|
    ensures |FreePlaces(g2)| - Missing(g2, ino, off, g2.lev[ino]) == |FreePlaces(g)| - WriteCost(d, g, ino, off)
  {
    hide FreeList, Forest, Partition, Content;
    WrittenCost(d, g, d2, g2, ino, off);
  }

  lemma WriteEnd(d: Disk, g: Layout, d2: Disk, g2: Layout, d3: Disk, g3: Layout, ino: nat, off: nat, c: Block)
    requires Valid(d, g) && ino < |g.lev| && off + 1 < WORD_LIMIT
    requires Grown(Resized(d, ino, off), g, d2, g2, ino, HeightAfter(d, g, ino, off))
    requires Finished(d2, g2, d3, g3, ino, off, c)
    ensures Valid(d3, g3) && |d3| == |d|
    ensures ino < |Files(d)|
    ensures Files(d3) == Files(d)[ino := Put(Files(d)[ino], off, c)]
    ensures |FreePlaces(g3)| == |FreePlaces(g)| - WriteCost(d, g, ino, off)
  {
    hide FreeList, Forest, Partition, Content, Fits;
    WrittenValid(d, g, d2, g2, d3, g3, ino, off, c);
    WrittenFiles(d, g, d2, g2, d3, g3, ino, off, c);
    WriteGrown(d, g, d2, g2, ino, off);
  }

  // ---------- the last offset ----------

  /** The tree of ino has the five levels that a walk to the last offset takes, or is empty. */
  ghost predicate FitsLastWalk(d: Disk, g: Layout, ino: nat)
    requires Header(d, g) && ino < |g.lev|
  {
    Size(d, ino) == 0 || g.lev[ino] == 5
  }

  /** An empty tree may be given any height. */
  lemma EmptyTreeHeight(d: Disk, g: Layout, ino: nat, h: nat)
    requires Formed(d, g) && ino < |g.lev| && forall j: nat, q: nat :: Tree(ino, j, q) !in g.at
    ensures Formed(d, g.(lev := g.lev[ino := h]))
  {
    var g' := g.(lev := g.lev[ino := h]);
    FreeListFrame(d, g, d, g');
    forall i: nat, j: nat, q: nat | Tree(i, j, q) in g'.at
      ensures Hangs(g', i, j, q) && IndirectAt(d, g', i, j, q)
    {
      assert Hangs(g, i, j, q) && IndirectAt(d, g, i, j, q);
    }
  }

  lemma EmptyHasNoTree(d: Disk, g: Layout, ino: nat, off: nat, h: nat)
    requires Valid(d, g) && ino < |g.lev| && Size(d, ino) == 0
    ensures forall j: nat, q: nat :: Tree(ino, j, q) !in g.at
    ensures Missing(g, ino, off, h) == h + 1
  {
    hide FreeList, Partition;
    assert Fits(d, g, ino);
    MissingAll(g, ino, off, h);
  }

  lemma LastOffsetLevels(off: Word)
    requires off + 1 == WORD_LIMIT
    ensures Levels(off) == 5 && Prefix(off, 5) == 0
  {
    LevelsAtMostFive(off);
    assert Pow128(4) == 128 * Pow128(3) && Pow128(3) == 128 * Pow128(2) && Pow128(2) == 128 * Pow128(1);
    LevelsLeast(off, 4);
    LevelsLeast(off, 5);
  }

  /** At the last offset the size wraps to 0.  In a tree that the walk fits, the disk is still well
      formed, with the height that the walk assumes. */
  lemma LastStart(d: Disk, g: Layout, ino: nat, off: Word, d1: Disk, g1: Layout)
    requires Valid(d, g) && ino < |g.lev| && InodeBlockNo(ino) < |d| && off + 1 == WORD_LIMIT && FitsLastWalk(d, g, ino)
    requires d1 == Seen(d, InodeBlockNo(ino), d[InodeBlockNo(ino)][SizeWord(ino) := 0])
    requires g1 == g.(lev := g.lev[ino := 5])
    ensures Formed(d1, g1) && NoneTaken(g1) && Size(d1, ino) == 0 && d1[0] == d[0]
    ensures FreePlaces(g1) == FreePlaces(g) && Missing(g1, ino, off, 5) == Missing(g, ino, off, 5)
    ensures Size(d, ino) == 0 ==> Missing(g, ino, off, 5) == 6
  {
    hide FreeList, Forest, Partition, Fits;
    ResizeKeeps(d, g, d1, ino, 0);
    MissingFrame(g, g1, ino, off, 5);
    if Size(d, ino) == 0 {
      EmptyHasNoTree(d, g, ino, off, 5);
      EmptyTreeHeight(d1, g, ino, 5);
    } else {
      assert g1 == g;
    }
  }

  /** When the walk has ended, the file is empty, but its root is not: no layout fits the disk. */
  lemma LastEnd(d1: Disk, g1: Layout, d: Disk, g: Layout, ino: nat, off: Word, c: Block)
    requires Finished(d1, g1, d, g, ino, off, c) && off + 1 == WORD_LIMIT
    requires ino < |g1.lev| && g1.lev[ino] == 5 && InodeBlockNo(ino) < |d1| && Size(d1, ino) == 0
    ensures InodeBlockNo(ino) < |d| && File(d, ino) == []
    ensures forall h :: !Valid(d, h)
  {
    hide FreeList, Content;
    LastOffsetLevels(off);
    assert Tree(ino, 5, 0) in g.at;
    assert Root(d, ino) != 0;
    forall h ensures !Valid(d, h) { RootOfEmpty(d, h, ino); }
  }

  /** On a valid disk an empty file has no root. */
  lemma RootOfEmpty(d: Disk, g: Layout, ino: nat)
    requires InodeBlockNo(ino) < |d| && InodeBlockNo(ino) <= InodeBlocks(d) && Size(d, ino) == 0
    ensures Valid(d, g) ==> Root(d, ino) == 0
  {
    hide FreeList, Partition;
    if Valid(d, g) {
      assert ino < |g.lev|;
      assert Fits(d, g, ino);
    }
  }
}
