/**
 The treedisk operations, working block by block on the store below.
 */
module Treedisk {
  import opened Egos
  import opened Radix
  import opened DiskLayout
  import opened DiskSteps
  import opened DiskPaths
  import opened DiskWalk
  import opened DiskFiles
  import opened DiskFormat
  import opened DiskRuns

  /** Done: return 0.  Error: return -1.  Panic: the program stops. */
  datatype Status = Done | Error | Panic

  /** The inode store below: an array of blocks that rejects block numbers past its end. */
  class Store {
    var blocks: Disk

    constructor (contents: Disk)
      ensures blocks == contents
    {
      blocks := contents;
    }

    method Read(b: Word) returns (ok: bool, data: Block)
      ensures ok <==> b < |blocks|
      ensures ok ==> data == blocks[b]
    {
      if b < |blocks| { ok, data := true, blocks[b]; } else { ok, data := false, Zeros(); }
    }

    method Write(b: Word, data: Block) returns (ok: bool)
      modifies this
      ensures ok <==> b < |old(blocks)|
      ensures blocks == if b < |old(blocks)| then old(blocks)[b := data] else old(blocks)
    {
      ok := b < |blocks|;
      if ok { blocks := blocks[b := data]; }
    }
  }

  /** The superblock and the inode block an operation works on. */
  class Snapshot {
    var superblock: Block
    var inodeblock: Block
    var inodeBlockNo: Word

    constructor (superblock: Block, inodeblock: Block, inodeBlockNo: Word)
      ensures this.superblock == superblock && this.inodeblock == inodeblock && this.inodeBlockNo == inodeBlockNo
    {
      this.superblock, this.inodeblock, this.inodeBlockNo := superblock, inodeblock, inodeBlockNo;
    }
  }

  /** The superblock in memory is the one on the disk, and names a block as the head of the list. */
  ghost predicate HeadFits(disk: Disk, superblock: Block) {
    |disk| > 0 && superblock == disk[0] && FreeHead(disk) < |disk|
  }

  /** Takes a block off the free list, as Pop says; panics when the list is empty, or on a head that
      is no block of the store. */
  method AllocBlock(below: Store, snapshot: Snapshot) returns (ok: bool, b: Word)
    modifies below, snapshot`superblock
    ensures |below.blocks| == |old(below.blocks)|
    ensures !ok ==> below.blocks == old(below.blocks)
    ensures ok ==> old(snapshot.superblock)[1] != 0
    ensures HeadFits(old(below.blocks), old(snapshot.superblock)) ==>
      && (ok <==> FreeHead(old(below.blocks)) != 0)
      && (ok ==> (below.blocks, b) == Pop(old(below.blocks)) && snapshot.superblock == below.blocks[0])
  {
    var head: Word := snapshot.superblock[1];
    if head == 0 { return false, 0; }

    var read, list := below.Read(head);
    if !read { return false, 0; }
    var i := 127;
    while i > 0 && list[i] == 0
      invariant 0 <= i < 128
      invariant LastRef(list, |list| - 1) == LastRef(list, i)
    {
      i := i - 1;
    }

    var written;
    if i == 0 {
      b := head;
      snapshot.superblock := snapshot.superblock[1 := list[0]];
      written := below.Write(0, snapshot.superblock);
    } else {
      b := list[i];
      written := below.Write(head, list[i := 0]);
    }
    ok := written;
  }

  /** Adds levels on top of the tree of ino, from nlevels of them up to hi. */
  method GrowTree(below: Store, snapshot: Snapshot, ino: Word, nlevels: nat, hi: nat, ghost g0: Layout)
    returns (ok: bool, ghost g: Layout)
    requires InodeBlockNo(ino) < |below.blocks| && snapshot.inodeBlockNo == InodeBlockNo(ino)
    requires Formed(Seen(below.blocks, InodeBlockNo(ino), snapshot.inodeblock), g0) && NoneTaken(g0)
    requires snapshot.superblock == below.blocks[0]
    requires ino < |g0.lev| && g0.lev[ino] == nlevels <= hi
    modifies below, snapshot`superblock, snapshot`inodeblock
    ensures ok <==> |FreePlaces(g0)| >= hi - nlevels
    ensures |below.blocks| == |old(below.blocks)|
    ensures ok ==> snapshot.superblock == below.blocks[0]
    ensures ok ==> Grown(Seen(old(below.blocks), InodeBlockNo(ino), old(snapshot.inodeblock)), g0,
                         Seen(below.blocks, InodeBlockNo(ino), snapshot.inodeblock), g, ino, hi)
  {
    hide *;
    ghost var ib := InodeBlockNo(ino);
    ghost var d0 := Seen(below.blocks, ib, snapshot.inodeblock);
    g := g0;
    GrownNothing(d0, g0, ino);
    var level := nlevels;
    while level < hi
      invariant nlevels <= level <= hi
      invariant |below.blocks| == |d0| && snapshot.superblock == below.blocks[0]
      invariant Grown(d0, g0, Seen(below.blocks, ib, snapshot.inodeblock), g, ino, level)
    {
      ghost var g' := GrowRound(d0, g0, below.blocks, snapshot.inodeblock, g, ino, level);
      HeadOf(below.blocks, snapshot.superblock);
      var taken, indir := AllocBlock(below, snapshot);
      if !taken { return false, g; }

      var tib := TopBlock(snapshot.inodeblock[RootWord(ino)]);
      snapshot.inodeblock := snapshot.inodeblock[RootWord(ino) := indir];
      var written := below.Write(indir, tib);
      assert written;
      g := g';
      level := level + 1;
    }
    ghost var _ := GrowRound(d0, g0, below.blocks, snapshot.inodeblock, g, ino, hi);
    ok := true;
  }

  /** What a walk needs to meet the structure it expects. */
  ghost predicate WalkStarts(disk: Disk, superblock: Block, inodeblock: Block, ino: Word, nlevels: nat,
      offset: Word, g0: Layout) {
    && Formed(disk, g0) && NoneTaken(g0)
    && ino < |g0.lev| && g0.lev[ino] == nlevels && Prefix(offset, nlevels) == 0
    && InodeBlockNo(ino) < |disk| && superblock == disk[0] && inodeblock == disk[InodeBlockNo(ino)]
  }

  lemma WalkStartsFacts(disk: Disk, superblock: Block, inodeblock: Block, ino: Word, nlevels: nat,
      offset: Word, g0: Layout)
    requires WalkStarts(disk, superblock, inodeblock, ino, nlevels, offset, g0)
    ensures Formed(disk, g0) && NoneTaken(g0)
    ensures ino < |g0.lev| && g0.lev[ino] == nlevels && Prefix(offset, nlevels) == 0
    ensures InodeBlockNo(ino) < |disk| && superblock == disk[0] && inodeblock == disk[InodeBlockNo(ino)]
  {
  }

  lemma WalkMayStart(disk: Disk, superblock: Block, inodeblock: Block, ino: Word, nlevels: nat, offset: Word,
      g0: Layout)
    requires Formed(disk, g0) && NoneTaken(g0)
    requires ino < |g0.lev| && g0.lev[ino] == nlevels && Prefix(offset, nlevels) == 0
    requires InodeBlockNo(ino) < |disk| && superblock == disk[0] && inodeblock == disk[InodeBlockNo(ino)]
    ensures WalkStarts(disk, superblock, inodeblock, ino, nlevels, offset, g0)
  {
  }

  lemma HeaderOfValid(disk: Disk, g: Layout, ino: nat)
    requires Valid(disk, g) && ino < |g.lev|
    ensures Header(disk, g) && (Size(disk, ino) == 0 ==> FitsLastWalk(disk, g, ino))
  {
    hide FreeList, Forest, Partition, Fits;
  }

  lemma FileOfFiles(disk: Disk, g: Layout, ino: nat)
    requires Valid(disk, g) && ino < |Files(disk)|
    ensures InodeBlockNo(ino) < |disk| && Files(disk)[ino] == File(disk, ino)
  {
    hide FreeList, Forest, Partition, Fits;
  }

  lemma HeadOf(disk: Disk, superblock: Block)
    requires |disk| > 0 && superblock == disk[0] && FreeHead(disk) < |disk|
    ensures HeadFits(disk, superblock)
  {
  }

  /** Walks down to the data block of offset, linking the blocks that are missing on the way,
      and writes the data block.  Where the tree has the height that the walk assumes (sound), this
      is what Finished says, unless the free list runs out. */
  method WalkTree(below: Store, snapshot: Snapshot, ino: Word, nlevels: nat, offset: Word, block: Block,
                  ghost g0: Layout, ghost sound: bool)
    returns (ok: bool, ghost g: Layout)
    requires snapshot.inodeBlockNo == InodeBlockNo(ino)
    requires sound ==> WalkStarts(below.blocks, snapshot.superblock, snapshot.inodeblock, ino, nlevels, offset, g0)
    modifies below, snapshot`superblock, snapshot`inodeblock
    ensures |below.blocks| == |old(below.blocks)|
    ensures sound ==> (ok <==> |FreePlaces(g0)| >= Missing(g0, ino, offset, nlevels))
    ensures sound && ok ==> Finished(old(below.blocks), g0, below.blocks, g, ino, offset, block)
  {
    hide *;
    ghost var d0 := below.blocks;
    if sound {
      WalkStartsFacts(d0, snapshot.superblock, snapshot.inodeblock, ino, nlevels, offset, g0);
      WalkingStart(d0, g0, ino, offset);
      SeenAsWritten(d0, InodeBlockNo(ino), d0[InodeBlockNo(ino)]);
    }
    g := g0;
    var h: nat := nlevels;
    var parentOff: Word, parentBlock: Block, parentIdx: nat := snapshot.inodeBlockNo, snapshot.inodeblock,
        RootWord(ino);
    var b: Word;
    while true
      invariant |below.blocks| == |d0| && parentIdx < 128
      invariant sound ==> 0 < parentOff < |d0| && snapshot.superblock == below.blocks[0]
      invariant sound ==> Walking(d0, g0, Seen(below.blocks, parentOff, parentBlock), g, ino, offset, h)
      invariant sound ==> OnPath(g, ino, offset, h)
      invariant sound ==> parentOff == SlotBlock(g, ino, offset, h) && parentIdx == SlotIndex(g, ino, offset, h)
      invariant sound ==> below.blocks[parentOff] == parentBlock || parentBlock == Zeros()
      decreases h
    {
      b := parentBlock[parentIdx];
      var tib: Block;
      if b == 0 {
        ghost var first, g' := if h == 0 then block else Zeros(), g;
        if sound {
          g' := WalkRound(d0, g0, below.blocks, parentOff, parentBlock, g, ino, offset, h, first);
          HeadOf(below.blocks, snapshot.superblock);
        }
        var taken;
        taken, b := AllocBlock(below, snapshot);
        if !taken { return false, g; }
        parentBlock := parentBlock[parentIdx := b];
        var linked := below.Write(parentOff, parentBlock);
        if !linked { return false, g; }
        g := g';
        if sound { SeenAsWritten(below.blocks, b, first); }
        if h == 0 { break; }
        tib := Zeros();
      } else {
        if sound { WalkFound(d0, g0, below.blocks, parentOff, parentBlock, g, ino, offset, h, block); }
        if h == 0 { break; }
        var read;
        read, tib := below.Read(b);
        if !read { return false, g; }
      }
      h := h - 1;
      if sound { SlotDigit(g, ino, offset, h); }
      parentIdx := Digit(offset, h);
      parentBlock := tib;
      parentOff := b;
    }
    ok := below.Write(b, block);
    if sound { FinishedCount(d0, g0, below.blocks, g, ino, offset, block); }
  }

  /** The first part of a write: the levels there are and the levels needed; the size in the inode is
      brought up to date in memory.  It is 0 afterwards only if it has wrapped. */
  method PlanWrite(snapshot: Snapshot, ino: Word, offset: Word) returns (nlevels: nat, after: nat, dirty: bool)
    modifies snapshot`inodeblock
    ensures var size := old(snapshot.inodeblock)[SizeWord(ino)];
      && nlevels == (if size == 0 then 0 else Levels(size - 1))
      && after == (if offset >= size then Levels(offset) else nlevels)
      && dirty == (offset >= size)
      && (offset < size ==> snapshot.inodeblock == old(snapshot.inodeblock))
      && (offset >= size && offset + 1 < WORD_LIMIT ==>
           snapshot.inodeblock == old(snapshot.inodeblock)[SizeWord(ino) := offset + 1])
      && (offset + 1 == WORD_LIMIT ==> snapshot.inodeblock == old(snapshot.inodeblock)[SizeWord(ino) := 0])
    ensures snapshot.inodeblock[SizeWord(ino)] == 0 <==> offset + 1 == WORD_LIMIT
  {
    hide Levels, Pow128;
    var size := snapshot.inodeblock[SizeWord(ino)];
    nlevels := 0;
    if size > 0 { nlevels := CountLevels(size - 1); }
    dirty, after := false, nlevels;
    if offset >= size {
      snapshot.inodeblock := snapshot.inodeblock[SizeWord(ino) := (offset + 1) % WORD_LIMIT];
      dirty := true;
      after := CountLevels(offset);
    }
  }

  datatype ReadResult = Data(block: Block) | ReadError

  /** The treedisk interface: a virtual inode store on top of the store below. */
  class InodeStore {
    const below: Store
    ghost var g: Layout

    /** Opens a store that holds a treedisk. */
    constructor (below: Store, ghost g: Layout)
      requires Valid(below.blocks, g)
      ensures this.below == below && this.g == g
    {
      this.below, this.g := below, g;
    }

    /** Reads the superblock and the block of the inode; fails on a bad inode number. */
    method GetSnapshot(ino: Word) returns (ok: bool, snapshot: Snapshot)
      requires Valid(below.blocks, g)
      ensures ok <==> ino < |Files(below.blocks)|
      ensures fresh(snapshot)
      ensures ok ==>
        && snapshot.superblock == below.blocks[0]
        && snapshot.inodeBlockNo == InodeBlockNo(ino) < |below.blocks|
        && snapshot.inodeblock == below.blocks[InodeBlockNo(ino)]
    {
      hide FreeList, Forest, Partition, Fits;
      var read, superblock := below.Read(0);
      assert read;
      if ino >= superblock[0] * INODES_PER_BLOCK {
        snapshot := new Snapshot(superblock, Zeros(), 0);
        return false, snapshot;
      }
      var blockNo := 1 + ino / INODES_PER_BLOCK;
      var inodeblock;
      read, inodeblock := below.Read(blockNo);
      assert read;
      snapshot := new Snapshot(superblock, inodeblock, blockNo);
      ok := true;
    }

    /** The size of a file in blocks. */
    method GetSize(ino: Word) returns (ok: bool, n: Word)
      requires Valid(below.blocks, g)
      ensures ok <==> ino < |Files(below.blocks)|
      ensures ok ==> n == |Files(below.blocks)[ino]|
    {
      hide FreeList, Forest, Partition, Fits;
      var snapshot;
      ok, snapshot := GetSnapshot(ino);
      if !ok { return false, 0; }
      n := snapshot.inodeblock[SizeWord(ino)];
    }

    /** Reading: the block of the file at that offset, or an error past the end of the file
        or of the inode table; a read never fails otherwise. */
    method Read(ino: Word, offset: Word) returns (r: ReadResult)
      requires Valid(below.blocks, g)
      ensures r == (if ino < |Files(below.blocks)| && offset < |Files(below.blocks)[ino]|
                    then Data(Files(below.blocks)[ino][offset]) else ReadError)
    {
      hide *;
      FilesOfValid(below.blocks, g);
      var ok, snapshot := GetSnapshot(ino);
      if !ok { return ReadError; }
      var size := snapshot.inodeblock[SizeWord(ino)];
      FileSize(below.blocks, g, ino);
      if offset >= size { return ReadError; }
      var nlevels := CountLevels(size - 1);
      ReadStart(below.blocks, g, ino, offset);

      var b := snapshot.inodeblock[RootWord(ino)];
      while true
        invariant Walk(below.blocks, b, nlevels, offset) == Files(below.blocks)[ino][offset]
        invariant nlevels <= g.lev[ino] && b == Get(g.at, Tree(ino, nlevels, Prefix(offset, nlevels)))
        decreases nlevels
      {
        if b == 0 {
          WalkHole(below.blocks, nlevels, offset);
          return Data(Zeros());
        }
        ReadStep(below.blocks, g, ino, offset, nlevels);
        var read, block := below.Read(b);
        assert read;
        if nlevels == 0 { return Data(block); }
        nlevels := nlevels - 1;
        b := block[Digit(offset, nlevels)];
      }
    }

    /** Writing: an error for a bad inode number, a panic exactly when the free list holds
        fewer blocks than the write costs, and otherwise one file changes, by Put, and the
        free list shrinks by exactly the cost.  All this is for offsets whose successor is a word.
        At the last offset the size wraps to 0: on a file that is empty, or has five levels, the call
        succeeds if there are blocks for the path, the file is then empty, and no layout makes the
        disk valid again. */
    method Write(ino: Word, offset: Word, block: Block) returns (s: Status)
      requires Valid(below.blocks, g)
      modifies this, below
      ensures s == Error <==> ino >= |Files(old(below.blocks))|
      ensures s == Error ==> below.blocks == old(below.blocks) && g == old(g)
      ensures offset + 1 < WORD_LIMIT ==>
        (s == Panic <==>
          ino < |old(g.lev)| && |FreePlaces(old(g))| < WriteCost(old(below.blocks), old(g), ino, offset))
      ensures |below.blocks| == |old(below.blocks)|
      ensures s == Done && offset + 1 < WORD_LIMIT ==>
        && Valid(below.blocks, g)
        && Files(below.blocks) == Files(old(below.blocks))[ino := Put(Files(old(below.blocks))[ino], offset, block)]
        && |FreePlaces(g)| == |FreePlaces(old(g))| - WriteCost(old(below.blocks), old(g), ino, offset)
      ensures offset + 1 == WORD_LIMIT && s != Error ==>
        && InodeBlockNo(ino) < |old(below.blocks)| && ino < |old(g.lev)| && Header(old(below.blocks), old(g))
        && (Size(old(below.blocks), ino) == 0 ==> (s == Panic <==> |FreePlaces(old(g))| < 6))
        && (FitsLastWalk(old(below.blocks), old(g), ino) ==>
              && (s == Panic <==> |FreePlaces(old(g))| < Missing(old(g), ino, offset, 5))
              && (s == Done ==> File(below.blocks, ino) == [] && forall h :: !Valid(below.blocks, h)))
      ensures s == Done ==>
        && InodeBlockNo(ino) < |below.blocks|
        && (File(below.blocks, ino) == Put(Files(old(below.blocks))[ino], offset, block) <==> offset + 1 < WORD_LIMIT)
    {
      hide *;
      ghost var d := below.blocks;
      FilesOfValid(d, g);
      var ok, snapshot := GetSnapshot(ino);
      if !ok { return Error; }
      FileSize(d, g, ino);

      var nlevels, after, dirty := PlanWrite(snapshot, ino, offset);
      if snapshot.inodeblock[SizeWord(ino)] == 0 {
        s := WriteLast(snapshot, ino, offset, block, after);
      } else {
        s := WriteWithin(snapshot, ino, offset, block, nlevels, after, dirty, d[InodeBlockNo(ino)]);
      }
    }

    /** The rest of a write whose size has not wrapped; was is the inode block as it is on the disk. */
    method WriteWithin(snapshot: Snapshot, ino: Word, offset: Word, block: Block, nlevels: nat, after: nat,
                       wasDirty: bool, ghost was: Block)
      returns (s: Status)
      requires Valid(below.blocks, g) && ino < |Files(below.blocks)| && offset + 1 < WORD_LIMIT
      requires snapshot.inodeBlockNo == InodeBlockNo(ino) < |below.blocks| && was == below.blocks[InodeBlockNo(ino)]
      requires snapshot.superblock == below.blocks[0]
      requires nlevels == if was[SizeWord(ino)] == 0 then 0 else Levels(was[SizeWord(ino)] - 1)
      requires after == if offset >= was[SizeWord(ino)] then Levels(offset) else nlevels
      requires wasDirty == (offset >= was[SizeWord(ino)])
      requires snapshot.inodeblock == if wasDirty then was[SizeWord(ino) := offset + 1] else was
      modifies this, below, snapshot
      ensures s != Error && |below.blocks| == |old(below.blocks)|
      ensures s == Panic <==>
        ino < |old(g.lev)| && |FreePlaces(old(g))| < WriteCost(old(below.blocks), old(g), ino, offset)
      ensures s == Done ==>
        && Valid(below.blocks, g)
        && Files(below.blocks) == Files(old(below.blocks))[ino := Put(Files(old(below.blocks))[ino], offset, block)]
        && |FreePlaces(g)| == |FreePlaces(old(g))| - WriteCost(old(below.blocks), old(g), ino, offset)
        && InodeBlockNo(ino) < |below.blocks|
        && File(below.blocks, ino) == Put(Files(old(below.blocks))[ino], offset, block)
    {
      hide *;
      ghost var d := below.blocks;
      FilesOfValid(d, g);
      WriteStart(d, g, ino, offset);
      ghost var d1, g2 := Seen(below.blocks, InodeBlockNo(ino), snapshot.inodeblock), g;
      assert d1 == Resized(d, ino, offset);
      var ok, dirty := true, wasDirty;
      if after > nlevels {
        ok, g2 := GrowTree(below, snapshot, ino, nlevels, after, g);
        if !ok { return Panic; }
        dirty := true;
      }
      ghost var d2 := Seen(below.blocks, InodeBlockNo(ino), snapshot.inodeblock);
      SeenAsWritten(below.blocks, InodeBlockNo(ino), snapshot.inodeblock);
      if dirty {
        var written := below.Write(snapshot.inodeBlockNo, snapshot.inodeblock);
        assert written;
      }
      WriteGrown(d, g, d2, g2, ino, offset);
      WalkMayStart(below.blocks, snapshot.superblock, snapshot.inodeblock, ino, after, offset, g2);
      ghost var g3;
      ok, g3 := WalkTree(below, snapshot, ino, after, offset, block, g2, true);
      if !ok { return Panic; }
      WriteEnd(d, g, d2, g2, below.blocks, g3, ino, offset, block);
      g := g3;
      FileOfFiles(below.blocks, g, ino);
      s := Done;
    }

    /** The rest of a write at the last offset: no level is added, and the walk takes five levels
        whatever the tree has. */
    method WriteLast(snapshot: Snapshot, ino: Word, offset: Word, block: Block, after: nat) returns (s: Status)
      requires Valid(below.blocks, g) && ino < |Files(below.blocks)|
      requires offset + 1 == WORD_LIMIT && after == Levels(offset)
      requires snapshot.inodeBlockNo == InodeBlockNo(ino) < |below.blocks| && snapshot.superblock == below.blocks[0]
      requires snapshot.inodeblock == below.blocks[InodeBlockNo(ino)][SizeWord(ino) := 0]
      modifies below, snapshot
      ensures s != Error && |below.blocks| == |old(below.blocks)|
      ensures ino < |g.lev| && Header(old(below.blocks), g)
      ensures Size(old(below.blocks), ino) == 0 ==> (s == Panic <==> |FreePlaces(g)| < 6)
      ensures FitsLastWalk(old(below.blocks), g, ino) ==>
        && (s == Panic <==> |FreePlaces(g)| < Missing(g, ino, offset, 5))
        && (s == Done ==> File(below.blocks, ino) == [] && forall h :: !Valid(below.blocks, h))
      ensures s == Done ==> File(below.blocks, ino) != Put(Files(old(below.blocks))[ino], offset, block)
    {
      hide *;
      ghost var d := below.blocks;
      FilesOfValid(d, g);
      HeaderOfValid(d, g, ino);
      LastOffsetLevels(offset);
      ghost var sound, g1 := FitsLastWalk(d, g, ino), g.(lev := g.lev[ino := 5]);
      var written := below.Write(snapshot.inodeBlockNo, snapshot.inodeblock);
      assert written;
      SeenAsWritten(d, InodeBlockNo(ino), snapshot.inodeblock);
      ghost var d1 := below.blocks;
      if sound {
        LastStart(d, g, ino, offset, d1, g1);
        WalkMayStart(d1, snapshot.superblock, snapshot.inodeblock, ino, after, offset, g1);
      }
      var ok: bool;
      ghost var g3;
      ok, g3 := WalkTree(below, snapshot, ino, after, offset, block, g1, sound);
      if !ok { return Panic; }
      if sound { LastEnd(d1, g1, below.blocks, g3, ino, offset, block); }
      LastOffsetDoesNotFit(below.blocks, ino, Files(d)[ino], block);
      s := Done;
    }
  }

  // ---------- creating a file system ----------

  /** Fills one list block: the link, then the blocks after head while there are any. */
  method FillList(data: array<Word>, link: Word, head: Word, nblocks: Word) returns (nextFree: Word)
    requires data.Length == 128 && head < nblocks
    modifies data
    ensures nextFree == if head + 128 <= nblocks then head + 128 else nblocks
    ensures data[0] == link
    ensures forall j :: 1 <= j < 128 ==> data[j] == if head + j < nblocks then head + j else 0
  {
    data[0] := link;
    nextFree := head + 1;
    var i := 1;
    while i < 128 && nextFree < nblocks
      invariant 1 <= i <= 128 && nextFree == head + i <= nblocks
      invariant data[0] == link
      invariant forall j :: 1 <= j < i ==> data[j] == head + j
    {
      data[i] := nextFree;
      nextFree := nextFree + 1;
      i := i + 1;
    }
    ghost var used := i;
    while i < 128
      invariant used <= i <= 128
      invariant data[0] == link
      invariant forall j :: 1 <= j < used ==> data[j] == head + j
      invariant forall j :: used <= j < i ==> data[j] == 0
    {
      data[i] := 0;
      i := i + 1;
    }
  }

  /** Lays out the free list over the blocks [first, nblocks), 128 blocks to a list block. */
  method SetupFreelist(below: Store, first: Word, nblocks: Word) returns (head: Word)
    requires 0 < first < nblocks == |below.blocks|
    modifies below
    ensures |below.blocks| == nblocks && ListsWritten(below.blocks, first, nblocks)
    ensures head == first + 128 * (ListDepth(first, nblocks) - 1)
    ensures forall b :: 0 <= b < first ==> below.blocks[b] == old(below.blocks)[b]
  {
    var data := new Word[128](_ => 0);
    var nextFree: Word := first;
    head := 0;
    ghost var k: nat := 0;
    while nextFree < nblocks
      invariant |below.blocks| == nblocks
      invariant nextFree == if first + 128 * k < nblocks then first + 128 * k else nblocks
      invariant k > 0 ==> first + 128 * (k - 1) < nblocks
      invariant head == if k == 0 then 0 else first + 128 * (k - 1)
      invariant forall j: nat :: j < k ==>
        first + 128 * j < nblocks && below.blocks[first + 128 * j] == ListBlock(first, nblocks, j)
      invariant forall b :: 0 <= b < first ==> below.blocks[b] == old(below.blocks)[b]
      decreases nblocks - nextFree
    {
      var link := head;
      head := nextFree;
      nextFree := FillList(data, link, head, nblocks);
      assert data[..] == ListBlock(first, nblocks, k);
      var written := below.Write(head, data[..]);
      assert written;
      k := k + 1;
    }
    assert k == ListDepth(first, nblocks);
  }

  /** Formats the store unless it already holds a file system: all files exist and are empty,
      and every block after the inode blocks is free. */
  method Create(below: Store, ninodes: Word) returns (s: Status, ghost g: Layout)
    requires |below.blocks| < WORD_LIMIT
    modifies below
    ensures s == Error <==> |old(below.blocks)| < InodeBlocksFor(ninodes) + 2
    ensures s != Panic
    ensures s == Error || InodeBlocks(old(below.blocks)) != 0 ==> below.blocks == old(below.blocks)
    ensures s == Done && InodeBlocks(old(below.blocks)) == 0 ==>
      && |below.blocks| == |old(below.blocks)|
      && Valid(below.blocks, g)
      && Files(below.blocks) == seq(InodeBlocksFor(ninodes) * INODES_PER_BLOCK, _ => [])
      && FreeBlocks(g) == Range(InodeBlocksFor(ninodes) + 1, |below.blocks|)
      && |FreePlaces(g)| == |below.blocks| - InodeBlocksFor(ninodes) - 1
      && (|Files(below.blocks)| >= ninodes <==> ninodes + 63 < 0x1_0000_0000)
      && (ninodes + 63 < 0x1_0000_0000 ==> |Files(below.blocks)| < ninodes + 64)
  {
    hide Valid, Files, FreeBlocks, FreePlaces, Range, FreshLayout, ListsWritten;
    var nib: Word := InodeBlocksFor(ninodes);
    EnoughInodes(ninodes);
    var nblocks := |below.blocks|;
    g := Layout(map[], map[], 0, []);
    if nblocks < nib + 2 { return Error, g; }
    var read, found := below.Read(0);
    assert read;
    if found[0] == 0 {
      var head := SetupFreelist(below, nib + 1, nblocks);
      ghost var listed := below.blocks;
      var superblock: Block := Zeros()[0 := nib][1 := head];
      var written := below.Write(0, superblock);
      assert written;
      var i: Word := 1;
      while i <= nib
        invariant 1 <= i <= nib + 1 && |below.blocks| == nblocks
        invariant forall b :: 1 <= b < i ==> below.blocks[b] == Zeros()
        invariant below.blocks[0] == superblock
        invariant forall b :: nib < b < nblocks ==> below.blocks[b] == listed[b]
      {
        written := below.Write(i, Zeros());
        assert written;
        i := i + 1;
      }
      g := FreshLayout(nib + 1, nblocks, nib * INODES_PER_BLOCK);
      FreshFiles(listed, below.blocks, nib, g);
      FreshCount(nib + 1, nblocks, nib * INODES_PER_BLOCK);
    }
    s := Done;
  }

  // ---------- using up the free list ----------

  /** Allocates until the free list is empty: every free block is returned once. */
  method DrainDisk(below: Store, snapshot: Snapshot, ghost g0: Layout) returns (bs: seq<Word>)
    requires Formed(below.blocks, g0) && NoneTaken(g0) && |below.blocks| > 0 && snapshot.superblock == below.blocks[0]
    modifies below, snapshot`superblock
    ensures |below.blocks| == |old(below.blocks)| && FreeHead(below.blocks) == 0
    ensures forall b: Word :: b in bs <==> b in FreeBlocks(g0)
    ensures forall i, j :: 0 <= i < j < |bs| ==> bs[i] != bs[j]
  {
    hide Formed, Pop, FreeBlocks, FreePlaces;
    bs := [];
    ghost var g := g0;
    while true
      invariant |below.blocks| == |old(below.blocks)| && snapshot.superblock == below.blocks[0]
      invariant Formed(below.blocks, g) && forall u: nat :: u >= |bs| ==> Taken(u) !in g.at
      invariant forall b: Word :: b in FreeBlocks(g0) <==> b in bs || b in FreeBlocks(g)
      invariant forall b: Word :: b in bs ==> b !in FreeBlocks(g)
      invariant forall i, j :: 0 <= i < j < |bs| ==> bs[i] != bs[j]
      decreases |FreePlaces(g)|
    {
      ghost var g' := DrainStep(below.blocks, g, |bs|);
      var ok, b := AllocBlock(below, snapshot);
      if !ok { break; }
      bs := bs + [b];
      g := g';
    }
  }

  /** Formatting a store and then allocating until nothing is left returns each block after the inode
      blocks exactly once. */
  method CreateAndDrain(below: Store, ninodes: Word) returns (s: Status, bs: seq<Word>)
    requires 0 < |below.blocks| < WORD_LIMIT && InodeBlocks(below.blocks) == 0
    modifies below
    ensures s == Error <==> |old(below.blocks)| < InodeBlocksFor(ninodes) + 2
    ensures s != Panic
    ensures s == Done ==>
      && (forall b: Word :: b in bs <==> InodeBlocksFor(ninodes) < b < |old(below.blocks)|)
      && (forall i, j :: 0 <= i < j < |bs| ==> bs[i] != bs[j])
      && |below.blocks| > 0 && FreeHead(below.blocks) == 0
  {
    hide Formed, FreeBlocks, FreePlaces, Files, Fits;
    bs := [];
    ghost var g;
    s, g := Create(below, ninodes);
    if s != Done { return; }
    var read, superblock := below.Read(0);
    assert read;
    var snapshot := new Snapshot(superblock, Zeros(), 0);
    bs := DrainDisk(below, snapshot, g);
    ghost var range := Range(InodeBlocksFor(ninodes) + 1, |below.blocks|);
    assert forall b: Word :: b in range <==> InodeBlocksFor(ninodes) < b < |below.blocks|;
  }

  // ---------- runs ----------

  /** Makes the writes one after the other, as mkfs does; stops at the first that finds the free
      list too short, which no write does while ten blocks are left for it.  d and g are the disk
      that the last write was tried on. */
  method WriteAll(fs: InodeStore, ops: seq<WriteOp>)
    returns (s: Status, done: nat, ghost d: Disk, ghost g: Layout)
    requires Valid(fs.below.blocks, fs.g) && InTable(ops, |Files(fs.below.blocks)|)
    modifies fs, fs.below
    ensures s != Error && done <= |ops| && (s == Done <==> done == |ops|)
    ensures s == Done ==>
      Valid(fs.below.blocks, fs.g) && Files(fs.below.blocks) == Apply(Files(old(fs.below.blocks)), ops)
    ensures s == Panic ==> |FreePlaces(old(fs.g))| < 10 * (done + 1)
    ensures s == Panic ==>
      && Valid(d, g) && Files(d) == Apply(Files(old(fs.below.blocks)), ops[..done])
      && |FreePlaces(g)| < WriteCost(d, g, ops[done].ino, ops[done].off)
  {
    hide Valid, Put, Files, FreePlaces, WriteCost;
    done, d, g := 0, fs.below.blocks, fs.g;
    FilesOfValid(fs.below.blocks, fs.g);
    while done < |ops|
      invariant 0 <= done <= |ops|
      invariant Valid(fs.below.blocks, fs.g) && |fs.below.blocks| > 0
          && InodeBlocks(fs.below.blocks) < |fs.below.blocks|
      invariant Files(fs.below.blocks) == Apply(Files(old(fs.below.blocks)), ops[..done])
      invariant |FreePlaces(fs.g)| >= |FreePlaces(old(fs.g))| - 10 * done
    {
      var op := ops[done];
      d, g := fs.below.blocks, fs.g;
      FileSize(fs.below.blocks, fs.g, op.ino);
      CostBounds(fs.below.blocks, fs.g, op.ino, op.off);
      assert op in ops;
      assert ops[..done + 1][..done] == ops[..done];
      s := fs.Write(op.ino, op.off, op.block);
      if s != Done { return; }
      FilesOfValid(fs.below.blocks, fs.g);
      done := done + 1;
    }
    assert ops[..|ops|] == ops;
    s := Done;
  }

  /** After a new disk was made and any writes succeeded, every read returns the last block
      written at its offset, a null block where nothing was written below the size, and an
      error at or past the size.  The writes succeed if there are ten blocks for each of them. */
  method CreateWriteRead(below: Store, ninodes: Word, ops: seq<WriteOp>, ino: Word, offset: Word)
    returns (s: Status, r: ReadResult)
    requires |below.blocks| < WORD_LIMIT && |below.blocks| > 0 && InodeBlocks(below.blocks) == 0
    requires InTable(ops, InodeBlocksFor(ninodes) * INODES_PER_BLOCK)
    modifies below
    ensures s == Error <==> |old(below.blocks)| < InodeBlocksFor(ninodes) + 2
    ensures s == Panic ==> |old(below.blocks)| - InodeBlocksFor(ninodes) - 1 < 10 * |ops|
    ensures s == Done ==>
      r == if ino >= InodeBlocksFor(ninodes) * INODES_PER_BLOCK || offset >= End(ops, ino) then ReadError
           else match LastWrite(ops, ino, offset) case Some(b) => Data(b) case None => Data(Zeros())
  {
    r := ReadError;
    ghost var g;
    s, g := Create(below, ninodes);
    if s != Done { return; }
    var fs := new InodeStore(below, g);
    ghost var empty := Files(below.blocks);
    var done;
    ghost var d, last;
    s, done, d, last := WriteAll(fs, ops);
    if s != Done { return; }
    r := fs.Read(ino, offset);
    if ino < |empty| { ReadsLastWrite(empty, ops, ino, offset); }
  }
}
