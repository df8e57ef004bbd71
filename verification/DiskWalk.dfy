/**
 The walk of treedisk_write from the inode down to a data block, one height per round, and
 the growth of a tree, one level per round: what holds before and after each round.
 */
module DiskWalk {
  import opened Egos
  import opened Radix
  import opened DiskLayout
  import opened DiskSteps
  import opened DiskPaths

  /** The disk as an operation sees it: one block of the store may still be in memory. */
  ghost function Seen(d: Disk, b: nat, c: Block): (d': Disk)
    requires b < |d|
    ensures |d'| == |d|
  {
    d[b := c]
  }

  /** Taking a block from the store is taking it from the disk as seen. */
  lemma PopSeen(d: Disk, x: nat, c: Block, g: Layout)
    requires 0 < x < |d| && Formed(Seen(d, x, c), g)
    requires x <= InodeBlocks(d) || exists r :: r in g.at && !r.Free? && g.at[r] == x
    ensures FreeHead(d) == FreeHead(Seen(d, x, c)) < |d|
    ensures FreeHead(d) == 0 <==> FreePlaces(g) == {}
    ensures FreeHead(d) != 0 ==> g.depth > 0
    ensures FreeHead(d) != 0 ==> InodeBlocks(d) < Pop(d).1 < |d| && Pop(d).1 != x
    ensures FreeHead(d) != 0 ==> Pop(Seen(d, x, c)) == (Seen(Pop(d).0, x, c), Pop(d).1)
  {
    hide Forest;
    var d' := Seen(d, x, c);
    FullIffNoHead(d', g);
    if FreeHead(d) != 0 {
      var r := PopRole(d', g);
      PopCommutes(d, x, c);
    }
  }

  // ---------- growing ----------

  lemma GrowSeen(d1: Disk, ib: nat, c: Block, ino: nat, b: Word)
    requires ib == InodeBlockNo(ino) < |d1| && ib != b < |d1|
    ensures Seen(d1[b := TopBlock(c[RootWord(ino)])], ib, c[RootWord(ino) := b])
            == Link(Seen(d1, ib, c), ib, RootWord(ino), b, TopBlock(c[RootWord(ino)]))
  {
  }

  /** What a partly grown tree has in common with the tree before. */
  ghost predicate Grown(d0: Disk, g0: Layout, d: Disk, g: Layout, ino: nat, lev: nat) {
    && Formed(d0, g0) && Formed(d, g) && NoneTaken(g)
    && ino < |g0.lev| && g0.lev[ino] <= lev
    && SameSizes(d0, d, g0) && SameContents(d0, g0, d, g)
    && GrownBy(g0, g, ino, g0.lev[ino], lev)
    && |FreePlaces(g)| == |FreePlaces(g0)| - (lev - g0.lev[ino])
  }

  lemma GrownNothing(d: Disk, g: Layout, ino: nat)
    requires Formed(d, g) && NoneTaken(g) && ino < |g.lev|
    ensures Grown(d, g, d, g, ino, g.lev[ino])
  {
    hide Formed;
  }

  lemma GrownStep(d0: Disk, g0: Layout, d: Disk, g: Layout, ino: nat, lev: nat, d': Disk, g': Layout)
    requires Grown(d0, g0, d, g, ino, lev) && g.depth > 0
    requires 0 < FreeHead(d) < |d| && Pop(d).1 < |d|
    requires d' == GrowDisk(d, ino) && g' == GrowLayout(PopLayout(d, g, 0), ino)
    ensures Grown(d0, g0, d', g', ino, lev + 1)
  {
    hide Formed;
    GrowStep(d, g, ino, d', g');
  }

  /** One round of the growing loop, as a change of the store and of the inode in memory. */
  lemma GrowRound(d0: Disk, g0: Layout, d: Disk, c: Block, g: Layout, ino: nat, lev: nat) returns (g': Layout)
    requires InodeBlockNo(ino) < |d| && Grown(d0, g0, Seen(d, InodeBlockNo(ino), c), g, ino, lev)
    ensures ino < |g0.lev| && |FreePlaces(g0)| >= lev - g0.lev[ino]
    ensures FreeHead(d) < |d|
    ensures FreeHead(d) == 0 <==> |FreePlaces(g0)| == lev - g0.lev[ino]
    ensures FreeHead(d) != 0 ==>
      var b, root := Pop(d).1, RootWord(ino);
      && InodeBlocks(d) < b < |d|
      && Grown(d0, g0, Seen(Pop(d).0[b := TopBlock(c[root])], InodeBlockNo(ino), c[root := b]), g', ino, lev + 1)
  {
    var ib := InodeBlockNo(ino);
    var s := Seen(d, ib, c);
    PopSeen(d, ib, c, g);
    if FreeHead(d) != 0 {
      g' := GrowLayout(PopLayout(s, g, 0), ino);
      GrowSeen(Pop(d).0, ib, c, ino, Pop(d).1);
      GrownStep(d0, g0, s, g, ino, lev, GrowDisk(s, ino), g');
    } else {
      g' := g;
    }
  }

  // ---------- walking down ----------

  /** The tree places after the missing ones above height h on the path to off were added. */
  ghost predicate FilledAbove(g0: Layout, g: Layout, ino: nat, off: nat, h: int) {
    && g.lev == g0.lev && ino < |g.lev|
    && (forall i: nat, j: nat, q: nat :: Tree(i, j, q) in g.at <==>
          (Tree(i, j, q) in g0.at || (i == ino && h < j <= g.lev[ino] && q == Prefix(off, j))))
  }

  /** Before a round of the walk at height h: the path exists above h, files are unchanged. */
  ghost predicate Walking(d0: Disk, g0: Layout, d: Disk, g: Layout, ino: nat, off: nat, h: nat) {
    && Formed(d0, g0) && Formed(d, g) && NoneTaken(g)
    && SameSizes(d0, d, g0) && SameContents(d0, g0, d, g)
    && FilledAbove(g0, g, ino, off, h)
    && OnPath(g, ino, off, h)
    && |FreePlaces(g)| == |FreePlaces(g0)| - (Missing(g0, ino, off, g.lev[ino]) - Missing(g0, ino, off, h))
  }

  /** After the walk: the data block of off holds c, and nothing else has changed. */
  ghost predicate Finished(d0: Disk, g0: Layout, d: Disk, g: Layout, ino: nat, off: nat, c: Block) {
    && Formed(d0, g0) && Formed(d, g) && NoneTaken(g)
    && SameSizes(d0, d, g0) && SameContentsBut(d0, g0, d, g, ino, off) && Content(d, g, ino, off) == c
    && FilledAbove(g0, g, ino, off, -1)
    && |FreePlaces(g)| == |FreePlaces(g0)| - Missing(g0, ino, off, g.lev[ino])
  }

  lemma WalkingStart(d: Disk, g: Layout, ino: nat, off: nat)
    requires Formed(d, g) && NoneTaken(g) && ino < |g.lev| && Prefix(off, g.lev[ino]) == 0
    ensures Walking(d, g, d, g, ino, off, g.lev[ino])
    ensures OnPath(g, ino, off, g.lev[ino]) && SlotBlock(g, ino, off, g.lev[ino]) == InodeBlockNo(ino)
    ensures SlotIndex(g, ino, off, g.lev[ino]) == RootWord(ino)
    ensures 0 < InodeBlockNo(ino) < |d|
  {
    assert Header(d, g);
    hide FreeList, Forest, Partition;
  }

  /** The place at height h exists: go down without a change. */
  lemma WalkDown(d0: Disk, g0: Layout, d: Disk, g: Layout, ino: nat, off: nat, h: nat)
    requires Walking(d0, g0, d, g, ino, off, h) && h > 0
    requires Tree(ino, h, Prefix(off, h)) in g.at
    ensures Walking(d0, g0, d, g, ino, off, h - 1)
  {
    hide Formed, Content;
    assert Tree(ino, h, Prefix(off, h)) in g0.at;
  }

  /** The data block exists: overwrite it. */
  lemma WalkStore(d0: Disk, g0: Layout, d: Disk, g: Layout, ino: nat, off: nat, c: Block, d': Disk)
    requires Walking(d0, g0, d, g, ino, off, 0) && Tree(ino, 0, off) in g.at
    requires g.at[Tree(ino, 0, off)] < |d| && d' == d[g.at[Tree(ino, 0, off)] := c]
    ensures Finished(d0, g0, d', g, ino, off, c)
  {
    hide Formed;
    StoreKeeps(d, g, d', ino, off, c);
    assert Tree(ino, 0, Prefix(off, 0)) in g0.at;
  }

  /** The place at height h is missing: link a block, zeroed above the data blocks. */
  lemma WalkLink(d0: Disk, g0: Layout, d: Disk, g: Layout, ino: nat, off: nat, h: nat, c: Block, d': Disk, g': Layout)
    requires Walking(d0, g0, d, g, ino, off, h) && g.depth > 0
    requires Tree(ino, h, Prefix(off, h)) !in g.at
    requires h > 0 ==> c == Zeros()
    requires 0 < FreeHead(d) < |d| && Pop(d).1 < |d| && SlotBlock(g, ino, off, h) < |d|
    requires d' == LinkDisk(d, g, ino, off, h, c) && g' == LinkLayout(d, g, ino, off, h)
    ensures if h == 0 then Finished(d0, g0, d', g', ino, off, c) else Walking(d0, g0, d', g', ino, off, h - 1)
  {
    hide Formed;
    LinkPlaces(d, g, ino, off, h);
    LinkStep(d, g, ino, off, h, c, d', g');
  }

  lemma LinkSeen(d: Disk, x: nat, c: Block, i: nat, b: Word, c': Block)
    requires x < |d| && i < 128 && b < |d| && x != b
    ensures Seen(d[x := c[i := b]], b, c') == Link(Seen(d, x, c), x, i, b, c')
  {
  }

  /** What the reference found in the slot says about the place it refers to. */
  lemma WalkSlot(d0: Disk, g0: Layout, s: Disk, g: Layout, ino: nat, off: nat, h: nat)
    requires Walking(d0, g0, s, g, ino, off, h)
    ensures OnPath(g, ino, off, h)
    ensures 0 < SlotBlock(g, ino, off, h) < |s|
    ensures s[SlotBlock(g, ino, off, h)][SlotIndex(g, ino, off, h)] == Get(g.at, Tree(ino, h, Prefix(off, h))) < |s|
    ensures Get(g.at, Tree(ino, h, Prefix(off, h))) == 0 <==> Tree(ino, h, Prefix(off, h)) !in g.at
    ensures SlotBlock(g, ino, off, h) <= InodeBlocks(s)
      || exists r :: r in g.at && !r.Free? && g.at[r] == SlotBlock(g, ino, off, h)
  {
    SlotHolds(s, g, ino, off, h);
  }

  /** One round of the walk where the slot is empty, as a change of the store: block b is taken,
      its number is written into the slot, and its own contents are c'. */
  lemma WalkRound(d0: Disk, g0: Layout, d: Disk, x: nat, c: Block, g: Layout, ino: nat, off: nat, h: nat, c': Block)
    returns (g': Layout)
    requires x < |d| && Walking(d0, g0, Seen(d, x, c), g, ino, off, h)
    requires OnPath(g, ino, off, h) && x == SlotBlock(g, ino, off, h) && c[SlotIndex(g, ino, off, h)] == 0
    requires h > 0 ==> c' == Zeros()
    ensures 0 < x && FreeHead(d) < |d|
    ensures FreeHead(d) == 0 ==> ino < |g0.lev| && |FreePlaces(g0)| < Missing(g0, ino, off, g0.lev[ino])
    ensures FreeHead(d) != 0 ==>
      var b, i := Pop(d).1, SlotIndex(g, ino, off, h);
      var d' := Pop(d).0[x := c[i := b]];
      && 0 < b < |d|
      && (h == 0 ==> Finished(d0, g0, Seen(d', b, c'), g', ino, off, c'))
      && (h > 0 ==> Walking(d0, g0, Seen(d', b, c'), g', ino, off, h - 1))
      && (h > 0 ==> OnPath(g', ino, off, h - 1) && SlotBlock(g', ino, off, h - 1) == b && h - 1 < g'.lev[ino])
  {
    hide Forest, FreeList, Partition, Content;
    var s := Seen(d, x, c);
    WalkSlot(d0, g0, s, g, ino, off, h);
    PopSeen(d, x, c, g);
    if FreeHead(d) != 0 {
      g' := LinkLayout(s, g, ino, off, h);
      LinkSeen(Pop(d).0, x, c, SlotIndex(g, ino, off, h), Pop(d).1, c');
      WalkLink(d0, g0, s, g, ino, off, h, c', LinkDisk(s, g, ino, off, h, c'), g');
      if h > 0 { LinkedSlot(s, g, ino, off, h); }
    } else {
      g' := g;
    }
  }

  lemma LinkedSlot(d: Disk, g: Layout, ino: nat, off: nat, h: nat)
    requires Formed(d, g) && g.depth > 0 && NoneTaken(g) && 0 < FreeHead(d) < |d|
    ensures Tree(ino, h, Prefix(off, h)) in LinkLayout(d, g, ino, off, h).at
    ensures LinkLayout(d, g, ino, off, h).at[Tree(ino, h, Prefix(off, h))] == Pop(d).1
  {
    hide Forest;
    var r := PopRole(d, g);
  }

  /** One round of the walk where the slot refers to a block b: the block in memory is clean, so
      the store is what is seen; go down to b, or overwrite b with c'. */
  lemma WalkFound(d0: Disk, g0: Layout, d: Disk, x: nat, c: Block, g: Layout, ino: nat, off: nat, h: nat, c': Block)
    requires x < |d| && Walking(d0, g0, Seen(d, x, c), g, ino, off, h)
    requires OnPath(g, ino, off, h) && x == SlotBlock(g, ino, off, h) && c[SlotIndex(g, ino, off, h)] != 0
    requires d[x] == c || c == Zeros()
    ensures var b := c[SlotIndex(g, ino, off, h)];
      && b < |d|
      && (h == 0 ==> Finished(d0, g0, d[b := c'], g, ino, off, c'))
      && (h > 0 ==> Walking(d0, g0, Seen(d, b, d[b]), g, ino, off, h - 1))
      && (h > 0 ==> OnPath(g, ino, off, h - 1) && SlotBlock(g, ino, off, h - 1) == b && h - 1 < g.lev[ino])
  {
    hide Forest, FreeList, Partition, Content;
    assert Seen(d, x, c) == d;
    WalkSlot(d0, g0, d, g, ino, off, h);
    if h == 0 {
      WalkStore(d0, g0, d, g, ino, off, c', d[c[SlotIndex(g, ino, off, h)] := c']);
    } else {
      WalkDown(d0, g0, d, g, ino, off, h);
      assert Seen(d, c[SlotIndex(g, ino, off, h)], d[c[SlotIndex(g, ino, off, h)]]) == d;
    }
  }

  /** Below the root the slot index is the digit that the code shifts out of the offset. */
  lemma SlotDigit(g: Layout, ino: nat, off: Word, h: nat)
    requires OnPath(g, ino, off, h) && h < g.lev[ino]
    ensures SlotIndex(g, ino, off, h) == Digit(off, h)
  {
    ShiftIsPrefix(off, h);
  }

  lemma SeenAsWritten(d: Disk, b: nat, c: Block)
    requires b < |d|
    ensures Seen(d, b, c) == d[b := c] && Seen(d, b, d[b]) == d
  {
  }

  lemma FinishedCount(d0: Disk, g0: Layout, d: Disk, g: Layout, ino: nat, off: nat, c: Block)
    requires Finished(d0, g0, d, g, ino, off, c)
    ensures ino < |g0.lev| && |FreePlaces(g0)| >= Missing(g0, ino, off, g0.lev[ino])
  {
    hide Formed;
  }
}
