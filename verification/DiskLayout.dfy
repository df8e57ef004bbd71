/**
 The on-disk layout of a treedisk and the one invariant that every operation keeps.

 A disk is a sequence of blocks of 128 words; the superblock, an inode block, an indirect
 block, a free-list block and a data block are different readings of the same words.

 The invariant is stated through a ghost map from roles to blocks.  A block either sits at a
 place of the free list, or at a place of the tree of one inode, or has just been taken from
 the free list and is not linked yet.  A place of a tree is named by the inode, its height
 above the data blocks, and the base-128 prefix that all offsets below it share; these names
 do not change when the tree grows.  The words on the disk are exactly the encoding of the
 map, and the map is a bijection onto the blocks after the inode blocks.
 */
module DiskLayout {
  import opened Egos
  import opened Radix

  const INODES_PER_BLOCK := 64

  type Block = b: seq<Word> | |b| == 128 witness Zeros()

  function Zeros(): (b: seq<Word>)
    ensures |b| == 128
    ensures forall i :: 0 <= i < 128 ==> b[i] == 0
  {
    seq(128, _ => 0)
  }

  type Disk = seq<Block>

  datatype Role =
    | Free(k: nat, i: nat)            // k: list block, counted from the end of the list; i == 0: the list block itself
    | Tree(ino: nat, h: nat, p: nat)  // covers the offsets with Prefix(offset, h) == p
    | Taken(t: nat)                   // removed from the free list, not yet linked into a tree

  type Roles = map<Role, Word>

  /** The ghost forest: the role map and its inverse, the length of the free list, the height
      of each tree. */
  datatype Layout = Layout(at: Roles, role: map<Word, Role>, depth: nat, lev: seq<nat>)

  function Get(at: Roles, r: Role): Word {
    if r in at then at[r] else 0
  }

  // ---------- readings of the words ----------

  function InodeBlocks(d: Disk): Word
    requires |d| > 0
  {
    d[0][0]
  }

  function FreeHead(d: Disk): Word
    requires |d| > 0
  {
    d[0][1]
  }

  function InodeBlockNo(ino: nat): nat { 1 + ino / INODES_PER_BLOCK }

  function RootWord(ino: nat): (i: nat)
    ensures i < 128
  {
    2 * (ino % INODES_PER_BLOCK)
  }

  function SizeWord(ino: nat): (i: nat)
    ensures i < 128
  {
    2 * (ino % INODES_PER_BLOCK) + 1
  }

  function Root(d: Disk, ino: nat): Word
    requires InodeBlockNo(ino) < |d|
  {
    d[InodeBlockNo(ino)][RootWord(ino)]
  }

  function Size(d: Disk, ino: nat): Word
    requires InodeBlockNo(ino) < |d|
  {
    d[InodeBlockNo(ino)][SizeWord(ino)]
  }

  /** The words of the superblock and of inode ino: 64 inodes to a block from block 1 on, each a root and
      a size. */
  lemma OnDisk(d: Disk, ino: nat)
    requires 1 + ino / 64 < |d|
    ensures InodeBlocks(d) == d[0][0] && FreeHead(d) == d[0][1]
    ensures Root(d, ino) == d[1 + ino / 64][2 * (ino % 64)]
    ensures Size(d, ino) == d[1 + ino / 64][2 * (ino % 64) + 1]
  {
  }

  // ---------- the invariant ----------

  /** The blocks after the inode blocks have exactly one role each: at and role are mutually
      inverse bijections between roles and those blocks. */
  ghost predicate Partition(d: Disk, g: Layout)
    requires |d| > 0
  {
    && (forall r :: r in g.at ==> InodeBlocks(d) < g.at[r] < |d| && g.at[r] in g.role && g.role[g.at[r]] == r)
    && (forall b: Word :: InodeBlocks(d) < b < |d| ==> b in g.role && g.role[b] in g.at && g.at[g.role[b]] == b)
  }

  ghost predicate Header(d: Disk, g: Layout) {
    && 0 < |d| < WORD_LIMIT
    && InodeBlocks(d) < |d|
    && InodeBlocks(d) * INODES_PER_BLOCK == |g.lev| < WORD_LIMIT
  }

  /** List block k: word 0 names the next list block, the other words name free blocks. */
  ghost predicate ListWords(b: Block, at: Roles, k: nat) {
    && b[0] == (if k == 0 then 0 else Get(at, Free(k - 1, 0)))
    && (forall i: nat :: 1 <= i < 128 ==> b[i] == Get(at, Free(k, i)))
  }

  ghost predicate ListAt(d: Disk, g: Layout, k: nat)
    requires |d| > 0 && Partition(d, g)
  {
    Free(k, 0) in g.at && ListWords(d[g.at[Free(k, 0)]], g.at, k)
  }

  /** The place under reference i of the place (ino, h, p). */
  function Child(ino: nat, h: nat, p: nat, i: nat): Role
    requires h > 0
  {
    Tree(ino, h - 1, p * 128 + i)
  }

  /** An indirect block names the blocks at its 128 child places, 0 for a missing one. */
  ghost predicate IndirectWords(b: Block, at: Roles, ino: nat, h: nat, p: nat)
    requires h > 0
  {
    forall i: nat :: i < 128 ==> b[i] == Get(at, Child(ino, h, p, i))
  }

  ghost predicate IndirectAt(d: Disk, g: Layout, ino: nat, h: nat, p: nat)
    requires |d| > 0 && Partition(d, g) && Tree(ino, h, p) in g.at
  {
    h > 0 ==> IndirectWords(d[g.at[Tree(ino, h, p)]], g.at, ino, h, p)
  }

  /** The free list starts at the superblock and lists exactly the blocks with a Free role. */
  ghost predicate FreeList(d: Disk, g: Layout)
    requires |d| > 0 && Partition(d, g)
  {
    && FreeHead(d) == (if g.depth == 0 then 0 else Get(g.at, Free(g.depth - 1, 0)))
    && (forall k: nat, i: nat :: Free(k, i) in g.at ==> k < g.depth && i < 128)
    && (forall k: nat :: k < g.depth ==> ListAt(d, g, k))
  }

  /** A place below the root place hangs below its parent place. */
  ghost predicate Hangs(g: Layout, ino: nat, h: nat, p: nat)
    requires ino < |g.lev|
  {
    h < g.lev[ino] ==> Tree(ino, h + 1, p / 128) in g.at
  }

  /** Every tree place hangs below its parent place, up to the root place of its inode. */
  ghost predicate Rooted(g: Layout) {
    && (forall ino: nat, h: nat, p: nat :: Tree(ino, h, p) in g.at ==>
          && ino < |g.lev|
          && h <= g.lev[ino]
          && (h == g.lev[ino] ==> p == 0))
    && (forall ino: nat, h: nat, p: nat {:trigger Hangs(g, ino, h, p)} ::
          Tree(ino, h, p) in g.at ==> Hangs(g, ino, h, p))
  }

  /** The inodes and the indirect blocks hold exactly the references the role map says. */
  ghost predicate Forest(d: Disk, g: Layout)
    requires Header(d, g) && Partition(d, g)
  {
    && Rooted(g)
    && (forall ino: nat :: ino < |g.lev| ==> Root(d, ino) == Get(g.at, Tree(ino, g.lev[ino], 0)))
    && (forall ino: nat, h: nat, p: nat {:trigger IndirectAt(d, g, ino, h, p)} ::
          Tree(ino, h, p) in g.at ==> IndirectAt(d, g, ino, h, p))
  }

  ghost predicate NoneTaken(g: Layout) {
    forall t: nat :: Taken(t) !in g.at
  }

  /** Structure without file sizes: what holds at every point inside a write. */
  ghost predicate Formed(d: Disk, g: Layout) {
    && Header(d, g)
    && Partition(d, g)
    && FreeList(d, g)
    && Forest(d, g)
  }

  ghost predicate Within(g: Layout, ino: nat, size: nat) {
    forall h: nat, p: nat :: Tree(ino, h, p) in g.at && h == 0 ==> p < size
  }

  /** The size of one file fits its tree: the height is the least one that reaches the last
      block, the last block exists, and nothing is stored at or past the size. */
  ghost predicate Fits(d: Disk, g: Layout, ino: nat)
    requires Header(d, g) && ino < |g.lev|
  {
    && g.lev[ino] == TreeHeight(Size(d, ino))
    && (Size(d, ino) > 0 ==> Tree(ino, 0, Size(d, ino) - 1) in g.at)
    && Within(g, ino, Size(d, ino))
  }

  /** The invariant of a treedisk between operations. */
  ghost predicate Valid(d: Disk, g: Layout) {
    && Formed(d, g)
    && NoneTaken(g)
    && (forall ino: nat :: ino < |g.lev| ==> Fits(d, g, ino))
  }

  // ---------- what the disk means ----------

  /** The block found by following references down from block b, h levels above the data;
      a zero reference is a hole. */
  function Walk(d: Disk, b: Word, h: nat, off: nat): Block
    decreases h
  {
    if b == 0 || b >= |d| then Zeros()
    else if h == 0 then d[b]
    else Walk(d, d[b][Prefix(off, h - 1) % 128], h - 1, off)
  }

  function TreeHeight(size: nat): nat {
    if size == 0 then 0 else Levels(size - 1)
  }

  /** The contents of a file: a function of the words on the disk alone. */
  function File(d: Disk, ino: nat): seq<Block>
    requires InodeBlockNo(ino) < |d|
  {
    seq(Size(d, ino), (off: nat) => Walk(d, Root(d, ino), TreeHeight(Size(d, ino)), off))
  }

  /** The same contents read off the role map. */
  ghost function Content(d: Disk, g: Layout, ino: nat, off: nat): Block
    requires |d| > 0 && Partition(d, g)
  {
    if Tree(ino, 0, off) in g.at then d[g.at[Tree(ino, 0, off)]] else Zeros()
  }

  /** A place below a missing place is missing. */
  lemma {:induction false} MissingBelow(g: Layout, ino: nat, off: nat, h: nat)
    requires Rooted(g) && ino < |g.lev| && h <= g.lev[ino]
    requires Tree(ino, h, Prefix(off, h)) !in g.at
    ensures forall j: nat :: j <= h ==> Tree(ino, j, Prefix(off, j)) !in g.at
    decreases h
  {
    if h > 0 {
      assert Tree(ino, h - 1, Prefix(off, h - 1)) in g.at ==> Hangs(g, ino, h - 1, Prefix(off, h - 1));
      MissingBelow(g, ino, off, h - 1);
    }
  }

  /** The places above a stored block exist. */
  lemma {:induction false} AncestorExists(g: Layout, ino: nat, off: nat, h: nat)
    requires Rooted(g) && Tree(ino, 0, off) in g.at && ino < |g.lev| && h <= g.lev[ino]
    ensures Tree(ino, h, Prefix(off, h)) in g.at
    decreases h
  {
    if h > 0 {
      AncestorExists(g, ino, off, h - 1);
      assert Hangs(g, ino, h - 1, Prefix(off, h - 1));
    }
  }

  /** One step down: the reference in an indirect block is the block at the child place. */
  lemma StepDown(d: Disk, g: Layout, ino: nat, off: nat, h: nat)
    requires Header(d, g) && Partition(d, g) && Forest(d, g)
    requires h > 0 && Tree(ino, h, Prefix(off, h)) in g.at
    ensures d[g.at[Tree(ino, h, Prefix(off, h))]][Prefix(off, h - 1) % 128]
        == Get(g.at, Tree(ino, h - 1, Prefix(off, h - 1)))
  {
    var p, i := Prefix(off, h), Prefix(off, h - 1) % 128;
    assert IndirectAt(d, g, ino, h, p);
    assert Child(ino, h, p, i) == Tree(ino, h - 1, Prefix(off, h - 1));
  }

  lemma {:induction false} WalkIsContent(d: Disk, g: Layout, ino: nat, off: nat, h: nat)
    requires Header(d, g) && Partition(d, g) && Forest(d, g)
    requires ino < |g.lev| && h <= g.lev[ino]
    ensures Walk(d, Get(g.at, Tree(ino, h, Prefix(off, h))), h, off) == Content(d, g, ino, off)
    decreases h
  {
    if Tree(ino, h, Prefix(off, h)) !in g.at {
      MissingBelow(g, ino, off, h);
      assert Tree(ino, 0, Prefix(off, 0)) !in g.at;
    } else if h > 0 {
      StepDown(d, g, ino, off, h);
      WalkIsContent(d, g, ino, off, h - 1);
    }
  }

  /** Along the whole tree of a valid disk the walk of the code finds the content. */
  lemma FileIsContent(d: Disk, g: Layout, ino: nat)
    requires Valid(d, g) && ino < |g.lev|
    ensures InodeBlockNo(ino) < |d|
    ensures |File(d, ino)| == Size(d, ino)
    ensures forall off :: 0 <= off < Size(d, ino) ==> File(d, ino)[off] == Content(d, g, ino, off)
  {
    assert Fits(d, g, ino);
    forall off | 0 <= off < Size(d, ino)
      ensures File(d, ino)[off] == Content(d, g, ino, off)
    {
      LevelsMonotone(off, Size(d, ino) - 1);
      LevelsLeast(off, g.lev[ino]);
      WalkIsContent(d, g, ino, off, g.lev[ino]);
    }
  }
}
