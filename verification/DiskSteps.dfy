/**
 The elementary changes that treedisk makes to a disk, as functions on disks, and what each
 of them keeps: taking a block off the free list, linking a taken block into a tree, growing
 a tree by one level, changing a file's size, and overwriting a data block.
 */
module DiskSteps {
  import opened Egos
  import opened Radix
  import opened DiskLayout

  // ---------- frames ----------

  ghost predicate SameSizes(d: Disk, d': Disk, g: Layout)
    requires Header(d, g)
  {
    && |d'| == |d|
    && (forall ino: nat :: ino < |g.lev| ==> Size(d', ino) == Size(d, ino))
  }

  /** All stored blocks are the same, except possibly the one at (ino, off). */
  ghost predicate SameContentsBut(d: Disk, g: Layout, d': Disk, g': Layout, ino: nat, off: nat)
    requires |d| > 0 && Partition(d, g) && |d'| > 0 && Partition(d', g')
  {
    forall i: nat, o: nat :: (i, o) != (ino, off) ==> Content(d', g', i, o) == Content(d, g, i, o)
  }

  ghost predicate SameContents(d: Disk, g: Layout, d': Disk, g': Layout)
    requires |d| > 0 && Partition(d, g) && |d'| > 0 && Partition(d', g')
  {
    forall i: nat, o: nat :: Content(d', g', i, o) == Content(d, g, i, o)
  }

  /** Same tree places, same words in their blocks and in the inode blocks: same files. */
  lemma ForestFrame(d: Disk, g: Layout, d': Disk, g': Layout)
    requires Header(d, g) && Partition(d, g) && Forest(d, g)
    requires Header(d', g') && Partition(d', g') && g'.lev == g.lev
    requires InodeBlocks(d') == InodeBlocks(d) && |d'| == |d|
    requires forall b :: 1 <= b <= InodeBlocks(d) ==> d'[b] == d[b]
    requires forall ino: nat, h: nat, p: nat :: Tree(ino, h, p) in g'.at <==> Tree(ino, h, p) in g.at
    requires forall ino: nat, h: nat, p: nat :: Tree(ino, h, p) in g.at ==>
      g'.at[Tree(ino, h, p)] == g.at[Tree(ino, h, p)] && d'[g.at[Tree(ino, h, p)]] == d[g.at[Tree(ino, h, p)]]
    ensures Forest(d', g') && SameContents(d, g, d', g') && SameSizes(d, d', g)
  {
    forall ino: nat, h: nat, p: nat | Tree(ino, h, p) in g'.at
      ensures ino < |g'.lev| && Hangs(g', ino, h, p)
    {
      assert Hangs(g, ino, h, p);
    }
    forall ino: nat, h: nat, p: nat | Tree(ino, h, p) in g'.at
      ensures IndirectAt(d', g', ino, h, p)
    {
      assert IndirectAt(d, g, ino, h, p);
    }
  }

  // ---------- giving a block another role ----------

  /** The block with role r gets role s instead; nothing else changes. */
  ghost function Move(g: Layout, r: Role, s: Role): Layout
    requires r in g.at
  {
    g.(at := (g.at - {r})[s := g.at[r]], role := g.role[g.at[r] := s])
  }

  lemma MovePartition(d: Disk, g: Layout, r: Role, s: Role, d': Disk, g': Layout)
    requires |d| > 0 && Partition(d, g)
    requires r in g.at && s !in g.at && g'.at == Move(g, r, s).at && g'.role == Move(g, r, s).role
    requires |d'| == |d| && InodeBlocks(d') == InodeBlocks(d)
    ensures Partition(d', g')
  {
  }

  // ---------- taking a block off the free list ----------

  /** The highest non-empty slot among words 1..i, or 0 when all are empty. */
  function LastRef(b: Block, i: nat): (r: nat)
    requires i < 128
    ensures r <= i
    ensures r > 0 ==> b[r] != 0
    ensures forall j :: r < j <= i ==> b[j] == 0
  {
    if i == 0 then 0 else if b[i] != 0 then i else LastRef(b, i - 1)
  }

  /** What treedisk_alloc_block does to the disk, and the block it returns. */
  function Pop(d: Disk): (r: (Disk, Word))
    requires |d| > 0 && 0 < FreeHead(d) < |d|
    ensures |r.0| == |d|
  {
    var b := FreeHead(d);
    var i := LastRef(d[b], |d[b]| - 1);
    if i == 0 then (d[0 := d[0][1 := d[b][0]]], b)
    else (d[b := d[b][i := 0]], d[b][i])
  }

  /** The place on the free list of the block that is taken next. */
  ghost function PopRole(d: Disk, g: Layout): (r: Role)
    requires Header(d, g) && Partition(d, g) && FreeList(d, g) && g.depth > 0
    ensures 0 < FreeHead(d) < |d| && FreeHead(d) == g.at[Free(g.depth - 1, 0)]
    ensures r == Free(g.depth - 1, LastRef(d[FreeHead(d)], |d[FreeHead(d)]| - 1))
    ensures r in g.at && g.at[r] == Pop(d).1
  {
    assert ListAt(d, g, g.depth - 1);
    Free(g.depth - 1, LastRef(d[FreeHead(d)], |d[FreeHead(d)]| - 1))
  }

  ghost function PopLayout(d: Disk, g: Layout, t: nat): Layout
    requires Header(d, g) && Partition(d, g) && FreeList(d, g) && g.depth > 0
  {
    var r := PopRole(d, g);
    Move(g, r, Taken(t)).(depth := if r.i == 0 then g.depth - 1 else g.depth)
  }

  /** The words of a list block depend only on its own references and on the next list block. */
  lemma ListWordsFrame(b: Block, at: Roles, at': Roles, k: nat)
    requires ListWords(b, at, k)
    requires k > 0 ==> Get(at', Free(k - 1, 0)) == Get(at, Free(k - 1, 0))
    requires forall i: nat :: 1 <= i < 128 ==> Get(at', Free(k, i)) == Get(at, Free(k, i))
    ensures ListWords(b, at', k)
  {
  }

  /** The list blocks below the top keep their words when a block of the top is taken. */
  lemma PopBelowTop(d: Disk, g: Layout, t: nat, d': Disk, g': Layout, i: nat, k: nat)
    requires Header(d, g) && Partition(d, g) && FreeList(d, g) && k < g.depth - 1
    requires Free(g.depth - 1, i) in g.at && Taken(t) !in g.at
    requires g'.at == Move(g, Free(g.depth - 1, i), Taken(t)).at
    requires |d'| == |d| && Partition(d', g')
    requires forall b :: 0 < b < |d| && b != FreeHead(d) ==> d'[b] == d[b]
    ensures ListAt(d', g', k)
  {
    assert ListAt(d, g, k) && ListAt(d, g, g.depth - 1);
    if k > 0 { assert ListAt(d, g, k - 1); }
    ListWordsFrame(d[g.at[Free(k, 0)]], g.at, g'.at, k);
  }

  /** Case of an empty list block: the list block itself is taken. */
  lemma PopListBlock(d: Disk, g: Layout, t: nat, d': Disk, g': Layout)
    requires Header(d, g) && Partition(d, g) && FreeList(d, g) && g.depth > 0 && Taken(t) !in g.at
    requires PopRole(d, g) == Free(g.depth - 1, 0)
    requires d' == d[0 := d[0][1 := d[FreeHead(d)][0]]]
    requires g' == Move(g, Free(g.depth - 1, 0), Taken(t)).(depth := g.depth - 1) && Partition(d', g')
    ensures FreeList(d', g')
  {
    var head, top := FreeHead(d), g.depth - 1;
    assert ListAt(d, g, top);
    forall k: nat | k < top
      ensures ListAt(d', g', k)
    {
      PopBelowTop(d, g, t, d', g', 0, k);
    }
    forall k: nat, j: nat | Free(k, j) in g'.at
      ensures k < top && j < 128
    {
      assert Free(k, j) in g.at;
      assert k != top || d[head][j] == Get(g.at, Free(top, j));
    }
    assert FreeHead(d') == d[head][0];
    if top > 0 { assert ListAt(d', g', top - 1); }
  }

  /** Case of a list block with a reference left: the highest one is taken. */
  lemma PopReference(d: Disk, g: Layout, t: nat, d': Disk, g': Layout, i: nat)
    requires Header(d, g) && Partition(d, g) && FreeList(d, g) && g.depth > 0 && Taken(t) !in g.at
    requires 0 < i < 128 && Free(g.depth - 1, i) in g.at && PopRole(d, g) == Free(g.depth - 1, i)
    requires d' == d[FreeHead(d) := d[FreeHead(d)][i := 0]]
    requires g' == Move(g, Free(g.depth - 1, i), Taken(t)) && Partition(d', g')
    ensures FreeList(d', g')
  {
    var top := g.depth - 1;
    assert ListAt(d, g, top);
    forall k: nat | k < g.depth
      ensures ListAt(d', g', k)
    {
      if k < top {
        PopBelowTop(d, g, t, d', g', i, k);
      } else if top > 0 {
        assert ListAt(d, g, top - 1);
      }
    }
  }

  /** Taking a block keeps the structure and every file; the block moves from its place
      on the free list to Taken. */
  lemma PopKeeps(d: Disk, g: Layout, t: nat)
    requires Formed(d, g) && g.depth > 0 && Taken(t) !in g.at
    ensures 0 < FreeHead(d) < |d|
    ensures Formed(Pop(d).0, PopLayout(d, g, t))
    ensures PopLayout(d, g, t).at[Taken(t)] == Pop(d).1
    ensures SameContents(d, g, Pop(d).0, PopLayout(d, g, t))
    ensures SameSizes(d, Pop(d).0, g)
  {
    var r := PopRole(d, g);
    var (d', g') := (Pop(d).0, PopLayout(d, g, t));
    MovePartition(d, g, r, Taken(t), d', g');
    if r.i == 0 { PopListBlock(d, g, t, d', g'); } else { PopReference(d, g, t, d', g', r.i); }
    ForestFrame(d, g, d', g');
  }

  // ---------- linking a taken block ----------

  /** The free list does not see a change of tree roles and of blocks outside it. */
  lemma FreeListFrame(d: Disk, g: Layout, d': Disk, g': Layout)
    requires Header(d, g) && Partition(d, g) && FreeList(d, g)
    requires |d'| == |d| && d'[0] == d[0] && Partition(d', g') && g'.depth == g.depth
    requires forall k: nat, i: nat :: Free(k, i) in g'.at <==> Free(k, i) in g.at
    requires forall k: nat, i: nat :: Free(k, i) in g.at ==>
      g'.at[Free(k, i)] == g.at[Free(k, i)] && d'[g.at[Free(k, i)]] == d[g.at[Free(k, i)]]
    ensures FreeList(d', g')
  {
    forall k: nat | k < g.depth
      ensures ListAt(d', g', k)
    {
      assert ListAt(d, g, k);
      ListWordsFrame(d[g.at[Free(k, 0)]], g.at, g'.at, k);
    }
  }

  /** The disk after the taken block b, now holding c, has been linked into word i of block a. */
  function Link(d: Disk, a: nat, i: nat, b: Word, c: Block): (d': Disk)
    requires a < |d| && i < 128 && b < |d|
  {
    d[a := d[a][i := b]][b := c]
  }

  /** Nothing is stored below a missing place. */
  lemma NoChildren(g: Layout, ino: nat, h: nat, p: nat)
    requires Rooted(g) && ino < |g.lev| && 0 < h <= g.lev[ino] && Tree(ino, h, p) !in g.at
    ensures forall i: nat :: i < 128 ==> Child(ino, h, p, i) !in g.at
  {
    forall i: nat | i < 128
      ensures Child(ino, h, p, i) !in g.at
    {
      assert Child(ino, h, p, i) in g.at ==> Hangs(g, ino, h - 1, p * 128 + i);
    }
  }

  /** An indirect block keeps its words while none of its child places changes. */
  lemma IndirectFrame(b: Block, at: Roles, at': Roles, ino: nat, h: nat, p: nat)
    requires h > 0 && IndirectWords(b, at, ino, h, p)
    requires forall i: nat :: i < 128 ==>
      Get(at', Child(ino, h, p, i)) == Get(at, Child(ino, h, p, i))
    ensures IndirectWords(b, at', ino, h, p)
  {
  }

  /** A zeroed block refers to no child. */
  lemma ZeroWords(at: Roles, ino: nat, h: nat, p: nat)
    requires h > 0 && forall i: nat :: i < 128 ==> Child(ino, h, p, i) !in at
    ensures IndirectWords(Zeros(), at, ino, h, p)
  {
  }

  /** The parent refers to a new child once its word is set. */
  lemma ParentWords(b: Block, at: Roles, at': Roles, ino: nat, h: nat, p: nat)
    requires IndirectWords(b, at, ino, h + 1, p / 128) && Tree(ino, h, p) in at'
    requires forall i: nat, j: nat, q: nat :: Tree(i, j, q) != Tree(ino, h, p) ==>
      Get(at', Tree(i, j, q)) == Get(at, Tree(i, j, q))
    ensures IndirectWords(b[p % 128 := at'[Tree(ino, h, p)]], at', ino, h + 1, p / 128)
  {
  }

  lemma LinkChildWords(d: Disk, g: Layout, d': Disk, g': Layout, ino: nat, h: nat, p: nat, c: Block,
                       i: nat, j: nat, q: nat)
    requires Header(d, g) && Partition(d, g) && Forest(d, g) && Taken(0) in g.at
    requires ino < |g.lev| && h < g.lev[ino]
    requires Tree(ino, h, p) !in g.at && Tree(ino, h + 1, p / 128) in g.at
    requires h > 0 ==> c == Zeros()
    requires d' == Link(d, g.at[Tree(ino, h + 1, p / 128)], p % 128, g.at[Taken(0)], c)
    requires g' == Move(g, Taken(0), Tree(ino, h, p)) && Partition(d', g')
    requires Tree(i, j, q) in g'.at
    ensures IndirectAt(d', g', i, j, q)
  {
    hide IndirectWords;
    if Tree(i, j, q) == Tree(ino, h, p) {
      if h > 0 {
        NoChildren(g, ino, h, p);
        ZeroWords(g'.at, ino, h, p);
      }
    } else {
      assert IndirectAt(d, g, i, j, q);
      if Tree(i, j, q) == Tree(ino, h + 1, p / 128) {
        ParentWords(d[g.at[Tree(i, j, q)]], g.at, g'.at, ino, h, p);
      } else if j > 0 {
        assert g.at[Tree(i, j, q)] != g.at[Tree(ino, h + 1, p / 128)];
        IndirectFrame(d[g.at[Tree(i, j, q)]], g.at, g'.at, i, j, q);
      }
    }
  }

  lemma LinkRooted(g: Layout, g': Layout, ino: nat, h: nat, p: nat)
    requires Rooted(g) && Taken(0) in g.at && ino < |g.lev| && h <= g.lev[ino]
    requires if h == g.lev[ino] then p == 0 else Tree(ino, h + 1, p / 128) in g.at
    requires Tree(ino, h, p) !in g.at && g' == Move(g, Taken(0), Tree(ino, h, p))
    ensures Rooted(g')
  {
    forall i: nat, j: nat, q: nat | Tree(i, j, q) in g'.at
      ensures i < |g'.lev| && Hangs(g', i, j, q)
    {
      if Tree(i, j, q) != Tree(ino, h, p) { assert Hangs(g, i, j, q); }
    }
  }

  lemma GrowRooted(g: Layout, g': Layout, ino: nat)
    requires Rooted(g) && Taken(0) in g.at && ino < |g.lev| && g' == GrowLayout(g, ino)
    ensures Rooted(g')
  {
    forall i: nat, j: nat, q: nat | Tree(i, j, q) in g'.at
      ensures i < |g'.lev| && Hangs(g', i, j, q)
    {
      if Tree(i, j, q) != Tree(ino, g.lev[ino] + 1, 0) { assert Hangs(g, i, j, q); }
    }
  }

  lemma LinkChildForest(d: Disk, g: Layout, d': Disk, g': Layout, ino: nat, h: nat, p: nat, c: Block)
    requires Header(d, g) && Partition(d, g) && Forest(d, g) && Taken(0) in g.at
    requires ino < |g.lev| && h < g.lev[ino]
    requires Tree(ino, h, p) !in g.at && Tree(ino, h + 1, p / 128) in g.at
    requires h > 0 ==> c == Zeros()
    requires d' == Link(d, g.at[Tree(ino, h + 1, p / 128)], p % 128, g.at[Taken(0)], c)
    requires g' == Move(g, Taken(0), Tree(ino, h, p)) && Header(d', g') && Partition(d', g')
    ensures Forest(d', g')
  {
    LinkRooted(g, g', ino, h, p);
    forall i: nat, j: nat, q: nat | Tree(i, j, q) in g'.at
      ensures IndirectAt(d', g', i, j, q)
    {
      LinkChildWords(d, g, d', g', ino, h, p, c, i, j, q);
    }
  }

  /** Only the newly linked place can hold a new stored block. */
  lemma LinkContents(d: Disk, g: Layout, d': Disk, g': Layout, a: nat, i: nat, ino: nat, h: nat, p: nat, c: Block)
    requires |d| > 0 && Partition(d, g) && Taken(0) in g.at && Tree(ino, h, p) !in g.at
    requires a < |d| && i < 128 && d' == Link(d, a, i, g.at[Taken(0)], c) && Partition(d', g')
    requires g'.at == Move(g, Taken(0), Tree(ino, h, p)).at
    requires a <= InodeBlocks(d) || exists r :: r in g.at && r.Tree? && r.h > 0 && g.at[r] == a
    ensures if h == 0 then SameContentsBut(d, g, d', g', ino, p) else SameContents(d, g, d', g')
    ensures h == 0 ==> Content(d', g', ino, p) == c
  {
    forall x: nat, o: nat | Tree(x, 0, o) != Tree(ino, h, p)
      ensures Content(d', g', x, o) == Content(d, g, x, o)
    {
    }
  }

  /** Linking a missing child place keeps the structure; a new indirect block must be zeroed. */
  lemma LinkChild(d: Disk, g: Layout, d': Disk, g': Layout, ino: nat, h: nat, p: nat, c: Block)
    requires Formed(d, g) && Taken(0) in g.at
    requires ino < |g.lev| && h < g.lev[ino]
    requires Tree(ino, h, p) !in g.at && Tree(ino, h + 1, p / 128) in g.at
    requires h > 0 ==> c == Zeros()
    requires d' == Link(d, g.at[Tree(ino, h + 1, p / 128)], p % 128, g.at[Taken(0)], c)
    requires g' == Move(g, Taken(0), Tree(ino, h, p))
    ensures Formed(d', g') && SameSizes(d, d', g)
    ensures if h == 0 then SameContentsBut(d, g, d', g', ino, p) else SameContents(d, g, d', g')
    ensures h == 0 ==> Content(d', g', ino, p) == c
  {
    MovePartition(d, g, Taken(0), Tree(ino, h, p), d', g');
    FreeListFrame(d, g, d', g');
    LinkChildForest(d, g, d', g', ino, h, p, c);
    LinkContents(d, g, d', g', g.at[Tree(ino, h + 1, p / 128)], p % 128, ino, h, p, c);
  }

  /** Linking a missing root place: the reference sits in the inode. */
  lemma LinkRoot(d: Disk, g: Layout, d': Disk, g': Layout, ino: nat, c: Block)
    requires Formed(d, g) && Taken(0) in g.at
    requires ino < |g.lev| && Tree(ino, g.lev[ino], 0) !in g.at
    requires g.lev[ino] > 0 ==> c == Zeros()
    requires d' == Link(d, InodeBlockNo(ino), RootWord(ino), g.at[Taken(0)], c)
    requires g' == Move(g, Taken(0), Tree(ino, g.lev[ino], 0))
    ensures Formed(d', g') && SameSizes(d, d', g)
    ensures if g.lev[ino] == 0 then SameContentsBut(d, g, d', g', ino, 0) else SameContents(d, g, d', g')
    ensures g.lev[ino] == 0 ==> Content(d', g', ino, 0) == c
  {
    MovePartition(d, g, Taken(0), Tree(ino, g.lev[ino], 0), d', g');
    FreeListFrame(d, g, d', g');
    RootsAfter(d, d', ino, g.at[Taken(0)], |g.lev|);
    LinkRootForest(d, g, d', g', ino, c);
    LinkContents(d, g, d', g', InodeBlockNo(ino), RootWord(ino), ino, g.lev[ino], 0, c);
  }

  /** Changing the root word of one inode changes no other inode word. */
  lemma RootsAfter(d: Disk, d': Disk, ino: nat, b: Word, n: nat)
    requires 0 < |d| && ino < n && n == InodeBlocks(d) * INODES_PER_BLOCK && InodeBlocks(d) < b < |d| == |d'|
    requires d'[InodeBlockNo(ino)] == d[InodeBlockNo(ino)][RootWord(ino) := b]
    requires forall k :: 1 <= k <= InodeBlocks(d) && k != InodeBlockNo(ino) ==> d'[k] == d[k]
    ensures forall i: nat :: i < n ==> Size(d', i) == Size(d, i)
    ensures forall i: nat :: i < n ==> Root(d', i) == if i == ino then b else Root(d, i)
  {
    forall i: nat | i < n
      ensures Size(d', i) == Size(d, i) && Root(d', i) == if i == ino then b else Root(d, i)
    {
      if i != ino && InodeBlockNo(i) == InodeBlockNo(ino) {
        assert i % 64 != ino % 64;
      }
    }
  }

  lemma LinkRootForest(d: Disk, g: Layout, d': Disk, g': Layout, ino: nat, c: Block)
    requires Header(d, g) && Partition(d, g) && Forest(d, g) && Taken(0) in g.at
    requires ino < |g.lev| && Tree(ino, g.lev[ino], 0) !in g.at
    requires g.lev[ino] > 0 ==> c == Zeros()
    requires d' == Link(d, InodeBlockNo(ino), RootWord(ino), g.at[Taken(0)], c)
    requires g' == Move(g, Taken(0), Tree(ino, g.lev[ino], 0)) && Header(d', g') && Partition(d', g')
    requires forall i: nat :: i < |g.lev| ==> Root(d', i) == if i == ino then g.at[Taken(0)] else Root(d, i)
    ensures Forest(d', g')
  {
    hide Partition, IndirectAt, Rooted;
    LinkRooted(g, g', ino, g.lev[ino], 0);
    forall i: nat, j: nat, q: nat | Tree(i, j, q) in g'.at
      ensures IndirectAt(d', g', i, j, q)
    {
      LinkRootWords(d, g, d', g', ino, c, i, j, q);
    }
  }

  lemma LinkRootWords(d: Disk, g: Layout, d': Disk, g': Layout, ino: nat, c: Block, i: nat, j: nat, q: nat)
    requires Header(d, g) && Partition(d, g) && Forest(d, g) && Taken(0) in g.at
    requires ino < |g.lev| && Tree(ino, g.lev[ino], 0) !in g.at
    requires g.lev[ino] > 0 ==> c == Zeros()
    requires d' == Link(d, InodeBlockNo(ino), RootWord(ino), g.at[Taken(0)], c)
    requires g' == Move(g, Taken(0), Tree(ino, g.lev[ino], 0)) && Partition(d', g') && Tree(i, j, q) in g'.at
    ensures IndirectAt(d', g', i, j, q)
  {
    hide IndirectWords;
    if Tree(i, j, q) == Tree(ino, g.lev[ino], 0) {
      if j > 0 {
        NoChildren(g, ino, j, 0);
        ZeroWords(g'.at, ino, j, 0);
      }
    } else {
      assert IndirectAt(d, g, i, j, q);
      if j > 0 { IndirectFrame(d[g.at[Tree(i, j, q)]], g.at, g'.at, i, j, q); }
    }
  }

  // ---------- growing a tree ----------

  /** The new indirect block that goes on top of a tree. */
  function TopBlock(root: Word): Block { Zeros()[0 := root] }

  ghost function GrowLayout(g: Layout, ino: nat): Layout
    requires ino < |g.lev| && Taken(0) in g.at
  {
    Move(g, Taken(0), Tree(ino, g.lev[ino] + 1, 0)).(lev := g.lev[ino := g.lev[ino] + 1])
  }

  lemma GrowTop(g: Layout, g': Layout, ino: nat, root: Word)
    requires Rooted(g) && Taken(0) in g.at && ino < |g.lev| && g' == GrowLayout(g, ino)
    requires root == Get(g.at, Tree(ino, g.lev[ino], 0))
    ensures IndirectWords(TopBlock(root), g'.at, ino, g.lev[ino] + 1, 0)
  {
  }

  lemma GrowForest(d: Disk, g: Layout, d': Disk, g': Layout, ino: nat)
    requires Header(d, g) && Partition(d, g) && Forest(d, g) && Taken(0) in g.at && ino < |g.lev|
    requires d' == Link(d, InodeBlockNo(ino), RootWord(ino), g.at[Taken(0)], TopBlock(Root(d, ino)))
    requires g' == GrowLayout(g, ino) && Header(d', g') && Partition(d', g')
    requires forall i: nat :: i < |g.lev| ==> Root(d', i) == if i == ino then g.at[Taken(0)] else Root(d, i)
    ensures Forest(d', g')
  {
    hide Partition, IndirectAt, Rooted;
    GrowRooted(g, g', ino);
    GrowRoots(d, g, d', g', ino);
    forall i: nat, j: nat, q: nat | Tree(i, j, q) in g'.at
      ensures IndirectAt(d', g', i, j, q)
    {
      GrowIndirect(d, g, d', g', ino, i, j, q);
    }
  }

  lemma GrowRoots(d: Disk, g: Layout, d': Disk, g': Layout, ino: nat)
    requires Header(d, g) && Partition(d, g) && Forest(d, g) && Taken(0) in g.at && ino < |g.lev|
    requires g' == GrowLayout(g, ino) && Header(d', g')
    requires forall i: nat :: i < |g.lev| ==> Root(d', i) == if i == ino then g.at[Taken(0)] else Root(d, i)
    ensures forall i: nat :: i < |g'.lev| ==> Root(d', i) == Get(g'.at, Tree(i, g'.lev[i], 0))
  {
    hide Partition, IndirectAt, Rooted;
  }

  lemma GrowIndirect(d: Disk, g: Layout, d': Disk, g': Layout, ino: nat, i: nat, j: nat, q: nat)
    requires Header(d, g) && Partition(d, g) && Forest(d, g) && Taken(0) in g.at && ino < |g.lev|
    requires d' == Link(d, InodeBlockNo(ino), RootWord(ino), g.at[Taken(0)], TopBlock(Root(d, ino)))
    requires g' == GrowLayout(g, ino) && Partition(d', g') && Tree(i, j, q) in g'.at
    ensures IndirectAt(d', g', i, j, q)
  {
    if Tree(i, j, q) == Tree(ino, g.lev[ino] + 1, 0) {
      GrowTop(g, g', ino, Root(d, ino));
    } else {
      assert IndirectAt(d, g, i, j, q);
      if j > 0 { IndirectFrame(d[g.at[Tree(i, j, q)]], g.at, g'.at, i, j, q); }
    }
  }

  /** Growing keeps every stored block under its old offset: the places keep their names. */
  lemma GrowKeeps(d: Disk, g: Layout, d': Disk, g': Layout, ino: nat)
    requires Formed(d, g) && Taken(0) in g.at && ino < |g.lev|
    requires d' == Link(d, InodeBlockNo(ino), RootWord(ino), g.at[Taken(0)], TopBlock(Root(d, ino)))
    requires g' == GrowLayout(g, ino)
    ensures Formed(d', g') && SameSizes(d, d', g) && SameContents(d, g, d', g')
  {
    MovePartition(d, g, Taken(0), Tree(ino, g.lev[ino] + 1, 0), d', g');
    FreeListFrame(d, g, d', g');
    RootsAfter(d, d', ino, g.at[Taken(0)], |g.lev|);
    GrowForest(d, g, d', g', ino);
    LinkContents(d, g, d', g', InodeBlockNo(ino), RootWord(ino), ino, g.lev[ino] + 1, 0, TopBlock(Root(d, ino)));
  }

  // ---------- sizes and data ----------

  /** Writing a file's size word touches nothing else. */
  lemma ResizeKeeps(d: Disk, g: Layout, d': Disk, ino: nat, size: Word)
    requires Formed(d, g) && ino < |g.lev|
    requires d' == d[InodeBlockNo(ino) := d[InodeBlockNo(ino)][SizeWord(ino) := size]]
    ensures Formed(d', g) && SameContents(d, g, d', g)
    ensures forall i: nat :: i < |g.lev| ==> Size(d', i) == if i == ino then size else Size(d, i)
  {
    forall i: nat | i < |g.lev|
      ensures Size(d', i) == (if i == ino then size else Size(d, i)) && Root(d', i) == Root(d, i)
    {
      if i != ino && InodeBlockNo(i) == InodeBlockNo(ino) {
        assert i % 64 != ino % 64;
      }
    }
    FreeListFrame(d, g, d', g);
    forall i: nat, j: nat, q: nat | Tree(i, j, q) in g.at
      ensures IndirectAt(d', g, i, j, q)
    {
      assert IndirectAt(d, g, i, j, q);
    }
  }

  /** Overwriting a data block changes that one stored block. */
  lemma StoreKeeps(d: Disk, g: Layout, d': Disk, ino: nat, off: nat, c: Block)
    requires Formed(d, g) && Tree(ino, 0, off) in g.at
    requires d' == d[g.at[Tree(ino, 0, off)] := c]
    ensures Formed(d', g) && SameSizes(d, d', g) && SameContentsBut(d, g, d', g, ino, off)
    ensures Content(d', g, ino, off) == c
  {
    FreeListFrame(d, g, d', g);
    forall i: nat, j: nat, q: nat | Tree(i, j, q) in g.at
      ensures IndirectAt(d', g, i, j, q)
    {
      assert IndirectAt(d, g, i, j, q);
    }
  }
}
