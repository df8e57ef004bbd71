/**
 Paths through the trees: the slot that refers to a place, how many blocks a write has to
 take from the free list, and the two compound steps a write is made of.
 */
module DiskPaths {
  import opened Egos
  import opened Radix
  import opened DiskLayout
  import opened DiskSteps

  // ---------- counting free blocks ----------

  ghost function FreePlaces(g: Layout): set<Role> {
    set r | r in g.at && r.Free?
  }

  lemma FullIffNoHead(d: Disk, g: Layout)
    requires Header(d, g) && Partition(d, g) && FreeList(d, g)
    ensures FreeHead(d) == 0 <==> FreePlaces(g) == {}
    ensures FreeHead(d) == 0 <==> g.depth == 0
    ensures FreeHead(d) != 0 ==> FreeHead(d) < |d|
  {
    if g.depth > 0 {
      assert ListAt(d, g, g.depth - 1);
      assert Free(g.depth - 1, 0) in FreePlaces(g);
    }
  }

  /** Taking a block removes exactly one place from the free list. */
  lemma PopCount(d: Disk, g: Layout, t: nat)
    requires Header(d, g) && Partition(d, g) && FreeList(d, g) && g.depth > 0
    ensures FreePlaces(PopLayout(d, g, t)) == FreePlaces(g) - {PopRole(d, g)}
    ensures |FreePlaces(PopLayout(d, g, t))| == |FreePlaces(g)| - 1
  {
    assert PopRole(d, g) in FreePlaces(g);
    assert FreePlaces(PopLayout(d, g, t)) == FreePlaces(g) - {PopRole(d, g)};
  }

  /** How many of the places on the path to an offset, up to height h, are missing. */
  ghost function Missing(g: Layout, ino: nat, off: nat, h: nat): nat {
    (if Tree(ino, h, Prefix(off, h)) in g.at then 0 else 1) + (if h == 0 then 0 else Missing(g, ino, off, h - 1))
  }

  lemma {:induction false} MissingFrame(g: Layout, g': Layout, ino: nat, off: nat, h: nat)
    requires forall j: nat :: j <= h ==>
      (Tree(ino, j, Prefix(off, j)) in g'.at <==> Tree(ino, j, Prefix(off, j)) in g.at)
    ensures Missing(g', ino, off, h) == Missing(g, ino, off, h)
  {
    if h > 0 { MissingFrame(g, g', ino, off, h - 1); }
  }

  lemma {:induction false} MissingAll(g: Layout, ino: nat, off: nat, h: nat)
    requires forall j: nat :: j <= h ==> Tree(ino, j, Prefix(off, j)) !in g.at
    ensures Missing(g, ino, off, h) == h + 1
  {
    if h > 0 { MissingAll(g, ino, off, h - 1); }
  }

  lemma {:induction false} MissingBound(g: Layout, ino: nat, off: nat, h: nat)
    ensures Missing(g, ino, off, h) <= h + 1
    ensures Tree(ino, h, Prefix(off, h)) in g.at ==> Missing(g, ino, off, h) <= h
  {
    if h > 0 { MissingBound(g, ino, off, h - 1); }
  }

  // ---------- slots ----------

  /** Offset off is reachable in the tree of ino, and the path to it exists above height h. */
  ghost predicate OnPath(g: Layout, ino: nat, off: nat, h: nat) {
    && ino < |g.lev| && h <= g.lev[ino] && Prefix(off, g.lev[ino]) == 0
    && (h < g.lev[ino] ==> Tree(ino, h + 1, Prefix(off, h + 1)) in g.at)
  }

  /** The block that holds the reference to the place of off at height h. */
  ghost function SlotBlock(g: Layout, ino: nat, off: nat, h: nat): nat
    requires OnPath(g, ino, off, h)
  {
    if h == g.lev[ino] then InodeBlockNo(ino) else g.at[Tree(ino, h + 1, Prefix(off, h + 1))]
  }

  ghost function SlotIndex(g: Layout, ino: nat, off: nat, h: nat): (i: nat)
    requires OnPath(g, ino, off, h)
    ensures i < 128
  {
    if h == g.lev[ino] then RootWord(ino) else Prefix(off, h) % 128
  }

  lemma SlotHolds(d: Disk, g: Layout, ino: nat, off: nat, h: nat)
    requires Header(d, g) && Partition(d, g) && Forest(d, g) && OnPath(g, ino, off, h)
    ensures 0 < SlotBlock(g, ino, off, h) < |d|
    ensures d[SlotBlock(g, ino, off, h)][SlotIndex(g, ino, off, h)] == Get(g.at, Tree(ino, h, Prefix(off, h)))
  {
    if h < g.lev[ino] {
      StepDown(d, g, ino, off, h + 1);
    }
  }

  /** A block outside the free list can be changed before or after a block is taken. */
  lemma PopCommutes(d: Disk, x: nat, c: Block)
    requires 0 < |d| && 0 < FreeHead(d) < |d| && 0 < x < |d| && x != FreeHead(d)
    ensures FreeHead(d[x := c]) == FreeHead(d)
    ensures Pop(d[x := c]) == (Pop(d).0[x := c], Pop(d).1)
  {
    var b := FreeHead(d);
    var d' := d[x := c];
    assert d'[b] == d[b] && d'[0] == d[0];
    var i := LastRef(d[b], |d[b]| - 1);
    if i == 0 {
      assert d'[0 := d[0][1 := d[b][0]]] == d[0 := d[0][1 := d[b][0]]][x := c];
    } else {
      assert d'[b := d[b][i := 0]] == d[b := d[b][i := 0]][x := c];
    }
  }

  // ---------- the compound steps ----------

  ghost function GrowDisk(d: Disk, ino: nat): Disk
    requires InodeBlockNo(ino) < |d| && 0 < FreeHead(d) < |d| && Pop(d).1 < |d|
  {
    Link(Pop(d).0, InodeBlockNo(ino), RootWord(ino), Pop(d).1, TopBlock(Root(d, ino)))
  }

  /** Which tree places exist after the tree of ino has grown from lo to hi levels. */
  ghost predicate GrownBy(g: Layout, g': Layout, ino: nat, lo: nat, hi: nat) {
    && ino < |g.lev| && g'.lev == g.lev[ino := hi]
    && (forall i: nat, j: nat, q: nat ::
          Tree(i, j, q) in g'.at <==> (Tree(i, j, q) in g.at || (i == ino && lo < j <= hi && q == 0)))
  }

  lemma GrowPlaces(d: Disk, g: Layout, ino: nat)
    requires Header(d, g) && Partition(d, g) && FreeList(d, g) && g.depth > 0
    requires NoneTaken(g) && ino < |g.lev|
    ensures var g' := GrowLayout(PopLayout(d, g, 0), ino);
            && NoneTaken(g')
            && GrownBy(g, g', ino, g.lev[ino], g.lev[ino] + 1)
            && |FreePlaces(g')| == |FreePlaces(g)| - 1
  {
    PopCount(d, g, 0);
    assert FreePlaces(GrowLayout(PopLayout(d, g, 0), ino)) == FreePlaces(PopLayout(d, g, 0));
  }

  /** Take a block and put it on top of the tree. */
  lemma GrowStep(d: Disk, g: Layout, ino: nat, d': Disk, g': Layout)
    requires Formed(d, g) && NoneTaken(g) && g.depth > 0 && ino < |g.lev|
    requires 0 < FreeHead(d) < |d| && Pop(d).1 < |d|
    requires d' == GrowDisk(d, ino) && g' == GrowLayout(PopLayout(d, g, 0), ino)
    ensures Formed(d', g') && NoneTaken(g')
    ensures SameSizes(d, d', g) && SameContents(d, g, d', g')
    ensures GrownBy(g, g', ino, g.lev[ino], g.lev[ino] + 1)
    ensures |FreePlaces(g')| == |FreePlaces(g)| - 1
  {
    GrowPlaces(d, g, ino);
    PopKeeps(d, g, 0);
    assert Root(Pop(d).0, ino) == Root(d, ino);
    GrowKeeps(Pop(d).0, PopLayout(d, g, 0), d', g', ino);
  }

  ghost function LinkDisk(d: Disk, g: Layout, ino: nat, off: nat, h: nat, c: Block): Disk
    requires |d| > 0 && OnPath(g, ino, off, h) && SlotBlock(g, ino, off, h) < |d|
    requires 0 < FreeHead(d) < |d| && Pop(d).1 < |d|
  {
    Link(Pop(d).0, SlotBlock(g, ino, off, h), SlotIndex(g, ino, off, h), Pop(d).1, c)
  }

  ghost function LinkLayout(d: Disk, g: Layout, ino: nat, off: nat, h: nat): Layout
    requires Header(d, g) && Partition(d, g) && FreeList(d, g) && g.depth > 0
  {
    Move(PopLayout(d, g, 0), Taken(0), Tree(ino, h, Prefix(off, h)))
  }

  lemma LinkPlaces(d: Disk, g: Layout, ino: nat, off: nat, h: nat)
    requires Formed(d, g) && g.depth > 0 && NoneTaken(g)
    ensures var g' := LinkLayout(d, g, ino, off, h);
            && NoneTaken(g') && g'.lev == g.lev
            && (forall i: nat, j: nat, q: nat ::
                  Tree(i, j, q) in g'.at <==> (Tree(i, j, q) in g.at || Tree(i, j, q) == Tree(ino, h, Prefix(off, h))))
            && |FreePlaces(g')| == |FreePlaces(g)| - 1
  {
    hide Forest;
    PopCount(d, g, 0);
    assert FreePlaces(LinkLayout(d, g, ino, off, h)) == FreePlaces(PopLayout(d, g, 0));
  }

  /** Take a block and link it at the missing place of off at height h. */
  lemma LinkStep(d: Disk, g: Layout, ino: nat, off: nat, h: nat, c: Block, d': Disk, g': Layout)
    requires Formed(d, g) && NoneTaken(g) && g.depth > 0
    requires OnPath(g, ino, off, h) && Tree(ino, h, Prefix(off, h)) !in g.at
    requires h > 0 ==> c == Zeros()
    requires 0 < FreeHead(d) < |d| && Pop(d).1 < |d| && SlotBlock(g, ino, off, h) < |d|
    requires d' == LinkDisk(d, g, ino, off, h, c) && g' == LinkLayout(d, g, ino, off, h)
    ensures Formed(d', g') && SameSizes(d, d', g)
    ensures if h == 0 then SameContentsBut(d, g, d', g', ino, off) else SameContents(d, g, d', g')
    ensures h == 0 ==> Content(d', g', ino, off) == c
  {
    PopKeeps(d, g, 0);
    if h == g.lev[ino] {
      LinkRoot(Pop(d).0, PopLayout(d, g, 0), d', g', ino, c);
    } else {
      LinkChild(Pop(d).0, PopLayout(d, g, 0), d', g', ino, h, Prefix(off, h), c);
    }
  }
}
