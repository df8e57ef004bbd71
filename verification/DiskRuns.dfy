/**
 Runs of writes over a plain table of files, and what a reader finds after a run: the last
 block written at an offset, a null block where nothing was written, the end of the file
 just after the highest offset written.
 */
module DiskRuns {
  import opened Egos
  import opened Radix
  import opened DiskLayout
  import opened DiskFiles

  datatype WriteOp = WriteOp(ino: Word, off: Word, block: Block)

  predicate InTable(ops: seq<WriteOp>, n: nat) {
    forall op :: op in ops ==> op.ino < n && op.off + 1 < WORD_LIMIT
  }

  /** The table of files after the writes, in order. */
  function Apply(fs: seq<seq<Block>>, ops: seq<WriteOp>): (r: seq<seq<Block>>)
    requires InTable(ops, |fs|)
    ensures |r| == |fs|
  {
    if ops == [] then fs else
    var op := ops[|ops| - 1];
    var before := Apply(fs, ops[..|ops| - 1]);
    before[op.ino := Put(before[op.ino], op.off, op.block)]
  }

  /** The block of the last write to (ino, off), if there is one. */
  function LastWrite(ops: seq<WriteOp>, ino: nat, off: nat): Option<Block> {
    if ops == [] then None else
    var op := ops[|ops| - 1];
    if op.ino == ino && op.off == off then Some(op.block) else LastWrite(ops[..|ops| - 1], ino, off)
  }

  /** One past the highest offset written to ino. */
  function End(ops: seq<WriteOp>, ino: nat): nat {
    if ops == [] then 0 else
    var op := ops[|ops| - 1];
    var before := End(ops[..|ops| - 1], ino);
    if op.ino == ino && op.off >= before then op.off + 1 else before
  }

  /** End is what its name says. */
  lemma {:induction false} EndIsHighest(ops: seq<WriteOp>, ino: nat)
    ensures forall op :: op in ops && op.ino == ino ==> op.off < End(ops, ino)
    ensures End(ops, ino) > 0 ==> LastWrite(ops, ino, End(ops, ino) - 1) != None
  {
    if ops != [] { EndIsHighest(ops[..|ops| - 1], ino); }
  }

  /** A reader of the table finds the last write, or a null block, up to the end. */
  lemma {:induction false} ReadsLastWrite(fs: seq<seq<Block>>, ops: seq<WriteOp>, ino: nat, off: nat)
    requires InTable(ops, |fs|) && ino < |fs| && fs[ino] == []
    ensures |Apply(fs, ops)[ino]| == End(ops, ino)
    ensures off < End(ops, ino) ==>
      Apply(fs, ops)[ino][off] == match LastWrite(ops, ino, off) case Some(b) => b case None => Zeros()
    ensures off >= End(ops, ino) ==> LastWrite(ops, ino, off) == None
  {
    if ops != [] { ReadsLastWrite(fs, ops[..|ops| - 1], ino, off); }
  }

  /** No disk can hold a block at the last 32-bit offset: the size word cannot count it. */
  lemma LastOffsetDoesNotFit(d: Disk, ino: nat, f: seq<Block>, c: Block)
    requires InodeBlockNo(ino) < |d|
    ensures forall off: Word :: off + 1 == WORD_LIMIT ==> File(d, ino) != Put(f, off, c)
  {
    forall off: Word | off + 1 == WORD_LIMIT
      ensures File(d, ino) != Put(f, off, c)
    {
      assert |File(d, ino)| < WORD_LIMIT <= |Put(f, off, c)|;
    }
  }
}
