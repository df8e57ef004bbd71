/**
 The page allocator: one bit per frame, packed eight to a byte.
 */
module PageBitmap {
  import opened Egos

  /** 1 << k for the eight bits of a byte. */
  function Mask(k: nat): (m: bv8)
    requires k < 8
  {
    match k
    case 0 => 1 case 1 => 2 case 2 => 4 case 3 => 8
    case 4 => 16 case 5 => 32 case 6 => 64 case _ => 128
  }

  lemma MaskIsShift(k: nat)
    requires k < 8
    ensures Mask(k) == 1 << k
  {
  }

  predicate Has(b: bv8, k: nat)
    requires k < 8
  {
    b & Mask(k) != 0
  }

  function With(b: bv8, k: nat): (r: bv8)
    requires k < 8
    ensures forall j: nat :: j < 8 ==> (Has(r, j) <==> j == k || Has(b, j))
  {
    b | Mask(k)
  }

  function Without(b: bv8, k: nat): (r: bv8)
    requires k < 8
    ensures forall j: nat :: j < 8 ==> (Has(r, j) <==> j != k && Has(b, j))
  {
    b & !Mask(k)
  }

  predicate Bit(bitmap: seq<bv8>, i: nat)
    requires i / 8 < |bitmap|
  {
    Has(bitmap[i / 8], i % 8)
  }

  /** The eight bits determine the byte. */
  lemma SameByte(a: bv8, b: bv8)
    requires forall k: nat :: k < 8 ==> (Has(a, k) <==> Has(b, k))
    ensures a == b
  {
    assert (Has(a, 0) <==> Has(b, 0)) && (Has(a, 1) <==> Has(b, 1)) && (Has(a, 2) <==> Has(b, 2));
    assert (Has(a, 3) <==> Has(b, 3)) && (Has(a, 4) <==> Has(b, 4)) && (Has(a, 5) <==> Has(b, 5));
    assert (Has(a, 6) <==> Has(b, 6)) && (Has(a, 7) <==> Has(b, 7));
  }

  /** Equal bits make equal packed bitmaps. */
  lemma SameBitmap(a: seq<bv8>, b: seq<bv8>)
    requires |a| == |b| && forall i: nat :: i < 8 * |a| ==> (Bit(a, i) <==> Bit(b, i))
    ensures a == b
  {
    hide Has;
    forall j | 0 <= j < |a|
      ensures a[j] == b[j]
    {
      forall k: nat | k < 8
        ensures Has(a[j], k) <==> Has(b[j], k)
      {
        var i := 8 * j + k;
        assert i / 8 == j && i % 8 == k;
        assert Bit(a, i) <==> Bit(b, i);
      }
      SameByte(a[j], b[j]);
    }
  }

  function PgidToPaddr(pgid: nat): nat
    requires pgid < APPS_PAGES_CNT
  {
    APPS_PAGES_BASE + pgid * PAGE_SIZE
  }

  /** Page ids and the page frames from 0x80400000 up to the end of memory. */
  lemma PageAddress(pgid: nat, paddr: nat)
    ensures pgid < APPS_PAGES_CNT && paddr == PgidToPaddr(pgid) <==>
      0x80400000 <= paddr < 0x80800000 && paddr == 0x80400000 + 4096 * pgid
  {
  }

  /** paddr_to_pgid, -1 where its assertions fail. */
  function PaddrToPgid(paddr: nat): (r: int)
    ensures r == -1 || (0 <= r < APPS_PAGES_CNT && paddr == PgidToPaddr(r))
    ensures forall pgid: nat :: pgid < APPS_PAGES_CNT && paddr == PgidToPaddr(pgid) ==> r == pgid
  {
    if paddr % PAGE_SIZE != 0 || paddr < APPS_PAGES_BASE then -1
    else if (paddr - APPS_PAGES_BASE) / PAGE_SIZE >= APPS_PAGES_CNT then -1
    else (paddr - APPS_PAGES_BASE) / PAGE_SIZE
  }

  class PageAllocator {
    const bitmap: array<bv8>
    const pages: nat

    ghost predicate Valid()
      reads this
    {
      pages == 8 * bitmap.Length
    }

    constructor (bytes: nat)
      ensures Valid() && pages == 8 * bytes && fresh(bitmap)
      ensures forall i: nat :: i < pages ==> !Bit(bitmap[..], i)
    {
      bitmap := new bv8[bytes](_ => 0);
      pages := 8 * bytes;
    }

    method Set(i: nat)
      requires Valid() && i < pages
      modifies bitmap
      ensures forall j: nat :: j < pages ==> (Bit(bitmap[..], j) <==> j == i || Bit(old(bitmap[..]), j))
    {
      hide Has, With;
      bitmap[i / 8] := With(bitmap[i / 8], i % 8);
    }

    method Clear(i: nat)
      requires Valid() && i < pages
      modifies bitmap
      ensures forall j: nat :: j < pages ==> (Bit(bitmap[..], j) <==> j != i && Bit(old(bitmap[..]), j))
    {
      hide Has, Without;
      bitmap[i / 8] := Without(bitmap[i / 8], i % 8);
    }

    /** pmalloc without the clearing of the page: the lowest free page, or failure. */
    method Take() returns (ok: bool, i: nat)
      requires Valid()
      modifies bitmap
      ensures ok <==> exists j: nat :: j < pages && !Bit(old(bitmap[..]), j)
      ensures ok ==> i < pages && !Bit(old(bitmap[..]), i)
      ensures ok ==> forall j: nat :: j < i ==> Bit(old(bitmap[..]), j)
      ensures ok ==> forall j: nat :: j < pages ==> (Bit(bitmap[..], j) <==> j == i || Bit(old(bitmap[..]), j))
      ensures !ok ==> bitmap[..] == old(bitmap[..])
    {
      hide Has;
      i := 0;
      while i < pages
        invariant 0 <= i <= pages && bitmap[..] == old(bitmap[..])
        invariant forall j: nat :: j < i ==> Bit(bitmap[..], j)
      {
        assert Bit(bitmap[..], i) <==> Has(bitmap[i / 8], i % 8);
        if !Has(bitmap[i / 8], i % 8) {
          Set(i);
          return true, i;
        }
        i := i + 1;
      }
      ok := false;
    }
  }
}
