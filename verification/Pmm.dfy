/** kernel/pmm.c: the bitmap page allocator built from the firmware memory map. */
module Pmm {
  import opened Common

  const PAGE_SIZE := 4096
  const EFI_CONVENTIONAL_MEMORY := 7
  const RESERVED_LOW := 256
  const PAGES_BELOW_4G := 0x1_0000_0000 / PAGE_SIZE

  /** `free`, `live` and `reserved` split the pages below `total` between them. */
  ghost predicate Partition(free: set<nat>, live: set<nat>, reserved: set<nat>, total: nat) {
    && (forall p: nat :: p < total <==> p in free || p in live || p in reserved)
    && free !! live && free !! reserved && live !! reserved
  }

  lemma PartitionTake(free: set<nat>, live: set<nat>, reserved: set<nat>, total: nat, page: nat)
    requires Partition(free, live, reserved, total) && page in free
    ensures Partition(free - {page}, live + {page}, reserved, total)
  {
  }

  lemma PartitionGive(free: set<nat>, live: set<nat>, reserved: set<nat>, total: nat, page: nat)
    requires Partition(free, live, reserved, total) && page in live
    ensures Partition(free + {page}, live - {page}, reserved, total)
  {
  }

  /** One memory-map descriptor; `kind` is the EFI memory type. */
  datatype Desc = Desc(kind: nat, start: nat, pages: nat) {
    function First(): nat { start / PAGE_SIZE }
    function End(): nat { start + pages * PAGE_SIZE }
    predicate Holds(p: nat) { First() <= p < First() + pages }
    predicate IsFree() { kind == EFI_CONVENTIONAL_MEMORY }
  }

  predicate IsBackedRam(kind: nat) {
    1 <= kind <= 7 || kind == 9 || kind == 10 || kind == 14
  }

  /** Page `p` belongs to conventional memory listed in the first `n` descriptors. */
  ghost predicate Conventional(ds: seq<Desc>, n: nat, p: nat)
    requires n <= |ds|
  {
    exists i :: 0 <= i < n && ds[i].IsFree() && ds[i].Holds(p)
  }

  lemma ConventionalStep(ds: seq<Desc>, n: nat)
    requires n < |ds|
    ensures forall p: nat :: Conventional(ds, n + 1, p) <==>
                             Conventional(ds, n, p) || (ds[n].IsFree() && ds[n].Holds(p))
  {
  }

  /** One past the last byte of backed memory. */
  function Highest(ds: seq<Desc>): (h: nat)
    ensures forall i | 0 <= i < |ds| && IsBackedRam(ds[i].kind) :: ds[i].End() <= h
  {
    if ds == [] then 0
    else
      var h := Highest(ds[..|ds| - 1]);
      var d := ds[|ds| - 1];
      if IsBackedRam(d.kind) && d.End() > h then d.End() else h
  }

  /** Some backed memory ends there, and none ends later. */
  lemma {:induction false} HighestReached(ds: seq<Desc>)
    ensures Highest(ds) > 0 ==>
              exists i :: 0 <= i < |ds| && IsBackedRam(ds[i].kind) && ds[i].start + ds[i].pages * 4096 == Highest(ds)
    ensures forall i | 0 <= i < |ds| && IsBackedRam(ds[i].kind) :: ds[i].start + ds[i].pages * 4096 <= Highest(ds)
  {
    if ds != [] {
      var front, n := ds[..|ds| - 1], |ds| - 1;
      HighestReached(front);
      if Highest(ds) == Highest(front) && Highest(ds) > 0 {
        var i :| 0 <= i < n && IsBackedRam(front[i].kind) && front[i].End() == Highest(front);
        assert ds[i] == front[i];
      } else {
        assert Highest(ds) > 0 ==> ds[n].End() == Highest(ds);
      }
      assert forall i | 0 <= i < |ds| && IsBackedRam(ds[i].kind) :: ds[i].End() <= Highest(ds);
    }
  }

  /** The fewest pages that hold one bit for every page. */
  lemma BitmapCovers(totalPages: nat)
    ensures var n := BitmapPagesFor(totalPages);
            totalPages <= n * 4096 * 8 && (n > 0 ==> (n - 1) * 4096 * 8 < totalPages)
  {
  }

  function BitmapPagesFor(totalPages: nat): nat {
    ((totalPages + 7) / 8 + PAGE_SIZE - 1) / PAGE_SIZE
  }

  predicate HasRoom(d: Desc, bitmapPages: nat) {
    d.IsFree() && d.pages >= bitmapPages
  }

  /** Page-aligned, pairwise disjoint conventional memory. */
  ghost predicate Disjoint(ds: seq<Desc>) {
    && (forall i | 0 <= i < |ds| :: ds[i].start % PAGE_SIZE == 0)
    && (forall i, j, p: nat | 0 <= i < j < |ds| && ds[i].IsFree() && ds[j].IsFree() ::
          !(ds[i].Holds(p) && ds[j].Holds(p)))
  }

  /** A map InitPmm can work with: disjoint, and one piece has room for the bitmap. */
  ghost predicate GoodMap(ds: seq<Desc>) {
    Disjoint(ds) && exists i :: 0 <= i < |ds| && HasRoom(ds[i], BitmapPagesFor(Highest(ds) / PAGE_SIZE))
  }

  function Pow2(k: nat): nat {
    if k == 0 then 1 else 2 * Pow2(k - 1)
  }

  /** Bit `k` of an unsigned number. */
  predicate Bit(b: nat, k: nat) {
    if k == 0 then b % 2 == 1 else Bit(b / 2, k - 1)
  }

  /** `b | (1 << k)`, bit by bit. */
  function OrBit(b: nat, k: nat): nat {
    if k == 0 then b / 2 * 2 + 1 else OrBit(b / 2, k - 1) * 2 + b % 2
  }

  /** `b & ~(1 << k)`, bit by bit. */
  function AndNotBit(b: nat, k: nat): nat {
    if k == 0 then b / 2 * 2 else AndNotBit(b / 2, k - 1) * 2 + b % 2
  }

  lemma {:induction false} BitsAfter(b: nat, k: nat, j: nat)
    ensures Bit(OrBit(b, k), j) == (j == k || Bit(b, j))
    ensures Bit(AndNotBit(b, k), j) == (j != k && Bit(b, j))
  {
    if k > 0 && j > 0 {
      BitsAfter(b / 2, k - 1, j - 1);
    }
  }

  lemma {:induction false} BitsFit(b: nat, k: nat, n: nat)
    requires k < n && b < Pow2(n)
    ensures OrBit(b, k) < Pow2(n) && AndNotBit(b, k) < Pow2(n)
  {
    if k > 0 {
      BitsFit(b / 2, k - 1, n - 1);
    }
  }

  class Allocator {
    var bitmap: array<byte>
    var bitmapPages: nat
    var totalPages: nat
    var freePages: nat
    /** Pages handed out and not given back, and pages that are never handed out. */
    ghost var live: set<nat>
    ghost var reserved: set<nat>

    predicate TestBit(page: nat)
      requires page < bitmap.Length * 8
      reads this`bitmap, bitmap
    {
      Bit(bitmap[page / 8] as nat, page % 8)
    }

    ghost function Free(): set<nat>
      requires totalPages <= bitmap.Length * 8
      reads this`bitmap, this`totalPages, bitmap
    {
      set p: nat | p < totalPages && !TestBit(p)
    }

    /** The bitmap covers all pages and freePages counts its clear bits. */
    ghost predicate Counted()
      reads this`bitmap, this`totalPages, this`freePages, bitmap
    {
      totalPages <= bitmap.Length * 8 && freePages == |Free()|
    }

    /** Free, live and reserved pages partition [0, totalPages), and freePages counts the free ones. */
    ghost predicate Valid()
      reads this, bitmap
    {
      && Counted()
      && Partition(Free(), live, reserved, totalPages)
      && (forall p: nat :: p < totalPages && p < RESERVED_LOW ==> p in reserved)
    }

    method SetBit(page: nat)
      requires totalPages <= bitmap.Length * 8 && page < totalPages
      modifies bitmap
      ensures Free() == old(Free()) - {page}
    {
      var b := bitmap[page / 8];
      BitsFit(b, page % 8, 8);
      bitmap[page / 8] := OrBit(b, page % 8);
      forall p: nat | p < totalPages
        ensures TestBit(p) == (p == page || old(TestBit(p)))
      {
        BitsAfter(b, page % 8, p % 8);
      }
    }

    method ClearBit(page: nat)
      requires totalPages <= bitmap.Length * 8 && page < totalPages
      modifies bitmap
      ensures Free() == old(Free()) + {page}
    {
      var b := bitmap[page / 8];
      BitsFit(b, page % 8, 8);
      bitmap[page / 8] := AndNotBit(b, page % 8);
      forall p: nat | p < totalPages
        ensures TestBit(p) == (p != page && old(TestBit(p)))
      {
        BitsAfter(b, page % 8, p % 8);
      }
    }

    /** SetBit on a free page, and FreePages--. */
    method Take(page: nat)
      requires Counted() && page in Free()
      modifies this`freePages, bitmap
      ensures Counted() && Free() == old(Free()) - {page}
    {
      SetBit(page);
      freePages := freePages - 1;
    }

    /** ClearBit on a used page, and FreePages++. */
    method Give(page: nat)
      requires Counted() && page < totalPages && page !in Free()
      modifies this`freePages, bitmap
      ensures Counted() && Free() == old(Free()) + {page}
    {
      ClearBit(page);
      freePages := freePages + 1;
    }

    method MarkAllUsed()
      requires totalPages <= bitmap.Length * 8
      modifies bitmap
      ensures Free() == {}
    {
      for i := 0 to totalPages
        invariant forall p :: p in Free() ==> i <= p
      {
        SetBit(i);
      }
    }

    /** Clears the bits of one conventional descriptor whose pages are all still marked used. */
    method FreeDescriptor(d: Desc)
      requires Counted() && d.First() + d.pages <= totalPages
      requires forall p :: p in Free() ==> !d.Holds(p)
      modifies this`freePages, bitmap
      ensures Counted() && forall p: nat :: p in Free() <==> p in old(Free()) || d.Holds(p)
    {
      ghost var before := Free();
      var startPage := d.start / PAGE_SIZE;
      for p := 0 to d.pages
        invariant Counted() && forall q: nat :: q in Free() <==> q in before || startPage <= q < startPage + p
      {
        assert d.Holds(startPage + p);
        Give(startPage + p);
      }
    }

    method FreeConventional(ds: seq<Desc>)
      requires Disjoint(ds) && totalPages == Highest(ds) / PAGE_SIZE
      requires Counted() && Free() == {}
      modifies this`freePages, bitmap
      ensures Counted() && forall p: nat :: p in Free() <==> Conventional(ds, |ds|, p)
    {
      for i := 0 to |ds|
        invariant Counted() && forall p: nat :: p in Free() <==> Conventional(ds, i, p)
      {
        ConventionalStep(ds, i);
        if ds[i].kind == EFI_CONVENTIONAL_MEMORY {
          assert ds[i].End() <= Highest(ds);
          FreeDescriptor(ds[i]);
        }
      }
    }

    /** Takes the free pages first..first+n-1 out of circulation. */
    method ReserveRange(first: nat, n: nat)
      requires Counted() && forall p: nat :: first <= p < first + n ==> p in Free()
      modifies this`freePages, bitmap
      ensures Counted() && forall p: nat :: p in Free() <==> p in old(Free()) && !(first <= p < first + n)
    {
      ghost var before := Free();
      for p := 0 to n
        invariant Counted() && forall q: nat :: q in Free() <==> q in before && !(first <= q < first + p)
      {
        assert first + p in Free();
        Take(first + p);
      }
    }

    method ReserveLow()
      requires Counted()
      modifies this`freePages, bitmap
      ensures Counted() && forall p: nat :: p in Free() <==> p in old(Free()) && p >= RESERVED_LOW
    {
      ghost var before := Free();
      var low := RESERVED_LOW;
      if low > totalPages {
        low := totalPages;
      }
      for p := 0 to low
        invariant Counted() && forall q: nat :: q in Free() <==> q in before && q >= p
      {
        if !TestBit(p) {
          assert p in Free();
          Take(p);
        }
      }
    }

    /** InitPmm. Page `p` ends up free exactly when it is conventional, outside the bitmap and not low. */
    constructor (ds: seq<Desc>)
      requires GoodMap(ds)
      ensures Valid() && fresh(bitmap) && live == {}
      ensures totalPages == Highest(ds) / PAGE_SIZE && bitmapPages == BitmapPagesFor(totalPages)
      ensures exists n :: && 0 <= n < |ds| && HasRoom(ds[n], bitmapPages)
                          && (forall k | 0 <= k < n :: !HasRoom(ds[k], bitmapPages))
                          && (forall p: nat :: p in Free() <==>
                                && Conventional(ds, |ds|, p) && p >= RESERVED_LOW
                                && !(ds[n].First() <= p < ds[n].First() + bitmapPages))
    {
      hide TestBit, Free, Conventional, Highest, Partition;
      var highest := HighestAddress(ds);
      var total := highest / PAGE_SIZE;
      var bitmapSize := (total + 7) / 8;
      var pages := (bitmapSize + PAGE_SIZE - 1) / PAGE_SIZE;
      totalPages := total;
      bitmapPages := pages;
      bitmap := new byte[pages * PAGE_SIZE];
      freePages := 0;
      live, reserved := {}, {};
      new;
      var n := PlaceBitmap(ds, pages);
      FillBitmap(ds, n);
      reserved := set p: nat | p < totalPages && TestBit(p);
      RestIsReserved();
      assert HasRoom(ds[n], bitmapPages);
    }

    lemma RestIsReserved()
      requires totalPages <= bitmap.Length * 8 && reserved == set p: nat | p < totalPages && TestBit(p)
      ensures Partition(Free(), {}, reserved, totalPages)
      ensures forall p: nat | p < totalPages && p !in Free() :: p in reserved
    {
    }

    static method HighestAddress(ds: seq<Desc>) returns (highest: nat)
      ensures highest == Highest(ds)
    {
      highest := 0;
      for i := 0 to |ds|
        invariant highest == Highest(ds[..i])
      {
        assert ds[..i + 1][..i] == ds[..i];
        if IsBackedRam(ds[i].kind) {
          var end := ds[i].start + ds[i].pages * PAGE_SIZE;
          if end > highest {
            highest := end;
          }
        }
      }
      assert ds[..|ds|] == ds;
    }

    /** The passes over the bitmap once it is placed at the start of descriptor `n`. */
    method FillBitmap(ds: seq<Desc>, n: nat)
      requires Disjoint(ds) && totalPages == Highest(ds) / PAGE_SIZE && totalPages <= bitmap.Length * 8
      requires n < |ds| && HasRoom(ds[n], bitmapPages)
      modifies this`freePages, bitmap
      ensures Counted()
      ensures forall p: nat :: p in Free() <==>
                && Conventional(ds, |ds|, p) && p >= RESERVED_LOW
                && !(ds[n].First() <= p < ds[n].First() + bitmapPages)
    {
      MarkAllUsed();
      freePages := 0;
      FreeConventional(ds);
      forall p: nat | ds[n].First() <= p < ds[n].First() + bitmapPages
        ensures p in Free()
      {
        assert ds[n].Holds(p);
      }
      ReserveRange(ds[n].First(), bitmapPages);
      ReserveLow();
    }

    /** The first conventional descriptor large enough for the bitmap. */
    static method PlaceBitmap(ds: seq<Desc>, bitmapPages: nat) returns (n: nat)
      requires exists i :: 0 <= i < |ds| && HasRoom(ds[i], bitmapPages)
      ensures n < |ds| && HasRoom(ds[n], bitmapPages)
      ensures forall k | 0 <= k < n :: !HasRoom(ds[k], bitmapPages)
    {
      n := 0;
      while !(ds[n].kind == EFI_CONVENTIONAL_MEMORY && ds[n].pages >= bitmapPages)
        invariant n < |ds| && forall k | 0 <= k < n :: !HasRoom(ds[k], bitmapPages)
        invariant exists i :: n <= i < |ds| && HasRoom(ds[i], bitmapPages)
        decreases |ds| - n
      {
        n := n + 1;
      }
    }

    /** The lowest free page under `limit`, or `limit`. */
    method FirstFree(limit: nat) returns (i: nat)
      requires Valid() && limit <= totalPages
      ensures i <= limit && (i < limit ==> i in Free())
      ensures forall p :: p in Free() ==> i <= p
    {
      i := 0;
      while i < limit && TestBit(i)
        invariant i <= limit && forall p :: p in Free() ==> i <= p
      {
        i := i + 1;
      }
      assert i < limit ==> i in Free();
    }

    lemma Bounded()
      requires Valid()
      ensures totalPages <= bitmap.Length * 8
    {
    }

    lemma FreeIsHigh(p: nat)
      requires Valid() && p in Free()
      ensures RESERVED_LOW <= p < totalPages && p !in live && p !in reserved
    {
    }

    /** What both allocation functions do: mark the lowest free page under `limit`, or return address 0. */
    method AllocBelow(limit: nat) returns (addr: nat)
      requires Valid() && limit <= totalPages
      modifies this`freePages, this`live, bitmap
      ensures Valid()
      ensures addr == 0 <==> forall p :: p in old(Free()) ==> limit <= p
      ensures addr == 0 ==> Free() == old(Free()) && live == old(live)
      ensures addr != 0 ==> addr / PAGE_SIZE < limit && Allocated(addr, old(Free()), old(live))
      ensures addr != 0 ==> forall p :: p in old(Free()) ==> addr / PAGE_SIZE <= p
    {
      hide TestBit, Free, Partition;
      var i := FirstFree(limit);
      if i == limit {
        return 0;
      }
      FreeIsHigh(i);
      addr := i * PAGE_SIZE;
      assert addr / PAGE_SIZE == i;
      PartitionTake(Free(), live, reserved, totalPages, i);
      Take(i);
      live := live + {i};
    }

    /** `addr` is a page that was free, is neither live nor reserved, and is now live and nothing else changed. */
    ghost predicate Allocated(addr: nat, free: set<nat>, before: set<nat>)
      requires totalPages <= bitmap.Length * 8
      reads this, bitmap
    {
      && addr % PAGE_SIZE == 0
      && addr / PAGE_SIZE in free && addr / PAGE_SIZE !in before && addr / PAGE_SIZE !in reserved
      && Free() == free - {addr / PAGE_SIZE}
      && live == before + {addr / PAGE_SIZE}
    }

    method AllocPage() returns (addr: nat)
      requires Valid()
      modifies this`freePages, this`live, bitmap
      ensures Valid()
      ensures addr == 0 <==> old(Free()) == {}
      ensures addr == 0 ==> live == old(live) && Free() == {}
      ensures addr != 0 ==> Allocated(addr, old(Free()), old(live))
      ensures addr != 0 ==> forall p :: p in old(Free()) ==> addr / PAGE_SIZE <= p
    {
      addr := AllocBelow(totalPages);
    }

    method AllocPageBelow4G() returns (addr: nat)
      requires Valid()
      modifies this`freePages, this`live, bitmap
      ensures Valid()
      ensures addr == 0 <==> forall p :: p in old(Free()) ==> PAGES_BELOW_4G <= p
      ensures addr == 0 ==> Free() == old(Free()) && live == old(live)
      ensures addr != 0 ==> addr / PAGE_SIZE < PAGES_BELOW_4G && Allocated(addr, old(Free()), old(live))
      ensures addr != 0 ==> forall p :: p in old(Free()) ==> addr / PAGE_SIZE <= p
    {
      var limit := PAGES_BELOW_4G;
      if limit > totalPages {
        limit := totalPages;
      }
      addr := AllocBelow(limit);
    }

    lemma LivePage(page: nat)
      requires Valid() && page in live
      ensures page < totalPages && page !in reserved && page !in Free()
    {
    }

    /**
     * FreePage; giving back a page that is already free changes nothing. A page that was never handed out is freed
     * like any other, so the allocator stays in order only if the caller does not do that.
     */
    method FreePage(addr: nat)
      requires Valid() && addr / PAGE_SIZE < totalPages
      modifies this`freePages, this`live, bitmap
      ensures Counted() && (Valid() <==> addr / PAGE_SIZE !in reserved)
      ensures Free() == old(Free()) + {addr / PAGE_SIZE} && live == old(live) - {addr / PAGE_SIZE}
    {
      var page := addr / PAGE_SIZE;
      if TestBit(page) {
        assert page !in Free();
        Give(page);
        live := live - {page};
        if page !in reserved {
          PartitionGive(old(Free()), old(live), reserved, totalPages, page);
        }
      }
    }
  }
}
