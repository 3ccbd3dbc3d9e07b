/** kernel/fat32.c, the mounted volume: its two caches, file reads and directory listings. */
module FatVolume {
  import opened Common
  import opened FatFormat
  import BlockDev
  import Pmm

  predicate IsPowerOfTwo(n: nat) {
    n == 1 || n == 2 || n == 4 || n == 8 || n == 16 || n == 32 || n == 64 || n == 128
  }

  predicate BootSectorValid(s: seq<byte>)
    requires |s| >= 512
  {
    && s[510] == 0x55 && s[511] == 0xAA
    && BlockDev.ValidSectorSize(Le16(s, 0x0B))
    && IsPowerOfTwo(s[0x0D])
    && Le16(s, 0x0E) != 0 && 1 <= s[0x10] <= 2
    && Le16(s, 0x11) == 0 && Le32(s, 0x24) != 0 && Le32(s, 0x2C) >= 2
  }

  /** What FatMount stores, in the widths of the C fields. */
  function Decode(content: nat -> byte, s: seq<byte>, startLba: nat): Geometry
    requires |s| >= 512
  {
    var scale := Le16(s, 0x0B) / 512;
    var fatStart := Le16(s, 0x0E) * scale;
    Geometry(content, startLba, s[0x0D] * scale % 0x1_0000, fatStart,
             (fatStart + s[0x10] * Le32(s, 0x24) * scale) % U32, Le32(s, 0x2C))
  }

  /** No address the reader forms leaves 64 bits. */
  predicate Fits(g: Geometry) {
    && 1 <= g.spc <= 1024
    && g.startLba + g.firstData + FAT_EOC_MIN * g.spc <= U64
    && g.startLba + g.fatStart + 0x20_0000 <= U64
  }

  lemma BootSectorSpc(content: nat -> byte, s: seq<byte>, startLba: nat)
    requires |s| >= 512 && BootSectorValid(s)
    ensures 1 <= Decode(content, s, startLba).spc <= 1024
    ensures Decode(content, s, startLba).spc == s[0x0D] * (Le16(s, 0x0B) / 512)
  {
    hide Le16, Le32, BootSectorValid;
    BootSectorScale(s);
    SpcScale(s[0x0D], Le16(s, 0x0B) / 512);
  }

  lemma BootSectorScale(s: seq<byte>)
    requires |s| >= 512 && BootSectorValid(s)
    ensures var scale := Le16(s, 0x0B) / 512; scale == 1 || scale == 2 || scale == 4 || scale == 8
    ensures 1 <= s[0x0D] <= 128
  {
    hide Le16, Le32;
  }

  lemma SpcScale(spc: nat, scale: nat)
    requires 1 <= spc <= 128 && (scale == 1 || scale == 2 || scale == 4 || scale == 8)
    ensures 1 <= spc * scale <= 1024 && spc * scale % 0x1_0000 == spc * scale
  {
    if scale == 1 {
    } else if scale == 2 {
    } else if scale == 4 {
    }
  }

  lemma ClusterAddress(g: Geometry, cluster: nat, sector: nat, count: nat)
    requires Fits(g) && ClusterValid(cluster) && sector + count <= g.spc
    ensures g.ClusterLba(cluster) + sector + count <= U64
  {
    assert (cluster - 2) * g.spc + g.spc == (cluster - 1) * g.spc;
    assert (cluster - 1) * g.spc <= FAT_EOC_MIN * g.spc;
  }

  /** The bytes FatReadAt tries to deliver. */
  function Want(file: Entry, offset: nat, length: nat): nat {
    if file.IsDir() || offset >= file.size || !ClusterValid(file.cluster) then 0
    else Min(length, file.size - offset)
  }

  function Sum(lengths: seq<nat>): nat {
    if lengths == [] then 0 else Sum(lengths[..|lengths| - 1]) + lengths[|lengths| - 1]
  }

  lemma SumNothing()
    ensures Sum([]) == 0
  {
  }

  lemma SumNext(lengths: seq<nat>, k: nat)
    requires k < |lengths|
    ensures Sum(lengths[..k + 1]) == Sum(lengths[..k]) + lengths[k]
  {
    assert lengths[..k + 1][..k] == lengths[..k];
  }

  /** The static buffers of FatListDir, shared by all volumes and never cleared between calls. */
  class Statics {
    const lfn: array<nat>
    const name: array<char>

    constructor ()
      ensures fresh(lfn) && fresh(name) && lfn.Length == LFN_UNITS && name.Length == FAT_NAME_MAX
    {
      lfn := new nat[LFN_UNITS];
      name := new char[FAT_NAME_MAX];
    }
  }

  /** The boot sector of a partition; of an unknown device, any bytes. */
  function FirstSector(ds: seq<BlockDev.Device>, device: int, startLba: nat): (s: seq<byte>)
    ensures |s| == 512
  {
    if 0 <= device < |ds| then Slice(ds[device].content, startLba * 512, 512) else seq(512, _ => 0)
  }

  ghost predicate AtMostOne(s: set<nat>) {
    forall p, q :: p in s && q in s ==> p == q
  }

  /** FatListDir's locals LfnValid, LfnSum and LfnCount. */
  datatype LfnVars = LfnVars(valid: bool, sum: byte, count: nat)

  class Volume {
    const block: BlockDev.BlockLayer
    const device: int
    const geo: Geometry
    const sectorBuffer: array<byte>
    const fatBuffer: array<byte>
    const statics: Statics
    var fatBufferLba: nat
    var fatBufferValid: bool
    var cursorFirst: nat
    var cursorIndex: nat
    var cursorCluster: nat
    /** NextCluster calls made by file reads that returned a valid cluster. */
    ghost var steps: nat

    ghost predicate CacheOk()
      reads this`fatBufferLba, this`fatBufferValid, fatBuffer
    {
      fatBufferValid ==> fatBuffer.Length == 4096 && fatBuffer[..512] == Slice(geo.content, fatBufferLba * 512, 512)
    }

    ghost predicate CursorOk()
      reads this`cursorFirst, this`cursorIndex, this`cursorCluster
    {
      ClusterValid(cursorFirst) ==> geo.Chain(cursorFirst, cursorIndex) == Some(cursorCluster)
    }

    ghost predicate Shape()
      reads block`devices
    {
      && block.Valid() && 0 <= device < |block.devices| && block.devices[device].content == geo.content
      && Fits(geo)
      && sectorBuffer.Length == 4096 && fatBuffer.Length == 4096 && sectorBuffer != fatBuffer
      && sectorBuffer != block.bounce && fatBuffer != block.bounce
      && statics.lfn.Length == LFN_UNITS && statics.name.Length == FAT_NAME_MAX
      && statics.lfn as object != fatBuffer && statics.name as object != fatBuffer
    }

    /** Both caches agree with the disk. */
    ghost predicate Valid()
      reads this, block`devices, fatBuffer
    {
      Shape() && CacheOk() && CursorOk()
    }

    /** The sector of the FAT that holds a cluster's entry. */
    function FatLba(cluster: nat): nat {
      geo.startLba + geo.fatStart + cluster * 4 / 512
    }

    /** The device holds the cluster, and the FAT sector with its entry. */
    predicate ClusterInside(cluster: nat)
      reads block`devices
    {
      && cluster >= 2
      && BlockDev.InRange(block.devices, device, FatLba(cluster), 1)
      && BlockDev.InRange(block.devices, device, geo.ClusterLba(cluster), geo.spc)
    }

    /** The device holds every cluster of the chain that starts at `first`. */
    ghost predicate OnDevice(first: nat)
      reads block`devices
    {
      forall i | geo.Chain(first, i).Some? :: ClusterInside(geo.Chain(first, i).value)
    }

    /** Reading along that chain cannot fail. */
    ghost predicate Healthy(first: nat)
      reads block`devices, block`clock
    {
      block.Answering() && OnDevice(first)
    }

    lemma HealthyAt(first: nat, i: nat)
      requires Healthy(first)
      ensures block.Answering()
      ensures geo.Chain(first, i).Some? ==> ClusterInside(geo.Chain(first, i).value)
    {
    }

    lemma PieceInside(cluster: nat, sector: nat, n: nat)
      requires ClusterInside(cluster) && 0 < n && sector + n <= geo.spc
      ensures BlockDev.InRange(block.devices, device, geo.ClusterLba(cluster) + sector, n)
    {
      BlockDev.InRangePart(block.devices, device, geo.ClusterLba(cluster), geo.spc, sector, n);
    }

    /** Reading on leaves the chain as healthy as it was. */
    twostate lemma StaysHealthy(first: nat)
      requires old(Healthy(first)) && old(block.clock) <= block.clock && old(block.devices) == block.devices
      ensures Healthy(first)
    {
    }

    /** On an online device of unknown size every chain is healthy while the driver answers. */
    lemma SimpleHealthy(first: nat)
      requires Simple() && block.Answering()
      ensures Healthy(first)
    {
    }

    /** The device is there and its size unknown, so every read of a sector is one driver call. */
    ghost predicate Simple()
      reads block`devices
    {
      0 <= device < |block.devices| && block.devices[device].online && block.devices[device].sectorCount == 0
    }

    lemma SimpleInRange(lba: nat)
      requires Simple()
      ensures BlockDev.InRange(block.devices, device, lba, 1)
    {
    }

    /** What Shape promises, for proofs that keep its definition out of sight. */
    lemma ShapeFacts()
      requires Shape()
      ensures geo.spc > 0 && geo.ClusterBytes() == geo.spc * 512 && Fits(geo)
      ensures block.Valid() && 0 <= device < |block.devices| && block.devices[device].content == geo.content
      ensures sectorBuffer.Length == 4096 && fatBuffer.Length == 4096 && sectorBuffer != fatBuffer
      ensures sectorBuffer != block.bounce && fatBuffer != block.bounce
      ensures statics.lfn.Length == LFN_UNITS && statics.name.Length == FAT_NAME_MAX
      ensures statics.lfn as object != fatBuffer && statics.name as object != fatBuffer
    {
    }

    constructor (block: BlockDev.BlockLayer, device: int, geo: Geometry, statics: Statics,
                 sectorBuffer: array<byte>, fatBuffer: array<byte>)
      ensures this.block == block && this.device == device && this.geo == geo && this.statics == statics
      ensures this.sectorBuffer == sectorBuffer && this.fatBuffer == fatBuffer
      ensures !fatBufferValid && cursorFirst == 0 && steps == 0
    {
      this.block, this.device, this.geo, this.statics := block, device, geo, statics;
      this.sectorBuffer, this.fatBuffer := sectorBuffer, fatBuffer;
      fatBufferLba, fatBufferValid := 0, false;
      cursorFirst, cursorIndex, cursorCluster, steps := 0, 0, 0, 0;
    }

    /** There was at most one free page if and only if none is left after one was taken. */
    static lemma TwoPages(left: set<nat>, free: set<nat>, a: nat)
      ensures free == {} ==> AtMostOne(free)
      ensures a in free && left == free - {a} ==> (AtMostOne(free) <==> left == {})
    {
      if a in free && left == free - {a} {
        if left == {} {
          assert forall p | p in free :: p == a || p in left;
        } else {
          var b :| b in left;
          assert a in free && b in free && a != b;
        }
      }
    }

    /** The two page allocations of FatMount, which gives back the first page when the second is missing. */
    static method AllocPair(pmm: Pmm.Allocator) returns (ok: bool, a: nat, b: nat)
      requires pmm.Valid()
      modifies pmm`freePages, pmm`live, pmm.bitmap
      ensures pmm.Valid() && ok == (a != 0 && b != 0)
      ensures ok ==> && a / Pmm.PAGE_SIZE != b / Pmm.PAGE_SIZE && !AtMostOne(old(pmm.Free()))
                     && a / Pmm.PAGE_SIZE !in old(pmm.live) && b / Pmm.PAGE_SIZE !in old(pmm.live)
                     && pmm.live == old(pmm.live) + {a / Pmm.PAGE_SIZE, b / Pmm.PAGE_SIZE}
      ensures !ok ==> pmm.live == old(pmm.live) && AtMostOne(old(pmm.Free()))
    {
      hide Pmm.Allocator.Valid, Pmm.Allocator.Free, AtMostOne;
      pmm.Bounded();
      a := pmm.AllocPage();
      TwoPages(pmm.Free(), old(pmm.Free()), a / Pmm.PAGE_SIZE);
      ghost var between := pmm.Free();
      b := pmm.AllocPage();
      ok := a != 0 && b != 0;
      if !ok {
        assert b == 0 && between == {};
        FreeIfTaken(pmm, a);
        FreeIfTaken(pmm, b);
      }
    }

    /** `if (Page) FreePage(Page)`. */
    static method FreeIfTaken(pmm: Pmm.Allocator, a: nat)
      requires pmm.Valid() && (a != 0 ==> a / Pmm.PAGE_SIZE in pmm.live)
      modifies pmm`freePages, pmm`live, pmm.bitmap
      ensures pmm.Valid()
      ensures pmm.live == old(pmm.live) - if a == 0 then {} else {a / Pmm.PAGE_SIZE}
    {
      if a != 0 {
        pmm.FreePage(a);
      }
    }

    /** FatMount: a volume, or null with both pages given back. */
    static method Mount(pmm: Pmm.Allocator, block: BlockDev.BlockLayer, device: int, startLba: nat, statics: Statics)
      returns (v: Volume?, ghost pages: set<nat>)
      requires pmm.Valid() && block.Valid() && startLba < U64 && pmm.bitmap != block.bounce
      requires statics.lfn.Length == LFN_UNITS && statics.name.Length == FAT_NAME_MAX
      modifies pmm`freePages, pmm`live, pmm.bitmap, block`clock, block`log, block`failed, block`lost, block.bounce
      ensures pmm.Valid() && block.failed >= old(block.failed)
      ensures v == null ==> pmm.live == old(pmm.live)
      ensures v == null <==> || AtMostOne(old(pmm.Free())) || block.failed > old(block.failed)
                             || !BootSectorValid(FirstSector(block.devices, device, startLba))
      ensures 0 <= block.lost - old(block.lost) <= block.failed - old(block.failed)
      ensures old(block.Answering()) ==>
                && block.Answering() && block.lost == old(block.lost)
                && (BlockDev.InRange(block.devices, device, startLba, 1) ==> block.failed == old(block.failed))
      ensures v != null ==> && fresh(v) && fresh(v.sectorBuffer) && fresh(v.fatBuffer) && v.sectorBuffer != v.fatBuffer
                            && v.block == block && v.device == device && v.statics == statics
                            && pages !! old(pmm.live) && |pages| == 2 && pmm.live == old(pmm.live) + pages
                            && 0 <= device < |block.devices|
                            && v.geo == Decode(block.devices[device].content,
                                               FirstSector(block.devices, device, startLba), startLba)
      ensures v != null && Fits(v.geo) ==> v.Valid()
    {
      v := null;
      pages := {};
      var ok, a, b := AllocPair(pmm);
      if ok {
        pages := {a / Pmm.PAGE_SIZE, b / Pmm.PAGE_SIZE};
        v := ReadBoot(block, device, startLba, statics);
        if v == null {
          FreePair(pmm, a, b);
        }
      }
    }

    static method FreePair(pmm: Pmm.Allocator, a: nat, b: nat)
      requires pmm.Valid() && a / Pmm.PAGE_SIZE in pmm.live && b / Pmm.PAGE_SIZE in pmm.live
      modifies pmm`freePages, pmm`live, pmm.bitmap
      ensures pmm.Valid() && pmm.live == old(pmm.live) - {a / Pmm.PAGE_SIZE, b / Pmm.PAGE_SIZE}
    {
      hide Pmm.Allocator.Valid, Pmm.Allocator.Free;
      pmm.LivePage(a / Pmm.PAGE_SIZE);
      pmm.LivePage(b / Pmm.PAGE_SIZE);
      pmm.FreePage(a);
      pmm.FreePage(b);
    }

    /** The part of FatMount after its pages are there: read, check and decode the boot sector. */
    static method ReadBoot(block: BlockDev.BlockLayer, device: int, startLba: nat, statics: Statics)
      returns (v: Volume?)
      requires block.Valid() && startLba < U64
      requires statics.lfn.Length == LFN_UNITS && statics.name.Length == FAT_NAME_MAX
      modifies block`clock, block`log, block`failed, block`lost, block.bounce
      ensures 0 <= block.lost - old(block.lost) <= block.failed - old(block.failed)
      ensures old(block.Answering()) ==>
                && block.Answering() && block.lost == old(block.lost)
                && (BlockDev.InRange(block.devices, device, startLba, 1) ==> block.failed == old(block.failed))
      ensures v == null <==> || block.failed > old(block.failed)
                             || !BootSectorValid(FirstSector(block.devices, device, startLba))
      ensures v != null ==> && fresh(v) && fresh(v.sectorBuffer) && fresh(v.fatBuffer) && v.sectorBuffer != v.fatBuffer
                            && v.block == block && v.device == device && v.statics == statics
                            && 0 <= device < |block.devices|
                            && v.geo == Decode(block.devices[device].content,
                                               FirstSector(block.devices, device, startLba), startLba)
      ensures v != null && Fits(v.geo) ==> v.Valid()
    {
      v := null;
      var sectorBuffer, fatBuffer := new byte[4096], new byte[4096];
      var ok := block.ReadFrom(device, startLba, 1, sectorBuffer, 0);
      if ok {
        var s := sectorBuffer[0..512];
        assert s == FirstSector(block.devices, device, startLba);
        hide BootSectorValid, Decode, FirstSector;
        if BootSectorValid(s) {
          v := new Volume(block, device, Decode(block.devices[device].content, s, startLba), statics,
                          sectorBuffer, fatBuffer);
        }
      }
    }

    method NextCluster(cluster: nat) returns (next: nat)
      requires Shape() && CacheOk() && ClusterValid(cluster)
      modifies this`fatBufferLba, this`fatBufferValid, fatBuffer
      modifies block`clock, block`log, block`failed, block`lost, block.bounce
      ensures CacheOk() && block.failed >= old(block.failed)
      ensures if block.failed == old(block.failed) then next == geo.FatEntry(cluster) else next == FAT_EOC_MIN
      ensures old(block.clock) <= block.clock
      ensures old(block.Answering()) && ClusterInside(cluster) ==> block.failed == old(block.failed)
      ensures Simple() && old(!fatBufferValid) && !block.answers(old(block.clock)) ==> block.failed > old(block.failed)
    {
      var byteOffset := cluster * 4;
      var lba := geo.startLba + geo.fatStart + byteOffset / 512;
      if !fatBufferValid || fatBufferLba != lba {
        var ok := block.ReadFrom(device, lba, 1, fatBuffer, 0);
        if !ok {
          fatBufferValid := false;
          return FAT_EOC_MIN;
        }
        assert fatBuffer[..512] == fatBuffer[0..512];
        fatBufferLba := lba;
        fatBufferValid := true;
      }
      var at := byteOffset % 512;
      next := Le32(fatBuffer[at..at + 4], 0) % 0x1000_0000;
      SliceSub(geo.content, lba * 512, 512, at, at + 4);
      assert fatBuffer[at..at + 4] == fatBuffer[..512][at..at + 4];
      assert lba * 512 + at == (geo.startLba + geo.fatStart) * 512 + byteOffset;
    }

    /** One pass of FatReadAt's loop: up to eight sectors of one cluster, copied to `out` at `at`. */
    method ReadPiece(cluster: nat, inCluster: nat, left: nat, out: array<byte>, at: nat) returns (ok: bool, take: nat)
      requires Shape() && ClusterValid(cluster) && inCluster < geo.ClusterBytes() && 0 < left
      requires at + left <= out.Length && out != sectorBuffer && out != fatBuffer && out != block.bounce
      modifies sectorBuffer, out, block`clock, block`log, block`failed, block`lost, block.bounce
      ensures block.failed >= old(block.failed)
      ensures !ok ==> block.failed > old(block.failed) && out[..] == old(out[..])
      ensures ok ==> && 1 <= take <= left && inCluster + take <= geo.ClusterBytes()
                     && out[at..at + take] == Slice(geo.content, geo.ClusterLba(cluster) * 512 + inCluster, take)
                     && (forall i | 0 <= i < out.Length && !(at <= i < at + take) :: out[i] == old(out[i]))
      ensures old(block.clock) <= block.clock
      ensures old(block.Answering()) && ClusterInside(cluster) ==> ok && block.failed == old(block.failed)
    {
      hide Shape, Fits, FatFormat.Geometry.ClusterLba, BlockDev.InRange, BlockDev.GoodRequest, Common.Slice,
        BlockDev.BlockLayer.Valid, BlockDev.BlockLayer.Answering, ClusterInside;
      ShapeFacts();
      take := 0;
      var sectorInCluster, sectorOffset := inCluster / 512, inCluster % 512;
      var sectorsLeft := geo.spc - sectorInCluster;
      var chunk := if sectorsLeft > 8 then 8 else sectorsLeft;
      ClusterAddress(geo, cluster, sectorInCluster, chunk);
      var lba := geo.ClusterLba(cluster) + sectorInCluster;
      if ClusterInside(cluster) {
        PieceInside(cluster, sectorInCluster, chunk);
      }
      ok := block.ReadFrom(device, lba, chunk, sectorBuffer, 0);
      if ok {
        var available := chunk * 512 - sectorOffset;
        take := if left < available then left else available;
        PartOf(sectorBuffer[..], geo.content, lba * 512, chunk * 512, sectorOffset, sectorOffset + take);
        CopyBytes(sectorBuffer, sectorOffset, out, at, take);
      }
    }

    /** Where the cursor lets a read that wants chain position `index` start walking. */
    ghost function StartIndex(first: nat, index: nat): nat
      reads this`cursorFirst, this`cursorIndex, this`cursorCluster
    {
      if cursorFirst == first && cursorIndex <= index && ClusterValid(cursorCluster) then cursorIndex else 0
    }

    /** The first loop of FatReadAt: walk from the cursor to chain position `want`. */
    method Seek(first: nat, want: nat) returns (ok: bool, cluster: nat)
      requires Valid() && ClusterValid(first)
      modifies this`fatBufferLba, this`fatBufferValid, this`steps, fatBuffer
      modifies block`clock, block`log, block`failed, block`lost, block.bounce
      ensures CacheOk() && block.failed >= old(block.failed)
      ensures ok ==> geo.Chain(first, want) == Some(cluster) && steps == old(steps) + want - StartIndex(first, want)
      ensures !ok ==> block.failed > old(block.failed) || geo.Chain(first, want).None?
      ensures !ok ==> old(steps) <= steps < old(steps) + want - StartIndex(first, want)
      ensures old(block.clock) <= block.clock
      ensures old(Healthy(first)) ==> block.failed == old(block.failed)
    {
      hide FatFormat.Geometry.FatEntry, FatFormat.Geometry.Chain, Fits, Healthy, ClusterInside;
      geo.ChainStart(first);
      var index := 0;
      cluster := first;
      if cursorFirst == first && cursorIndex <= want && ClusterValid(cursorCluster) {
        index := cursorIndex;
        cluster := cursorCluster;
      }
      ghost var start, healthy := index, Healthy(first);
      assert start == StartIndex(first, want) && start <= want;
      while index < want
        invariant CacheOk() && block.failed >= old(block.failed)
        invariant start <= index <= want && geo.Chain(first, index) == Some(cluster)
        invariant steps == old(steps) + index - start
        invariant old(block.clock) <= block.clock
        invariant healthy ==> Healthy(first) && block.failed == old(block.failed)
      {
        var moved, next := Advance(first, index, cluster);
        if !moved {
          if block.failed == old(block.failed) {
            geo.ChainEnds(first, index + 1, want);
          }
          return false, next;
        }
        cluster := next;
        index := index + 1;
      }
      ok := true;
    }

    /** The step to the next cluster of the chain. */
    method Advance(first: nat, index: nat, cluster: nat) returns (ok: bool, next: nat)
      requires Shape() && CacheOk() && ClusterValid(first) && geo.Chain(first, index) == Some(cluster)
      modifies this`fatBufferLba, this`fatBufferValid, this`steps, fatBuffer
      modifies block`clock, block`log, block`failed, block`lost, block.bounce
      ensures CacheOk() && block.failed >= old(block.failed)
      ensures ok ==> geo.Chain(first, index + 1) == Some(next) && steps == old(steps) + 1
      ensures !ok ==> && steps == old(steps)
                      && (block.failed > old(block.failed) || geo.Chain(first, index + 1).None?)
      ensures old(block.clock) <= block.clock
      ensures old(Healthy(first)) ==> block.failed == old(block.failed) && Healthy(first)
    {
      hide FatFormat.Geometry.FatEntry, CacheOk;
      next := NextCluster(cluster);
      ok := ClusterValid(next);
      if ok {
        steps := steps + 1;
      }
    }

    /** One piece of the file: extends what `out` holds of it by at least a byte. */
    method FilePiece(first: nat, index: nat, cluster: nat, offset: nat, done: nat, len: nat, out: array<byte>, at: nat)
      returns (ok: bool, take: nat)
      requires Shape() && done < len
      requires geo.Chain(first, index) == Some(cluster) && geo.Index(offset + done) == index
      requires at + len <= out.Length && out != sectorBuffer && out != fatBuffer && out != block.bounce
      requires geo.Holds(first, offset, out[at..at + done])
      modifies sectorBuffer, out, block`clock, block`log, block`failed, block`lost, block.bounce
      ensures block.failed >= old(block.failed) && done + take <= len
      ensures if ok then take > 0 else take == 0 && block.failed > old(block.failed)
      ensures geo.Holds(first, offset, out[at..at + done + take])
      ensures forall i | 0 <= i < out.Length && !(at <= i < at + done + take) :: out[i] == old(out[i])
      ensures index <= geo.Index(offset + done + take) <= index + 1
      ensures geo.Index(offset + done + take) == index + 1 <==> take > 0 && geo.Within(offset + done + take) == 0
      ensures old(block.clock) <= block.clock
      ensures old(Healthy(first)) ==> block.failed == old(block.failed)
    {
      hide FatFormat.Geometry.ClusterLba, FatFormat.Geometry.Holds, Common.Slice, Shape, Fits, FatFormat.Geometry.Chain,
        FatFormat.Geometry.Index, FatFormat.Geometry.Within;
      ShapeFacts();
      var inCluster := (offset + done) % (geo.spc * 512);
      geo.IndexBounds(offset + done);
      geo.WithinIs(offset + done);
      geo.ChainValid(first, index);
      ghost var before := out[at..at + done];
      ok, take := ReadPiece(cluster, inCluster, len - done, out, at + done);
      assert out[at..at + done] == before;
      if !ok {
        take := 0;
      }
      ghost var piece := out[at + done..at + done + take];
      assert out[at..at + done + take] == before + piece;
      PieceAdded(first, offset, before, index, piece);
    }

    /** The piece just read extends what is held of the file. */
    lemma PieceAdded(first: nat, offset: nat, before: seq<byte>, index: nat, piece: seq<byte>)
      requires geo.spc > 0 && geo.Holds(first, offset, before) && geo.Chain(first, index).Some?
      requires geo.Index(offset + |before|) == index
      requires geo.Within(offset + |before|) + |piece| <= geo.ClusterBytes()
      requires piece != [] ==>
                 piece == Slice(geo.content, geo.ClusterLba(geo.Chain(first, index).value) * 512
                                             + geo.Within(offset + |before|), |piece|)
      ensures geo.Holds(first, offset, before + piece)
      ensures index <= geo.Index(offset + |before + piece|) <= index + 1
      ensures geo.Index(offset + |before + piece|) == index + 1 <==>
              piece != [] && geo.Within(offset + |before + piece|) == 0
    {
      hide FatFormat.Geometry.Holds, FatFormat.Geometry.Index, FatFormat.Geometry.Within, FatFormat.Geometry.Chain,
        Slice;
      if piece == [] {
        assert before + piece == before;
      } else {
        geo.HoldsMore(first, offset, before, index, piece);
      }
    }

    /** The body of that loop: one piece, and the step to the next cluster when the piece ends at its boundary. */
    method CopyStep(first: nat, index0: nat, cluster0: nat, offset: nat, done0: nat, len: nat, out: array<byte>,
                    at: nat)
      returns (ok: bool, done: nat, index: nat, cluster: nat)
      requires Shape() && CacheOk() && ClusterValid(first) && done0 < len
      requires geo.Chain(first, index0) == Some(cluster0) && geo.Index(offset + done0) == index0
      requires at + len <= out.Length && out != sectorBuffer && out != fatBuffer && out != block.bounce
      requires geo.Holds(first, offset, out[at..at + done0])
      modifies this`fatBufferLba, this`fatBufferValid, this`steps, sectorBuffer, fatBuffer, out
      modifies block`clock, block`log, block`failed, block`lost, block.bounce
      ensures CacheOk() && block.failed >= old(block.failed) && done0 <= done <= len
      ensures geo.Chain(first, index) == Some(cluster) && geo.Holds(first, offset, out[at..at + done])
      ensures forall i | 0 <= i < out.Length && !(at <= i < at + done) :: out[i] == old(out[i])
      ensures index <= geo.Index(offset + done) <= index + 1
      ensures ok ==> done0 < done && (done < len ==> geo.Index(offset + done) == index)
      ensures steps == old(steps) + index - index0
      ensures !ok ==> block.failed > old(block.failed) || !geo.HasByte(first, offset + done)
      ensures old(block.clock) <= block.clock
      ensures old(Healthy(first)) ==> block.failed == old(block.failed)
    {
      hide FatFormat.Geometry.Chain, FatFormat.Geometry.HasByte, FatFormat.Geometry.Holds, Shape, Fits, CacheOk;
      ShapeFacts();
      var take;
      ok, take := FilePiece(first, index0, cluster0, offset, done0, len, out, at);
      done, index, cluster := done0 + take, index0, cluster0;
      if ok && done < len && (offset + done) % (geo.spc * 512) == 0 {
        assert geo.Within(offset + done) == 0;
        var next;
        ok, next := Advance(first, index, cluster);
        geo.HasByteIs(first, offset + done);
        if ok {
          index, cluster := index + 1, next;
        }
      }
    }

    /** The second loop of FatReadAt: copy pieces, moving along the chain at cluster boundaries. */
    method ReadPieces(first: nat, index0: nat, cluster0: nat, offset: nat, len: nat, out: array<byte>, at: nat)
      returns (done: nat, index: nat, cluster: nat)
      requires Shape() && CacheOk() && ClusterValid(first)
      requires geo.Chain(first, index0) == Some(cluster0) && geo.Index(offset) == index0
      requires at + len <= out.Length && out != sectorBuffer && out != fatBuffer && out != block.bounce
      modifies this`fatBufferLba, this`fatBufferValid, this`steps, sectorBuffer, fatBuffer, out
      modifies block`clock, block`log, block`failed, block`lost, block.bounce
      ensures CacheOk() && block.failed >= old(block.failed) && done <= len
      ensures geo.Chain(first, index) == Some(cluster) && geo.Holds(first, offset, out[at..at + done])
      ensures forall i | 0 <= i < out.Length && !(at <= i < at + done) :: out[i] == old(out[i])
      ensures index <= geo.Index(offset + done) <= index + 1
      ensures steps == old(steps) + index - index0
      ensures block.failed == old(block.failed) ==> geo.StoppedAt(first, offset, len, done)
      ensures old(block.clock) <= block.clock
      ensures old(Healthy(first)) ==> block.failed == old(block.failed)
    {
      hide FatFormat.Geometry.Chain, FatFormat.Geometry.HasByte, FatFormat.Geometry.Holds, Shape, Fits, CacheOk;
      ShapeFacts();
      geo.HoldsNothing(first, offset);
      assert out[at..at] == [];
      done, index, cluster := 0, index0, cluster0;
      var ok := true;
      ghost var healthy := Healthy(first);
      while ok && done < len
        invariant CacheOk() && block.failed >= old(block.failed) && done <= len
        invariant geo.Chain(first, index) == Some(cluster) && geo.Holds(first, offset, out[at..at + done])
        invariant forall i | 0 <= i < out.Length && !(at <= i < at + done) :: out[i] == old(out[i])
        invariant index <= geo.Index(offset + done) <= index + 1
        invariant ok && done < len ==> geo.Index(offset + done) == index
        invariant steps == old(steps) + index - index0
        invariant !ok ==> block.failed > old(block.failed) || !geo.HasByte(first, offset + done)
        invariant old(block.clock) <= block.clock
        invariant healthy ==> Healthy(first) && block.failed == old(block.failed)
        decreases ok, len - done
      {
        ok, done, index, cluster := CopyStep(first, index, cluster, offset, done, len, out, at);
      }
    }

    method Park(first: nat, index: nat, cluster: nat)
      requires Shape() && CacheOk() && geo.Chain(first, index) == Some(cluster)
      modifies this`cursorFirst, this`cursorIndex, this`cursorCluster
      ensures Valid() && cursorFirst == first && cursorIndex == index && cursorCluster == cluster
    {
      cursorFirst := first;
      cursorIndex := index;
      cursorCluster := cluster;
    }

    /** FatReadAt past its argument checks: seek, copy, and store the cursor unless the seek failed. */
    method ReadChain(first: nat, offset: nat, out: array<byte>, at: nat, len: nat)
      returns (done: nat, ghost parked: bool)
      requires Valid() && ClusterValid(first) && at + len <= out.Length
      requires out != sectorBuffer && out != fatBuffer && out != block.bounce
      modifies this`fatBufferLba, this`fatBufferValid, this`cursorFirst, this`cursorIndex, this`cursorCluster
      modifies this`steps, sectorBuffer, fatBuffer, out, block`clock, block`log, block`failed, block`lost, block.bounce
      ensures Valid() && block.failed >= old(block.failed)
      ensures done <= len && geo.Holds(first, offset, out[at..at + done])
      ensures forall i | 0 <= i < out.Length && !(at <= i < at + done) :: out[i] == old(out[i])
      ensures block.failed == old(block.failed) ==> geo.StoppedAt(first, offset, len, done)
      ensures old(block.clock) <= block.clock
      ensures old(Healthy(first)) ==> block.failed == old(block.failed) && Healthy(first)
      ensures parked ==> && cursorFirst == first && cursorIndex <= geo.Index(offset + done) <= cursorIndex + 1
                         && ClusterValid(cursorCluster)
                         && steps == old(steps) + cursorIndex - old(StartIndex(first, geo.Index(offset)))
      ensures !parked ==> && done == 0 && cursorFirst == old(cursorFirst) && cursorIndex == old(cursorIndex)
                          && cursorCluster == old(cursorCluster)
                          && old(steps) <= steps <
                               old(steps) + geo.Index(offset) - old(StartIndex(first, geo.Index(offset)))
    {
      hide FatFormat.Geometry.Chain, FatFormat.Geometry.Holds, Shape, CacheOk, CursorOk, Fits, FatFormat.Geometry.Index,
        FatFormat.Geometry.StoppedAt, StartIndex;
      ShapeFacts();
      geo.HoldsNothing(first, offset);
      assert out[at..at] == [];
      var want := Quot(offset, geo.spc * 512);
      geo.IndexIs(offset);
      var ok, cluster := Seek(first, want);
      done, parked := 0, ok;
      if ok {
        var index;
        done, index, cluster := ReadPieces(first, want, cluster, offset, len, out, at);
        Park(first, index, cluster);
      } else {
        geo.StoppedAtOnce(first, offset, len);
      }
    }

    /**
     * FatReadAt, writing at `out[at..]`. Under any failures the bytes delivered are a prefix of the file's bytes at
     * `offset`; when no read fails, only the wanted length or the end of the chain ends them. In a file whose clusters
     * follow each other that is one stretch of the disk. `parked` says that the cursor was stored.
     */
    method ReadAt(file: Entry, offset: nat, out: array<byte>, at: nat, length: nat)
      returns (done: nat, ghost parked: bool)
      requires Valid() && file.size < U32 && offset < U32 && length < U32
      requires at + Want(file, offset, length) <= out.Length
      requires out != sectorBuffer && out != fatBuffer && out != block.bounce
      modifies this`fatBufferLba, this`fatBufferValid, this`cursorFirst, this`cursorIndex, this`cursorCluster
      modifies this`steps, sectorBuffer, fatBuffer, out, block`clock, block`log, block`failed, block`lost, block.bounce
      ensures Valid() && block.failed >= old(block.failed)
      ensures done <= Want(file, offset, length) && geo.Holds(file.cluster, offset, out[at..at + done])
      ensures forall i | 0 <= i < out.Length && !(at <= i < at + done) :: out[i] == old(out[i])
      ensures block.failed == old(block.failed) ==>
                geo.StoppedAt(file.cluster, offset, Want(file, offset, length), done)
      ensures done <= length
      ensures done > 0 ==> !file.IsDir() && ClusterValid(file.cluster) && offset + done <= file.size
      ensures block.failed == old(block.failed) && !file.IsDir() && offset < file.size &&
              geo.HasBytes(file.cluster, offset, Min(length, file.size - offset)) ==>
                done == Min(length, file.size - offset)
      ensures file.cluster >= 2 ==>
                forall n: nat | geo.Consecutive(file.cluster, n) && offset + done <= Times(n, geo.spc * 512) ::
                  var lba := geo.startLba + geo.firstData + Times(file.cluster - 2, geo.spc);
                  out[at..at + done] == Slice(geo.content, lba * 512 + offset, done)
      ensures old(block.clock) <= block.clock
      ensures old(Healthy(file.cluster)) ==> block.failed == old(block.failed) && Healthy(file.cluster)
      ensures parked ==> && cursorFirst == file.cluster && cursorIndex <= geo.Index(offset + done) <= cursorIndex + 1
                         && ClusterValid(cursorCluster)
                         && steps == old(steps) + cursorIndex - old(StartIndex(file.cluster, geo.Index(offset)))
      ensures !parked ==> && done == 0 && cursorFirst == old(cursorFirst) && cursorIndex == old(cursorIndex)
                          && cursorCluster == old(cursorCluster)
                          && (steps == old(steps) || old(steps) <= steps <
                              old(steps) + geo.Index(offset) - old(StartIndex(file.cluster, geo.Index(offset))))
    {
      hide FatFormat.Geometry.Holds, FatFormat.Geometry.StoppedAt, FatFormat.Geometry.HasBytes,
        FatFormat.Geometry.Consecutive, Valid, Times;
      SpcPositive();
      done, parked := 0, false;
      geo.HoldsNothing(file.cluster, offset);
      assert out[at..at] == [];
      if !(file.IsDir() || offset >= file.size || !ClusterValid(file.cluster)) {
        var len := if length > file.size - offset then file.size - offset else length;
        done, parked := ReadChain(file.cluster, offset, out, at, len);
      } else {
        geo.StoppedAtOnce(file.cluster, offset, 0);
      }
      ReadInFull(file, offset, length, done);
      InOneStretch(file.cluster, offset, out[at..at + done]);
    }

    /** A read that nothing interrupted delivers everything asked for that the chain and the size cover. */
    lemma ReadInFull(file: Entry, offset: nat, length: nat, done: nat)
      requires geo.spc > 0 && done <= Want(file, offset, length)
      ensures geo.StoppedAt(file.cluster, offset, Want(file, offset, length), done) && !file.IsDir() &&
              offset < file.size && geo.HasBytes(file.cluster, offset, Min(length, file.size - offset)) ==>
                done == Min(length, file.size - offset)
    {
      hide FatFormat.Geometry.Chain;
      var n := if offset < file.size then Min(length, file.size - offset) else 0;
      if n > 0 && geo.HasBytes(file.cluster, offset, n) {
        assert geo.HasByte(file.cluster, offset);
        geo.ChainBegins(file.cluster, geo.Index(offset));
      }
    }

    lemma InOneStretch(first: nat, offset: nat, s: seq<byte>)
      requires geo.spc > 0 && geo.Holds(first, offset, s)
      ensures first >= 2 ==>
                forall n: nat | geo.Consecutive(first, n) && offset + |s| <= Times(n, geo.spc * 512) ::
                  var lba := geo.startLba + geo.firstData + Times(first - 2, geo.spc);
                  s == Slice(geo.content, lba * 512 + offset, |s|)
    {
      hide FatFormat.Geometry.Holds, FatFormat.Geometry.Consecutive, Times, Slice;
      if first >= 2 {
        forall n: nat | geo.Consecutive(first, n) && offset + |s| <= Times(n, geo.spc * 512)
          ensures var lba := geo.startLba + geo.firstData + Times(first - 2, geo.spc);
                  s == Slice(geo.content, lba * 512 + offset, |s|)
        {
          geo.ConsecutiveBytes(first, n, offset, s);
        }
      }
    }

    /**
     * Reads a file from its start in pieces of any sizes. However the pieces fall and whichever reads fail, the
     * walk along the chain takes no more steps in total than the chain position it ends at. When no read fails, a
     * plain file is read up to the lengths' sum, its size or the end of its chain, whichever comes first.
     */
    method ReadSequentially(file: Entry, lengths: seq<nat>, out: array<byte>) returns (total: nat, ghost parked: bool)
      requires Valid() && file.size < U32 && file.size <= out.Length
      requires forall k | 0 <= k < |lengths| :: lengths[k] < U32
      requires out != sectorBuffer && out != fatBuffer && out != block.bounce
      modifies this`fatBufferLba, this`fatBufferValid, this`cursorFirst, this`cursorIndex, this`cursorCluster
      modifies this`steps, sectorBuffer, fatBuffer, out, block`clock, block`log, block`failed, block`lost, block.bounce
      ensures Valid() && total <= file.size && geo.Holds(file.cluster, 0, out[..total])
      ensures block.failed >= old(block.failed) && old(block.clock) <= block.clock
      ensures block.failed == old(block.failed) && !file.IsDir() && ClusterValid(file.cluster) ==>
                geo.StoppedAt(file.cluster, 0, Min(Sum(lengths), file.size), total)
      ensures old(Healthy(file.cluster)) ==> block.failed == old(block.failed) && Healthy(file.cluster)
      ensures parked ==> && cursorFirst == file.cluster && cursorIndex <= geo.Index(total)
                         && steps - old(steps) <= cursorIndex
      ensures !parked ==> steps == old(steps) && total == 0
    {
      hide Valid, FatFormat.Geometry.Holds, FatFormat.Geometry.StoppedAt, FatFormat.Geometry.Index, Healthy,
        ClusterValid, Sum, Following;
      SpcPositive();
      geo.HoldsNothing(file.cluster, 0);
      assert out[..0] == [];
      total, parked := 0, false;
      ghost var first, healthy := file.cluster, Healthy(file.cluster);
      assert lengths[..0] == [];
      SumNothing();
      geo.StoppedNow(first);
      for k := 0 to |lengths|
        invariant Valid() && total <= file.size && geo.Holds(first, 0, out[..total])
        invariant block.failed >= old(block.failed) && old(block.clock) <= block.clock
        invariant healthy ==> Healthy(first) && block.failed == old(block.failed)
        invariant block.failed == old(block.failed) && !file.IsDir() && ClusterValid(first) ==>
                    geo.StoppedAt(first, 0, Min(Sum(lengths[..k]), file.size), total)
        invariant if parked then Following(file.cluster, total, old(steps)) else steps == old(steps) && total == 0
      {
        ghost var stored;
        ghost var was := total;
        total, stored := ReadNext(file, lengths[k], out, total, parked, old(steps));
        SumNext(lengths, k);
        if block.failed == old(block.failed) && !file.IsDir() && ClusterValid(first) {
          StoppedNext(file, Sum(lengths[..k]), was, lengths[k], out[..total], total - was);
        }
        parked := parked || stored;
      }
      assert lengths[..|lengths|] == lengths;
      if parked {
        FollowingWas(first, total, old(steps));
      }
    }

    lemma SpcPositive()
      requires Valid()
      ensures geo.spc > 0
    {
    }

    lemma FollowingWas(first: nat, total: nat, steps0: nat)
      requires geo.spc > 0 && Following(first, total, steps0)
      ensures cursorFirst == first && cursorIndex <= geo.Index(total) && steps - steps0 <= cursorIndex
    {
    }

    /** A read that goes on where another stopped. */
    lemma StoppedNext(file: Entry, sum: nat, total: nat, length: nat, got: seq<byte>, done: nat)
      requires geo.spc > 0 && !file.IsDir() && ClusterValid(file.cluster) && total <= file.size
      requires |got| == total + done && geo.Holds(file.cluster, 0, got)
      requires geo.StoppedAt(file.cluster, 0, Min(sum, file.size), total)
      requires geo.StoppedAt(file.cluster, total, Want(file, total, length), done)
      ensures geo.StoppedAt(file.cluster, 0, Min(sum + length, file.size), total + done)
    {
      assert done > 0 ==> geo.HasByte(file.cluster, total);
    }

    /** The cursor follows a sequential reader that has reached byte `total`, and has paid for every step. */
    ghost predicate Following(first: nat, total: nat, steps0: nat)
      requires geo.spc > 0
      reads this`cursorFirst, this`cursorIndex, this`cursorCluster, this`steps
    {
      && cursorFirst == first && ClusterValid(cursorCluster)
      && cursorIndex <= geo.Index(total) <= cursorIndex + 1 && steps - steps0 <= cursorIndex
    }

    lemma FollowingIs(first: nat, total: nat, steps0: nat)
      requires geo.spc > 0 && cursorFirst == first && ClusterValid(cursorCluster)
      requires cursorIndex <= geo.Index(total) <= cursorIndex + 1 && steps - steps0 <= cursorIndex
      ensures Following(first, total, steps0)
    {
    }

    /** Where the walk for the next piece starts. */
    lemma NextStart(first: nat, total: nat, parked: bool, steps0: nat)
      requires geo.spc > 0
      requires if parked then Following(first, total, steps0) else steps == steps0 && total == 0
      ensures parked ==> && cursorFirst == first && ClusterValid(cursorCluster)
                         && cursorIndex <= geo.Index(total) <= cursorIndex + 1 && steps - steps0 <= cursorIndex
                         && StartIndex(first, geo.Index(total)) == cursorIndex
      ensures !parked ==> geo.Index(total) == 0 && StartIndex(first, geo.Index(total)) == 0
    {
      geo.DivZero();
    }

    lemma WantInside(file: Entry, offset: nat, length: nat)
      requires offset <= file.size
      ensures Want(file, offset, length) <= file.size - offset
    {
    }

    /** One piece of a sequential read. */
    method ReadNext(file: Entry, length: nat, out: array<byte>, total0: nat, ghost parked: bool, ghost steps0: nat)
      returns (total: nat, ghost stored: bool)
      requires Valid() && geo.spc > 0 && file.size < U32 && total0 <= file.size <= out.Length && length < U32
      requires out != sectorBuffer && out != fatBuffer && out != block.bounce
      requires geo.Holds(file.cluster, 0, out[..total0])
      requires if parked then Following(file.cluster, total0, steps0) else steps == steps0 && total0 == 0
      modifies this`fatBufferLba, this`fatBufferValid, this`cursorFirst, this`cursorIndex, this`cursorCluster
      modifies this`steps, sectorBuffer, fatBuffer, out, block`clock, block`log, block`failed, block`lost, block.bounce
      ensures Valid() && total0 <= total <= file.size && geo.Holds(file.cluster, 0, out[..total])
      ensures block.failed >= old(block.failed) && old(block.clock) <= block.clock
      ensures block.failed == old(block.failed) ==>
                geo.StoppedAt(file.cluster, total0, Want(file, total0, length), total - total0)
      ensures old(Healthy(file.cluster)) ==> block.failed == old(block.failed) && Healthy(file.cluster)
      ensures if parked || stored then Following(file.cluster, total, steps0) else steps == steps0 && total == 0
    {
      hide Valid, Shape, FatFormat.Geometry.Holds, FatFormat.Geometry.Index, FatFormat.Geometry.StoppedAt, StartIndex,
        Following, ClusterValid, Want, Healthy;
      ghost var before := out[..total0];
      WantInside(file, total0, length);
      NextStart(file.cluster, total0, parked, steps0);
      var done;
      done, stored := ReadAt(file, total0, out, total0, length);
      if parked || stored {
        FollowingIs(file.cluster, total0 + done, steps0);
      }
      assert out[..total0] == before;
      geo.HoldsConcat(file.cluster, 0, before, out[total0..total0 + done]);
      assert out[..total0 + done] == before + out[total0..total0 + done];
      total := total0 + done;
    }

    // ---- directory listings ----

    /** Whether LfnValid, LfnSum, LfnCount and the Lfn buffer stand for `l`; the buffer counts only when valid. */
    ghost predicate Represents(v: LfnVars, units: seq<nat>, l: Lfn) {
      if v.valid then l == Name(v.sum, v.count, units) else l == NoName
    }

    lemma NothingYet(units: seq<nat>)
      ensures Represents(LfnVars(false, 0, 0), units, Start().lfn)
    {
    }

    method Checksum(e: DirSlot) returns (sum: byte)
      ensures sum == ShortChecksum(e, 11)
    {
      sum := 0;
      for i := 0 to 11
        invariant sum == ShortChecksum(e, i)
      {
        sum := ((sum as int % 2) * 128 + sum as int / 2 + e[i] as int) % 256;
      }
    }

    /** Copies an 8.3 field to the name buffer. */
    method CopyField(e: DirSlot, from: nat, end: nat, lower: bool, pos0: nat) returns (pos: nat)
      requires from <= end <= 11 && pos0 + (end - from) <= 12 && statics.name.Length == FAT_NAME_MAX
      modifies statics.name
      ensures pos0 <= pos <= pos0 + (end - from)
      ensures statics.name[..pos] == old(statics.name[..pos0]) + ShortField(e, from, end, lower)
    {
      hide LowerAscii, ShortField;
      var i := from;
      pos := pos0;
      ghost var start, written := statics.name[..pos0], "";
      while i < end && e[i] != 0x20
        invariant from <= i <= end && pos == pos0 + (i - from)
        invariant statics.name[..pos] == start + written
        invariant written + ShortField(e, i, end, lower) == ShortField(e, from, end, lower)
        decreases end - i
      {
        ShortFieldStep(e, i, end, lower);
        var c := e[i] as char;
        if i == 0 && e[0] == 0x05 {
          c := 0xE5 as char;
        }
        if lower {
          c := LowerAscii(c);
        }
        Regroup(written, c, ShortField(e, i + 1, end, lower));
        StoreChar(pos, c);
        AppendTo(start, written, c);
        written := written + [c];
        pos := pos + 1;
        i := i + 1;
      }
      ShortFieldStep(e, i, end, lower);
      NothingMore(written);
    }

    method StoreChar(pos: nat, c: char)
      requires pos < statics.name.Length
      modifies statics.name
      ensures statics.name[..pos + 1] == old(statics.name[..pos]) + [c]
    {
      statics.name[pos] := c;
    }

    lemma AppendTo(start: string, written: string, c: char)
      ensures start + written + [c] == start + (written + [c])
    {
    }

    /** BuildShortName, into the static entry's name buffer. */
    method BuildShortName(e: DirSlot)
      requires statics.name.Length == FAT_NAME_MAX
      modifies statics.name
      ensures CStr(statics.name[..]) == CStr(ShortRaw(e))
    {
      hide ShortField, CStr;
      var pos := CopyField(e, 0, 8, e[12] / 8 % 2 == 1, 0);
      if e[8] != 0x20 {
        ghost var before := statics.name[..pos];
        statics.name[pos] := '.';
        assert statics.name[..pos + 1] == before + ".";
        pos := CopyField(e, 8, 11, e[12] / 16 % 2 == 1, pos + 1);
      }
      assert statics.name[..pos] == ShortRaw(e);
      statics.name[pos] := '\0';
      assert statics.name[..pos] == ShortRaw(e);
      CStrCut(statics.name[..], pos);
    }

    lemma NothingMore(s: string)
      ensures s + "" == s
    {
    }

    lemma Regroup(front: string, c: char, back: string)
      ensures front + ([c] + back) == front + [c] + back
    {
    }

    /** The long-name branch: the units up to a terminator, '?' for anything outside ASCII. */
    method BuildLongName(count: nat)
      requires statics.name.Length == FAT_NAME_MAX && statics.lfn.Length == LFN_UNITS
      modifies statics.name
      ensures CStr(statics.name[..]) == DecodeUnits(statics.lfn[..], 0, Min(count * 13, LFN_UNITS))
    {
      hide DecodeUnits, CStr, UnitChar;
      var pos := 0;
      var max := count * 13;
      if max > LFN_UNITS {
        max := LFN_UNITS;
      }
      ghost var units := statics.lfn[..];
      ghost var want := DecodeUnits(units, 0, max);
      while pos < max && pos < FAT_NAME_MAX - 1 && statics.lfn[pos] != 0 && statics.lfn[pos] != 0xFFFF
        invariant 0 <= pos <= max && pos <= FAT_NAME_MAX - 1
        invariant statics.name[..pos] + DecodeUnits(units, pos, max) == want
      {
        DecodeStep(units, pos, max);
        assert statics.lfn[pos] == units[pos];
        ghost var before := statics.name[..pos];
        var c := UnitChar(statics.lfn[pos]);
        statics.name[pos] := c;
        assert statics.name[..pos + 1] == before + [c];
        Regroup(before, c, DecodeUnits(units, pos + 1, max));
        pos := pos + 1;
      }
      DecodeStep(units, pos, max);
      DecodeClean(units, 0, max);
      NothingMore(statics.name[..pos]);
      statics.name[pos] := '\0';
      assert statics.name[..pos] == want;
      CStrAt(statics.name[..], pos);
    }

    method ResetUnits()
      requires statics.lfn.Length == LFN_UNITS
      modifies statics.lfn
      ensures statics.lfn[..] == Blank()
    {
      for i := 0 to LFN_UNITS
        invariant forall k | 0 <= k < i :: statics.lfn[k] == 0xFFFF
      {
        statics.lfn[i] := 0xFFFF;
      }
    }

    method StoreUnits(e: DirSlot, at: nat)
      requires statics.lfn.Length == LFN_UNITS && at + 13 <= LFN_UNITS
      modifies statics.lfn
      ensures statics.lfn[..] == old(statics.lfn[..at]) + SlotUnits(e) + old(statics.lfn[at + 13..])
    {
      ghost var units := SlotUnits(e);
      for k := 0 to 13
        invariant forall j | 0 <= j < LFN_UNITS :: statics.lfn[j] ==
                    if at <= j < at + k then units[j - at] else old(statics.lfn[j])
      {
        statics.lfn[at + k] := Le16(e, LFN_OFFSETS[k]);
      }
    }

    /** A slot with attribute 0x0F. */
    method VisitLongSlot(e: DirSlot, v: LfnVars, ghost l: Lfn) returns (v': LfnVars)
      requires statics.lfn.Length == LFN_UNITS && Represents(v, statics.lfn[..], l)
      modifies statics.lfn
      ensures Represents(v', statics.lfn[..], LfnStep(l, e))
    {
      var number := e[0] as int % 32;
      v' := v;
      if e[0] / 64 % 2 == 1 {
        v' := LfnVars(true, e[13], number);
        ResetUnits();
      }
      if v'.valid && 1 <= number <= MAX_LFN_ENTRIES && e[13] == v'.sum {
        StoreUnits(e, (number - 1) * 13);
      } else {
        v' := v'.(valid := false);
      }
    }

    /** The body of FatListDir's innermost loop. */
    method Visit(e: DirSlot, v: LfnVars, delivered: seq<Entry>, stop: Callback, ghost l: Lfn)
      returns (end: bool, v': LfnVars, delivered': seq<Entry>)
      requires statics.lfn.Length == LFN_UNITS && statics.name.Length == FAT_NAME_MAX
      requires Represents(v, statics.lfn[..], l)
      modifies statics.lfn, statics.name
      ensures var r := StepSlot(Scan(l, delivered, false), e, stop);
              end == r.done && delivered' == r.out && Represents(v', statics.lfn[..], r.lfn)
    {
      end, v', delivered' := false, v, delivered;
      if e[0] == 0x00 {
        end := true;
      } else if e[0] == 0xE5 {
        v' := v.(valid := false);
      } else if e[11] == 0x0F {
        v' := VisitLongSlot(e, v, l);
      } else if e[11] / 8 % 2 == 1 {
        v' := v.(valid := false);
      } else {
        var sum := Checksum(e);
        if v.valid && sum == v.sum {
          BuildLongName(v.count);
        } else {
          BuildShortName(e);
        }
        v' := v.(valid := false);
        var name := CStr(statics.name[..]);
        assert name == EntryName(l, e);
        if name != "." && name != ".." {
          var entry := Entry(name, e[11], Le32(e, 28), Le16(e, 20) * 0x1_0000 + Le16(e, 26));
          delivered' := delivered + [entry];
          end := stop(delivered');
        }
      }
    }

    /** The sixteen slots of the sector that starts at `base` on the disk, now in the sector buffer. */
    method ScanSector(v0: LfnVars, delivered0: seq<Entry>, stop: Callback, ghost slots: seq<DirSlot>, ghost s: Scan)
      returns (end: bool, v: LfnVars, delivered: seq<Entry>, ghost n: nat)
      requires sectorBuffer.Length == 4096 && |slots| == 16
      requires forall e | 0 <= e < 16 :: slots[e] == sectorBuffer[e * 32..e * 32 + 32]
      requires statics.lfn.Length == LFN_UNITS && statics.name.Length == FAT_NAME_MAX
      requires s == Scan(s.lfn, delivered0, false) && Represents(v0, statics.lfn[..], s.lfn)
      modifies statics.lfn, statics.name
      ensures n <= 16 && (!end ==> n == 16)
      ensures var r := Fold(s, slots[..n], stop);
              end == r.done && delivered == r.out && Represents(v, statics.lfn[..], r.lfn)
    {
      hide StepSlot;
      end, v, delivered, n := false, v0, delivered0, 0;
      ghost var r := s;
      for e := 0 to 16
        invariant n == e && r == Fold(s, slots[..e], stop) && r == Scan(r.lfn, delivered, false) && !end
        invariant Represents(v, statics.lfn[..], r.lfn)
      {
        FoldSnoc(s, slots, e, stop);
        var slot := sectorBuffer[e * 32..e * 32 + 32];
        end, v, delivered := Visit(slot, v, delivered, stop, r.lfn);
        r := StepSlot(r, slots[e], stop);
        n := e + 1;
        if end {
          return;
        }
      }
    }

    /** Reads and scans one sector of a directory cluster. */
    method ListSector(cluster: nat, sector: nat, v0: LfnVars, delivered0: seq<Entry>, stop: Callback, ghost s: Scan)
      returns (ok: bool, end: bool, v: LfnVars, delivered: seq<Entry>, ghost n: nat)
      requires Shape() && ClusterValid(cluster) && sector < geo.spc
      requires s == Scan(s.lfn, delivered0, false) && Represents(v0, statics.lfn[..], s.lfn)
      modifies sectorBuffer, statics.lfn, statics.name, block`clock, block`log, block`failed, block`lost, block.bounce
      ensures if ok then block.failed == old(block.failed) else block.failed > old(block.failed) && n == 0
      ensures old(block.clock) <= block.clock
      ensures old(block.Answering()) && ClusterInside(cluster) ==> ok && block.Answering()
      ensures Simple() ==> block.clock == old(block.clock) + 1 && (ok <==> block.answers(old(block.clock)))
      ensures n <= 16 && (ok && !end ==> n == 16)
      ensures var r := Fold(s, geo.ClusterSlots(cluster)[sector * 16..sector * 16 + n], stop);
              end == r.done && delivered == r.out && Represents(v, statics.lfn[..], r.lfn)
    {
      hide Shape, Fits, FatFormat.Geometry.ClusterLba, FatFormat.Geometry.ClusterSlots, Fold, Represents, Common.Slice,
        BlockDev.InRange, BlockDev.GoodRequest, BlockDev.BlockLayer.Valid, BlockDev.BlockLayer.Answering, ClusterInside;
      ShapeFacts();
      geo.SlotsLength(cluster);
      end, v, delivered, n := false, v0, delivered0, 0;
      ClusterAddress(geo, cluster, sector, 1);
      var lba := geo.ClusterLba(cluster) + sector;
      ok := block.ReadFrom(device, lba, 1, sectorBuffer, 0);
      if Simple() {
        SimpleInRange(lba);
      }
      if ClusterInside(cluster) {
        PieceInside(cluster, sector, 1);
      }
      FoldNothing(s, geo.ClusterSlots(cluster)[sector * 16..sector * 16 + 0], stop);
      if ok {
        ghost var slots := geo.ClusterSlots(cluster)[sector * 16..sector * 16 + 16];
        forall e | 0 <= e < 16
          ensures slots[e] == sectorBuffer[e * 32..e * 32 + 32]
        {
          var slot, whole := sectorBuffer[e * 32..e * 32 + 32], sectorBuffer[0..512];
          geo.SlotInSector(cluster, sector, e, whole);
          assert forall k | 0 <= k < 32 :: slot[k] == whole[e * 32 + k];
          assert slot == whole[e * 32..e * 32 + 32];
        }
        end, v, delivered, n := ScanSector(v0, delivered0, stop, slots, s);
        assert slots[..n] == geo.ClusterSlots(cluster)[sector * 16..sector * 16 + n];
      }
    }

    /** The sectors of one directory cluster. */
    method ListCluster(cluster: nat, v0: LfnVars, delivered0: seq<Entry>, stop: Callback, ghost s: Scan)
      returns (ok: bool, end: bool, v: LfnVars, delivered: seq<Entry>, ghost n: nat)
      requires Shape() && ClusterValid(cluster)
      requires s == Scan(s.lfn, delivered0, false) && Represents(v0, statics.lfn[..], s.lfn)
      modifies sectorBuffer, statics.lfn, statics.name, block`clock, block`log, block`failed, block`lost, block.bounce
      ensures if ok then block.failed == old(block.failed) else block.failed > old(block.failed) && !end
      ensures old(block.clock) <= block.clock
      ensures old(block.Answering()) && ClusterInside(cluster) ==> ok && block.Answering()
      ensures Simple() && !ok ==> exists k :: old(block.clock) <= k < old(block.clock) + geo.spc && !block.answers(k)
      ensures Simple() && ok && !end ==> block.clock == old(block.clock) + geo.spc
      ensures n <= geo.spc * 16 && (ok && !end ==> n == geo.spc * 16) && (!ok ==> n < geo.spc * 16)
      ensures var r := Fold(s, geo.ClusterSlots(cluster)[..n], stop);
              end == r.done && delivered == r.out && Represents(v, statics.lfn[..], r.lfn)
    {
      hide Shape, FatFormat.Geometry.ClusterSlots, Fold, Represents, BlockDev.BlockLayer.Answering, ClusterInside;
      ShapeFacts();
      geo.SlotsLength(cluster);
      ghost var answering := block.Answering();
      ok, end, v, delivered, n := true, false, v0, delivered0, 0;
      ghost var slots := geo.ClusterSlots(cluster);
      ghost var r := s;
      FoldNothing(s, slots[..0], stop);
      var sector := 0;
      while ok && !end && sector < geo.spc
        invariant sector <= geo.spc && n <= sector * 16 && (ok && !end ==> n == sector * 16)
        invariant if ok then block.failed == old(block.failed) else block.failed > old(block.failed) && !end
        invariant !ok ==> n < geo.spc * 16
        invariant old(block.clock) <= block.clock && (answering && ClusterInside(cluster) ==> ok && block.Answering())
        invariant Simple() ==> block.clock == old(block.clock) + sector
        invariant Simple() && !ok ==> sector > 0 && !block.answers(old(block.clock) + (sector - 1))
        invariant r == Fold(s, slots[..n], stop) && r == Scan(r.lfn, delivered, end)
        invariant Represents(v, statics.lfn[..], r.lfn)
      {
        ghost var m;
        ok, end, v, delivered, m := ListSector(cluster, sector, v, delivered, stop, r);
        FoldAppend(s, slots[..n], slots[n..n + m], stop);
        assert slots[..n + m] == slots[..n] + slots[n..n + m];
        r := Fold(r, slots[n..n + m], stop);
        n := n + m;
        sector := sector + 1;
      }
    }

    /**
     * The sectors of a directory's first cluster can be read and do not end the listing, and its FAT sector cannot
     * be read.
     */
    ghost predicate FatTrap(dirCluster: nat, stop: Callback)
      reads this`fatBufferValid, block`devices, block`clock
    {
      && Simple() && !fatBufferValid && ClusterValid(dirCluster)
      && (forall k | block.clock <= k < block.clock + geo.spc :: block.answers(k))
      && !block.answers(block.clock + geo.spc)
      && !Fold(Start(), geo.ClusterSlots(dirCluster), stop).done
    }

    /**
     * FatListDir. The entries delivered are the fold over the first `seen` slots of the directory, whatever the
     * static buffers held. The status is 0 exactly when a directory sector could not be read. When a FAT sector could
     * not be read the status is 1 all the same, and the listing ends after the cluster whose successor was asked for,
     * the directory's `clusters`-th. In every other case the listing is complete.
     */
    method ListDir(dirCluster: nat, stop: Callback)
      returns (status: bool, delivered: seq<Entry>, ghost seen: nat, ghost dirFailed: bool, ghost fatFailed: bool,
               ghost clusters: nat)
      requires Valid()
      modifies this`fatBufferLba, this`fatBufferValid, fatBuffer, sectorBuffer, statics.lfn, statics.name
      modifies block`clock, block`log, block`failed, block`lost, block.bounce
      ensures Valid() && block.failed >= old(block.failed)
      ensures seen <= |geo.DirSlots(dirCluster, MAX_CHAIN)|
      ensures delivered == Fold(Start(), geo.DirSlots(dirCluster, MAX_CHAIN)[..seen], stop).out
      ensures (status <==> !dirFailed) && (dirFailed ==> seen < |geo.DirSlots(dirCluster, MAX_CHAIN)|)
      ensures block.failed > old(block.failed) <==> dirFailed || fatFailed
      ensures !dirFailed && !fatFailed ==> delivered == Fold(Start(), geo.DirSlots(dirCluster, MAX_CHAIN), stop).out
      ensures fatFailed ==> && status && 1 <= clusters <= MAX_CHAIN && geo.Chain(dirCluster, clusters - 1).Some?
                            && delivered == Fold(Start(), geo.DirSlots(dirCluster, clusters), stop).out
      ensures old(FatTrap(dirCluster, stop)) ==> fatFailed && clusters == 1
      ensures old(block.clock) <= block.clock
      ensures old(Healthy(dirCluster)) ==> block.failed == old(block.failed) && Healthy(dirCluster)
    {
      hide Shape, CacheOk, CursorOk, FatFormat.Geometry.ClusterSlots, FatFormat.Geometry.FatEntry, Fold, Represents,
        FatFormat.Geometry.DirSlots, FatFormat.Geometry.Chain, Simple, Healthy, ClusterInside,
        BlockDev.BlockLayer.Answering;
      ShapeFacts();
      ghost var slots := geo.DirSlots(dirCluster, MAX_CHAIN);
      var v := LfnVars(false, 0, 0);
      delivered, seen, status, dirFailed, fatFailed, clusters := [], 0, true, false, false, 0;
      ghost var r, trap, healthy := Start(), FatTrap(dirCluster, stop), Healthy(dirCluster);
      FoldNothing(Start(), slots[..0], stop);
      NothingYet(statics.lfn[..]);
      geo.ChainStart(dirCluster);
      geo.DirSlotsEnd(dirCluster, 0);
      assert slots[seen..] == slots;
      var cluster, guard, end := dirCluster, 0, false;
      while status && !end && ClusterValid(cluster) && guard < MAX_CHAIN
        invariant CacheOk() && 0 <= guard <= MAX_CHAIN && 0 <= cluster
        invariant block.failed >= old(block.failed) && (block.failed > old(block.failed) <==> dirFailed || fatFailed)
        invariant (status <==> !dirFailed) && (dirFailed ==> seen < |slots|)
                  && (fatFailed ==> status && !end && !ClusterValid(cluster))
        invariant seen <= |slots| && r == Fold(Start(), slots[..seen], stop) && r == Scan(r.lfn, delivered, end)
        invariant Represents(v, statics.lfn[..], r.lfn)
        invariant end ==> r == Fold(Start(), slots, stop)
        invariant status && !end ==> slots[..seen] == geo.DirSlots(dirCluster, guard)
        invariant status && !end && !fatFailed ==> slots[seen..] == geo.DirSlots(cluster, MAX_CHAIN - guard)
        invariant status && !end && ClusterValid(cluster) ==> geo.Chain(dirCluster, guard) == Some(cluster)
        invariant fatFailed ==> clusters == guard >= 1 && geo.Chain(dirCluster, guard - 1).Some?
        invariant trap && guard == 0 ==> && block.clock == old(block.clock) && !fatBufferValid
                                         && status && !end && cluster == dirCluster
        invariant trap && guard > 0 ==> fatFailed && guard == 1
        invariant old(block.clock) <= block.clock && (healthy ==> Healthy(dirCluster) && !dirFailed && !fatFailed)
        decreases MAX_CHAIN - guard
      {
        geo.DirSlotsStep(cluster, MAX_CHAIN - guard);
        geo.DirSlotsSnoc(dirCluster, guard);
        geo.ChainStep(dirCluster, guard);
        label turn:
        if healthy {
          HealthyAt(dirCluster, guard);
        }
        guard := guard + 1;
        ghost var rest, clock := geo.DirSlots(geo.FatEntry(cluster), MAX_CHAIN - guard), block.clock;
        status, end, v, delivered, r, seen := ListNext(cluster, v, delivered, stop, slots, seen, rest, r);
        dirFailed := !status;
        if status && !end {
          ghost var failed := block.failed;
          cluster := NextCluster(cluster);
          fatFailed := block.failed > failed;
          clusters := guard;
        }
        if healthy {
          StaysHealthy@turn(dirCluster);
        }
      }
      geo.DirSlotsEnd(cluster, MAX_CHAIN - guard);
      assert status && !end && !fatFailed ==> slots[..seen] == slots;
    }

    /** One turn of FatListDir's outer loop: the cluster whose slots follow the `seen0` slots scanned so far. */
    method ListNext(cluster: nat, v0: LfnVars, delivered0: seq<Entry>, stop: Callback, ghost slots: seq<DirSlot>,
                    ghost seen0: nat, ghost rest: seq<DirSlot>, ghost s: Scan)
      returns (ok: bool, end: bool, v: LfnVars, delivered: seq<Entry>, ghost r: Scan, ghost seen: nat)
      requires Shape() && CacheOk() && ClusterValid(cluster)
      requires seen0 <= |slots| && slots[seen0..] == geo.ClusterSlots(cluster) + rest
      requires s == Fold(Start(), slots[..seen0], stop) && s == Scan(s.lfn, delivered0, false)
      requires Represents(v0, statics.lfn[..], s.lfn)
      modifies sectorBuffer, statics.lfn, statics.name, block`clock, block`log, block`failed, block`lost, block.bounce
      ensures CacheOk() && old(block.clock) <= block.clock
      ensures old(block.Answering()) && ClusterInside(cluster) ==> ok && block.Answering()
      ensures if ok then block.failed == old(block.failed) else block.failed > old(block.failed) && !end
      ensures Simple() && !ok ==> exists k :: old(block.clock) <= k < old(block.clock) + geo.spc && !block.answers(k)
      ensures Simple() && ok && !end ==> block.clock == old(block.clock) + geo.spc
      ensures end ==> Fold(s, geo.ClusterSlots(cluster), stop).done
      ensures !ok ==> seen < |slots|
      ensures seen0 <= seen <= |slots| && r == Fold(Start(), slots[..seen], stop)
      ensures r == Scan(r.lfn, delivered, end) && Represents(v, statics.lfn[..], r.lfn)
      ensures ok && !end ==> slots[seen..] == rest && slots[..seen] == slots[..seen0] + geo.ClusterSlots(cluster)
      ensures end ==> r == Fold(Start(), slots, stop)
    {
      hide Shape, CacheOk, FatFormat.Geometry.FatEntry, Fold, FatFormat.Geometry.ClusterSlots, Represents,
        BlockDev.BlockLayer.Answering, ClusterInside;
      ShapeFacts();
      ghost var here := geo.ClusterSlots(cluster);
      geo.SlotsLength(cluster);
      ghost var n;
      ok, end, v, delivered, n := ListCluster(cluster, v0, delivered0, stop, s);
      seen := seen0 + n;
      r := Fold(s, here[..n], stop);
      FoldAppend(Start(), slots[..seen0], here[..n], stop);
      assert slots == slots[..seen0] + (here + rest);
      assert slots[..seen] == slots[..seen0] + here[..n];
      if end {
        FoldAppend(s, here[..n], here[n..], stop);
        assert here == here[..n] + here[n..];
        FoldDone(r, here[n..], stop);
        FoldAppend(Start(), slots[..seen], slots[seen..], stop);
        assert slots == slots[..seen] + slots[seen..];
        FoldDone(r, slots[seen..], stop);
      } else if ok {
        assert slots[seen..] == rest;
        assert here[..n] == here;
      }
    }

    /** The comparison loop of NamesEqual. */
    static method CompareNames(a: string, b: string) returns (equal: bool)
      ensures equal == NamesEqual(a, b)
    {
      var i := 0;
      while i < |a| && i < |b|
        invariant 0 <= i <= |a| && i <= |b| && forall k | 0 <= k < i :: LowerAscii(a[k]) == LowerAscii(b[k])
      {
        if LowerAscii(a[i]) != LowerAscii(b[i]) {
          assert Lower(a)[i] != Lower(b)[i];
          return false;
        }
        i := i + 1;
      }
      equal := i == |a| && i == |b|;
      if equal {
        assert Lower(a) == Lower(b);
      }
    }

    /**
     * FatLookup. What it finds is the first match of the complete listing even if reads failed on the way; without
     * failures it finds one whenever there is one. The listing's own status is ignored.
     */
    method Lookup(dirCluster: nat, name: string) returns (r: Option<Entry>)
      requires Valid()
      modifies this`fatBufferLba, this`fatBufferValid, fatBuffer, sectorBuffer, statics.lfn, statics.name
      modifies block`clock, block`log, block`failed, block`lost, block.bounce
      ensures Valid() && block.failed >= old(block.failed)
      ensures r.Some? || block.failed == old(block.failed) ==> r == FirstMatch(geo.Listing(dirCluster), name)
      ensures old(block.clock) <= block.clock
      ensures old(Healthy(dirCluster)) ==> block.failed == old(block.failed) && Healthy(dirCluster)
    {
      var status, delivered;
      ghost var seen;
      ghost var dirFailed, fatFailed, clusters;
      status, delivered, seen, dirFailed, fatFailed, clusters := ListDir(dirCluster, Matcher(name));
      r := LastMatch(delivered, name);
      hide Valid, Fold, Matcher, Healthy;
      ghost var slots := geo.DirSlots(dirCluster, MAX_CHAIN);
      LookupIsFirstMatch(slots, seen, name);
      LookupIsFirstMatch(slots, |slots|, name);
      assert slots[..|slots|] == slots;
    }
  }

  // ---- a listing that is cut short without being reported ----

  /** A disk with a directory of two clusters: sixteen deleted slots, then a file "A" and the end. */
  function TwoClusters(i: nat): byte {
    if 1024 <= i < 1536 then 0xE5
    else if i == 520 then 3
    else if i == 1536 then 0x41
    else if 1537 <= i < 1547 then 0x20
    else 0
  }

  function TwoClusterVolume(): Geometry {
    Geometry(TwoClusters, 0, 1, 1, 2, 2)
  }

  lemma {:induction false} DeletedSlots(s: Scan, es: seq<DirSlot>, stop: Callback)
    requires !s.done && s.lfn == NoName && forall i | 0 <= i < |es| :: es[i][0] == 0xE5
    ensures Fold(s, es, stop) == s
    decreases |es|
  {
    if es != [] {
      DeletedSlots(s, es[1..], stop);
    }
  }

  lemma TwoClusterSlot(c: nat, k: nat, j: nat)
    requires 2 <= c <= 3 && k < 16 && j < 32
    ensures |TwoClusterVolume().ClusterSlots(c)| == 16
    ensures TwoClusterVolume().ClusterSlots(c)[k][j] == TwoClusters(c * 512 + k * 32 + j)
  {
    hide TwoClusters;
  }

  lemma TwoClusterFat(c: nat)
    requires 2 <= c <= 3
    ensures TwoClusterVolume().FatEntry(c) == if c == 2 then 3 else 0
  {
    var s := Slice(TwoClusters, 512 + c * 4, 4);
    assert s[0] == (if c == 2 then 3 else 0) && s[1] == s[2] == s[3] == 0;
  }

  /** The directory has one entry, and it is in the second cluster. */
  lemma TwoClusterListing()
    ensures var g := TwoClusterVolume();
            && g.DirSlots(2, 1) == g.ClusterSlots(2) && |g.Listing(2)| == 1
            && Fold(Start(), g.ClusterSlots(2), Never) == Start()
  {
    hide Geometry.ClusterSlots, Geometry.FatEntry, Geometry.DirSlots, Fold;
    var g := TwoClusterVolume();
    TwoClusterFat(2);
    TwoClusterFat(3);
    g.DirSlotsStep(2, MAX_CHAIN);
    g.DirSlotsStep(3, MAX_CHAIN - 1);
    g.DirSlotsEnd(0, MAX_CHAIN - 2);
    g.DirSlotsStep(2, 1);
    g.DirSlotsEnd(3, 0);
    var a, b := g.ClusterSlots(2), g.ClusterSlots(3);
    assert g.DirSlots(2, MAX_CHAIN) == a + b && g.DirSlots(2, 1) == a;
    TwoClusterSlot(2, 0, 0);
    forall k | 0 <= k < 16
      ensures a[k][0] == 0xE5
    {
      TwoClusterSlot(2, k, 0);
    }
    DeletedSlots(Start(), a, Never);
    FoldAppend(Start(), a, b, Never);
    TwoClusterSlot(3, 0, 0);
    TwoClusterSlot(3, 0, 11);
    TwoClusterSlot(3, 1, 0);
    OneEntry(b);
  }

  lemma OneEntry(es: seq<DirSlot>)
    requires |es| >= 2 && es[0][0] == 0x41 && es[0][11] == 0 && es[1][0] == 0
    ensures |Fold(Start(), es, Never).out| == 1
  {
    hide EntryName, Fold;
    NotADotName(es[0]);
    var t := StepSlot(Start(), es[0], Never);
    var u := StepSlot(t, es[1], Never);
    assert es == [es[0]] + ([es[1]] + es[2..]);
    FoldCons(Start(), es[0], [es[1]] + es[2..], Never);
    FoldCons(t, es[1], es[2..], Never);
    FoldDone(u, es[2..], Never);
  }

  lemma NotADotName(e: DirSlot)
    requires e[0] == 0x41
    ensures EntryName(NoName, e) != "." && EntryName(NoName, e) != ".."
  {
    ShortFieldStep(e, 0, 8, e[12] / 8 % 2 == 1);
    var raw := ShortRaw(e);
    assert raw != "" && (raw[0] == 'A' || raw[0] == 'a');
    assert CStr(raw) == "" || CStr(raw)[0] == raw[0];
  }

  /** That disk mounted, on a block layer whose second driver call fails. */
  method TwoClusterMount() returns (v: Volume)
    ensures fresh(v) && fresh(v.block) && fresh(v.block.bounce) && fresh(v.statics.lfn) && fresh(v.statics.name)
    ensures fresh(v.sectorBuffer) && fresh(v.fatBuffer)
    ensures v.Valid() && v.geo == TwoClusterVolume() && v.Simple() && !v.fatBufferValid
    ensures v.block.clock == 0 && forall k | 0 <= k :: v.block.answers(k) == (k != 1)
  {
    hide TwoClusters;
    var block := new BlockDev.BlockLayer(k => k != 1, (i, j) => 0);
    var device := block.AddDevice("d", true, 512, 0, 1, TwoClusters);
    var statics := new Statics();
    var sectorBuffer, fatBuffer := new byte[4096], new byte[4096];
    v := new Volume(block, device, TwoClusterVolume(), statics, sectorBuffer, fatBuffer);
  }

  lemma TwoClusterTrap(v: Volume)
    requires v.geo == TwoClusterVolume() && v.Simple() && !v.fatBufferValid && v.block.clock == 0
    requires forall k | 0 <= k :: v.block.answers(k) == (k != 1)
    requires Fold(Start(), v.geo.ClusterSlots(2), Never) == Start()
    ensures v.FatTrap(2, Never)
  {
    hide Fold, Geometry.ClusterSlots, Volume.Simple;
  }

  /** Only the second read of the run fails, a read of the FAT: the listing lacks the entry and claims success. */
  method UnreportedFailure() returns (status: bool, delivered: seq<Entry>)
    ensures status && delivered == [] && |TwoClusterVolume().Listing(2)| == 1
  {
    hide Fold, Geometry.ClusterSlots, Geometry.DirSlots, Geometry.Chain, Geometry.Listing, Volume.Simple, Volume.Valid,
      Volume.FatTrap, TwoClusterVolume;
    var v := TwoClusterMount();
    TwoClusterListing();
    TwoClusterTrap(v);
    ghost var seen, dirFailed, fatFailed, clusters;
    status, delivered, seen, dirFailed, fatFailed, clusters := v.ListDir(2, Never);
  }
}
