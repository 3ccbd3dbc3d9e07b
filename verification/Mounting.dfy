/** kernel/fs.c, lines 21-141: the table of mounted volumes, filled from the table of partitions. */
module Mounting {
  import opened Common
  import opened FatVolume
  import BlockDev
  import FatFormat
  import FileSystem
  import PartitionTables
  import Partitions
  import Pmm

  const VOLUMES_PER_PAGE := 39
  const MAX_VOLUME_PAGES := 64

  /** FS_VOLUME. */
  datatype Mounted = Mounted(name: string, partition: nat, fat: Volume)

  /** The indices from `from` on of the FAT32 ones among the first `n` partitions, in order. */
  function FatParts(parts: seq<Partitions.Part>, from: nat, n: nat): seq<nat>
    requires from <= n <= |parts|
  {
    if n == from then []
    else FatParts(parts, from, n - 1) + if parts[n - 1].fs == Partitions.Fat32 then [n - 1] else []
  }

  /** A partition known as FAT32 has a boot sector FatMount accepts. */
  lemma FatPartMounts(ds: seq<BlockDev.Device>, p: Partitions.Part, scanned: set<nat>)
    requires Partitions.EntryOk(ds, p, scanned) && p.fs == Partitions.Fat32
    ensures BootSectorValid(FirstSector(ds, p.device, p.listed.start))
    ensures p.device < |ds| && (ds[p.device].online ==> BlockDev.InRange(ds, p.device, p.listed.start, 1))
  {
    hide BootSectorValid, BlockDev.Device.Total;
  }

  /** What CopyText leaves in a volume's name field. */
  function CopyText(name: string): string {
    if |name| < Partitions.NAME_FIELD then name else name[..Partitions.NAME_FIELD - 1]
  }

  ghost predicate AllOnline(ds: seq<BlockDev.Device>) {
    forall i | 0 <= i < |ds| :: ds[i].online
  }

  ghost function Indices(vs: seq<Mounted>): (s: seq<nat>)
    ensures |s| == |vs| && forall i | 0 <= i < |vs| :: s[i] == vs[i].partition
  {
    seq(|vs|, i requires 0 <= i < |vs| => vs[i].partition)
  }

  /** The volume is the file system of the partition it is named after. */
  ghost predicate MountOk(ds: seq<BlockDev.Device>, parts: seq<Partitions.Part>, cursor: nat, v: Mounted) {
    && v.partition < cursor <= |parts|
    && var p := parts[v.partition];
       && v.name == p.name && v.fat.device == p.device && p.device < |ds| && p.fs == Partitions.Fat32
       && v.fat.geo == Decode(ds[p.device].content, FirstSector(ds, p.device, p.listed.start), p.listed.start)
  }

  ghost predicate MountsOk(ds: seq<BlockDev.Device>, parts: seq<Partitions.Part>, cursor: nat, vs: seq<Mounted>) {
    && (forall i | 0 <= i < |vs| :: MountOk(ds, parts, cursor, vs[i]))
    && forall i, j | 0 <= i < j < |vs| :: vs[i].partition < vs[j].partition
  }

  /** No partition is mounted twice, and no two volumes have the same name. */
  lemma VolumeNamesDistinct(ds: seq<BlockDev.Device>, parts: seq<Partitions.Part>, scanned: set<nat>, cursor: nat,
                            vs: seq<Mounted>)
    requires BlockDev.ValidRegistry(ds) && Partitions.TableOk(ds, parts, scanned) && MountsOk(ds, parts, cursor, vs)
    ensures forall i, j | 0 <= i < j < |vs| :: vs[i].name != vs[j].name && vs[i].partition != vs[j].partition
  {
    Partitions.NamesDistinct(ds, parts, scanned);
    forall i, j | 0 <= i < j < |vs|
      ensures vs[i].name != vs[j].name
    {
      assert MountOk(ds, parts, cursor, vs[i]) && MountOk(ds, parts, cursor, vs[j]);
      assert parts[vs[i].partition].name != parts[vs[j].partition].name;
    }
  }

  /** More partitions, and devices registered or taken offline, leave the mounted volumes as they are. */
  lemma MountsSurvive(before: seq<BlockDev.Device>, after: seq<BlockDev.Device>, parts: seq<Partitions.Part>,
                      more: seq<Partitions.Part>, cursor: nat, vs: seq<Mounted>)
    requires MountsOk(before, parts, cursor, vs) && BlockDev.Extends(before, after) && parts <= more
    ensures MountsOk(after, more, cursor, vs)
  {
    hide BootSectorValid, Decode;
    forall i | 0 <= i < |vs|
      ensures MountOk(after, more, cursor, vs[i])
    {
      assert MountOk(before, parts, cursor, vs[i]);
      assert FirstSector(before, parts[vs[i].partition].device, parts[vs[i].partition].listed.start) ==
             FirstSector(after, parts[vs[i].partition].device, parts[vs[i].partition].listed.start);
    }
  }

  lemma ExtendsItself(ds: seq<BlockDev.Device>)
    ensures BlockDev.Extends(ds, ds)
  {
    assert forall i | 0 <= i < |ds| :: ds[i] == ds[i].(online := ds[i].online);
  }

  /** With the same reserved pages, more live pages leave fewer free ones. */
  lemma FewerFree(free: set<nat>, live: set<nat>, free': set<nat>, live': set<nat>, reserved: set<nat>, total: nat)
    requires Pmm.Partition(free, live, reserved, total) && Pmm.Partition(free', live', reserved, total) && live <= live'
    ensures free' <= free && free - free' == live' - live && |free'| == |free| - |live' - live|
  {
    assert forall p: nat :: p in free - free' <==> p in live' - live;
    assert free == free' + (free - free');
  }

  lemma AtMostOneSize(s: set<nat>)
    ensures AtMostOne(s) <==> |s| <= 1
  {
    if s != {} {
      var p :| p in s;
      var rest := s - {p};
      assert |rest| == |s| - 1;
      if rest != {} {
        var q :| q in rest;
        assert p in s && q in s && p != q;
      } else {
        assert s == {p};
      }
    }
  }

  lemma FatPartsNone(parts: seq<Partitions.Part>, from: nat)
    requires from <= |parts|
    ensures FatParts(parts, from, from) == []
  {
  }

  /** One more volume, for the partition the cursor is on. */
  lemma MountsMore(ds: seq<BlockDev.Device>, parts: seq<Partitions.Part>, cursor: nat, vs: seq<Mounted>, v: Mounted)
    requires MountsOk(ds, parts, cursor, vs) && v.partition == cursor < |parts| && MountOk(ds, parts, cursor + 1, v)
    ensures MountsOk(ds, parts, cursor + 1, vs + [v])
  {
    hide Decode, FirstSector;
    forall i | 0 <= i < |vs|
      ensures MountOk(ds, parts, cursor + 1, vs[i])
    {
      assert MountOk(ds, parts, cursor, vs[i]);
    }
  }

  lemma MountsStay(ds: seq<BlockDev.Device>, parts: seq<Partitions.Part>, cursor: nat, vs: seq<Mounted>)
    requires MountsOk(ds, parts, cursor, vs) && cursor < |parts|
    ensures MountsOk(ds, parts, cursor + 1, vs)
  {
    hide Decode, FirstSector;
    forall i | 0 <= i < |vs|
      ensures MountOk(ds, parts, cursor + 1, vs[i])
    {
      assert MountOk(ds, parts, cursor, vs[i]);
    }
  }

  class MountTable {
    const table: Partitions.PartTable
    const statics: Statics
    var mounted: seq<Mounted>
    var pagesHeld: nat
    /** The first partition never looked at. */
    var cursor: nat
    var cwdVolume: int
    var cwdPath: string

    ghost predicate Valid()
      reads this, table, table.block`devices, table.pmm, table.pmm.bitmap
    {
      && table.Valid() && statics.lfn.Length == FatFormat.LFN_UNITS && statics.name.Length == FatFormat.FAT_NAME_MAX
      && cursor <= |table.parts| && MountsOk(table.block.devices, table.parts, cursor, mounted)
      && |mounted| <= VOLUMES_PER_PAGE * pagesHeld && Apart()
      && -1 <= cwdVolume < |mounted|
    }

    /** Mounted volumes share the block layer and the static buffers, and have FAT buffers of their own. */
    ghost predicate Apart()
      reads this`mounted, table.pmm`bitmap
    {
      && (forall i | 0 <= i < |mounted| :: Own(mounted[i].fat))
      && forall i, j | 0 <= i < |mounted| && 0 <= j < |mounted| && i != j :: TwoVolumes(mounted[i].fat, mounted[j].fat)
    }

    ghost predicate Own(fat: Volume)
      reads table.pmm`bitmap
    {
      && fat.block == table.block && fat.statics == statics
      && fat.fatBuffer != table.block.bounce && fat.fatBuffer != table.pmm.bitmap
      && fat.fatBuffer != table.sector && fat.fatBuffer != table.table
    }

    /** What resolving paths on the mounted volumes needs of them. */
    ghost predicate AllUsable()
      reads this`mounted, table.block`devices
      reads set i | 0 <= i < |mounted| :: mounted[i].fat
      reads set i | 0 <= i < |mounted| :: mounted[i].fat.fatBuffer
      reads set i | 0 <= i < |mounted| :: mounted[i].fat.block`devices
    {
      forall i | 0 <= i < |mounted| :: Fits(mounted[i].fat.geo) ==> mounted[i].fat.Valid()
    }

    /**
     * There is a slot for another volume, or a free page for one, and two more free pages for the volume's buffers.
     */
    predicate HasRoom()
      reads this`mounted, this`pagesHeld, table.pmm`freePages
    {
      && |mounted| < VOLUMES_PER_PAGE * MAX_VOLUME_PAGES
      && table.pmm.freePages >= if |mounted| / VOLUMES_PER_PAGE >= pagesHeld then 3 else 2
    }

    constructor (table: Partitions.PartTable, statics: Statics)
      requires table.Valid()
      requires statics.lfn.Length == FatFormat.LFN_UNITS && statics.name.Length == FatFormat.FAT_NAME_MAX
      ensures Valid() && mounted == [] && cursor == 0 && cwdVolume == -1 && this.table == table && AllUsable()
      ensures this.statics == statics
    {
      this.table, this.statics := table, statics;
      mounted, pagesHeld, cursor, cwdVolume, cwdPath := [], 0, 0, -1, "/";
    }

    lemma TableFacts(i: nat)
      requires table.Valid() && i < |table.parts|
      ensures table.parts[i].device < |table.block.devices| && |table.parts[i].name| < Partitions.NAME_FIELD
      ensures Partitions.EntryOk(table.block.devices, table.parts[i], table.scanned)
      ensures table.block.Valid() && table.pmm.Valid() && table.pmm.bitmap != table.block.bounce
    {
      Partitions.NamesDistinct(table.block.devices, table.parts, table.scanned);
      assert Partitions.EntryOk(table.block.devices, table.parts[i], table.scanned);
    }

    lemma PmmPartition()
      requires table.pmm.Valid()
      ensures table.pmm.totalPages <= table.pmm.bitmap.Length * 8 && table.pmm.freePages == |table.pmm.Free()|
      ensures Pmm.Partition(table.pmm.Free(), table.pmm.live, table.pmm.reserved, table.pmm.totalPages)
    {
    }

    /** Once there is no room for another partition there never is. */
    twostate lemma FullLater()
      requires old(Valid()) && Valid() && old(table.Full())
      requires old(table.parts) <= table.parts && old(table.pmm.live) <= table.pmm.live
      requires old(table.pmm.reserved) == table.pmm.reserved && old(table.pmm.totalPages) == table.pmm.totalPages
      ensures table.Full()
    {
      hide MountsOk, Partitions.TableOk, Apart;
      FewerFree(old(table.pmm.Free()), old(table.pmm.live), table.pmm.Free(), table.pmm.live, table.pmm.reserved,
                table.pmm.totalPages);
    }

    /** VolumeNext: whether there is a slot for another volume. It may take a page for it. */
    method VolumeNext() returns (ok: bool)
      requires table.pmm.Valid()
      modifies this`pagesHeld, table.pmm`freePages, table.pmm`live, table.pmm.bitmap
      ensures table.pmm.Valid() && old(table.pmm.live) <= table.pmm.live
      ensures var full := |mounted| / VOLUMES_PER_PAGE >= old(pagesHeld);
              && (ok <==> |mounted| < VOLUMES_PER_PAGE * MAX_VOLUME_PAGES && (full ==> old(table.pmm.freePages) > 0))
              && table.pmm.freePages == old(table.pmm.freePages) - (if ok && full then 1 else 0)
              && pagesHeld == old(pagesHeld) + if ok && full then 1 else 0
      ensures old(Apart() && AllUsable()) ==> AllUsable()
    {
      hide Pmm.Allocator.Valid, Pmm.Allocator.Free, Pmm.Partition, TwoVolumes, Volume.Valid, Fits;
      PmmPartition();
      ghost var free, live := table.pmm.Free(), table.pmm.live;
      var page := |mounted| / VOLUMES_PER_PAGE;
      ok := page < MAX_VOLUME_PAGES;
      if ok && page >= pagesHeld {
        var addr := table.pmm.AllocPage();
        PmmPartition();
        FewerFree(free, live, table.pmm.Free(), table.pmm.live, table.pmm.reserved, table.pmm.totalPages);
        ok := addr != 0;
        if ok {
          pagesHeld := pagesHeld + 1;
          assert table.pmm.live - live == {addr / Pmm.PAGE_SIZE};
        } else {
          assert table.pmm.live - live == {};
        }
      }
    }

    /** FatMount for a FAT32 partition that has a slot: it fails only for lack of two pages or after a failed read. */
    method TryMount(p: Partitions.Part) returns (v: Volume?)
      requires table.pmm.Valid() && table.block.Valid() && table.pmm.bitmap != table.block.bounce
      requires statics.lfn.Length == FatFormat.LFN_UNITS && statics.name.Length == FatFormat.FAT_NAME_MAX
      requires BootSectorValid(FirstSector(table.block.devices, p.device, p.listed.start))
      modifies table.pmm`freePages, table.pmm`live, table.pmm.bitmap
      modifies table.block`clock, table.block`log, table.block`failed, table.block`lost, table.block.bounce
      ensures table.pmm.Valid() && table.block.failed >= old(table.block.failed)
      ensures old(table.pmm.live) <= table.pmm.live
      ensures 0 <= table.block.lost - old(table.block.lost) <= table.block.failed - old(table.block.failed)
      ensures old(table.block.Answering()) ==>
                && table.block.Answering() && table.block.lost == old(table.block.lost)
                && (BlockDev.InRange(table.block.devices, p.device, p.listed.start, 1) ==>
                      table.block.failed == old(table.block.failed))
      ensures v == null <==> old(table.pmm.freePages) < 2 || table.block.failed > old(table.block.failed)
      ensures table.pmm.freePages == old(table.pmm.freePages) - if v == null then 0 else 2
      ensures v != null ==> && fresh(v) && fresh(v.fatBuffer) && fresh(v.sectorBuffer) && v.block == table.block
                            && v.statics == statics && v.device == p.device < |table.block.devices|
                            && v.geo == Decode(table.block.devices[p.device].content,
                                               FirstSector(table.block.devices, p.device, p.listed.start),
                                               p.listed.start)
                            && (Fits(v.geo) ==> v.Valid())
      ensures v != null && old(Apart()) ==>
                Own(v) && forall i | 0 <= i < |mounted| :: TwoVolumes(mounted[i].fat, v)
      ensures old(Apart() && AllUsable()) ==> AllUsable()
    {
      hide Pmm.Allocator.Valid, Pmm.Allocator.Free, Pmm.Partition, BootSectorValid, Decode, FirstSector, AtMostOne,
        BlockDev.BlockLayer.Valid, Volume.Valid, Fits;
      PmmPartition();
      ghost var free, live := table.pmm.Free(), table.pmm.live;
      AtMostOneSize(free);
      ghost var pages;
      v, pages := Volume.Mount(table.pmm, table.block, p.device, p.listed.start, statics);
      PmmPartition();
      FewerFree(free, live, table.pmm.Free(), table.pmm.live, table.pmm.reserved, table.pmm.totalPages);
      assert table.pmm.live - live == if v == null then {} else pages;
    }

    /**
     * One turn of the loop in MountNewPartitions. The exact condition under which a FAT32 partition is passed over
     * for good: there is no room for it before the turn, or its boot sector cannot be read.
     */
    method MountNext() returns (stop: bool)
      requires Valid() && cursor < |table.parts|
      modifies this`mounted, this`pagesHeld, this`cursor, table.pmm`freePages, table.pmm`live, table.pmm.bitmap
      modifies table.block`clock, table.block`log, table.block`failed, table.block`lost, table.block.bounce
      ensures Valid() && cursor == old(cursor) + 1 && table.block.failed >= old(table.block.failed)
      ensures old(mounted) <= mounted && |mounted| <= old(|mounted|) + 1 && old(table.pmm.live) <= table.pmm.live
      ensures |mounted| > old(|mounted|) ==> mounted[old(|mounted|)].partition == old(cursor)
      ensures mounted == old(mounted) <==> || table.parts[old(cursor)].fs != Partitions.Fat32
                                           || !old(HasRoom()) || table.block.failed > old(table.block.failed)
      ensures 0 <= table.block.lost - old(table.block.lost) <= table.block.failed - old(table.block.failed)
      ensures old(table.block.Answering()) ==>
                && table.block.Answering() && table.block.lost == old(table.block.lost)
                && (AllOnline(table.block.devices) ==> table.block.failed == old(table.block.failed))
      ensures !old(HasRoom()) ==> !HasRoom()
      ensures stop ==> !old(HasRoom()) && table.parts[old(cursor)].fs == Partitions.Fat32
      ensures old(AllUsable()) ==> AllUsable()
    {
      hide MountsOk, Indices, Pmm.Allocator.Valid, BlockDev.BlockLayer.Valid, Partitions.TableOk,
        Partitions.EntryOk, Partitions.ProbeOf, BootSectorValid, FirstSector, Decode, Apart, Volume.Valid, Fits,
        HasRoom;
      TableFacts(cursor);
      MountsStay(table.block.devices, table.parts, cursor, mounted);
      var i, p := cursor, table.parts[cursor];
      cursor := cursor + 1;
      stop := false;
      if p.fs == Partitions.Fat32 {
        FatPartMounts(table.block.devices, p, table.scanned);
        stop := MountPart(i, p);
      }
    }

    /** The turn for a FAT32 partition. */
    method MountPart(i: nat, p: Partitions.Part) returns (stop: bool)
      requires i + 1 == cursor <= |table.parts| && p == table.parts[i] && |p.name| < Partitions.NAME_FIELD
      requires p.fs == Partitions.Fat32 && p.device < |table.block.devices|
      requires MountsOk(table.block.devices, table.parts, i, mounted)
      requires |mounted| <= VOLUMES_PER_PAGE * pagesHeld && Apart()
      requires table.pmm.Valid() && table.block.Valid() && table.pmm.bitmap != table.block.bounce
      requires statics.lfn.Length == FatFormat.LFN_UNITS && statics.name.Length == FatFormat.FAT_NAME_MAX
      requires BootSectorValid(FirstSector(table.block.devices, p.device, p.listed.start))
      modifies this`mounted, this`pagesHeld, table.pmm`freePages, table.pmm`live, table.pmm.bitmap
      modifies table.block`clock, table.block`log, table.block`failed, table.block`lost, table.block.bounce
      ensures table.pmm.Valid() && table.block.failed >= old(table.block.failed)
      ensures old(table.pmm.live) <= table.pmm.live
      ensures MountsOk(table.block.devices, table.parts, cursor, mounted)
      ensures |mounted| <= VOLUMES_PER_PAGE * pagesHeld && Apart()
      ensures if old(HasRoom()) && table.block.failed == old(table.block.failed)
              then |mounted| == old(|mounted|) + 1 && mounted[..old(|mounted|)] == old(mounted)
                   && mounted[old(|mounted|)].partition == i
              else mounted == old(mounted)
      ensures 0 <= table.block.lost - old(table.block.lost) <= table.block.failed - old(table.block.failed)
      ensures old(table.block.Answering()) ==>
                && table.block.Answering() && table.block.lost == old(table.block.lost)
                && (BlockDev.InRange(table.block.devices, p.device, p.listed.start, 1) ==>
                      table.block.failed == old(table.block.failed))
      ensures !old(HasRoom()) ==> !HasRoom()
      ensures stop ==> !old(HasRoom())
      ensures old(AllUsable()) ==> AllUsable()
    {
      hide MountsOk, Pmm.Allocator.Valid, BlockDev.BlockLayer.Valid, BootSectorValid, FirstSector, Decode, Volume.Valid,
        Fits, Own, TwoVolumes;
      MountsStay(table.block.devices, table.parts, i, mounted);
      var ok := VolumeNext();
      stop := !ok;
      if ok {
        var v := TryMount(p);
        if v != null {
          ghost var before := mounted;
          Append(i, v);
          MoreVolumes(before);
        }
      }
    }

    /** One more volume that is apart from the others and usable. */
    lemma MoreVolumes(before: seq<Mounted>)
      requires |mounted| == |before| + 1 && before <= mounted
      requires forall i | 0 <= i < |before| :: Own(before[i].fat)
      requires forall i, j | 0 <= i < |before| && 0 <= j < |before| && i != j ::
                 TwoVolumes(before[i].fat, before[j].fat)
      requires var v := mounted[|before|].fat; Own(v) && forall i | 0 <= i < |before| :: TwoVolumes(before[i].fat, v)
      ensures Apart()
    {
    }

    /** Filling in the new slot; the name fits its field. */
    method Append(i: nat, v: Volume)
      requires i + 1 == cursor <= |table.parts| && |table.parts[i].name| < Partitions.NAME_FIELD
      requires MountsOk(table.block.devices, table.parts, i, mounted)
      requires table.parts[i].fs == Partitions.Fat32
      requires v.device == table.parts[i].device < |table.block.devices|
      requires v.geo == Decode(table.block.devices[v.device].content,
                               FirstSector(table.block.devices, v.device, table.parts[i].listed.start),
                               table.parts[i].listed.start)
      modifies this`mounted
      ensures mounted == old(mounted) + [Mounted(table.parts[i].name, i, v)]
      ensures MountsOk(table.block.devices, table.parts, cursor, mounted)
    {
      hide Decode, FirstSector, Indices, MountsOk;
      var name := CopyText(table.parts[i].name);
      ghost var before := mounted;
      var m := Mounted(name, i, v);
      mounted := mounted + [m];
      MountsMore(table.block.devices, table.parts, i, before, m);
    }

    /**
     * The loop of MountNewPartitions: new volumes are partitions not looked at before, and without room nothing is
     * mounted.
     */
    method MountLoop() returns (ghost cut: bool)
      requires Valid()
      modifies this`mounted, this`pagesHeld, this`cursor, table.pmm`freePages, table.pmm`live, table.pmm.bitmap
      modifies table.block`clock, table.block`log, table.block`failed, table.block`lost, table.block.bounce
      ensures Valid() && table.block.failed >= old(table.block.failed) && old(table.pmm.live) <= table.pmm.live
      ensures old(mounted) <= mounted && old(cursor) <= cursor
      ensures old(cursor) < |table.parts| ==> old(cursor) < cursor
      ensures forall i | old(|mounted|) <= i < |mounted| :: mounted[i].partition >= old(cursor)
      ensures 0 <= table.block.lost - old(table.block.lost) <= table.block.failed - old(table.block.failed)
      ensures old(table.block.Answering()) ==>
                && table.block.Answering() && table.block.lost == old(table.block.lost)
                && (AllOnline(table.block.devices) ==> table.block.failed == old(table.block.failed))
      ensures cut ==> table.block.failed > old(table.block.failed) || !HasRoom()
      ensures !cut ==> && cursor == |table.parts|
                       && Indices(mounted) == old(Indices(mounted)) +
                            FatParts(table.parts, old(cursor), |table.parts|)
      ensures cursor == |table.parts| || !HasRoom()
      ensures HasRoom() ==> |FatParts(table.parts, old(cursor), |table.parts|)| <=
                            |mounted| - old(|mounted|) + table.block.failed - old(table.block.failed)
      ensures !old(HasRoom()) ==> mounted == old(mounted) && !HasRoom()
      ensures old(AllUsable()) ==> AllUsable()
    {
      hide MountsOk, Indices, FatParts, Partitions.PartTable.Valid, Apart, AllUsable, HasRoom;
      ghost var before, from, usable, room := mounted, cursor, AllUsable(), HasRoom();
      ghost var sound := table.block.Answering();
      FatPartsNone(table.parts, from);
      assert Indices(before) + [] == Indices(before);
      var stop := false;
      cut := false;
      while cursor < |table.parts| && !stop
        invariant Valid() && from <= cursor && before <= mounted && (stop ==> cut && from < cursor && !HasRoom())
        invariant HasRoom() ==> |FatParts(table.parts, from, cursor)| <=
                                |mounted| - |before| + table.block.failed - old(table.block.failed)
        invariant table.block.failed >= old(table.block.failed)
        invariant 0 <= table.block.lost - old(table.block.lost) <= table.block.failed - old(table.block.failed)
        invariant sound ==> && table.block.Answering() && table.block.lost == old(table.block.lost)
                            && (AllOnline(table.block.devices) ==> table.block.failed == old(table.block.failed))
        invariant old(table.pmm.live) <= table.pmm.live && (usable ==> AllUsable())
        invariant forall i | |before| <= i < |mounted| :: mounted[i].partition >= from
        invariant cut ==> table.block.failed > old(table.block.failed) || !HasRoom()
        invariant !cut ==> Indices(mounted) == Indices(before) + FatParts(table.parts, from, cursor)
        invariant !room ==> !HasRoom() && mounted == before
        decreases |table.parts| - cursor
      {
        FatPartsNext(table.parts, from, cursor, Indices(before));
        ghost var vs, p := mounted, table.parts[cursor];
        stop := MountNext();
        IndicesMore(vs, mounted, cursor - 1);
        cut := cut || (p.fs == Partitions.Fat32 && mounted == vs);
      }
    }

    /**
     * MountNewPartitions. Every new partition is looked at, once, unless room runs out, and only new ones are mounted,
     * so a partition that was passed over stays unmounted (StaysUnmounted). Unless something was cut short by a read
     * failure or for lack of room, the new volumes are exactly the FAT32 ones among the new partitions, in order; while
     * there is room a failed read costs at most one of them. Without room nothing is mounted. The first volume ever
     * mounted becomes the current one.
     */
    method MountNew() returns (added: nat, ghost cut: bool)
      requires Valid()
      modifies this, table.pmm`freePages, table.pmm`live, table.pmm.bitmap
      modifies table.block`clock, table.block`log, table.block`failed, table.block`lost, table.block.bounce
      ensures Valid() && table.block.failed >= old(table.block.failed) && old(table.pmm.live) <= table.pmm.live
      ensures old(mounted) <= mounted && added == |mounted| - |old(mounted)| && old(cursor) <= cursor
      ensures old(cursor) < |table.parts| ==> old(cursor) < cursor
      ensures forall i | old(|mounted|) <= i < |mounted| :: mounted[i].partition >= old(cursor)
      ensures 0 <= table.block.lost - old(table.block.lost) <= table.block.failed - old(table.block.failed)
      ensures old(table.block.Answering()) ==>
                && table.block.Answering() && table.block.lost == old(table.block.lost)
                && (AllOnline(table.block.devices) ==> table.block.failed == old(table.block.failed))
      ensures cut ==> table.block.failed > old(table.block.failed) || !HasRoom()
      ensures !cut ==> && cursor == |table.parts|
                       && Indices(mounted) == old(Indices(mounted)) +
                            FatParts(table.parts, old(cursor), |table.parts|)
      ensures cursor == |table.parts| || !HasRoom()
      ensures HasRoom() ==> |FatParts(table.parts, old(cursor), |table.parts|)| <=
                            |mounted| - old(|mounted|) + table.block.failed - old(table.block.failed)
      ensures !old(HasRoom()) ==> mounted == old(mounted) && !HasRoom()
      ensures old(AllUsable()) ==> AllUsable()
      ensures if old(cwdVolume) < 0 && mounted != [] then cwdVolume == 0 && cwdPath == "/"
              else cwdVolume == old(cwdVolume) && cwdPath == old(cwdPath)
    {
      hide MountsOk, Indices, FatParts, Partitions.PartTable.Valid, Apart, Volume.Valid, Fits, HasRoom;
      var had := |mounted|;
      cut := MountLoop();
      added := |mounted| - had;
      if |mounted| > 0 && cwdVolume < 0 {
        cwdVolume, cwdPath := 0, "/";
      }
    }
  }

  /** Neither is the other, and neither's FAT buffer is one of the other's buffers. */
  ghost predicate TwoVolumes(a: Volume, b: Volume) {
    a != b && a.fatBuffer != b.fatBuffer && a.fatBuffer != b.sectorBuffer && b.fatBuffer != a.sectorBuffer
  }

  ghost predicate IsMounted(vs: seq<Mounted>, partition: nat) {
    exists i :: 0 <= i < |vs| && vs[i].partition == partition
  }

  /** What MountNew leaves out once it leaves out for good. */
  lemma StaysUnmounted(before: seq<Mounted>, after: seq<Mounted>, cursor: nat, partition: nat)
    requires before <= after && partition < cursor && !IsMounted(before, partition)
    requires forall i | |before| <= i < |after| :: after[i].partition >= cursor
    ensures !IsMounted(after, partition)
  {
    forall i | 0 <= i < |after|
      ensures after[i].partition != partition
    {
      if i < |before| {
        assert before[i] == after[i];
      }
    }
  }

  lemma IndicesMore(vs: seq<Mounted>, more: seq<Mounted>, cursor: nat)
    requires vs <= more && |more| <= |vs| + 1 && (|more| > |vs| ==> more[|vs|].partition == cursor)
    ensures Indices(more) == Indices(vs) + if more == vs then [] else [cursor]
  {
    if |more| == |vs| {
      assert more == vs;
    }
  }

  // ---- scanning, then mounting ----

  /** What a partition's entry says of the disk, but for the file system. */
  datatype Row = Row(device: nat, scheme: Partitions.Scheme, listed: PartitionTables.Listed)

  ghost function Rows(parts: seq<Partitions.Part>): (s: seq<Row>)
    ensures |s| == |parts|
    ensures forall i | 0 <= i < |parts| :: s[i] == Row(parts[i].device, parts[i].scheme, parts[i].listed)
  {
    seq(|parts|, i requires 0 <= i < |parts| => Row(parts[i].device, parts[i].scheme, parts[i].listed))
  }

  /** The partitions a device's own table defines. */
  ghost function DeviceRows(ds: seq<BlockDev.Device>, device: nat): (s: seq<Row>)
    requires BlockDev.ValidRegistry(ds) && device < |ds|
  {
    assert BlockDev.ValidDevice(ds[device]);
    var d := ds[device];
    var (scheme, ls) := Partitions.Expected(d.content, d.Ratio(), d.Total());
    seq(|ls|, k requires 0 <= k < |ls| => Row(device, scheme, ls[k]))
  }

  predicate Unscanned(ds: seq<BlockDev.Device>, device: int, scanned: set<nat>) {
    0 <= device < |ds| && device < Partitions.MAX_SCANNED && device !in scanned
  }

  /** The partitions of those of the first `n` devices that have not been scanned, device by device. */
  ghost function AllRows(ds: seq<BlockDev.Device>, n: nat, scanned: set<nat>): seq<Row>
    requires BlockDev.ValidRegistry(ds) && n <= |ds|
  {
    if n == 0 then []
    else AllRows(ds, n - 1, scanned) + if Unscanned(ds, n - 1, scanned) then DeviceRows(ds, n - 1) else []
  }

  lemma GrownRows(ds: seq<BlockDev.Device>, before: seq<Partitions.Part>, parts: seq<Partitions.Part>, device: nat)
    requires BlockDev.ValidRegistry(ds) && device < |ds| && BlockDev.ValidDevice(ds[device])
    requires var d := ds[device];
             var (scheme, ls) := Partitions.Expected(d.content, d.Ratio(), d.Total());
             Partitions.Grown(before, parts, device, d, scheme, ls)
    ensures Rows(parts) == Rows(before) + DeviceRows(ds, device)
  {
    hide Partitions.Expected;
    var d := ds[device];
    var (scheme, ls) := Partitions.Expected(d.content, d.Ratio(), d.Total());
    forall i | 0 <= i < |parts|
      ensures Rows(parts)[i] == (Rows(before) + DeviceRows(ds, device))[i]
    {
      if i >= |before| {
        var k := i - |before|;
        assert Partitions.GrownAt(parts[|before| + k], device, d, scheme, ls[k]);
      }
    }
  }

  /** The partitions of one device. */
  ghost function RowsOf(parts: seq<Partitions.Part>, device: int): seq<Row> {
    if parts == [] then []
    else
      var p := parts[|parts| - 1];
      RowsOf(parts[..|parts| - 1], device)
      + if p.device == device then [Row(p.device, p.scheme, p.listed)] else []
  }

  /** A device that has not been scanned has no partitions. */
  lemma NoneOf(ds: seq<BlockDev.Device>, parts: seq<Partitions.Part>, scanned: set<nat>, device: nat)
    requires Partitions.TableOk(ds, parts, scanned) && device !in scanned
    ensures forall i | 0 <= i < |parts| :: parts[i].device != device
  {
    assert forall i | 0 <= i < |parts| :: Partitions.EntryOk(ds, parts[i], scanned);
  }

  lemma {:induction false} RowsOfSame(before: seq<Partitions.Part>, parts: seq<Partitions.Part>, device: int)
    requires before <= parts && forall i | |before| <= i < |parts| :: parts[i].device != device
    ensures RowsOf(parts, device) == RowsOf(before, device)
    decreases |parts|
  {
    if |parts| > |before| {
      RowsOfSame(before, parts[..|parts| - 1], device);
    } else {
      assert parts == before;
    }
  }

  lemma {:induction false} RowsOfNew(before: seq<Partitions.Part>, parts: seq<Partitions.Part>, device: int)
    requires before <= parts && forall i | 0 <= i < |parts| :: parts[i].device == device <==> i >= |before|
    ensures RowsOf(parts, device) == Rows(parts)[|before|..]
    decreases |parts|
  {
    if |parts| > |before| {
      var front := parts[..|parts| - 1];
      RowsOfNew(before, front, device);
      assert Rows(parts)[|before|..] == Rows(front)[|before|..] + [Rows(parts)[|parts| - 1]];
    } else {
      assert parts == before;
      RowsOfNone(parts, device);
    }
  }

  lemma {:induction false} RowsOfNone(parts: seq<Partitions.Part>, device: int)
    requires forall i | 0 <= i < |parts| :: parts[i].device != device
    ensures RowsOf(parts, device) == []
  {
    if parts != [] {
      RowsOfNone(parts[..|parts| - 1], device);
    }
  }

  /**
   * Those of the first `n` devices that were yet to be scanned have been, and except for `missed` ones the table has
   * exactly the partitions their own tables define.
   */
  ghost predicate ScannedTo(ds: seq<BlockDev.Device>, n: nat, before: set<nat>, missed: set<nat>,
                            parts: seq<Partitions.Part>, scanned: set<nat>)
    requires BlockDev.ValidRegistry(ds) && n <= |ds|
  {
    forall d: nat | d < n && Unscanned(ds, d, before) ::
      d in scanned && (d !in missed ==> RowsOf(parts, d) == DeviceRows(ds, d))
  }

  lemma ScannedNothing(ds: seq<BlockDev.Device>, scanned: set<nat>, parts: seq<Partitions.Part>)
    requires BlockDev.ValidRegistry(ds)
    ensures ScannedTo(ds, 0, scanned, {}, parts, scanned)
  {
  }

  lemma ScannedMore(ds: seq<BlockDev.Device>, n: nat, before: set<nat>, missed: set<nat>, was: seq<Partitions.Part>,
                    scanned0: set<nat>, parts: seq<Partitions.Part>, scanned: set<nat>, now: set<nat>)
    requires BlockDev.ValidRegistry(ds) && n < |ds| && ScannedTo(ds, n, before, missed, was, scanned0)
    requires was <= parts && forall i | |was| <= i < |parts| :: parts[i].device == n
    requires forall e: nat | e != n :: e in scanned <==> e in scanned0
    requires missed <= now
    requires Unscanned(ds, n, before) ==> n in scanned && (n !in now ==> RowsOf(parts, n) == DeviceRows(ds, n))
    ensures ScannedTo(ds, n + 1, before, now, parts, scanned)
  {
    hide RowsOf, DeviceRows, Unscanned;
    forall d: nat | d < n + 1 && Unscanned(ds, d, before)
      ensures d in scanned && (d !in now ==> RowsOf(parts, d) == DeviceRows(ds, d))
    {
      if d < n {
        RowsOfSame(was, parts, d);
      }
    }
  }

  /** If the device is yet to be scanned, it is online and holds every sector its table sends the scan to. */
  ghost predicate CanScan(ds: seq<BlockDev.Device>, device: int, scanned: set<nat>)
    requires BlockDev.ValidRegistry(ds)
  {
    Unscanned(ds, device, scanned) ==> Partitions.TableInside(ds, device)
  }

  ghost predicate CanScanAll(ds: seq<BlockDev.Device>, scanned: set<nat>)
    requires BlockDev.ValidRegistry(ds)
  {
    forall d | 0 <= d < |ds| :: CanScan(ds, d, scanned)
  }

  /** Scanning the device cannot fail to read. */
  ghost predicate ScanSafe(m: MountTable, device: int)
    requires m.table.block.Valid()
    reads m.table`scanned, m.table.block`devices, m.table.block`clock
  {
    m.table.block.Answering() && CanScan(m.table.block.devices, device, m.table.scanned)
  }

  ghost predicate AllScansSafe(m: MountTable)
    requires m.table.block.Valid()
    reads m.table`scanned, m.table.block`devices, m.table.block`clock
  {
    m.table.block.Answering() && CanScanAll(m.table.block.devices, m.table.scanned)
  }

  lemma CanScanNow(ds: seq<BlockDev.Device>, device: nat, scanned: set<nat>, now: set<nat>)
    requires BlockDev.ValidRegistry(ds) && CanScanAll(ds, scanned) && device < |ds|
    requires device in now <==> device in scanned
    ensures CanScan(ds, device, now)
  {
    hide Partitions.TableInside;
    assert CanScan(ds, device, scanned);
  }

  /** PartScanDevice, beside the volumes already mounted. The table gains what the device's own table defines. */
  method Scan(m: MountTable, device: int) returns (ghost cut: bool)
    requires m.Valid()
    modifies m.table, m.table.sector, m.table.table, m.table.pmm`freePages, m.table.pmm`live, m.table.pmm.bitmap
    modifies m.table.block`clock, m.table.block`log, m.table.block`failed, m.table.block`lost, m.table.block.bounce
    ensures m.Valid() && m.table.Since(old(m.table.Here()))
    ensures cut ==> m.table.block.failed > old(m.table.block.failed) || m.table.Full()
    ensures m.table.block.Valid()
    ensures old(ScanSafe(m, device)) && cut ==> m.table.Full()
    ensures Unscanned(m.table.block.devices, device, old(m.table.scanned)) ==>
              device in m.table.scanned || m.table.Full()
    ensures forall e: nat | e != device :: e in m.table.scanned <==> e in old(m.table.scanned)
    ensures forall i | old(|m.table.parts|) <= i < |m.table.parts| :: m.table.parts[i].device == device
    ensures Unscanned(m.table.block.devices, device, old(m.table.scanned)) && !cut ==>
              RowsOf(m.table.parts, device) == DeviceRows(m.table.block.devices, device)
    ensures var ds := m.table.block.devices;
            !cut ==> if Unscanned(ds, device, old(m.table.scanned))
                     then && m.table.scanned == old(m.table.scanned) + {device as nat}
                          && Rows(m.table.parts) == old(Rows(m.table.parts)) + DeviceRows(ds, device)
                     else m.table.scanned == old(m.table.scanned) && m.table.parts == old(m.table.parts)
    ensures old(m.AllUsable()) ==> m.AllUsable()
  {
    hide MountsOk, Partitions.TableOk, Partitions.Expected, Partitions.Grown, Partitions.PartTable.Shape,
      Partitions.PartTable.Full, Pmm.Allocator.Valid, Volume.Valid, Fits, Rows, DeviceRows;
    ghost var parts, ds, scanned := m.table.parts, m.table.block.devices, m.table.scanned;
    ExtendsItself(ds);
    RegistryValid(m);
    assert 0 <= device < |ds| ==> BlockDev.ValidDevice(ds[device]);
    var found;
    found, cut := m.table.PartScanDevice(device);
    MountsSurvive(ds, ds, parts, m.table.parts, m.cursor, m.mounted);
    if Unscanned(ds, device, scanned) {
      cut := cut || m.table.scanned == scanned;
      if !cut {
        GrownRows(ds, parts, m.table.parts, device);
        NoneOf(ds, parts, scanned, device);
        RowsOfNew(parts, m.table.parts, device);
        assert Rows(m.table.parts)[|parts|..] == DeviceRows(ds, device);
      }
    }
  }

  /**
   * FsMountDevice. Unless a read failed or there was no room, the table gains exactly the partitions the device's own
   * table defines, and exactly the FAT32 ones among those not looked at before are mounted.
   */
  method MountDevice(m: MountTable, device: int) returns (added: nat, ghost cut: bool)
    requires m.Valid()
    modifies m, m.table, m.table.sector, m.table.table, m.table.pmm`freePages, m.table.pmm`live, m.table.pmm.bitmap
    modifies m.table.block`clock, m.table.block`log, m.table.block`failed, m.table.block`lost, m.table.block.bounce
    ensures m.Valid() && old(m.mounted) <= m.mounted && added == |m.mounted| - |old(m.mounted)|
    ensures m.table.Since(old(m.table.Here()))
    ensures cut ==> m.table.block.failed > old(m.table.block.failed) || m.table.Full() || !m.HasRoom()
    ensures m.table.block.Valid()
    ensures old(ScanSafe(m, device) && AllOnline(m.table.block.devices)) && cut ==>
              m.table.Full() || !m.HasRoom()
    ensures !cut ==> && Rows(m.table.parts) == old(Rows(m.table.parts)) +
                          (if Unscanned(m.table.block.devices, device, old(m.table.scanned))
                           then DeviceRows(m.table.block.devices, device) else [])
                     && Indices(m.mounted) == old(Indices(m.mounted)) +
                          FatParts(m.table.parts, old(m.cursor), |m.table.parts|)
    ensures forall i | old(|m.mounted|) <= i < |m.mounted| :: m.mounted[i].partition >= old(m.cursor)
    ensures old(m.AllUsable()) ==> m.AllUsable()
  {
    hide MountsOk, Partitions.PartTable.Valid, Indices, Rows, DeviceRows, Partitions.Reach, Partitions.PartTable.Full,
      MountTable.AllUsable, MountTable.HasRoom, MountTable.Apart;
    RegistryValid(m);
    ghost var start := m.table.Here();
    cut := Scan(m, device);
    ghost var stop;
    added, stop := MountAfter(m, start, cut);
    cut := cut || stop;
  }

  /** MountNewPartitions, after scans that began at `start`. */
  method MountAfter(m: MountTable, ghost start: Partitions.Mark, ghost scanCut: bool)
    returns (added: nat, ghost cut: bool)
    requires m.Valid() && m.table.Since(start)
    requires scanCut ==> m.table.block.failed > start.failed || m.table.Full()
    modifies m, m.table.pmm`freePages, m.table.pmm`live, m.table.pmm.bitmap
    modifies m.table.block`clock, m.table.block`log, m.table.block`failed, m.table.block`lost, m.table.block.bounce
    ensures m.Valid() && old(m.mounted) <= m.mounted && added == |m.mounted| - |old(m.mounted)|
    ensures m.table.Since(start) && m.table.block.failed >= old(m.table.block.failed)
    ensures scanCut ==> m.table.block.failed > start.failed || m.table.Full()
    ensures cut ==> m.table.block.failed > start.failed || !m.HasRoom()
    ensures start.sound && AllOnline(m.table.block.devices) && cut ==> !m.HasRoom()
    ensures old(m.table.Full()) ==> m.table.Full()
    ensures m.cursor == |m.table.parts| || !m.HasRoom()
    ensures m.HasRoom() ==> |FatParts(m.table.parts, old(m.cursor), |m.table.parts|)| <=
                            added + m.table.block.failed - old(m.table.block.failed)
    ensures !cut ==> Indices(m.mounted) == old(Indices(m.mounted)) +
                       FatParts(m.table.parts, old(m.cursor), |m.table.parts|)
    ensures forall i | old(|m.mounted|) <= i < |m.mounted| :: m.mounted[i].partition >= old(m.cursor)
    ensures old(m.AllUsable()) ==> m.AllUsable()
  {
    hide MountsOk, Partitions.PartTable.Valid, Indices, MountTable.AllUsable, MountTable.HasRoom, MountTable.Apart,
      Partitions.Reach, Partitions.PartTable.Full;
    label before:
    ghost var here, full := m.table.Here(), m.table.Full();
    Partitions.ReachFacts(m.table.block.devices, start, here);
    added, cut := m.MountNew();
    if full {
      m.FullLater@before();
    }
    Partitions.ReachRead(m.table.block.devices, here, m.table.Here());
    Partitions.ReachOn(m.table.block.devices, start, here, m.table.Here());
    Partitions.ReachFacts(m.table.block.devices, start, here);
  }

  /**
   * FsInit: scan every registered device, then mount. Every volume has its own name and partition. Unless a read
   * failed or there was no room, the table gains exactly the partitions of all devices, in the order of the devices,
   * and exactly the FAT32 ones are mounted. A failed read does not stop anything: unless the table is full, every
   * device is scanned and at most as many of them are `missed` as reads failed.
   */
  method Init(m: MountTable) returns (count: nat, ghost cut: bool, ghost missed: set<nat>)
    requires m.Valid()
    modifies m, m.table, m.table.sector, m.table.table, m.table.pmm`freePages, m.table.pmm`live, m.table.pmm.bitmap
    modifies m.table.block`clock, m.table.block`log, m.table.block`failed, m.table.block`lost, m.table.block.bounce
    ensures m.Valid() && old(m.mounted) <= m.mounted && count == |m.mounted|
    ensures m.table.Since(old(m.table.Here()))
    ensures forall i, j | 0 <= i < j < count ::
              m.mounted[i].name != m.mounted[j].name && m.mounted[i].partition != m.mounted[j].partition
    ensures cut ==> m.table.block.failed > old(m.table.block.failed) || m.table.Full() || !m.HasRoom()
    ensures m.table.block.Valid()
    ensures old(AllScansSafe(m) && AllOnline(m.table.block.devices)) && cut ==>
              m.table.Full() || !m.HasRoom()
    ensures m.cursor == |m.table.parts| || !m.HasRoom()
    ensures !m.table.Full() ==> |missed| <= m.table.block.failed - old(m.table.block.failed)
    ensures !m.table.Full() ==> ScannedTo(m.table.block.devices, |m.table.block.devices|, old(m.table.scanned), missed,
                                          m.table.parts, m.table.scanned)
    ensures m.HasRoom() ==> |FatParts(m.table.parts, old(m.cursor), |m.table.parts|)| <=
                            count - old(|m.mounted|) + m.table.block.failed - old(m.table.block.failed)
    ensures !cut ==> && Rows(m.table.parts) == old(Rows(m.table.parts)) +
                          AllRows(m.table.block.devices, |m.table.block.devices|, old(m.table.scanned))
                     && Indices(m.mounted) == old(Indices(m.mounted)) +
                          FatParts(m.table.parts, old(m.cursor), |m.table.parts|)
    ensures old(m.AllUsable()) ==> m.AllUsable()
  {
    hide MountsOk, Partitions.PartTable.Valid, Indices, Rows, DeviceRows, Partitions.Reach, Partitions.PartTable.Full,
      MountTable.AllUsable, MountTable.HasRoom, MountTable.Apart;
    RegistryValid(m);
    ghost var start := m.table.Here();
    cut, missed := ScanAll(m);
    Partitions.ReachFacts(m.table.block.devices, start, m.table.Here());
    ghost var stop;
    var added;
    added, stop := MountAfter(m, start, cut);
    cut := cut || stop;
    count := |m.mounted|;
    NamesApart(m);
  }

  lemma RegistryValid(m: MountTable)
    requires m.Valid()
    ensures m.table.block.Valid() && BlockDev.ValidRegistry(m.table.block.devices)
  {
  }

  /** The loop of FsInit over the devices. */
  method ScanAll(m: MountTable) returns (ghost cut: bool, ghost missed: set<nat>)
    requires m.Valid()
    modifies m.table, m.table.sector, m.table.table, m.table.pmm`freePages, m.table.pmm`live, m.table.pmm.bitmap
    modifies m.table.block`clock, m.table.block`log, m.table.block`failed, m.table.block`lost, m.table.block.bounce
    ensures m.Valid() && m.table.Since(old(m.table.Here())) && m.table.block.Valid()
    ensures cut ==> m.table.block.failed > old(m.table.block.failed) || m.table.Full()
    ensures old(AllScansSafe(m)) && cut ==> m.table.Full()
    ensures !m.table.Full() ==> |missed| <= m.table.block.failed - old(m.table.block.failed)
    ensures !m.table.Full() ==> ScannedTo(m.table.block.devices, |m.table.block.devices|, old(m.table.scanned), missed,
                                          m.table.parts, m.table.scanned)
    ensures !cut ==> Rows(m.table.parts) == old(Rows(m.table.parts)) +
                       AllRows(m.table.block.devices, |m.table.block.devices|, old(m.table.scanned))
    ensures old(m.AllUsable()) ==> m.AllUsable()
  {
    hide MountsOk, Partitions.PartTable.Valid, Indices, Rows, DeviceRows, Partitions.Reach, Partitions.PartTable.Full,
      MountTable.AllUsable, MountTable.HasRoom, MountTable.Apart, BlockDev.BlockLayer.Valid, BlockDev.ValidRegistry,
      CanScan, CanScanAll, BlockDev.BlockLayer.Answering, ScannedTo, RowsOf, AllRows;
    RegistryValid(m);
    AllRowsNone(m.table.block.devices, m.table.scanned);
    ghost var start, ds, scanned, usable := m.table.Here(), m.table.block.devices, m.table.scanned, m.AllUsable();
    ghost var can := AllScansSafe(m);
    Partitions.ReachRead(ds, start, start);
    assert Rows(start.parts) + [] == Rows(start.parts);
    cut, missed := false, {};
    ScannedNothing(ds, scanned, m.table.parts);
    var d := 0;
    while d < |m.table.block.devices|
      invariant 0 <= d <= |ds| && m.Valid() && BlockDev.ValidRegistry(ds) && m.table.Since(start)
      invariant usable ==> m.AllUsable()
      invariant cut ==> m.table.block.failed > start.failed || m.table.Full()
      invariant can ==> m.table.block.Answering() && (cut ==> m.table.Full())
      invariant !cut ==> Rows(m.table.parts) == Rows(start.parts) + AllRows(ds, d, scanned)
      invariant forall e: nat | d <= e < |ds| :: e in m.table.scanned <==> e in scanned
      invariant !m.table.Full() ==> |missed| <= m.table.block.failed - start.failed
      invariant !m.table.Full() ==> ScannedTo(ds, d, scanned, missed, m.table.parts, m.table.scanned)
    {
      label before:
      AllRowsNext(ds, d, scanned, Rows(start.parts));
      ghost var here, stop, full, now := m.table.Here(), cut, m.table.Full(), m.table.scanned;
      if can && !cut {
        CanScanNow(ds, d, scanned, m.table.scanned);
      }
      cut := Scan(m, d);
      Partitions.ReachOn(ds, start, here, m.table.Here());
      Partitions.ReachFacts(ds, start, here);
      Partitions.ReachFacts(ds, here, m.table.Here());
      if full {
        m.FullLater@before();
      } else if !m.table.Full() {
        ghost var more := if cut then missed + {d} else missed;
        ScannedMore(ds, d, scanned, missed, here.parts, now, m.table.parts, m.table.scanned, more);
        missed := more;
      }
      cut := cut || stop;
      d := d + 1;
    }
    RegistryValid(m);
  }

  lemma AllRowsNone(ds: seq<BlockDev.Device>, scanned: set<nat>)
    requires BlockDev.ValidRegistry(ds)
    ensures AllRows(ds, 0, scanned) == []
  {
  }

  lemma AllRowsNext(ds: seq<BlockDev.Device>, d: nat, scanned: set<nat>, front: seq<Row>)
    requires BlockDev.ValidRegistry(ds) && d < |ds|
    ensures front + AllRows(ds, d + 1, scanned) ==
            front + AllRows(ds, d, scanned) + if Unscanned(ds, d, scanned) then DeviceRows(ds, d) else []
  {
    hide DeviceRows, Unscanned;
  }

  lemma NamesApart(m: MountTable)
    requires m.Valid()
    ensures forall i, j | 0 <= i < j < |m.mounted| ::
              m.mounted[i].name != m.mounted[j].name && m.mounted[i].partition != m.mounted[j].partition
  {
    VolumeNamesDistinct(m.table.block.devices, m.table.parts, m.table.scanned, m.cursor, m.mounted);
  }

  lemma FatPartsNext(parts: seq<Partitions.Part>, from: nat, n: nat, before: seq<nat>)
    requires from <= n < |parts|
    ensures before + FatParts(parts, from, n + 1) ==
            before + FatParts(parts, from, n) + if parts[n].fs == Partitions.Fat32 then [n] else []
  {
  }

  // ---- resolving paths on what is mounted ----

  function FsVolumes(vs: seq<Mounted>): (s: seq<FileSystem.FsVolume>)
    ensures |s| == |vs| && forall i | 0 <= i < |vs| :: s[i] == FileSystem.FsVolume(vs[i].name, vs[i].fat)
  {
    seq(|vs|, i requires 0 <= i < |vs| => FileSystem.FsVolume(vs[i].name, vs[i].fat))
  }

  function PartNames(parts: seq<Partitions.Part>): seq<string> {
    seq(|parts|, i requires 0 <= i < |parts| => parts[i].name)
  }

  ghost predicate AllFit(vs: seq<Mounted>) {
    forall i | 0 <= i < |vs| :: Fits(vs[i].fat.geo)
  }

  /** Paths can be resolved on the mounted volumes: they satisfy everything resolution asks of its volumes. */
  lemma MountedResolve(m: MountTable, fs: FileSystem.FileSys)
    requires m.Valid() && m.AllUsable() && AllFit(m.mounted)
    requires fs.block == m.table.block && fs.statics == m.statics && fs.volumes == FsVolumes(m.mounted)
    requires -1 <= fs.cwdVolume < |fs.volumes|
    ensures fs.Separate() && fs.Valid()
  {
    hide Volume.Valid, Fits, MountsOk, Partitions.PartTable.Valid;
    forall i | 0 <= i < |fs.volumes|
      ensures fs.volumes[i].fat == m.mounted[i].fat && fs.volumes[i].fat.Valid()
    {
      assert Fits(m.mounted[i].fat.geo);
    }
    forall i, j | 0 <= i < |fs.volumes| && 0 <= j < |fs.volumes| && i != j
      ensures fs.volumes[i].fat != fs.volumes[j].fat
      ensures fs.volumes[i].fat.fatBuffer != fs.volumes[j].fat.fatBuffer
      ensures fs.volumes[i].fat.fatBuffer != fs.volumes[j].fat.sectorBuffer
    {
      assert TwoVolumes(m.mounted[i].fat, m.mounted[j].fat);
    }
  }

  /**
   * From registered devices to resolvable paths: FsInit on fresh tables. Unless a read failed or there was no room,
   * the partitions are those of all devices and the volumes are the FAT32 ones; and paths resolve on the volumes.
   */
  method OpenFileSystem(block: BlockDev.BlockLayer, pmm: Pmm.Allocator, statics: Statics)
    returns (m: MountTable, fs: FileSystem.FileSys, ghost cut: bool)
    requires block.Valid() && pmm.Valid() && pmm.bitmap != block.bounce
    requires statics.lfn.Length == FatFormat.LFN_UNITS && statics.name.Length == FatFormat.FAT_NAME_MAX
    modifies pmm`freePages, pmm`live, pmm.bitmap, block`clock, block`log, block`failed, block`lost, block.bounce
    ensures fresh(m) && fresh(m.table) && fresh(fs) && m.table.block == block && m.table.pmm == pmm
    ensures block.Valid() && m.Valid() && m.AllUsable()
    ensures cut ==> block.failed > old(block.failed) || m.table.Full() || !m.HasRoom()
    ensures !cut ==> && Rows(m.table.parts) == AllRows(block.devices, |block.devices|, {})
                     && Indices(m.mounted) == FatParts(m.table.parts, 0, |m.table.parts|)
    ensures block.failed == old(block.failed) ==> Partitions.Exact(block.devices, [], m.table.parts)
    ensures old(block.Answering() && AllOnline(block.devices) && CanScanAll(block.devices, {})) ==>
              Partitions.Exact(block.devices, [], m.table.parts) && (cut ==> m.table.Full() || !m.HasRoom())
    ensures fs.volumes == FsVolumes(m.mounted) && fs.partNames == PartNames(m.table.parts)
    ensures AllFit(m.mounted) ==> fs.Valid()
  {
    hide MountsOk, Partitions.PartTable.Valid, Rows, DeviceRows, Partitions.PartTable.Full, MountTable.AllUsable,
      MountTable.HasRoom, MountTable.Apart, BlockDev.BlockLayer.Valid, Partitions.ExactAt, CanScan, AllOnline,
      BlockDev.BlockLayer.Answering, AllFit;
    var table := new Partitions.PartTable(block, pmm);
    m := new MountTable(table, statics);
    assert Rows([]) + AllRows(block.devices, |block.devices|, {}) == AllRows(block.devices, |block.devices|, {}) by {
      RegistryValid(m);
    }
    var count;
    ghost var missed;
    count, cut, missed := Init(m);
    fs := OpenVolumes(m);
  }

  /** Path resolution on the mounted volumes. */
  method OpenVolumes(m: MountTable) returns (fs: FileSystem.FileSys)
    requires m.Valid() && m.AllUsable()
    ensures fresh(fs) && m.Valid() && m.AllUsable()
    ensures fs.volumes == FsVolumes(m.mounted) && fs.partNames == PartNames(m.table.parts)
    ensures AllFit(m.mounted) ==> fs.Valid()
  {
    hide MountsOk, Partitions.PartTable.Valid, MountTable.Apart, Volume.Valid, Fits;
    var table := m.table;
    fs := new FileSystem.FileSys(table.block, m.statics, FsVolumes(m.mounted), PartNames(table.parts));
    if AllFit(m.mounted) {
      MountedResolve(m, fs);
    }
  }

  // ---- a partition that is passed over for good ----

  /** A disk that is one FAT32 file system. */
  function FatDisk(i: nat): byte {
    if i == 510 then 0x55 else if i == 511 then 0xAA else if i == 12 || i == 44 then 2
    else if i == 13 || i == 14 || i == 16 || i == 36 then 1 else 0
  }

  lemma FatDiskProbe(d: BlockDev.Device)
    requires d.content == FatDisk && d.sectorCount == 0
    ensures BootSectorValid(Slice(d.content, 0, 512)) && Partitions.ProbeOf(d, 0) == Partitions.Fat32
  {
    var s := Slice(FatDisk, 0, 512);
    assert s[3] == 0 && s[510] == 0x55 && s[511] == 0xAA && s[11] == 0 && s[12] == 2 && s[13] == 1 && s[14] == 1;
    assert s[15] == 0 && s[16] == 1 && s[17] == 0 && s[18] == 0 && s[36] == 1 && s[44] == 2;
    assert BootSectorValid(s);
    NotText(s, 3, "NTFS    ");
    NotText(s, 3, "EXFAT   ");
    NotText(s, 3, "-FVE-FS-");
    assert Partitions.BootKind(s) == Some(Partitions.Fat32);
  }

  lemma NotText(s: seq<byte>, at: nat, text: string)
    requires at < |s| && |text| > 0 && s[at] as int != text[0] as int
    ensures !PartitionTables.TextAt(s, at, text)
  {
    assert s[at + 0] as int != text[0] as int;
  }

  /** Three pages of memory. */
  method ThreePages() returns (pmm: Pmm.Allocator)
    ensures fresh(pmm) && fresh(pmm.bitmap) && pmm.Valid() && pmm.Free() == {256, 257, 258}
  {
    hide Pmm.Partition, Pmm.Allocator.TestBit, Pmm.Allocator.Free;
    var d := Pmm.Desc(Pmm.EFI_CONVENTIONAL_MEMORY, 0, 259);
    var memory := [d];
    assert memory[..0] == [];
    assert Pmm.Highest([]) == 0 && Pmm.Highest(memory) == 259 * 4096;
    assert Pmm.HasRoom(memory[0], Pmm.BitmapPagesFor(259));
    pmm := new Pmm.Allocator(memory);
    assert forall p: nat :: Pmm.Conventional(memory, 1, p) <==> d.Holds(p);
    assert forall p: nat :: p in pmm.Free() <==> 256 <= p < 259;
  }

  /** All of it handed out. */
  method NoMemory() returns (pmm: Pmm.Allocator, a: nat, b: nat, c: nat)
    ensures fresh(pmm) && fresh(pmm.bitmap) && pmm.Valid() && pmm.freePages == 0
    ensures a / Pmm.PAGE_SIZE in pmm.live && b / Pmm.PAGE_SIZE in pmm.live && c / Pmm.PAGE_SIZE in pmm.live
    ensures a / Pmm.PAGE_SIZE < b / Pmm.PAGE_SIZE < c / Pmm.PAGE_SIZE
  {
    hide Pmm.Partition, Pmm.Allocator.TestBit, Pmm.Allocator.Free;
    pmm := ThreePages();
    a := pmm.AllocPage();
    assert a / Pmm.PAGE_SIZE == 256;
    b := pmm.AllocPage();
    assert b / Pmm.PAGE_SIZE == 257;
    c := pmm.AllocPage();
    assert pmm.Free() == {};
  }

  /** What scanning a disk that is one FAT32 file system, the only device, must list. */
  lemma {:induction false} FatDiskScanned(ds: seq<BlockDev.Device>, name: string)
    requires BlockDev.ValidRegistry(ds) && |ds| == 1 && ds[0].sectorCount == 0
    requires BootSectorValid(Slice(ds[0].content, 0, 512)) && Partitions.ProbeOf(ds[0], 0) == Partitions.Fat32
    requires name == Partitions.PartName(ds[0].name, 1)
    ensures var l := PartitionTables.Listed(1, 0, 0, []);
            var parts := [Partitions.Part(0, l, Partitions.Raw, name, Partitions.Fat32)];
            Partitions.TableOk(ds, parts, {0}) && Rows(parts) == AllRows(ds, 1, {})
  {
    hide BootSectorValid, Partitions.ProbeOf, Slice, Partitions.PartName, Partitions.Protective,
      PartitionTables.MbrParts;
    var l := PartitionTables.Listed(1, 0, 0, []);
    var p := Partitions.Part(0, l, Partitions.Raw, name, Partitions.Fat32);
    assert Partitions.EntryOk(ds, p, {0});
    assert BlockDev.ValidDevice(ds[0]);
    assert AllRows(ds, 1, {}) == AllRows(ds, 0, {}) + DeviceRows(ds, 0);
    assert DeviceRows(ds, 0) == [Row(0, Partitions.Raw, l)];
    assert Rows([p]) == [Row(0, Partitions.Raw, l)];
  }

  method FatDiskOnly() returns (block: BlockDev.BlockLayer)
    ensures fresh(block) && fresh(block.bounce) && block.Valid() && |block.devices| == 1
    ensures block.devices[0].sectorCount == 0
    ensures var d := block.devices[0];
            BootSectorValid(Slice(d.content, 0, 512)) && Partitions.ProbeOf(d, 0) == Partitions.Fat32
  {
    hide BootSectorValid, Partitions.ProbeOf, Slice;
    block := new BlockDev.BlockLayer(k => true, (i, j) => 0);
    var device := block.AddDevice("d", true, 512, 0, 1, FatDisk);
    FatDiskProbe(block.devices[0]);
  }

  /** The table as a scan of that disk leaves it, before anything is mounted. */
  method ScannedFatDisk(pmm: Pmm.Allocator) returns (m: MountTable)
    requires pmm.Valid()
    ensures fresh(m) && fresh(m.table) && fresh(m.table.block) && fresh(m.table.block.bounce) && m.table.pmm == pmm
    ensures m.Valid() && m.mounted == [] && m.cursor == 0 && |m.table.parts| == 1
    ensures m.table.parts[0].fs == Partitions.Fat32
    ensures m.table.block.Valid() && |m.table.block.devices| == 1
    ensures Rows(m.table.parts) == AllRows(m.table.block.devices, 1, {})
  {
    hide Pmm.Allocator.Valid, Partitions.TableOk, Rows, AllRows, Partitions.PartName, BlockDev.ValidRegistry,
      BootSectorValid, Partitions.ProbeOf, Slice;
    var block := FatDiskOnly();
    var table := new Partitions.PartTable(block, pmm);
    var name := table.MakeName(0, 1);
    FatDiskScanned(block.devices, name);
    table.parts := [Partitions.Part(0, PartitionTables.Listed(1, 0, 0, []), Partitions.Raw, name, Partitions.Fat32)];
    table.scanned := {0};
    var statics := new Statics();
    m := new MountTable(table, statics);
  }

  /** FreePage, beside the mounted volumes. */
  method GiveBack(m: MountTable, addr: nat)
    requires m.Valid() && addr / Pmm.PAGE_SIZE in m.table.pmm.live
    modifies m.table.pmm`freePages, m.table.pmm`live, m.table.pmm.bitmap
    ensures m.Valid() && m.table.pmm.live == old(m.table.pmm.live) - {addr / Pmm.PAGE_SIZE}
    ensures m.table.pmm.freePages == old(m.table.pmm.freePages) + 1
  {
    hide MountsOk, Partitions.TableOk, Pmm.Allocator.TestBit;
    m.table.pmm.LivePage(addr / Pmm.PAGE_SIZE);
    m.table.pmm.FreePage(addr);
  }

  /**
   * The only partition, a FAT32 one, is looked at while no page is free. With all pages given back there is room, and
   * mounting again does not mount it.
   */
  method RoomComesTooLate() returns (m: MountTable, room: bool)
    ensures m.Valid() && room && m.mounted == []
    ensures |m.table.parts| == 1 && m.table.parts[0].fs == Partitions.Fat32
  {
    hide MountsOk, Partitions.PartTable.Valid, MountTable.Apart, Rows, AllRows, Indices, FatParts;
    var pmm, a, b, c := NoMemory();
    m := ScannedFatDisk(pmm);
    ghost var cut;
    var added;
    added, cut := m.MountNew();
    GiveBack(m, a);
    GiveBack(m, b);
    GiveBack(m, c);
    room := m.HasRoom();
    added, cut := m.MountNew();
    FirstInTable(m);
  }

  lemma FirstInTable(m: MountTable)
    requires m.Valid()
    ensures m.mounted != [] ==> m.mounted[0].partition < |m.table.parts|
  {
    assert m.mounted != [] ==> MountOk(m.table.block.devices, m.table.parts, m.cursor, m.mounted[0]);
  }
}
