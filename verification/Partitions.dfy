/** kernel/part.c: partition discovery, and the table of partitions found. */
module Partitions {
  import opened Common
  import opened PartitionTables
  import BlockDev
  import FatVolume
  import Pmm

  const PARTS_PER_PAGE := 51
  const MAX_PART_PAGES := 64
  const MAX_SCANNED := 256
  const NAME_FIELD := 24

  datatype Scheme = Raw | Mbr | Gpt

  datatype Fs = Unknown | Fat32 | Fat16 | Ntfs | ExFat | BitLocker | Ext

  /** PART_INFO. */
  datatype Part = Part(device: nat, listed: Listed, scheme: Scheme, name: string, fs: Fs)

  // ---- names ----

  /** MakeName: device name, 'p', decimal number. */
  function PartName(base: string, number: nat): string {
    base + "p" + Decimal(number)
  }

  /** The number after the last 'p' and the text before it can both be read back. */
  lemma PartNameInjective(a: string, m: nat, b: string, n: nat)
    requires PartName(a, m) == PartName(b, n)
    ensures a == b && m == n
  {
    LastP(a, m);
    LastP(b, n);
    var s := PartName(a, m);
    hide Decimal;
    assert a == s[..|a|] && b == s[..|b|];
    assert s[|a| + 1..] == Decimal(m) && s[|b| + 1..] == Decimal(n);
    DecimalInjective(m, n);
  }

  lemma LastP(a: string, m: nat)
    ensures var s := PartName(a, m);
            |a| < |s| && s[|a|] == 'p' && forall i | |a| < i < |s| :: s[i] != 'p'
  {
    var s, d := PartName(a, m), Decimal(m);
    assert forall i | |a| < i < |s| :: s[i] == d[i - |a| - 1];
    hide Decimal;
  }

  /** Every entry is named after its registered device, numbers are distinct per device, and devices are scanned. */
  ghost predicate TableOk(ds: seq<BlockDev.Device>, parts: seq<Part>, scanned: set<nat>) {
    && (forall i | 0 <= i < |parts| :: EntryOk(ds, parts[i], scanned))
    && (forall i, j | 0 <= i < j < |parts| && parts[i].device == parts[j].device ::
          parts[i].listed.number != parts[j].listed.number)
  }

  ghost predicate EntryOk(ds: seq<BlockDev.Device>, p: Part, scanned: set<nat>) {
    && p.device < |ds| && p.device in scanned && p.listed.number < 1000000
    && p.name == PartName(ds[p.device].name, p.listed.number) && Probed(p, ds[p.device])
  }

  /** The file system is what the partition's sectors say; a failed read can only leave it unknown. */
  ghost predicate Probed(p: Part, d: BlockDev.Device) {
    p.fs == Unknown || p.fs == ProbeOf(d, p.listed.start)
  }

  /** In every reachable state all partition names are pairwise distinct and fit their 24-byte field. */
  lemma NamesDistinct(ds: seq<BlockDev.Device>, parts: seq<Part>, scanned: set<nat>)
    requires BlockDev.ValidRegistry(ds) && TableOk(ds, parts, scanned)
    ensures forall i, j | 0 <= i < j < |parts| :: parts[i].name != parts[j].name
    ensures forall i | 0 <= i < |parts| :: |parts[i].name| < NAME_FIELD && NoNul(parts[i].name)
  {
    forall i, j | 0 <= i < j < |parts|
      ensures parts[i].name != parts[j].name
    {
      var p, q := parts[i], parts[j];
      assert EntryOk(ds, p, scanned) && EntryOk(ds, q, scanned);
      if p.name == q.name {
        PartNameInjective(ds[p.device].name, p.listed.number, ds[q.device].name, q.listed.number);
      }
    }
    forall i | 0 <= i < |parts|
      ensures |parts[i].name| < NAME_FIELD && NoNul(parts[i].name)
    {
      assert EntryOk(ds, parts[i], scanned) && BlockDev.ValidDevice(ds[parts[i].device]);
      assert Pow10(6) == 1000000;
      DecimalWidth(parts[i].listed.number, 6);
    }
  }

  /** Registering and removing devices leaves the table as it should be. */
  lemma TableSurvives(before: seq<BlockDev.Device>, after: seq<BlockDev.Device>, parts: seq<Part>, scanned: set<nat>)
    requires TableOk(before, parts, scanned) && BlockDev.Extends(before, after)
    ensures TableOk(after, parts, scanned)
  {
    forall i | 0 <= i < |parts|
      ensures EntryOk(after, parts[i], scanned)
    {
      assert EntryOk(before, parts[i], scanned);
      var d := parts[i].device;
      ProbeStays(before[d], after[d].online, parts[i].listed.start);
    }
  }

  /** What is on a disk does not depend on whether it is online. */
  lemma ProbeStays(d: BlockDev.Device, online: bool, start: nat)
    ensures ProbeOf(d.(online := online), start) == ProbeOf(d, start)
  {
    hide BootKind;
  }

  // ---- one scan ----

  /** `parts` is `before` followed by entries for `ls`, on one device. */
  ghost predicate Grown(before: seq<Part>, parts: seq<Part>, device: nat, d: BlockDev.Device, scheme: Scheme,
                        ls: seq<Listed>)
  {
    && |parts| == |before| + |ls| && before <= parts
    && forall k | 0 <= k < |ls| :: GrownAt(parts[|before| + k], device, d, scheme, ls[k])
  }

  ghost predicate GrownAt(p: Part, device: nat, d: BlockDev.Device, scheme: Scheme, l: Listed) {
    p.device == device && p.listed == l && p.scheme == scheme && p.name == PartName(d.name, l.number) && Probed(p, d)
  }

  /**
   * Where a scan is: how many reads have failed, how many of them in a driver call, whether all driver calls from now
   * on succeed, the entries, and the pages handed out.
   */
  datatype Mark = Mark(failed: nat, lost: nat, sound: bool, parts: seq<Part>, live: set<nat>)

  /** The entries from `p0` on, of devices that are online, carry the file system their sectors define. */
  ghost predicate Exact(ds: seq<BlockDev.Device>, p0: seq<Part>, p1: seq<Part>) {
    forall i | |p0| <= i < |p1| :: ExactAt(ds, p1[i])
  }

  ghost predicate ExactAt(ds: seq<BlockDev.Device>, p: Part) {
    p.device < |ds| && (ds[p.device].online ==> p.fs == ProbeOf(ds[p.device], p.listed.start))
  }

  /** Entries and pages are only added, and entries added without a failed driver call are exact. */
  ghost predicate Reach(ds: seq<BlockDev.Device>, a: Mark, b: Mark) {
    && Onward(a, b) && a.parts <= b.parts
    && (a.lost == b.lost ==> Exact(ds, a.parts, b.parts))
  }

  /** While the driver answers nothing is lost. */
  ghost predicate Onward(a: Mark, b: Mark) {
    && a.failed <= b.failed && a.lost <= b.lost && a.live <= b.live
    && b.lost - a.lost <= b.failed - a.failed && (a.sound ==> b.sound && a.lost == b.lost)
  }

  lemma ReachOn(ds: seq<BlockDev.Device>, a: Mark, b: Mark, c: Mark)
    requires Reach(ds, a, b) && Reach(ds, b, c)
    ensures Reach(ds, a, c)
  {
    hide ExactAt;
    if a.lost == c.lost {
      forall i | |a.parts| <= i < |c.parts|
        ensures ExactAt(ds, c.parts[i])
      {
        if i < |b.parts| {
          assert c.parts[i] == b.parts[i] && ExactAt(ds, b.parts[i]);
        }
      }
    }
  }

  lemma ReachFacts(ds: seq<BlockDev.Device>, a: Mark, b: Mark)
    requires Reach(ds, a, b)
    ensures Onward(a, b) && a.parts <= b.parts
  {
  }

  /** Reading alone. */
  lemma ReachRead(ds: seq<BlockDev.Device>, a: Mark, b: Mark)
    requires Onward(a, b) && a.parts == b.parts
    ensures Reach(ds, a, b)
  {
  }

  /** One more entry. */
  lemma ReachAdd(ds: seq<BlockDev.Device>, a: Mark, b: Mark, p: Part)
    requires Onward(a, b) && b.parts == a.parts + [p]
    requires a.lost == b.lost ==> ExactAt(ds, p)
    ensures Reach(ds, a, b)
  {
    hide ExactAt;
  }

  /** Storing the type of the entry added last. */
  lemma ReachKind(ds: seq<BlockDev.Device>, a: Mark, b: Mark, c: Mark)
    requires Reach(ds, a, b) && |b.parts| == |a.parts| + 1 && c == b.(parts := c.parts)
    requires |c.parts| == |b.parts| && c.parts[..|a.parts|] == b.parts[..|a.parts|]
    requires var p, q := b.parts[|a.parts|], c.parts[|a.parts|];
             q.fs == p.fs && q.device == p.device && q.listed.start == p.listed.start
    ensures Reach(ds, a, c)
  {
    hide ProbeOf;
    assert a.parts == b.parts[..|a.parts|];
    if a.lost == b.lost {
      assert ExactAt(ds, b.parts[|a.parts|]);
    }
  }

  ghost predicate DistinctNumbers(ls: seq<Listed>) {
    && (forall k | 0 <= k < |ls| :: ls[k].number < 1000000)
    && forall j, k | 0 <= j < k < |ls| :: ls[j].number != ls[k].number
  }

  lemma GrownMore(before: seq<Part>, mid: seq<Part>, parts: seq<Part>, device: nat, d: BlockDev.Device, scheme: Scheme,
                  ls: seq<Listed>, l: Listed)
    requires Grown(before, mid, device, d, scheme, ls)
    requires |parts| == |mid| + 1 && mid <= parts && GrownAt(parts[|mid|], device, d, scheme, l)
    ensures Grown(before, parts, device, d, scheme, ls + [l])
  {
    var ls' := ls + [l];
    forall k | 0 <= k < |ls'|
      ensures GrownAt(parts[|before| + k], device, d, scheme, ls'[k])
    {
      if k < |ls| {
        assert parts[|before| + k] == mid[|before| + k];
      }
    }
  }

  lemma GrownTable(ds: seq<BlockDev.Device>, before: seq<Part>, parts: seq<Part>, scanned: set<nat>, device: nat,
                   scheme: Scheme, ls: seq<Listed>)
    requires device < |ds| && TableOk(ds, before, scanned) && device !in scanned
    requires Grown(before, parts, device, ds[device], scheme, ls) && DistinctNumbers(ls)
    ensures TableOk(ds, parts, scanned + {device})
  {
    forall i | 0 <= i < |parts|
      ensures EntryOk(ds, parts[i], scanned + {device})
      ensures i < |before| ==> parts[i].device != device
      ensures i >= |before| ==> parts[i].device == device && parts[i].listed == ls[i - |before|]
    {
      if i < |before| {
        assert EntryOk(ds, before[i], scanned) && parts[i] == before[i];
      } else {
        assert GrownAt(parts[|before| + (i - |before|)], device, ds[device], scheme, ls[i - |before|]);
      }
    }
  }

  lemma GrownDevice(before: seq<Part>, parts: seq<Part>, device: nat, d: BlockDev.Device, scheme: Scheme,
                    ls: seq<Listed>)
    requires Grown(before, parts, device, d, scheme, ls)
    ensures forall i | |before| <= i < |parts| :: parts[i].device == device
  {
    forall i | |before| <= i < |parts|
      ensures parts[i].device == device
    {
      assert GrownAt(parts[|before| + (i - |before|)], device, d, scheme, ls[i - |before|]);
    }
  }

  lemma GptStep(content: nat -> byte, h: GptHeader, ratio: nat, index: nat)
    requires 128 <= h.entrySize <= ratio * 512
    ensures var e, ls := GptEntry(content, h, ratio, index), GptParts(content, h, ratio, index);
            if GptUsed(e) then
              && GptParts(content, h, ratio, index + 1) == ls + [GptListed(e, index, ratio)]
              && GptListed(e, index, ratio).number == index + 1 && GptListed(e, index, ratio).start < U64
              && GptListed(e, index, ratio).kind == e[..16]
            else GptParts(content, h, ratio, index + 1) == ls
  {
  }

  lemma GptNumbers(content: nat -> byte, h: GptHeader, ratio: nat, n: nat)
    requires h.entrySize >= 128 && ratio * 512 >= h.entrySize && n <= MAX_GPT_ENTRIES
    ensures DistinctNumbers(GptParts(content, h, ratio, n))
  {
    GptPartsSound(content, h, ratio, n);
    var ps := GptParts(content, h, ratio, n);
    forall k | 0 <= k < |ps|
      ensures ps[k].number < 1000000
    {
      assert ps[k] in ps;
    }
  }

  /** After `i` primary entries: primaries carry 1..i, logical partitions 5..logical-1, all different. */
  ghost predicate MbrNumbered(ls: seq<Listed>, i: nat, logical: nat) {
    && (forall k | 0 <= k < |ls| :: 1 <= ls[k].number <= i || FIRST_LOGICAL <= ls[k].number < logical)
    && forall j, k | 0 <= j < k < |ls| :: ls[j].number != ls[k].number
  }

  ghost predicate Consecutive(ls: seq<Listed>, first: nat) {
    forall k | 0 <= k < |ls| :: ls[k].number == first + k
  }

  lemma MbrNumberedChain(ls: seq<Listed>, i: nat, logical: nat, more: seq<Listed>)
    requires MbrNumbered(ls, i, logical) && i <= 4 && logical >= FIRST_LOGICAL && Consecutive(more, logical)
    ensures MbrNumbered(ls + more, i + 1, logical + |more|)
  {
  }

  lemma MbrNumberedNone(logical: nat)
    ensures MbrNumbered([], 0, logical)
  {
  }

  lemma MbrNumberedSkip(ls: seq<Listed>, i: nat, logical: nat)
    requires MbrNumbered(ls, i, logical)
    ensures MbrNumbered(ls, i + 1, logical)
  {
  }

  lemma MbrNumberedDistinct(ls: seq<Listed>, i: nat, logical: nat)
    requires MbrNumbered(ls, i, logical) && i <= 4 && logical <= 100000
    ensures DistinctNumbers(ls)
  {
  }

  lemma MbrNumberedPrimary(ls: seq<Listed>, i: nat, logical: nat, l: Listed)
    requires MbrNumbered(ls, i, logical) && i < 4 && l.number == i + 1
    ensures MbrNumbered(ls + [l], i + 1, logical)
  {
  }

  // ---- file systems ----

  /** The recognisable boot sectors, in the order ProbeFs tests them. */
  function BootKind(s: seq<byte>): Option<Fs>
    requires |s| >= 512
  {
    if TextAt(s, 3, "NTFS    ") then Some(Ntfs)
    else if TextAt(s, 3, "EXFAT   ") then Some(ExFat)
    else if TextAt(s, 3, "-FVE-FS-") then Some(BitLocker)
    else if FatVolume.BootSectorValid(s) then Some(Fat32)
    else if Signed(s) && (TextAt(s, 54, "FAT16   ") || TextAt(s, 54, "FAT12   ") || TextAt(s, 54, "FAT     "))
    then Some(Fat16)
    else None
  }

  /** Sectors past the end of the disk say nothing. */
  function ProbeOf(d: BlockDev.Device, start: nat): Fs {
    if !d.Has(start) then Unknown
    else match BootKind(Slice(d.content, start * 512, 512))
         case Some(fs) => fs
         case None =>
           var s := Slice(d.content, (start + 2) % U64 * 512, 512);
           if d.Has((start + 2) % U64) && s[56] == 0x53 && s[57] == 0xEF then Ext else Unknown
  }

  /** The list of entries a device's table defines: its whole disk, its GPT, or its MBR. */
  function Expected(content: nat -> byte, ratio: nat, size512: nat): (Scheme, seq<Listed>)
    requires ratio >= 1
  {
    var mbr := Slice(content, 0, 512);
    if FatVolume.BootSectorValid(mbr) then (Raw, [Listed(1, 0, size512, [])])
    else if !Signed(mbr) then (Mbr, [])
    else if Protective(mbr) then
      (Gpt, match ParseHeader(NativeSector(content, 1, ratio))
            case None => []
            case Some(h) => GptParts(content, h, ratio, h.entryCount))
    else (Mbr, MbrParts(content, mbr, 4, ratio))
  }

  /** The device holds one native sector. */
  predicate SectorInside(ds: seq<BlockDev.Device>, device: nat, native: nat, ratio: nat)
    requires ValidRatio(ratio)
  {
    BlockDev.InRange(ds, device, NativeLba(native, ratio), ratio)
  }

  /** The device holds sector `s` of the entry table. */
  predicate TableSectorInside(ds: seq<BlockDev.Device>, device: nat, h: GptHeader, ratio: nat, s: nat)
    requires ValidRatio(ratio)
  {
    SectorInside(ds, device, (h.entriesLba + s) % U64, ratio)
  }

  ghost predicate GptInside(ds: seq<BlockDev.Device>, device: nat, h: GptHeader, ratio: nat)
    requires ValidRatio(ratio) && 0 < h.entrySize <= ratio * 512
  {
    forall s | 0 <= s < Quot(h.entryCount + PerSector(h, ratio) - 1, PerSector(h, ratio)) ::
      TableSectorInside(ds, device, h, ratio, s)
  }

  /** The device holds the links of the chain from `ebr` on, as far as the cap lets the scan go. */
  predicate EbrInside(ds: seq<BlockDev.Device>, device: nat, ext: nat, ebr: nat, ratio: nat, cap: nat)
    requires ValidRatio(ratio) && device < |ds|
    decreases cap
  {
    cap > 0 ==>
      && SectorInside(ds, device, ebr, ratio)
      && var next := LinkAt(ds[device].content, ext, ebr, 0, ratio).next;
         next.Some? ==> EbrInside(ds, device, ext, next.value, ratio, cap - 1)
  }

  predicate PrimaryInside(ds: seq<BlockDev.Device>, device: nat, mbr: seq<byte>, ratio: nat, i: nat)
    requires ValidRatio(ratio) && device < |ds| && |mbr| >= 512 && i < 4
  {
    var e := EntryAt(mbr, 446 + i * 16);
    !e.Empty() && e.Extended() ==> EbrInside(ds, device, e.start, e.start, ratio, MAX_EBR_CHAIN)
  }

  /** The device is online and holds every sector its own table sends the scan to. */
  ghost predicate TableInside(ds: seq<BlockDev.Device>, device: int)
    requires BlockDev.ValidRegistry(ds)
  {
    && 0 <= device < |ds| && BlockDev.InRange(ds, device, 0, 1)
    && assert BlockDev.ValidDevice(ds[device]);
       var ratio, mbr := ds[device].Ratio(), Slice(ds[device].content, 0, 512);
       !FatVolume.BootSectorValid(mbr) && Signed(mbr) ==>
         if Protective(mbr) then
           && SectorInside(ds, device, 1, ratio)
           && match ParseHeader(NativeSector(ds[device].content, 1, ratio))
              case None => true
              case Some(h) => GptInside(ds, device, h, ratio)
         else forall i | 0 <= i < 4 :: PrimaryInside(ds, device, mbr, ratio, i)
  }

  function ScanRatio(sectorSize: nat): nat {
    if sectorSize / 512 == 0 then 1 else sectorSize / 512
  }

  /** One of the four primary entries announces a GPT. */
  predicate Protective(mbr: seq<byte>)
    requires |mbr| >= 512
  {
    mbr[450] == 0xEE || mbr[466] == 0xEE || mbr[482] == 0xEE || mbr[498] == 0xEE
  }

  /** How the scan of an EBR chain ends: at its end, at a sector that cannot be read, or with the table full. */
  datatype Outcome = Fine | Unreadable | NoRoom

  class PartTable {
    const block: BlockDev.BlockLayer
    const pmm: Pmm.Allocator
    /** The static buffers: Sector is shared by the MBR scan and by ProbeFs, Table holds the GPT. */
    const sector: array<byte>
    const table: array<byte>
    var sectorReady: bool
    var parts: seq<Part>
    var pagesHeld: nat
    var scanned: set<nat>

    /** The buffers are there and apart. */
    ghost predicate Shape()
      reads block`devices, pmm`bitmap
    {
      && block.Valid() && sector.Length == 4096 && table.Length == 4096
      && sector != table && sector != block.bounce && table != block.bounce
      && pmm.bitmap != sector && pmm.bitmap != table && pmm.bitmap != block.bounce
    }

    ghost predicate Valid()
      reads this, block`devices, pmm, pmm.bitmap
    {
      Shape() && pmm.Valid() && TableOk(block.devices, parts, scanned)
    }

    constructor (block: BlockDev.BlockLayer, pmm: Pmm.Allocator)
      requires block.Valid() && pmm.Valid() && pmm.bitmap != block.bounce
      ensures Valid() && this.block == block && this.pmm == pmm && parts == [] && scanned == {}
      ensures fresh(sector) && fresh(table)
    {
      this.block, this.pmm := block, pmm;
      var s, t := new byte[4096], new byte[4096];
      sector, table := s, t;
      sectorReady, parts, pagesHeld, scanned := false, [], 0, {};
    }

    method ReadNative(device: nat, native: nat, ratio: nat, dst: array<byte>) returns (ok: bool)
      requires Shape() && device < |block.devices| && ValidRatio(ratio) && dst.Length == 4096 && dst != block.bounce
      modifies dst, block`clock, block`log, block`failed, block`lost, block.bounce
      ensures ok ==> dst[..ratio * 512] == NativeSector(block.devices[device].content, native, ratio)
      ensures if ok then block.failed == old(block.failed) else block.failed > old(block.failed)
      ensures 0 <= block.lost - old(block.lost) <= block.failed - old(block.failed)
      ensures old(block.Answering()) ==>
                && block.Answering() && block.lost == old(block.lost)
                && (SectorInside(block.devices, device, native, ratio) ==> ok)
    {
      NativeLbaRoom(native, ratio);
      ok := block.ReadFrom(device, NativeLba(native, ratio), ratio, dst, 0);
      assert dst[0..ratio * 512] == dst[..ratio * 512];
    }

    /** ProbeFs: overwrites the shared sector buffer. */
    method ProbeFs(device: nat, start: nat) returns (fs: Fs)
      requires Shape() && device < |block.devices| && start < U64
      modifies sector, block`clock, block`log, block`failed, block`lost, block.bounce
      ensures 0 <= block.lost - old(block.lost) <= block.failed - old(block.failed)
      ensures fs == Unknown || fs == ProbeOf(block.devices[device], start)
      ensures block.lost == old(block.lost) && block.devices[device].online ==>
                fs == ProbeOf(block.devices[device], start)
      ensures old(block.Answering()) ==> block.Answering() && block.lost == old(block.lost)
    {
      hide BootKind, BlockDev.Device.Total, BlockDev.BlockLayer.Answering, BlockDev.GoodRequest;
      var ok := block.ReadFrom(device, start, 1, sector, 0);
      if !ok {
        return Unknown;
      }
      var s := sector[0..512];
      var kind := BootKind(s);
      if kind.Some? {
        return kind.value;
      }
      ok := block.ReadFrom(device, (start + 2) % U64, 1, sector, 0);
      if ok {
        var s2 := sector[0..512];
        return if s2[56] == 0x53 && s2[57] == 0xEF then Ext else Unknown;
      }
      return Unknown;
    }

    lemma NumberWidth(number: nat)
      requires number < 1000000
      ensures |Decimal(number)| <= 6
    {
      assert Pow10(6) == 1000000;
      DecimalWidth(number, 6);
    }

    /** MakeName, digit by digit; the digit buffer has room for seven. */
    method MakeName(device: nat, number: nat) returns (name: string)
      requires block.Valid() && device < |block.devices| && number < 1000000
      ensures name == PartName(block.devices[device].name, number)
    {
      hide Decimal, Digit, Pow10, BlockDev.BlockLayer.Valid, BlockDev.ValidRegistry;
      name := block.devices[device].name + "p";
      ghost var base := name;
      var digits: seq<char> := [];
      var value := number;
      NumberWidth(number);
      DecimalEnds(number);
      ghost var whole := Decimal(number);
      digits, value := [Digit(value % 10)], value / 10;
      while value > 0 && |digits| < 7
        invariant 1 <= |digits| <= |whole| && value < 1000000
        invariant if value == 0 then |digits| == |whole|
                  else |digits| < |whole| && whole[..|whole| - |digits|] == Decimal(value)
        invariant forall k | 0 <= k < |digits| :: digits[k] == whole[|whole| - 1 - k]
        decreases value
      {
        DecimalEnds(value);
        ghost var front := whole[..|whole| - |digits|];
        assert front[|front| - 1] == whole[|whole| - 1 - |digits|];
        assert front[..|front| - 1] == whole[..|whole| - |digits| - 1];
        digits, value := digits + [Digit(value % 10)], value / 10;
      }
      var n := |digits|;
      while n > 0
        invariant 0 <= n <= |digits|
        invariant name == base + whole[..|digits| - n]
      {
        n := n - 1;
        name := name + [digits[n]];
        assert whole[..|digits| - n] == whole[..|digits| - n - 1] + [digits[n]];
      }
    }

    /** Buffers and page allocator are in order. */
    ghost predicate Ready()
      reads block`devices, pmm, pmm.bitmap
    {
      Shape() && pmm.Valid()
    }

    ghost function Here(): Mark
      reads this`parts, block`failed, block`lost, block`clock, pmm`live
    {
      Mark(block.failed, block.lost, block.Answering(), parts, pmm.live)
    }

    ghost predicate Since(m: Mark)
      reads this`parts, block`devices, block`failed, block`lost, block`clock, pmm`live
    {
      Reach(block.devices, m, Here())
    }

    /** No room for another entry: the page table is full, or there is no page left to grow it. */
    ghost predicate Full()
      reads this`parts, pmm, pmm.bitmap
    {
      |parts| >= PARTS_PER_PAGE * MAX_PART_PAGES || (pmm.totalPages <= pmm.bitmap.Length * 8 && pmm.Free() == {})
    }

    ghost predicate Ends(before: seq<Part>, device: nat, scheme: Scheme, ls: seq<Listed>)
      reads this`parts, block`devices
    {
      device < |block.devices| && Grown(before, parts, device, block.devices[device], scheme, ls)
    }

    /** AddPart. Adding probes the new partition, which overwrites the shared sector buffer but not the table. */
    method AddPart(device: nat, number: nat, start: nat, count: nat, scheme: Scheme) returns (ok: bool)
      requires Ready() && device < |block.devices| && number < 1000000 && start < U64
      modifies this`parts, this`pagesHeld, pmm`freePages, pmm`live, pmm.bitmap
      modifies sector, block`clock, block`log, block`failed, block`lost, block.bounce
      ensures Ready() && Since(old(Here()))
      ensures !ok ==> parts == old(parts) && Full()
      ensures ok ==> && |parts| == old(|parts|) + 1 && old(parts) <= parts
                     && GrownAt(parts[old(|parts|)], device, block.devices[device], scheme,
                                Listed(number, start, count, []))
                     && (block.lost == old(block.lost) && block.devices[device].online ==>
                           parts[old(|parts|)].fs == ProbeOf(block.devices[device], start))
    {
      hide Shape, ProbeOf, BlockDev.BlockLayer.Valid, Pmm.Allocator.Valid, Reach;
      ShapeFacts();
      ghost var m := Here();
      ok := HavePage();
      if ok {
        var name := MakeName(device, number);
        var fs := ProbeFs(device, start);
        var p := Part(device, Listed(number, start, count, []), scheme, name, fs);
        parts := parts + [p];
        ReachAdd(block.devices, m, Here(), p);
      } else {
        ReachRead(block.devices, m, Here());
      }
    }

    lemma ShapeFacts()
      requires Shape()
      ensures block.Valid() && pmm.bitmap != sector && pmm.bitmap != block.bounce
    {
    }

    /** Room for one more entry: an existing page of the table, or a new one from the allocator. */
    method HavePage() returns (ok: bool)
      requires pmm.Valid()
      modifies this`pagesHeld, pmm`freePages, pmm`live, pmm.bitmap
      ensures pmm.Valid() && old(pmm.live) <= pmm.live && (!ok ==> Full())
    {
      var page := |parts| / PARTS_PER_PAGE;
      ok := page < MAX_PART_PAGES;
      if ok && page >= pagesHeld {
        var addr := pmm.AllocPage();
        ok := addr != 0;
        if ok {
          pagesHeld := pagesHeld + 1;
        }
      }
    }

    /** Storing the type through the pointer AddPart returned. */
    method SetKind(kind: seq<byte>)
      requires |parts| > 0
      modifies this`parts
      ensures |parts| == old(|parts|) && parts[..|parts| - 1] == old(parts[..|parts| - 1])
      ensures parts[|parts| - 1] ==
              old(parts[|parts| - 1]).(listed := old(parts[|parts| - 1]).listed.(kind := kind))
    {
      var p := parts[|parts| - 1];
      parts := parts[|parts| - 1 := p.(listed := p.listed.(kind := kind))];
    }

    // ---- GPT ----

    /** AddPart, then the type GUID copied from the table buffer, which the probe has left alone. */
    method AddGpt(device: nat, l: Listed, at: nat, ghost before: seq<Part>, ghost ls: seq<Listed>) returns (ok: bool)
      requires Ready() && Ends(before, device, Gpt, ls) && l.number < 1000000 && l.start < U64
      requires at + 16 <= 4096 && table[at..at + 16] == l.kind
      modifies this`parts, this`pagesHeld, pmm`freePages, pmm`live, pmm.bitmap
      modifies sector, block`clock, block`log, block`failed, block`lost, block.bounce
      ensures Ready() && Since(old(Here()))
      ensures if ok then |parts| == old(|parts|) + 1 && Ends(before, device, Gpt, ls + [l])
              else parts == old(parts) && Full()
    {
      assert table.Length == 4096 && table != sector && table != block.bounce && table != pmm.bitmap;
      hide Ready, ProbeOf, Full, Grown, Reach;
      ghost var mid, m := parts, Here();
      ok := AddPart(device, l.number, l.start, l.count, Gpt);
      ghost var added := Here();
      GrownLonger(m, added);
      if ok {
        SetKind(table[at..at + 16]);
        GrownMore(before, mid, parts, device, block.devices[device], Gpt, ls, l);
        ReachKind(block.devices, m, added, Here());
      }
    }

    /** What Reach promises, for proofs that keep its definition out of sight. */
    lemma GrownLonger(a: Mark, b: Mark)
      requires Reach(block.devices, a, b)
      ensures Onward(a, b) && a.parts <= b.parts
    {
    }

    static method IsEmptyGuid(e: seq<byte>) returns (empty: bool)
      requires |e| >= 16
      ensures empty <==> !exists i :: 0 <= i < 16 && e[i] != 0
    {
      var i := 0;
      while i < 16 && e[i] == 0
        invariant 0 <= i <= 16 && forall k | 0 <= k < i :: e[k] == 0
      {
        i := i + 1;
      }
      empty := i == 16;
    }

    /** Entry `index`, at offset `at` of the table buffer. */
    method ScanGptEntry(device: nat, ratio: nat, h: GptHeader, at: nat, index: nat, ghost content: nat -> byte,
                        ghost before: seq<Part>)
      returns (ok: bool, added: nat, next: nat)
      requires Ready() && 128 <= h.entrySize <= ratio * 512 && index < MAX_GPT_ENTRIES
      requires at + h.entrySize <= 4096 && table[at..at + h.entrySize] == GptEntry(content, h, ratio, index)
      requires Ends(before, device, Gpt, GptParts(content, h, ratio, index))
      modifies this`parts, this`pagesHeld, pmm`freePages, pmm`live, pmm.bitmap
      modifies sector, block`clock, block`log, block`failed, block`lost, block.bounce
      ensures Ready() && Since(old(Here())) && (!ok ==> Full())
      ensures |parts| == old(|parts|) + added && next == index + if ok then 1 else 0
      ensures Ends(before, device, Gpt, GptParts(content, h, ratio, next))
    {
      var entry := table[at..at + h.entrySize];
      assert table[at..at + 16] == entry[..16];
      GptStep(content, h, ratio, index);
      ghost var ls := GptParts(content, h, ratio, index);
      hide Ready, Full, Ends, GptParts, GptListed, GptEntry, Le64, Reach;
      ReachRead(block.devices, Here(), Here());
      ok, added := true, 0;
      var empty := IsEmptyGuid(entry);
      if !empty && Le64(entry, 32) <= Le64(entry, 40) {
        ok := AddGpt(device, GptListed(entry, index, ratio), at, before, ls);
        added := if ok then 1 else 0;
      }
      next := if ok then index + 1 else index;
    }

    lemma TableLength()
      requires Ready()
      ensures table.Length == 4096
    {
    }

    /** One turn of the inner loop: entry number `e` of the sector in the table buffer. */
    method ScanGptSlot(device: nat, ratio: nat, h: GptHeader, ghost s: nat, ghost base: nat, e: nat, index: nat,
                       ghost content: nat -> byte, ghost before: seq<Part>)
      returns (ok: bool, added: nat, next: nat)
      requires Ready() && ValidRatio(ratio) && 128 <= h.entrySize <= ratio * 512 && index < MAX_GPT_ENTRIES
      requires e < PerSector(h, ratio) && index == base + e && StartsSector(base, s, PerSector(h, ratio))
      requires table[..ratio * 512] == GptSector(content, h, ratio, s)
      requires Ends(before, device, Gpt, GptParts(content, h, ratio, index))
      modifies this`parts, this`pagesHeld, pmm`freePages, pmm`live, pmm.bitmap
      modifies sector, block`clock, block`log, block`failed, block`lost, block.bounce
      ensures Ready() && Since(old(Here())) && (!ok ==> Full())
      ensures |parts| == old(|parts|) + added && next == index + if ok then 1 else 0
      ensures Ends(before, device, Gpt, GptParts(content, h, ratio, next))
    {
      hide Ready, Full, Ends, GptParts, GptEntry, GptSector, PerSector, StartsSector, EntryOffset, Reach;
      TableLength();
      GptEntryInSector(content, h, ratio, s, base, e);
      var at := EntryOffset(e, h.entrySize);
      SubSlice(table[..], ratio * 512, at, at + h.entrySize);
      assert table[..][..ratio * 512] == table[..ratio * 512];
      assert table[..][at..at + h.entrySize] == table[at..at + h.entrySize];
      ok, added, next := ScanGptEntry(device, ratio, h, at, index, content, before);
    }

    /** The inner loop of ScanGpt: the entries of the table sector just read, up to the entry count. */
    method ScanGptSector(device: nat, ratio: nat, h: GptHeader, ghost s: nat, base: nat, ghost content: nat -> byte,
                         ghost before: seq<Part>)
      returns (ok: bool, found: nat, n: nat)
      requires Ready() && ValidRatio(ratio)
      requires 128 <= h.entrySize <= ratio * 512 && base < h.entryCount <= MAX_GPT_ENTRIES
      requires StartsSector(base, s, PerSector(h, ratio)) && table[..ratio * 512] == GptSector(content, h, ratio, s)
      requires Ends(before, device, Gpt, GptParts(content, h, ratio, base))
      modifies this`parts, this`pagesHeld, pmm`freePages, pmm`live, pmm.bitmap
      modifies sector, block`clock, block`log, block`failed, block`lost, block.bounce
      ensures Ready() && Since(old(Here())) && (!ok ==> Full())
      ensures |parts| == old(|parts|) + found && n <= h.entryCount
      ensures ok ==> n == Min(base + PerSector(h, ratio), h.entryCount)
      ensures Ends(before, device, Gpt, GptParts(content, h, ratio, n))
    {
      assert table.Length == 4096 && table != sector && table != block.bounce && table != pmm.bitmap;
      var per := PerSector(h, ratio);
      hide Ready, Full, Ends, GptParts, GptSector, PerSector, StartsSector, Reach;
      ghost var start := Here();
      ReachRead(block.devices, start, start);
      ok, found, n := true, 0, base;
      while ok && n < base + per && n < h.entryCount
        invariant base <= n <= base + per && n <= h.entryCount
        invariant Ready() && Since(start) && (!ok ==> Full())
        invariant |parts| == old(|parts|) + found && table[..ratio * 512] == GptSector(content, h, ratio, s)
        invariant Ends(before, device, Gpt, GptParts(content, h, ratio, n))
        decreases ok, base + per - n
      {
        var added;
        ghost var m := Here();
        ok, added, n := ScanGptSlot(device, ratio, h, s, base, n - base, n, content, before);
        ReachOn(block.devices, start, m, Here());
        found := found + added;
      }
    }

    /**
     * ScanGpt. What it adds is always the listing of a prefix of the entry table, each index visited once; unless
     * a table sector could not be read or the partition table filled up (`cut`), it is the listing of all of it.
     */
    method ScanGpt(device: nat, ratio: nat) returns (found: nat, cut: bool, ghost ls: seq<Listed>)
      requires Ready() && device < |block.devices| && ratio == block.devices[device].Ratio() && ValidRatio(ratio)
      modifies this`parts, this`pagesHeld, pmm`freePages, pmm`live, pmm.bitmap
      modifies sector, table, block`clock, block`log, block`failed, block`lost, block.bounce
      ensures Ready() && |parts| == old(|parts|) + found && Since(old(Here()))
      ensures cut ==> block.failed > old(block.failed) || Full()
      ensures Ends(old(parts), device, Gpt, ls) && DistinctNumbers(ls)
      ensures match ParseHeader(NativeSector(block.devices[device].content, 1, ratio))
              case None => ls == []
              case Some(h) => exists n: nat ::
                n <= h.entryCount && ls == GptParts(block.devices[device].content, h, ratio, n)
                && (!cut ==> n == h.entryCount)
      ensures old(block.Answering()) && SectorInside(block.devices, device, 1, ratio) ==>
                match ParseHeader(NativeSector(block.devices[device].content, 1, ratio))
                case None => !cut
                case Some(h) => GptInside(block.devices, device, h, ratio) && cut ==> Full()
    {
      hide Full, Ends, DistinctNumbers, ParseHeader, NativeSector, Exact, GptInside, GptParts, Pmm.Allocator.Valid;
      ghost var content := block.devices[device].content;
      found, cut, ls := 0, false, [];
      NoNumbers();
      EndsNothing(device, Gpt);
      NoEntries(content, ratio);
      ghost var start := Here();
      var ok := ReadNative(device, 1, ratio, table);
      ghost var m := Here();
      ReachRead(block.devices, start, m);
      cut := !ok;
      var header := if ok then ParseHeader(table[..ratio * 512]) else None;
      if header.Some? {
        ghost var n;
        found, cut, n := ScanGptTable(device, ratio, header.value, content);
        ReachOn(block.devices, start, m, Here());
        ls := GptParts(content, header.value, ratio, n);
        GptNumbers(content, header.value, ratio, n);
      }
    }

    lemma EndsNothing(device: nat, scheme: Scheme)
      requires device < |block.devices|
      ensures Ends(parts, device, scheme, [])
    {
    }

    lemma NoEntries(content: nat -> byte, ratio: nat)
      requires ratio >= 1
      ensures var header := ParseHeader(NativeSector(content, 1, ratio));
              header.Some? ==> && 128 <= header.value.entrySize <= ratio * 512
                               && 1 <= header.value.entryCount <= MAX_GPT_ENTRIES
                               && GptParts(content, header.value, ratio, 0) == []
    {
    }

    /** One turn of the outer loop: read sector `s` of the entry table and scan it. */
    method NextGptSector(device: nat, ratio: nat, h: GptHeader, s: nat, base: nat, ghost content: nat -> byte,
                         ghost before: seq<Part>)
      returns (ok: bool, found: nat, n: nat)
      requires Ready() && ValidRatio(ratio) && device < |block.devices| && content == block.devices[device].content
      requires 128 <= h.entrySize <= ratio * 512 && base < h.entryCount <= MAX_GPT_ENTRIES
      requires StartsSector(base, s, PerSector(h, ratio))
      requires Ends(before, device, Gpt, GptParts(content, h, ratio, base))
      modifies this`parts, this`pagesHeld, pmm`freePages, pmm`live, pmm.bitmap
      modifies sector, table, block`clock, block`log, block`failed, block`lost, block.bounce
      ensures Ready() && Since(old(Here())) && (!ok ==> block.failed > old(block.failed) || Full())
      ensures old(block.Answering()) && TableSectorInside(block.devices, device, h, ratio, s) && !ok ==> Full()
      ensures |parts| == old(|parts|) + found && n <= h.entryCount
      ensures ok ==> n == Min(base + PerSector(h, ratio), h.entryCount)
      ensures Ends(before, device, Gpt, GptParts(content, h, ratio, n))
    {
      assert table.Length == 4096 && table != pmm.bitmap && block.bounce != pmm.bitmap;
      assert Shape() && table != block.bounce;
      found, n := 0, base;
      var native := (h.entriesLba + s) % U64;
      assert NativeSector(content, native, ratio) == GptSector(content, h, ratio, s);
      hide Full, Ends, GptParts, PerSector, StartsSector, GptSector, NativeSector, Pmm.Allocator.Valid, Reach;
      ghost var start := Here();
      ok := ReadNative(device, native, ratio, table);
      ghost var m := Here();
      ReachRead(block.devices, start, m);
      if ok {
        ok, found, n := ScanGptSector(device, ratio, h, s, base, content, before);
        GrownLonger(m, Here());
        ReachOn(block.devices, start, m, Here());
      }
    }

    lemma TableStart(device: nat, ratio: nat, h: GptHeader, content: nat -> byte)
      requires device < |block.devices| && 128 <= h.entrySize <= ratio * 512
      ensures PerSector(h, ratio) > 0 && StartsSector(0, 0, PerSector(h, ratio))
      ensures Ends(parts, device, Gpt, GptParts(content, h, ratio, 0))
    {
    }

    /** The outer loop of ScanGpt: the sectors of the entry table. */
    method ScanGptTable(device: nat, ratio: nat, h: GptHeader, ghost content: nat -> byte)
      returns (found: nat, cut: bool, n: nat)
      requires Ready() && device < |block.devices| && content == block.devices[device].content && ValidRatio(ratio)
      requires 128 <= h.entrySize <= ratio * 512 && 1 <= h.entryCount <= MAX_GPT_ENTRIES
      modifies this`parts, this`pagesHeld, pmm`freePages, pmm`live, pmm.bitmap
      modifies sector, table, block`clock, block`log, block`failed, block`lost, block.bounce
      ensures Ready() && |parts| == old(|parts|) + found && n <= h.entryCount && Since(old(Here()))
      ensures cut ==> block.failed > old(block.failed) || Full()
      ensures old(block.Answering()) && GptInside(block.devices, device, h, ratio) && cut ==> Full()
      ensures !cut ==> n == h.entryCount
      ensures Ends(old(parts), device, Gpt, GptParts(content, h, ratio, n))
    {
      hide Ready, Full, Ends, GptParts, PerSector, StartsSector, Quot, Exact;
      ghost var before := parts;
      TableStart(device, ratio, h, content);
      var per := PerSector(h, ratio);
      var sectors := Quot(h.entryCount + per - 1, per);
      var s, base := 0, 0;
      found, cut, n := 0, false, 0;
      ghost var start := Here();
      ReachRead(block.devices, start, start);
      while s < sectors && !cut
        invariant StartsSector(base, s, per) && s <= sectors
        invariant n <= h.entryCount && (!cut ==> n == Min(base, h.entryCount))
        invariant Ready() && Since(start) && (cut ==> block.failed > old(block.failed) || Full())
        invariant start.sound && GptInside(block.devices, device, h, ratio) && cut ==> Full()
        invariant |parts| == old(|parts|) + found
        invariant Ends(before, device, Gpt, GptParts(content, h, ratio, n))
        decreases !cut, sectors - s
      {
        SectorStep(base, s, per, h.entryCount);
        var ok, added;
        ghost var m := Here();
        ok, added, n := NextGptSector(device, ratio, h, s, base, content, before);
        ReachOn(block.devices, start, m, Here());
        found, cut := found + added, !ok;
        s, base := s + 1, base + per;
      }
      SectorStep(base, s, per, h.entryCount);
    }

    // ---- MBR ----

    /** AddPart, then the MBR type from a copy of the table entry. */
    method AddMbr(device: nat, l: Listed, ghost before: seq<Part>, ghost ls: seq<Listed>) returns (ok: bool)
      requires Ready() && Ends(before, device, Mbr, ls) && l.number < 1000000 && l.start < U64
      modifies this`parts, this`pagesHeld, pmm`freePages, pmm`live, pmm.bitmap
      modifies sector, block`clock, block`log, block`failed, block`lost, block.bounce
      ensures Ready() && Since(old(Here()))
      ensures if ok then |parts| == old(|parts|) + 1 && Ends(before, device, Mbr, ls + [l])
              else parts == old(parts) && Full()
    {
      hide Ready, ProbeOf, Full, Grown, Reach;
      ghost var mid, m := parts, Here();
      ok := AddPart(device, l.number, l.start, l.count, Mbr);
      ghost var added := Here();
      GrownLonger(m, added);
      if ok {
        SetKind(l.kind);
        GrownMore(before, mid, parts, device, block.devices[device], Mbr, ls, l);
        ReachKind(block.devices, m, added, Here());
      }
    }

    /** Reads one EBR. Its two entries are copied out of the sector buffer before anything else is read into it. */
    method ReadLink(device: nat, ratio: nat, ext: nat, ebr: nat, logical: nat) returns (ok: bool, link: Link)
      requires Ready() && device < |block.devices| && ValidRatio(ratio)
      modifies sector, block`clock, block`log, block`failed, block`lost, block.bounce
      ensures Ready() && block.failed >= old(block.failed) && (!ok ==> block.failed > old(block.failed))
      ensures ok ==> link == LinkAt(block.devices[device].content, ext, ebr, logical, ratio)
      ensures 0 <= block.lost - old(block.lost) <= block.failed - old(block.failed)
      ensures old(block.Answering()) ==>
                && block.Answering() && block.lost == old(block.lost)
                && (SectorInside(block.devices, device, ebr, ratio) ==> ok)
    {
      link := Link(None, None);
      ok := ReadNative(device, ebr, ratio, sector);
      if ok {
        var s := sector[..ratio * 512];
        if Signed(s) {
          link := EbrLink(s, ext, ebr, logical, ratio);
        }
      }
    }

    /** One turn of the EBR loop. */
    method ScanLink(device: nat, ratio: nat, ext: nat, ebr: nat, logical: nat, ghost before: seq<Part>,
                    ghost ls: seq<Listed>)
      returns (outcome: Outcome, added: nat, next: Option<nat>)
      requires Ready() && Ends(before, device, Mbr, ls) && ValidRatio(ratio) && logical < 1000000
      modifies this`parts, this`pagesHeld, pmm`freePages, pmm`live, pmm.bitmap
      modifies sector, block`clock, block`log, block`failed, block`lost, block.bounce
      ensures Ready() && Since(old(Here()))
      ensures (outcome == Unreadable ==> block.failed > old(block.failed)) && (outcome == NoRoom ==> Full())
      ensures old(block.Answering()) && SectorInside(block.devices, device, ebr, ratio) ==> outcome != Unreadable
      ensures |parts| == old(|parts|) + added
      ensures var l := LinkAt(block.devices[device].content, ext, ebr, logical, ratio);
              if outcome == Fine then next == l.next && added == |l.Here()| && Ends(before, device, Mbr, ls + l.Here())
              else added == 0 && Ends(before, device, Mbr, ls)
    {
      hide Ready, Full, LinkAt, Grown, Reach;
      ghost var start := Here();
      var ok, link := ReadLink(device, ratio, ext, ebr, logical);
      ghost var m := Here();
      ReachRead(block.devices, start, m);
      outcome, added, next := if ok then Fine else Unreadable, 0, link.next;
      assert ls + [] == ls;
      LinkStart(block.devices[device].content, ext, ebr, logical, ratio);
      if ok && link.part.Some? {
        ok := AddMbr(device, link.part.value, before, ls);
        GrownLonger(m, Here());
        ReachOn(block.devices, start, m, Here());
        outcome, added := if ok then Fine else NoRoom, if ok then 1 else 0;
      }
    }

    lemma LinkStart(content: nat -> byte, ext: nat, ebr: nat, number: nat, ratio: nat)
      requires ratio >= 1
      ensures var l := LinkAt(content, ext, ebr, number, ratio);
              l.part.Some? ==> l.part.value.start < U64 && l.part.value.number == number
    {
    }

    /** One turn of the loop, and what is left of the chain after it. */
    method ChainTurn(device: nat, ratio: nat, ext: nat, ebr: nat, number: nat, ghost cap: nat, ghost before: seq<Part>,
                     ghost ls: seq<Listed>, ghost more0: seq<Listed>, ghost first: nat)
      returns (outcome: Outcome, added: nat, next: Option<nat>, ghost more: seq<Listed>)
      requires Ready() && Ends(before, device, Mbr, ls + more0) && ValidRatio(ratio) && number < 1000000 && cap > 0
      requires Consecutive(more0, first) && number == first + |more0| && device < |block.devices|
      modifies this`parts, this`pagesHeld, pmm`freePages, pmm`live, pmm.bitmap
      modifies sector, block`clock, block`log, block`failed, block`lost, block.bounce
      ensures Ready() && Since(old(Here()))
      ensures (outcome == Unreadable ==> block.failed > old(block.failed)) && (outcome == NoRoom ==> Full())
      ensures |parts| == old(|parts|) + added && |more| == |more0| + added && added <= 1
      ensures Ends(before, device, Mbr, ls + more) && Consecutive(more, first)
      ensures outcome != Fine ==> more == more0
      ensures outcome == Fine ==>
                more0 + EbrCapped(block.devices[device].content, ext, ebr, number, ratio, cap) == more +
                  if next.None? then []
                  else EbrCapped(block.devices[device].content, ext, next.value, number + added, ratio, cap - 1)
      ensures old(block.Answering()) && EbrInside(block.devices, device, ext, ebr, ratio, cap) ==>
                && outcome != Unreadable
                && (outcome == Fine && next.Some? ==>
                      EbrInside(block.devices, device, ext, next.value, ratio, cap - 1))
    {
      hide Ready, Full, LinkAt, EbrCapped, Consecutive, Ends, Reach, EbrInside, SectorInside;
      ghost var content := block.devices[device].content;
      ghost var l := LinkAt(content, ext, ebr, number, ratio);
      LinkShape(content, ext, ebr, number, ratio);
      EbrInsideStep(device, ext, ebr, ratio, cap);
      CappedStep(content, ext, ebr, number, ratio, cap, more0);
      outcome, added, next := ScanLink(device, ratio, ext, ebr, number, before, ls + more0);
      more := more0;
      if outcome == Fine {
        ConsecutiveMore(more0, l.Here(), first);
        AppendTo(ls, more0, l.Here());
        more := more0 + l.Here();
      }
    }

    /** The EBR chain of one extended entry: at most MAX_EBR_CHAIN links. */
    method ScanChain(device: nat, ratio: nat, ext: nat, first: nat, ghost before: seq<Part>, ghost ls: seq<Listed>)
      returns (outcome: Outcome, found: nat, ghost more: seq<Listed>)
      requires Ready() && Ends(before, device, Mbr, ls) && ValidRatio(ratio) && first < 100000
      modifies this`parts, this`pagesHeld, pmm`freePages, pmm`live, pmm.bitmap
      modifies sector, block`clock, block`log, block`failed, block`lost, block.bounce
      ensures Ready() && Since(old(Here()))
      ensures (outcome == Unreadable ==> block.failed > old(block.failed)) && (outcome == NoRoom ==> Full())
      ensures old(block.Answering()) && EbrInside(block.devices, device, ext, ext, ratio, MAX_EBR_CHAIN) ==>
                outcome != Unreadable
      ensures more <= EbrCapped(block.devices[device].content, ext, ext, first, ratio, MAX_EBR_CHAIN)
      ensures |parts| == old(|parts|) + found && found == |more| <= MAX_EBR_CHAIN
      ensures Ends(before, device, Mbr, ls + more) && Consecutive(more, first)
      ensures outcome == Fine ==>
                more == EbrCapped(block.devices[device].content, ext, ext, first, ratio, MAX_EBR_CHAIN)
    {
      hide Ready, Full, LinkAt, EbrCapped, Consecutive, Ends, Reach, EbrInside, SectorInside;
      EndsDevice(before, device, Mbr, ls);
      ghost var content := block.devices[device].content;
      ghost var inside := block.Answering() && EbrInside(block.devices, device, ext, ext, ratio, MAX_EBR_CHAIN);
      ghost var whole := EbrCapped(content, ext, ext, first, ratio, MAX_EBR_CHAIN);
      var n, ebr, going := 0, ext, true;
      outcome, found, more := Fine, 0, [];
      assert ls + more == ls && more + whole == whole;
      ConsecutiveNone(first);
      ghost var start := Here();
      ReachRead(block.devices, start, start);
      while n < MAX_EBR_CHAIN && going
        invariant n <= MAX_EBR_CHAIN && found == |more| <= n
        invariant Ready() && Since(start) && (going ==> outcome == Fine)
        invariant (outcome == Unreadable ==> block.failed > old(block.failed)) && (outcome == NoRoom ==> Full())
        invariant inside ==> outcome != Unreadable
        invariant more <= whole
        invariant inside && going ==> EbrInside(block.devices, device, ext, ebr, ratio, MAX_EBR_CHAIN - n)
        invariant |parts| == old(|parts|) + found && Ends(before, device, Mbr, ls + more) && Consecutive(more, first)
        invariant going ==> more + EbrCapped(content, ext, ebr, first + found, ratio, MAX_EBR_CHAIN - n) == whole
        invariant !going && outcome == Fine ==> more == whole
        decreases MAX_EBR_CHAIN - n
      {
        ghost var m := Here();
        var added, next;
        outcome, added, next, more := ChainTurn(device, ratio, ext, ebr, first + found, MAX_EBR_CHAIN - n, before, ls,
                                                more, first);
        ReachOn(block.devices, start, m, Here());
        ReachFacts(block.devices, start, m);
        ReachFacts(block.devices, m, Here());
        going := outcome == Fine && next.Some?;
        found := found + added;
        ebr := if going then next.value else ebr;
        n := n + 1;
      }
      CappedNone(content, ext, ebr, first + found, ratio);
    }

    lemma EndsDevice(before: seq<Part>, device: nat, scheme: Scheme, ls: seq<Listed>)
      requires Ends(before, device, scheme, ls)
      ensures device < |block.devices|
    {
    }

    lemma EbrInsideStep(device: nat, ext: nat, ebr: nat, ratio: nat, cap: nat)
      requires device < |block.devices| && ValidRatio(ratio) && cap > 0
      ensures EbrInside(block.devices, device, ext, ebr, ratio, cap) ==>
                && SectorInside(block.devices, device, ebr, ratio)
                && var next := LinkAt(block.devices[device].content, ext, ebr, 0, ratio).next;
                   next.Some? ==> EbrInside(block.devices, device, ext, next.value, ratio, cap - 1)
    {
      hide LinkAt, SectorInside;
    }

    lemma AppendTo(ls: seq<Listed>, more: seq<Listed>, here: seq<Listed>)
      ensures ls + more + here == ls + (more + here)
    {
    }

    lemma ConsecutiveNone(first: nat)
      ensures Consecutive([], first)
    {
    }

    lemma ConsecutiveMore(more: seq<Listed>, here: seq<Listed>, first: nat)
      requires Consecutive(more, first) && |here| <= 1 && (here != [] ==> here[0].number == first + |more|)
      ensures Consecutive(more + here, first)
    {
    }

    lemma CappedNone(content: nat -> byte, ext: nat, ebr: nat, number: nat, ratio: nat)
      requires ratio >= 1
      ensures EbrCapped(content, ext, ebr, number, ratio, 0) == []
    {
    }

    lemma CappedStep(content: nat -> byte, ext: nat, ebr: nat, number: nat, ratio: nat, cap: nat, done: seq<Listed>)
      requires ratio >= 1 && cap > 0
      ensures var l := LinkAt(content, ext, ebr, number, ratio);
              done + EbrCapped(content, ext, ebr, number, ratio, cap) == done + l.Here() +
                if l.next.None? then []
                else EbrCapped(content, ext, l.next.value, number + |l.Here()|, ratio, cap - 1)
    {
      hide LinkAt;
    }

    /** One primary entry of the MBR. */
    method ScanPrimary(device: nat, mbr: seq<byte>, i: nat, logical: nat, ratio: nat, ghost before: seq<Part>,
                       ghost ls: seq<Listed>)
      returns (outcome: Outcome, found: nat, logical': nat, ghost more: seq<Listed>)
      requires Ready() && Ends(before, device, Mbr, ls) && ValidRatio(ratio) && |mbr| >= 512 && i < 4
      requires FIRST_LOGICAL <= logical < 100000 && MbrNumbered(ls, i, logical)
      modifies this`parts, this`pagesHeld, pmm`freePages, pmm`live, pmm.bitmap
      modifies sector, block`clock, block`log, block`failed, block`lost, block.bounce
      ensures Ready() && Since(old(Here()))
      ensures (outcome == Unreadable ==> block.failed > old(block.failed)) && (outcome == NoRoom ==> Full())
      ensures old(block.Answering()) && PrimaryInside(block.devices, device, mbr, ratio, i) ==> outcome != Unreadable
      ensures outcome == Unreadable ==>
                && EntryAt(mbr, 446 + i * 16).Extended() && logical' == logical + |more|
                && more <= MbrOne(block.devices[device].content, mbr, i, logical, ratio)
      ensures |parts| == old(|parts|) + found && found == |more| && logical <= logical' <= logical + MAX_EBR_CHAIN
      ensures Ends(before, device, Mbr, ls + more) && MbrNumbered(ls + more, i + 1, logical')
      ensures outcome == Fine ==>
                && more == MbrOne(block.devices[device].content, mbr, i, logical, ratio)
                && logical' == logical + if EntryAt(mbr, 446 + i * 16).Extended() then |more| else 0
    {
      hide Ready, Full, Grown, EbrCapped, EbrInside, Consecutive, MbrNumbered, MbrOne, Reach;
      ReachRead(block.devices, Here(), Here());
      ghost var content := block.devices[device].content;
      MbrOneCases(content, mbr, i, logical, ratio);
      outcome, found, logical', more := Fine, 0, logical, [];
      assert ls + more == ls;
      var e := EntryAt(mbr, 446 + i * 16);
      if e.Empty() {
        MbrNumberedSkip(ls, i, logical);
      } else if e.Extended() {
        outcome, found, more := ScanChain(device, ratio, e.start, logical, before, ls);
        logical' := logical + found;
        MbrNumberedChain(ls, i, logical, more);
      } else {
        var l := PrimaryListed(e, i, ratio);
        var ok := AddMbr(device, l, before, ls);
        outcome := if ok then Fine else NoRoom;
        if ok {
          found, more := 1, [l];
          MbrNumberedPrimary(ls, i, logical, l);
        } else {
          MbrNumberedSkip(ls, i, logical);
        }
      }
    }

    /**
     * ScanMbr. Whatever fails, the numbers it gives out are distinct; if nothing is cut short, it adds MbrParts. An
     * unreadable link cuts off its own chain only: unless the table is full, every primary entry brings its partition
     * or its chain, and at most as many chains are cut off as reads failed.
     */
    method ScanMbr(device: nat, mbr: seq<byte>, ratio: nat)
      returns (found: nat, cut: bool, ghost ls: seq<Listed>, ghost kept: seq<Option<nat>>)
      requires Ready() && device < |block.devices| && ValidRatio(ratio) && |mbr| >= 512
      modifies this`parts, this`pagesHeld, pmm`freePages, pmm`live, pmm.bitmap
      modifies sector, block`clock, block`log, block`failed, block`lost, block.bounce
      ensures Ready() && |parts| == old(|parts|) + found && Since(old(Here()))
      ensures cut ==> block.failed > old(block.failed) || Full()
      ensures old(block.Answering()) ==>
                (forall i | 0 <= i < 4 :: PrimaryInside(block.devices, device, mbr, ratio, i)) ==> cut ==> Full()
      ensures Ends(old(parts), device, Mbr, ls) && DistinctNumbers(ls)
      ensures !cut ==> ls == MbrParts(block.devices[device].content, mbr, 4, ratio)
      ensures !Full() ==> && |kept| == 4 && ls == MbrCut(block.devices[device].content, mbr, ratio, kept)
                          && Cuts(kept) <= block.failed - old(block.failed)
      ensures forall i | 0 <= i < |kept| && i < 4 && kept[i].Some? :: EntryAt(mbr, 446 + i * 16).Extended()
    {
      hide Ready, Full, MbrNumbered, MbrOne, MbrPiece, MbrCut, Cuts, CutLogicals, EntryAt, Exact, PrimaryInside;
      ghost var content, before := block.devices[device].content, parts;
      found, cut, ls, kept := 0, false, [], [];
      var i, logical, full := 0, FIRST_LOGICAL, false;
      MbrNumberedNone(logical);
      CutStart(content, mbr, ratio);
      ghost var start := Here();
      ReachRead(block.devices, start, start);
      while i < 4 && !full
        invariant i <= 4 && FIRST_LOGICAL <= logical <= FIRST_LOGICAL + i * MAX_EBR_CHAIN && MbrNumbered(ls, i, logical)
        invariant Ready() && Since(start) && (full ==> cut && Full())
        invariant cut && !full ==> block.failed > old(block.failed)
        invariant start.sound && (forall j | 0 <= j < 4 :: PrimaryInside(block.devices, device, mbr, ratio, j)) ==>
                    cut ==> full
        invariant |parts| == old(|parts|) + found && Ends(before, device, Mbr, ls)
        invariant !full ==> && |kept| == i && ls == MbrCut(content, mbr, ratio, kept)
                            && logical == FIRST_LOGICAL + CutLogicals(content, mbr, ratio, kept)
        invariant Cuts(kept) <= block.failed - start.failed && (!cut ==> Cuts(kept) == 0)
        invariant |kept| <= 4 && forall j | 0 <= j < |kept| && kept[j].Some? :: EntryAt(mbr, 446 + j * 16).Extended()
        decreases 4 - i
      {
        var outcome, added;
        ghost var more;
        ghost var m, at := Here(), logical;
        outcome, added, logical, more := ScanPrimary(device, mbr, i, logical, ratio, before, ls);
        ReachOn(block.devices, start, m, Here());
        if outcome != NoRoom {
          ghost var next := if outcome == Fine then None else Some(|more|);
          PieceIs(content, mbr, i, at, ratio, next, more);
          CutNext(content, mbr, ratio, kept, next);
          kept := kept + [next];
        }
        ls, found, i := ls + more, found + added, i + 1;
        cut := cut || outcome != Fine;
        full := outcome == NoRoom;
      }
      MbrNumberedDistinct(ls, i, logical);
      if !cut {
        NothingCut(content, mbr, ratio, kept);
      }
    }

    lemma CutStart(content: nat -> byte, mbr: seq<byte>, ratio: nat)
      requires |mbr| >= 512 && ratio >= 1
      ensures MbrCut(content, mbr, ratio, []) == [] && CutLogicals(content, mbr, ratio, []) == 0 && Cuts([]) == 0
    {
    }

    lemma PieceIs(content: nat -> byte, mbr: seq<byte>, i: nat, logical: nat, ratio: nat, kept: Option<nat>,
                  more: seq<Listed>)
      requires |mbr| >= 512 && i < 4 && ratio >= 1
      requires if kept.Some? then more <= MbrOne(content, mbr, i, logical, ratio) && kept.value == |more|
               else more == MbrOne(content, mbr, i, logical, ratio)
      ensures more == MbrPiece(content, mbr, i, logical, ratio, kept)
    {
      hide MbrOne;
    }

    // ---- devices ----

    /** A device that opens with a FAT boot sector is one partition. */
    method ScanRaw(device: nat) returns (found: nat, cut: bool, ghost ls: seq<Listed>)
      requires Ready() && device < |block.devices|
      modifies this`parts, this`pagesHeld, pmm`freePages, pmm`live, pmm.bitmap
      modifies sector, block`clock, block`log, block`failed, block`lost, block.bounce
      ensures Ready() && |parts| == old(|parts|) + found && Since(old(Here()))
      ensures cut ==> Full()
      ensures Ends(old(parts), device, Raw, ls) && DistinctNumbers(ls)
      ensures !cut ==> ls == [Listed(1, 0, block.devices[device].Total(), [])]
    {
      hide Ready, Full, ProbeOf, Exact;
      var ok := AddPart(device, 1, 0, block.devices[device].Total(), Raw);
      found, cut := if ok then 1 else 0, !ok;
      ls := if ok then [Listed(1, 0, block.devices[device].Total(), [])] else [];
    }

    /** What PartScanDevice does once it has a copy of sector 0. */
    method ScanTable(device: nat, ratio: nat, mbr: seq<byte>)
      returns (found: nat, cut: bool, ghost scheme: Scheme, ghost ls: seq<Listed>)
      requires Ready() && device < |block.devices| && ratio == block.devices[device].Ratio() && ValidRatio(ratio)
      requires mbr == Slice(block.devices[device].content, 0, 512)
      modifies this`parts, this`pagesHeld, pmm`freePages, pmm`live, pmm.bitmap
      modifies sector, table, block`clock, block`log, block`failed, block`lost, block.bounce
      ensures Ready() && |parts| == old(|parts|) + found && Since(old(Here()))
      ensures cut ==> block.failed > old(block.failed) || Full()
      ensures old(block.Answering()) && TableInside(block.devices, device) && cut ==> Full()
      ensures Ends(old(parts), device, scheme, ls) && DistinctNumbers(ls)
      ensures !cut ==> Expected(block.devices[device].content, ratio, block.devices[device].Total()) == (scheme, ls)
    {
      hide Ready, Full, DistinctNumbers, FatVolume.BootSectorValid, Signed, Protective, ParseHeader, GptParts, MbrParts,
        Slice, NativeSector, Exact, PrimaryInside, SectorInside, GptInside;
      ReachRead(block.devices, Here(), Here());
      SliceLength(block.devices[device].content, 0, 512);
      if FatVolume.BootSectorValid(mbr) {
        scheme := Raw;
        found, cut, ls := ScanRaw(device);
      } else if !Signed(mbr) {
        found, cut, scheme, ls := 0, false, Mbr, [];
        NoNumbers();
      } else if Protective(mbr) {
        scheme := Gpt;
        found, cut, ls := ScanGpt(device, ratio);
      } else {
        scheme := Mbr;
        ghost var kept;
        found, cut, ls, kept := ScanMbr(device, mbr, ratio);
      }
    }

    lemma NoNumbers()
      ensures DistinctNumbers([])
    {
    }

    lemma SliceLength(f: nat -> byte, from: nat, n: nat)
      ensures |Slice(f, from, n)| == n
    {
    }

    /**
     * PartScanDevice. A device is scanned at most once. The scan only appends, keeps every name distinct (Valid),
     * and unless it was cut short by a read failure or a full table it lists exactly what the device holds.
     */
    method PartScanDevice(device: int) returns (found: nat, ghost cut: bool)
      requires Valid()
      modifies this`parts, this`pagesHeld, this`scanned, this`sectorReady, pmm`freePages, pmm`live, pmm.bitmap
      modifies sector, table, block`clock, block`log, block`failed, block`lost, block.bounce
      ensures Valid() && |parts| == old(|parts|) + found && Since(old(Here()))
      ensures scanned == old(scanned) ==> found == 0
      ensures forall i | old(|parts|) <= i < |parts| :: parts[i].device == device
      ensures if device in old(scanned) || !(0 <= device < MAX_SCANNED && device < |block.devices|)
              then scanned == old(scanned) && found == 0 && !cut
              else scanned == old(scanned) + {device} || (scanned == old(scanned) && !old(sectorReady) && Full())
      ensures cut ==> block.failed > old(block.failed) || Full()
      ensures old(block.Answering()) && TableInside(block.devices, device) && cut ==> Full()
      ensures !cut && scanned != old(scanned) ==>
                var d := block.devices[device];
                var (scheme, ls) := Expected(d.content, d.Ratio(), d.Total());
                Grown(old(parts), parts, device, d, scheme, ls)
    {
      hide Expected, Full, TableOk, Grown, Pmm.Allocator.Valid, Exact, TableInside, BlockDev.ValidRegistry;
      ghost var start := Here();
      ReachRead(block.devices, start, start);
      found, cut := 0, false;
      if 0 <= device < MAX_SCANNED && device < |block.devices| && device !in scanned {
        var ready := SectorBuffer();
        ghost var m := Here();
        ReachRead(block.devices, start, m);
        if ready {
          found, cut := ScanNew(device);
          ReachOn(block.devices, start, m, Here());
          scanned := scanned + {device};
        }
      }
    }

    /** The page behind the sector buffer, taken from the allocator the first time it is needed. */
    method SectorBuffer() returns (ready: bool)
      requires Valid()
      modifies this`sectorReady, pmm`freePages, pmm`live, pmm.bitmap
      ensures Valid() && old(pmm.live) <= pmm.live && ready == sectorReady && (!ready ==> !old(sectorReady) && Full())
    {
      hide TableOk;
      if !sectorReady {
        var page := pmm.AllocPage();
        sectorReady := page != 0;
      }
      ready := sectorReady;
    }

    /** The scan of a device that has not been scanned before. */
    method ScanNew(device: nat) returns (found: nat, ghost cut: bool)
      requires Valid() && device < |block.devices| && device !in scanned
      modifies this`parts, this`pagesHeld, pmm`freePages, pmm`live, pmm.bitmap
      modifies sector, table, block`clock, block`log, block`failed, block`lost, block.bounce
      ensures Ready() && |parts| == old(|parts|) + found && Since(old(Here()))
      ensures TableOk(block.devices, parts, scanned + {device})
      ensures forall i | old(|parts|) <= i < |parts| :: parts[i].device == device
      ensures cut ==> block.failed > old(block.failed) || Full()
      ensures old(block.Answering()) && TableInside(block.devices, device) && cut ==> Full()
      ensures !cut ==>
                var d := block.devices[device];
                var (scheme, ls) := Expected(d.content, d.Ratio(), d.Total());
                Grown(old(parts), parts, device, d, scheme, ls)
    {
      hide Expected, TableOk, Full, DistinctNumbers, Pmm.Allocator.Valid, Slice, Exact;
      ghost var start := Here();
      ghost var before := parts;
      ghost var scheme, ls := Mbr, [];
      assert BlockDev.ValidDevice(block.devices[device]);
      var ratio := ScanRatio(block.devices[device].sectorSize);
      var ok := block.ReadFrom(device, 0, 1, sector, 0);
      found, cut := 0, !ok;
      NoNumbers();
      ghost var m := Here();
      ReachRead(block.devices, start, m);
      if ok {
        found, cut, scheme, ls := ScanTable(device, ratio, sector[0..512]);
        ReachOn(block.devices, start, m, Here());
      }
      GrownTable(block.devices, before, parts, scanned, device, scheme, ls);
      GrownDevice(before, parts, device, block.devices[device], scheme, ls);
    }
  }
}
