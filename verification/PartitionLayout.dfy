/** What partition tables look like, written field by field, and that the scan lists all of what was written. */
module PartitionLayout {
  import opened Common
  import opened PartitionTables
  import opened Partitions
  import BlockDev
  import FatVolume

  // ---- entries ----

  /** The fields of a 16-byte MBR or EBR entry at `at`; the CHS fields are not looked at. */
  ghost predicate EntryWritten(s: seq<byte>, at: nat, kind: byte, start: nat, count: nat) {
    && at + 16 <= |s| && start < U32 && count < U32
    && s[at + 4] == kind && s[at + 8..at + 12] == PutLe32(start) && s[at + 12..at + 16] == PutLe32(count)
  }

  lemma EntryRead(s: seq<byte>, at: nat, kind: byte, start: nat, count: nat)
    requires EntryWritten(s, at, kind, start, count)
    ensures EntryAt(s, at).kind == kind && EntryAt(s, at).start == start && EntryAt(s, at).count == count
  {
    hide PutLe32, Le32;
    Le32Put(s, at + 8, start);
    Le32Put(s, at + 12, count);
  }

  predicate ExtendedKind(kind: byte) {
    kind == 0x05 || kind == 0x0F || kind == 0x85
  }

  predicate InUse(kind: byte, count: nat) {
    kind != 0 && count != 0
  }

  // ---- EBR chains ----

  /** A logical partition: the native sector of its EBR, and its start relative to that. */
  datatype Logical = Logical(ebr: nat, kind: byte, start: nat, count: nat)

  /** Each EBR holds its own partition, and a link to the next that is relative to the chain's start. */
  ghost predicate LinkWritten(content: nat -> byte, ext: nat, ratio: nat, ls: seq<Logical>, i: nat)
    requires i < |ls| && ratio >= 1
  {
    var s, l := NativeSector(content, ls[i].ebr, ratio), ls[i];
    && s[510] == 0x55 && s[511] == 0xAA && InUse(l.kind, l.count) && EntryWritten(s, 446, l.kind, l.start, l.count)
    && if i + 1 < |ls| then l.ebr < ls[i + 1].ebr && ls[i + 1].ebr > ext && LinkTo(s, ls[i + 1].ebr - ext)
       else EntryWritten(s, 462, 0, 0, 0)
  }

  ghost predicate LinkTo(s: seq<byte>, distance: nat) {
    exists kind: byte, count: nat :: kind != 0 && EntryWritten(s, 462, kind, distance, count)
  }

  ghost predicate ChainWritten(content: nat -> byte, ext: nat, ratio: nat, ls: seq<Logical>)
    requires ratio >= 1
  {
    forall i | 0 <= i < |ls| :: LinkWritten(content, ext, ratio, ls, i)
  }

  /** The partitions of such a chain, the first under number `number`, in 512-byte sectors. */
  function LogicalParts(ls: seq<Logical>, number: nat, ratio: nat): seq<Listed> {
    if ls == [] then []
    else
      var l := ls[0];
      [Listed(number, Times(l.ebr + l.start, ratio) % U64, Times(l.count, ratio) % U64, [l.kind])]
      + LogicalParts(ls[1..], number + 1, ratio)
  }

  lemma LinkRead(content: nat -> byte, ext: nat, ratio: nat, ls: seq<Logical>, i: nat, number: nat)
    requires i < |ls| && ratio >= 1 && LinkWritten(content, ext, ratio, ls, i)
    ensures var l := ls[i];
            LinkAt(content, ext, l.ebr, number, ratio) ==
              Link(Some(Listed(number, Times(l.ebr + l.start, ratio) % U64, Times(l.count, ratio) % U64, [l.kind])),
                   if i + 1 < |ls| then Some(ls[i + 1].ebr) else None)
  {
    hide PutLe32, Le32, EntryAt, EntryWritten, NativeSector;
    var s, l := NativeSector(content, ls[i].ebr, ratio), ls[i];
    SectorLength(content, l.ebr, ratio);
    EntryRead(s, 446, l.kind, l.start, l.count);
    if i + 1 < |ls| {
      var kind: byte, count: nat :| kind != 0 && EntryWritten(s, 462, kind, ls[i + 1].ebr - ext, count);
      EntryRead(s, 462, kind, ls[i + 1].ebr - ext, count);
    } else {
      EntryRead(s, 462, 0, 0, 0);
    }
  }

  lemma SectorLength(content: nat -> byte, native: nat, ratio: nat)
    ensures |NativeSector(content, native, ratio)| == ratio * 512
  {
  }

  /** The scan of a chain lists what was written, up to its cap. */
  lemma {:induction false} ChainRead(content: nat -> byte, ext: nat, ratio: nat, ls: seq<Logical>, number: nat,
                                     cap: nat)
    requires ratio >= 1 && ChainWritten(content, ext, ratio, ls) && ls != [] && |ls| <= cap
    ensures EbrCapped(content, ext, ls[0].ebr, number, ratio, cap) == LogicalParts(ls, number, ratio)
    decreases |ls|
  {
    hide LinkAt, Times, LinkWritten, ChainWritten, EbrCapped;
    ChainFirst(content, ext, ratio, ls);
    LinkRead(content, ext, ratio, ls, 0, number);
    CappedFirst(content, ext, ls[0].ebr, number, ratio, cap);
    if |ls| > 1 {
      ChainRead(content, ext, ratio, ls[1..], number + 1, cap - 1);
    } else {
      NoLogicals(number + 1, ratio);
    }
  }

  lemma NoLogicals(number: nat, ratio: nat)
    ensures LogicalParts([], number, ratio) == []
  {
  }

  lemma ChainFirst(content: nat -> byte, ext: nat, ratio: nat, ls: seq<Logical>)
    requires ratio >= 1 && ChainWritten(content, ext, ratio, ls) && ls != []
    ensures LinkWritten(content, ext, ratio, ls, 0) && ChainWritten(content, ext, ratio, ls[1..])
  {
    hide NativeSector, EntryWritten;
    forall i | 0 <= i < |ls| - 1
      ensures LinkWritten(content, ext, ratio, ls[1..], i)
    {
      assert LinkWritten(content, ext, ratio, ls, i + 1);
    }
  }

  /** The first link of a walk, when it holds a partition. */
  lemma CappedFirst(content: nat -> byte, ext: nat, ebr: nat, number: nat, ratio: nat, cap: nat)
    requires ratio >= 1 && cap > 0 && LinkAt(content, ext, ebr, number, ratio).part.Some?
    ensures var l := LinkAt(content, ext, ebr, number, ratio);
            EbrCapped(content, ext, ebr, number, ratio, cap) == [l.part.value] +
              if l.next.None? then [] else EbrCapped(content, ext, l.next.value, number + 1, ratio, cap - 1)
  {
    hide LinkAt;
  }

  // ---- MBR ----

  /** One of the four entries, and the chain it leads to if it is an extended one. */
  datatype Primary = Primary(kind: byte, start: nat, count: nat, chain: seq<Logical>)

  ghost predicate MbrWritten(content: nat -> byte, mbr: seq<byte>, ratio: nat, ps: seq<Primary>)
    requires ratio >= 1
  {
    |mbr| >= 512 && |ps| == 4 && forall i | 0 <= i < 4 :: PrimaryWritten(content, mbr, ratio, ps[i], i)
  }

  ghost predicate PrimaryWritten(content: nat -> byte, mbr: seq<byte>, ratio: nat, p: Primary, i: nat)
    requires ratio >= 1
  {
    && EntryWritten(mbr, 446 + i * 16, p.kind, p.start, p.count)
    && if ExtendedKind(p.kind) && InUse(p.kind, p.count)
       then && p.chain != [] && p.chain[0].ebr == p.start && |p.chain| <= 4096
            && ChainWritten(content, p.start, ratio, p.chain)
       else p.chain == []
  }

  /** How many logical partitions the first `n` entries lead to. */
  function LogicalCount(ps: seq<Primary>, n: nat): nat
    requires n <= |ps|
  {
    if n == 0 then 0 else LogicalCount(ps, n - 1) + |ps[n - 1].chain|
  }

  /** Primary partitions are numbered by their place, logical ones from 5 on. */
  function TableParts(ps: seq<Primary>, n: nat, ratio: nat): seq<Listed>
    requires n <= |ps|
  {
    if n == 0 then []
    else
      var p := ps[n - 1];
      TableParts(ps, n - 1, ratio)
      + if !InUse(p.kind, p.count) then []
        else if ExtendedKind(p.kind) then LogicalParts(p.chain, 5 + LogicalCount(ps, n - 1), ratio)
        else [Listed(n, Times(p.start, ratio) % U64, Times(p.count, ratio) % U64, [p.kind])]
  }

  lemma {:induction false} LogicalPartsLength(ls: seq<Logical>, number: nat, ratio: nat)
    ensures |LogicalParts(ls, number, ratio)| == |ls|
  {
    if ls != [] {
      LogicalPartsLength(ls[1..], number + 1, ratio);
    }
  }

  /** The scan of an MBR lists what was written, chains included. */
  lemma {:induction false} MbrRead(content: nat -> byte, mbr: seq<byte>, ratio: nat, ps: seq<Primary>, n: nat)
    requires ratio >= 1 && MbrWritten(content, mbr, ratio, ps) && n <= 4
    ensures MbrParts(content, mbr, n, ratio) == TableParts(ps, n, ratio)
    ensures Logicals(content, mbr, n, ratio) == LogicalCount(ps, n)
  {
    hide EntryAt, EntryWritten, EbrCapped, LogicalParts, Times, ChainWritten;
    if n > 0 {
      MbrRead(content, mbr, ratio, ps, n - 1);
      assert PrimaryWritten(content, mbr, ratio, ps[n - 1], n - 1);
      PrimaryRead(content, mbr, ratio, ps[n - 1], n - 1, 5 + LogicalCount(ps, n - 1));
    }
  }

  lemma PrimaryRead(content: nat -> byte, mbr: seq<byte>, ratio: nat, p: Primary, i: nat, logical: nat)
    requires ratio >= 1 && |mbr| >= 512 && i < 4 && PrimaryWritten(content, mbr, ratio, p, i)
    ensures MbrOne(content, mbr, i, logical, ratio) ==
            if !InUse(p.kind, p.count) then []
            else if ExtendedKind(p.kind) then LogicalParts(p.chain, logical, ratio)
            else [Listed(i + 1, Times(p.start, ratio) % U64, Times(p.count, ratio) % U64, [p.kind])]
    ensures EntryAt(mbr, 446 + i * 16).Extended() ==> |MbrOne(content, mbr, i, logical, ratio)| == |p.chain|
    ensures !EntryAt(mbr, 446 + i * 16).Extended() ==> p.chain == []
  {
    hide EntryAt, EntryWritten, EbrCapped, LogicalParts, ChainWritten;
    EntryRead(mbr, 446 + i * 16, p.kind, p.start, p.count);
    if ExtendedKind(p.kind) && InUse(p.kind, p.count) {
      ChainRead(content, p.start, ratio, p.chain, logical, 4096);
      LogicalPartsLength(p.chain, logical, ratio);
    }
  }

  /** A whole disk with such an MBR. */
  lemma MbrDisk(content: nat -> byte, ratio: nat, size: nat, ps: seq<Primary>)
    requires var mbr := Slice(content, 0, 512);
             && ratio >= 1 && MbrWritten(content, mbr, ratio, ps) && !FatVolume.BootSectorValid(mbr)
             && mbr[510] == 0x55 && mbr[511] == 0xAA && forall i | 0 <= i < 4 :: ps[i].kind != 0xEE
    ensures Expected(content, ratio, size) == (Mbr, TableParts(ps, 4, ratio))
  {
    hide FatVolume.BootSectorValid, MbrParts, TableParts, ParseHeader, MbrWritten;
    var mbr := Slice(content, 0, 512);
    MbrRead(content, mbr, ratio, ps, 4);
    KindsRead(content, mbr, ratio, ps);
  }

  lemma KindsRead(content: nat -> byte, mbr: seq<byte>, ratio: nat, ps: seq<Primary>)
    requires ratio >= 1 && MbrWritten(content, mbr, ratio, ps) && forall i | 0 <= i < 4 :: ps[i].kind != 0xEE
    ensures !Protective(mbr)
  {
    hide PutLe32, ChainWritten;
    KindRead(content, mbr, ratio, ps, 0);
    KindRead(content, mbr, ratio, ps, 1);
    KindRead(content, mbr, ratio, ps, 2);
    KindRead(content, mbr, ratio, ps, 3);
  }

  lemma KindRead(content: nat -> byte, mbr: seq<byte>, ratio: nat, ps: seq<Primary>, i: nat)
    requires ratio >= 1 && MbrWritten(content, mbr, ratio, ps) && i < 4
    ensures mbr[446 + i * 16 + 4] == ps[i].kind
  {
    hide PutLe32, ChainWritten;
    assert PrimaryWritten(content, mbr, ratio, ps[i], i);
  }

  // ---- GPT ----

  /** A native sector is that block of the disk. */
  lemma NativeSectorIs(content: nat -> byte, native: nat, ratio: nat)
    requires Times(native, ratio) < U64
    ensures NativeSector(content, native, ratio) == Slice(content, Times(native, ratio * 512), ratio * 512)
  {
    assert native * (ratio * 512) == (native * ratio) * 512;
  }

  /** The header fields the scan uses. */
  ghost predicate HeaderWritten(s: seq<byte>, h: GptHeader) {
    && |s| >= 512 && h.entriesLba < U64 && h.entryCount < U32 && h.entrySize < U32
    && s[..8] == [0x45, 0x46, 0x49, 0x20, 0x50, 0x41, 0x52, 0x54]
    && s[72..80] == PutLe64(h.entriesLba) && s[80..84] == PutLe32(h.entryCount) && s[84..88] == PutLe32(h.entrySize)
  }

  lemma HeaderRead(s: seq<byte>, h: GptHeader)
    requires HeaderWritten(s, h)
    ensures ParseHeader(s) ==
            if 128 <= h.entrySize <= |s| && |s| % h.entrySize == 0 && 1 <= h.entryCount <= 16384 then Some(h) else None
  {
    hide PutLe32, PutLe64, Le32, Le64;
    Le64Put(s, 72, h.entriesLba);
    Le32Put(s, 80, h.entryCount);
    Le32Put(s, 84, h.entrySize);
    EfiPart(s);
  }

  lemma EfiPart(s: seq<byte>)
    requires |s| >= 8 && s[..8] == [0x45, 0x46, 0x49, 0x20, 0x50, 0x41, 0x52, 0x54]
    ensures TextAt(s, 0, "EFI PART")
  {
    forall i | 0 <= i < 8
      ensures s[0 + i] as int == "EFI PART"[i] as int
    {
      assert s[i] == s[..8][i];
    }
  }

  /** A GPT partition: its type, and its first and last native sector. */
  datatype GptPart = GptPart(guid: seq<byte>, first: nat, last: nat)

  ghost predicate GptWritten(e: seq<byte>, p: GptPart) {
    && |e| >= 128 && |p.guid| == 16 && p.first < U64 && p.last < U64
    && e[..16] == p.guid && e[32..40] == PutLe64(p.first) && e[40..48] == PutLe64(p.last)
  }

  predicate GptInUse(p: GptPart) {
    p.guid != seq(16, _ => 0) && p.first <= p.last
  }

  /** The entries in use, each under its index plus one, in 512-byte sectors; the last sector belongs to it. */
  function GptListing(ps: seq<GptPart>, n: nat, ratio: nat): seq<Listed>
    requires n <= |ps|
  {
    if n == 0 then []
    else
      var p := ps[n - 1];
      GptListing(ps, n - 1, ratio)
      + if !GptInUse(p) then []
        else [Listed(n, Times(p.first, ratio) % U64, Times(p.last - p.first + 1, ratio) % U64, p.guid)]
  }

  lemma GptEntryRead(e: seq<byte>, p: GptPart, i: nat, ratio: nat)
    requires GptWritten(e, p)
    ensures GptUsed(e) <==> GptInUse(p)
    ensures GptUsed(e) ==>
              GptListed(e, i, ratio) ==
                Listed(i + 1, Times(p.first, ratio) % U64, Times(p.last - p.first + 1, ratio) % U64, p.guid)
  {
    hide PutLe64, Le64;
    Le64Put(e, 32, p.first);
    Le64Put(e, 40, p.last);
    assert forall k | 0 <= k < 16 :: e[k] == p.guid[k] by { assert forall k | 0 <= k < 16 :: e[..16][k] == e[k]; }
    if forall k | 0 <= k < 16 :: e[k] == 0 {
      assert p.guid == seq(16, _ => 0);
    } else {
      var k :| 0 <= k < 16 && e[k] != 0;
      assert p.guid[k] != seq<byte>(16, _ => 0)[k];
    }
  }

  /** The scan of the entry table lists what was written. */
  lemma {:induction false} GptRead(content: nat -> byte, h: GptHeader, ratio: nat, ps: seq<GptPart>, n: nat)
    requires 128 <= h.entrySize <= ratio * 512 && n <= |ps|
    requires forall i | 0 <= i < n :: GptWritten(GptEntry(content, h, ratio, i), ps[i])
    ensures GptParts(content, h, ratio, n) == GptListing(ps, n, ratio)
  {
    hide GptEntry, GptUsed, GptInUse, GptWritten, Times;
    if n > 0 {
      GptRead(content, h, ratio, ps, n - 1);
      GptEntryRead(GptEntry(content, h, ratio, n - 1), ps[n - 1], n - 1, ratio);
    }
  }

  /** A disk with a protective MBR, a header in its second native sector, and its entries one after the other. */
  ghost predicate GptDiskWritten(content: nat -> byte, ratio: nat, h: GptHeader, ps: seq<GptPart>, protective: nat) {
    && ValidRatio(ratio) && |ps| == h.entryCount && 1 <= |ps| <= 16384 && protective < 4
    && 128 <= h.entrySize <= ratio * 512 && Rem(ratio * 512, h.entrySize) == 0
    && Times(h.entriesLba + |ps| + 1, ratio) <= U64
    && HeaderWritten(Slice(content, ratio * 512, ratio * 512), h)
    && (forall i | 0 <= i < |ps| ::
          GptWritten(Slice(content, Times(h.entriesLba, ratio * 512) + Times(i, h.entrySize), h.entrySize), ps[i]))
    && content(510) == 0x55 && content(511) == 0xAA && content(446 + protective * 16 + 4) == 0xEE
    && !FatVolume.BootSectorValid(Slice(content, 0, 512))
  }

  lemma GptDisk(content: nat -> byte, ratio: nat, size: nat, h: GptHeader, ps: seq<GptPart>, protective: nat)
    requires GptDiskWritten(content, ratio, h, ps, protective)
    ensures ratio >= 1 && Expected(content, ratio, size) == (Gpt, GptListing(ps, |ps|, ratio))
  {
    hide FatVolume.BootSectorValid, GptParts, GptListing, ParseHeader, GptWritten, HeaderWritten, GptEntry, NativeLba,
      NativeSector, Times, Rem;
    RatioPositive(ratio);
    SecondSector(content, ratio);
    HeaderRead(Slice(content, ratio * 512, ratio * 512), h);
    SizeDivides(ratio * 512, h.entrySize);
    forall i | 0 <= i < |ps|
      ensures GptWritten(GptEntry(content, h, ratio, i), ps[i])
    {
      EntryPlace(content, h, ratio, i, |ps|);
    }
    GptRead(content, h, ratio, ps, |ps|);
    ProtectiveAt(Slice(content, 0, 512), protective);
  }

  lemma RatioPositive(ratio: nat)
    requires ValidRatio(ratio)
    ensures ratio >= 1
  {
  }

  lemma SizeDivides(a: nat, size: nat)
    requires size > 0 && Rem(a, size) == 0
    ensures a % size == 0
  {
  }

  lemma ProtectiveAt(mbr: seq<byte>, i: nat)
    requires |mbr| >= 512 && i < 4 && mbr[446 + i * 16 + 4] == 0xEE
    ensures Protective(mbr)
  {
  }

  lemma EntryPlace(content: nat -> byte, h: GptHeader, ratio: nat, i: nat, n: nat)
    requires ValidRatio(ratio) && 128 <= h.entrySize <= ratio * 512 && Rem(ratio * 512, h.entrySize) == 0
    requires i < n && Times(h.entriesLba + n + 1, ratio) <= U64
    ensures GptEntry(content, h, ratio, i) ==
            Slice(content, Times(h.entriesLba, ratio * 512) + Times(i, h.entrySize), h.entrySize)
  {
    hide GptEntry, Slice, Rem;
    assert (h.entriesLba + i + 1) * ratio <= (h.entriesLba + n + 1) * ratio;
    GptFlat(content, h, ratio, i);
  }

  lemma SecondSector(content: nat -> byte, ratio: nat)
    requires ValidRatio(ratio)
    ensures NativeSector(content, 1, ratio) == Slice(content, ratio * 512, ratio * 512)
  {
  }

  // ---- file systems ----

  /** The eight bytes at `at`. */
  ghost predicate Bytes8(s: seq<byte>, at: nat, b: seq<byte>) {
    at + 8 <= |s| && |b| == 8 && s[at..at + 8] == b
  }

  predicate Codes(b: seq<byte>, text: string) {
    |b| == |text| && forall i | 0 <= i < |b| :: b[i] as int == text[i] as int
  }

  lemma TextIs(s: seq<byte>, at: nat, text: string)
    requires at + 8 <= |s| && |text| == 8
    ensures TextAt(s, at, text) <==> Codes(s[at..at + 8], text)
  {
    var t := s[at..at + 8];
    assert forall i | 0 <= i < 8 :: t[i] == s[at + i];
  }

  lemma FatSignatures(t: seq<byte>)
    requires |t| == 8
    ensures Codes(t, "FAT16   ") <==> t == [0x46, 0x41, 0x54, 0x31, 0x36, 0x20, 0x20, 0x20]
    ensures Codes(t, "FAT12   ") <==> t == [0x46, 0x41, 0x54, 0x31, 0x32, 0x20, 0x20, 0x20]
    ensures Codes(t, "FAT     ") <==> t == [0x46, 0x41, 0x54, 0x20, 0x20, 0x20, 0x20, 0x20]
  {
  }

  /** Which signature means which file system. */
  lemma Signatures(s: seq<byte>)
    requires |s| >= 512
    ensures Bytes8(s, 3, [0x4E, 0x54, 0x46, 0x53, 0x20, 0x20, 0x20, 0x20]) ==> BootKind(s) == Some(Ntfs)
    ensures Bytes8(s, 3, [0x45, 0x58, 0x46, 0x41, 0x54, 0x20, 0x20, 0x20]) ==> BootKind(s) == Some(ExFat)
    ensures Bytes8(s, 3, [0x2D, 0x46, 0x56, 0x45, 0x2D, 0x46, 0x53, 0x2D]) ==> BootKind(s) == Some(BitLocker)
    ensures s[3] !in {0x4E, 0x45, 0x2D} && FatVolume.BootSectorValid(s) ==> BootKind(s) == Some(Fat32)
    ensures s[3] !in {0x4E, 0x45, 0x2D} && !FatVolume.BootSectorValid(s) && s[510] == 0x55 && s[511] == 0xAA ==>
              (BootKind(s) == Some(Fat16) <==>
                 || Bytes8(s, 54, [0x46, 0x41, 0x54, 0x31, 0x36, 0x20, 0x20, 0x20])
                 || Bytes8(s, 54, [0x46, 0x41, 0x54, 0x31, 0x32, 0x20, 0x20, 0x20])
                 || Bytes8(s, 54, [0x46, 0x41, 0x54, 0x20, 0x20, 0x20, 0x20, 0x20]))
  {
    hide FatVolume.BootSectorValid, TextAt;
    TextIs(s, 3, "NTFS    ");
    TextIs(s, 3, "EXFAT   ");
    TextIs(s, 3, "-FVE-FS-");
    TextIs(s, 54, "FAT16   ");
    TextIs(s, 54, "FAT12   ");
    TextIs(s, 54, "FAT     ");
    FatSignatures(s[54..62]);
    assert s[3..11][0] == s[3];
    assert "NTFS    "[0] == 'N' && "EXFAT   "[0] == 'E' && "-FVE-FS-"[0] == '-';
  }

  /** Without any of them, the magic number 1080 bytes into the partition means an ext file system. */
  lemma ExtMagic(d: BlockDev.Device, start: nat)
    requires start + 2 < U64 && d.Has(start) && d.Has(start + 2)
    requires BootKind(Slice(d.content, start * 512, 512)).None?
    ensures ProbeOf(d, start) == Ext <==>
              d.content(start * 512 + 1080) == 0x53 && d.content(start * 512 + 1081) == 0xEF
  {
    hide BootKind, BlockDev.Device.Has;
    var s := Slice(d.content, (start + 2) * 512, 512);
    assert s[56] == d.content((start + 2) * 512 + 56) && s[57] == d.content((start + 2) * 512 + 57);
  }

  /** A partition's name. */
  lemma NameOfPartition()
    ensures PartName("nvme0", 12) == "nvme0p12"
  {
    assert Decimal(12) == Decimal(1) + [Digit(2)] && Decimal(1) == [Digit(1)];
  }
}
