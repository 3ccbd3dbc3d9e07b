/** kernel/part.c, the on-disk tables: what a GPT or an MBR chain lists, as functions of the disk's bytes. */
module PartitionTables {
  import opened Common

  const MAX_EBR_CHAIN := 4096
  const MAX_GPT_ENTRIES := 16384
  const FIRST_LOGICAL := 5

  /** What a table entry says about a partition, in 512-byte sectors; `kind` is the MBR type or the GPT type GUID. */
  datatype Listed = Listed(number: nat, start: u64, count: nat, kind: seq<byte>)

  predicate ValidRatio(ratio: nat) {
    ratio == 1 || ratio == 2 || ratio == 4 || ratio == 8
  }

  /** The 512-byte address of a native sector, in 64-bit arithmetic. */
  function NativeLba(native: nat, ratio: nat): (lba: nat)
    ensures lba < U64
  {
    native * ratio % U64
  }

  lemma NativeLbaRoom(native: nat, ratio: nat)
    requires ValidRatio(ratio)
    ensures NativeLba(native, ratio) + ratio <= U64
  {
  }

  /** One native sector. */
  function NativeSector(content: nat -> byte, native: nat, ratio: nat): (s: seq<byte>)
    ensures |s| == ratio * 512
  {
    Slice(content, NativeLba(native, ratio) * 512, ratio * 512)
  }

  predicate TextAt(s: seq<byte>, at: nat, text: string) {
    at + |text| <= |s| && forall i | 0 <= i < |text| :: s[at + i] as int == text[i] as int
  }

  // ---- GPT ----

  /** The header fields ScanGpt uses, once it accepts them. */
  datatype GptHeader = GptHeader(entriesLba: nat, entryCount: nat, entrySize: nat)

  function ParseHeader(s: seq<byte>): (h: Option<GptHeader>)
    requires |s| >= 512
    ensures h.Some? ==> 128 <= h.value.entrySize <= |s| && |s| % h.value.entrySize == 0
    ensures h.Some? ==> 1 <= h.value.entryCount <= MAX_GPT_ENTRIES
  {
    var size, count := Le32(s, 84), Le32(s, 80);
    if !TextAt(s, 0, "EFI PART") || size < 128 || size > |s| || |s| % size != 0
       || count == 0 || count > MAX_GPT_ENTRIES
    then None
    else Some(GptHeader(Le64(s, 72), count, size))
  }

  /** Entry `i`: sector i / perSector of the table, then i % perSector entries into it. */
  function GptEntry(content: nat -> byte, h: GptHeader, ratio: nat, i: nat): (e: seq<byte>)
    requires h.entrySize > 0 && ratio * 512 >= h.entrySize
    ensures |e| == h.entrySize
  {
    var per := PerSector(h, ratio);
    var sector := NativeLba((h.entriesLba + Quot(i, per)) % U64, ratio);
    Slice(content, sector * 512 + EntryOffset(Rem(i, per), h.entrySize), h.entrySize)
  }

  /** The table has sector `s` exactly when the sector's first entry is one of the `count` entries. */
  lemma SectorStep(base: nat, s: nat, per: nat, count: nat)
    requires StartsSector(base, s, per) && per > 0
    ensures s < Quot(count + per - 1, per) <==> base < count
    ensures StartsSector(base + per, s + 1, per)
  {
    hide EntryOffset, Quot;
    var sectors := Quot(count + per - 1, per);
    QuotBounds(count + per - 1, per);
    OffsetNext(s, per);
    if s < sectors {
      OffsetRises(s + 1, sectors, per);
    } else {
      OffsetRises(sectors, s, per);
    }
  }

  function EntryOffset(e: nat, size: nat): nat {
    e * size
  }

  lemma OffsetNext(e: nat, size: nat)
    ensures EntryOffset(e + 1, size) == EntryOffset(e, size) + size
  {
  }

  lemma {:induction false} OffsetRises(a: nat, b: nat, size: nat)
    requires a <= b
    ensures EntryOffset(a, size) <= EntryOffset(b, size)
  {
    hide EntryOffset;
    if a < b {
      OffsetRises(a, b - 1, size);
      OffsetNext(b - 1, size);
    }
  }

  lemma QuotBounds(a: nat, b: nat)
    requires b > 0
    ensures EntryOffset(Quot(a, b), b) <= a < EntryOffset(Quot(a, b), b) + b
  {
    assert a == a / b * b + a % b;
  }

  function PerSector(h: GptHeader, ratio: nat): (n: nat)
    requires h.entrySize > 0 && ratio * 512 >= h.entrySize
    ensures n > 0
  {
    DivAtLeastOne(ratio * 512, h.entrySize);
    Quot(ratio * 512, h.entrySize)
  }

  lemma DivAtLeastOne(a: nat, b: nat)
    requires a >= b > 0
    ensures a / b >= 1
  {
  }

  function Rem(a: nat, b: nat): (r: nat)
    requires b > 0
    ensures r < b
  {
    a % b
  }

  /** Not empty, and not backwards. */
  predicate GptUsed(e: seq<byte>)
    requires |e| >= 128
  {
    (exists i :: 0 <= i < 16 && e[i] != 0) && Le64(e, 32) <= Le64(e, 40)
  }

  function GptListed(e: seq<byte>, i: nat, ratio: nat): Listed
    requires |e| >= 128 && GptUsed(e)
  {
    Listed(i + 1, Le64(e, 32) * ratio % U64, (Le64(e, 40) - Le64(e, 32) + 1) * ratio % U64, e[..16])
  }

  /** What entry `i` contributes. */
  function GptOne(content: nat -> byte, h: GptHeader, ratio: nat, i: nat): (r: seq<Listed>)
    requires h.entrySize >= 128 && ratio * 512 >= h.entrySize
    ensures |r| <= 1 && (r != [] ==> r[0].number == i + 1)
  {
    var e := GptEntry(content, h, ratio, i);
    if GptUsed(e) then [GptListed(e, i, ratio)] else []
  }

  /** The partitions of the first `n` entries, in order. */
  function GptParts(content: nat -> byte, h: GptHeader, ratio: nat, n: nat): seq<Listed>
    requires h.entrySize >= 128 && ratio * 512 >= h.entrySize
  {
    if n == 0 then [] else GptParts(content, h, ratio, n - 1) + GptOne(content, h, ratio, n - 1)
  }

  lemma GptOneShape(content: nat -> byte, h: GptHeader, ratio: nat, i: nat)
    requires h.entrySize >= 128 && ratio * 512 >= h.entrySize
    ensures var r := GptOne(content, h, ratio, i);
            |r| <= 1 && (r != [] ==> r[0].number == i + 1)
  {
  }

  /** Partition `p` is what its own entry, among the first `n`, contributes. */
  ghost predicate FromEntry(content: nat -> byte, h: GptHeader, ratio: nat, n: nat, p: Listed)
    requires h.entrySize >= 128 && ratio * 512 >= h.entrySize
  {
    1 <= p.number <= n && GptOne(content, h, ratio, p.number - 1) == [p]
  }

  /** Everything listed is a used entry, under its own number, in increasing order. */
  lemma {:induction false} GptPartsSound(content: nat -> byte, h: GptHeader, ratio: nat, n: nat)
    requires h.entrySize >= 128 && ratio * 512 >= h.entrySize
    ensures forall p | p in GptParts(content, h, ratio, n) :: FromEntry(content, h, ratio, n, p)
    ensures forall j, k | 0 <= j < k < |GptParts(content, h, ratio, n)| ::
              GptParts(content, h, ratio, n)[j].number < GptParts(content, h, ratio, n)[k].number
  {
    hide GptOne;
    if n > 0 {
      GptOneShape(content, h, ratio, n - 1);
      GptPartsSound(content, h, ratio, n - 1);
      var before, one := GptParts(content, h, ratio, n - 1), GptOne(content, h, ratio, n - 1);
      assert GptParts(content, h, ratio, n) == before + one;
      assert one == [] || one == [one[0]];
      forall j | 0 <= j < |before|
        ensures before[j].number < n
      {
        assert FromEntry(content, h, ratio, n - 1, before[j]) by { assert before[j] in before; }
      }
      forall p | p in before
        ensures FromEntry(content, h, ratio, n, p)
      {
        assert FromEntry(content, h, ratio, n - 1, p);
      }
    }
  }

  /** Every used entry among the first `n` is listed. */
  lemma {:induction false} GptPartsComplete(content: nat -> byte, h: GptHeader, ratio: nat, n: nat, i: nat)
    requires h.entrySize >= 128 && ratio * 512 >= h.entrySize && i < n
    ensures GptUsed(GptEntry(content, h, ratio, i)) <==> GptOne(content, h, ratio, i) != []
    ensures forall p | p in GptOne(content, h, ratio, i) :: p in GptParts(content, h, ratio, n)
  {
    if i < n - 1 {
      GptPartsComplete(content, h, ratio, n - 1, i);
    }
  }

  /** The nested sector and entry loops address one flat array of entries. */
  lemma GptFlat(content: nat -> byte, h: GptHeader, ratio: nat, i: nat)
    requires ValidRatio(ratio) && 128 <= h.entrySize <= ratio * 512 && Rem(ratio * 512, h.entrySize) == 0
    requires (h.entriesLba + i + 1) * ratio <= U64
    ensures GptEntry(content, h, ratio, i) ==
            Slice(content, h.entriesLba * (ratio * 512) + i * h.entrySize, h.entrySize)
  {
    hide Quot, Rem, EntryOffset, NativeLba, Slice, ValidRatio;
    var per := PerSector(h, ratio);
    FlatIndex(ratio * 512, h.entrySize, i);
    SmallAddress(h.entriesLba, Quot(i, per), i, ratio);
    FlatAddress(h.entriesLba, Quot(i, per), Rem(i, per), i, ratio, h.entrySize);
  }

  lemma FlatAddress(base: nat, s: nat, e: nat, i: nat, ratio: nat, size: nat)
    requires ValidRatio(ratio) && s * (ratio * 512) + e * size == i * size
    ensures (base + s) * ratio * 512 + EntryOffset(e, size) == base * (ratio * 512) + i * size
  {
    if ratio == 1 {
    } else if ratio == 2 {
    } else if ratio == 4 {
    }
  }

  /** Splitting index `i` into sectors of whole entries and putting it back together. */
  lemma FlatIndex(native: nat, size: nat, i: nat)
    requires 0 < size <= native && Rem(native, size) == 0
    ensures Quot(native, size) > 0
    ensures var per := Quot(native, size);
            Quot(i, per) * native + Rem(i, per) * size == i * size && Quot(i, per) <= i
  {
    DivAtLeastOne(native, size);
    var per := Quot(native, size);
    var s, e := Quot(i, per), Rem(i, per);
    assert native == per * size by { assert native == native / size * size + native % size; }
    assert i == s * per + e;
    Assoc(s, per, size);
    assert (s * per + e) * size == (s * per) * size + e * size;
    assert s <= s * per;
  }

  /** Sector `s` of the entry table. */
  function GptSector(content: nat -> byte, h: GptHeader, ratio: nat, s: nat): (r: seq<byte>)
    ensures |r| == ratio * 512
  {
    NativeSector(content, (h.entriesLba + s) % U64, ratio)
  }

  /** Entry `base` is the first of the table's sector `s`, which holds `per` entries. */
  predicate StartsSector(base: nat, s: nat, per: nat) {
    base == EntryOffset(s, per)
  }

  /** Entry `e` of the table's sector `s`, read out of that sector. */
  lemma GptEntryInSector(content: nat -> byte, h: GptHeader, ratio: nat, s: nat, base: nat, e: nat)
    requires 128 <= h.entrySize <= ratio * 512 && e < PerSector(h, ratio) && StartsSector(base, s, PerSector(h, ratio))
    ensures var at := EntryOffset(e, h.entrySize);
            && at + h.entrySize <= ratio * 512
            && GptSector(content, h, ratio, s)[at..at + h.entrySize] ==
               GptEntry(content, h, ratio, base + e)
  {
    var per, size, native := PerSector(h, ratio), h.entrySize, ratio * 512;
    var at := EntryOffset(e, size);
    EntryFits(native, size, e);
    SplitIndex(s, per, e);
    hide EntryOffset, StartsSector;
    SliceSub(content, NativeLba((h.entriesLba + s) % U64, ratio) * 512, native, at, at + size);
  }

  lemma EntryFits(native: nat, size: nat, e: nat)
    requires 0 < size <= native && e < Quot(native, size)
    ensures EntryOffset(e, size) + size <= native
  {
    hide EntryOffset, Quot;
    QuotBounds(native, size);
    OffsetNext(e, size);
    OffsetRises(e + 1, Quot(native, size), size);
  }

  lemma SplitIndex(s: nat, per: nat, e: nat)
    requires e < per
    ensures Quot(s * per + e, per) == s && Rem(s * per + e, per) == e
  {
    var q, r := Quot(s * per + e, per), Rem(s * per + e, per);
    assert q * per + r == s * per + e;
    assert q < s ==> (q + 1) * per <= s * per;
    assert q > s ==> (s + 1) * per <= q * per;
  }

  lemma Assoc(a: nat, b: nat, c: nat)
    ensures a * (b * c) == (a * b) * c
  {
  }

  lemma SmallAddress(base: nat, s: nat, i: nat, ratio: nat)
    requires ValidRatio(ratio) && s <= i && (base + i + 1) * ratio <= U64
    ensures base + s < U64 && NativeLba((base + s) % U64, ratio) == (base + s) * ratio
  {
  }

  // ---- MBR ----

  /** A 16-byte MBR or EBR entry. */
  datatype MbrEntry = MbrEntry(kind: byte, start: nat, count: nat) {
    predicate Empty() { kind == 0 || count == 0 }
    predicate Extended() { kind == 0x05 || kind == 0x0F || kind == 0x85 }
  }

  function EntryAt(s: seq<byte>, at: nat): (e: MbrEntry)
    requires at + 16 <= |s|
    ensures e.start < U32 && e.count < U32
  {
    MbrEntry(s[at + 4], Le32(s, at + 8), Le32(s, at + 12))
  }

  predicate Signed(s: seq<byte>)
    requires |s| >= 512
  {
    s[510] == 0x55 && s[511] == 0xAA
  }

  /** One link of an EBR chain: the logical partition it describes, and where the next link is, if there is one. */
  datatype Link = Link(part: Option<Listed>, next: Option<nat>) {
    function Here(): seq<Listed> { if part.Some? then [part.value] else [] }
  }

  function EbrLink(s: seq<byte>, ext: nat, ebr: nat, number: nat, ratio: nat): (l: Link)
    requires |s| >= 512
    ensures l.next.Some? ==> ebr < l.next.value < ext + U32
    ensures l.part.Some? ==> l.part.value.number == number
  {
    var e0, e1 := EntryAt(s, 446), EntryAt(s, 462);
    Link(if e0.Empty() then None
         else Some(Listed(number, (ebr + e0.start) * ratio % U64, e0.count * ratio % U64, [e0.kind])),
         if e1.kind == 0 || e1.start == 0 || ext + e1.start <= ebr then None else Some(ext + e1.start))
  }

  /** The link stored in native sector `ebr`; a sector without the signature ends the chain. */
  function LinkAt(content: nat -> byte, ext: nat, ebr: nat, number: nat, ratio: nat): (l: Link)
    requires ratio >= 1
    ensures l.next.Some? ==> ebr < l.next.value < ext + U32
    ensures l.part.Some? ==> l.part.value.number == number
  {
    var s := NativeSector(content, ebr, ratio);
    if Signed(s) then EbrLink(s, ext, ebr, number, ratio) else Link(None, None)
  }

  /** What LinkAt promises, for proofs that keep its definition out of sight. */
  lemma LinkShape(content: nat -> byte, ext: nat, ebr: nat, number: nat, ratio: nat)
    requires ratio >= 1
    ensures var l := LinkAt(content, ext, ebr, number, ratio);
            && (l.next.Some? ==> ebr < l.next.value < ext + U32)
            && (l.part.Some? ==> l.part.value.number == number)
            && l.next == LinkAt(content, ext, ebr, 0, ratio).next
  {
  }

  /** The whole chain from `ebr` on. It is finite because the addresses strictly increase below ext + 2^32. */
  function EbrWalk(content: nat -> byte, ext: nat, ebr: nat, number: nat, ratio: nat): seq<Listed>
    requires ratio >= 1
    decreases ext + U32 - ebr
  {
    var l := LinkAt(content, ext, ebr, number, ratio);
    l.Here() + if l.next.None? || ebr >= ext + U32 then []
               else EbrWalk(content, ext, l.next.value, number + |l.Here()|, ratio)
  }

  /** The walk ScanMbr makes: at most `cap` links. */
  function EbrCapped(content: nat -> byte, ext: nat, ebr: nat, number: nat, ratio: nat, cap: nat): seq<Listed>
    requires ratio >= 1
    decreases cap
  {
    if cap == 0 then []
    else
      var l := LinkAt(content, ext, ebr, number, ratio);
      l.Here() + if l.next.None? then []
                 else EbrCapped(content, ext, l.next.value, number + |l.Here()|, ratio, cap - 1)
  }

  /** Number of links of the whole chain. */
  function EbrLinks(content: nat -> byte, ext: nat, ebr: nat, ratio: nat): nat
    requires ratio >= 1
    decreases ext + U32 - ebr
  {
    var next := LinkAt(content, ext, ebr, 0, ratio).next;
    1 + if next.None? || ebr >= ext + U32 then 0 else EbrLinks(content, ext, next.value, ratio)
  }

  lemma Unfold(content: nat -> byte, ext: nat, ebr: nat, number: nat, ratio: nat, cap: nat)
    requires ratio >= 1
    ensures var l := LinkAt(content, ext, ebr, number, ratio);
            && EbrWalk(content, ext, ebr, number, ratio) ==
                 (if l.next.None? then l.Here()
                  else l.Here() + EbrWalk(content, ext, l.next.value, number + |l.Here()|, ratio))
            && EbrLinks(content, ext, ebr, ratio) ==
                 (if l.next.None? then 1 else 1 + EbrLinks(content, ext, l.next.value, ratio))
            && EbrCapped(content, ext, ebr, number, ratio, cap) ==
                 (if cap == 0 then []
                  else if l.next.None? then l.Here()
                  else l.Here() + EbrCapped(content, ext, l.next.value, number + |l.Here()|, ratio, cap - 1))
  {
    hide LinkAt;
    LinkShape(content, ext, ebr, number, ratio);
    var here := LinkAt(content, ext, ebr, number, ratio).Here();
    assert here + [] == here;
  }

  /** The cap only ever cuts the walk short. */
  lemma {:induction false} CapIsCut(content: nat -> byte, ext: nat, ebr: nat, number: nat, ratio: nat, cap: nat)
    requires ratio >= 1
    ensures EbrCapped(content, ext, ebr, number, ratio, cap) <= EbrWalk(content, ext, ebr, number, ratio)
    decreases cap
  {
    hide LinkAt, EbrWalk, EbrCapped, EbrLinks;
    Unfold(content, ext, ebr, number, ratio, cap);
    var l := LinkAt(content, ext, ebr, number, ratio);
    if cap > 0 && l.next.Some? {
      var next, k := l.next.value, number + |l.Here()|;
      CapIsCut(content, ext, next, k, ratio, cap - 1);
      PrefixAfter(l.Here(), EbrCapped(content, ext, next, k, ratio, cap - 1), EbrWalk(content, ext, next, k, ratio));
    }
  }

  /** It cuts nothing when the chain has at most `cap` links. */
  lemma {:induction false} CapIsEnough(content: nat -> byte, ext: nat, ebr: nat, number: nat, ratio: nat, cap: nat)
    requires ratio >= 1 && EbrLinks(content, ext, ebr, ratio) <= cap
    ensures EbrCapped(content, ext, ebr, number, ratio, cap) == EbrWalk(content, ext, ebr, number, ratio)
    decreases cap
  {
    hide LinkAt, EbrWalk, EbrCapped, EbrLinks;
    Unfold(content, ext, ebr, number, ratio, cap);
    var l := LinkAt(content, ext, ebr, number, ratio);
    if l.next.Some? {
      CapIsEnough(content, ext, l.next.value, number + |l.Here()|, ratio, cap - 1);
    }
  }

  lemma PrefixAfter(here: seq<Listed>, a: seq<Listed>, b: seq<Listed>)
    requires a <= b
    ensures here + a <= here + b
  {
  }

  /** Primary entry `i` of an MBR: a partition, a chain of logical ones, or nothing. */
  function MbrOne(content: nat -> byte, mbr: seq<byte>, i: nat, logical: nat, ratio: nat): seq<Listed>
    requires |mbr| >= 512 && i < 4 && ratio >= 1
  {
    var e := EntryAt(mbr, 446 + i * 16);
    if e.Empty() then []
    else if e.Extended() then EbrCapped(content, e.start, e.start, logical, ratio, MAX_EBR_CHAIN)
    else [PrimaryListed(e, i, ratio)]
  }

  function PrimaryListed(e: MbrEntry, i: nat, ratio: nat): (l: Listed)
    ensures l.number == i + 1 && l.start < U64
  {
    Listed(i + 1, e.start * ratio % U64, e.count * ratio % U64, [e.kind])
  }

  lemma MbrOneCases(content: nat -> byte, mbr: seq<byte>, i: nat, logical: nat, ratio: nat)
    requires |mbr| >= 512 && i < 4 && ratio >= 1
    ensures var e, r := EntryAt(mbr, 446 + i * 16), MbrOne(content, mbr, i, logical, ratio);
            if e.Empty() then r == []
            else if e.Extended() then r == EbrCapped(content, e.start, e.start, logical, ratio, MAX_EBR_CHAIN)
            else r == [PrimaryListed(e, i, ratio)]
  {
  }

  /** How many logical partitions the first `n` primary entries bring. */
  function Logicals(content: nat -> byte, mbr: seq<byte>, n: nat, ratio: nat): nat
    requires |mbr| >= 512 && n <= 4 && ratio >= 1
  {
    if n == 0 then 0
    else
      var before := Logicals(content, mbr, n - 1, ratio);
      before + if EntryAt(mbr, 446 + (n - 1) * 16).Extended()
               then |MbrOne(content, mbr, n - 1, FIRST_LOGICAL + before, ratio)| else 0
  }

  function MbrParts(content: nat -> byte, mbr: seq<byte>, n: nat, ratio: nat): seq<Listed>
    requires |mbr| >= 512 && n <= 4 && ratio >= 1
  {
    if n == 0 then []
    else MbrParts(content, mbr, n - 1, ratio)
         + MbrOne(content, mbr, n - 1, FIRST_LOGICAL + Logicals(content, mbr, n - 1, ratio), ratio)
  }

  /** What a primary entry brings when its chain is cut off after `kept` partitions, if it is. */
  function MbrPiece(content: nat -> byte, mbr: seq<byte>, i: nat, logical: nat, ratio: nat, kept: Option<nat>)
    : seq<Listed>
    requires |mbr| >= 512 && i < 4 && ratio >= 1
  {
    var one := MbrOne(content, mbr, i, logical, ratio);
    if kept.Some? && kept.value < |one| then one[..kept.value] else one
  }

  /** How many logical partitions the first |kept| primary entries bring, and all their partitions. */
  function CutLogicals(content: nat -> byte, mbr: seq<byte>, ratio: nat, kept: seq<Option<nat>>): nat
    requires |mbr| >= 512 && |kept| <= 4 && ratio >= 1
  {
    if kept == [] then 0
    else
      var n := |kept| - 1;
      var before := CutLogicals(content, mbr, ratio, kept[..n]);
      before + if EntryAt(mbr, 446 + n * 16).Extended()
               then |MbrPiece(content, mbr, n, FIRST_LOGICAL + before, ratio, kept[n])| else 0
  }

  function MbrCut(content: nat -> byte, mbr: seq<byte>, ratio: nat, kept: seq<Option<nat>>): seq<Listed>
    requires |mbr| >= 512 && |kept| <= 4 && ratio >= 1
  {
    if kept == [] then []
    else
      var n := |kept| - 1;
      MbrCut(content, mbr, ratio, kept[..n])
      + MbrPiece(content, mbr, n, FIRST_LOGICAL + CutLogicals(content, mbr, ratio, kept[..n]), ratio, kept[n])
  }

  /** How many entries are cut off. */
  function Cuts(kept: seq<Option<nat>>): nat {
    if kept == [] then 0 else Cuts(kept[..|kept| - 1]) + if kept[|kept| - 1].Some? then 1 else 0
  }

  /** Without a cut it is all the MBR defines. */
  lemma {:induction false} NothingCut(content: nat -> byte, mbr: seq<byte>, ratio: nat, kept: seq<Option<nat>>)
    requires |mbr| >= 512 && |kept| <= 4 && ratio >= 1 && Cuts(kept) == 0
    ensures MbrCut(content, mbr, ratio, kept) == MbrParts(content, mbr, |kept|, ratio)
    ensures CutLogicals(content, mbr, ratio, kept) == Logicals(content, mbr, |kept|, ratio)
  {
    hide MbrOne, MbrPiece, MbrCut, CutLogicals, MbrParts, Logicals, EntryAt;
    PartsStep(content, mbr, |kept|, ratio);
    if kept == [] {
      NoPieces(content, mbr, ratio);
    } else {
      var front, last := kept[..|kept| - 1], kept[|kept| - 1];
      NothingCut(content, mbr, ratio, front);
      CutNext(content, mbr, ratio, front, last);
      assert kept == front + [last];
      WholePiece(content, mbr, |front|, FIRST_LOGICAL + Logicals(content, mbr, |front|, ratio), ratio);
    }
  }

  lemma NoPieces(content: nat -> byte, mbr: seq<byte>, ratio: nat)
    requires |mbr| >= 512 && ratio >= 1
    ensures MbrCut(content, mbr, ratio, []) == [] && CutLogicals(content, mbr, ratio, []) == 0
  {
  }

  lemma WholePiece(content: nat -> byte, mbr: seq<byte>, i: nat, logical: nat, ratio: nat)
    requires |mbr| >= 512 && i < 4 && ratio >= 1
    ensures MbrPiece(content, mbr, i, logical, ratio, None) == MbrOne(content, mbr, i, logical, ratio)
  {
    hide MbrOne;
  }

  lemma PartsStep(content: nat -> byte, mbr: seq<byte>, n: nat, ratio: nat)
    requires |mbr| >= 512 && n <= 4 && ratio >= 1
    ensures n == 0 ==> MbrParts(content, mbr, n, ratio) == [] && Logicals(content, mbr, n, ratio) == 0
    ensures n > 0 ==>
              var before := Logicals(content, mbr, n - 1, ratio);
              var one := MbrOne(content, mbr, n - 1, FIRST_LOGICAL + before, ratio);
              && MbrParts(content, mbr, n, ratio) == MbrParts(content, mbr, n - 1, ratio) + one
              && Logicals(content, mbr, n, ratio) ==
                   before + if EntryAt(mbr, 446 + (n - 1) * 16).Extended() then |one| else 0
  {
    hide MbrOne, EntryAt;
  }

  lemma CutNext(content: nat -> byte, mbr: seq<byte>, ratio: nat, kept: seq<Option<nat>>, next: Option<nat>)
    requires |mbr| >= 512 && |kept| < 4 && ratio >= 1
    ensures var before := FIRST_LOGICAL + CutLogicals(content, mbr, ratio, kept);
            var piece := MbrPiece(content, mbr, |kept|, before, ratio, next);
            && MbrCut(content, mbr, ratio, kept + [next]) == MbrCut(content, mbr, ratio, kept) + piece
            && FIRST_LOGICAL + CutLogicals(content, mbr, ratio, kept + [next]) ==
                 before + if EntryAt(mbr, 446 + |kept| * 16).Extended() then |piece| else 0
    ensures Cuts(kept + [next]) == Cuts(kept) + if next.Some? then 1 else 0
  {
    hide MbrPiece;
    assert (kept + [next])[..|kept|] == kept;
  }
}
