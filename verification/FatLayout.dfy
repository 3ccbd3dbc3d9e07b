/** What a FAT32 disk looks like, written field by field, and that the reader finds all of it again. */
module FatLayout {
  import opened Common
  import opened FatFormat
  import opened FatVolume
  import BlockDev

  // ---- the boot sector ----

  datatype Boot = Boot(sectorSize: nat, spc: nat, reserved: nat, fats: nat, fatSize: nat, root: nat) {
    /** The values fit their fields. */
    predicate Fits() {
      sectorSize < 0x1_0000 && spc < 0x100 && reserved < 0x1_0000 && fats < 0x100 && fatSize < U32 && root < U32
    }
  }

  ghost predicate BootWritten(s: seq<byte>, b: Boot) {
    && b.Fits() && |s| >= 512 && s[510] == 0x55 && s[511] == 0xAA
    && s[11..13] == PutLe16(b.sectorSize) && s[13] == b.spc && s[14..16] == PutLe16(b.reserved) && s[16] == b.fats
    && s[17..19] == PutLe16(0) && s[36..40] == PutLe32(b.fatSize) && s[44..48] == PutLe32(b.root)
  }

  /** A signed boot sector without a FAT16 root directory is accepted exactly when its fields make sense. */
  lemma BootRead(content: nat -> byte, s: seq<byte>, b: Boot, startLba: nat)
    requires BootWritten(s, b)
    ensures BootSectorValid(s) <==>
              && b.sectorSize in {512, 1024, 2048, 4096} && b.spc in {1, 2, 4, 8, 16, 32, 64, 128}
              && b.reserved > 0 && 1 <= b.fats <= 2 && b.fatSize > 0 && b.root >= 2
    ensures var g, scale := Decode(content, s, startLba), b.sectorSize / 512;
            BootSectorValid(s) ==>
              && g.content == content && g.startLba == startLba && g.spc == Times(b.spc, scale)
              && g.fatStart == Times(b.reserved, scale) && g.rootCluster == b.root
              && g.firstData == (Times(b.reserved, scale) + Times(Times(b.fats, b.fatSize), scale)) % U32
  {
    hide Le16, Le32, PutLe16, PutLe32;
    Le16Put(s, 11, b.sectorSize);
    Le16Put(s, 14, b.reserved);
    Le16Put(s, 17, 0);
    Le32Put(s, 36, b.fatSize);
    Le32Put(s, 44, b.root);
    if BootSectorValid(s) {
      BootSectorSpc(content, s, startLba);
    }
  }

  // ---- the file allocation table ----

  /** The FAT's entry for cluster `c`, with its four reserved bits in front. */
  ghost predicate FatHolds(g: Geometry, c: nat, entry: nat) {
    entry < U32 && Slice(g.content, (g.startLba + g.fatStart) * 512 + c * 4, 4) == PutLe32(entry)
  }

  lemma FatEntryRead(g: Geometry, c: nat, entry: nat)
    requires FatHolds(g, c, entry)
    ensures g.FatEntry(c) == entry % 0x1000_0000
  {
    Le32Put(Slice(g.content, (g.startLba + g.fatStart) * 512 + c * 4, 4), 0, entry);
  }

  /** The FAT links the clusters `cs` in order and ends after them; `marks` are its entries for them. */
  ghost predicate Linked(g: Geometry, cs: seq<nat>, marks: seq<nat>) {
    && cs != [] && |marks| == |cs| && (forall i | 0 <= i < |cs| :: ClusterValid(cs[i]) && FatHolds(g, cs[i], marks[i]))
    && (forall i | 0 <= i < |cs| - 1 :: marks[i] % 0x1000_0000 == cs[i + 1])
    && marks[|cs| - 1] % 0x1000_0000 >= 0x0FFF_FFF8
  }

  lemma {:induction false} ChainRead(g: Geometry, cs: seq<nat>, marks: seq<nat>, i: nat)
    requires Linked(g, cs, marks) && i <= |cs|
    ensures g.Chain(cs[0], i) == if i < |cs| then Some(cs[i]) else None
  {
    hide Geometry.FatEntry, FatHolds;
    if i > 0 {
      ChainRead(g, cs, marks, i - 1);
      FatEntryRead(g, cs[i - 1], marks[i - 1]);
    }
  }

  /** The clusters' bytes, in the order of the chain, are `data`, and anything after it. */
  ghost predicate DataWritten(g: Geometry, cs: seq<nat>, data: seq<byte>)
    requires g.spc > 0 && forall i | 0 <= i < |cs| :: cs[i] >= 2
  {
    && |data| <= Times(|cs|, g.spc * 512)
    && forall k | 0 <= k < |data| && Quot(k, g.spc * 512) < |cs| ::
         data[k] == g.content((g.startLba + g.firstData + Times(cs[Quot(k, g.spc * 512)] - 2, g.spc)) * 512
                              + Rest(k, g.spc * 512))
  }

  /** What was written along a chain is what the file holds. */
  lemma FileRead(g: Geometry, cs: seq<nat>, marks: seq<nat>, data: seq<byte>)
    requires g.spc > 0 && Linked(g, cs, marks) && DataWritten(g, cs, data)
    ensures g.Holds(cs[0], 0, data) && g.ChainLength(cs[0], |cs|)
  {
    hide FatHolds, Times, Geometry.FileByte, Geometry.HasByte, Geometry.Chain;
    forall i: nat | i <= |cs|
      ensures g.Chain(cs[0], i) == if i < |cs| then Some(cs[i]) else None
    {
      ChainRead(g, cs, marks, i);
    }
    forall k: nat | k < |data|
      ensures g.HasByte(cs[0], k) && g.FileByte(cs[0], k) == data[k]
    {
      var d := g.spc * 512;
      TimesLess(k, d, |cs|);
      g.ByteInCluster(cs[0], Quot(k, d), Rest(k, d));
    }
    AllHeld(g, cs[0], data);
  }

  lemma AllHeld(g: Geometry, first: nat, data: seq<byte>)
    requires g.spc > 0 && forall k: nat | k < |data| :: g.HasByte(first, k) && g.FileByte(first, k) == data[k]
    ensures g.Holds(first, 0, data)
  {
    hide Geometry.HasByte, Geometry.FileByte;
    assert g.HasBytes(first, 0, |data|);
  }

  /** The directory slots along such a chain, as addresses on the disk. */
  lemma {:induction false} SlotsRead(g: Geometry, cs: seq<nat>, marks: seq<nat>, n: nat)
    requires g.spc > 0 && Linked(g, cs, marks) && n <= |cs|
    ensures AllPlaced(g, cs, g.DirSlots(cs[0], n), n)
  {
    hide Geometry.Chain, Geometry.DirSlots, Geometry.ClusterSlots, FatHolds, AllPlaced;
    if n == 0 {
      g.DirSlotsEnd(cs[0], 0);
      NonePlaced(g, cs);
    } else {
      SlotsRead(g, cs, marks, n - 1);
      ChainRead(g, cs, marks, n - 1);
      g.DirSlotsSnoc(cs[0], n - 1);
      MorePlaced(g, cs, g.DirSlots(cs[0], n - 1), n - 1);
    }
  }

  ghost predicate AllPlaced(g: Geometry, cs: seq<nat>, slots: seq<DirSlot>, n: nat) {
    && |slots| == Times(n, g.spc * 16)
    && forall i, r: nat | 0 <= i < n && r < g.spc * 16 :: SlotPlaced(g, cs, slots, i, r)
  }

  lemma NonePlaced(g: Geometry, cs: seq<nat>)
    ensures AllPlaced(g, cs, [], 0)
  {
    TimesNone(g.spc * 16);
  }

  lemma MorePlaced(g: Geometry, cs: seq<nat>, before: seq<DirSlot>, n: nat)
    requires g.spc > 0 && n < |cs| && cs[n] >= 2 && AllPlaced(g, cs, before, n)
    ensures AllPlaced(g, cs, before + g.ClusterSlots(cs[n]), n + 1)
  {
    hide Times, Geometry.ClusterSlots, SlotPlaced;
    TimesNext(n, g.spc * 16);
    g.SlotsLength(cs[n]);
    forall i, r: nat | 0 <= i < n + 1 && r < g.spc * 16
      ensures SlotPlaced(g, cs, before + g.ClusterSlots(cs[n]), i, r)
    {
      if i < n {
        PlacedStill(g, cs, before, g.ClusterSlots(cs[n]), i, r);
      } else {
        PlacedLast(g, cs, before, i, r);
      }
    }
  }

  lemma PlacedStill(g: Geometry, cs: seq<nat>, before: seq<DirSlot>, here: seq<DirSlot>, i: nat, r: nat)
    requires SlotPlaced(g, cs, before, i, r)
    ensures SlotPlaced(g, cs, before + here, i, r)
  {
    hide Times;
  }

  lemma PlacedLast(g: Geometry, cs: seq<nat>, before: seq<DirSlot>, i: nat, r: nat)
    requires g.spc > 0 && i < |cs| && cs[i] >= 2 && |before| == Times(i, g.spc * 16) && r < g.spc * 16
    ensures SlotPlaced(g, cs, before + g.ClusterSlots(cs[i]), i, r)
  {
    hide Times, Geometry.ClusterSlots;
    g.SlotsLength(cs[i]);
    g.SlotOfCluster(cs[i], r);
  }

  /** Slot `r` of the `i`-th cluster is at its place in the list, and comes from its place on the disk. */
  ghost predicate SlotPlaced(g: Geometry, cs: seq<nat>, slots: seq<DirSlot>, i: nat, r: nat) {
    && i < |cs| && cs[i] >= 2 && Times(i, g.spc * 16) + r < |slots|
    && slots[Times(i, g.spc * 16) + r] ==
         Slice(g.content, (g.startLba + g.firstData + Times(cs[i] - 2, g.spc)) * 512 + r * 32, 32)
  }

  // ---- 8.3 names ----

  /** A short entry: base name and extension, the flags of byte 12, the attributes, and where the data is. */
  datatype Short = Short(base: string, ext: string, lowBase: bool, lowExt: bool, dir: bool, attributes: nat,
                         cluster: nat, size: nat)
  {
    predicate Valid() {
      && 1 <= |base| <= 8 && |ext| <= 3 && base[0] as int != 0x05 && cluster < U32 && size < U32
      && attributes < 0x100 && attributes / 8 % 2 == 0 && attributes / 0x10 % 2 == 0
      && (forall i | 0 <= i < |base| :: 0 < base[i] as int < 0x100 && base[i] != ' ')
      && (forall i | 0 <= i < |ext| :: 0 < ext[i] as int < 0x100 && ext[i] != ' ')
      && Name() != "." && Name() != ".."
    }

    function Name(): string {
      (if lowBase then Lower(base) else base) + if ext == "" then "" else "." + if lowExt then Lower(ext) else ext
    }

    function AsEntry(): Entry
      requires Valid()
    {
      Entry(Name(), attributes + if dir then 0x10 else 0, size, cluster)
    }
  }

  /** Its 32 bytes; the dates are not looked at. A first byte 0xE5 is written as 0x05. */
  ghost predicate ShortWritten(e: DirSlot, f: Short) {
    && f.Valid()
    && (forall i | 0 <= i < 8 :: e[i] as int ==
          if i >= |f.base| then 0x20 else if i == 0 && f.base[0] as int == 0xE5 then 0x05 else f.base[i] as int)
    && (forall i | 8 <= i < 11 :: e[i] as int == if i - 8 >= |f.ext| then 0x20 else f.ext[i - 8] as int)
    && e[11] == f.attributes + (if f.dir then 0x10 else 0)
    && (e[12] / 8 % 2 == 1 <==> f.lowBase) && (e[12] / 16 % 2 == 1 <==> f.lowExt)
    && e[20..22] == PutLe16(f.cluster / 0x1_0000) && e[26..28] == PutLe16(f.cluster % 0x1_0000)
    && e[28..32] == PutLe32(f.size)
  }

  /** The bytes from `i` on are `text`, and a space after it unless the field is full. */
  ghost predicate FieldHolds(e: DirSlot, i: nat, end: nat, text: string) {
    && i + |text| <= end <= 11 && (forall k: nat | k < |text| :: CharHeld(e, i + k, text[k]))
    && (i + |text| < end ==> e[i + |text|] == 0x20)
  }

  predicate CharHeld(e: DirSlot, at: nat, c: char) {
    at < 11 && e[at] != 0x20 && c as int == if at == 0 && e[0] == 0x05 then 0xE5 else e[at] as int
  }

  lemma {:induction false} FieldRead(e: DirSlot, i: nat, end: nat, text: string, low: bool)
    requires FieldHolds(e, i, end, text)
    ensures ShortField(e, i, end, low) == if low then Lower(text) else text
    decreases |text|
  {
    hide ShortField, Lower, LowerAscii, FieldHolds, CharHeld;
    FieldFirst(e, i, end, text);
    ShortFieldStep(e, i, end, low);
    if text != "" {
      FieldRead(e, i + 1, end, text[1..], low);
      LowerCons(text[0], text[1..]);
      assert text == [text[0]] + text[1..];
    } else {
      LowerNone();
    }
  }

  lemma FieldFirst(e: DirSlot, i: nat, end: nat, text: string)
    requires FieldHolds(e, i, end, text)
    ensures i + |text| <= end <= 11 && (text == "" && i < end ==> e[i] == 0x20)
    ensures text != "" ==> && i < 11 && e[i] != 0x20 && FieldHolds(e, i + 1, end, text[1..])
                           && text[0] as int == if i == 0 && e[0] == 0x05 then 0xE5 else e[i] as int
  {
    if text != "" {
      assert CharHeld(e, i + 0, text[0]);
      forall k: nat | k < |text| - 1
        ensures CharHeld(e, i + 1 + k, text[1..][k])
      {
        assert CharHeld(e, i + (k + 1), text[k + 1]);
      }
    }
  }

  lemma LowerCons(c: char, rest: string)
    ensures Lower([c] + rest) == [LowerAscii(c)] + Lower(rest)
  {
    var a, b := Lower([c] + rest), [LowerAscii(c)] + Lower(rest);
    assert forall i | 0 <= i < |a| :: a[i] == b[i];
  }

  lemma LowerNone()
    ensures Lower("") == ""
  {
  }

  lemma ShortNameRead(e: DirSlot, f: Short)
    requires ShortWritten(e, f)
    ensures ShortRaw(e) == f.Name() && CStr(ShortRaw(e)) == f.Name()
  {
    hide ShortField, Lower, PutLe16, PutLe32;
    forall k: nat | k < |f.base|
      ensures CharHeld(e, 0 + k, f.base[k])
    {
    }
    FieldRead(e, 0, 8, f.base, f.lowBase);
    forall k: nat | k < |f.ext|
      ensures CharHeld(e, 8 + k, f.ext[k])
    {
      assert e[8 + k] as int == f.ext[8 + k - 8] as int;
    }
    FieldRead(e, 8, 11, f.ext, f.lowExt);
    assert e[8] == 0x20 <==> f.ext == "";
    NameNoNul(f);
    WholeCStr(f.Name());
  }

  lemma NameNoNul(f: Short)
    requires f.Valid()
    ensures NoNul(f.Name())
  {
    LowerNoNul(f.base);
    LowerNoNul(f.ext);
  }

  lemma LowerNoNul(s: string)
    requires forall i | 0 <= i < |s| :: s[i] as int > 0
    ensures NoNul(s) && NoNul(Lower(s))
  {
    assert forall i | 0 <= i < |s| :: Lower(s)[i] == LowerAscii(s[i]);
  }

  lemma {:induction false} WholeCStr(s: string)
    requires NoNul(s)
    ensures CStr(s) == s
  {
    if s != "" {
      assert s[0] in s;
      WholeCStr(s[1..]);
    }
  }

  /** No long name is waiting for this entry. */
  predicate NoLongName(l: Lfn, e: DirSlot) {
    l == NoName || l.sum != ShortChecksum(e, 11)
  }

  /** A short entry without a long name is reported under its 8.3 name, with its fields. */
  lemma ShortReported(s: Scan, e: DirSlot, f: Short, stop: Callback)
    requires ShortWritten(e, f) && !s.done && NoLongName(s.lfn, e)
    ensures Fold(s, [e], stop) == Scan(NoName, s.out + [f.AsEntry()], stop(s.out + [f.AsEntry()]))
    ensures f.AsEntry().IsDir() <==> f.dir
  {
    hide ShortRaw, CStr, ShortChecksum, PutLe16, PutLe32, Le16, Le32, Short.Name, DecodeUnits;
    ShortNameRead(e, f);
    Le16Put(e, 20, f.cluster / 0x1_0000);
    Le16Put(e, 26, f.cluster % 0x1_0000);
    Le32Put(e, 28, f.size);
    ShortKept(e, f);
    FoldOne(s, e, stop);
  }

  /** It is in use, not a long-name slot and not a label. */
  lemma ShortKept(e: DirSlot, f: Short)
    requires ShortWritten(e, f)
    ensures e[0] != 0x00 && e[0] != 0xE5 && e[11] != 0x0F && e[11] / 8 % 2 == 0
    ensures (f.attributes + if f.dir then 0x10 else 0) / 0x10 % 2 == 1 <==> f.dir
  {
    hide PutLe16, PutLe32, Lower, Short.Name;
    DirectoryBit(f.attributes);
  }

  lemma DirectoryBit(attributes: nat)
    requires attributes / 8 % 2 == 0 && attributes / 0x10 % 2 == 0
    ensures attributes != 0x0F && (attributes + 0x10) / 8 % 2 == 0
    ensures attributes + 0x10 != 0x0F && (attributes + 0x10) / 0x10 % 2 == 1
  {
  }

  function ShortEntries(fs: seq<Short>): seq<Entry>
    requires forall f | f in fs :: f.Valid()
  {
    if fs == [] then [] else ShortEntries(fs[..|fs| - 1]) + [fs[|fs| - 1].AsEntry()]
  }

  /** A directory of short entries lists exactly them, whatever lies behind its end mark. */
  lemma ShortListing(es: seq<DirSlot>, fs: seq<Short>, end: DirSlot, junk: seq<DirSlot>)
    requires |es| == |fs| && (forall i | 0 <= i < |es| :: ShortWritten(es[i], fs[i])) && end[0] == 0
    requires forall f | f in fs :: f.Valid()
    ensures Fold(Start(), es + [end] + junk, Never).out == ShortEntries(fs)
  {
    hide Fold, StepSlot, ShortWritten, ShortEntries;
    ShortsFold(es, fs);
    FoldAppend(Start(), es, [end] + junk, Never);
    assert es + [end] + junk == es + ([end] + junk);
    var t := Fold(Start(), es, Never);
    FoldCons(t, end, junk, Never);
    EndMark(t, end);
    FoldDone(StepSlot(t, end, Never), junk, Never);
  }

  lemma EndMark(t: Scan, end: DirSlot)
    requires !t.done && end[0] == 0
    ensures StepSlot(t, end, Never) == t.(done := true)
  {
  }

  lemma {:induction false} ShortsFold(es: seq<DirSlot>, fs: seq<Short>)
    requires |es| == |fs| && forall i | 0 <= i < |es| :: ShortWritten(es[i], fs[i])
    requires forall f | f in fs :: f.Valid()
    ensures Fold(Start(), es, Never) == Scan(NoName, ShortEntries(fs), false)
  {
    hide ShortWritten, StepSlot, Short.Valid;
    if es != [] {
      var n := |es| - 1;
      ShortsFold(es[..n], fs[..n]);
      FoldAppend(Start(), es[..n], [es[n]], Never);
      assert es == es[..n] + [es[n]];
      ShortReported(Scan(NoName, ShortEntries(fs[..n]), false), es[n], fs[n], Never);
    }
  }

  /** The same for a directory on the disk. */
  lemma DirectoryListed(g: Geometry, cs: seq<nat>, marks: seq<nat>, es: seq<DirSlot>, fs: seq<Short>, end: DirSlot,
                        junk: seq<DirSlot>)
    requires g.spc > 0 && Linked(g, cs, marks) && |cs| <= MAX_CHAIN && g.DirSlots(cs[0], |cs|) == es + [end] + junk
    requires |es| == |fs| && (forall i | 0 <= i < |es| :: ShortWritten(es[i], fs[i])) && end[0] == 0
    requires forall f | f in fs :: f.Valid()
    ensures g.Listing(cs[0]) == ShortEntries(fs)
  {
    hide ShortWritten, ShortEntries, Short.Valid, Fold, Geometry.DirSlots, FatHolds;
    ChainRead(g, cs, marks, |cs|);
    g.DirSlotsAll(cs[0], |cs|, MAX_CHAIN);
    ShortListing(es, fs, end, junk);
  }

  /** Deleted entries and volume labels are passed over, and the two dot entries too. */
  lemma NotReported(s: Scan, e: DirSlot, stop: Callback)
    requires !s.done && e[11] != 0x0F && e[0] != 0
    requires || e[0] == 0xE5 || e[11] / 8 % 2 == 1
             || (NoLongName(s.lfn, e) && e[12] == 0 && e[0] == '.' as int && e[8] == 0x20
                 && (e[1] == 0x20 || (e[1] == '.' as int && e[2] == 0x20)))
    ensures Fold(s, [e], stop) == s.(lfn := NoName)
  {
    hide ShortChecksum, CStr, DecodeUnits;
    FoldOne(s, e, stop);
    if e[0] != 0xE5 && e[11] / 8 % 2 == 0 {
      ShortFieldStep(e, 0, 8, false);
      ShortFieldStep(e, 1, 8, false);
      ShortFieldStep(e, 2, 8, false);
      WholeCStr(ShortRaw(e));
    }
  }

  /** The checksum of the short name "README  TXT". */
  lemma ChecksumOfReadme(e: DirSlot)
    requires forall i | 0 <= i < 11 :: e[i] as int == "README  TXT"[i] as int
    ensures ShortChecksum(e, 11) == 0x73
  {
    hide ShortChecksum;
    NoChecksum(e);
    NextChecksum(e, 0, 0);
    NextChecksum(e, 1, 82);
    NextChecksum(e, 2, 110);
    NextChecksum(e, 3, 120);
    NextChecksum(e, 4, 128);
    NextChecksum(e, 5, 141);
    NextChecksum(e, 6, 11);
    NextChecksum(e, 7, 165);
    NextChecksum(e, 8, 242);
    NextChecksum(e, 9, 205);
    NextChecksum(e, 10, 62);
  }

  lemma NoChecksum(e: DirSlot)
    ensures ShortChecksum(e, 0) == 0
  {
  }

  lemma NextChecksum(e: DirSlot, n: nat, sum: byte)
    requires n < 11 && ShortChecksum(e, n) == sum
    ensures ShortChecksum(e, n + 1) == ((sum as int % 2) * 128 + sum as int / 2 + e[n] as int) % 256
  {
  }
}
