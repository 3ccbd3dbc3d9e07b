/** kernel/fat32.c, the on-disk format: cluster chains, directory slots and the listing as a fold. */
module FatFormat {
  import opened Common

  const FAT_EOC_MIN := 0x0FFF_FFF8
  const MAX_LFN_ENTRIES := 20
  const LFN_UNITS := MAX_LFN_ENTRIES * 13
  const MAX_CHAIN := 1048576
  const FAT_NAME_MAX := 256
  const FAT_ATTR_DIRECTORY := 0x10

  type DirSlot = e: seq<byte> | |e| == 32 witness seq(32, _ => 0)

  /** What FatListDir reports: FAT_ENTRY. */
  datatype Entry = Entry(name: string, attr: byte, size: nat, cluster: nat) {
    predicate IsDir() { attr / FAT_ATTR_DIRECTORY % 2 == 1 }
  }

  predicate ClusterValid(cluster: nat) {
    2 <= cluster < FAT_EOC_MIN
  }

  /** A mounted volume: the disk's bytes and the fields FatMount decodes. Addresses are 512-byte sectors. */
  datatype Geometry = Geometry(content: nat -> byte, startLba: nat, spc: nat, fatStart: nat, firstData: nat,
                               rootCluster: nat)
  {
    function ClusterBytes(): (n: nat)
      ensures spc > 0 ==> n > 0
    {
      spc * 512
    }

    /** The position in the chain, and the offset within the cluster, of byte `k` of a file. */
    function Index(k: nat): nat
      requires spc > 0
    {
      Quot(k, ClusterBytes())
    }

    function Within(k: nat): nat
      requires spc > 0
    {
      k % ClusterBytes()
    }

    function ClusterLba(cluster: nat): nat
      requires cluster >= 2
    {
      startLba + firstData + (cluster - 2) * spc
    }

    /** The FAT's entry for a cluster, read from the disk. */
    function FatEntry(cluster: nat): nat {
      Le32(Slice(content, (startLba + fatStart) * 512 + cluster * 4, 4), 0) % 0x1000_0000
    }

    /** The `i`-th cluster of the chain that starts at `first`, by plain walking. */
    function Chain(first: nat, i: nat): (r: Option<nat>)
      ensures r.Some? ==> ClusterValid(r.value)
    {
      var c := if i == 0 then Some(first)
               else match Chain(first, i - 1)
                    case None => None
                    case Some(prev) => Some(FatEntry(prev));
      if c.Some? && ClusterValid(c.value) then c else None
    }

    lemma {:induction false} ChainPrefix(first: nat, i: nat, j: nat)
      requires i <= j && Chain(first, j).Some?
      ensures Chain(first, i).Some?
    {
      if i < j {
        ChainPrefix(first, i, j - 1);
      }
    }

    lemma ChainBegins(first: nat, i: nat)
      requires Chain(first, i).Some?
      ensures ClusterValid(first)
    {
      ChainPrefix(first, 0, i);
    }

    lemma ChainEnds(first: nat, i: nat, j: nat)
      requires i <= j && Chain(first, i).None?
      ensures Chain(first, j).None?
    {
      if Chain(first, j).Some? {
        ChainPrefix(first, i, j);
      }
    }

    lemma HasByteIs(first: nat, k: nat)
      requires spc > 0
      ensures HasByte(first, k) <==> Chain(first, Index(k)).Some?
    {
    }

    /** Byte `k` of the file is covered by its chain. */
    predicate HasByte(first: nat, k: nat)
      requires spc > 0
    {
      Chain(first, Index(k)).Some?
    }

    function FileByte(first: nat, k: nat): byte
      requires spc > 0 && HasByte(first, k)
    {
      content(ClusterLba(Chain(first, Index(k)).value) * 512 + Within(k))
    }

    ghost predicate HasBytes(first: nat, from: nat, n: nat)
      requires spc > 0
    {
      forall k: nat | from <= k < from + n :: HasByte(first, k)
    }

    /** `n` bytes of the file from offset `from`: the clusters of its chain, concatenated. */
    ghost function FileSlice(first: nat, from: nat, n: nat): (s: seq<byte>)
      requires spc > 0 && HasBytes(first, from, n)
      ensures |s| == n
      ensures forall i | 0 <= i < n :: s[i] == FileByte(first, from + i)
    {
      seq<byte>(n, i requires 0 <= i < n => FileByte(first, from + i))
    }

    lemma DivZero()
      requires spc > 0
      ensures Index(0) == 0
    {
    }

    lemma IndexBounds(k: nat)
      requires spc > 0
      ensures k == Index(k) * ClusterBytes() + Within(k) && Within(k) < ClusterBytes()
    {
    }

    lemma WithinIs(k: nat)
      requires spc > 0
      ensures Within(k) == k % (spc * 512) && ClusterBytes() == spc * 512
    {
    }

    lemma ChainValid(first: nat, i: nat)
      ensures Chain(first, i).Some? ==> ClusterValid(Chain(first, i).value)
    {
    }

    /** A stretch of bytes inside the `index`-th cluster, and where the byte after it lies. */
    lemma PieceIsFile(first: nat, index: nat, k: nat, n: nat)
      requires spc > 0 && Index(k) == index && Within(k) + n <= ClusterBytes() && Chain(first, index).Some?
      ensures HasBytes(first, k, n)
      ensures FileSlice(first, k, n) == Slice(content, ClusterLba(Chain(first, index).value) * 512 + Within(k), n)
      ensures Within(k) + n < ClusterBytes() ==> Index(k + n) == index && Within(k + n) == Within(k) + n
      ensures Within(k) + n == ClusterBytes() ==> Index(k + n) == index + 1 && Within(k + n) == 0
    {
      forall j: nat | k <= j < k + n
        ensures HasByte(first, j) && Index(j) == index && Within(j) == Within(k) + (j - k)
      {
        DivPiece(k, ClusterBytes(), j - k);
      }
      DivPiece(k, ClusterBytes(), n);
    }

    /** `s` is what the file holds from offset `from` on. */
    ghost predicate Holds(first: nat, from: nat, s: seq<byte>)
      requires spc > 0
    {
      HasBytes(first, from, |s|) && s == FileSlice(first, from, |s|)
    }

    lemma HoldsNothing(first: nat, from: nat)
      requires spc > 0
      ensures Holds(first, from, [])
    {
    }

    lemma HoldsConcat(first: nat, from: nat, s: seq<byte>, t: seq<byte>)
      requires spc > 0 && Holds(first, from, s) && Holds(first, from + |s|, t)
      ensures Holds(first, from, s + t)
    {
      assert s + t == FileSlice(first, from, |s + t|);
    }

    /** Appending a piece of the cluster that holds the next byte. */
    lemma HoldsMore(first: nat, from: nat, s: seq<byte>, index: nat, t: seq<byte>)
      requires spc > 0 && Holds(first, from, s)
      requires Index(from + |s|) == index && Chain(first, index).Some?
      requires Within(from + |s|) + |t| <= ClusterBytes()
      requires t == Slice(content, ClusterLba(Chain(first, index).value) * 512 + Within(from + |s|), |t|)
      ensures Holds(first, from, s + t)
      ensures index <= Index(from + |s + t|) <= index + 1
      ensures Index(from + |s + t|) == index + 1 <==> Within(from + |s + t|) == 0 && t != []
    {
      PieceIsFile(first, index, from + |s|, |t|);
      assert s + t == FileSlice(first, from, |s + t|);
    }

    /** Byte `r` of the `i`-th cluster, as an address on the disk. */
    lemma ByteInCluster(first: nat, i: nat, r: nat)
      requires spc > 0 && Chain(first, i).Some? && r < spc * 512
      ensures HasByte(first, Times(i, spc * 512) + r)
      ensures FileByte(first, Times(i, spc * 512) + r) ==
              content((startLba + firstData + Times(Chain(first, i).value - 2, spc)) * 512 + r)
    {
      hide Chain;
      DivUnique(Times(i, spc * 512) + r, spc * 512, i, r);
    }

    /** The first `n` clusters of the file lie one after the other on the disk. */
    ghost predicate Consecutive(first: nat, n: nat) {
      ClusterValid(first) && forall i: nat | i < n :: Chain(first, i) == Some(first + i)
    }

    lemma ConsecutiveAt(first: nat, n: nat, i: nat)
      requires Consecutive(first, n) && i < n
      ensures first >= 2 && Chain(first, i) == Some(first + i)
    {
    }

    /** A file in consecutive clusters is one stretch of the disk. */
    lemma ConsecutiveByte(first: nat, n: nat, k: nat)
      requires spc > 0 && first >= 2 && Consecutive(first, n) && k < Times(n, spc * 512)
      ensures HasByte(first, k)
      ensures FileByte(first, k) == content((startLba + firstData + Times(first - 2, spc)) * 512 + k)
    {
      hide Chain, HasByte, FileByte, Consecutive, Times;
      TimesLess(k, spc * 512, n);
      var i, r := Quot(k, spc * 512), Rest(k, spc * 512);
      ConsecutiveAt(first, n, i);
      ByteInCluster(first, i, r);
      LaterCluster(first, i);
    }

    lemma LaterCluster(first: nat, i: nat)
      requires first >= 2
      ensures Times(first + i - 2, spc) * 512 == Times(first - 2, spc) * 512 + Times(i, spc * 512)
    {
      assert (first + i - 2) * spc == (first - 2) * spc + i * spc;
      assert i * (spc * 512) == (i * spc) * 512;
    }

    /** What is held of such a file is that stretch. */
    lemma ConsecutiveBytes(first: nat, n: nat, from: nat, s: seq<byte>)
      requires spc > 0 && first >= 2 && Consecutive(first, n) && Holds(first, from, s)
      requires from + |s| <= Times(n, spc * 512)
      ensures s == Slice(content, (startLba + firstData + Times(first - 2, spc)) * 512 + from, |s|)
    {
      hide Consecutive, HasByte, FileByte, Holds, Times;
      var base := (startLba + firstData + Times(first - 2, spc)) * 512;
      forall j | 0 <= j < |s|
        ensures s[j] == content(base + from + j)
      {
        ConsecutiveByte(first, n, from + j);
        HeldByte(first, from, s, j);
      }
    }

    lemma HeldByte(first: nat, from: nat, s: seq<byte>, j: nat)
      requires spc > 0 && Holds(first, from, s) && j < |s|
      ensures HasByte(first, from + j) && s[j] == FileByte(first, from + j)
    {
    }

    /** The chain has exactly `n` clusters. */
    ghost predicate ChainLength(first: nat, n: nat) {
      Chain(first, n).None? && forall i: nat | i < n :: Chain(first, i).Some?
    }

    /** `done` bytes were read at `from`, and nothing but `want` or the end of the chain stopped the read there. */
    ghost predicate StoppedAt(first: nat, from: nat, want: nat, done: nat)
      requires spc > 0
    {
      done <= want && (done == want || !HasByte(first, from + done))
    }

    lemma StoppedNow(first: nat)
      requires spc > 0
      ensures StoppedAt(first, 0, 0, 0)
    {
    }

    lemma StoppedAtOnce(first: nat, from: nat, want: nat)
      requires spc > 0
      ensures Chain(first, Index(from)).None? || want == 0 ==> StoppedAt(first, from, want, 0)
    {
    }

    /** A complete read has one possible length: min(want, bytes left on the chain). */
    lemma {:induction false} CompleteReadLength(first: nat, from: nat, want: nat, done: nat, clusters: nat)
      requires spc > 0 && HasBytes(first, from, done) && StoppedAt(first, from, want, done)
      requires ChainLength(first, clusters)
      ensures done == Min(want, if from >= clusters * ClusterBytes() then 0 else clusters * ClusterBytes() - from)
    {
      forall k: nat
        ensures HasByte(first, k) <==> k < clusters * ClusterBytes()
      {
        DivLess(k, ClusterBytes(), clusters);
        if HasByte(first, k) && clusters <= Index(k) {
          ChainPrefix(first, clusters, Index(k));
        }
      }
      if done > 0 {
        assert HasByte(first, from + (done - 1));
      }
    }

    /** Every 32-byte slot of one cluster, in order. */
    function ClusterSlots(cluster: nat): (s: seq<DirSlot>)
      requires cluster >= 2
      ensures |s| == spc * 16
    {
      seq(spc * 16, k requires 0 <= k => Slice(content, ClusterLba(cluster) * 512 + k * 32, 32))
    }

    /** The flat sequence of directory slots along a chain of at most `guard` clusters. */
    function DirSlots(cluster: nat, guard: nat): seq<DirSlot>
      decreases guard
    {
      if guard == 0 || !ClusterValid(cluster) then []
      else ClusterSlots(cluster) + DirSlots(FatEntry(cluster), guard - 1)
    }

    lemma SlotsLength(cluster: nat)
      requires cluster >= 2
      ensures |ClusterSlots(cluster)| == spc * 16
    {
    }

    /** Slot `e` of a directory sector, read out of that sector. */
    lemma SlotInSector(cluster: nat, sector: nat, e: nat, s: seq<byte>)
      requires cluster >= 2 && sector < spc && e < 16 && s == Slice(content, (ClusterLba(cluster) + sector) * 512, 512)
      ensures sector * 16 + e < |ClusterSlots(cluster)|
      ensures ClusterSlots(cluster)[sector * 16 + e] == s[e * 32..e * 32 + 32]
    {
      SliceSub(content, (ClusterLba(cluster) + sector) * 512, 512, e * 32, e * 32 + 32);
    }

    /** The slots of a directory in consecutive clusters are one stretch of the disk. */
    lemma {:induction false} ConsecutiveSlots(first: nat, n: nat)
      requires spc > 0 && first >= 2 && Consecutive(first, n)
      ensures |DirSlots(first, n)| == Times(n, spc * 16)
      ensures forall k | 0 <= k < |DirSlots(first, n)| ::
                var lba := startLba + firstData + Times(first - 2, spc);
                DirSlots(first, n)[k] == Slice(content, lba * 512 + k * 32, 32)
    {
      hide Chain, DirSlots, Times, ClusterSlots;
      if n == 0 {
        DirSlotsEnd(first, 0);
        TimesNone(spc * 16);
      } else {
        ConsecutiveAt(first, n, n - 1);
        ConsecutiveSlots(first, n - 1);
        DirSlotsSnoc(first, n - 1);
        TimesNext(n - 1, spc * 16);
        LaterCluster(first, n - 1);
        ThirtyTwo(n - 1);
        var c, before := first + n - 1, DirSlots(first, n - 1);
        forall k | |before| <= k < Times(n, spc * 16)
          ensures DirSlots(first, n)[k] ==
                  Slice(content, (startLba + firstData + Times(first - 2, spc)) * 512 + k * 32, 32)
        {
          SlotOfCluster(c, k - |before|);
          assert DirSlots(first, n)[k] == ClusterSlots(c)[k - |before|];
        }
      }
    }

    lemma SlotOfCluster(cluster: nat, k: nat)
      requires cluster >= 2 && k < spc * 16
      ensures |ClusterSlots(cluster)| == spc * 16
      ensures ClusterSlots(cluster)[k] ==
              Slice(content, (startLba + firstData + Times(cluster - 2, spc)) * 512 + k * 32, 32)
    {
    }

    lemma ThirtyTwo(n: nat)
      ensures Times(n, spc * 16) * 32 == Times(n, spc * 512)
    {
      assert n * (spc * 16) == (n * spc) * 16 && n * (spc * 512) == (n * spc) * 512;
    }

    lemma DirSlotsStep(cluster: nat, guard: nat)
      requires guard > 0 && ClusterValid(cluster)
      ensures DirSlots(cluster, guard) == ClusterSlots(cluster) + DirSlots(FatEntry(cluster), guard - 1)
    {
    }

    /** One cluster more at the end of the part of the chain that is listed. */
    lemma {:induction false} DirSlotsSnoc(first: nat, n: nat)
      requires Chain(first, n).Some?
      ensures DirSlots(first, n + 1) == DirSlots(first, n) + ClusterSlots(Chain(first, n).value)
      decreases n
    {
      hide ClusterSlots, FatEntry;
      ChainPrefix(first, 0, n);
      DirSlotsStep(first, n + 1);
      if n == 0 {
        DirSlotsEnd(first, 0);
        DirSlotsEnd(FatEntry(first), 0);
      } else {
        DirSlotsStep(first, n);
        ChainOn(first, n);
        DirSlotsSnoc(FatEntry(first), n - 1);
      }
    }

    /** A chain that has ended has no more slots. */
    lemma {:induction false} DirSlotsAll(first: nat, n: nat, guard: nat)
      requires Chain(first, n).None? && n <= guard
      ensures DirSlots(first, guard) == DirSlots(first, n)
      decreases n
    {
      hide ClusterSlots, FatEntry;
      if n == 0 || !ClusterValid(first) {
        DirSlotsEnd(first, n);
        DirSlotsEnd(first, guard);
      } else {
        DirSlotsStep(first, n);
        DirSlotsStep(first, guard);
        ChainOn(first, n);
        DirSlotsAll(FatEntry(first), n - 1, guard - 1);
      }
    }

    /** Walking on from the second cluster. */
    lemma {:induction false} ChainOn(first: nat, n: nat)
      requires n >= 1 && ClusterValid(first)
      ensures Chain(FatEntry(first), n - 1) == Chain(first, n)
      decreases n
    {
      hide FatEntry;
      if n > 1 {
        ChainOn(first, n - 1);
      }
    }

    lemma ChainStep(first: nat, i: nat)
      requires Chain(first, i).Some?
      ensures Chain(first, i + 1) ==
              var next := FatEntry(Chain(first, i).value); if ClusterValid(next) then Some(next) else None
    {
    }

    lemma ChainStart(first: nat)
      ensures ClusterValid(first) ==> Chain(first, 0) == Some(first)
    {
    }

    lemma DirSlotsEnd(cluster: nat, guard: nat)
      ensures guard == 0 || !ClusterValid(cluster) ==> DirSlots(cluster, guard) == []
    {
    }

    lemma IndexIs(k: nat)
      requires spc > 0
      ensures Index(k) == Quot(k, spc * 512)
    {
    }

    /** The directory's contents: one left fold over its flat slots. */
    function Listing(dirCluster: nat): seq<Entry> {
      Fold(Start(), DirSlots(dirCluster, MAX_CHAIN), Never).out
    }
  }

  lemma DivLess(k: nat, d: nat, n: nat)
    requires d > 0
    ensures k / d < n <==> k < n * d
  {
    assert k == k / d * d + k % d;
    if k / d < n {
      assert (k / d + 1) * d <= n * d;
    } else {
      assert n * d <= k / d * d;
    }
  }

  function Rest(k: nat, d: nat): (r: nat)
    requires d > 0
    ensures r < d
  {
    k % d
  }

  lemma TimesLess(k: nat, d: nat, n: nat)
    requires d > 0 && k < Times(n, d)
    ensures Quot(k, d) < n && k == Times(Quot(k, d), d) + Rest(k, d)
  {
    DivLess(k, d, n);
    assert k == k / d * d + k % d;
  }

  lemma TimesNext(n: nat, d: nat)
    ensures Times(n + 1, d) == Times(n, d) + d
  {
  }

  lemma TimesNone(d: nat)
    ensures Times(0, d) == 0
  {
  }

  lemma DivUnique(k: nat, d: nat, q: nat, r: nat)
    requires d > 0 && r < d && k == q * d + r
    ensures k / d == q && k % d == r
  {
    DivLess(k, d, q);
    assert k < (q + 1) * d;
    DivLess(k, d, q + 1);
    assert k == k / d * d + k % d;
  }

  /** Moving on by `i` within, or exactly to the end of, one block of `d`. */
  lemma DivPiece(k: nat, d: nat, i: nat)
    requires d > 0 && k % d + i <= d
    ensures k % d + i < d ==> Quot(k + i, d) == Quot(k, d) && (k + i) % d == k % d + i
    ensures k % d + i == d ==> Quot(k + i, d) == Quot(k, d) + 1 && (k + i) % d == 0
  {
    assert k == k / d * d + k % d;
    if k % d + i < d {
      DivUnique(k + i, d, k / d, k % d + i);
    } else {
      assert (k / d + 1) * d == k / d * d + d;
      DivUnique(k + i, d, k / d + 1, 0);
    }
  }

  // ---- long file names ----

  const LFN_OFFSETS: seq<nat> := [1, 3, 5, 7, 9, 14, 16, 18, 20, 22, 24, 28, 30]

  /** The 13 UTF-16 units a long-name slot carries. */
  function SlotUnits(e: DirSlot): (u: seq<nat>)
    ensures |u| == 13
  {
    seq(13, k requires 0 <= k < 13 => Le16(e, LFN_OFFSETS[k]))
  }

  function Blank(): (u: seq<nat>)
    ensures |u| == LFN_UNITS
  {
    seq(LFN_UNITS, _ => 0xFFFF)
  }

  /** The long name being assembled: LfnValid, LfnSum, LfnCount and the Lfn buffer when LfnValid is set. */
  datatype Lfn = NoName | Name(sum: byte, count: nat, units: seq<nat>) {
    ghost predicate Ok() {
      Name? ==> |units| == LFN_UNITS && count <= MAX_LFN_ENTRIES && forall i | 0 <= i < LFN_UNITS :: units[i] < 0x1_0000
    }
  }

  /** A slot with attribute 0x0F. */
  function LfnStep(l: Lfn, e: DirSlot): Lfn {
    var number := e[0] as int % 32;
    var l' := if e[0] / 64 % 2 == 1 then Name(e[13], number, Blank()) else l;
    if l'.Name? && |l'.units| == LFN_UNITS && 1 <= number <= MAX_LFN_ENTRIES && e[13] == l'.sum
    then l'.(units := l'.units[..(number - 1) * 13] + SlotUnits(e) + l'.units[number * 13..])
    else NoName
  }

  /** Decodes from position `i`: up to `max` units or 255 characters, stopping at 0x0000 or 0xFFFF. */
  function DecodeUnits(units: seq<nat>, i: nat, max: nat): (s: string)
    requires max <= |units|
    ensures NoNul(s) && |s| <= if i < FAT_NAME_MAX - 1 then FAT_NAME_MAX - 1 - i else 0
    decreases max - i
  {
    if i >= max || i >= FAT_NAME_MAX - 1 || units[i] == 0 || units[i] == 0xFFFF then ""
    else [UnitChar(units[i])] + DecodeUnits(units, i + 1, max)
  }

  lemma DecodeStep(units: seq<nat>, i: nat, max: nat)
    requires max <= |units|
    ensures DecodeUnits(units, i, max) ==
            if i >= max || i >= FAT_NAME_MAX - 1 || units[i] == 0 || units[i] == 0xFFFF then ""
            else [UnitChar(units[i])] + DecodeUnits(units, i + 1, max)
  {
  }

  lemma DecodeClean(units: seq<nat>, i: nat, max: nat)
    requires max <= |units|
    ensures NoNul(DecodeUnits(units, i, max))
  {
  }

  function UnitChar(u: nat): (c: char)
    ensures u != 0 ==> c != '\0'
  {
    if u < 0x80 then u as char else '?'
  }

  function ShortChecksum(e: seq<byte>, n: nat): byte
    requires n <= |e|
  {
    if n == 0 then 0
    else
      var sum := ShortChecksum(e, n - 1);
      ((sum as int % 2) * 128 + sum as int / 2 + e[n - 1] as int) % 256
  }

  /** Characters of an 8.3 field from `i` up to the first space, or up to `end`. */
  function ShortField(e: DirSlot, i: nat, end: nat, lower: bool): (s: string)
    requires end <= 32
    ensures |s| <= if i <= end then end - i else 0
    decreases end - i
  {
    if i >= end || e[i] == 0x20 then ""
    else
      var c: char := if i == 0 && e[0] == 0x05 then 0xE5 as char else e[i] as char;
      [if lower then LowerAscii(c) else c] + ShortField(e, i + 1, end, lower)
  }

  /** One character of the field, for proofs that keep its definition out of sight. */
  lemma ShortFieldStep(e: DirSlot, i: nat, end: nat, lower: bool)
    requires end <= 32
    ensures ShortField(e, i, end, lower) ==
            if i >= end || e[i] == 0x20 then ""
            else
              var c: char := if i == 0 && e[0] == 0x05 then 0xE5 as char else e[i] as char;
              [if lower then LowerAscii(c) else c] + ShortField(e, i + 1, end, lower)
  {
  }

  /** The characters BuildShortName writes, before the terminating NUL. */
  function ShortRaw(e: DirSlot): (s: string)
    ensures |s| <= 12
  {
    ShortField(e, 0, 8, e[12] / 8 % 2 == 1)
    + if e[8] == 0x20 then "" else "." + ShortField(e, 8, 11, e[12] / 16 % 2 == 1)
  }

  function EntryName(l: Lfn, e: DirSlot): (s: string)
    ensures NoNul(s) && |s| < FAT_NAME_MAX
  {
    if l.Name? && |l.units| == LFN_UNITS && ShortChecksum(e, 11) == l.sum
    then DecodeUnits(l.units, 0, Min(l.count * 13, LFN_UNITS))
    else CStr(ShortRaw(e))
  }

  function SlotEntry(l: Lfn, e: DirSlot): Entry {
    Entry(EntryName(l, e), e[11], Le32(e, 28), Le16(e, 20) * 0x1_0000 + Le16(e, 26))
  }

  // ---- the listing as a fold ----

  /** The callback: whether it returns nonzero on the last of the entries delivered so far. */
  type Callback = seq<Entry> -> bool

  const Never: Callback := _ => false

  datatype Scan = Scan(lfn: Lfn, out: seq<Entry>, done: bool)

  function Start(): Scan {
    Scan(NoName, [], false)
  }

  function StepSlot(s: Scan, e: DirSlot, stop: Callback): Scan {
    if s.done then s
    else if e[0] == 0x00 then s.(done := true)
    else if e[0] == 0xE5 then s.(lfn := NoName)
    else if e[11] == 0x0F then s.(lfn := LfnStep(s.lfn, e))
    else if e[11] / 8 % 2 == 1 then s.(lfn := NoName)
    else
      var entry := SlotEntry(s.lfn, e);
      if entry.name == "." || entry.name == ".." then s.(lfn := NoName)
      else Scan(NoName, s.out + [entry], stop(s.out + [entry]))
  }

  function Fold(s: Scan, es: seq<DirSlot>, stop: Callback): Scan
    decreases |es|
  {
    if es == [] then s else Fold(StepSlot(s, es[0], stop), es[1..], stop)
  }

  lemma {:induction false} FoldAppend(s: Scan, a: seq<DirSlot>, b: seq<DirSlot>, stop: Callback)
    ensures Fold(s, a + b, stop) == Fold(Fold(s, a, stop), b, stop)
    decreases |a|
  {
    if a == [] {
      assert a + b == b;
    } else {
      assert (a + b)[1..] == a[1..] + b;
      FoldAppend(StepSlot(s, a[0], stop), a[1..], b, stop);
    }
  }

  lemma FoldNothing(s: Scan, es: seq<DirSlot>, stop: Callback)
    requires es == []
    ensures Fold(s, es, stop) == s
  {
  }

  lemma FoldOne(s: Scan, e: DirSlot, stop: Callback)
    ensures Fold(s, [e], stop) == StepSlot(s, e, stop)
  {
    assert Fold(s, [e], stop) == Fold(StepSlot(s, e, stop), [], stop);
  }

  lemma FoldCons(s: Scan, e: DirSlot, es: seq<DirSlot>, stop: Callback)
    ensures Fold(s, [e] + es, stop) == Fold(StepSlot(s, e, stop), es, stop)
  {
    assert ([e] + es)[1..] == es;
  }

  /** One more slot. */
  lemma FoldSnoc(s: Scan, es: seq<DirSlot>, k: nat, stop: Callback)
    requires k < |es|
    ensures Fold(s, es[..k + 1], stop) == StepSlot(Fold(s, es[..k], stop), es[k], stop)
  {
    FoldAppend(s, es[..k], [es[k]], stop);
    assert es[..k + 1] == es[..k] + [es[k]];
    var t := Fold(s, es[..k], stop);
    assert Fold(t, [es[k]], stop) == Fold(StepSlot(t, es[k], stop), [], stop);
  }

  lemma {:induction false} FoldDone(s: Scan, es: seq<DirSlot>, stop: Callback)
    requires s.done
    ensures Fold(s, es, stop) == s
    decreases |es|
  {
    if es != [] {
      FoldDone(s, es[1..], stop);
    }
  }

  /** A fold reports the same entries whatever was reported before it. */
  lemma {:induction false} FoldShift(s: Scan, es: seq<DirSlot>, before: seq<Entry>)
    ensures Fold(s.(out := before + s.out), es, Never) ==
            Fold(s, es, Never).(out := before + Fold(s, es, Never).out)
    decreases |es|
  {
    if es != [] {
      var t := StepSlot(s, es[0], Never);
      assert StepSlot(s.(out := before + s.out), es[0], Never) == t.(out := before + t.out) by {
        assert forall x: Entry :: (before + s.out) + [x] == before + (s.out + [x]);
      }
      FoldShift(t, es[1..], before);
    }
  }

  /**
   * `r` is the scan `full` cut short right after the first entry beyond `before` at which `stop` says so; if it never
   * does, `r` is all of it.
   */
  ghost predicate CutShort(before: seq<Entry>, r: Scan, full: Scan, stop: Callback) {
    && before <= r.out <= full.out
    && (forall n | |before| < n < |r.out| :: !stop(r.out[..n]))
    && (r == full || (|before| < |r.out| && stop(r.out)))
  }

  lemma CutLater(before: seq<Entry>, more: seq<Entry>, r: Scan, full: Scan, stop: Callback)
    requires CutShort(more, r, full, stop) && before <= more
    requires |more| == |before| || (|more| == |before| + 1 && !stop(more))
    ensures CutShort(before, r, full, stop)
  {
    forall n | |before| < n < |r.out|
      ensures !stop(r.out[..n])
    {
      if n == |more| {
        assert r.out[..n] == more;
      }
    }
  }

  /** One slot, with the callback and with one that never stops. */
  lemma StepBoth(s: Scan, e: DirSlot, stop: Callback)
    requires !s.done
    ensures var t, u := StepSlot(s, e, stop), StepSlot(s, e, Never);
            && s.out <= t.out == u.out && |t.out| <= |s.out| + 1
            && if t == u then t.done || t.out == s.out || !stop(t.out)
               else t.done && |t.out| == |s.out| + 1 && stop(t.out)
  {
  }

  /** A callback that stops cuts the full listing right after the first entry it stops at. */
  lemma {:induction false} FoldStopped(s: Scan, es: seq<DirSlot>, stop: Callback)
    requires !s.done
    ensures CutShort(s.out, Fold(s, es, stop), Fold(s, es, Never), stop)
    decreases |es|
  {
    hide StepSlot, Fold;
    if es == [] {
      FoldNothing(s, es, stop);
      FoldNothing(s, es, Never);
    } else {
      var t, u, rest := StepSlot(s, es[0], stop), StepSlot(s, es[0], Never), es[1..];
      assert es == [es[0]] + rest;
      FoldCons(s, es[0], rest, stop);
      FoldCons(s, es[0], rest, Never);
      StepBoth(s, es[0], stop);
      if t.done {
        FoldDone(t, rest, stop);
        if t == u {
          FoldDone(u, rest, Never);
        } else {
          FoldGrows(u, rest, Never);
        }
      } else {
        FoldStopped(t, rest, stop);
        CutLater(s.out, t.out, Fold(t, rest, stop), Fold(u, rest, Never), stop);
      }
    }
  }

  lemma {:induction false} FoldGrows(s: Scan, es: seq<DirSlot>, stop: Callback)
    ensures s.out <= Fold(s, es, stop).out
    decreases |es|
  {
    if es != [] {
      FoldGrows(StepSlot(s, es[0], stop), es[1..], stop);
    }
  }

  // ---- lookup ----

  /** NamesEqual: equality up to ASCII case. */
  predicate NamesEqual(a: string, b: string) {
    Lower(a) == Lower(b)
  }

  /** The first listed entry of that name. */
  function FirstMatch(es: seq<Entry>, want: string): (r: Option<Entry>)
    ensures r.Some? ==> r.value in es && NamesEqual(r.value.name, want)
  {
    if es == [] then None
    else if NamesEqual(es[0].name, want) then Some(es[0])
    else FirstMatch(es[1..], want)
  }

  /** LookupCallback: stop at the first match. */
  function Matcher(want: string): Callback {
    (es: seq<Entry>) => |es| > 0 && NamesEqual(es[|es| - 1].name, want)
  }

  lemma {:induction false} FirstMatchAt(es: seq<Entry>, want: string, k: nat)
    requires k < |es| && NamesEqual(es[k].name, want)
    requires forall j | 0 <= j < k :: !NamesEqual(es[j].name, want)
    ensures FirstMatch(es, want) == Some(es[k])
  {
    if k > 0 {
      FirstMatchAt(es[1..], want, k - 1);
    }
  }

  lemma {:induction false} FirstMatchNone(es: seq<Entry>, want: string)
    requires forall j | 0 <= j < |es| :: !NamesEqual(es[j].name, want)
    ensures FirstMatch(es, want) == None
  {
    if es != [] {
      FirstMatchNone(es[1..], want);
    }
  }

  /** The entry a lookup scan stopped at, if its last entry matches. */
  function LastMatch(es: seq<Entry>, want: string): Option<Entry> {
    if |es| > 0 && NamesEqual(es[|es| - 1].name, want) then Some(es[|es| - 1]) else None
  }

  /**
   * Stopping the scan of the first `seen` slots at a match finds the first match of the whole listing, if it
   * finds anything; scanning every slot finds it whenever there is one.
   */
  lemma LookupIsFirstMatch(slots: seq<DirSlot>, seen: nat, want: string)
    requires seen <= |slots|
    ensures var found := LastMatch(Fold(Start(), slots[..seen], Matcher(want)).out, want);
            var first := FirstMatch(Fold(Start(), slots, Never).out, want);
            (found.Some? || seen == |slots|) ==> found == first
  {
    hide Fold, StepSlot, FirstMatch, NamesEqual;
    var stop := Matcher(want);
    var r, full := Fold(Start(), slots[..seen], stop).out, Fold(Start(), slots, Never).out;
    StoppedScan(slots, seen, stop);
    NoEarlierMatch(r, want);
    StoppedMatch(r, full, want);
  }

  /** A scan of the first `seen` slots delivers a prefix of the full listing, stopped by its last entry or not. */
  lemma StoppedScan(slots: seq<DirSlot>, seen: nat, stop: Callback)
    requires seen <= |slots|
    ensures var r, full := Fold(Start(), slots[..seen], stop).out, Fold(Start(), slots, Never).out;
            && r <= full && (forall n | 0 < n < |r| :: !stop(r[..n]))
            && (seen == |slots| ==> r == full || (r != [] && stop(r)))
  {
    hide Fold, StepSlot;
    FoldStopped(Start(), slots[..seen], stop);
    PartOfListing(slots, seen);
  }

  lemma PartOfListing(slots: seq<DirSlot>, seen: nat)
    requires seen <= |slots|
    ensures Fold(Start(), slots[..seen], Never).out <= Fold(Start(), slots, Never).out
    ensures seen == |slots| ==> slots[..seen] == slots
  {
    hide Fold, StepSlot;
    FoldAppend(Start(), slots[..seen], slots[seen..], Never);
    assert slots == slots[..seen] + slots[seen..];
    FoldGrows(Fold(Start(), slots[..seen], Never), slots[seen..], Never);
  }

  lemma NoEarlierMatch(r: seq<Entry>, want: string)
    requires forall n | 0 < n < |r| :: !Matcher(want)(r[..n])
    ensures forall j | 0 <= j < |r| - 1 :: !NamesEqual(r[j].name, want)
    ensures r != [] ==> (Matcher(want)(r) <==> LastMatch(r, want).Some?)
  {
    hide NamesEqual;
    forall j | 0 <= j < |r| - 1
      ensures !NamesEqual(r[j].name, want)
    {
      assert !Matcher(want)(r[..j + 1]);
    }
  }

  /** A scan stopped at the first match, or exhausted, against the listing it is a prefix of. */
  lemma StoppedMatch(r: seq<Entry>, full: seq<Entry>, want: string)
    requires r <= full && forall j | 0 <= j < |r| - 1 :: !NamesEqual(r[j].name, want)
    ensures LastMatch(r, want).Some? || r == full ==> LastMatch(r, want) == FirstMatch(full, want)
  {
    hide NamesEqual;
    if LastMatch(r, want).Some? {
      FirstMatchAt(full, want, |r| - 1);
    } else if r == full {
      FirstMatchNone(full, want);
    }
  }
}
