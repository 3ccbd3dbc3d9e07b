/** Long file names: an encoder for name slots, and its round trip through the listing fold. */
module FatLongNames {
  import opened Common
  import opened FatFormat

  predicate ValidName(name: string) {
    && 1 <= |name| <= 255
    && (forall i | 0 <= i < |name| :: 0 < name[i] as int < 0x80)
    && name != "." && name != ".."
  }

  /** A short entry the listing reports: in use, not deleted, not a volume label. */
  predicate ValidShort(e: DirSlot) {
    e[0] != 0x00 && e[0] != 0xE5 && e[11] / 8 % 2 == 0
  }

  function SlotCount(name: string): nat {
    (|name| + 12) / 13
  }

  /** Unit `j` of a name: its characters, one NUL, then 0xFFFF padding. */
  function Unit(name: string, j: nat): (u: nat)
    ensures u < 0x1_0000
  {
    if j < |name| then name[j] as int % 0x1_0000 else if j == |name| then 0 else 0xFFFF
  }

  /** Which of the slot's 13 units byte `j` belongs to. */
  function UnitOf(j: nat): nat
    requires 1 <= j
  {
    if j < 11 then (j - 1) / 2 else if j < 26 then 5 + (j - 14) / 2 else 11 + (j - 28) / 2
  }

  function SlotByte(name: string, number: nat, count: nat, sum: byte, j: nat): byte
    requires 1 <= number <= count <= MAX_LFN_ENTRIES && j < 32
  {
    if j == 0 then number + if number == count then 0x40 else 0
    else if j == 11 then 0x0F
    else if j == 12 || j == 26 || j == 27 then 0
    else if j == 13 then sum
    else
      var u := Unit(name, (number - 1) * 13 + UnitOf(j));
      var low := j == 1 || j == 3 || j == 5 || j == 7 || j == 9 || (j >= 14 && j % 2 == 0);
      if low then u % 256 else u / 256
  }

  function Slot(name: string, number: nat, count: nat, sum: byte): DirSlot
    requires 1 <= number <= count <= MAX_LFN_ENTRIES
  {
    seq<byte>(32, j requires 0 <= j < 32 => SlotByte(name, number, count, sum, j))
  }

  /** The name's slots in disk order, highest number first. */
  function Slots(name: string, number: nat, count: nat, sum: byte): seq<DirSlot>
    requires number <= count <= MAX_LFN_ENTRIES
  {
    if number == 0 then []
    else [Slot(name, number, count, sum)] + Slots(name, number - 1, count, sum)
  }

  datatype File = File(name: string, short: DirSlot) {
    predicate Valid() { ValidName(name) && ValidShort(short) }

    function Encode(): seq<DirSlot>
      requires Valid()
    {
      Slots(name, SlotCount(name), SlotCount(name), ShortChecksum(short, 11)) + [short]
    }

    /** What is left of it on disk when only the slots in `kept` are. */
    function EncodeKept(kept: set<nat>): seq<DirSlot>
      requires Valid()
    {
      KeptSlots(name, SlotCount(name), SlotCount(name), ShortChecksum(short, 11), kept) + [short]
    }

    function AsEntry(): Entry {
      Entry(name, short[11], Le32(short, 28), Le16(short, 20) * 0x1_0000 + Le16(short, 26))
    }
  }

  function EncodeAll(files: seq<File>): seq<DirSlot>
    requires forall f | f in files :: f.Valid()
  {
    if files == [] then [] else files[0].Encode() + EncodeAll(files[1..])
  }

  function Entries(files: seq<File>): seq<Entry> {
    if files == [] then [] else [files[0].AsEntry()] + Entries(files[1..])
  }

  lemma SlotUnitAt(name: string, number: nat, count: nat, sum: byte, k: nat)
    requires 1 <= number <= count <= MAX_LFN_ENTRIES && k < 13
    ensures SlotUnits(Slot(name, number, count, sum))[k] == Unit(name, (number - 1) * 13 + k)
  {
    var e := Slot(name, number, count, sum);
    var at := LFN_OFFSETS[k];
    assert UnitOf(at) == k && UnitOf(at + 1) == k;
    assert e[at] == Unit(name, (number - 1) * 13 + k) % 256;
    assert e[at + 1] == Unit(name, (number - 1) * 13 + k) / 256;
  }

  /** The unit buffer once slots `count` down to `number + 1` are in. */
  function Partial(name: string, number: nat, count: nat): (u: seq<nat>)
    requires number <= count <= MAX_LFN_ENTRIES
    ensures |u| == LFN_UNITS
  {
    seq(LFN_UNITS, j requires 0 <= j => if number * 13 <= j < count * 13 then Unit(name, j) else 0xFFFF)
  }

  lemma SlotStep(l: Lfn, name: string, number: nat, count: nat, sum: byte)
    requires 1 <= number <= count <= MAX_LFN_ENTRIES
    requires number == count || l == Name(sum, count, Partial(name, number, count))
    ensures LfnStep(l, Slot(name, number, count, sum)) == Name(sum, count, Partial(name, number - 1, count))
  {
    var e := Slot(name, number, count, sum);
    assert e[0] as int % 32 == number && (e[0] / 64 % 2 == 1 <==> number == count);
    assert Blank() == Partial(name, count, count);
    var before, after := Partial(name, number, count), Partial(name, number - 1, count);
    forall k | 0 <= k < 13
      ensures SlotUnits(e)[k] == after[(number - 1) * 13 + k]
    {
      SlotUnitAt(name, number, count, sum, k);
    }
    assert before[..(number - 1) * 13] + SlotUnits(e) + before[number * 13..] == after;
  }

  lemma {:induction false} SlotsFold(s: Scan, name: string, number: nat, count: nat, sum: byte, stop: Callback)
    requires number <= count <= MAX_LFN_ENTRIES && 1 <= count && !s.done
    requires number == count || s.lfn == Name(sum, count, Partial(name, number, count))
    ensures Fold(s, Slots(name, number, count, sum), stop) ==
            if number == 0 then s else s.(lfn := Name(sum, count, Partial(name, 0, count)))
    decreases number
  {
    if number > 0 {
      var e := Slot(name, number, count, sum);
      SlotStep(s.lfn, name, number, count, sum);
      var t := StepSlot(s, e, stop);
      assert t == s.(lfn := Name(sum, count, Partial(name, number - 1, count)));
      SlotsFold(t, name, number - 1, count, sum, stop);
      assert Slots(name, number, count, sum)[1..] == Slots(name, number - 1, count, sum);
    }
  }

  lemma {:induction false} DecodeName(name: string, i: nat)
    requires ValidName(name) && i <= |name|
    ensures DecodeUnits(Partial(name, 0, SlotCount(name)), i, SlotCount(name) * 13) == name[i..]
    decreases |name| - i
  {
    var units := Partial(name, 0, SlotCount(name));
    if i < |name| {
      DecodeName(name, i + 1);
      assert units[i] == name[i] as int;
      assert name[i..] == [name[i]] + name[i + 1..];
    }
  }

  /** Round trip for one file, whatever the scan had assembled before its first slot. */
  lemma RoundTrip(s: Scan, f: File, stop: Callback)
    requires f.Valid() && !s.done
    ensures Fold(s, f.Encode(), stop) == Scan(NoName, s.out + [f.AsEntry()], stop(s.out + [f.AsEntry()]))
  {
    var count, sum := SlotCount(f.name), ShortChecksum(f.short, 11);
    var slots := Slots(f.name, count, count, sum);
    SlotsFold(s, f.name, count, count, sum, stop);
    FoldAppend(s, slots, [f.short], stop);
    var t := Fold(s, slots, stop);
    ShortStep(t, f, stop);
    assert Fold(t, [f.short], stop) == StepSlot(t, f.short, stop);
  }

  /** The short entry that follows a complete set of slots. */
  lemma ShortStep(t: Scan, f: File, stop: Callback)
    requires f.Valid() && !t.done
    requires t.lfn == Name(ShortChecksum(f.short, 11), SlotCount(f.name), Partial(f.name, 0, SlotCount(f.name)))
    ensures StepSlot(t, f.short, stop) == Scan(NoName, t.out + [f.AsEntry()], stop(t.out + [f.AsEntry()]))
  {
    hide DecodeUnits, Partial, ShortChecksum;
    DecodeName(f.name, 0);
    assert f.name[0..] == f.name;
    assert EntryName(t.lfn, f.short) == f.name;
  }

  /** A directory written by the encoder lists exactly its files, each once and in order. */
  lemma {:induction false} DirectoryRoundTrip(s: Scan, files: seq<File>)
    requires (forall f | f in files :: f.Valid()) && !s.done && s.lfn == NoName
    ensures Fold(s, EncodeAll(files), Never) == s.(out := s.out + Entries(files))
    decreases |files|
  {
    hide Fold, StepSlot, File.Encode, File.Valid, File.AsEntry;
    if files == [] {
      FoldNothing(s, EncodeAll(files), Never);
    } else {
      RoundTrip(s, files[0], Never);
      var t := Scan(NoName, s.out + [files[0].AsEntry()], false);
      FoldAppend(s, files[0].Encode(), EncodeAll(files[1..]), Never);
      DirectoryRoundTrip(t, files[1..]);
      assert s.out + Entries(files) == t.out + Entries(files[1..]);
    }
  }

  /** An encoded file among arbitrary other slots is reported exactly once, and disturbs nothing around it. */
  lemma ReportedOnce(before: seq<DirSlot>, f: File, after: seq<DirSlot>)
    requires f.Valid() && !Fold(Start(), before, Never).done
    ensures Fold(Start(), before + f.Encode() + after, Never).out ==
            Fold(Start(), before, Never).out + [f.AsEntry()] + Fold(Start(), after, Never).out
  {
    var s := Fold(Start(), before, Never);
    FoldAppend(Start(), before + f.Encode(), after, Never);
    FoldAppend(Start(), before, f.Encode(), Never);
    RoundTrip(s, f, Never);
    var out := s.out + [f.AsEntry()];
    FoldShift(Start(), after, out);
    assert Start().(out := out + Start().out) == Scan(NoName, out, false);
  }

  /** On disk: a directory chain holding encoded files, an end marker and anything after it. */
  lemma ListingRoundTrip(g: Geometry, dir: nat, files: seq<File>, end: DirSlot, rest: seq<DirSlot>)
    requires forall f | f in files :: f.Valid()
    requires end[0] == 0 && g.DirSlots(dir, MAX_CHAIN) == EncodeAll(files) + [end] + rest
    ensures g.Listing(dir) == Entries(files)
  {
    FoldAppend(Start(), EncodeAll(files) + [end], rest, Never);
    FoldAppend(Start(), EncodeAll(files), [end], Never);
    DirectoryRoundTrip(Start(), files);
    var s := Scan(NoName, Entries(files), false);
    assert Start().out + Entries(files) == Entries(files);
    assert Fold(s, [end], Never) == StepSlot(s, end, Never);
    FoldDone(s.(done := true), rest, Never);
  }

  // ---- missing slots ----

  /** The slots with numbers in `kept`, in disk order. */
  function KeptSlots(name: string, number: nat, count: nat, sum: byte, kept: set<nat>): seq<DirSlot>
    requires number <= count <= MAX_LFN_ENTRIES
  {
    if number == 0 then []
    else (if number in kept then [Slot(name, number, count, sum)] else [])
         + KeptSlots(name, number - 1, count, sum, kept)
  }

  /** The unit buffer once the kept ones of slots `count` down to `number + 1` are in. */
  function KeptUnits(name: string, number: nat, count: nat, kept: set<nat>): (u: seq<nat>)
    requires number <= count <= MAX_LFN_ENTRIES
    ensures |u| == LFN_UNITS
  {
    seq(LFN_UNITS, j requires 0 <= j =>
      if number * 13 <= j < count * 13 && j / 13 + 1 in kept then Unit(name, j) else 0xFFFF)
  }

  lemma KeptSlotStep(l: Lfn, name: string, number: nat, count: nat, sum: byte, kept: set<nat>)
    requires 1 <= number <= count <= MAX_LFN_ENTRIES && number in kept
    requires number == count || l == Name(sum, count, KeptUnits(name, number, count, kept))
    ensures LfnStep(l, Slot(name, number, count, sum)) == Name(sum, count, KeptUnits(name, number - 1, count, kept))
  {
    hide Slot, SlotUnits, KeptUnits, Blank;
    SlotHeader(name, number, count, sum);
    BlankIsKept(name, count, kept);
    KeptSlotJoin(name, number, count, sum, kept);
  }

  lemma SlotHeader(name: string, number: nat, count: nat, sum: byte)
    requires 1 <= number <= count <= MAX_LFN_ENTRIES
    ensures var e := Slot(name, number, count, sum);
            e[0] as int % 32 == number && (e[0] / 64 % 2 == 1 <==> number == count) && e[13] == sum
  {
  }

  lemma BlankIsKept(name: string, count: nat, kept: set<nat>)
    requires count <= MAX_LFN_ENTRIES
    ensures Blank() == KeptUnits(name, count, count, kept)
  {
  }

  /** One kept slot's units go where they belong. */
  lemma KeptSlotJoin(name: string, number: nat, count: nat, sum: byte, kept: set<nat>)
    requires 1 <= number <= count <= MAX_LFN_ENTRIES && number in kept
    ensures var before := KeptUnits(name, number, count, kept);
            before[..(number - 1) * 13] + SlotUnits(Slot(name, number, count, sum)) + before[number * 13..] ==
              KeptUnits(name, number - 1, count, kept)
  {
    hide Slot, SlotUnits, Unit;
    var units := SlotUnits(Slot(name, number, count, sum));
    var before, after := KeptUnits(name, number, count, kept), KeptUnits(name, number - 1, count, kept);
    SlotUnitsLength(Slot(name, number, count, sum));
    forall k | 0 <= k < 13
      ensures units[k] == after[(number - 1) * 13 + k]
    {
      SlotUnitAt(name, number, count, sum, k);
    }
    var joined := before[..(number - 1) * 13] + units + before[number * 13..];
    assert forall j | 0 <= j < LFN_UNITS :: joined[j] == after[j];
  }

  lemma SlotUnitsLength(e: DirSlot)
    ensures |SlotUnits(e)| == 13
  {
  }

  lemma KeptUnitsSkip(name: string, number: nat, count: nat, kept: set<nat>)
    requires 1 <= number <= count <= MAX_LFN_ENTRIES && number !in kept
    ensures KeptUnits(name, number - 1, count, kept) == KeptUnits(name, number, count, kept)
  {
  }

  /** Whatever slots are missing after the last-numbered one, the others are collected where they belong. */
  lemma {:induction false} KeptSlotsFold(s: Scan, name: string, number: nat, count: nat, sum: byte, kept: set<nat>,
                                         stop: Callback)
    requires number <= count <= MAX_LFN_ENTRIES && 1 <= count && count in kept && !s.done
    requires number == count || s.lfn == Name(sum, count, KeptUnits(name, number, count, kept))
    ensures Fold(s, KeptSlots(name, number, count, sum, kept), stop) ==
            if number == 0 then s else s.(lfn := Name(sum, count, KeptUnits(name, 0, count, kept)))
    decreases number
  {
    hide Slot, LfnStep, StepSlot, KeptUnits;
    if number > 0 {
      var rest := KeptSlots(name, number - 1, count, sum, kept);
      if number in kept {
        var e := Slot(name, number, count, sum);
        KeptSlotStep(s.lfn, name, number, count, sum, kept);
        var t := s.(lfn := Name(sum, count, KeptUnits(name, number - 1, count, kept)));
        LongSlotStep(s, name, number, count, sum, stop);
        KeptSlotsFold(t, name, number - 1, count, sum, kept, stop);
        FoldCons(s, e, rest, stop);
        assert KeptSlots(name, number, count, sum, kept) == [e] + rest;
      } else {
        KeptUnitsSkip(name, number, count, kept);
        KeptSlotsFold(s, name, number - 1, count, sum, kept, stop);
        assert KeptSlots(name, number, count, sum, kept) == rest;
      }
    }
  }

  lemma LongSlotStep(s: Scan, name: string, number: nat, count: nat, sum: byte, stop: Callback)
    requires 1 <= number <= count <= MAX_LFN_ENTRIES && !s.done
    ensures var e := Slot(name, number, count, sum); StepSlot(s, e, stop) == s.(lfn := LfnStep(s.lfn, e))
  {
    hide LfnStep;
    var e := Slot(name, number, count, sum);
    assert e[0] != 0 && e[0] != 0xE5 && e[11] == 0x0F;
  }

  /** The part of the name before the first missing slot `m`. */
  lemma {:induction false} DecodeKept(name: string, i: nat, m: nat, kept: set<nat>)
    requires ValidName(name) && 1 <= m <= SlotCount(name) && m !in kept && i <= (m - 1) * 13
    requires forall k | 1 <= k < m :: k in kept
    ensures (m - 1) * 13 <= |name|
    ensures DecodeUnits(KeptUnits(name, 0, SlotCount(name), kept), i, SlotCount(name) * 13) == name[i..(m - 1) * 13]
    decreases |name| - i
  {
    var units := KeptUnits(name, 0, SlotCount(name), kept);
    hide KeptUnits;
    KeptUnitAt(name, i, SlotCount(name), kept);
    if i < (m - 1) * 13 {
      assert i / 13 + 1 in kept;
      DecodeKept(name, i + 1, m, kept);
      assert name[i..(m - 1) * 13] == [name[i]] + name[i + 1..(m - 1) * 13];
    } else {
      assert i / 13 + 1 == m;
    }
  }

  lemma KeptUnitAt(name: string, i: nat, count: nat, kept: set<nat>)
    requires i < count * 13 && count <= MAX_LFN_ENTRIES
    ensures |KeptUnits(name, 0, count, kept)| == LFN_UNITS
    ensures KeptUnits(name, 0, count, kept)[i] == if i / 13 + 1 in kept then Unit(name, i) else 0xFFFF
  {
  }

  /**
   * Slot numbers are not checked for gaps. As long as the last-numbered slot is there, a name with slots missing is
   * accepted, and what is reported is the part of it before its first missing slot `m`.
   */
  lemma MissingSlot(s: Scan, f: File, kept: set<nat>, m: nat, stop: Callback)
    requires f.Valid() && !s.done && SlotCount(f.name) in kept
    requires 1 <= m <= SlotCount(f.name) && m !in kept && forall k | 1 <= k < m :: k in kept
    ensures (m - 1) * 13 <= |f.name|
    ensures var entry := f.AsEntry().(name := f.name[..(m - 1) * 13]);
            Fold(s, f.EncodeKept(kept), stop) == Scan(NoName, s.out + [entry], stop(s.out + [entry]))
  {
    hide Fold, DecodeUnits, KeptUnits, ShortChecksum, KeptSlots;
    var count, sum := SlotCount(f.name), ShortChecksum(f.short, 11);
    var slots := KeptSlots(f.name, count, count, sum, kept);
    KeptSlotsFold(s, f.name, count, count, sum, kept, stop);
    FoldAppend(s, slots, [f.short], stop);
    DecodeKept(f.name, 0, m, kept);
    KeptLength(f.name, count, kept);
    var t := s.(lfn := Name(sum, count, KeptUnits(f.name, 0, count, kept)));
    assert EntryName(t.lfn, f.short) == f.name[..(m - 1) * 13] by {
      assert f.name[0..(m - 1) * 13] == f.name[..(m - 1) * 13];
    }
    assert f.name[..(m - 1) * 13] != "." && f.name[..(m - 1) * 13] != "..";
    FoldOne(t, f.short, stop);
  }

  lemma KeptLength(name: string, count: nat, kept: set<nat>)
    requires count <= MAX_LFN_ENTRIES
    ensures |KeptUnits(name, 0, count, kept)| == LFN_UNITS
  {
  }

  /** The exact condition: a file is reported under its own name if and only if none of its slots is missing. */
  lemma OwnNameIff(s: Scan, f: File, kept: set<nat>, stop: Callback)
    requires f.Valid() && !s.done && SlotCount(f.name) in kept
    ensures Fold(s, f.EncodeKept(kept), stop).out == s.out + [f.AsEntry()] <==>
            forall k | 1 <= k <= SlotCount(f.name) :: k in kept
  {
    hide Fold, KeptSlots, Slots;
    var count, sum := SlotCount(f.name), ShortChecksum(f.short, 11);
    if forall k | 1 <= k <= count :: k in kept {
      EveryKept(f.name, count, count, sum, kept);
      RoundTrip(s, f, stop);
    } else {
      var m := FirstMissing(1, count, kept);
      MissingSlot(s, f, kept, m, stop);
      var entry := f.AsEntry().(name := f.name[..(m - 1) * 13]);
      assert |entry.name| < |f.name|;
      assert (s.out + [entry])[|s.out|] != (s.out + [f.AsEntry()])[|s.out|];
    }
  }

  function FirstMissing(from: nat, count: nat, kept: set<nat>): (m: nat)
    requires from <= count && exists k :: from <= k <= count && k !in kept
    ensures from <= m <= count && m !in kept && forall k | from <= k < m :: k in kept
    decreases count - from
  {
    if from !in kept then from else FirstMissing(from + 1, count, kept)
  }

  lemma {:induction false} EveryKept(name: string, number: nat, count: nat, sum: byte, kept: set<nat>)
    requires number <= count <= MAX_LFN_ENTRIES && forall k | 1 <= k <= count :: k in kept
    ensures KeptSlots(name, number, count, sum, kept) == Slots(name, number, count, sum)
  {
    if number > 0 {
      EveryKept(name, number - 1, count, sum, kept);
    }
  }

  /** "fourteen chars" without its slot 1 is reported as the empty string. */
  lemma MissingFirstSlot(s: Scan, short: DirSlot)
    requires ValidShort(short) && !s.done
    ensures var f := File("fourteen chars", short);
            && f.Valid() && SlotCount(f.name) == 2
            && Fold(s, f.EncodeKept({2}), Never).out == s.out + [f.AsEntry().(name := "")]
  {
    hide Fold, KeptSlots;
    var f := File("fourteen chars", short);
    assert ValidName(f.name);
    MissingSlot(s, f, {2}, 1, Never);
    assert f.name[..0] == "";
  }
}
