/** kernel/player.c: streaming a WAV file from a FAT volume into the playback ring. */
module Player {
  import opened Common
  import opened FatFormat
  import opened AudioRing
  import opened FatVolume
  import Pmm

  const SOURCE_BYTES := PAGE_FRAMES * 32
  const START_AT := 16

  /** What WavParse reports. */
  datatype WavInfo = WavInfo(rate: nat, blockAlign: nat, dataOffset: nat, dataBytes: nat)

  /** The promises of WavParse: 1 to 8 channels of 1 to 4 bytes, and data that lies inside the file. */
  ghost predicate WavOk(file: Entry, info: WavInfo) {
    1 <= info.blockAlign <= 32 && info.dataOffset + info.dataBytes <= file.size < U32
  }

  function FrameAt(from: nat, j: nat, align: nat): nat {
    from + j * align
  }

  lemma FrameAtSum(from: nat, i: nat, j: nat, align: nat)
    ensures FrameAt(FrameAt(from, i, align), j, align) == FrameAt(from, i + j, align)
    ensures FrameAt(from, 0, align) == from
  {
  }

  lemma FrameAtNext(from: nat, j: nat, n: nat, align: nat)
    requires j < n
    ensures FrameAt(from, j, align) + align <= FrameAt(from, n, align)
    ensures FrameAt(from, j, align) <= FrameAt(from, n, align)
  {
    assert (j + 1) * align <= n * align;
  }

  lemma FrameAtBounds(n: nat, align: nat)
    requires 1 <= n <= PAGE_FRAMES && 1 <= align <= 32
    ensures align <= FrameAt(0, n, align) <= SOURCE_BYTES
  {
  }

  /** `Got / BlockAlign`. */
  lemma WholeFrames(got: nat, n: nat, align: nat)
    requires align <= got <= FrameAt(0, n, align) && align >= 1
    ensures 1 <= Quot(got, align) <= n && FrameAt(0, Quot(got, align), align) <= got
  {
  }

  lemma AllFrames(n: nat, align: nat)
    requires align >= 1
    ensures Quot(FrameAt(0, n, align), align) == n
  {
    hide Min, WavOk;
    DivUnique(n * align, align, n, 0);
  }

  /** The frames that are left, and the bytes they take. */
  lemma FramesLeft(info: WavInfo, done: nat, n: nat)
    requires info.blockAlign >= 1 && done + n <= Quot(info.dataBytes, info.blockAlign)
    ensures FrameAt(0, done, info.blockAlign) + FrameAt(0, n, info.blockAlign) <= info.dataBytes
    ensures FrameAt(info.dataOffset, done, info.blockAlign) == info.dataOffset + FrameAt(0, done, info.blockAlign)
  {
    var q := Quot(info.dataBytes, info.blockAlign);
    assert (done + n) * info.blockAlign <= q * info.blockAlign <= info.dataBytes;
  }

  /** The first `lens[i]` frames of every page, one page after the other. */
  function Joined(pages: seq<seq<Stereo>>, lens: seq<nat>): seq<Stereo>
    requires |pages| == |lens|
  {
    if pages == [] then []
    else
      var n := |pages| - 1;
      Joined(pages[..n], lens[..n]) + if lens[n] <= |pages[n]| then pages[n][..lens[n]] else pages[n]
  }

  /** A page with `n` frames and silence after them. */
  ghost predicate Padded(page: seq<Stereo>, n: nat) {
    |page| == PAGE_FRAMES && 1 <= n <= PAGE_FRAMES && forall k | n <= k < PAGE_FRAMES :: page[k] == SILENCE
  }

  /** When every page but the last is full, frame `k` of page `i` is number `i * 1024 + k`. */
  lemma {:induction false} JoinedAt(pages: seq<seq<Stereo>>, lens: seq<nat>, i: nat, k: nat)
    requires |pages| == |lens| && i < |pages| && k < lens[i]
    requires forall j | 0 <= j < |pages| :: Padded(pages[j], lens[j])
    requires forall j | 0 <= j < |pages| - 1 :: lens[j] == 1024
    ensures k < |pages[i]| && i * 1024 + k < |Joined(pages, lens)|
    ensures Joined(pages, lens)[i * 1024 + k] == pages[i][k]
    ensures |Joined(pages, lens)| == (|pages| - 1) * 1024 + lens[|pages| - 1]
  {
    var n := |pages| - 1;
    if n > 0 {
      JoinedAt(pages[..n], lens[..n], Min(i, n - 1), if i < n then k else 0);
    }
  }

  /** Where frames come from: a file on a volume, its WAV header, and WavConvert for one frame. */
  datatype Wav = Wav(geo: Geometry, cluster: nat, info: WavInfo, convert: seq<byte> -> Stereo) {
    /** `f` is frame `j` of the WAV data. */
    ghost predicate IsFrame(j: nat, f: Stereo)
      requires geo.spc > 0
    {
      var at := FrameAt(info.dataOffset, j, info.blockAlign);
      geo.HasBytes(cluster, at, info.blockAlign) && f == convert(geo.FileSlice(cluster, at, info.blockAlign))
    }

    /** The committed pages hold exactly the first `done` frames of the data, in order. */
    ghost predicate Delivered(pages: seq<seq<Stereo>>, lens: seq<nat>, done: nat)
      requires geo.spc > 0
    {
      && |pages| == |lens| <= done
      && (forall i | 0 <= i < |pages| :: Padded(pages[i], lens[i]))
      && |Joined(pages, lens)| == done
      && forall j | 0 <= j < done :: IsFrame(j, Joined(pages, lens)[j])
    }

    lemma DeliveredMore(pages: seq<seq<Stereo>>, lens: seq<nat>, done: nat, page: seq<Stereo>, n: nat)
      requires geo.spc > 0 && Delivered(pages, lens, done) && Padded(page, n)
      requires forall i | 0 <= i < n :: IsFrame(done + i, page[i])
      ensures Delivered(pages + [page], lens + [n], done + n)
    {
      hide IsFrame;
      var all, ns := pages + [page], lens + [n];
      assert all[..|pages|] == pages && ns[..|pages|] == lens;
      var before, after := Joined(pages, lens), Joined(all, ns);
      assert after == before + page[..n];
      forall j | 0 <= j < done + n
        ensures IsFrame(j, after[j])
      {
        if j >= done {
          assert IsFrame(done + (j - done), page[j - done]);
        }
      }
    }

    lemma DeliveredBound(pages: seq<seq<Stereo>>, lens: seq<nat>, done: nat)
      requires geo.spc > 0 && Delivered(pages, lens, done)
      ensures |pages| <= done
    {
    }

    lemma DeliveredNothing()
      requires geo.spc > 0
      ensures Delivered([], [], 0)
    {
    }

    /**
     * Of a file in consecutive clusters, frame `k` of page `i` is frame `i * 1024 + k` of the data, and its bytes lie
     * that many frames after the start of the data on the disk.
     */
    lemma FrameOnDisk(pages: seq<seq<Stereo>>, lens: seq<nat>, done: nat, n: nat, i: nat, k: nat)
      requires geo.spc > 0 && cluster >= 2 && geo.Consecutive(cluster, n) && Delivered(pages, lens, done)
      requires i < |pages| && k < lens[i] && forall j | 0 <= j < |pages| - 1 :: lens[j] == 1024
      requires info.dataOffset + Times(i * 1024 + k, info.blockAlign) + info.blockAlign <= Times(n, geo.spc * 512)
      ensures var start := (geo.startLba + geo.firstData + Times(cluster - 2, geo.spc)) * 512;
              var at := start + info.dataOffset + Times(i * 1024 + k, info.blockAlign);
              pages[i][k] == convert(Slice(geo.content, at, info.blockAlign))
    {
      hide Geometry.Consecutive, Geometry.HasBytes, Geometry.FileSlice;
      JoinedAt(pages, lens, i, k);
      var at := FrameAt(info.dataOffset, i * 1024 + k, info.blockAlign);
      assert at == info.dataOffset + Times(i * 1024 + k, info.blockAlign);
      hide FrameAt, Times;
      assert IsFrame(i * 1024 + k, Joined(pages, lens)[i * 1024 + k]);
      var s := geo.FileSlice(cluster, at, info.blockAlign);
      FileSliceHeld(at);
      geo.ConsecutiveBytes(cluster, n, at, s);
    }

    lemma FileSliceHeld(at: nat)
      requires geo.spc > 0 && geo.HasBytes(cluster, at, info.blockAlign)
      ensures geo.Holds(cluster, at, geo.FileSlice(cluster, at, info.blockAlign))
    {
    }

    /** Frame `i` of what a read at frame `done` brought in. */
    lemma FrameInRead(done: nat, got: seq<byte>, n: nat, i: nat)
      requires geo.spc > 0 && i < n && FrameAt(0, n, info.blockAlign) <= |got|
      requires geo.Holds(cluster, FrameAt(info.dataOffset, done, info.blockAlign), got)
      ensures FrameAt(0, i, info.blockAlign) + info.blockAlign <= |got|
      ensures var at := FrameAt(0, i, info.blockAlign);
              IsFrame(done + i, convert(got[at..at + info.blockAlign]))
    {
      var align, base := info.blockAlign, FrameAt(info.dataOffset, done, info.blockAlign);
      var at := FrameAt(0, i, align);
      FrameAtNext(0, i, n, align);
      FrameAtSum(info.dataOffset, done, i, align);
      assert base + at == FrameAt(info.dataOffset, done + i, align);
      hide FrameAt;
      assert geo.HasBytes(cluster, base + at, align);
      assert got[at..at + align] == geo.FileSlice(cluster, base + at, align);
    }
  }

  class Player {
    const ring: Ring
    const volume: Volume
    const convert: seq<byte> -> Stereo
    const source: array<byte>
    var file: Entry
    var info: WavInfo
    var finished: bool
    var active: bool
    var started: bool
    var readFailed: bool
    var totalFrames: nat
    var framesDone: nat
    var dataPages: nat
    /** How many frames each committed page carries. */
    ghost var lens: seq<nat>

    ghost function AsWav(): Wav
      reads this`file, this`info
    {
      Wav(volume.geo, file.cluster, info, convert)
    }

    ghost predicate Shape()
      reads volume.block`devices
    {
      && volume.Shape() && source.Length == SOURCE_BYTES
      && source != volume.sectorBuffer && source != volume.fatBuffer && source != volume.block.bounce
    }

    /** What holds of a stream between its start and its end. */
    ghost predicate Streaming()
      reads this`file, this`info, this`totalFrames, this`framesDone, this`dataPages, this`lens
      reads ring`committed, ring`filled
    {
      && WavOk(file, info) && totalFrames == Quot(info.dataBytes, info.blockAlign) && framesDone <= totalFrames
      && volume.geo.spc > 0 && AsWav().Delivered(ring.committed, lens, framesDone)
      && dataPages == |ring.committed| == ring.filled
    }

    /**
     * The hardware had not come to any page when the first 16 pages were committed; `commits` says how many it had
     * come to.
     */
    ghost predicate Prefilled()
      reads this`dataPages, ring`commits
    {
      |ring.commits| == dataPages && forall n | 0 <= n < dataPages && n < 16 :: ring.commits[n] == 0
    }

    ghost predicate Sound()
      reads this, ring, ring.memory, ring.descriptors, volume, volume.fatBuffer, volume.block`devices
    {
      && Shape() && ring.Valid() && volume.Valid()
      && ring.active == active && ring.started == started && (started ==> active)
      && (active ==> Streaming() && Prefilled())
    }

    ghost predicate Valid()
      reads this, ring, ring.memory, ring.descriptors, volume, volume.fatBuffer, volume.block`devices
    {
      && Sound() && (active && !started ==> dataPages < 16)
      && (started && !InputDone() ==> dataPages >= 16)
    }

    /** Every page but the last is full. */
    ghost predicate Packed()
      reads this`framesDone, this`totalFrames, this`dataPages, this`lens
    {
      && framesDone == Min(dataPages * PAGE_FRAMES, totalFrames)
      && forall i | 0 <= i < |lens| :: lens[i] == Min(PAGE_FRAMES, totalFrames - i * PAGE_FRAMES)
    }

    constructor (ring: Ring, volume: Volume, convert: seq<byte> -> Stereo)
      requires ring.Valid() && volume.Valid() && !ring.active
      ensures Valid() && !active && this.ring == ring && this.volume == volume && this.convert == convert
    {
      this.ring, this.volume, this.convert := ring, volume, convert;
      source := new byte[SOURCE_BYTES];
      file, info := Entry("", 0, 0, 0), WavInfo(0, 0, 0, 0);
      finished, active, started, readFailed := false, false, false, false;
      totalFrames, framesDone, dataPages, lens := 0, 0, 0, [];
    }

    /** The part of an iteration that fills the page handed out: WavConvert, then silence. */
    method FillPage(n: nat, ghost done: nat, ghost got: nat)
      requires Shape() && ring.Valid() && ring.lent && WavOk(file, info) && volume.geo.spc > 0
      requires n <= PAGE_FRAMES && FrameAt(0, n, info.blockAlign) <= got <= SOURCE_BYTES
      requires volume.geo.Holds(file.cluster, FrameAt(info.dataOffset, done, info.blockAlign), source[..got])
      requires n >= 1
      modifies ring.memory
      ensures ring.Valid()
      ensures Padded(ring.PageAt(Slot(ring.filled)), n)
      ensures forall i | 0 <= i < n :: AsWav().IsFrame(done + i, ring.PageAt(Slot(ring.filled))[i])
    {
      hide FrameAt, Wav.IsFrame, Geometry.Holds, Ring.PageAt, Slot, Ring.Valid;
      RingShape();
      ghost var wav := AsWav();
      var i := 0;
      while i < n
        invariant 0 <= i <= n && ring.Valid()
        invariant forall k | 0 <= k < i :: wav.IsFrame(done + k, ring.PageAt(Slot(ring.filled))[k])
      {
        wav.FrameInRead(done, source[..got], n, i);
        var at := FrameAt(0, i, info.blockAlign);
        SubSlice(source[..], got, at, at + info.blockAlign);
        ring.Put(i, convert(source[at..at + info.blockAlign]));
        i := i + 1;
      }
      while i < PAGE_FRAMES
        invariant n <= i <= PAGE_FRAMES && ring.Valid()
        invariant forall k | 0 <= k < n :: wav.IsFrame(done + k, ring.PageAt(Slot(ring.filled))[k])
        invariant forall k | n <= k < i :: ring.PageAt(Slot(ring.filled))[k] == SILENCE
      {
        ring.Put(i, SILENCE);
        i := i + 1;
      }
    }

    lemma RingShape()
      requires ring.Valid()
      ensures ring.memory.Length == PLAY_PAGES * PAGE_FRAMES && Slot(ring.filled) < PLAY_PAGES
      ensures |ring.PageAt(Slot(ring.filled))| == PAGE_FRAMES
    {
    }

    /** The part of an iteration that reads: at most `n` frames from the first one not yet delivered. */
    method ReadFrames(n: nat) returns (got: nat)
      requires Shape() && volume.Valid() && WavOk(file, info) && volume.geo.spc > 0 && 1 <= n <= PAGE_FRAMES
      requires framesDone + n <= Quot(info.dataBytes, info.blockAlign)
      modifies source, volume`fatBufferLba, volume`fatBufferValid, volume`cursorFirst, volume`cursorIndex
      modifies volume`cursorCluster, volume`steps, volume.sectorBuffer, volume.fatBuffer
      modifies volume.block`clock, volume.block`log, volume.block`failed, volume.block`lost, volume.block.bounce
      ensures Shape() && volume.Valid() && volume.block.failed >= old(volume.block.failed)
      ensures got <= FrameAt(0, n, info.blockAlign) <= SOURCE_BYTES
      ensures volume.geo.Holds(file.cluster, FrameAt(info.dataOffset, framesDone, info.blockAlign), source[..got])
      ensures got < FrameAt(0, n, info.blockAlign) && volume.block.failed == old(volume.block.failed) ==> !DataOnChain()
      ensures old(volume.Healthy(file.cluster)) ==>
                volume.block.failed == old(volume.block.failed) && volume.Healthy(file.cluster)
    {
      hide FrameAt, Geometry.Holds, Geometry.HasBytes, Volume.Valid, Volume.Shape, DataOnChain, Geometry.StoppedAt,
        Quot, Want, Volume.Healthy;
      WantBelow(file, FrameAt(info.dataOffset, framesDone, info.blockAlign), FrameAt(0, n, info.blockAlign));
      FrameAtBounds(n, info.blockAlign);
      FramesLeft(info, framesDone, n);
      var offset := FrameAt(info.dataOffset, framesDone, info.blockAlign);
      ghost var parked;
      got, parked := volume.ReadAt(file, offset, source, 0, FrameAt(0, n, info.blockAlign));
      assert source[0..0 + got] == source[..got];
      if got < FrameAt(0, n, info.blockAlign) && volume.block.failed == old(volume.block.failed) {
        NotOnChain(offset, FrameAt(0, n, info.blockAlign), got);
      }
    }

    lemma WantBelow(file: Entry, offset: nat, length: nat)
      ensures Want(file, offset, length) <= length
    {
    }

    /** The file is a plain file whose chain covers all of the WAV data. */
    ghost predicate DataOnChain()
      requires volume.geo.spc > 0
      reads this`file, this`info
    {
      !file.IsDir() && ClusterValid(file.cluster) && volume.geo.HasBytes(file.cluster, info.dataOffset, info.dataBytes)
    }

    lemma NotOnChain(offset: nat, length: nat, got: nat)
      requires volume.geo.spc > 0 && WavOk(file, info)
      requires info.dataOffset <= offset && offset + length <= info.dataOffset + info.dataBytes && got < length
      requires volume.geo.StoppedAt(file.cluster, offset, Want(file, offset, length), got)
      ensures !DataOnChain()
    {
    }

    /** One iteration of the loop in PlayerPoll, on the page HdaStreamNextPage has just returned. */
    method FeedPage()
      requires Sound() && active && ring.lent && framesDone < totalFrames && !readFailed && totalFrames < U32
      requires started ==> dataPages >= 16
      modifies this`framesDone, this`dataPages, this`readFailed, this`lens
      modifies ring`filled, ring`committed, ring`commits, ring`entered, ring`clock, ring`lent, ring.memory
      modifies source, volume`fatBufferLba, volume`fatBufferValid, volume`cursorFirst, volume`cursorIndex
      modifies volume`cursorCluster, volume`steps, volume.sectorBuffer, volume.fatBuffer
      modifies volume.block`clock, volume.block`log, volume.block`failed, volume.block`lost, volume.block.bounce
      ensures Sound() && volume.block.failed >= old(volume.block.failed) && ring.clock >= old(ring.clock)
      ensures readFailed ==> framesDone == old(framesDone) && dataPages == old(dataPages) && lens == old(lens)
      ensures readFailed && volume.block.failed == old(volume.block.failed) ==> !DataOnChain()
      ensures !readFailed ==> && old(framesDone) < framesDone && dataPages == old(dataPages) + 1
                              && lens == old(lens) + [framesDone - old(framesDone)]
      ensures !readFailed && volume.block.failed == old(volume.block.failed) && DataOnChain() ==>
                framesDone == old(framesDone) + Min(PAGE_FRAMES, totalFrames - old(framesDone))
      ensures !readFailed && ring.Faithful() && ring.InBounds() ==>
                (ring.NoneLate() <==> old(ring.NoneLate()) && (!ring.started || old(ring.InTime())))
      ensures old(Packed()) && volume.block.failed == old(volume.block.failed) && DataOnChain() ==> Packed()
      ensures old(volume.Healthy(file.cluster)) ==>
                volume.block.failed == old(volume.block.failed) && volume.Healthy(file.cluster)
    {
      hide FrameAt, Geometry.Holds, Wav.Delivered, Volume.Valid, Volume.Shape, Ring.Valid, DataOnChain, Quot,
        Volume.Healthy, Packed, Ring.Faithful, Ring.NoneLate;
      FramesExact();
      BlockRange();
      var n := if totalFrames - framesDone > PAGE_FRAMES then PAGE_FRAMES else totalFrames - framesDone;
      FrameAtBounds(n, info.blockAlign);
      var got := ReadFrames(n);
      if got < info.blockAlign {
        readFailed := true;
      } else {
        WholeFrames(got, n, info.blockAlign);
        AllFrames(n, info.blockAlign);
        ghost var packed := Packed();
        PackedFacts();
        Deliver(Quot(got, info.blockAlign), got);
        if packed && got == FrameAt(0, n, info.blockAlign) {
          PackedMore(old(framesDone), old(dataPages), old(lens));
        }
      }
    }

    lemma BlockRange()
      requires Streaming()
      ensures 1 <= info.blockAlign <= 32
    {
    }

    lemma PackedFacts()
      requires Streaming()
      ensures |lens| == dataPages
      ensures Packed() ==> && framesDone == Min(dataPages * PAGE_FRAMES, totalFrames)
                           && forall i | 0 <= i < |lens| :: lens[i] == Min(PAGE_FRAMES, totalFrames - i * PAGE_FRAMES)
    {
    }

    /** One more page, full unless the input is over. */
    lemma PackedMore(done: nat, pages: nat, before: seq<nat>)
      requires done == Min(pages * PAGE_FRAMES, totalFrames) && done < totalFrames && |before| == pages
      requires forall i | 0 <= i < |before| :: before[i] == Min(PAGE_FRAMES, totalFrames - i * PAGE_FRAMES)
      requires framesDone == done + Min(PAGE_FRAMES, totalFrames - done) && dataPages == pages + 1
      requires lens == before + [framesDone - done]
      ensures Packed()
    {
    }

    lemma FramesExact()
      requires Streaming()
      ensures totalFrames < U32
    {
    }

    /** The rest of an iteration: convert, pad, commit and count. */
    method Deliver(n: nat, ghost got: nat)
      requires Shape() && ring.Valid() && ring.lent && ring.active && Streaming() && totalFrames < U32
      requires Prefilled() && (ring.started ==> dataPages >= 16)
      requires 1 <= n <= PAGE_FRAMES && framesDone + n <= totalFrames
      requires FrameAt(0, n, info.blockAlign) <= got <= SOURCE_BYTES
      requires volume.geo.Holds(file.cluster, FrameAt(info.dataOffset, framesDone, info.blockAlign), source[..got])
      modifies this`framesDone, this`dataPages, this`lens
      modifies ring`filled, ring`committed, ring`commits, ring`entered, ring`clock, ring`lent, ring.memory
      ensures Shape() && ring.Valid() && Streaming() && Prefilled() && ring.clock >= old(ring.clock)
      ensures framesDone == old(framesDone) + n && dataPages == old(dataPages) + 1 && lens == old(lens) + [n]
      ensures ring.Faithful() && ring.InBounds() ==>
                (ring.NoneLate() <==> old(ring.NoneLate()) && (!ring.started || old(ring.InTime())))
    {
      hide FrameAt, Geometry.Holds, Wav.Delivered, Wav.IsFrame, Volume.Shape, Ring.Valid, Ring.PageAt, Slot, Padded,
        Quot, Wrap, Ring.Faithful, Ring.NoneLate;
      FillPage(n, framesDone, got);
      RingShape();
      ghost var page := ring.PageAt(Slot(ring.filled));
      AsWav().DeliveredMore(ring.committed, lens, framesDone, page, n);
      AsWav().DeliveredBound(ring.committed, lens, framesDone);
      ring.WrapSmall(ring.filled + 1);
      ring.Commit();
      framesDone, dataPages, lens := framesDone + n, dataPages + 1, lens + [n];
    }

    predicate InputDone()
      reads this`framesDone, this`totalFrames, this`readFailed
    {
      framesDone >= totalFrames || readFailed
    }

    method StartRing()
      requires Sound() && active && !started && (dataPages >= 16 || InputDone())
      modifies this`started, ring`started, ring`hwTotal, ring`lastHw, ring`clock, ring`epoch, ring`seen, ring`total
      modifies ring`entered
      ensures Valid() && started && ring.clock >= old(ring.clock)
    {
      hide Ring.Valid, Wav.Delivered, Volume.Valid, Volume.Shape;
      ring.Start();
      started := true;
    }

    /** The loop of PlayerPoll. */
    method FeedRing()
      requires Valid() && active
      modifies this`framesDone, this`dataPages, this`readFailed, this`lens, this`started, ring, ring.memory
      modifies source, volume`fatBufferLba, volume`fatBufferValid, volume`cursorFirst, volume`cursorIndex
      modifies volume`cursorCluster, volume`steps, volume.sectorBuffer, volume.fatBuffer
      modifies volume.block`clock, volume.block`log, volume.block`failed, volume.block`lost, volume.block.bounce
      ensures Valid() && volume.block.failed >= old(volume.block.failed) && framesDone >= old(framesDone)
      ensures readFailed && !old(readFailed) && volume.block.failed == old(volume.block.failed) ==> !DataOnChain()
      ensures old(started) ==> started
      ensures InputDone() || (ring.InBounds() ==> ring.filled == ring.total + PLAY_PAGES)
      ensures ring.clock >= old(ring.clock) && (started ==> InputDone() || ring.ReadSince(old(ring.clock)))
      ensures old(Packed()) && volume.block.failed == old(volume.block.failed) && DataOnChain() ==> Packed()
      ensures old(volume.Healthy(file.cluster)) ==>
                volume.block.failed == old(volume.block.failed) && volume.Healthy(file.cluster)
    {
      hide Ring.Valid, Wav.Delivered, Volume.Valid, Volume.Shape, DataOnChain, Slot, Quot, Volume.Healthy, Packed;
      ghost var packed, healthy := Packed(), volume.Healthy(file.cluster);
      FramesExact();
      var room := true;
      while !InputDone() && room
        invariant Valid() && active && totalFrames < U32 && framesDone >= old(framesDone)
        invariant volume.block.failed >= old(volume.block.failed) && (old(started) ==> started)
        invariant readFailed && !old(readFailed) && volume.block.failed == old(volume.block.failed) ==> !DataOnChain()
        invariant !room && ring.InBounds() ==> ring.filled == ring.total + PLAY_PAGES
        invariant ring.clock >= old(ring.clock) && (!room && started ==> ring.ReadSince(old(ring.clock)))
        invariant packed && volume.block.failed == old(volume.block.failed) && DataOnChain() ==> Packed()
        invariant healthy ==> volume.block.failed == old(volume.block.failed) && volume.Healthy(file.cluster)
        decreases room, !readFailed, totalFrames - framesDone
      {
        room := Turn();
      }
    }

    /** One turn of the loop, with HdaStreamNextPage from its condition; false when there was no page to fill. */
    method Turn() returns (room: bool)
      requires Valid() && active && !InputDone() && totalFrames < U32
      modifies this`framesDone, this`dataPages, this`readFailed, this`lens, this`started, ring, ring.memory
      modifies source, volume`fatBufferLba, volume`fatBufferValid, volume`cursorFirst, volume`cursorIndex
      modifies volume`cursorCluster, volume`steps, volume.sectorBuffer, volume.fatBuffer
      modifies volume.block`clock, volume.block`log, volume.block`failed, volume.block`lost, volume.block.bounce
      ensures Valid() && active && volume.block.failed >= old(volume.block.failed) && (old(started) ==> started)
      ensures !room && ring.InBounds() ==> ring.filled == ring.total + PLAY_PAGES
      ensures ring.clock >= old(ring.clock) && (!room && started ==> ring.ReadSince(old(ring.clock)))
      ensures if room && !readFailed then framesDone > old(framesDone) else framesDone == old(framesDone)
      ensures readFailed && volume.block.failed == old(volume.block.failed) ==> !DataOnChain()
      ensures old(Packed()) && volume.block.failed == old(volume.block.failed) && DataOnChain() ==> Packed()
      ensures old(volume.Healthy(file.cluster)) ==>
                volume.block.failed == old(volume.block.failed) && volume.Healthy(file.cluster)
    {
      hide Ring.Valid, Wav.Delivered, Volume.Valid, Volume.Shape, DataOnChain, Slot, Quot, Ring.Faithful,
        Volume.Healthy;
      var slot := ring.NextPage();
      room := slot.Some?;
      if room {
        FeedPage();
        if !readFailed && !started && ring.filled >= START_AT {
          StartRing();
        }
      }
    }

    /** HdaStreamStart waits for the input to be complete only if there is less than 16 pages of it. */
    method StartIfComplete()
      requires Valid() && active && (InputDone() || (ring.InBounds() ==> ring.filled == ring.total + PLAY_PAGES))
      modifies this`started, ring`started, ring`hwTotal, ring`lastHw, ring`clock, ring`epoch, ring`seen, ring`total
      modifies ring`entered
      ensures Valid() && (started <==> old(started) || dataPages > 0) && (!old(started) ==> InputDone())
      ensures old(started) ==>
                ring.total == old(ring.total) && ring.seen == old(ring.seen) && ring.epoch == old(ring.epoch)
      ensures ring.clock >= old(ring.clock)
    {
      hide Ring.Valid, Wav.Delivered, Volume.Valid, Volume.Shape;
      if !started {
        NotStarted();
      }
      if !started && dataPages > 0 && InputDone() {
        StartRing();
      }
    }

    /** A stream that has not been started has played nothing, so 16 pages cannot have filled the ring. */
    lemma NotStarted()
      requires ring.Valid() && ring.active && !ring.started
      ensures ring.total == 0 && ring.InBounds()
    {
    }

    /**
     * PlayerPoll. Afterwards an active stream is started, and it is out of input or the ring is full of pages not
     * yet played. `finished` is raised exactly when the input is over and nothing was committed or the count of pages
     * played has reached the last page; then every page was heard if and only if none was committed late.
     */
    method Poll()
      requires Valid()
      modifies this`framesDone, this`dataPages, this`readFailed, this`lens, this`started, this`active, this`finished
      modifies ring, ring.memory
      modifies source, volume`fatBufferLba, volume`fatBufferValid, volume`cursorFirst, volume`cursorIndex
      modifies volume`cursorCluster, volume`steps, volume.sectorBuffer, volume.fatBuffer
      modifies volume.block`clock, volume.block`log, volume.block`failed, volume.block`lost, volume.block.bounce
      ensures Valid() && volume.block.failed >= old(volume.block.failed) && framesDone >= old(framesDone)
      ensures !old(active) ==> !active && finished == old(finished) && framesDone == old(framesDone)
      ensures active ==> started
      ensures active && ring.InBounds() ==> InputDone() || ring.filled == ring.total + PLAY_PAGES
      ensures ring.clock >= old(ring.clock) && (active ==> ring.ReadSince(old(ring.clock)))
      ensures old(active) ==> Streaming() && Prefilled()
      ensures old(active) && !active ==> finished && InputDone() && (dataPages == 0 || dataPages <= ring.total)
      ensures old(active) && !active && dataPages > 0 && ring.Faithful() ==> dataPages <= ring.Truth()
      ensures active ==> finished == old(finished)
      ensures readFailed && !old(readFailed) && volume.block.failed == old(volume.block.failed) ==> !DataOnChain()
      ensures active && InputDone() && ring.InBounds() ==> ring.total < dataPages
      ensures old(active) && !active && ring.Faithful() && ring.InBounds() ==> (ring.AllHeard() <==> ring.NoneLate())
      ensures old(active && Packed()) && volume.block.failed == old(volume.block.failed) && DataOnChain() ==> Packed()
      ensures old(volume.Healthy(file.cluster)) ==>
                volume.block.failed == old(volume.block.failed) && volume.Healthy(file.cluster)
    {
      hide Ring.Valid, Wav.Delivered, Volume.Valid, Volume.Shape, DataOnChain, Quot, Ring.Faithful, Closely,
        Volume.Healthy, Packed, Ring.AllHeard, Ring.NoneLate;
      if active {
        FeedRing();
        StartIfComplete();
        FinishIfOver();
      }
    }

    /** The last two steps of PlayerPoll. */
    method FinishIfOver()
      requires Valid() && active && (dataPages > 0 && InputDone() ==> started)
      requires started || InputDone()
      modifies this`started, this`active, this`finished, ring
      ensures Valid() && Streaming() && Prefilled() && framesDone == old(framesDone)
      ensures if active then started && finished == old(finished)
              else finished && InputDone() && (dataPages == 0 || dataPages <= ring.total)
      ensures active ==> ring.filled == old(ring.filled) && ring.total >= old(ring.total)
      ensures !active && dataPages > 0 && ring.Faithful() ==> dataPages <= ring.Truth()
      ensures active && InputDone() && ring.InBounds() ==> ring.total < dataPages
      ensures !active && ring.Faithful() && ring.InBounds() ==> (ring.AllHeard() <==> ring.NoneLate())
      ensures !InputDone() ==>
                ring.total == old(ring.total) && ring.seen == old(ring.seen) && ring.epoch == old(ring.epoch)
      ensures ring.clock >= old(ring.clock) && (active && InputDone() ==> ring.ReadSince(old(ring.clock)))
    {
      hide Ring.Valid, Wav.Delivered, Volume.Valid, Volume.Shape, Quot, Ring.Faithful, Closely, Ring.AllHeard,
        Ring.NoneLate;
      if dataPages == 0 && InputDone() {
        if ring.Faithful() && ring.InBounds() {
          ring.HeardIffNoneLate();
        }
        finished := true;
        Stop();
      } else if started && InputDone() {
        FinishIfPlayed();
      }
    }

    /**
     * PlayerStart, once the path has been resolved and its header parsed. The stream is opened, filled and, unless
     * it is over already, started; when it cannot be opened nothing is playing and no page is held for it.
     */
    method Start(file: Entry, info: WavInfo) returns (status: Status)
      requires Valid() && WavOk(file, info) && ring.pmm.Valid()
      requires ring.memory as object != ring.pmm.bitmap && ring.descriptors as object != ring.pmm.bitmap
      requires ring.pmm.bitmap != source && ring.pmm.bitmap != volume.sectorBuffer
      requires ring.pmm.bitmap != volume.fatBuffer && ring.pmm.bitmap != volume.block.bounce
      modifies this, ring, ring.memory, ring.descriptors, ring.pmm`freePages, ring.pmm`live, ring.pmm.bitmap
      modifies source, volume`fatBufferLba, volume`fatBufferValid, volume`cursorFirst, volume`cursorIndex
      modifies volume`cursorCluster, volume`steps, volume.sectorBuffer, volume.fatBuffer
      modifies volume.block`clock, volume.block`log, volume.block`failed, volume.block`lost, volume.block.bounce
      ensures Valid() && ring.pmm.Valid() && (active ==> started)
      ensures status != Ok ==> !active && !finished && ring.pmm.live == old(ring.pmm.live)
      ensures status == Ok ==> && this.file == file && this.info == info && Streaming()
                               && (active ==> !finished) && (!active ==> finished && InputDone())
      ensures status == Unavailable <==> !ring.streamOk
      ensures status == BadRate <==> ring.streamOk && !KnownRate(info.rate)
      ensures status == NoMemory <==> && ring.streamOk && KnownRate(info.rate) && !old(ring.havePages)
                                      && |Low(old(ring.pmm.Free()))| <= PLAY_PAGES
      ensures status == Ok && volume.block.failed == old(volume.block.failed) && DataOnChain() ==>
                !readFailed && Packed()
      ensures active && ring.InBounds() ==> InputDone() || ring.filled == ring.total + PLAY_PAGES
      ensures active ==> ring.ReadSince(old(ring.clock)) && ring.Described()
      ensures active && InputDone() && ring.InBounds() ==> ring.total < dataPages
      ensures status == Ok && !active && ring.Faithful() && ring.InBounds() ==> (ring.AllHeard() <==> ring.NoneLate())
      ensures old(volume.Healthy(file.cluster)) ==>
                volume.block.failed == old(volume.block.failed) && volume.Healthy(file.cluster)
    {
      hide Ring.Valid, Wav.Delivered, Volume.Valid, Volume.Shape, DataOnChain, Quot, Ring.Faithful, Pmm.Allocator.Valid,
        Pmm.Allocator.Free, Low, KnownRate, Ring.Holding, Volume.Healthy, Packed, Ring.AllHeard, Ring.NoneLate, Closely,
        Ring.ReadSince, WavOk, Ring.Described, Ring.Silent;
      Stop();
      finished := false;
      status := ring.Open(info.rate);
      if status == Ok {
        Play(file, info);
      }
    }

    /** The counters of the new stream, and its first poll. */
    method Play(file: Entry, info: WavInfo)
      requires Shape() && ring.Valid() && volume.Valid() && WavOk(file, info) && !finished
      requires ring.active && !ring.started && ring.filled == 0 && ring.committed == []
      modifies this, ring, ring.memory
      modifies source, volume`fatBufferLba, volume`fatBufferValid, volume`cursorFirst, volume`cursorIndex
      modifies volume`cursorCluster, volume`steps, volume.sectorBuffer, volume.fatBuffer
      modifies volume.block`clock, volume.block`log, volume.block`failed, volume.block`lost, volume.block.bounce
      ensures Valid() && (active ==> started) && this.file == file && this.info == info && Streaming()
      ensures (active ==> !finished) && (!active ==> finished && InputDone())
      ensures volume.block.failed >= old(volume.block.failed)
      ensures volume.block.failed == old(volume.block.failed) && DataOnChain() ==> !readFailed && Packed()
      ensures active && ring.InBounds() ==> InputDone() || ring.filled == ring.total + PLAY_PAGES
      ensures active ==> ring.ReadSince(old(ring.clock)) && ring.Described()
      ensures active && InputDone() && ring.InBounds() ==> ring.total < dataPages
      ensures !active && ring.Faithful() && ring.InBounds() ==> (ring.AllHeard() <==> ring.NoneLate())
      ensures old(volume.Healthy(file.cluster)) ==>
                volume.block.failed == old(volume.block.failed) && volume.Healthy(file.cluster)
    {
      hide Ring.Valid, Wav.Delivered, Volume.Valid, Volume.Shape, DataOnChain, Quot, Ring.Faithful, Volume.Healthy,
        Packed, Ring.AllHeard, Ring.NoneLate, Closely, Ring.ReadSince, WavOk, Ring.Described;
      Begin(file, info);
      Poll();
      if active {
        ring.PagesDescribed();
      }
    }

    /** The last step of PlayerPoll. */
    method FinishIfPlayed()
      requires Valid() && active && started
      modifies this`started, this`active, this`finished, ring
      ensures Valid() && Streaming() && Prefilled() && framesDone == old(framesDone)
      ensures if active then started && finished == old(finished) else finished && dataPages <= ring.total
      ensures !active && ring.Faithful() ==> dataPages <= ring.Truth()
      ensures active ==> ring.filled == old(ring.filled) && ring.total >= old(ring.total)
      ensures ring.clock >= old(ring.clock) && ring.ReadSince(old(ring.clock))
      ensures active && ring.InBounds() ==> ring.total < dataPages
      ensures !active && ring.Faithful() && ring.InBounds() ==> (ring.AllHeard() <==> ring.NoneLate())
    {
      hide Ring.Valid, Wav.Delivered, Volume.Valid, Volume.Shape, Ring.Faithful, Closely, Ring.AllHeard, Ring.NoneLate;
      var played := ring.Played();
      if played >= dataPages {
        if ring.Faithful() && ring.InBounds() {
          ring.HeardIffNoneLate();
        }
        finished := true;
        Stop();
      }
    }

    /** The counters of a stream just opened. */
    method Begin(file: Entry, info: WavInfo)
      requires Shape() && ring.Valid() && volume.Valid() && WavOk(file, info)
      requires ring.active && !ring.started && ring.filled == 0 && ring.committed == []
      modifies this`file, this`info, this`totalFrames, this`framesDone, this`dataPages, this`lens
      modifies this`started, this`readFailed, this`active
      ensures Valid() && active && !readFailed && this.file == file && this.info == info && Packed()
    {
      hide Ring.Valid, Wav.Delivered, Volume.Valid, Volume.Shape, Quot;
      SpcPositive();
      NothingCommitted();
      this.file, this.info := file, info;
      totalFrames, framesDone, dataPages, lens := Quot(info.dataBytes, info.blockAlign), 0, 0, [];
      started, readFailed, active := false, false, true;
      AsWav().DeliveredNothing();
    }

    /** Nothing is committed to a ring just opened. */
    lemma NothingCommitted()
      requires ring.Valid() && ring.active && !ring.started && ring.committed == []
      ensures ring.commits == []
    {
    }

    lemma SpcPositive()
      requires volume.Shape()
      ensures volume.geo.spc > 0
    {
    }

    /** PlayerStop. */
    method Stop()
      requires Sound()
      modifies this`started, this`active, ring`active, ring`started, ring`lent
      ensures Valid() && !active && !started && (old(active) ==> old(Streaming()) ==> Streaming())
    {
      hide Ring.Valid, Wav.Delivered, Volume.Valid, Volume.Shape;
      if active {
        ring.Close();
        active, started := false, false;
      }
    }
  }
}
