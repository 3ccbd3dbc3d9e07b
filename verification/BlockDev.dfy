/** kernel/blockdev.c: the device registry and 512-byte reads over larger native sectors. */
module BlockDev {
  import opened Common

  const MAX_BLOCK_DEVICES := 64
  const NAME_SIZE := 16
  const BOUNCE_SIZE := 4096
  const LEGACY_MAX_COUNT := 8

  /** A registered device; `content` gives the byte at every offset of the disk behind it. */
  datatype Device = Device(name: string, sectorSize: nat, sectorCount: nat, maxCount: nat, online: bool,
                           content: nat -> byte)
  {
    function Ratio(): nat { sectorSize / 512 }
    /** Size in 512-byte units, in 64-bit arithmetic; a sector count of 0 means unknown. */
    function Total(): nat { sectorCount * Ratio() % U64 }
    /** Whether the sector is on the disk, as far as its size is known. */
    predicate Has(lba: nat) { sectorCount == 0 || lba < Total() }
  }

  /** One call of a driver's read function, in native sectors. */
  datatype Request = Request(device: int, native: nat, count: nat)

  predicate ValidSectorSize(size: nat) {
    size == 512 || size == 1024 || size == 2048 || size == 4096
  }

  ghost predicate ValidDevice(d: Device) {
    && ValidSectorSize(d.sectorSize)
    && d.sectorCount < U64
    && 1 <= d.maxCount < U32
    && 0 < |d.name| < NAME_SIZE && NoNul(d.name)
  }

  /** Registered names are pairwise distinct and fit their field; there are at most 64. */
  ghost predicate ValidRegistry(ds: seq<Device>) {
    && |ds| <= MAX_BLOCK_DEVICES
    && (forall i | 0 <= i < |ds| :: ValidDevice(ds[i]))
    && (forall i, j | 0 <= i < j < |ds| :: ds[i].name != ds[j].name)
  }

  /** BlockReadFrom accepts the request: known online device, and inside it when its size is known. */
  predicate InRange(ds: seq<Device>, index: int, lba: nat, count: nat) {
    && 0 <= index < |ds|
    && ds[index].online
    && (count == 0 || ds[index].sectorCount == 0
        || (lba < ds[index].Total() && count <= ds[index].Total() - lba))
  }

  /** A part of a range inside the device is inside it. */
  lemma InRangePart(ds: seq<Device>, index: int, lba: nat, count: nat, from: nat, n: nat)
    requires InRange(ds, index, lba, count) && from + n <= count && n > 0
    ensures InRange(ds, index, lba + from, n)
  {
  }

  /** A driver call that asks for 1..maxCount native sectors, inside the device when its size is known. */
  ghost predicate GoodRequest(ds: seq<Device>, index: int, r: Request) {
    && r.device == index
    && 0 <= index < |ds|
    && 1 <= r.count <= ds[index].maxCount
    && (ds[index].sectorCount != 0 ==> r.native + r.count <= ds[index].sectorCount)
  }

  /** So was every request from number `n` on. */
  ghost predicate GoodFrom(ds: seq<Device>, index: int, log: seq<Request>, n: nat) {
    forall k | n <= k < |log| :: GoodRequest(ds, index, log[k])
  }

  ghost predicate SameOutside(before: seq<byte>, now: seq<byte>, from: nat, to: nat) {
    |before| == |now| && forall i | 0 <= i < |now| && !(from <= i < to) :: now[i] == before[i]
  }

  /** What CopyName leaves in a NAME_SIZE field. */
  function FieldName(name: string): string {
    if |name| < NAME_SIZE then name else name[..NAME_SIZE - 1]
  }

  ghost predicate Taken(ds: seq<Device>, name: string) {
    exists i :: 0 <= i < |ds| && ds[i].name == name
  }

  /** No entry ever leaves the registry or changes anything but its online flag. */
  ghost predicate Extends(before: seq<Device>, after: seq<Device>) {
    && |before| <= |after|
    && forall i | 0 <= i < |before| :: after[i] == before[i].(online := after[i].online)
  }

  /** The name BlockRegisterNext tries with number `n`. */
  function NumberedName(prefix: string, n: nat): (s: string)
    requires n < 100 && 0 < |prefix|
    ensures 0 < |s| < NAME_SIZE
  {
    DecimalWidth(n, 2);
    (if |prefix| < NAME_SIZE - 4 then prefix else prefix[..NAME_SIZE - 4]) + Decimal(n)
  }

  /** A prefix of up to 11 characters is followed by the number. */
  lemma NumberFollows(prefix: string, n: nat)
    requires 0 < |prefix| < 12 && n < 100
    ensures NumberedName(prefix, n) == prefix + Decimal(n)
  {
  }

  /** On an online disk of known size, what is accepted is what ends inside the disk's bytes. */
  lemma AcceptedInside(ds: seq<Device>, index: int, lba: nat, count: nat)
    requires 0 <= index < |ds| && ValidDevice(ds[index]) && ds[index].online && count > 0
    requires 0 < ds[index].sectorCount && ds[index].sectorCount * 8 < U64
    ensures InRange(ds, index, lba, count) <==>
              (lba + count) * 512 <= Times(ds[index].sectorCount, ds[index].sectorSize)
  {
    var d := ds[index];
    if d.sectorSize == 512 {
    } else if d.sectorSize == 1024 {
    } else if d.sectorSize == 2048 {
    }
  }

  lemma TotalBound(d: Device)
    requires ValidDevice(d)
    ensures d.Total() <= d.sectorCount * d.Ratio()
    ensures d.Total() < U64
    ensures d.Ratio() == 1 || d.Ratio() == 2 || d.Ratio() == 4 || d.Ratio() == 8
    ensures d.sectorSize == 512 * d.Ratio()
  {
  }

  /** Splitting a 512-byte address into a native sector and an offset, without nonlinear arithmetic. */
  lemma SplitLba(ratio: nat, lba: nat)
    requires ratio == 1 || ratio == 2 || ratio == 4 || ratio == 8
    ensures lba == (lba / ratio) * ratio + lba % ratio
    ensures lba % ratio < ratio
  {
  }

  lemma NativeInside(ratio: nat, native: nat, n: nat, sectorCount: nat, total: nat)
    requires ratio == 1 || ratio == 2 || ratio == 4 || ratio == 8
    requires total <= sectorCount * ratio
    requires native * ratio < total && native * ratio + n * ratio < total + ratio
    requires 1 <= n
    ensures native + n <= sectorCount
  {
  }

  lemma WholeBound(ratio: nat, whole: nat, count: nat)
    requires ratio == 1 || ratio == 2 || ratio == 4 || ratio == 8
    requires 1 <= whole <= count / ratio
    ensures ratio <= whole * ratio <= count
  {
  }

  lemma Scale(ratio: nat, native: nat, n: nat, lba: nat)
    requires ratio == 1 || ratio == 2 || ratio == 4 || ratio == 8
    requires lba == native * ratio
    ensures native * (512 * ratio) == lba * 512
    ensures n * (512 * ratio) == (n * ratio) * 512
  {
  }

  /** 64-bit wrap-around. */
  function Wrap64(n: nat): (w: nat)
    ensures w < U64
  {
    n % U64
  }

  lemma WrapBounds(n: nat)
    ensures Wrap64(n) < U64 && (n < U64 ==> Wrap64(n) == n)
  {
  }

  class BlockLayer {
    /** Whether the k-th driver call since boot succeeds, and what a failed call leaves in memory. */
    const answers: nat -> bool
    const noise: (nat, nat) -> byte
    const bounce: array<byte>
    var devices: seq<Device>
    var clock: nat
    ghost var log: seq<Request>
    /** How many BlockReadFrom calls have returned 0. */
    ghost var failed: nat
    /** How many of them were accepted, and failed in a driver call. */
    ghost var lost: nat

    /** Every driver call from now on succeeds. */
    ghost predicate Answering()
      reads this`clock
    {
      forall k | clock <= k :: answers(k)
    }

    ghost predicate Valid()
      reads this`devices
    {
      bounce.Length == BOUNCE_SIZE && ValidRegistry(devices)
    }

    constructor (answers: nat -> bool, noise: (nat, nat) -> byte)
      ensures Valid() && devices == [] && fresh(bounce) && log == [] && failed == 0 && clock == 0 && lost == 0
      ensures this.answers == answers && this.noise == noise
    {
      this.answers, this.noise := answers, noise;
      bounce := new byte[BOUNCE_SIZE];
      devices, clock, log, failed, lost := [], 0, [], 0, 0;
    }

    lemma KnownDevice(index: int)
      requires Valid() && 0 <= index < |devices|
      ensures ValidDevice(devices[index]) && devices[index].Total() < U64
    {
      TotalBound(devices[index]);
    }

    /** A driver call for `count` native sectors, that is `bytes` bytes from offset `base` of the disk. */
    method DeviceRead(index: int, native: nat, count: nat, buf: array<byte>, at: nat, ghost base: nat, ghost bytes: nat)
      returns (ok: bool)
      requires Valid() && 0 <= index < |devices|
      requires base == native * devices[index].sectorSize && bytes == count * devices[index].sectorSize
      requires at + bytes <= buf.Length
      modifies this`clock, this`log, buf
      ensures clock == old(clock) + 1 && log == old(log) + [Request(index, native, count)]
      ensures ok == answers(old(clock))
      ensures ok ==> buf[at..at + bytes] == Slice(devices[index].content, base, bytes)
      ensures forall i | 0 <= i < buf.Length && !(at <= i < at + bytes) :: buf[i] == old(buf[i])
    {
      var d := devices[index];
      var n, from, t := count * d.sectorSize, native * d.sectorSize, clock;
      ok := answers(t);
      if ok {
        forall i | 0 <= i < n { buf[at + i] := d.content(from + i); }
      } else {
        forall i | 0 <= i < n { buf[at + i] := noise(t, i); }
      }
      clock := clock + 1;
      log := log + [Request(index, native, count)];
    }

    ghost predicate AllAnswer(from: nat, to: nat) {
      forall k | from <= k < to :: answers(k)
    }

    lemma NothingAsked(index: int, bytes: seq<byte>, at: nat, end: nat)
      ensures AllAnswer(clock, clock) && GoodFrom(devices, index, log, |log|) && SameOutside(bytes, bytes, at, end)
    {
    }

    /** One more driver call, and what it wrote. */
    lemma OneMoreAsked(index: int, clock0: nat, t: nat, log0: seq<Request>, asked: seq<Request>, was: seq<byte>,
                       before: seq<byte>, now: seq<byte>, at: nat, end: nat, out: nat, n: nat)
      requires clock0 <= t && clock == t + 1 && AllAnswer(clock0, t)
      requires log0 <= asked <= log && |log| == |asked| + 1 && GoodFrom(devices, index, asked, |log0|)
      requires GoodRequest(devices, index, log[|log| - 1])
      requires SameOutside(was, before, at, end) && SameOutside(before, now, out, out + n)
      requires at <= out && out + n <= end
      ensures AllAnswer(clock0, clock) <==> answers(t)
      ensures GoodFrom(devices, index, log, |log0|) && SameOutside(was, now, at, end)
    {
      hide GoodRequest;
    }

    /** One step of the loop for 512-byte devices. */
    method ReadChunk(index: int, lba: nat, count: nat, buf: array<byte>, out: nat) returns (ok: bool, chunk: nat)
      requires Valid() && 0 < count
      requires out + count * 512 <= buf.Length && buf != bounce
      requires 0 <= index < |devices| && devices[index].sectorSize == 512
      requires devices[index].sectorCount != 0 ==> lba + count <= devices[index].Total()
      modifies this`clock, this`log, buf
      ensures 1 <= chunk <= count
      ensures clock == old(clock) + 1 && ok == answers(old(clock))
      ensures ok ==> buf[out..out + chunk * 512] == Slice(devices[index].content, lba * 512, chunk * 512)
      ensures SameOutside(old(buf[..]), buf[..], out, out + chunk * 512)
      ensures |log| == |old(log)| + 1 && old(log) <= log && GoodRequest(devices, index, log[|log| - 1])
    {
      TotalBound(devices[index]);
      chunk := if count > devices[index].maxCount then devices[index].maxCount else count;
      ok := DeviceRead(index, lba, chunk, buf, out, lba * 512, chunk * 512);
    }

    /** The first `done` sectors are in place. */
    ghost predicate Copied(b: seq<byte>, content: nat -> byte, lba: nat, at: nat, done: nat) {
      at + done * 512 <= |b| && b[at..at + done * 512] == Slice(content, lba * 512, done * 512)
    }

    lemma NothingCopied(b: seq<byte>, content: nat -> byte, lba: nat, at: nat)
      requires at <= |b|
      ensures Copied(b, content, lba, at, 0)
    {
    }

    lemma ChunkAdded(was: seq<byte>, b: seq<byte>, content: nat -> byte, lba: nat, at: nat, done: nat, out: nat,
                     chunk: nat)
      requires Copied(was, content, lba, at, done) && out == at + done * 512 && out + chunk * 512 <= |b|
      requires SameOutside(was, b, out, out + chunk * 512)
      requires b[out..out + chunk * 512] == Slice(content, (lba + done) * 512, chunk * 512)
      ensures Copied(b, content, lba, at, done + chunk)
    {
      SliceConcat(content, lba * 512, done * 512, chunk * 512);
      assert b[at..out] == was[at..out];
      assert b[at..at + (done + chunk) * 512] == b[at..out] + b[out..out + chunk * 512];
    }

    /** The loop for 512-byte devices: chunks of at most maxCount sectors. */
    method ReadWhole(index: int, lba0: nat, count0: nat, buf: array<byte>, at: nat) returns (ok: bool)
      requires Valid() && lba0 < U64 && 0 < count0 < U32
      requires at + count0 * 512 <= buf.Length && buf != bounce
      requires InRange(devices, index, lba0, count0) && devices[index].sectorSize == 512
      modifies this`clock, this`log, buf
      ensures ok <==> AllAnswer(old(clock), clock)
      ensures ok && lba0 + count0 <= U64 ==> Copied(buf[..], devices[index].content, lba0, at, count0)
      ensures SameOutside(old(buf[..]), buf[..], at, at + count0 * 512)
      ensures old(clock) < clock <= old(clock) + count0 && old(log) <= log
      ensures GoodFrom(devices, index, log, |old(log)|)
    {
      hide GoodRequest, Common.Slice, ValidRegistry, Wrap64, Device.Total, Device.Ratio, AllAnswer, GoodFrom,
        SameOutside, Copied;
      ghost var content := devices[index].content;
      KnownDevice(index);
      var lba: nat, count: nat, out: nat := lba0, count0, at;
      ghost var done: nat := 0;
      ok := true;
      ghost var clock0, log0, was := clock, log, buf[..];
      NothingAsked(index, was, at, at + count0 * 512);
      NothingCopied(was, content, lba0, at);
      while count > 0 && ok
        invariant Valid() && devices == old(devices)
        invariant done + count == count0 && out == at + done * 512
        invariant lba0 + count0 <= U64 && count > 0 ==> lba == lba0 + done
        invariant 0 <= lba < U64
        invariant ok && lba0 + count0 <= U64 ==> Copied(buf[..], content, lba0, at, done)
        invariant SameOutside(was, buf[..], at, at + count0 * 512)
        invariant clock0 <= clock <= clock0 + done + (if ok then 0 else 1) && log0 <= log
        invariant clock == clock0 ==> done == 0 && ok
        invariant !ok ==> count > 0
        invariant (ok <==> AllAnswer(clock0, clock)) && GoodFrom(devices, index, log, |log0|)
        decreases count, ok
      {
        ghost var bytes, asked, t := buf[..], log, clock;
        var chunk;
        ok, chunk := ReadChunk(index, lba, count, buf, out);
        OneMoreAsked(index, clock0, t, log0, asked, was, bytes, buf[..], at, at + count0 * 512, out, chunk * 512);
        if ok {
          if lba0 + count0 <= U64 {
            ChunkAdded(bytes, buf[..], content, lba0, at, done, out, chunk);
          }
          WrapBounds(lba + chunk);
          lba := Wrap64(lba + chunk);
          out := out + chunk * 512;
          count := count - chunk;
          done := done + chunk;
        }
      }
    }

    lemma BounceRange(index: int, native: nat, offset: nat, take: nat, lba: nat)
      requires Valid() && 0 <= index < |devices|
      requires offset + take <= devices[index].Ratio() && lba == native * devices[index].Ratio() + offset
      ensures var d := devices[index];
              && native * d.sectorSize + offset * 512 == lba * 512 && 1 * d.sectorSize == d.sectorSize
              && offset * 512 + take * 512 <= d.sectorSize <= BOUNCE_SIZE
    {
      var d := devices[index];
      TotalBound(d);
      Scale(d.Ratio(), native, 1, lba - offset);
    }

    /** The ragged-end branch: one native sector goes through the bounce buffer. */
    method ReadBounced(index: int, native: nat, offset: nat, take: nat, buf: array<byte>, out: nat, ghost lba: nat)
      returns (ok: bool)
      requires Valid() && 0 <= index < |devices|
      requires buf != bounce && out + take * 512 <= buf.Length
      requires offset + take <= devices[index].Ratio()
      requires lba == native * devices[index].Ratio() + offset
      modifies this`clock, this`log, bounce, buf
      ensures clock == old(clock) + 1 && log == old(log) + [Request(index, native, 1)]
      ensures ok == answers(old(clock))
      ensures ok ==> buf[out..out + take * 512] == Slice(devices[index].content, lba * 512, take * 512)
      ensures forall i | 0 <= i < buf.Length && !(out <= i < out + take * 512) :: buf[i] == old(buf[i])
    {
      ghost var d := devices[index];
      ghost var base := native * d.sectorSize;
      BounceRange(index, native, offset, take, lba);
      ok := DeviceRead(index, native, 1, bounce, 0, base, d.sectorSize);
      if ok {
        PartOf(bounce[..], d.content, base, d.sectorSize, offset * 512, offset * 512 + take * 512);
        CopyBytes(bounce, offset * 512, buf, out, take * 512);
      }
    }

    /** One step of the loop for larger native sectors; `take` is the number of 512-byte sectors delivered. */
    method ReadStep(index: int, lba: nat, count: nat, buf: array<byte>, out: nat) returns (ok: bool, take: nat)
      requires Valid() && lba < U64 && 0 < count < U32
      requires out + count * 512 <= buf.Length && buf != bounce
      requires 0 <= index < |devices|
      requires devices[index].sectorCount != 0 ==> lba + count <= devices[index].Total()
      modifies this`clock, this`log, bounce, buf
      ensures 1 <= take <= count
      ensures clock == old(clock) + 1 && ok == answers(old(clock))
      ensures ok ==> buf[out..out + take * 512] == Slice(devices[index].content, lba * 512, take * 512)
      ensures SameOutside(old(buf[..]), buf[..], out, out + take * 512)
      ensures |log| == |old(log)| + 1 && old(log) <= log && GoodRequest(devices, index, log[|log| - 1])
    {
      var d := devices[index];
      TotalBound(d);
      var ratio := d.sectorSize / 512;
      var native, offset := lba / ratio, lba % ratio;
      SplitLba(ratio, lba);
      if offset == 0 && count >= ratio {
        var whole := count / ratio;
        if whole > d.maxCount {
          whole := d.maxCount;
        }
        WholeBound(ratio, whole, count);
        if d.sectorCount != 0 {
          NativeInside(ratio, native, whole, d.sectorCount, d.Total());
        }
        Scale(ratio, native, whole, lba);
        take := whole * ratio;
        ok := DeviceRead(index, native, whole, buf, out, lba * 512, take * 512);
      } else {
        if d.sectorCount != 0 {
          NativeInside(ratio, native, 1, d.sectorCount, d.Total());
        }
        take := ratio - offset;
        if take > count {
          take := count;
        }
        ok := ReadBounced(index, native, offset, take, buf, out, lba);
      }
    }

    /** The loop for native sectors of 1024, 2048 or 4096 bytes. */
    method ReadRatio(index: int, lba0: nat, count0: nat, buf: array<byte>, at: nat) returns (ok: bool)
      requires Valid() && lba0 < U64 && 0 < count0 < U32
      requires at + count0 * 512 <= buf.Length && buf != bounce
      requires InRange(devices, index, lba0, count0)
      modifies this`clock, this`log, bounce, buf
      ensures ok <==> AllAnswer(old(clock), clock)
      ensures ok && lba0 + count0 <= U64 ==> Copied(buf[..], devices[index].content, lba0, at, count0)
      ensures SameOutside(old(buf[..]), buf[..], at, at + count0 * 512)
      ensures old(clock) < clock <= old(clock) + count0 && old(log) <= log
      ensures GoodFrom(devices, index, log, |old(log)|)
    {
      hide GoodRequest, Common.Slice, ValidRegistry, Wrap64, Device.Total, Device.Ratio, AllAnswer, GoodFrom,
        SameOutside, Copied;
      ghost var content := devices[index].content;
      KnownDevice(index);
      var lba: nat, count: nat, out: nat := lba0, count0, at;
      ghost var done: nat := 0;
      ok := true;
      ghost var clock0, log0, was := clock, log, buf[..];
      NothingAsked(index, was, at, at + count0 * 512);
      NothingCopied(was, content, lba0, at);
      while count > 0 && ok
        invariant Valid() && devices == old(devices)
        invariant done + count == count0 && out == at + done * 512
        invariant lba0 + count0 <= U64 && count > 0 ==> lba == lba0 + done
        invariant 0 <= lba < U64
        invariant ok && lba0 + count0 <= U64 ==> Copied(buf[..], content, lba0, at, done)
        invariant SameOutside(was, buf[..], at, at + count0 * 512)
        invariant clock0 <= clock <= clock0 + done + (if ok then 0 else 1) && log0 <= log
        invariant clock == clock0 ==> done == 0 && ok
        invariant !ok ==> count > 0
        invariant (ok <==> AllAnswer(clock0, clock)) && GoodFrom(devices, index, log, |log0|)
        decreases count, ok
      {
        ghost var bytes, asked, t := buf[..], log, clock;
        var take;
        ok, take := ReadStep(index, lba, count, buf, out);
        OneMoreAsked(index, clock0, t, log0, asked, was, bytes, buf[..], at, at + count0 * 512, out, take * 512);
        if ok {
          if lba0 + count0 <= U64 {
            ChunkAdded(bytes, buf[..], content, lba0, at, done, out, take);
          }
          WrapBounds(lba + take);
          lba := Wrap64(lba + take);
          out := out + take * 512;
          count := count - take;
          done := done + take;
        }
      }
    }

    /** BlockReadFrom. The output pointer is `buf` at offset `at`. */
    method ReadFrom(index: int, lba: nat, count: nat, buf: array?<byte>, at: nat) returns (ok: bool)
      requires Valid() && lba < U64 && count < U32
      requires buf != null ==> at + count * 512 <= buf.Length && buf != bounce
      modifies this`clock, this`log, this`failed, this`lost, bounce, buf
      ensures ok <==> && buf != null && InRange(devices, index, lba, count)
                      && forall k | old(clock) <= k < clock :: answers(k)
      ensures ok && count > 0 && lba + count <= U64 ==>
                buf[at..at + count * 512] == Slice(devices[index].content, lba * 512, count * 512)
      ensures buf != null ==> forall i | 0 <= i < buf.Length && !(at <= i < at + count * 512) ::
                buf[i] == old(buf[i])
      ensures !InRange(devices, index, lba, count) ==> log == old(log) && (buf != null ==> buf[..] == old(buf[..]))
      ensures old(clock) <= clock && old(log) <= log
      ensures buf != null && InRange(devices, index, lba, count) && count > 0 ==>
                old(clock) < clock <= old(clock) + count
      ensures forall k | |old(log)| <= k < |log| :: GoodRequest(devices, index, log[k])
      ensures failed == old(failed) + if ok then 0 else 1
      ensures lost == old(lost) + if ok || buf == null || !InRange(devices, index, lba, count) then 0 else 1
      ensures old(Answering()) ==>
                Answering() && lost == old(lost) && (ok <==> buf != null && InRange(devices, index, lba, count))
    {
      failed := failed + 1;
      if index < 0 || index >= |devices| || buf == null {
        return false;
      }
      var d := devices[index];
      if !d.online {
        return false;
      }
      if count == 0 {
        failed := failed - 1;
        return true;
      }
      var ratio := d.sectorSize / 512;
      TotalBound(d);
      if d.sectorCount != 0 {
        var total := d.sectorCount * ratio % U64;
        if lba >= total || count > total - lba {
          return false;
        }
      }
      if ratio == 1 {
        ok := ReadWhole(index, lba, count, buf, at);
      } else {
        ok := ReadRatio(index, lba, count, buf, at);
      }
      if ok {
        failed := failed - 1;
      } else {
        lost := lost + 1;
      }
    }

    /** BlockFind: the first, and by Valid() the only, device of that name. */
    method Find(name: string) returns (r: int)
      requires Valid()
      ensures r >= 0 ==> r < |devices| && devices[r].name == name
      ensures r < 0 <==> !Taken(devices, name)
    {
      for i := 0 to |devices|
        invariant forall k | 0 <= k < i :: devices[k].name != name
      {
        if devices[i].name == name {
          return i;
        }
      }
      return -1;
    }

    method AddDevice(name: string, hasDriver: bool, sectorSize: nat, sectorCount: nat, maxCount: nat,
                     content: nat -> byte)
      returns (r: int)
      requires Valid() && NoNul(name) && sectorCount < U64 && maxCount < U32
      modifies this`devices
      ensures Valid() && Extends(old(devices), devices)
      ensures r < 0 <==> || old(|devices|) == MAX_BLOCK_DEVICES || name == "" || !hasDriver
                         || !ValidSectorSize(sectorSize) || old(Taken(devices, FieldName(name)))
      ensures r < 0 ==> devices == old(devices)
      ensures r >= 0 ==> && r == old(|devices|) && |devices| == r + 1
                         && devices[r] == Device(FieldName(name), sectorSize, sectorCount,
                                                 if maxCount != 0 then maxCount
                                                 else if sectorSize == 512 then LEGACY_MAX_COUNT else 1,
                                                 true, content)
    {
      if |devices| >= MAX_BLOCK_DEVICES || name == "" || !hasDriver {
        return -1;
      }
      if !ValidSectorSize(sectorSize) {
        return -1;
      }
      var local := FieldName(name);
      var found := Find(local);
      if found >= 0 {
        return -1;
      }
      var count := if maxCount == 0 then if sectorSize == 512 then LEGACY_MAX_COUNT else 1 else maxCount;
      r := |devices|;
      devices := devices + [Device(local, sectorSize, sectorCount, count, true, content)];
    }

    /** BlockRegisterNext: the lowest number below 100 whose name is free. */
    method RegisterNext(prefix: string, sectorSize: nat, sectorCount: nat, maxCount: nat, content: nat -> byte)
      returns (r: int, ghost number: nat)
      requires Valid() && NoNul(prefix) && sectorCount < U64 && maxCount < U32
      modifies this`devices
      ensures Valid() && Extends(old(devices), devices)
      ensures r >= 0 ==> && prefix != "" && number < 100
                         && r == old(|devices|) && |devices| == r + 1
                         && devices[r] == Device(NumberedName(prefix, number), sectorSize, sectorCount,
                                                 if maxCount != 0 then maxCount
                                                 else if sectorSize == 512 then LEGACY_MAX_COUNT else 1,
                                                 true, content)
                         && (forall n: nat | n < number :: old(Taken(devices, NumberedName(prefix, n))))
      ensures r < 0 ==> devices == old(devices)
      ensures r < 0 <==> || prefix == "" || old(|devices|) == MAX_BLOCK_DEVICES || !ValidSectorSize(sectorSize)
                         || (forall n: nat | n < 100 :: old(Taken(devices, NumberedName(prefix, n))))
    {
      number := 0;
      if prefix == "" {
        return -1, 0;
      }
      var base := if |prefix| < NAME_SIZE - 4 then prefix else prefix[..NAME_SIZE - 4];
      for n := 0 to 100
        invariant devices == old(devices)
        invariant forall k: nat | k < n :: Taken(devices, NumberedName(prefix, k))
      {
        var name := base;
        if n >= 10 {
          name := name + [Digit(n / 10)];
        }
        name := name + [Digit(n % 10)];
        assert Decimal(n) == if n < 10 then [Digit(n)] else [Digit(n / 10)] + [Digit(n % 10)];
        assert name == NumberedName(prefix, n);
        assert NoNul(Decimal(n));
        var found := Find(name);
        if found < 0 {
          r := AddDevice(name, true, sectorSize, sectorCount, maxCount, content);
          return r, n;
        }
      }
      return -1, 100;
    }

    /** BlockRemove only takes the device offline: its name stays taken. */
    method Remove(index: int) returns (ok: bool)
      requires Valid()
      modifies this`devices
      ensures Valid() && Extends(old(devices), devices) && |devices| == old(|devices|)
      ensures ok <==> 0 <= index < old(|devices|)
      ensures forall i | 0 <= i < |devices| :: devices[i].online == (old(devices[i].online) && i != index)
    {
      if index < 0 || index >= |devices| {
        return false;
      }
      devices := devices[index := devices[index].(online := false)];
      return true;
    }
  }
}
