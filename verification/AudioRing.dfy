/** kernel/hda.c, lines 660-820: the ring of 32 pages that feeds the sound hardware. */
module AudioRing {
  import opened Common
  import Pmm

  const PLAY_PAGES := 32
  const PAGE_FRAMES := 1024
  const PAGE_BYTES := 4096

  /** One output frame: a left and a right 16-bit sample. */
  datatype Stereo = Stereo(left: int, right: int)

  const SILENCE := Stereo(0, 0)

  datatype Status = Ok | Unavailable | BadRate | NoMemory

  /** The rates FormatForRate has a format for. */
  predicate KnownRate(rate: nat) {
    rate in {8000, 11025, 12000, 16000, 22050, 24000, 32000, 44100, 48000, 88200, 96000, 176400, 192000}
  }

  function Slot(n: nat): (s: nat)
    ensures s < PLAY_PAGES
  {
    n % PLAY_PAGES
  }

  /** 32-bit wrap-around. */
  function Wrap(n: nat): (w: nat)
    ensures w < U32
  {
    n % U32
  }

  lemma SlotsDiffer(i: nat, j: nat)
    requires i < j < i + PLAY_PAGES
    ensures Slot(i) != Slot(j)
  {
  }

  /** Two numbers in one slot are at least a lap apart. */
  lemma SameSlot(i: nat, j: nat)
    requires i < j && Slot(i) == Slot(j)
    ensures i + PLAY_PAGES <= j
  {
  }

  lemma SameSlotBelow(j: nat)
    ensures forall i: nat | i < j && Slot(i) == Slot(j) :: i + PLAY_PAGES <= j
  {
    forall i: nat | i < j && Slot(i) == Slot(j)
      ensures i + PLAY_PAGES <= j
    {
      SameSlot(i, j);
    }
  }

  // ---- recovering the play position ----

  /** The page a position register stands for; a register past the ring counts as its last page. */
  function PageOf(lpib: nat): (p: nat)
    ensures p < PLAY_PAGES
  {
    if lpib / PAGE_BYTES >= PLAY_PAGES then PLAY_PAGES - 1 else lpib / PAGE_BYTES
  }

  /** How far the hardware has moved between two readings, as far as the readings tell. */
  function Advance(last: nat, hw: nat): (d: nat)
    requires last < PLAY_PAGES && hw < PLAY_PAGES
    ensures d < PLAY_PAGES
  {
    (hw + PLAY_PAGES - last) % PLAY_PAGES
  }

  /** The total UpdatePlayPosition arrives at when the hardware's true page counts at its readings are `seen`. */
  function Recovered(seen: seq<nat>): nat {
    if |seen| <= 1 then 0
    else Recovered(seen[..|seen| - 1]) + Advance(Slot(seen[|seen| - 2]), Slot(seen[|seen| - 1]))
  }

  ghost predicate Rising(seen: seq<nat>) {
    && |seen| > 0 && seen[0] == 0
    && forall i, j | 0 <= i <= j < |seen| :: seen[i] <= seen[j]
  }

  /** Fewer than 32 pages are played between any two consecutive readings. */
  ghost predicate Closely(seen: seq<nat>) {
    forall i | 1 <= i < |seen| :: seen[i] < seen[i - 1] + PLAY_PAGES
  }

  lemma AdvanceIsRemainder(last: nat, now: nat)
    requires last <= now
    ensures Advance(Slot(last), Slot(now)) == (now - last) % PLAY_PAGES
  {
  }

  /** The recovered total never runs ahead of the hardware, and what it lags is whole laps. */
  lemma {:induction false} RecoveredBelow(seen: seq<nat>)
    requires Rising(seen)
    ensures Recovered(seen) <= seen[|seen| - 1]
    ensures Slot(Recovered(seen)) == Slot(seen[|seen| - 1])
  {
    if |seen| > 1 {
      var front, last, now := seen[..|seen| - 1], seen[|seen| - 2], seen[|seen| - 1];
      RecoveredBelow(front);
      AdvanceIsRemainder(last, now);
      LapArithmetic(Recovered(front), last, now);
    }
  }

  lemma LapArithmetic(total: nat, last: nat, now: nat)
    requires total <= last <= now && Slot(total) == Slot(last)
    ensures Slot(total + (now - last) % PLAY_PAGES) == Slot(now) && total + (now - last) % PLAY_PAGES <= now
    ensures total + (now - last) % PLAY_PAGES == now <==> total == last && now < last + PLAY_PAGES
  {
    var j, d := (now - last) / PLAY_PAGES, (now - last) % PLAY_PAGES;
    var r, a, b := Slot(total), total / PLAY_PAGES, last / PLAY_PAGES;
    assert now == last + j * PLAY_PAGES + d && total == a * PLAY_PAGES + r && last == b * PLAY_PAGES + r;
    SameRemainder(a, b + j, r + d);
  }

  lemma SameRemainder(a: nat, b: nat, r: nat)
    ensures Slot(a * PLAY_PAGES + r) == Slot(b * PLAY_PAGES + r)
  {
  }

  lemma CloselyMore(seen: seq<nat>)
    requires |seen| > 1
    ensures Closely(seen) <==> Closely(seen[..|seen| - 1]) && seen[|seen| - 1] < seen[|seen| - 2] + PLAY_PAGES
  {
    var front, n := seen[..|seen| - 1], |seen| - 1;
    if Closely(seen) {
      assert seen[n] < seen[n - 1] + PLAY_PAGES;
    }
    if Closely(front) && seen[n] < seen[n - 1] + PLAY_PAGES {
      forall i | 1 <= i < |seen|
        ensures seen[i] < seen[i - 1] + PLAY_PAGES
      {
        assert i < n ==> front[i] == seen[i] && front[i - 1] == seen[i - 1];
      }
    }
  }

  /** One more reading. */
  lemma SeenMore(seen: seq<nat>, now: nat)
    requires Rising(seen) && seen[|seen| - 1] <= now
    ensures Rising(seen + [now])
    ensures Recovered(seen + [now]) == Recovered(seen) + Advance(Slot(seen[|seen| - 1]), Slot(now))
  {
    assert (seen + [now])[..|seen|] == seen;
  }

  /** It is exact if and only if fewer than 32 pages went by between any two readings. */
  lemma {:induction false} RecoveredExact(seen: seq<nat>)
    requires Rising(seen)
    ensures Recovered(seen) == seen[|seen| - 1] <==> Closely(seen)
  {
    if |seen| > 1 {
      var front, last, now := seen[..|seen| - 1], seen[|seen| - 2], seen[|seen| - 1];
      RecoveredExact(front);
      RecoveredBelow(front);
      AdvanceIsRemainder(last, now);
      LapArithmetic(Recovered(front), last, now);
      CloselyMore(seen);
    }
  }

  /** A whole lap between two readings goes unnoticed. */
  lemma LapIsLost()
    ensures Rising([0, 32]) && Recovered([0, 32]) == 0
  {
    assert [0, 32][..1] == [0];
  }

  // ---- the pages ----

  function PageSet(addrs: seq<nat>): set<nat> {
    if addrs == [] then {} else PageSet(addrs[..|addrs| - 1]) + {addrs[|addrs| - 1] / Pmm.PAGE_SIZE}
  }

  lemma PageSetMore(addrs: seq<nat>, i: nat)
    requires i < |addrs|
    ensures PageSet(addrs[..i + 1]) == PageSet(addrs[..i]) + {addrs[i] / Pmm.PAGE_SIZE}
  {
    assert addrs[..i + 1][..i] == addrs[..i];
  }

  lemma PageSetSnoc(addrs: seq<nat>, addr: nat)
    ensures PageSet(addrs + [addr]) == PageSet(addrs) + {addr / Pmm.PAGE_SIZE}
  {
    PageSetMore(addrs + [addr], |addrs|);
    assert (addrs + [addr])[..|addrs|] == addrs && (addrs + [addr])[..|addrs| + 1] == addrs + [addr];
  }

  lemma PageSetNone(addrs: seq<nat>)
    ensures PageSet(addrs[..0]) == {}
  {
  }

  lemma {:induction false} PageSetMember(addrs: seq<nat>, i: nat)
    requires i < |addrs|
    ensures addrs[i] / Pmm.PAGE_SIZE in PageSet(addrs)
  {
    if i < |addrs| - 1 {
      PageSetMember(addrs[..|addrs| - 1], i);
    }
  }

  lemma {:induction false} PageSetSize(addrs: seq<nat>)
    ensures |PageSet(addrs)| <= |addrs|
  {
    if addrs != [] {
      PageSetSize(addrs[..|addrs| - 1]);
    }
  }

  /** If all pages differ, page `i` is none of those before it. */
  lemma {:induction false} PageSetFresh(addrs: seq<nat>, i: nat)
    requires i < |addrs| && |PageSet(addrs)| == |addrs|
    ensures addrs[i] / Pmm.PAGE_SIZE !in PageSet(addrs[..i])
  {
    var front := addrs[..|addrs| - 1];
    PageSetSize(front);
    if i < |addrs| - 1 {
      PageSetFresh(front, i);
      assert front[..i] == addrs[..i];
    }
  }

  /** The free pages below 4 GiB. */
  ghost function Low(free: set<nat>): set<nat> {
    set p | p in free && p < Pmm.PAGES_BELOW_4G
  }

  lemma LowTaken(free: set<nat>, p: nat)
    requires p in free && p < Pmm.PAGES_BELOW_4G
    ensures |Low(free - {p})| == |Low(free)| - 1
  {
    assert Low(free - {p}) == Low(free) - {p};
  }

  lemma LowEmpty(free: set<nat>)
    ensures (forall p :: p in free ==> Pmm.PAGES_BELOW_4G <= p) <==> |Low(free)| == 0
  {
    if |Low(free)| == 0 {
      assert Low(free) == {};
      forall p | p in free
        ensures Pmm.PAGES_BELOW_4G <= p
      {
        assert p !in Low(free);
      }
    } else {
      assert exists p :: p in Low(free);
    }
  }

  /** An address the 32-bit descriptors can hold. */
  predicate Fits32(addr: nat) {
    0 < addr < U32
  }

  /** What was in a page's place when the hardware came to it, and whether the page was committed by then. */
  datatype Arrival = Arrival(page: seq<Stereo>, ready: bool)

  ghost predicate OnTime(commits: seq<nat>) {
    forall n | 0 <= n < |commits| :: commits[n] <= n
  }

  lemma OnTimeMore(commits: seq<nat>, c: nat)
    ensures OnTime(commits + [c]) <==> OnTime(commits) && c <= |commits|
  {
    assert forall n | 0 <= n < |commits| :: (commits + [c])[n] == commits[n];
    assert (commits + [c])[|commits|] == c;
  }

  /**
   * A page the hardware came to was ready if and only if it was not committed late, and then it was in place. When
   * the page committed n-th was committed the hardware had come to `commits[n]` pages.
   */
  ghost predicate Recorded(entered: seq<Arrival>, committed: seq<seq<Stereo>>, commits: seq<nat>) {
    && |commits| == |committed| && (forall n | 0 <= n < |commits| :: commits[n] <= |entered|)
    && (forall n | 0 <= n < |entered| && n < |committed| ::
          (entered[n].ready <==> commits[n] <= n) && (entered[n].ready ==> entered[n].page == committed[n]))
    && forall n | |committed| <= n < |entered| :: !entered[n].ready
  }

  class Ring {
    const pmm: Pmm.Allocator
    const streamOk: bool
    /** What the position register shows at the k-th moment. */
    const registers: nat -> nat
    /** How many pages the hardware has played, at the k-th moment, since the stream started at moment `epoch`. */
    ghost const truth: (nat, nat) -> nat
    /** The 32 pages, one after the other, and the buffer descriptor list. */
    const memory: array<Stereo>
    const descriptors: array<nat>
    var havePages: bool
    var bdl: nat
    var pages: seq<nat>
    var active: bool
    var started: bool
    var filled: nat
    var hwTotal: nat
    var lastHw: nat
    /** Moments so far: register reads, and commits while the hardware runs. */
    var clock: nat
    /** hwTotal without its 32-bit wrap-around, the true counts at each reading, and what was committed. */
    ghost var total: nat
    ghost var seen: seq<nat>
    ghost var epoch: nat
    ghost var committed: seq<seq<Stereo>>
    /** How many pages the hardware had come to when each page was committed, and what it found in each of them. */
    ghost var commits: seq<nat>
    ghost var entered: seq<Arrival>
    /** A page has been handed out and not yet committed. */
    ghost var lent: bool

    /** The registers show the hardware's position in the ring, which only moves forward. */
    ghost predicate Faithful()
      reads this`epoch
    {
      && (forall k | epoch <= k :: PageOf(registers(k)) == Slot(truth(epoch, k)))
      && forall j, k | epoch <= j <= k :: truth(epoch, j) <= truth(epoch, k)
    }

    /** The hardware's page count at the last reading. */
    ghost function Truth(): nat
      reads this`seen
    {
      if seen == [] then 0 else seen[|seen| - 1]
    }

    /** That reading was made at moment `since` or later. */
    ghost predicate ReadSince(since: nat)
      reads this`seen, this`epoch
    {
      exists k :: since <= k && Truth() == truth(epoch, k)
    }

    /** The play position is short of wrapping its 32 bits. */
    ghost predicate InBounds()
      reads this`total
    {
      total + PLAY_PAGES < U32
    }

    function PageAt(slot: nat): (p: seq<Stereo>)
      requires slot < PLAY_PAGES && memory.Length == PLAY_PAGES * PAGE_FRAMES
      reads memory
      ensures |p| == PAGE_FRAMES
    {
      memory[slot * PAGE_FRAMES..slot * PAGE_FRAMES + PAGE_FRAMES]
    }

    /** Every committed page from number `from` on is still in memory, untouched. */
    ghost predicate Kept(from: nat)
      requires memory.Length == PLAY_PAGES * PAGE_FRAMES
      reads this`filled, this`committed, memory
    {
      && |committed| == filled <= from + PLAY_PAGES
      && forall n: nat | from <= n < filled :: PageAt(Slot(n)) == committed[n]
    }

    lemma KeptLater(from: nat, later: nat)
      requires memory.Length == PLAY_PAGES * PAGE_FRAMES && Kept(from) && from <= later
      ensures Kept(later)
    {
    }

    ghost predicate Tracking()
      reads this`seen, this`epoch, this`clock, this`total, this`lastHw, this`entered
    {
      && Rising(seen) && epoch <= clock
      && total == Recovered(seen) && lastHw == Slot(seen[|seen| - 1])
      && |entered| == (if epoch == clock then 0 else truth(epoch, clock - 1) + 1)
      && (|seen| > 1 ==> seen[|seen| - 1] < |entered|)
    }

    /** What the hardware has found once it has come to `count` pages. */
    ghost function EnteredTo(count: nat): (p: seq<Arrival>)
      requires memory.Length == PLAY_PAGES * PAGE_FRAMES
      reads this`entered, this`committed, memory
      ensures |p| == if count <= |entered| then |entered| else count
      ensures forall n | 0 <= n < |p| ::
                p[n] == if n < |entered| then entered[n] else Arrival(PageAt(Slot(n)), n < |committed|)
    {
      if count <= |entered| then entered
      else EnteredTo(count - 1) + [Arrival(PageAt(Slot(count - 1)), count - 1 < |committed|)]
    }

    /** The hardware came to page `n` when it was committed, found it in place, and has left it since. */
    ghost predicate Heard(n: nat)
      requires n < |committed|
      reads this`entered, this`committed
    {
      n + 1 < |entered| && entered[n].ready && entered[n].page == committed[n]
    }

    ghost predicate AllHeard()
      reads this`entered, this`committed
    {
      forall n | 0 <= n < |committed| :: Heard(n)
    }

    /** Every page was committed before the hardware came to its place. */
    ghost predicate NoneLate()
      reads this`commits
    {
      OnTime(commits)
    }

    /** Once the hardware has left the last page, all were heard if and only if none was late. */
    lemma HeardIffNoneLate()
      requires Valid() && Faithful() && InBounds() && (|committed| < |entered| || committed == [])
      ensures AllHeard() <==> NoneLate()
    {
      if AllHeard() {
        forall n | 0 <= n < |commits|
          ensures commits[n] <= n
        {
          assert Heard(n);
        }
      }
    }

    /** The hardware moves on while every committed page from `from` on is in place. */
    lemma RecordedTo(from: nat, count: nat)
      requires memory.Length == PLAY_PAGES * PAGE_FRAMES && Kept(from) && from <= |entered|
      requires Recorded(entered, committed, commits)
      ensures Recorded(EnteredTo(count), committed, commits)
    {
    }

    lemma RecordedNothing()
      ensures Recorded([], [], [])
    {
    }

    /** One more page is committed. */
    lemma RecordedMore(page: seq<Stereo>)
      requires Recorded(entered, committed, commits)
      ensures Recorded(entered, committed + [page], commits + [|entered|])
    {
    }

    ghost predicate Shape()
      reads this`havePages, this`pages, this`active, this`started, this`lent
    {
      && memory.Length == PLAY_PAGES * PAGE_FRAMES && descriptors.Length == PLAY_PAGES * 4
      && (havePages ==> |pages| == PLAY_PAGES && forall i | 0 <= i < PLAY_PAGES :: Fits32(pages[i]))
      && (active ==> havePages) && (started ==> active) && (lent ==> active)
    }

    /** Each of the 32 descriptors points the hardware at its page. */
    ghost predicate Described()
      reads this`pages, descriptors
    {
      && descriptors.Length == PLAY_PAGES * 4 && |pages| == PLAY_PAGES
      && forall i | 0 <= i < PLAY_PAGES ::
           && descriptors[i * 4] == pages[i] && descriptors[i * 4 + 1] == 0
           && descriptors[i * 4 + 2] == 4096 && descriptors[i * 4 + 3] == 0
    }

    ghost predicate Silent()
      reads memory
    {
      forall k | 0 <= k < memory.Length :: memory[k] == Stereo(0, 0)
    }

    ghost predicate Valid()
      reads this, memory, descriptors
    {
      && Shape() && (active ==> Described())
      && filled < U32 && hwTotal == Wrap(total) && lastHw < PLAY_PAGES
      && (active && !started ==> total == 0 && entered == [] && Recorded(entered, committed, commits))
      && (active && InBounds() ==> Kept(total))
      && (lent && InBounds() ==> filled < total + PLAY_PAGES)
      && (started && Faithful() ==> Tracking())
      && (Faithful() && InBounds() ==> Recorded(entered, committed, commits))
    }

    lemma PagesDescribed()
      requires Valid() && active
      ensures Described()
    {
    }

    constructor (pmm: Pmm.Allocator, streamOk: bool, registers: nat -> nat, ghost truth: (nat, nat) -> nat)
      ensures Valid() && fresh(memory) && fresh(descriptors) && !active && !havePages && clock == 0
      ensures this.pmm == pmm && this.streamOk == streamOk && this.registers == registers && this.truth == truth
    {
      this.pmm, this.streamOk, this.registers, this.truth := pmm, streamOk, registers, truth;
      memory := new Stereo[PLAY_PAGES * PAGE_FRAMES](_ => SILENCE);
      descriptors := new nat[PLAY_PAGES * 4](_ => 0);
      havePages, bdl, pages, active, started := false, 0, [], false, false;
      filled, hwTotal, lastHw, clock := 0, 0, 0, 0;
      total, seen, epoch, committed, lent, commits, entered := 0, [0], 0, [], false, [], [];
    }

    /** The next moment, as Faithful describes it. */
    lemma NextMoment()
      requires Tracking() && Faithful()
      ensures truth(epoch, clock) + 1 >= |entered| >= total && epoch <= clock
      ensures PageOf(registers(clock)) == Slot(truth(epoch, clock))
    {
      RecoveredBelow(seen);
    }

    /** The hardware moves on by itself. */
    method Moment()
      requires Valid() && started
      modifies this`entered, this`clock
      ensures Valid() && clock == old(clock) + 1
      ensures Faithful() ==> && |entered| == truth(epoch, old(clock)) + 1
                             && PageOf(registers(old(clock))) == Slot(truth(epoch, old(clock)))
    {
      hide Recovered, Rising, Slot, PageOf, PageAt, Faithful, Kept, Wrap, Recorded, Shape;
      ShapeFacts();
      ghost var now := truth(epoch, clock);
      if Faithful() {
        NextMoment();
        if InBounds() {
          RecordedTo(total, now + 1);
        }
      }
      entered := EnteredTo(now + 1);
      clock := clock + 1;
    }

    /** UpdatePlayPosition. */
    method UpdatePosition()
      requires Valid()
      modifies this`hwTotal, this`lastHw, this`clock, this`total, this`seen, this`entered
      ensures Valid() && total >= old(total) && clock >= old(clock)
      ensures !started ==> total == old(total) && seen == old(seen)
      ensures started ==> seen == old(seen) + [truth(epoch, old(clock))]
    {
      hide Recovered, Rising, Slot, Advance, PageAt, Faithful, Kept, Wrap, Recorded;
      if started {
        var hw := PageOf(registers(clock));
        ghost var now := truth(epoch, clock);
        Moment();
        AdvanceRange(lastHw, hw);
        MoveTo(hw, Advance(lastHw, hw), now);
      }
    }

    lemma AdvanceRange(last: nat, hw: nat)
      requires last < PLAY_PAGES && hw < PLAY_PAGES
      ensures Advance(last, hw) < PLAY_PAGES
    {
    }

    /** The two assignments of UpdatePlayPosition, for a reading that shows the true count `now`. */
    method MoveTo(hw: nat, advance: nat, ghost now: nat)
      requires Valid() && started && hw < PLAY_PAGES && advance == Advance(lastHw, hw)
      requires Faithful() ==> hw == Slot(now) && |entered| == now + 1
      modifies this`hwTotal, this`lastHw, this`total, this`seen
      ensures Valid() && total == old(total) + advance && seen == old(seen) + [now]
    {
      hide Recovered, Rising, Slot, PageOf, Advance, PageAt, Faithful, Kept, Wrap, Fits32, Tracking, Shape, Recorded;
      ShapeFacts();
      WrapTogether(total, advance);
      if active && InBounds() {
        KeptLater(total, total + advance);
      }
      ghost var faithful := Faithful();
      if faithful {
        TrackingMore(now, hw);
      }
      hwTotal, lastHw := Wrap(hwTotal + advance), hw;
      total, seen := total + advance, seen + [now];
      if faithful {
        TrackingAfter(now);
      }
    }

    lemma TrackingMore(now: nat, hw: nat)
      requires Tracking() && hw == Slot(now) && |entered| == now + 1
      ensures Rising(seen + [now]) && Recovered(seen + [now]) == total + Advance(lastHw, hw)
      ensures seen != [] && epoch < clock && now == truth(epoch, clock - 1)
    {
      SeenMore(seen, now);
    }

    lemma ShapeFacts()
      requires Shape()
      ensures memory.Length == PLAY_PAGES * PAGE_FRAMES && (started ==> active) && (lent ==> active)
    {
    }

    lemma TrackingAfter(now: nat)
      requires |seen| > 1 && seen[|seen| - 1] == now && Rising(seen) && total == Recovered(seen) && lastHw == Slot(now)
      requires epoch < clock && now + 1 == |entered| == truth(epoch, clock - 1) + 1
      ensures Tracking()
    {
    }

    lemma WrapSmall(a: nat)
      ensures a < U32 ==> Wrap(a) == a
      ensures Wrap(a) <= a
      ensures Wrap(a) < U32
    {
    }

    lemma WrapTogether(a: nat, d: nat)
      ensures Wrap(Wrap(a) + d) == Wrap(a + d)
    {
    }

    lemma FilledBound()
      requires Valid() && active
      ensures InBounds() ==> filled <= total + PLAY_PAGES
    {
    }

    /**
     * HdaStreamNextPage: the slot to fill next, unless all 32 pages are committed and not yet played. Whatever was
     * committed in that slot before, the hardware has passed it.
     */
    method NextPage() returns (slot: Option<nat>)
      requires Valid()
      modifies this`hwTotal, this`lastHw, this`clock, this`total, this`seen, this`entered, this`lent
      ensures Valid() && total >= old(total) && clock >= old(clock)
      ensures started ==> seen == old(seen) + [truth(epoch, old(clock))]
      ensures !started ==> total == old(total) && seen == old(seen)
      ensures started ==> ReadSince(old(clock))
      ensures slot.Some? ==> active && slot.value == Slot(filled) && lent
      ensures active && InBounds() ==> (slot.None? <==> filled == total + PLAY_PAGES)
      ensures slot.Some? && InBounds() ==> forall n: nat | n < filled && Slot(n) == slot.value :: n < total
      ensures started && Faithful() ==> total <= truth(epoch, old(clock))
      ensures slot.Some? && InBounds() && started && Faithful() ==>
                forall n: nat | n < filled && Slot(n) == slot.value :: n < truth(epoch, old(clock))
    {
      hide Recovered, Rising, Slot, Faithful, PageAt, Closely, Kept, Wrap, Recorded;
      slot := None;
      if active {
        UpdatePosition();
        FilledBound();
        if started && Faithful() {
          TrackingBelow();
        }
        WrapSmall(total);
        WrapSmall(hwTotal + PLAY_PAGES);
        if filled < Wrap(hwTotal + PLAY_PAGES) {
          SameSlotBelow(filled);
          slot, lent := Some(Slot(filled)), true;
        }
      }
    }

    /** A store through the pointer HdaStreamNextPage returned. */
    method Put(i: nat, f: Stereo)
      requires Valid() && lent && i < PAGE_FRAMES
      modifies memory
      ensures Valid() && PageAt(Slot(filled)) == old(PageAt(Slot(filled)))[i := f]
    {
      var at := Slot(filled) * PAGE_FRAMES;
      memory[at + i] := f;
      if InBounds() {
        forall n: nat | total <= n < filled
          ensures PageAt(Slot(n)) == old(PageAt(Slot(n)))
        {
          SlotsDiffer(n, filled);
        }
      }
    }

    /** At the next moment the hardware will not have come to the page to be committed next. */
    ghost predicate InTime()
      reads this`epoch, this`clock, this`filled
    {
      truth(epoch, clock) < filled
    }

    /**
     * HdaStreamCommit, on the page last handed out. The page is late if and only if the hardware has come to its place
     * by then.
     */
    method Commit()
      requires Valid() && (active ==> lent)
      modifies this`filled, this`committed, this`commits, this`entered, this`clock, this`lent
      ensures Valid() && !lent && clock >= old(clock)
      ensures !active ==> filled == old(filled) && committed == old(committed)
      ensures active ==> committed == old(committed) + [PageAt(Slot(old(filled)))] && filled == Wrap(old(filled) + 1)
      ensures !active ==> commits == old(commits)
      ensures active ==> |commits| == |old(commits)| + 1 && old(commits) <= commits
      ensures active && !started ==> commits == old(commits) + [0]
      ensures started && Faithful() ==> commits == old(commits) + [truth(epoch, old(clock)) + 1]
      ensures active && Faithful() && InBounds() ==>
                (NoneLate() <==> old(NoneLate()) && (!started || old(InTime())))
    {
      hide PageAt, Slot, Kept, Recorded, Tracking, OnTime, Faithful, Fits32, Wrap, PageOf, Shape;
      ShapeFacts();
      if active {
        if started {
          Moment();
        }
        ghost var before := commits;
        if Faithful() && InBounds() {
          OnePerPage();
        }
        Store();
        OnTimeMore(before, |entered|);
      }
    }

    lemma OnePerPage()
      requires Valid() && active && Faithful() && InBounds()
      ensures |commits| == filled
    {
    }

    /** The page is in place from now on. */
    method Store()
      requires Valid() && active && lent
      modifies this`filled, this`committed, this`commits, this`lent
      ensures Valid() && !lent && commits == old(commits) + [|entered|]
      ensures committed == old(committed) + [PageAt(Slot(old(filled)))] && filled == Wrap(old(filled) + 1)
    {
      hide Tracking, PageAt, Faithful, Slot, Recovered, Recorded;
      ghost var page := PageAt(Slot(filled));
      if Recorded(entered, committed, commits) {
        RecordedMore(page);
      }
      commits, committed := commits + [|entered|], committed + [page];
      filled := Wrap(filled + 1);
      lent := false;
    }

    lemma TrackingStart()
      requires seen == [0] && total == 0 && lastHw == 0 && epoch == clock && entered == []
      ensures Tracking()
    {
    }

    method WaitForFirstPage()
      modifies this`clock
      ensures clock > old(clock)
    {
      var i := 0;
      while i < 50 && registers(clock) >= PAGE_BYTES
        invariant 0 <= i <= 50 && clock == old(clock) + i
      {
        i, clock := i + 1, clock + 1;
      }
      clock := if i < 50 then clock + 1 else clock;
    }

    /** HdaStreamStart: wait for the position to be on the first page, then count from there. */
    method Start()
      requires Valid() && !started
      modifies this`started, this`hwTotal, this`lastHw, this`clock, this`epoch, this`seen, this`total, this`entered
      ensures Valid() && started == active && (active ==> total == 0 && seen == [0] && epoch > old(clock))
      ensures clock >= old(clock)
    {
      hide Kept, PageAt, Faithful, PageOf, Slot, Recovered, Rising, Wrap, Recorded, Tracking, Fits32;
      if active {
        WaitForFirstPage();
        WrapSmall(0);
        hwTotal, lastHw, started := 0, 0, true;
        total, seen, entered, epoch := 0, [0], [], clock;
        TrackingStart();
      }
    }

    /** HdaStreamPlayed. */
    method Played() returns (n: nat)
      requires Valid()
      modifies this`hwTotal, this`lastHw, this`clock, this`total, this`seen, this`entered
      ensures Valid() && total >= old(total) && n <= total && n == if active then hwTotal else 0
      ensures clock >= old(clock) && (started ==> ReadSince(old(clock)))
      ensures active && InBounds() ==> n == total
      ensures started ==> seen == old(seen) + [truth(epoch, old(clock))]
      ensures !started ==> total == old(total) && seen == old(seen)
      ensures started && Faithful() ==> total <= Truth() && (total == Truth() <==> Closely(seen)) && total < |entered|
    {
      hide Kept, PageAt, PageOf, Slot, Wrap, Faithful, Recovered, Rising, Closely;
      n := 0;
      if started && Faithful() {
        TrackingBelow();
      }
      if active {
        UpdatePosition();
        WrapSmall(total);
        n := hwTotal;
      }
      if started && Faithful() {
        TrackingBelow();
      }
    }

    lemma TrackingBelow()
      requires Tracking()
      ensures total <= Truth() && (total == Truth() <==> Closely(seen)) && total <= |entered|
      ensures seen != [] && (|seen| > 1 ==> total < |entered|)
    {
      RecoveredBelow(seen);
      RecoveredExact(seen);
    }

    /** HdaStreamClose. */
    method Close()
      requires Valid()
      modifies this`active, this`started, this`lent
      ensures Valid() && !active && !started
    {
      active, started, lent := false, false, false;
    }

    // ---- opening ----

    ghost predicate Holding(live: set<nat>, got: nat)
      reads this`bdl, this`pages, pmm`live
    {
      && |pages| == got && |PageSet(pages)| == got && Fits32(bdl) && (forall i | 0 <= i < got :: Fits32(pages[i]))
      && PageSet(pages) !! live && bdl / Pmm.PAGE_SIZE !in PageSet(pages) && bdl / Pmm.PAGE_SIZE !in live
      && pmm.live == live + {bdl / Pmm.PAGE_SIZE} + PageSet(pages)
    }

    /** A live page may be given back. */
    lemma LiveIsFreeable(addr: nat)
      requires pmm.Valid() && addr / Pmm.PAGE_SIZE in pmm.live
      ensures pmm.totalPages <= pmm.bitmap.Length * 8
      ensures addr / Pmm.PAGE_SIZE < pmm.totalPages && addr / Pmm.PAGE_SIZE !in pmm.reserved
    {
    }

    lemma HoldingOne(live: set<nat>)
      requires pages == [] && Fits32(bdl) && bdl / Pmm.PAGE_SIZE !in live && pmm.live == live + {bdl / Pmm.PAGE_SIZE}
      ensures Holding(live, 0)
    {
      PageSetNone(pages);
      assert pages[..0] == pages;
    }

    /** One more page for the ring. */
    method TakeOne(ghost live: set<nat>) returns (ok: bool)
      requires pmm.Valid() && Holding(live, |pages|)
      modifies this`pages, pmm`freePages, pmm`live, pmm.bitmap
      ensures pmm.Valid() && Holding(live, |pages|) && |pages| == |old(pages)| + if ok then 1 else 0
      ensures ok <==> |Low(old(pmm.Free()))| > 0
      ensures |Low(pmm.Free())| == if ok then |Low(old(pmm.Free()))| - 1 else 0
    {
      hide Pmm.Allocator.Valid, Pmm.Allocator.Free, Low, PageSet, Holding;
      pmm.Bounded();
      ghost var free, had := pmm.Free(), pages;
      HoldingLive(live);
      LowEmpty(free);
      var addr := pmm.AllocPageBelow4G();
      ok := addr != 0;
      if ok {
        LowTaken(free, addr / Pmm.PAGE_SIZE);
        pages := pages + [addr];
        HoldingMore(live, had, addr);
      }
    }

    lemma HoldingLive(live: set<nat>)
      requires Holding(live, |pages|)
      ensures pmm.live == live + {bdl / Pmm.PAGE_SIZE} + PageSet(pages) && |PageSet(pages)| == |pages|
      ensures Fits32(bdl) && (forall i | 0 <= i < |pages| :: Fits32(pages[i]))
      ensures PageSet(pages) !! live && bdl / Pmm.PAGE_SIZE !in PageSet(pages) && bdl / Pmm.PAGE_SIZE !in live
    {
    }

    /** One page more than `had`, which was nobody's. */
    lemma HoldingMore(live: set<nat>, had: seq<nat>, addr: nat)
      requires pages == had + [addr] && Fits32(addr) && Fits32(bdl) && forall i | 0 <= i < |had| :: Fits32(had[i])
      requires |PageSet(had)| == |had| && PageSet(had) !! live
      requires bdl / Pmm.PAGE_SIZE !in PageSet(had) && bdl / Pmm.PAGE_SIZE !in live
      requires addr / Pmm.PAGE_SIZE !in live + {bdl / Pmm.PAGE_SIZE} + PageSet(had)
      requires pmm.live == live + {bdl / Pmm.PAGE_SIZE} + PageSet(had) + {addr / Pmm.PAGE_SIZE}
      ensures Holding(live, |pages|)
    {
      hide PageSet;
      PageSetSnoc(had, addr);
    }

    /** The pages for a ring, or nothing at all. */
    method TakePages() returns (ok: bool)
      requires pmm.Valid()
      modifies this`bdl, this`pages, pmm`freePages, pmm`live, pmm.bitmap
      ensures pmm.Valid()
      ensures if ok then Holding(old(pmm.live), PLAY_PAGES) else bdl == 0 && pmm.live == old(pmm.live)
      ensures ok <==> |Low(old(pmm.Free()))| > PLAY_PAGES
    {
      hide Pmm.Allocator.Valid, Pmm.Allocator.Free, Low, Holding;
      pmm.Bounded();
      ghost var live, free := pmm.live, pmm.Free();
      LowEmpty(free);
      pages := [];
      bdl := pmm.AllocPageBelow4G();
      ok := bdl != 0;
      if ok {
        LowTaken(free, bdl / Pmm.PAGE_SIZE);
        HoldingOne(live);
        while |pages| < PLAY_PAGES && ok
          invariant pmm.Valid() && Holding(live, |pages|) && |pages| <= PLAY_PAGES
          invariant |Low(pmm.Free())| == |Low(free)| - 1 - |pages|
          invariant (!ok ==> |Low(pmm.Free())| == 0 && |pages| < PLAY_PAGES)
          decreases ok, PLAY_PAGES - |pages|
        {
          ok := TakeOne(live);
        }
        if !ok {
          GiveBack(live);
        }
      }
    }

    /** The failure path of HdaStreamOpen. */
    method GiveBack(ghost live: set<nat>)
      requires pmm.Valid() && Holding(live, |pages|)
      modifies this`bdl, pmm`freePages, pmm`live, pmm.bitmap
      ensures pmm.Valid() && pmm.live == live && bdl == 0
    {
      hide Pmm.Allocator.Valid, Pmm.Allocator.Free, PageSet;
      ghost var all, own, b := pmm.live, PageSet(pages), bdl / Pmm.PAGE_SIZE;
      var i := 0;
      PageSetNone(pages);
      while i < |pages|
        invariant i <= |pages| && pmm.Valid() && bdl / Pmm.PAGE_SIZE == b
        invariant pmm.live == all - PageSet(pages[..i])
        invariant PageSet(pages[..i]) <= own
      {
        PageSetMore(pages, i);
        PageSetMember(pages, i);
        PageSetFresh(pages, i);
        LiveIsFreeable(pages[i]);
        pmm.FreePage(pages[i]);
        i := i + 1;
      }
      assert pages[..|pages|] == pages;
      LiveIsFreeable(bdl);
      pmm.FreePage(bdl);
      bdl := 0;
    }

    method ClearPage(i: nat)
      requires memory.Length == PLAY_PAGES * PAGE_FRAMES && i < PLAY_PAGES
      modifies memory
      ensures forall k | 0 <= k < memory.Length ::
                memory[k] == if i * PAGE_FRAMES <= k < (i + 1) * PAGE_FRAMES then SILENCE else old(memory[k])
    {
      var b := 0;
      while b < PAGE_FRAMES
        invariant 0 <= b <= PAGE_FRAMES
        invariant forall k | 0 <= k < memory.Length ::
                    memory[k] == if i * PAGE_FRAMES <= k < i * PAGE_FRAMES + b then SILENCE else old(memory[k])
      {
        memory[i * PAGE_FRAMES + b] := SILENCE;
        b := b + 1;
      }
    }

    /** Silence in every page, and a descriptor for each. */
    method ClearPages()
      requires Shape() && |pages| == PLAY_PAGES && forall i | 0 <= i < PLAY_PAGES :: Fits32(pages[i])
      modifies memory, descriptors
      ensures Silent() && Described()
    {
      var i := 0;
      while i < PLAY_PAGES
        invariant 0 <= i <= PLAY_PAGES
        invariant forall k | 0 <= k < i * PAGE_FRAMES :: memory[k] == SILENCE
        invariant forall j | 0 <= j < i ::
                    && descriptors[j * 4] == pages[j] && descriptors[j * 4 + 1] == 0
                    && descriptors[j * 4 + 2] == PAGE_BYTES && descriptors[j * 4 + 3] == 0
      {
        ClearPage(i);
        descriptors[i * 4], descriptors[i * 4 + 1] := pages[i] % U32, 0;
        descriptors[i * 4 + 2], descriptors[i * 4 + 3] := PAGE_BYTES, 0;
        i := i + 1;
      }
    }

    /**
     * HdaStreamOpen. It runs out of memory exactly when fewer than 33 pages are free below 4 GiB, and then every
     * page it took is given back; otherwise its 33 pages are distinct, were nobody else's and fit the descriptors.
     */
    method Open(rate: nat) returns (status: Status)
      requires Valid() && pmm.Valid() && memory as object != pmm.bitmap && descriptors as object != pmm.bitmap
      modifies this`havePages, this`bdl, this`pages, this`active, this`started, this`filled, this`hwTotal, this`lastHw
      modifies this`total, this`seen, this`committed, this`commits, this`entered, this`lent, memory, descriptors
      modifies pmm`freePages, pmm`live, pmm.bitmap
      ensures Valid() && pmm.Valid()
      ensures status == Unavailable <==> !streamOk || old(active)
      ensures status == BadRate <==> streamOk && !old(active) && !KnownRate(rate)
      ensures status == NoMemory <==> && streamOk && !old(active) && KnownRate(rate) && !old(havePages)
                                      && |Low(old(pmm.Free()))| <= PLAY_PAGES
      ensures status != Ok ==> pmm.live == old(pmm.live) && active == old(active) && started == old(started)
      ensures status == Ok && old(havePages) ==> pmm.live == old(pmm.live) && pages == old(pages) && bdl == old(bdl)
      ensures status == Ok && !old(havePages) ==> Holding(old(pmm.live), PLAY_PAGES)
      ensures status == Ok ==> && active && !started && filled == 0 && committed == [] && commits == []
                               && total == 0 && !lent && Silent() && Described()
    {
      hide Pmm.Allocator.Valid, Pmm.Allocator.Free, Holding, Low, KnownRate, Wrap, Slot, Recovered;
      status := if !streamOk || active then Unavailable else if !KnownRate(rate) then BadRate else Ok;
      if status == Ok {
        var ok := EnsurePages();
        if ok {
          Reset();
        } else {
          status := NoMemory;
        }
      }
    }

    /** The allocation part of HdaStreamOpen, made once. */
    method EnsurePages() returns (ok: bool)
      requires Valid() && !active && pmm.Valid()
      modifies this`havePages, this`bdl, this`pages, pmm`freePages, pmm`live, pmm.bitmap
      ensures Valid() && pmm.Valid() && (ok ==> havePages)
      ensures ok <==> old(havePages) || |Low(old(pmm.Free()))| > PLAY_PAGES
      ensures !ok || old(havePages) ==> pmm.live == old(pmm.live)
      ensures old(havePages) ==> pages == old(pages) && bdl == old(bdl)
      ensures ok && !old(havePages) ==> Holding(old(pmm.live), PLAY_PAGES)
    {
      hide Pmm.Allocator.Valid, Pmm.Allocator.Free, Low, PageSet, Wrap, Slot, Recovered, Kept, Recorded, Tracking,
        Faithful;
      ok := havePages;
      if !havePages {
        ok := TakePages();
        havePages := ok;
      }
    }

    /** The rest of it: silent pages, and counters at zero. */
    method Reset()
      requires Valid() && !active && havePages
      modifies this`active, this`started, this`filled, this`hwTotal, this`lastHw
      modifies this`total, this`seen, this`committed, this`commits, this`entered, this`lent, memory, descriptors
      ensures Valid() && active && !started && filled == 0 && committed == [] && commits == [] && total == 0 && !lent
      ensures Silent() && Described()
    {
      hide PageAt, Recovered, Slot, PageOf, Faithful, Tracking, Rising, Recorded, Kept, Fits32, Wrap, Silent, Described;
      ClearPages();
      Zero();
    }

    method Zero()
      requires Shape() && !active && havePages && Described()
      modifies this`active, this`started, this`filled, this`hwTotal, this`lastHw
      modifies this`total, this`seen, this`committed, this`commits, this`entered, this`lent
      ensures Valid() && active && !started && filled == 0 && committed == [] && commits == [] && total == 0 && !lent
    {
      hide Fits32, Valid, PageAt, Recovered, Slot, PageOf, Faithful, Tracking, Rising, Recorded, Kept, Wrap;
      filled, hwTotal, lastHw, started, active := 0, 0, 0, false, true;
      total, seen, committed, lent, commits, entered := 0, [0], [], false, [], [];
      ZeroValid();
    }

    lemma ZeroValid()
      requires Shape() && Described() && active && !started && !lent
      requires filled == 0 && hwTotal == 0 && lastHw == 0 && total == 0
      requires committed == [] && commits == [] && entered == []
      ensures Valid()
    {
      hide PageAt, Recovered, Slot, PageOf, Faithful, Tracking, Rising, Recorded, Kept, Fits32, Wrap, Shape;
      ShapeFacts();
      RecordedNothing();
      WrapSmall(0);
      KeptNothing();
    }

    lemma KeptNothing()
      requires memory.Length == PLAY_PAGES * PAGE_FRAMES && committed == [] && filled == 0
      ensures Kept(0)
    {
    }
  }

  // ---- a page that counts as played and was not heard ----

  /** An open ring whose hardware stays on page 5 from the second moment on. */
  method RingOnPageFive(pmm: Pmm.Allocator) returns (ring: Ring)
    requires pmm.Valid()
    modifies pmm`freePages, pmm`live, pmm.bitmap
    ensures fresh(ring) && fresh(ring.memory) && ring.Valid() && ring.active && !ring.started && ring.filled == 0
    ensures ring.clock == 0 && ring.committed == [] && ring.commits == []
    ensures forall k :: ring.registers(k) == if k == 0 then 0 else 5 * PAGE_BYTES
    ensures forall e, k :: ring.truth(e, k) == 5
  {
    hide Ring.Tracking, Ring.Kept, Ring.Faithful, Slot, Wrap, Recorded, Low;
    ring := new Ring(pmm, true, k => if k == 0 then 0 else 5 * PAGE_BYTES, (e, k) => 5);
    ring.pages, ring.havePages := seq(PLAY_PAGES, i => 4096), true;
    assert ring.Shape() && ring.Valid();
    var status := ring.Open(44100);
  }

  lemma NotStarted(ring: Ring)
    requires ring.Valid() && ring.active && !ring.started
    ensures ring.total == 0 && ring.InBounds()
  {
  }

  lemma WrapIs(n: nat)
    ensures n < 2 ==> Wrap(n + 1) == n + 1
  {
  }

  lemma OnPageFive(ring: Ring)
    requires ring.Valid() && ring.epoch > 0
    requires forall k :: ring.registers(k) == if k == 0 then 0 else 5 * PAGE_BYTES
    requires forall e, k :: ring.truth(e, k) == 5
    ensures ring.Faithful()
  {
  }

  lemma LatePage(ring: Ring)
    requires ring.Valid() && ring.Faithful() && ring.InBounds() && ring.commits == [0, 6] && |ring.committed| == 2
    ensures !ring.Heard(1)
  {
  }

  /** Page 0 is committed before the stream starts. */
  method FirstPageFive(pmm: Pmm.Allocator) returns (ring: Ring)
    requires pmm.Valid()
    modifies pmm`freePages, pmm`live, pmm.bitmap
    ensures fresh(ring) && fresh(ring.memory) && ring.Valid() && ring.started && ring.active && ring.Faithful()
    ensures ring.total == 0 && ring.seen == [0] && ring.filled == |ring.committed| == 1 && ring.commits == [0]
    ensures forall e, k :: ring.truth(e, k) == 5
  {
    hide Ring.Valid, Ring.Faithful, Slot, Wrap;
    ring := RingOnPageFive(pmm);
    NotStarted(ring);
    var slot := ring.NextPage();
    ring.Commit();
    WrapIs(0);
    ring.Start();
    OnPageFive(ring);
  }

  /**
   * Page 0 is committed, the stream starts, and the hardware is on page 5 when page 1 is committed. The readings are
   * close together, and the total says that both pages have been played; page 1 was not heard.
   */
  method LateIsNotHeard(pmm: Pmm.Allocator) returns (ring: Ring, played: nat)
    requires pmm.Valid()
    modifies pmm`freePages, pmm`live, pmm.bitmap
    ensures ring.Valid() && ring.Faithful() && Closely(ring.seen)
    ensures played >= ring.filled == |ring.committed| == 2 && !ring.Heard(1)
  {
    hide Ring.Valid, Ring.Faithful, Ring.Heard, Slot, Wrap;
    ring := FirstPageFive(pmm);
    var slot := ring.NextPage();
    ring.Commit();
    WrapIs(1);
    played := ring.Played();
    LatePage(ring);
  }
}
