/**
 * kernel/nvme.c: a submission and completion queue pair with phase bits (section 4.6 of NVM Express 1.4),
 * run against a device that answers in order and acts at any point between the host's steps.
 */
module Nvme {
  const QUEUE_DEPTH := 64
  const POLLS := 1000000
  const TIMED_OUT := 0xFFFF

  datatype Command = Command(cdw0: nat, rest: seq<nat>)

  datatype DeviceAct = Fetch | Post

  /** What the device does at each point of a host call: the k-th gap between two host steps. */
  type Schedule = nat -> seq<DeviceAct>

  function Slot(i: nat): (s: nat)
    ensures s < QUEUE_DEPTH
  {
    i % QUEUE_DEPTH
  }

  function NextSlot(s: nat): (r: nat)
    ensures r < QUEUE_DEPTH
  {
    (s + 1) % QUEUE_DEPTH
  }

  /** The phase bit of the i-th completion ever posted: 1 on the first pass over the ring, then alternating. */
  function Phase(i: nat): (b: nat)
    ensures b == 0 || b == 1
  {
    1 - i / QUEUE_DEPTH % 2
  }

  /** The status field of a completion is 15 bits wide. */
  function Low15(x: nat): (s: nat)
    ensures s < 0x8000
  {
    x % 0x8000
  }

  /** The command identifier in the upper half of Cdw0. */
  function Stamp(cmd: Command, id: nat): (c: Command)
    ensures SameCommand(c, cmd)
  {
    cmd.(cdw0 := cmd.cdw0 % 0x1_0000 + id * 0x1_0000)
  }

  function NextId(id: nat): (n: nat)
    ensures n < 0x1_0000
  {
    (id + 1) % 0x1_0000
  }

  /** Equal but for the identifier. */
  predicate SameCommand(a: Command, b: Command) {
    a.rest == b.rest && a.cdw0 % 0x1_0000 == b.cdw0 % 0x1_0000
  }

  /** Opcode in the first byte, flags in the second, and the identifier in the upper half. */
  lemma StampedFields(cmd: Command, opcode: nat, flags: nat, before: nat, id: nat)
    requires opcode < 256 && flags < 256 && cmd.cdw0 == opcode + 256 * flags + 65536 * before
    ensures Stamp(cmd, id) == cmd.(cdw0 := opcode + 256 * flags + 65536 * id)
  {
    assert cmd.cdw0 == (opcode + 256 * flags) + 65536 * before && opcode + 256 * flags < 65536;
  }

  /** The i-th command carries the number i + 1, in 16 bits. */
  ghost predicate Numbered(submitted: seq<Command>, next: nat) {
    && next == (|submitted| + 1) % 0x1_0000
    && forall i | 0 <= i < |submitted| :: submitted[i].cdw0 / 0x1_0000 == (i + 1) % 0x1_0000
  }

  lemma NumberedMore(submitted: seq<Command>, next: nat, cmd: Command)
    requires Numbered(submitted, next)
    ensures Numbered(submitted + [Stamp(cmd, next)], NextId(next))
  {
  }

  lemma NumbersDiffer(i: nat, j: nat)
    requires i < j < i + QUEUE_DEPTH
    ensures (i + 1) % 0x1_0000 != (j + 1) % 0x1_0000
  {
  }

  lemma SlotsDiffer(i: nat, j: nat)
    requires i < j < i + QUEUE_DEPTH
    ensures Slot(i) != Slot(j)
  {
  }

  lemma SlotNext(i: nat)
    ensures Slot(i + 1) == NextSlot(Slot(i))
    ensures Phase(i + 1) == if Slot(i + 1) == 0 then 1 - Phase(i) else Phase(i)
    ensures Slot(i + QUEUE_DEPTH) == Slot(i) && Phase(i + QUEUE_DEPTH) == 1 - Phase(i)
  {
    var q, r := i / QUEUE_DEPTH, i % QUEUE_DEPTH;
    Place(q, r);
    PlaceNext(q, r);
    Place(q + 1, r);
  }

  /** The `r`-th place of the `q`-th pass over the ring. */
  lemma Place(q: nat, r: nat)
    requires r < QUEUE_DEPTH
    ensures Slot(q * QUEUE_DEPTH + r) == r && Phase(q * QUEUE_DEPTH + r) == 1 - q % 2
  {
  }

  lemma PlaceNext(q: nat, r: nat)
    requires r < QUEUE_DEPTH
    ensures Slot(q * QUEUE_DEPTH + r + 1) == NextSlot(r)
    ensures Phase(q * QUEUE_DEPTH + r + 1) == if NextSlot(r) == 0 then q % 2 else 1 - q % 2
  {
    if r + 1 < QUEUE_DEPTH {
      Place(q, r + 1);
    } else {
      Place(q + 1, 0);
    }
  }

  // ---- what the device gets done ----

  /** How many commands the device has fetched and how many completions it has posted. */
  datatype Counts = Counts(fetched: nat, posted: nat)

  /** A fetch needs an announced command; a post needs a fetched one and room in the completion ring. */
  function AfterAct(c: Counts, act: DeviceAct, rung: nat, released: nat): Counts {
    match act
    case Fetch => if c.fetched < rung then c.(fetched := c.fetched + 1) else c
    case Post => if c.posted < c.fetched && c.posted + 1 < released + QUEUE_DEPTH then c.(posted := c.posted + 1) else c
  }

  function AfterActs(c: Counts, acts: seq<DeviceAct>, n: nat, rung: nat, released: nat): Counts
    requires n <= |acts|
  {
    if n == 0 then c else AfterAct(AfterActs(c, acts, n - 1, rung, released), acts[n - 1], rung, released)
  }

  /** After the gaps `from` to `from + n - 1` of a host call. */
  function AfterGaps(c: Counts, device: Schedule, from: nat, n: nat, rung: nat, released: nat): Counts {
    if n == 0 then c
    else
      var acts := device(from + n - 1);
      AfterActs(AfterGaps(c, device, from, n - 1, rung, released), acts, |acts|, rung, released)
  }

  lemma {:induction false} ActsRise(c: Counts, acts: seq<DeviceAct>, n: nat, rung: nat, released: nat)
    requires n <= |acts|
    ensures AfterActs(c, acts, n, rung, released).posted >= c.posted
  {
    if n > 0 {
      ActsRise(c, acts, n - 1, rung, released);
    }
  }

  lemma {:induction false} GapsRise(c: Counts, device: Schedule, from: nat, m: nat, n: nat, rung: nat, released: nat)
    requires m <= n
    ensures AfterGaps(c, device, from, m, rung, released).posted <= AfterGaps(c, device, from, n, rung, released).posted
    decreases n
  {
    hide AfterActs;
    if m < n {
      GapsRise(c, device, from, m, n - 1, rung, released);
      var acts := device(from + n - 1);
      ActsRise(AfterGaps(c, device, from, n - 1, rung, released), acts, |acts|, rung, released);
    }
  }

  /** The first of the gaps, then the rest. */
  lemma {:induction false} GapsSplit(c: Counts, device: Schedule, from: nat, n: nat, rung: nat, released: nat)
    ensures AfterGaps(c, device, from, n + 1, rung, released) ==
            AfterGaps(AfterGaps(c, device, from, 1, rung, released), device, from + 1, n, rung, released)
    decreases n
  {
    hide AfterActs;
    if n > 0 {
      GapsSplit(c, device, from, n - 1, rung, released);
    }
  }

  lemma {:induction false} ActsShift(c: Counts, acts: seq<DeviceAct>, n: nat, rung: nat, released: nat, off: nat)
    requires n <= |acts|
    ensures var r := AfterActs(c, acts, n, rung, released);
            AfterActs(Counts(c.fetched + off, c.posted + off), acts, n, rung + off, released + off) ==
            Counts(r.fetched + off, r.posted + off)
  {
    if n > 0 {
      ActsShift(c, acts, n - 1, rung, released, off);
    }
  }

  /** Only differences count. */
  lemma {:induction false} GapsShift(c: Counts, device: Schedule, from: nat, n: nat, rung: nat, released: nat, off: nat)
    ensures var r := AfterGaps(c, device, from, n, rung, released);
            AfterGaps(Counts(c.fetched + off, c.posted + off), device, from, n, rung + off, released + off) ==
            Counts(r.fetched + off, r.posted + off)
    decreases n
  {
    hide AfterActs;
    if n > 0 {
      GapsShift(c, device, from, n - 1, rung, released, off);
      var acts := device(from + n - 1);
      ActsShift(AfterGaps(c, device, from, n - 1, rung, released), acts, |acts|, rung, released, off);
    }
  }

  lemma {:induction false} ActsIdle(n: nat, acts: seq<DeviceAct>, k: nat, released: nat)
    requires k <= |acts|
    ensures AfterActs(Counts(n, n), acts, k, n, released) == Counts(n, n)
  {
    if k > 0 {
      ActsIdle(n, acts, k - 1, released);
    }
  }

  /** With every announced command answered, the device has nothing to do. */
  lemma {:induction false} GapsIdle(n: nat, device: Schedule, from: nat, k: nat, released: nat)
    ensures AfterGaps(Counts(n, n), device, from, k, n, released) == Counts(n, n)
  {
    hide AfterActs;
    if k > 0 {
      GapsIdle(n, device, from, k - 1, released);
      var acts := device(from + k - 1);
      ActsIdle(n, acts, |acts|, released);
    }
  }

  /** From an idle queue, the device answers the one command announced before the host polls for the last time. */
  predicate Prompt(device: Schedule) {
    AfterGaps(Counts(0, 0), device, 2, POLLS, 1, 0).posted >= 1
  }

  /** The slot of a new entry is used by none of the entries still in the ring. */
  lemma FreeSlot(from: nat, n: nat)
    requires from <= n < from + QUEUE_DEPTH
    ensures forall i: nat | from <= i < n :: Slot(i) != Slot(n)
    ensures Slot(n) < QUEUE_DEPTH
  {
    forall i: nat | from <= i < n
      ensures Slot(i) != Slot(n)
    {
      SlotsDiffer(i, n);
    }
  }

  /** Slots of a half-open range of the ring are equal only for equal indices. */
  lemma SlotsApart(i: nat, j: nat)
    requires i <= j < i + QUEUE_DEPTH
    ensures Slot(i) == Slot(j) <==> i == j
  {
    if i < j {
      SlotsDiffer(i, j);
    }
  }

  lemma RingFull(released: nat, posted: nat)
    requires released <= posted < released + QUEUE_DEPTH
    ensures Slot(posted + 1) == Slot(released) <==> posted + 1 == released + QUEUE_DEPTH
  {
    if posted + 1 < released + QUEUE_DEPTH {
      SlotsApart(released, posted + 1);
    } else {
      SlotNext(released);
    }
  }

  lemma SlotInRange(i: nat)
    ensures Slot(i) < QUEUE_DEPTH
  {
  }

  lemma FirstPass()
    ensures Slot(0) == 0 && Phase(0) == 1
    ensures forall i: nat | i < QUEUE_DEPTH :: Slot(i) == i && Phase(i) == 1
  {
  }

  class QueuePair {
    /** The 15-bit status the device gives the i-th command. */
    const answer: (nat, Command) -> nat
    const sq: array<Command>
    /** The StatusPhase words of the completion ring. */
    const cq: array<nat>
    // Host side: SqTail, CqHead, Phase, NextCommandId, and the two doorbell registers it writes.
    var sqTail: nat
    var cqHead: nat
    var hostPhase: nat
    var nextCommandId: nat
    var tailDoorbell: nat
    var headDoorbell: nat
    // Device side.
    var fetchHead: nat
    var postTail: nat
    var devicePhase: nat
    var inFlight: seq<Command>
    /** Every status the device has posted. */
    var posted: seq<nat>
    // History: commands written, announced and fetched; completions taken and released.
    ghost var submitted: seq<Command>
    ghost var rung: nat
    ghost var fetched: nat
    ghost var consumed: nat
    ghost var released: nat

    /** Commands whose completion the host has not taken. */
    ghost function Backlog(): int
      reads this`submitted, this`consumed
    {
      |submitted| - consumed
    }

    ghost function Done(): Counts
      reads this`fetched, this`posted
    {
      Counts(fetched, |posted|)
    }

    /** How many completions the device will have posted when the next call polls for the last time. */
    ghost function PostedInTime(device: Schedule): nat
      reads this`fetched, this`posted, this`rung, this`released, this`submitted
    {
      var rings := AfterGaps(Done(), device, 0, 2, rung, released);
      AfterGaps(rings, device, 2, POLLS, |submitted| + 1, released).posted
    }

    /** The device and both rings agree with the history. */
    ghost predicate Linked()
      reads this`tailDoorbell, this`headDoorbell, this`fetchHead, this`postTail, this`devicePhase, this`inFlight
      reads this`posted, this`submitted, this`rung, this`fetched, this`consumed, this`released, sq, cq
    {
      && sq.Length == QUEUE_DEPTH && cq.Length == QUEUE_DEPTH
      && released <= consumed <= released + 1 && consumed <= |posted| <= fetched <= rung <= |submitted|
      && Backlog() < QUEUE_DEPTH && |posted| < released + QUEUE_DEPTH
      && tailDoorbell == Slot(rung) && headDoorbell == Slot(released)
      && fetchHead == Slot(fetched) && postTail == Slot(|posted|) && devicePhase == Phase(|posted|)
      && inFlight == submitted[|posted|..fetched]
      && Answered() && Written() && Fresh() && Stale()
    }

    /** Every status posted answers its command. */
    ghost predicate Answered()
      reads this`posted, this`submitted
    {
      |posted| <= |submitted| && forall i | 0 <= i < |posted| :: posted[i] == Low15(answer(i, submitted[i]))
    }

    /** Commands not yet fetched are intact in the submission ring. */
    ghost predicate Written()
      requires sq.Length == QUEUE_DEPTH
      reads this`fetched, this`submitted, sq
    {
      forall i: nat | fetched <= i < |submitted| :: sq[Slot(i)] == submitted[i]
    }

    /** A completion posted and not yet taken sits in its slot, with its status and its phase. */
    ghost predicate Fresh()
      requires cq.Length == QUEUE_DEPTH
      reads this`consumed, this`posted, cq
    {
      forall i: nat | consumed <= i < |posted| :: cq[Slot(i)] == posted[i] * 2 + Phase(i)
    }

    /** Every other slot holds the opposite of the phase its next completion will have. */
    ghost predicate Stale()
      requires cq.Length == QUEUE_DEPTH
      reads this`consumed, this`posted, cq
    {
      forall i: nat | |posted| <= i < consumed + QUEUE_DEPTH :: cq[Slot(i)] % 2 != Phase(i)
    }

    /** The host is between calls. */
    ghost predicate Valid()
      reads this, sq, cq
    {
      && Linked() && rung == |submitted| && released == consumed
      && sqTail == Slot(|submitted|) && cqHead == Slot(consumed) && hostPhase == Phase(consumed)
      && Numbered(submitted, nextCommandId)
    }

    /** No two commands whose completion is outstanding have the same identifier. */
    lemma IdentifiersDiffer(i: nat, j: nat)
      requires Valid() && consumed <= i < j < |submitted|
      ensures submitted[i].cdw0 / 0x1_0000 != submitted[j].cdw0 / 0x1_0000
    {
      hide Answered, Written, Fresh, Stale, Slot, Phase;
      NumbersDiffer(i, j);
    }

    constructor (answer: (nat, Command) -> nat, blank: Command)
      ensures Valid() && submitted == [] && consumed == 0 && this.answer == answer
      ensures fresh(sq) && fresh(cq)
    {
      hide Slot, NextSlot, Phase, Low15;
      FirstPass();
      this.answer := answer;
      sq := new Command[QUEUE_DEPTH](_ => blank);
      cq := new nat[QUEUE_DEPTH](_ => 0);
      sqTail, cqHead, hostPhase, nextCommandId, tailDoorbell, headDoorbell := 0, 0, 1, 1, 0, 0;
      fetchHead, postTail, devicePhase, inFlight := 0, 0, 1, [];
      submitted, rung, fetched, posted, consumed, released := [], 0, 0, [], 0, 0;
    }

    /** The device takes the next command, if the tail doorbell announces one. */
    method DeviceFetch()
      requires Linked()
      modifies this`fetchHead, this`inFlight, this`fetched
      ensures Linked() && Done() == AfterAct(old(Done()), Fetch, rung, released)
    {
      hide Slot, NextSlot, Phase, Fresh, Stale, Low15;
      SlotInRange(fetched);
      SlotsApart(fetched, rung);
      if fetchHead != tailDoorbell {
        SlotNext(fetched);
        inFlight := inFlight + [sq[fetchHead]];
        fetchHead := NextSlot(fetchHead);
        fetched := fetched + 1;
      }
    }

    /** Writes one completion word: the slot turns from stale to fresh and no other slot is disturbed. */
    method PostWord(status: nat)
      requires cq.Length == QUEUE_DEPTH && consumed <= |posted| < consumed + QUEUE_DEPTH && Fresh() && Stale()
      requires postTail == Slot(|posted|) && devicePhase == Phase(|posted|)
      modifies this`posted, cq
      ensures posted == old(posted) + [status] && Fresh() && Stale()
    {
      var n := |posted|;
      forall i: nat | consumed <= i < consumed + QUEUE_DEPTH && i != n
        ensures Slot(i) != Slot(n)
      {
        if i < n { SlotsDiffer(i, n); } else { SlotsDiffer(n, i); }
      }
      hide Slot, NextSlot, Phase;
      cq[postTail] := status * 2 + devicePhase;
      posted := posted + [status];
    }

    /** The device answers its oldest command, if it has one and the completion ring has room. */
    method DevicePost()
      requires Linked()
      modifies this`postTail, this`devicePhase, this`inFlight, this`posted, cq
      ensures Linked() && old(posted) <= posted && Done() == AfterAct(old(Done()), Post, rung, released)
    {
      hide Slot, NextSlot, Phase, Written, Fresh, Stale, Low15;
      SlotNext(|posted|);
      RingFull(released, |posted|);
      if |inFlight| > 0 && NextSlot(postTail) != headDoorbell {
        ghost var n := |posted|;
        PostWord(Low15(answer(|posted|, inFlight[0])));
        postTail := NextSlot(postTail);
        if postTail == 0 {
          devicePhase := 1 - devicePhase;
        }
        inFlight := inFlight[1..];
        assert inFlight == submitted[n + 1..fetched];
      }
    }

    /** The device's actions in one gap between two host steps. */
    method DeviceRun(acts: seq<DeviceAct>)
      requires Linked()
      modifies this`fetchHead, this`fetched, this`postTail, this`devicePhase, this`inFlight, this`posted, cq
      ensures Linked() && old(posted) <= posted
      ensures Done() == AfterActs(old(Done()), acts, |acts|, rung, released)
    {
      hide Linked, AfterAct;
      for k := 0 to |acts|
        invariant Linked() && old(posted) <= posted
        invariant Done() == AfterActs(old(Done()), acts, k, rung, released)
      {
        match acts[k]
        case Fetch => DeviceFetch();
        case Post => DevicePost();
      }
    }

    /** The first half of a submit: stamp the command, write it, move the tail, ring the doorbell. */
    method Enqueue(cmd: Command, device: Schedule) returns (stamped: Command)
      requires Linked() && sqTail == Slot(|submitted|) && Numbered(submitted, nextCommandId)
      requires Backlog() < QUEUE_DEPTH - 1
      modifies this`nextCommandId, this`sqTail, this`tailDoorbell, this`rung, this`submitted, sq
      modifies this`fetchHead, this`fetched, this`postTail, this`devicePhase, this`inFlight, this`posted, cq
      ensures Linked() && rung == |submitted| && sqTail == Slot(|submitted|)
      ensures stamped == Stamp(cmd, old(nextCommandId))
      ensures submitted == old(submitted) + [stamped] && Numbered(submitted, nextCommandId)
      ensures nextCommandId == NextId(old(nextCommandId))
      ensures Done() ==
                AfterGaps(AfterGaps(old(Done()), device, 0, 2, old(rung), released), device, 2, 1, rung, released)
    {
      hide Linked, Slot, NextSlot, Phase, Stamp, NextId, SameCommand, Numbered;
      SlotNext(|submitted|);
      NumberedMore(submitted, nextCommandId, cmd);
      stamped := Stamp(cmd, nextCommandId);
      nextCommandId := NextId(nextCommandId);
      WriteCommand(stamped);
      Announce(device);
    }

    /** The device may act before the tail moves, before the doorbell rings, and after. */
    method Announce(device: Schedule)
      requires Linked() && Slot(|submitted|) == NextSlot(sqTail)
      modifies this`sqTail, this`tailDoorbell, this`rung
      modifies this`fetchHead, this`fetched, this`postTail, this`devicePhase, this`inFlight, this`posted, cq
      ensures Linked() && rung == |submitted| && sqTail == Slot(|submitted|)
      ensures Done() ==
                AfterGaps(AfterGaps(old(Done()), device, 0, 2, old(rung), released), device, 2, 1, rung, released)
    {
      hide Linked, Slot, NextSlot, AfterActs;
      ghost var c := Done();
      DeviceRun(device(0));
      sqTail := NextSlot(sqTail);
      assert Done() == AfterGaps(c, device, 0, 1, rung, released);
      DeviceRun(device(1));
      assert Done() == AfterGaps(c, device, 0, 2, rung, released);
      RingTail();
      DeviceRun(device(2));
    }

    method RingTail()
      requires Linked() && sqTail == Slot(|submitted|)
      modifies this`tailDoorbell, this`rung
      ensures Linked() && rung == |submitted|
    {
      tailDoorbell := sqTail;
      rung := |submitted|;
    }

    method WriteCommand(cmd: Command)
      requires Linked() && sqTail == Slot(|submitted|) && Backlog() < QUEUE_DEPTH - 1
      modifies this`submitted, sq
      ensures Linked() && submitted == old(submitted) + [cmd]
    {
      hide Slot, NextSlot, Phase, Fresh, Stale, Answered, Written, Low15;
      InRing();
      FreeSlot(fetched, |submitted|);
      ghost var before, was := submitted, sq[..];
      sq[sqTail] := cmd;
      submitted := submitted + [cmd];
      AnsweredStill(before);
      WrittenMore(before, was, cmd);
    }

    lemma InRing()
      requires Linked()
      ensures sq.Length == QUEUE_DEPTH && |posted| <= fetched <= |submitted|
      ensures forall i | 0 <= i < |posted| :: posted[i] == Low15(answer(i, submitted[i]))
      ensures forall i: nat | fetched <= i < |submitted| :: Slot(i) < QUEUE_DEPTH && sq[Slot(i)] == submitted[i]
    {
    }

    lemma AnsweredStill(before: seq<Command>)
      requires before <= submitted && |posted| <= |before|
      requires forall i | 0 <= i < |posted| :: posted[i] == Low15(answer(i, before[i]))
      ensures Answered()
    {
    }

    lemma WrittenMore(before: seq<Command>, was: seq<Command>, cmd: Command)
      requires sq.Length == QUEUE_DEPTH == |was| && submitted == before + [cmd] && fetched <= |before|
      requires Slot(|before|) < QUEUE_DEPTH && sq[..] == was[Slot(|before|) := cmd]
      requires forall i: nat | fetched <= i < |before| :: Slot(i) < QUEUE_DEPTH && was[Slot(i)] == before[i]
      requires forall i: nat | fetched <= i < |before| :: Slot(i) != Slot(|before|)
      ensures Written()
    {
      hide Slot;
      forall i: nat | fetched <= i < |submitted|
        ensures Slot(i) < QUEUE_DEPTH && sq[Slot(i)] == submitted[i]
      {
        assert i < |before| ==> sq[..][Slot(i)] == was[Slot(i)];
        assert i == |before| ==> sq[..][Slot(i)] == cmd;
      }
    }

    /** The second half: poll the completion slot at the head until its phase bit turns. */
    method Poll(device: Schedule) returns (status: nat)
      requires Linked() && rung == |submitted| && released == consumed
      requires sqTail == Slot(|submitted|) && cqHead == Slot(consumed) && hostPhase == Phase(consumed)
      modifies this`cqHead, this`hostPhase, this`headDoorbell, this`consumed, this`released
      modifies this`fetchHead, this`fetched, this`postTail, this`devicePhase, this`inFlight, this`posted, cq
      ensures Linked() && rung == |submitted| && released == consumed
      ensures sqTail == Slot(|submitted|) && cqHead == Slot(consumed) && hostPhase == Phase(consumed)
      ensures status == TIMED_OUT ==> consumed == old(consumed)
      ensures status != TIMED_OUT ==> && consumed == old(consumed) + 1
                                      && status == Low15(answer(old(consumed), submitted[old(consumed)]))
      ensures status == TIMED_OUT <==>
                AfterGaps(old(Done()), device, 3, POLLS - 1, rung, old(released)).posted <= old(consumed)
    {
      hide Linked, Slot, NextSlot, Phase, AfterActs;
      ghost var c, r := Done(), released;
      var i, found := 0, false;
      while i < POLLS && !found
        invariant 0 <= i <= POLLS
        invariant Linked() && rung == |submitted| && released == consumed == old(consumed) == r
        invariant cqHead == Slot(consumed) && hostPhase == Phase(consumed)
        invariant found ==> consumed < |posted|
        invariant Done() == AfterGaps(c, device, 3, i, rung, r)
        invariant i == 0 ==> !found
        invariant i > 0 ==> (found <==> AfterGaps(c, device, 3, i - 1, rung, r).posted > consumed)
        decreases POLLS - i, !found
      {
        found := PhaseTurned();
        DeviceRun(device(3 + i));
        i := i + 1;
      }
      GapsRise(c, device, 3, i - 1, POLLS - 1, rung, r);
      status := TIMED_OUT;
      if found {
        status := ReadStatus();
        Take(device(3 + POLLS));
      }
    }

    /** The first read of the completion: its phase bit matches exactly when the device has posted it. */
    method PhaseTurned() returns (found: bool)
      requires Linked() && cqHead == Slot(consumed) && hostPhase == Phase(consumed)
      ensures found == (consumed < |posted|)
    {
      found := cq[cqHead] % 2 == hostPhase;
      if consumed < |posted| {
        assert cq[Slot(consumed)] == posted[consumed] * 2 + Phase(consumed);
      } else {
        assert cq[Slot(consumed)] % 2 != Phase(consumed);
      }
    }

    /** The second read of the completion: its status. */
    method ReadStatus() returns (status: nat)
      requires Linked() && cqHead == Slot(consumed) && consumed < |posted|
      ensures status == Low15(answer(consumed, submitted[consumed]))
    {
      status := cq[cqHead] / 2;
      assert cq[Slot(consumed)] == posted[consumed] * 2 + Phase(consumed);
    }

    /** Move the completion head, flip the expected phase on a wrap, and release the slot. */
    method Take(acts: seq<DeviceAct>)
      requires Linked() && rung == |submitted| && released == consumed < |posted|
      requires cqHead == Slot(consumed) && hostPhase == Phase(consumed)
      modifies this`cqHead, this`hostPhase, this`headDoorbell, this`consumed, this`released
      modifies this`fetchHead, this`fetched, this`postTail, this`devicePhase, this`inFlight, this`posted, cq
      ensures Linked() && released == consumed == old(consumed) + 1
      ensures cqHead == Slot(consumed) && hostPhase == Phase(consumed) && old(posted) <= posted
    {
      SlotNext(consumed);
      hide Linked, Slot, NextSlot, Phase;
      cqHead := NextSlot(cqHead);
      if cqHead == 0 {
        hostPhase := 1 - hostPhase;
      }
      CountTaken();
      DeviceRun(acts);
      RingHead();
    }

    /** Taking a completion makes its slot the one that must next turn the other way. */
    ghost method CountTaken()
      requires Linked() && released == consumed < |posted|
      modifies this`consumed
      ensures Linked() && consumed == old(consumed) + 1
    {
      hide Slot, NextSlot, Phase, Low15, Answered, Written;
      NewlyStale();
      consumed := consumed + 1;
      assert cq[Slot(consumed - 1 + QUEUE_DEPTH)] % 2 != Phase(consumed - 1 + QUEUE_DEPTH);
    }

    lemma NewlyStale()
      requires Linked() && consumed < |posted|
      ensures cq.Length == QUEUE_DEPTH && Slot(consumed + QUEUE_DEPTH) < QUEUE_DEPTH
      ensures cq[Slot(consumed + QUEUE_DEPTH)] % 2 != Phase(consumed + QUEUE_DEPTH)
    {
      hide Slot, Phase, NextSlot, Stale, Answered, Written, Low15;
      SlotNext(consumed);
      SlotRange(consumed);
      assert cq[Slot(consumed)] == posted[consumed] * 2 + Phase(consumed);
      EvenPart(posted[consumed], Phase(consumed));
    }

    lemma SlotRange(n: nat)
      ensures Slot(n) < QUEUE_DEPTH && Phase(n) < 2
    {
    }

    lemma EvenPart(x: nat, phase: nat)
      requires phase < 2
      ensures (x * 2 + phase) % 2 == phase
    {
    }

    method RingHead()
      requires Linked() && cqHead == Slot(consumed)
      modifies this`headDoorbell, this`released
      ensures Linked() && released == consumed
    {
      headDoorbell := cqHead;
      released := consumed;
    }

    /**
     * SubmitAdminCommand and SubmitIoCommand. With `b` completions outstanding from calls that timed out, a call
     * returns the status of the command submitted `b` calls before it: its own exactly when none is outstanding. It
     * times out exactly when the device has not posted the completion awaited by the time of the last poll.
     */
    method Submit(cmd: Command, device: Schedule) returns (status: nat, ghost index: nat)
      requires Valid() && Backlog() < QUEUE_DEPTH - 1
      modifies this, sq, cq
      ensures Valid()
      ensures |submitted| == old(|submitted|) + 1 && old(submitted) <= submitted
      ensures submitted[old(|submitted|)] == Stamp(cmd, old(nextCommandId))
      ensures status != TIMED_OUT ==> && Backlog() == old(Backlog()) && index + old(Backlog()) == old(|submitted|)
                                      && status == Low15(answer(index, submitted[index]))
      ensures status == TIMED_OUT ==> Backlog() == old(Backlog()) + 1
      ensures status == TIMED_OUT <==> old(PostedInTime(device)) <= old(consumed)
    {
      hide Linked, Slot, Phase, AfterGaps, AfterActs, Low15, Stamp, Numbered;
      ghost var rings := AfterGaps(Done(), device, 0, 2, rung, released);
      GapsSplit(rings, device, 2, POLLS - 1, |submitted| + 1, released);
      var stamped := Enqueue(cmd, device);
      index := consumed;
      status := Poll(device);
    }

    /** In an idle queue that depends on the device alone. */
    lemma IdleInTime(device: Schedule)
      requires Valid() && Backlog() == 0
      ensures PostedInTime(device) <= consumed <==> !Prompt(device)
    {
      hide AfterActs, AfterGaps, Slot, Phase;
      var n := |submitted|;
      GapsIdle(n, device, 0, 2, n);
      GapsShift(Counts(0, 0), device, 2, POLLS, 1, 0, n);
    }

    /** A call on an idle queue. */
    method SubmitIdle(cmd: Command, device: Schedule) returns (status: nat)
      requires Valid() && Backlog() == 0
      modifies this, sq, cq
      ensures Valid() && |submitted| == old(|submitted|) + 1 && old(submitted) <= submitted
      ensures SameCommand(submitted[old(|submitted|)], cmd)
      ensures status == TIMED_OUT <==> !Prompt(device)
      ensures status != TIMED_OUT ==>
                Backlog() == 0 && status == Low15(answer(old(|submitted|), submitted[old(|submitted|)]))
    {
      hide Valid, Prompt, Low15, PostedInTime, SameCommand;
      IdleInTime(device);
      Stamped(cmd, nextCommandId);
      ghost var index;
      status, index := Submit(cmd, device);
    }

    lemma Stamped(cmd: Command, id: nat)
      ensures SameCommand(Stamp(cmd, id), cmd)
    {
    }

    /**
     * A run of calls from an idle queue, up to the first that times out: the i-th returns the i-th command's status.
     * A call times out exactly when its device is not prompt, so with prompt devices every call is answered.
     */
    method SubmitAll(cmds: seq<Command>, devices: seq<Schedule>) returns (results: seq<nat>)
      requires Valid() && Backlog() == 0 && |devices| == |cmds|
      modifies this, sq, cq
      ensures Valid() && |results| <= |cmds| && old(submitted) <= submitted
      ensures |submitted| == old(|submitted|) + |results|
      ensures TIMED_OUT !in results ==> |results| == |cmds|
      ensures forall i | 0 <= i < |results| :: results[i] == TIMED_OUT <==> !Prompt(devices[i])
      ensures forall i | 0 <= i < |results| && results[i] != TIMED_OUT ::
                var k := old(|submitted|) + i;
                SameCommand(submitted[k], cmds[i]) && results[i] == Low15(answer(k, submitted[k]))
    {
      hide Valid, Prompt, Low15, SameCommand, PostedInTime;
      results := [];
      ghost var base := |submitted|;
      var timedOut := false;
      while |results| < |cmds| && !timedOut
        invariant Valid() && |results| <= |cmds| && old(submitted) <= submitted
        invariant |submitted| == base + |results|
        invariant timedOut || (Backlog() == 0 && TIMED_OUT !in results)
        invariant timedOut ==> TIMED_OUT in results
        invariant forall i | 0 <= i < |results| :: results[i] == TIMED_OUT <==> !Prompt(devices[i])
        invariant forall i | 0 <= i < |results| && results[i] != TIMED_OUT ::
                    var k := base + i;
                    SameCommand(submitted[k], cmds[i]) && results[i] == Low15(answer(k, submitted[k]))
        decreases |cmds| - |results|
      {
        var status := SubmitIdle(cmds[|results|], devices[|results|]);
        timedOut := status == TIMED_OUT;
        results := results + [status];
      }
    }
  }

  /** Fetching and posting leaves at least one completion posted. */
  lemma FetchPost(c: Counts, acts: seq<DeviceAct>, rung: nat, released: nat)
    requires acts == [Fetch, Post] && c.posted <= c.fetched && 1 <= rung && c.posted + 1 < released + QUEUE_DEPTH
    ensures AfterActs(c, acts, 2, rung, released).posted >= 1
  {
    assert AfterActs(c, acts, 1, rung, released) == AfterAct(c, Fetch, rung, released);
  }

  lemma {:induction false} GapsSilent(c: Counts, device: Schedule, from: nat, n: nat, rung: nat, released: nat)
    requires forall k :: device(k) == []
    ensures AfterGaps(c, device, from, n, rung, released) == c
  {
    if n > 0 {
      GapsSilent(c, device, from, n - 1, rung, released);
    }
  }

  /** A device that sleeps through the first call and then answers: the second call returns the first one's status. */
  method TimeoutShifts(cmd: Command) returns (first: nat, second: nat, own: nat)
    ensures first == TIMED_OUT && second == 5 && own == 6
  {
    hide QueuePair.Valid, QueuePair.PostedInTime, Low15, Stamp, NextId;
    SmallStatus(5);
    SmallStatus(6);
    var q := new QueuePair((i, c) => i + 5, cmd);
    var silent: Schedule, awake: Schedule := k => [], k => if k == 2 then [Fetch, Post] else [];
    SilentIsLate(q, silent);
    ghost var index;
    first, index := q.Submit(cmd, silent);
    assert first == TIMED_OUT;
    AwakeInTime(q, awake);
    second, index := q.Submit(cmd, awake);
    own := Low15(q.answer(1, cmd));
  }

  lemma SmallStatus(s: nat)
    ensures s < 0x8000 ==> Low15(s) == s
  {
  }

  lemma SilentIsLate(q: QueuePair, silent: Schedule)
    requires q.Valid() && q.submitted == [] && q.consumed == 0 && forall k :: silent(k) == []
    ensures q.PostedInTime(silent) <= q.consumed
  {
    var rings := AfterGaps(q.Done(), silent, 0, 2, q.rung, q.released);
    GapsSilent(q.Done(), silent, 0, 2, q.rung, q.released);
    GapsSilent(rings, silent, 2, POLLS, |q.submitted| + 1, q.released);
  }

  lemma AwakeInTime(q: QueuePair, awake: Schedule)
    requires q.Valid() && |q.submitted| == 1 && q.consumed == 0
    requires forall k :: awake(k) == if k == 2 then [Fetch, Post] else []
    ensures q.PostedInTime(awake) > q.consumed
  {
    hide AfterActs;
    var c := q.Done();
    assert AfterGaps(c, awake, 0, 1, q.rung, q.released) == c && AfterGaps(c, awake, 0, 2, q.rung, q.released) == c by {
      NoActs(c, q.rung, q.released);
    }
    FetchPost(c, [Fetch, Post], 2, q.released);
    assert AfterGaps(c, awake, 2, 1, 2, q.released) == AfterActs(c, [Fetch, Post], 2, 2, q.released);
    GapsRise(c, awake, 2, 1, POLLS, 2, q.released);
  }

  lemma NoActs(c: Counts, rung: nat, released: nat)
    ensures AfterActs(c, [], 0, rung, released) == c
  {
  }
}
