/** kernel/keyboard.c: the key ring filled by the interrupt handler and drained by the main code. */
module Keyboard {
  const KEY_BUFFER_SIZE := 256

  function Slot(i: nat): (s: nat)
    ensures s < KEY_BUFFER_SIZE
  {
    i % KEY_BUFFER_SIZE
  }

  function Next(s: nat): (r: nat)
    ensures r < KEY_BUFFER_SIZE
  {
    (s + 1) % KEY_BUFFER_SIZE
  }

  lemma SlotStep(i: nat)
    ensures Slot(i + 1) == Next(Slot(i))
  {
    var q, r := i / KEY_BUFFER_SIZE, i % KEY_BUFFER_SIZE;
    Place(q, r);
    if r + 1 < KEY_BUFFER_SIZE {
      Place(q, r + 1);
    } else {
      Place(q + 1, 0);
    }
  }

  /** The `r`-th place of the `q`-th pass over the ring. */
  lemma Place(q: nat, r: nat)
    requires r < KEY_BUFFER_SIZE
    ensures Slot(q * KEY_BUFFER_SIZE + r) == r
  {
  }

  lemma SlotsDiffer(i: nat, j: nat)
    requires i < j < i + KEY_BUFFER_SIZE
    ensures Slot(i) != Slot(j)
  {
  }

  lemma SlotAgain(i: nat)
    ensures Slot(i + KEY_BUFFER_SIZE) == Slot(i)
  {
  }

  lemma SlotRange(i: nat)
    ensures Slot(i) < KEY_BUFFER_SIZE
  {
  }

  /** With `from..n` pending, slot `n` is unused, and the one after it is the oldest's only when 255 are pending. */
  lemma NextSlotFree(from: nat, n: nat)
    requires from <= n < from + KEY_BUFFER_SIZE
    ensures Slot(n) < KEY_BUFFER_SIZE && Slot(n + 1) == Next(Slot(n))
    ensures forall i: nat | from <= i < n :: Slot(i) != Slot(n)
    ensures Next(Slot(n)) == Slot(from) <==> n - from == KEY_BUFFER_SIZE - 1
  {
    hide Slot, Next;
    SlotStep(n);
    SlotRange(n);
    forall i: nat | from <= i < n
      ensures Slot(i) != Slot(n)
    {
      SlotsDiffer(i, n);
    }
    if n - from < KEY_BUFFER_SIZE - 1 {
      SlotsDiffer(from, n + 1);
    } else {
      SlotAgain(from);
    }
  }

  class KeyRing {
    const buffer: array<int>
    var head: nat
    var tail: nat
    /** Every key stored so far, every key handed out so far, and how many were refused. */
    ghost var accepted: seq<int>
    ghost var consumed: seq<int>
    ghost var dropped: nat

    ghost function Pending(): int
      reads this`accepted, this`consumed
    {
      |accepted| - |consumed|
    }

    /** What was handed out is a prefix of what was stored, and the ring holds exactly the rest. */
    ghost predicate Valid()
      reads this`head, this`tail, this`accepted, this`consumed, buffer
    {
      && buffer.Length == KEY_BUFFER_SIZE
      && consumed <= accepted && Pending() < KEY_BUFFER_SIZE
      && head == Slot(|accepted|) && tail == Slot(|consumed|)
      && forall i: nat | |consumed| <= i < |accepted| :: buffer[Slot(i)] == accepted[i]
    }

    constructor ()
      ensures Valid() && fresh(buffer) && accepted == consumed == [] && dropped == 0
    {
      buffer := new int[KEY_BUFFER_SIZE](_ => 0);
      head, tail := 0, 0;
      accepted, consumed, dropped := [], [], 0;
    }

    /** PushChar: stores the key, and refuses it only when 255 keys are pending. */
    method PushChar(c: int)
      requires Valid()
      modifies this`head, this`accepted, this`dropped, buffer
      ensures Valid()
      ensures accepted == if old(Pending()) < KEY_BUFFER_SIZE - 1 then old(accepted) + [c] else old(accepted)
      ensures dropped == old(dropped) + if old(Pending()) < KEY_BUFFER_SIZE - 1 then 0 else 1
    {
      hide Slot, Next;
      NextSlotFree(|consumed|, |accepted|);
      var next := Next(head);
      if next == tail {
        dropped := dropped + 1;
        return;
      }
      buffer[head] := c;
      head := next;
      accepted := accepted + [c];
    }

    /** Interrupts that arrive between two steps of the main code. */
    method Interrupts(keys: seq<int>)
      requires Valid()
      modifies this`head, this`accepted, this`dropped, buffer
      ensures Valid() && old(accepted) <= accepted
    {
      hide Valid;
      for i := 0 to |keys|
        invariant Valid() && old(accepted) <= accepted
      {
        PushChar(keys[i]);
      }
    }

    /**
     * KeyboardGetKey, one memory access at a time, with interrupts in every gap; `headFirst` is the order in
     * which the comparison loads its operands. A key pending at the call is always delivered, in order.
     */
    method GetKey(irqs: nat -> seq<int>, headFirst: bool) returns (key: int, ghost took: bool)
      requires Valid()
      modifies this, buffer
      ensures Valid() && old(accepted) <= accepted
      ensures took ==> consumed == old(consumed) + [key]
      ensures !took ==> key == 0 && consumed == old(consumed)
      ensures old(Pending()) > 0 ==> took
    {
      var empty := LooksEmpty(irqs, headFirst);
      key, took := 0, !empty;
      if empty {
        return;
      }
      Interrupts(irqs(2));
      key := Front();
      Interrupts(irqs(3));
      Advance();
      Interrupts(irqs(4));
    }

    /** The comparison of tail and head. It may miss a key that arrives meanwhile, but never invents one. */
    method LooksEmpty(irqs: nat -> seq<int>, headFirst: bool) returns (empty: bool)
      requires Valid()
      modifies this`head, this`accepted, this`dropped, buffer
      ensures Valid() && old(accepted) <= accepted
      ensures !empty ==> Pending() > 0
      ensures old(Pending()) > 0 ==> !empty
    {
      Interrupts(irqs(0));
      var h, t := head, tail;
      ghost var seen := |accepted|;
      if |consumed| < seen {
        SlotsDiffer(|consumed|, seen);
      }
      Interrupts(irqs(1));
      if !headFirst {
        h := head;
        if |consumed| < |accepted| {
          SlotsDiffer(|consumed|, |accepted|);
        }
      }
      empty := t == h;
    }

    method Front() returns (key: int)
      requires Valid() && Pending() > 0
      ensures key == accepted[|consumed|]
    {
      key := buffer[tail];
      assert buffer[Slot(|consumed|)] == accepted[|consumed|];
    }

    method Advance()
      requires Valid() && Pending() > 0
      modifies this`tail, this`consumed
      ensures Valid() && consumed == old(consumed) + [accepted[old(|consumed|)]]
    {
      SlotStep(|consumed|);
      tail := Next(tail);
      consumed := consumed + [accepted[|consumed|]];
    }
  }
}
