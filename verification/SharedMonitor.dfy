/**
 The ring of semaphores behind the shared monitor: a condition variable built from a
 queue of semaphores, one for each waiter.
 */
module SharedMonitors {
  import opened RoadGraph

  const BUFFER_SIZE: nat := 16384

  /** The slot of the `ticket`-th semaphore ever enqueued. */
  function SlotOf(ticket: nat): (slot: nat)
    ensures slot < BUFFER_SIZE
  {
    ticket % BUFFER_SIZE
  }

  /** Tickets closer together than the buffer is long never share a slot. */
  lemma SlotsDiffer(a: nat, b: nat)
    requires a < b < a + BUFFER_SIZE
    ensures SlotOf(a) != SlotOf(b)
  {
  }

  /** The next ticket to use the slot again. */
  lemma SlotRepeats(a: nat)
    ensures SlotOf(a + BUFFER_SIZE) == SlotOf(a)
  {
  }

  /** Moving an index on by one. */
  lemma NextSlot(a: nat)
    ensures (SlotOf(a) + 1) % BUFFER_SIZE == SlotOf(a + 1)
  {
  }

  class InternalData {
    var head: nat
    var tail: nat

    /** Semaphore counts; `None` is a slot that never held a semaphore. */
    var buffer: seq<Option<nat>>

    /** How many semaphores were ever enqueued and dequeued. */
    ghost var headTicket: nat
    ghost var tailTicket: nat

    ghost predicate Valid()
      reads this
    {
      && |buffer| == BUFFER_SIZE
      && head == SlotOf(headTicket) && tail == SlotOf(tailTicket)
      && tailTicket <= headTicket && headTicket - tailTicket < BUFFER_SIZE / 2
      && forall t: nat :: tailTicket <= t < headTicket ==> buffer[SlotOf(t)].Some?
    }

    constructor ()
      ensures Valid() && headTicket == tailTicket == 0
    {
      head, tail := 0, 0;
      buffer := seq(BUFFER_SIZE, _ => None);
      headTicket, tailTicket := 0, 0;
    }

    /** Queue length from the two indices alone; correct as long as the queue is shorter than the buffer. */
    function Size(): (n: nat)
      reads this
      requires head < BUFFER_SIZE && tail < BUFFER_SIZE
      ensures forall h: nat, t: nat {:trigger SlotOf(h), SlotOf(t)} ::
                head == SlotOf(h) && tail == SlotOf(t) && t <= h < t + BUFFER_SIZE ==> n == h - t
    {
      if head >= tail then head - tail else BUFFER_SIZE + head - tail
    }

    predicate Empty()
      reads this
      requires Valid()
      ensures Empty() <==> headTicket == tailTicket
    {
      assert headTicket > tailTicket ==> SlotOf(tailTicket) != SlotOf(headTicket) by {
        if headTicket > tailTicket {
          SlotsDiffer(tailTicket, headTicket);
        }
      }
      tail == head
    }

    /**
     A fresh semaphore at the head, or a failure when half of the buffer would be queued.
     The head has moved on even then.
     */
    method EnqueueSemaphore() returns (slot: Option<nat>)
      requires Valid()
      modifies this
      ensures slot.None? <==> old(headTicket - tailTicket) + 1 >= 8192
      ensures slot.Some? ==>
                && Valid() && headTicket == old(headTicket) + 1 && tailTicket == old(tailTicket)
                && slot.value == SlotOf(old(headTicket)) && buffer == old(buffer)[slot.value := Some(0)]
      ensures slot.None? ==> head == SlotOf(old(headTicket) + 1) && buffer == old(buffer) && tail == old(tail)
    {
      hide SlotOf;
      var semaphore := head;
      NextSlot(headTicket);
      ghost var queued := headTicket + 1 - tailTicket;
      head := (head + 1) % BUFFER_SIZE;
      headTicket := headTicket + 1;
      assert Size() == queued;
      if Size() >= BUFFER_SIZE / 2 {
        return None;
      }
      buffer := buffer[semaphore := Some(0)];
      slot := Some(semaphore);
    }

    /** The oldest queued semaphore. */
    method DequeueSemaphore() returns (slot: nat)
      requires Valid() && headTicket > tailTicket
      modifies this`tail, this`tailTicket
      ensures Valid() && tailTicket == old(tailTicket) + 1 && slot == SlotOf(old(tailTicket))
    {
      NextSlot(tailTicket);
      hide SlotOf;
      slot := tail;
      tail := (tail + 1) % BUFFER_SIZE;
      tailTicket := tailTicket + 1;
    }

    /** `notify_all`: every queued semaphore is posted once, in queue order, and the queue is empty. */
    method NotifyAll() returns (ghost posted: seq<nat>)
      requires Valid()
      modifies this
      ensures Valid() && headTicket == tailTicket == old(headTicket)
      ensures |posted| == old(headTicket - tailTicket)
              && forall k :: 0 <= k < |posted| ==> posted[k] == SlotOf(old(tailTicket) + k)
      ensures forall t: nat :: old(tailTicket) <= t < old(headTicket) ==>
                old(buffer)[SlotOf(t)].Some? && buffer[SlotOf(t)] == Some(old(buffer)[SlotOf(t)].value + 1)
      ensures forall slot :: 0 <= slot < BUFFER_SIZE && slot !in posted ==> buffer[slot] == old(buffer)[slot]
    {
      posted := [];
      while !Empty()
        invariant Valid() && headTicket == old(headTicket) && old(tailTicket) <= tailTicket
        invariant |posted| == tailTicket - old(tailTicket)
        invariant forall k :: 0 <= k < |posted| ==> posted[k] == SlotOf(old(tailTicket) + k)
        invariant forall t: nat :: old(tailTicket) <= t < tailTicket ==>
                    old(buffer)[SlotOf(t)].Some? && buffer[SlotOf(t)] == Some(old(buffer)[SlotOf(t)].value + 1)
        invariant forall t: nat :: tailTicket <= t < headTicket ==> buffer[SlotOf(t)] == old(buffer)[SlotOf(t)]
        invariant forall slot :: 0 <= slot < BUFFER_SIZE && slot !in posted ==> buffer[slot] == old(buffer)[slot]
        decreases headTicket - tailTicket
      {
        ghost var ticket := tailTicket;
        var slot := DequeueSemaphore();
        forall t: nat | old(tailTicket) <= t < headTicket && t != ticket ensures SlotOf(t) != slot {
          if t < ticket {
            SlotsDiffer(t, ticket);
          } else {
            SlotsDiffer(ticket, t);
          }
        }
        buffer := buffer[slot := Some(buffer[slot].value + 1)];
        posted := posted + [slot];
      }
    }
  }
}
