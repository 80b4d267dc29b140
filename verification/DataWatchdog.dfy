/**
 Watchdogs, their destructors and the process that publishes new data, as interleaved
 steps over one shared monitor. Any number of watchdogs share the monitor.
 */
module DataWatchdogs {
  import opened SharedMonitors

  /** Timestamps of the static and of the updatable region. */
  datatype Version = Version(staticPart: nat, updatablePart: nat)

  /** Where a watchdog thread stands in `Run`. */
  datatype Location =
    | Top                      // outer `while (active)`
    | Entering                 // waits for the mutex
    | Checking                 // inner loop condition, mutex held
    | Waiting                  // about to enqueue, mutex held
    | Enqueued(ticket: nat)    // semaphore created, mutex held
    | Sleeping(ticket: nat)    // in the semaphore's wait
    | Waking                   // waits for the mutex again
    | Decided                  // left the inner loop, mutex held
    | Copying                  // about to copy the static region, mutex held
    | StaticCopied             // about to copy the updatable region, mutex held
    | Loaded                   // regions copied, mutex held
    | Stopped
  {
    predicate Holding() {
      Checking? || Waiting? || Enqueued? || Decided? || Copying? || StaticCopied? || Loaded?
    }

    predicate InQueue() {
      Enqueued? || Sleeping?
    }
  }

  /** Where a destructor stands. */
  datatype Closing = Alive | Deactivated | Posting | Notified

  /** Where the publisher stands. */
  datatype Publishing = Idle | Swapping | StaticSwapped | UpdatableSwapped | Changed | Announcing
  {
    /** In the loop that replaces the regions, mutex held. */
    predicate InSwap() {
      Swapping? || StaticSwapped? || UpdatableSwapped?
    }
  }

  datatype Owner = Nobody | ByWatchdog(w: nat) | ByDestructor(w: nat) | ByPublisher

  datatype State = State(headTicket: nat, tailTicket: nat, counts: seq<nat>, owner: Owner, at: seq<Location>,
                         active: seq<bool>, known: seq<Version>, facade: seq<Version>, closing: seq<Closing>,
                         publisher: Publishing, current: Version, history: set<Version>)
  {
    ghost predicate Shaped() {
      && |counts| == BUFFER_SIZE
      && |at| == |active| == |known| == |facade| == |closing|
    }
  }

  datatype Step =
    | Outer(w: nat) | Lock(w: nat) | Check(w: nat) | Enqueue(w: nat) | Unlock(w: nat) | Wake(w: nat) | Relock(w: nat)
    | Decide(w: nat) | CopyStatic(w: nat) | CopyUpdatable(w: nat) | Swap(w: nat)
    | Deactivate(w: nat) | DestructorLock(w: nat) | DestructorDone(w: nat)
    | PublisherLock | SwapStatic | SwapUpdatable | PublisherUnlock | AnnounceLock | AnnounceDone
    | Post

  // ---------- the steps ----------

  ghost predicate Enabled(s: State, step: Step)
    requires s.Shaped()
  {
    match step
    case Outer(w) => w < |s.at| && s.at[w].Top?
    case Lock(w) => w < |s.at| && s.at[w].Entering? && s.owner.Nobody?
    case Check(w) => w < |s.at| && s.at[w].Checking?
    case Enqueue(w) => w < |s.at| && s.at[w].Waiting? && s.headTicket - s.tailTicket + 1 < BUFFER_SIZE / 2
    case Unlock(w) => w < |s.at| && s.at[w].Enqueued?
    case Wake(w) => w < |s.at| && s.at[w].Sleeping? && s.counts[SlotOf(s.at[w].ticket)] > 0
    case Relock(w) => w < |s.at| && s.at[w].Waking? && s.owner.Nobody?
    case Decide(w) => w < |s.at| && s.at[w].Decided?
    case CopyStatic(w) => w < |s.at| && s.at[w].Copying?
    case CopyUpdatable(w) => w < |s.at| && s.at[w].StaticCopied?
    case Swap(w) => w < |s.at| && s.at[w].Loaded?
    case Deactivate(w) => w < |s.at| && s.closing[w].Alive?
    case DestructorLock(w) => w < |s.at| && s.closing[w].Deactivated? && s.owner.Nobody?
    case DestructorDone(w) => w < |s.at| && s.closing[w].Posting? && s.tailTicket == s.headTicket
    case PublisherLock => s.publisher.Idle? && s.owner.Nobody?
    case SwapStatic => s.publisher.Swapping?
    case SwapUpdatable => s.publisher.Swapping? || s.publisher.StaticSwapped?
    case PublisherUnlock => s.publisher.InSwap()
    case AnnounceLock => s.publisher.Changed? && s.owner.Nobody?
    case AnnounceDone => s.publisher.Announcing? && s.tailTicket == s.headTicket
    case Post => (s.owner.ByDestructor? || (s.owner.ByPublisher? && s.publisher.Announcing?))
                 && s.tailTicket < s.headTicket
  }

  ghost function Apply(s: State, step: Step): (r: State)
    requires s.Shaped() && Enabled(s, step)
    ensures r.Shaped() && |r.at| == |s.at|
  {
    match step
    case Outer(w) => s.(at := s.at[w := if s.active[w] then Entering else Stopped])
    case Lock(w) => s.(at := s.at[w := Checking], owner := ByWatchdog(w))
    case Check(w) => s.(at := s.at[w := if s.active[w] && s.known[w] == s.current then Waiting else Decided])
    case Enqueue(w) =>
      // the semaphore in the slot is created anew, whoever may still use it
      s.(at := s.at[w := Enqueued(s.headTicket)], headTicket := s.headTicket + 1,
         counts := s.counts[SlotOf(s.headTicket) := 0])
    case Unlock(w) => s.(at := s.at[w := Sleeping(s.at[w].ticket)], owner := Nobody)
    case Wake(w) =>
      var slot := SlotOf(s.at[w].ticket);
      s.(at := s.at[w := Waking], counts := s.counts[slot := s.counts[slot] - 1])
    case Relock(w) => s.(at := s.at[w := Checking], owner := ByWatchdog(w))
    case Decide(w) =>
      if s.active[w] then s.(at := s.at[w := Copying]) else s.(at := s.at[w := Stopped], owner := Nobody)
    case CopyStatic(w) =>
      s.(at := s.at[w := StaticCopied],
         known := if s.known[w].staticPart == s.current.staticPart then s.known
                  else s.known[w := s.known[w].(staticPart := s.current.staticPart)])
    case CopyUpdatable(w) =>
      s.(at := s.at[w := Loaded],
         known := if s.known[w].updatablePart == s.current.updatablePart then s.known
                  else s.known[w := s.known[w].(updatablePart := s.current.updatablePart)])
    case Swap(w) => s.(at := s.at[w := Top], facade := s.facade[w := s.known[w]], owner := Nobody)
    case Deactivate(w) => s.(active := s.active[w := false], closing := s.closing[w := Deactivated])
    case DestructorLock(w) => s.(closing := s.closing[w := Posting], owner := ByDestructor(w))
    case DestructorDone(w) => s.(closing := s.closing[w := Notified], owner := Nobody)
    case PublisherLock => s.(publisher := Swapping, owner := ByPublisher)
    // a swap may replace both regions, one of them, or only regions of another dataset
    case SwapStatic => s.(publisher := StaticSwapped, current := s.current.(staticPart := s.current.staticPart + 1))
    case SwapUpdatable => s.(publisher := UpdatableSwapped,
                             current := s.current.(updatablePart := s.current.updatablePart + 1))
    case PublisherUnlock => s.(publisher := Changed, owner := Nobody, history := s.history + {s.current})
    case AnnounceLock => s.(publisher := Announcing, owner := ByPublisher)
    case AnnounceDone => s.(publisher := Idle, owner := Nobody)
    case Post =>
      var slot := SlotOf(s.tailTicket);
      s.(tailTicket := s.tailTicket + 1, counts := s.counts[slot := s.counts[slot] + 1])
  }

  ghost predicate Init(s: State) {
    && s.Shaped() && s.headTicket == s.tailTicket == 0 && s.owner.Nobody? && s.publisher.Idle? && s.current in s.history
    && forall w: nat :: w < |s.at| ==>
         && s.at[w].Top? && s.active[w] && s.closing[w].Alive?
         && s.known[w] in s.history && s.facade[w] == s.known[w]
  }

  // ---------- what every step keeps ----------

  /** The watchdog and its destructor are inside the mutex exactly when they own it. */
  ghost predicate InsideIfOwner(s: State, w: nat)
    requires s.Shaped() && w < |s.at|
  {
    (s.at[w].Holding() <==> s.owner == ByWatchdog(w)) && (s.closing[w].Posting? <==> s.owner == ByDestructor(w))
  }

  ghost predicate MutualExclusion(s: State)
    requires s.Shaped()
  {
    && (forall w: nat :: w < |s.at| ==> InsideIfOwner(s, w))
    && (s.publisher.InSwap() || s.publisher.Announcing? <==> s.owner == ByPublisher)
    && (s.owner.ByWatchdog? || s.owner.ByDestructor? ==> s.owner.w < |s.at|)
  }

  /** Tickets are handed out once, and fewer than half of the buffer is queued. */
  ghost predicate Tickets(s: State)
    requires s.Shaped()
  {
    && s.tailTicket <= s.headTicket < s.tailTicket + BUFFER_SIZE / 2
    && (forall w: nat :: w < |s.at| && s.at[w].InQueue() ==> s.at[w].ticket < s.headTicket)
    && (forall v: nat, w: nat ::
          v < w < |s.at| && s.at[v].InQueue() && s.at[w].InQueue() ==> s.at[v].ticket != s.at[w].ticket)
  }

  /** `w` sleeps or is about to, and nobody has posted its semaphore. */
  ghost predicate Unposted(s: State, w: nat)
    requires s.Shaped() && w < |s.at|
  {
    s.at[w].Waiting? || s.at[w].Enqueued? || (s.at[w].Sleeping? && s.at[w].ticket >= s.tailTicket)
  }

  /** Whoever gives an unposted watchdog a reason to move still has its notification ahead. */
  ghost predicate NoMissedReason(s: State, w: nat)
    requires s.Shaped() && w < |s.at|
  {
    Unposted(s, w) ==>
      && (s.active[w] || s.closing[w].Deactivated? || s.closing[w].Posting?)
      && (s.known[w] == s.current || !s.publisher.Idle?)
  }

  ghost predicate Flags(s: State, w: nat)
    requires s.Shaped() && w < |s.at|
  {
    (s.active[w] <==> s.closing[w].Alive?) && (s.at[w].Enqueued? ==> s.tailTicket <= s.at[w].ticket)
  }

  /** A watchdog knows a published pair, except between its two copies, where the mutex keeps the regions still. */
  ghost predicate Consistent(s: State, w: nat)
    requires s.Shaped() && w < |s.at|
  {
    && s.facade[w] in s.history
    && (if s.at[w].StaticCopied? then s.known[w].staticPart == s.current.staticPart else s.known[w] in s.history)
  }

  ghost predicate Safe(s: State) {
    && s.Shaped() && MutualExclusion(s) && Tickets(s)
    && (s.publisher.InSwap() || s.current in s.history)
    && forall w: nat :: w < |s.at| ==> NoMissedReason(s, w) && Flags(s, w) && Consistent(s, w)
  }

  lemma InitIsSafe(s: State)
    requires Init(s)
    ensures Safe(s)
  {
  }

  lemma StepKeepsCurrent(s: State, step: Step)
    requires Safe(s) && Enabled(s, step)
    ensures Apply(s, step).publisher.InSwap() || Apply(s, step).current in Apply(s, step).history
  {
    hide Tickets, NoMissedReason, Flags, Consistent;
  }

  lemma StepKeepsMutualExclusion(s: State, step: Step)
    requires Safe(s) && Enabled(s, step)
    ensures MutualExclusion(Apply(s, step))
  {
    forall w: nat | w < |s.at| ensures InsideIfOwner(Apply(s, step), w) {
      StepKeepsInside(s, step, w);
    }
    hide Tickets, NoMissedReason, Flags, Consistent, InsideIfOwner;
    if step.Lock? || step.Check? || step.Enqueue? || step.Unlock? || step.Relock? || step.Decide? || step.Swap? {
      OwnerOf(s, step.w);
    } else if step.DestructorLock? || step.DestructorDone? {
      OwnerOf(s, step.w);
    }
  }

  lemma OwnerOf(s: State, w: nat)
    requires Safe(s) && w < |s.at|
    ensures s.at[w].Holding() <==> s.owner == ByWatchdog(w)
    ensures s.closing[w].Posting? <==> s.owner == ByDestructor(w)
  {
    assert InsideIfOwner(s, w);
  }

  /** What is known about one watchdog. */
  lemma FactsOf(s: State, w: nat)
    requires Safe(s) && w < |s.at|
    ensures s.Shaped() && NoMissedReason(s, w) && Flags(s, w) && InsideIfOwner(s, w)
    ensures s.tailTicket <= s.headTicket && (s.at[w].InQueue() ==> s.at[w].ticket < s.headTicket)
    ensures s.publisher.InSwap() || s.publisher.Announcing? <==> s.owner == ByPublisher
  {
    hide Consistent;
  }

  lemma PublisherOwns(s: State)
    requires Safe(s)
    ensures s.publisher.InSwap() || s.publisher.Announcing? <==> s.owner == ByPublisher
  {
  }

  /** Steps of a watchdog's own thread. */
  predicate OfWatchdog(step: Step) {
    || step.Outer? || step.Lock? || step.Check? || step.Enqueue? || step.Unlock? || step.Wake? || step.Relock?
    || step.Decide? || step.CopyStatic? || step.CopyUpdatable? || step.Swap?
  }

  lemma WatchdogKeepsInside(s: State, step: Step, w: nat)
    requires Safe(s) && Enabled(s, step) && w < |s.at| && OfWatchdog(step)
    ensures InsideIfOwner(Apply(s, step), w)
  {
    hide Tickets, NoMissedReason, Flags, Consistent, MutualExclusion, SlotOf;
    OwnerOf(s, w);
    OwnerOf(s, step.w);
  }

  lemma OthersKeepInside(s: State, step: Step, w: nat)
    requires Safe(s) && Enabled(s, step) && w < |s.at| && !OfWatchdog(step)
    ensures InsideIfOwner(Apply(s, step), w)
  {
    hide Tickets, NoMissedReason, Flags, Consistent, MutualExclusion, SlotOf;
    OwnerOf(s, w);
    PublisherOwns(s);
    if step.DestructorDone? {
      OwnerOf(s, step.w);
    }
  }

  lemma StepKeepsInside(s: State, step: Step, w: nat)
    requires Safe(s) && Enabled(s, step) && w < |s.at|
    ensures InsideIfOwner(Apply(s, step), w)
  {
    hide Safe, Enabled, Apply, InsideIfOwner;
    if OfWatchdog(step) {
      WatchdogKeepsInside(s, step, w);
    } else {
      OthersKeepInside(s, step, w);
    }
  }

  lemma StepKeepsTickets(s: State, step: Step)
    requires Safe(s) && Enabled(s, step)
    ensures Tickets(Apply(s, step))
  {
    hide MutualExclusion, NoMissedReason, Flags, Consistent, SlotOf;
  }

  lemma StepKeepsReasons(s: State, step: Step, w: nat)
    requires Safe(s) && Enabled(s, step) && w < |s.at|
    ensures NoMissedReason(Apply(s, step), w)
  {
    hide Safe, SlotOf;
    FactsOf(s, w);
  }

  lemma StepKeepsFlags(s: State, step: Step, w: nat)
    requires Safe(s) && Enabled(s, step) && w < |s.at|
    ensures Flags(Apply(s, step), w)
  {
    hide Safe, SlotOf, NoMissedReason;
    FactsOf(s, w);
  }

  /** Mutual exclusion is what keeps the two halves of a pair together. */
  lemma StepKeepsConsistent(s: State, step: Step, w: nat)
    requires Safe(s) && Enabled(s, step) && w < |s.at|
    ensures Consistent(Apply(s, step), w)
  {
    assert Consistent(s, w);
    OwnerOf(s, w);
    hide NoMissedReason, Flags, Tickets, InsideIfOwner;
  }

  /** Every step of every thread keeps the system safe, even when slots are reused. */
  lemma StepKeepsSafe(s: State, step: Step)
    requires Safe(s) && Enabled(s, step)
    ensures Safe(Apply(s, step))
  {
    StepKeepsMutualExclusion(s, step);
    StepKeepsTickets(s, step);
    forall w: nat | w < |s.at|
      ensures NoMissedReason(Apply(s, step), w) && Flags(Apply(s, step), w) && Consistent(Apply(s, step), w)
    {
      StepKeepsReasons(s, step, w);
      StepKeepsFlags(s, step, w);
      StepKeepsConsistent(s, step, w);
    }
    StepKeepsCurrent(s, step);
    hide MutualExclusion, Tickets, NoMissedReason, Flags, Consistent, Enabled, Apply;
  }

  // ---------- posts and wake-ups ----------

  /** No thread in the queue has fallen a whole buffer behind. */
  ghost predicate Calm(s: State)
    requires s.Shaped()
  {
    forall w: nat :: w < |s.at| && s.at[w].InQueue() ==> s.headTicket <= s.at[w].ticket + BUFFER_SIZE
  }

  /** A queued thread's semaphore is at zero until it is posted, and at one from then on. */
  ghost predicate PostIntact(s: State, w: nat)
    requires s.Shaped() && w < |s.at|
  {
    s.at[w].InQueue() ==> s.counts[SlotOf(s.at[w].ticket)] == if s.at[w].ticket < s.tailTicket then 1 else 0
  }

  ghost predicate AllIntact(s: State)
    requires s.Shaped()
  {
    forall w: nat :: w < |s.at| ==> PostIntact(s, w)
  }

  /** Threads within one buffer length never share a slot. */
  lemma SlotsOfQueuedDiffer(s: State, t: nat, w: nat)
    requires s.Shaped() && Tickets(s) && Calm(s) && w < |s.at| && s.at[w].InQueue() && s.at[w].ticket != t
    requires t < s.headTicket <= t + BUFFER_SIZE
    ensures SlotOf(s.at[w].ticket) != SlotOf(t)
  {
    var u := s.at[w].ticket;
    hide SlotOf;
    if u < t {
      SlotsDiffer(u, t);
    } else {
      SlotsDiffer(t, u);
    }
  }

  lemma OtherSlotsKeepPost(s: State, r: State, w: nat, t: nat)
    requires s.Shaped() && r.Shaped() && w < |s.at| && w < |r.at| && s.at[w].InQueue() && r.at[w].InQueue()
    requires PostIntact(s, w) && r.at[w].ticket == s.at[w].ticket && SlotOf(s.at[w].ticket) != SlotOf(t)
    requires (s.at[w].ticket < s.tailTicket) == (s.at[w].ticket < r.tailTicket)
    requires forall slot :: 0 <= slot < BUFFER_SIZE && slot != SlotOf(t) ==> r.counts[slot] == s.counts[slot]
    ensures PostIntact(r, w)
  {
  }

  lemma EnqueueKeepsPost(s: State, v: nat, w: nat)
    requires Safe(s) && Enabled(s, Enqueue(v)) && Calm(Apply(s, Enqueue(v))) && w < |s.at| && w != v
    requires s.at[w].InQueue() && PostIntact(s, w)
    ensures PostIntact(Apply(s, Enqueue(v)), w)
  {
    var r := Apply(s, Enqueue(v));
    StepKeepsTickets(s, Enqueue(v));
    hide SlotOf, NoMissedReason, Flags, MutualExclusion;
    SlotsOfQueuedDiffer(r, s.headTicket, w);
    OtherSlotsKeepPost(s, r, w, s.headTicket);
  }

  lemma PostKeepsPost(s: State, w: nat)
    requires Safe(s) && Enabled(s, Post) && Calm(s) && w < |s.at| && s.at[w].InQueue() && PostIntact(s, w)
    ensures PostIntact(Apply(s, Post), w)
  {
    hide SlotOf, NoMissedReason, Flags, MutualExclusion;
    if s.at[w].ticket != s.tailTicket {
      SlotsOfQueuedDiffer(s, s.tailTicket, w);
      OtherSlotsKeepPost(s, Apply(s, Post), w, s.tailTicket);
    }
  }

  lemma WakeKeepsPost(s: State, v: nat, w: nat)
    requires Safe(s) && Enabled(s, Wake(v)) && Calm(s) && w < |s.at| && w != v && s.at[w].InQueue() && PostIntact(s, w)
    ensures PostIntact(Apply(s, Wake(v)), w)
  {
    hide SlotOf, NoMissedReason, Flags, MutualExclusion;
    SlotsOfQueuedDiffer(s, s.at[v].ticket, w);
    OtherSlotsKeepPost(s, Apply(s, Wake(v)), w, s.at[v].ticket);
  }

  lemma StepKeepsPost(s: State, step: Step, w: nat)
    requires Safe(s) && Enabled(s, step) && Calm(s) && AllIntact(s) && Calm(Apply(s, step)) && w < |s.at|
    ensures PostIntact(Apply(s, step), w)
  {
    assert PostIntact(s, w);
    if s.at[w].InQueue() {
      match step
      case Enqueue(v) => EnqueueKeepsPost(s, v, w);
      case Post => PostKeepsPost(s, w);
      case Wake(v) =>
        if v != w {
          WakeKeepsPost(s, v, w);
        }
      case _ =>
    }
  }

  lemma StepKeepsPosts(s: State, step: Step)
    requires Safe(s) && Enabled(s, step) && Calm(s) && AllIntact(s) && Calm(Apply(s, step))
    ensures AllIntact(Apply(s, step))
  {
    SafeIsShaped(s);
    hide PostIntact, Safe, Enabled, Calm;
    forall w: nat | w < |s.at| ensures PostIntact(Apply(s, step), w) {
      assert |s.at| == |Apply(s, step).at|;
      StepKeepsPost(s, step, w);
    }
  }

  // ---------- runs ----------

  /** `steps` can be taken one after the other from `s`. */
  ghost predicate Legal(s: State, steps: seq<Step>)
    requires s.Shaped()
    decreases |steps|
  {
    steps == [] || (Enabled(s, steps[0]) && Legal(Apply(s, steps[0]), steps[1..]))
  }

  ghost function After(s: State, steps: seq<Step>): (r: State)
    requires s.Shaped() && Legal(s, steps)
    ensures r.Shaped() && |r.at| == |s.at|
    decreases |steps|
  {
    if steps == [] then s else After(Apply(s, steps[0]), steps[1..])
  }

  /** No state of the run has a thread a whole buffer behind. */
  ghost predicate CalmRun(s: State, steps: seq<Step>)
    requires s.Shaped() && Legal(s, steps)
    decreases |steps|
  {
    Calm(s) && (steps == [] || CalmRun(Apply(s, steps[0]), steps[1..]))
  }

  /** Every run keeps the system safe. */
  lemma {:induction false} RunIsSafe(s: State, steps: seq<Step>)
    requires Safe(s) && Legal(s, steps)
    ensures Safe(After(s, steps))
    decreases |steps|
  {
    hide Safe, Enabled;
    assert s.Shaped() by { SafeIsShaped(s); }
    if steps != [] {
      StepKeepsSafe(s, steps[0]);
      RunIsSafe(Apply(s, steps[0]), steps[1..]);
    }
  }

  lemma SafeIsShaped(s: State)
    requires Safe(s)
    ensures s.Shaped()
  {
  }

  lemma {:induction false} CalmRunKeepsPosts(s: State, steps: seq<Step>)
    requires Safe(s) && AllIntact(s) && Legal(s, steps) && CalmRun(s, steps)
    ensures AllIntact(After(s, steps)) && Calm(After(s, steps))
    decreases |steps|
  {
    SafeIsShaped(s);
    hide Safe, Enabled, AllIntact, Calm;
    if steps != [] {
      StepKeepsSafe(s, steps[0]);
      StepKeepsPosts(s, steps[0]);
      CalmRunKeepsPosts(Apply(s, steps[0]), steps[1..]);
    }
  }

  // ---------- no lost wake-up ----------

  /** A thread in the queue has kept its ticket since `s`, or has enqueued since and holds a later one. */
  lemma {:induction false} LaterTicketsAreHigher(s: State, steps: seq<Step>, w: nat)
    requires Safe(s) && Legal(s, steps) && w < |s.at| && After(s, steps).at[w].InQueue()
    ensures || After(s, steps).at[w].ticket >= s.headTicket
            || (s.at[w].InQueue() && After(s, steps).at[w].ticket == s.at[w].ticket)
    decreases |steps|
  {
    SafeIsShaped(s);
    hide Safe, Apply, Enabled;
    if steps != [] {
      StepKeepsSafe(s, steps[0]);
      StepTakesNextTicket(s, steps[0], w);
      LaterTicketsAreHigher(Apply(s, steps[0]), steps[1..], w);
    }
  }

  lemma StepTakesNextTicket(s: State, step: Step, w: nat)
    requires s.Shaped() && Enabled(s, step) && w < |s.at|
    ensures var r := Apply(s, step);
            && r.headTicket >= s.headTicket
            && (r.at[w].InQueue() ==>
                  r.at[w].ticket >= s.headTicket || (s.at[w].InQueue() && r.at[w].ticket == s.at[w].ticket))
  {
  }

  /** First in, first out over every run: a thread that enqueues while `v` waits is not posted before `v`. */
  lemma NobodyOvertakes(s: State, steps: seq<Step>, v: nat, w: nat)
    requires Safe(s) && Legal(s, steps) && v < |s.at| && w < |s.at|
    requires s.at[v].InQueue() && !s.at[w].InQueue()
    requires var r := After(s, steps); r.at[v].InQueue() && r.at[v].ticket == s.at[v].ticket && Unposted(r, v)
    ensures After(s, steps).at[w].InQueue() ==> Unposted(After(s, steps), w)
  {
    RunIsSafe(s, steps);
    if After(s, steps).at[w].InQueue() {
      LaterTicketsAreHigher(s, steps, w);
      QueuedAreNotDequeued(After(s, steps), v);
    }
  }

  lemma QueuedAreNotDequeued(s: State, w: nat)
    requires Safe(s) && w < |s.at| && s.at[w].InQueue() && Unposted(s, w)
    ensures s.tailTicket <= s.at[w].ticket
  {
    assert Flags(s, w);
  }

  /** When a notification returns, every thread that had enqueued before has been posted. */
  lemma NotificationPostsEveryone(s: State, step: Step, w: nat)
    requires Safe(s) && Enabled(s, step) && (step.DestructorDone? || step.AnnounceDone?) && w < |s.at|
    ensures !Unposted(Apply(s, step), w)
  {
    OwnerOf(s, w);
    if step.DestructorDone? {
      OwnerOf(s, step.w);
    }
  }

  /**
   In every run in which no thread falls a whole buffer behind: a watchdog whose destructor
   has notified, or whose data is out of date while nobody is publishing, never sleeps on a
   semaphore that has not been posted.
   */
  lemma NoLostWakeUp(s: State, steps: seq<Step>, w: nat)
    requires Init(s) && Legal(s, steps) && CalmRun(s, steps) && w < |s.at|
    ensures var r := After(s, steps);
            && (r.closing[w].Notified? && r.at[w].Sleeping? ==> Enabled(r, Wake(w)))
            && (r.publisher.Idle? && r.known[w] != r.current && r.at[w].Sleeping? ==> Enabled(r, Wake(w)))
  {
    InitIsSafe(s);
    assert AllIntact(s);
    RunIsSafe(s, steps);
    CalmRunKeepsPosts(s, steps);
    var r := After(s, steps);
    hide After, Legal, CalmRun, Calm, MutualExclusion, Tickets;
    assert PostIntact(r, w) && NoMissedReason(r, w) && Flags(r, w);
  }

  /** Served data is always a pair of regions that was published together, although both sides copy them one by one. */
  lemma FacadesAreConsistent(s: State, steps: seq<Step>, w: nat)
    requires Init(s) && Legal(s, steps) && w < |s.at|
    ensures After(s, steps).facade[w] in After(s, steps).history
  {
    InitIsSafe(s);
    RunIsSafe(s, steps);
    hide After, Legal;
    assert Consistent(After(s, steps), w);
  }

  // ---------- what is served ----------

  /** A watchdog serves the pair it knows, except while it replaces that pair; then it has the mutex, and once it has
      copied both regions it knows the current pair. */
  ghost predicate Serves(s: State, w: nat)
    requires s.Shaped() && w < |s.at|
  {
    match s.at[w]
    case StaticCopied => s.known[w].staticPart == s.current.staticPart
    case Loaded => s.known[w] == s.current
    case _ => s.facade[w] == s.known[w]
  }

  lemma StepKeepsServing(s: State, step: Step, w: nat)
    requires Safe(s) && Enabled(s, step) && w < |s.at| && Serves(s, w)
    ensures Serves(Apply(s, step), w)
  {
    hide Safe, SlotOf;
    FactsOf(s, w);
  }

  /** In every state of every run. */
  lemma {:induction false} RunKeepsServing(s: State, steps: seq<Step>, w: nat)
    requires Safe(s) && Legal(s, steps) && w < |s.at| && Serves(s, w)
    ensures Serves(After(s, steps), w)
    decreases |steps|
  {
    SafeIsShaped(s);
    if steps != [] {
      StepKeepsSafe(s, steps[0]);
      StepKeepsServing(s, steps[0], w);
      hide Safe, Apply, Enabled, Serves;
      RunKeepsServing(Apply(s, steps[0]), steps[1..], w);
    }
  }

  /** Over every run: what is served is what is known, outside the short stretch in which it is replaced. */
  lemma ServedIsKnown(s: State, steps: seq<Step>, w: nat)
    requires Init(s) && Legal(s, steps) && w < |s.at|
    ensures var r := After(s, steps);
            r.at[w].StaticCopied? || r.at[w].Loaded? || r.facade[w] == r.known[w]
  {
    InitIsSafe(s);
    RunKeepsServing(s, steps, w);
    hide After, Legal;
  }

  /** Over every run: the swap puts the pair into service that is current at that moment. */
  lemma SwapServesCurrent(s: State, steps: seq<Step>, w: nat)
    requires Init(s) && Legal(s, steps) && Enabled(After(s, steps), Swap(w))
    ensures Apply(After(s, steps), Swap(w)).facade[w] == After(s, steps).current
  {
    InitIsSafe(s);
    RunKeepsServing(s, steps, w);
    hide After, Legal;
  }

  /** While nobody publishes, a watchdog that sleeps serves the current pair or can wake up. */
  lemma SleeperServesCurrent(s: State, steps: seq<Step>, w: nat)
    requires Init(s) && Legal(s, steps) && CalmRun(s, steps) && w < |s.at|
    ensures var r := After(s, steps);
            r.publisher.Idle? && r.at[w].Sleeping? ==> r.facade[w] == r.current || Enabled(r, Wake(w))
  {
    NoLostWakeUp(s, steps, w);
    ServedIsKnown(s, steps, w);
    hide After, Legal, CalmRun, Enabled;
  }

  ghost function Swaps(steps: seq<Step>): Version {
    if steps == [] then Version(0, 0)
    else
      var rest := Swaps(steps[1..]);
      match steps[0]
      case SwapStatic => Version(rest.staticPart + 1, rest.updatablePart)
      case SwapUpdatable => Version(rest.staticPart, rest.updatablePart + 1)
      case _ => rest
  }

  /** The timestamps count the swaps: nothing else changes the current pair. */
  lemma {:induction false} TimestampsCountSwaps(s: State, steps: seq<Step>)
    requires s.Shaped() && Legal(s, steps)
    ensures After(s, steps).current.staticPart == s.current.staticPart + Swaps(steps).staticPart
    ensures After(s, steps).current.updatablePart == s.current.updatablePart + Swaps(steps).updatablePart
    decreases |steps|
  {
    if steps != [] {
      TimestampsCountSwaps(Apply(s, steps[0]), steps[1..]);
    }
  }

  /** The published pairs are the first one and those that were current when a publisher left the mutex. */
  lemma PublishedAtUnlock(s: State, step: Step, v: Version)
    requires s.Shaped() && Enabled(s, step)
    ensures v in Apply(s, step).history <==> v in s.history || (step.PublisherUnlock? && v == s.current)
  {
  }

  // ---------- the destructor returns ----------

  function Rank(at: Location): nat {
    match at
    case Waiting => 6
    case Enqueued(_) => 5
    case Sleeping(_) => 4
    case Waking => 3
    case Entering => 3
    case Checking => 2
    case Decided => 1
    case Copying => 4
    case StaticCopied => 3
    case Loaded => 2
    case Top => 1
    case Stopped => 0
  }

  predicate StepOfWatchdog(step: Step, w: nat) {
    match step
    case Outer(v) => v == w
    case Lock(v) => v == w
    case Check(v) => v == w
    case Enqueue(v) => v == w
    case Unlock(v) => v == w
    case Wake(v) => v == w
    case Relock(v) => v == w
    case Decide(v) => v == w
    case CopyStatic(v) => v == w
    case CopyUpdatable(v) => v == w
    case Swap(v) => v == w
    case _ => false
  }

  /** After its destructor's notification a watchdog is at most four of its own steps from the end, whatever else
      happens. */
  lemma NotifiedWatchdogStops(s: State, step: Step, w: nat)
    requires Safe(s) && Enabled(s, step) && w < |s.at| && s.closing[w].Notified?
    ensures Rank(s.at[w]) <= 4
    ensures var r := Apply(s, step);
            && r.closing[w].Notified?
            && (StepOfWatchdog(step, w) ==> Rank(r.at[w]) < Rank(s.at[w]))
            && (!StepOfWatchdog(step, w) ==> r.at[w] == s.at[w])
  {
    hide Safe, SlotOf;
    FactsOf(s, w);
  }

  ghost function OwnSteps(steps: seq<Step>, w: nat): nat {
    if steps == [] then 0 else (if StepOfWatchdog(steps[0], w) then 1 else 0) + OwnSteps(steps[1..], w)
  }

  /** Over every run a notified watchdog takes at most four more steps. */
  lemma {:induction false} DestructorReturns(s: State, steps: seq<Step>, w: nat)
    requires Safe(s) && Legal(s, steps) && w < |s.at| && s.closing[w].Notified?
    ensures After(s, steps).closing[w].Notified?
    ensures OwnSteps(steps, w) + Rank(After(s, steps).at[w]) <= Rank(s.at[w]) <= 4
    decreases |steps|
  {
    if steps == [] {
      StoppableRank(s, w);
    } else {
      NotifiedWatchdogStops(s, steps[0], w);
      StepKeepsSafe(s, steps[0]);
      hide Safe, Apply, Enabled;
      DestructorReturns(Apply(s, steps[0]), steps[1..], w);
    }
  }

  lemma StoppableRank(s: State, w: nat)
    requires Safe(s) && w < |s.at| && s.closing[w].Notified?
    ensures Rank(s.at[w]) <= 4
  {
    assert NoMissedReason(s, w) && Flags(s, w);
  }

  /** The next step of whoever holds the mutex. */
  ghost function OwnerStep(s: State): Step
    requires s.Shaped() && MutualExclusion(s) && !s.owner.Nobody?
  {
    match s.owner
    case ByWatchdog(w) =>
      (match s.at[w]
       case Checking => Check(w)
       case Waiting => Enqueue(w)
       case Enqueued(_) => Unlock(w)
       case Decided => Decide(w)
       case Copying => CopyStatic(w)
       case StaticCopied => CopyUpdatable(w)
       case _ => Swap(w))
    case ByDestructor(w) => if s.tailTicket < s.headTicket then Post else DestructorDone(w)
    case _ =>
      if s.publisher.InSwap() then PublisherUnlock
      else if s.tailTicket < s.headTicket then Post else AnnounceDone
  }

  /** A notified watchdog that has not stopped can move, or somebody holds the mutex and can move, unless its enqueue
      fails. */
  lemma NoDeadlock(s: State, w: nat)
    requires Safe(s) && AllIntact(s) && w < |s.at| && s.closing[w].Notified? && !s.at[w].Stopped?
    ensures || (exists step :: StepOfWatchdog(step, w) && Enabled(s, step))
            || (!s.owner.Nobody? && (Enabled(s, OwnerStep(s)) || s.headTicket - s.tailTicket + 1 >= BUFFER_SIZE / 2))
  {
    assert NoMissedReason(s, w) && Flags(s, w) && PostIntact(s, w);
    OwnerOf(s, w);
    if s.owner.ByWatchdog? || s.owner.ByDestructor? {
      OwnerOf(s, s.owner.w);
    } else if s.owner.Nobody? {
      var step :=
        match s.at[w]
        case Top => Outer(w)
        case Entering => Lock(w)
        case Waking => Relock(w)
        case _ => Wake(w);
      assert StepOfWatchdog(step, w) && Enabled(s, step);
    }
  }

  // ---------- slot reuse ----------

  /** Enqueueing wipes out a pending post exactly when the waiter is a whole buffer behind. */
  lemma ReuseTakesThePost(s: State, v: nat, w: nat)
    requires Safe(s) && Calm(s) && AllIntact(s) && Enabled(s, Enqueue(v)) && w < |s.at|
    requires s.at[w].Sleeping? && !Unposted(s, w)
    ensures Enabled(s, Wake(w))
    ensures !Enabled(Apply(s, Enqueue(v)), Wake(w)) <==> s.headTicket == s.at[w].ticket + 16384
  {
    assert PostIntact(s, w);
    var t := s.at[w].ticket;
    hide SlotOf;
    if s.headTicket == t + BUFFER_SIZE {
      SlotRepeats(t);
    } else {
      SlotsDiffer(t, s.headTicket);
    }
  }

  lemma {:induction false} LegalConcat(s: State, a: seq<Step>, b: seq<Step>)
    requires s.Shaped() && Legal(s, a) && Legal(After(s, a), b)
    ensures Legal(s, a + b) && After(s, a + b) == After(After(s, a), b)
    decreases |a|
  {
    hide Enabled, Apply;
    if a == [] {
      assert a + b == b;
    } else {
      assert (a + b)[0] == a[0] && (a + b)[1..] == a[1..] + b;
      LegalConcat(Apply(s, a[0]), a[1..], b);
    }
  }

  /** `s` leads to `r` by some legal steps. */
  ghost predicate Leads(s: State, r: State)
    requires s.Shaped()
  {
    exists steps :: Legal(s, steps) && After(s, steps) == r
  }

  lemma LeadsBy(s: State, step: Step, r: State)
    requires s.Shaped() && Enabled(s, step) && r == Apply(s, step)
    ensures Leads(s, r)
  {
    hide Enabled, Apply;
    assert [step][1..] == [];
    assert Legal(s, [step]) && After(s, [step]) == r;
  }

  lemma LeadsOn(s: State, r: State, step: Step, t: State)
    requires s.Shaped() && r.Shaped() && Leads(s, r) && Enabled(r, step) && t == Apply(r, step)
    ensures Leads(s, t)
  {
    hide Enabled, Apply;
    LeadsBy(r, step, t);
    LeadsThrough(s, r, t);
  }

  lemma LeadsThrough(s: State, r: State, t: State)
    requires s.Shaped() && r.Shaped() && Leads(s, r) && Leads(r, t)
    ensures Leads(s, t)
  {
    hide Enabled, Apply, Legal, After;
    var a :| Legal(s, a) && After(s, a) == r;
    var b :| Legal(r, b) && After(r, b) == t;
    LegalConcat(s, a, b);
  }

  ghost function Counts(first: nat): (r: seq<nat>)
    ensures |r| == BUFFER_SIZE && r[0] == first && forall i :: 0 < i < BUFFER_SIZE ==> r[i] == 0
  {
    seq(BUFFER_SIZE, i => if i == 0 then first else 0)
  }

  /** Two watchdogs before anything happened. */
  ghost function Fresh(v: Version): (s: State)
    ensures s.Shaped()
  {
    State(0, 0, Counts(0), Nobody, [Top, Top], [true, true], [v, v], [v, v], [Alive, Alive], Idle, v, {v})
  }

  /** The first watchdog sleeps with its post pending; the second is about to take ticket `k`. */
  ghost function Starving(v: Version, k: nat): (s: State)
    ensures s.Shaped()
  {
    State(k, k, Counts(1), ByWatchdog(1), [Sleeping(0), Waiting], [false, true], [v, v], [v, v], [Notified, Alive],
          Idle, v, {v})
  }

  /** The first watchdog sleeps and nobody has notified it. */
  ghost function Asleep(v: Version): (s: State)
    ensures s.Shaped()
  {
    Fresh(v).(at := [Sleeping(0), Top], headTicket := 1)
  }

  lemma FirstFallsAsleep(v: Version)
    ensures Leads(Fresh(v), Asleep(v))
  {
    hide Leads;
    var s := Fresh(v);
    var s1 := s.(at := [Entering, Top]);
    var s2 := s.(at := [Checking, Top], owner := ByWatchdog(0));
    var s3 := s.(at := [Waiting, Top], owner := ByWatchdog(0));
    var s4 := s.(at := [Enqueued(0), Top], owner := ByWatchdog(0), headTicket := 1);
    LeadsBy(s, Outer(0), s1);
    LeadsOn(s, s1, Lock(0), s2);
    LeadsOn(s, s2, Check(0), s3);
    LeadsOn(s, s3, Enqueue(0), s4);
    LeadsOn(s, s4, Unlock(0), Asleep(v));
  }

  lemma FirstIsNotified(v: Version)
    ensures Leads(Asleep(v), Starving(v, 1))
  {
    hide Leads;
    var s := Asleep(v);
    var s1 := s.(active := [false, true], closing := [Deactivated, Alive]);
    var s2 := s1.(closing := [Posting, Alive], owner := ByDestructor(0));
    var s3 := s2.(tailTicket := 1, counts := Counts(1));
    var s4 := s3.(closing := [Notified, Alive], owner := Nobody);
    var s5 := s4.(at := [Sleeping(0), Entering]);
    var s6 := s4.(at := [Sleeping(0), Checking], owner := ByWatchdog(1));
    LeadsBy(s, Deactivate(0), s1);
    LeadsOn(s, s1, DestructorLock(0), s2);
    LeadsOn(s, s2, Post, s3);
    LeadsOn(s, s3, DestructorDone(0), s4);
    LeadsOn(s, s4, Outer(1), s5);
    LeadsOn(s, s5, Lock(1), s6);
    LeadsOn(s, s6, Check(1), Starving(v, 1));
  }

  /** The first watchdog falls asleep and its destructor notifies. */
  lemma StarvationBegins(v: Version)
    ensures Leads(Fresh(v), Starving(v, 1))
  {
    hide Leads;
    FirstFallsAsleep(v);
    FirstIsNotified(v);
    LeadsThrough(Fresh(v), Asleep(v), Starving(v, 1));
  }

  /** The second watchdog sleeps with ticket `k`, posted or not, while `publisher` is at work. */
  ghost function Resting(v: Version, k: nat, posted: bool, publisher: Publishing, owner: Owner): (s: State)
    requires 0 < k < BUFFER_SIZE
    ensures s.Shaped()
  {
    State(k + 1, if posted then k + 1 else k, Counts(1)[k := if posted then 1 else 0], owner,
          [Sleeping(0), Sleeping(k)],
          [false, true], [v, v], [v, v], [Notified, Alive], publisher, v, {v})
  }

  lemma SecondFallsAsleep(v: Version, k: nat)
    requires 1 <= k < BUFFER_SIZE
    ensures Leads(Starving(v, k), Resting(v, k, false, Idle, Nobody))
  {
    hide Leads;
    var s := Starving(v, k);
    assert SlotOf(k) == k;
    hide SlotOf;
    var s1 := s.(at := [Sleeping(0), Enqueued(k)], headTicket := k + 1, counts := Counts(1)[k := 0]);
    LeadsBy(s, Enqueue(1), s1);
    LeadsOn(s, s1, Unlock(1), Resting(v, k, false, Idle, Nobody));
  }

  lemma SecondIsNotified(v: Version, k: nat)
    requires 1 <= k < BUFFER_SIZE
    ensures Leads(Resting(v, k, false, Idle, Nobody), Resting(v, k, true, Idle, Nobody))
  {
    hide Leads;
    var s := Resting(v, k, false, Idle, Nobody);
    assert SlotOf(k) == k;
    hide SlotOf, Counts;
    LeadsBy(s, PublisherLock, Resting(v, k, false, Swapping, ByPublisher));
    LeadsOn(s, Resting(v, k, false, Swapping, ByPublisher), PublisherUnlock, Resting(v, k, false, Changed, Nobody));
    LeadsOn(s, Resting(v, k, false, Changed, Nobody), AnnounceLock, Resting(v, k, false, Announcing, ByPublisher));
    LeadsOn(s, Resting(v, k, false, Announcing, ByPublisher), Post, Resting(v, k, true, Announcing, ByPublisher));
    LeadsOn(s, Resting(v, k, true, Announcing, ByPublisher), AnnounceDone, Resting(v, k, true, Idle, Nobody));
  }

  lemma SecondComesBack(v: Version, k: nat)
    requires 1 <= k < BUFFER_SIZE
    ensures Leads(Resting(v, k, true, Idle, Nobody), Starving(v, k + 1))
  {
    hide Leads;
    var s := Resting(v, k, true, Idle, Nobody);
    assert SlotOf(k) == k && Counts(1)[k := 1][k := 0] == Counts(1);
    hide SlotOf, Counts;
    var s1 := s.(at := [Sleeping(0), Waking], counts := Counts(1));
    var s2 := s1.(at := [Sleeping(0), Checking], owner := ByWatchdog(1));
    LeadsBy(s, Wake(1), s1);
    LeadsOn(s, s1, Relock(1), s2);
    LeadsOn(s, s2, Check(1), Starving(v, k + 1));
  }

  /** The second watchdog goes round once: enqueue, be notified, wake up, find nothing new. */
  lemma StarvationGoesOn(v: Version, k: nat)
    requires 1 <= k < BUFFER_SIZE
    ensures Leads(Starving(v, k), Starving(v, k + 1))
  {
    hide Leads, Starving, Resting;
    SecondFallsAsleep(v, k);
    SecondIsNotified(v, k);
    SecondComesBack(v, k);
    LeadsThrough(Starving(v, k), Resting(v, k, false, Idle, Nobody), Resting(v, k, true, Idle, Nobody));
    LeadsThrough(Starving(v, k), Resting(v, k, true, Idle, Nobody), Starving(v, k + 1));
  }

  lemma {:induction false} StarvationLasts(v: Version, k: nat)
    requires 1 <= k <= BUFFER_SIZE
    ensures Leads(Fresh(v), Starving(v, k))
  {
    hide Leads;
    if k == 1 {
      StarvationBegins(v);
    } else {
      StarvationLasts(v, k - 1);
      StarvationGoesOn(v, k - 1);
      LeadsThrough(Fresh(v), Starving(v, k - 1), Starving(v, k));
    }
  }

  /**
   Without the bound a wake-up can be lost: there is a run after which a watchdog whose
   destructor has notified sleeps on a semaphore that was created anew.
   */
  lemma WakeUpCanBeLost(v: Version) returns (s: State, r: State)
    ensures Init(s) && Leads(s, r) && r.Shaped() && 0 < |r.at|
    ensures r.closing[0].Notified? && r.at[0].Sleeping? && !Unposted(r, 0) && !Enabled(r, Wake(0))
  {
    s := Fresh(v);
    var full := Starving(v, BUFFER_SIZE);
    r := full.(at := [Sleeping(0), Enqueued(BUFFER_SIZE)], headTicket := BUFFER_SIZE + 1, counts := Counts(0));
    StarvationLasts(v, BUFFER_SIZE);
    hide Leads;
    LeadsOn(s, full, Enqueue(1), r);
  }

  // ---------- new data is served ----------

  /** The pair after a swap of one or both regions. */
  ghost function Next(v: Version, newStatic: bool, newUpdatable: bool): Version {
    Version(v.staticPart + (if newStatic then 1 else 0), v.updatablePart + (if newUpdatable then 1 else 0))
  }

  /** The first watchdog sleeps while the publisher has got to `publisher`, with the pair `now` in the regions. */
  ghost function Publishes(v: Version, now: Version, publisher: Publishing, owner: Owner): (s: State)
    ensures s.Shaped()
  {
    Asleep(v).(publisher := publisher, owner := owner, current := now)
  }

  /** A publisher may replace both regions, or one of them. */
  lemma PublisherSwaps(v: Version, newStatic: bool, newUpdatable: bool) returns (at: Publishing)
    ensures at.InSwap() && Leads(Asleep(v), Publishes(v, Next(v, newStatic, newUpdatable), at, ByPublisher))
  {
    hide Leads;
    var s := Asleep(v);
    LeadsBy(s, PublisherLock, Publishes(v, v, Swapping, ByPublisher));
    at := Swapping;
    if newStatic {
      LeadsOn(s, Publishes(v, v, Swapping, ByPublisher), SwapStatic,
              Publishes(v, Next(v, true, false), StaticSwapped, ByPublisher));
      at := StaticSwapped;
    }
    if newUpdatable {
      LeadsOn(s, Publishes(v, Next(v, newStatic, false), at, ByPublisher), SwapUpdatable,
              Publishes(v, Next(v, newStatic, true), UpdatableSwapped, ByPublisher));
      at := UpdatableSwapped;
    }
  }

  /** The first watchdog's post is pending, and the new pair is published. */
  ghost function Announced(v: Version, now: Version): (s: State)
    ensures s.Shaped()
  {
    Asleep(v).(tailTicket := 1, counts := Counts(1), current := now, history := {v, now})
  }

  /** The publisher has released the region mutex and got to `publisher` of the announcement. */
  ghost function Released(v: Version, now: Version, publisher: Publishing, owner: Owner): (s: State)
    ensures s.Shaped()
  {
    Publishes(v, now, publisher, owner).(history := {v, now})
  }

  lemma PublisherReleases(v: Version, now: Version, at: Publishing)
    requires at.InSwap()
    ensures Leads(Publishes(v, now, at, ByPublisher), Released(v, now, Changed, Nobody))
  {
    hide Leads;
    assert {v} + {now} == {v, now};
    LeadsBy(Publishes(v, now, at, ByPublisher), PublisherUnlock, Released(v, now, Changed, Nobody));
  }

  lemma PublisherAnnounces(v: Version, now: Version)
    ensures Leads(Released(v, now, Changed, Nobody), Announced(v, now))
  {
    hide Leads;
    var s := Released(v, now, Changed, Nobody);
    var s1 := Released(v, now, Announcing, ByPublisher);
    var s2 := s1.(tailTicket := 1, counts := Counts(1));
    LeadsBy(s, AnnounceLock, s1);
    LeadsOn(s, s1, Post, s2);
    LeadsOn(s, s2, AnnounceDone, Announced(v, now));
  }

  /** The first watchdog serves the new pair. */
  ghost function Updated(v: Version, now: Version): (s: State)
    ensures s.Shaped()
  {
    Announced(v, now).(at := [Top, Top], counts := Counts(0), known := [now, v], facade := [now, v])
  }

  lemma WatchdogWakes(v: Version, now: Version) returns (r: State)
    requires now != v
    ensures r == Announced(v, now).(at := [Copying, Top], counts := Counts(0), owner := ByWatchdog(0))
    ensures Leads(Announced(v, now), r)
  {
    hide Leads;
    var s := Announced(v, now);
    var s1 := s.(at := [Waking, Top], counts := Counts(0));
    var s2 := s1.(at := [Checking, Top], owner := ByWatchdog(0));
    var s3 := s1.(at := [Decided, Top], owner := ByWatchdog(0));
    r := s1.(at := [Copying, Top], owner := ByWatchdog(0));
    LeadsBy(s, Wake(0), s1);
    LeadsOn(s, s1, Relock(0), s2);
    LeadsOn(s, s2, Check(0), s3);
    LeadsOn(s, s3, Decide(0), r);
  }

  lemma WatchdogUpdates(v: Version, now: Version)
    requires now != v
    ensures Leads(Announced(v, now), Updated(v, now))
  {
    hide Leads;
    var s := Announced(v, now);
    var s1 := WatchdogWakes(v, now);
    var s2 := s1.(at := [StaticCopied, Top], known := [v.(staticPart := now.staticPart), v]);
    var s3 := s1.(at := [Loaded, Top], known := [now, v]);
    LeadsOn(s, s1, CopyStatic(0), s2);
    LeadsOn(s, s2, CopyUpdatable(0), s3);
    LeadsOn(s, s3, Swap(0), Updated(v, now));
  }

  /** Whichever regions a publisher replaces, there is a run after which the watchdog serves the new pair. */
  lemma UpdateReachesTheFacade(v: Version, newStatic: bool, newUpdatable: bool) returns (s: State, r: State)
    requires newStatic || newUpdatable
    ensures Init(s) && s.current == v && Leads(s, r) && r.Shaped() && 0 < |r.at|
    ensures r.facade[0] == r.current && r.publisher.Idle?
    ensures r.current.staticPart == v.staticPart + (if newStatic then 1 else 0)
    ensures r.current.updatablePart == v.updatablePart + (if newUpdatable then 1 else 0)
  {
    hide Leads;
    s := Fresh(v);
    var now := Next(v, newStatic, newUpdatable);
    r := Updated(v, now);
    FirstFallsAsleep(v);
    var at := PublisherSwaps(v, newStatic, newUpdatable);
    PublisherReleases(v, now, at);
    PublisherAnnounces(v, now);
    WatchdogUpdates(v, now);
    LeadsThrough(s, Asleep(v), Publishes(v, now, at, ByPublisher));
    LeadsThrough(s, Publishes(v, now, at, ByPublisher), Released(v, now, Changed, Nobody));
    LeadsThrough(s, Released(v, now, Changed, Nobody), Announced(v, now));
    LeadsThrough(s, Announced(v, now), r);
  }
}
