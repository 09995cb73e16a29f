/** What holds in every reachable state of the queue. */
module SpscSafety {
  import opened Options
  import opened Bits
  import opened SpscQueue

  ghost predicate Divides(cap: nat) {
    0 < cap < WORD64 && WORD64 % cap == 0
  }

  lemma CapacityDivides(cap: nat)
    requires Capacity(cap)
    ensures Divides(cap)
  {
    var k: nat :| IsCapacity(cap, k);
    assert IsCapacity(cap, k);
    Pow2Of64(64);
    Pow2Add(64 - k, k);
    DivUnique(WORD64, cap, Pow2(64 - k), 0);
    Pow2Monotone(k, 63);
  }

  /** Indices are the counts modulo 2^64, and the queue holds between 0 and `cap` elements. */
  ghost predicate Counters<T>(cap: nat, s: State<T>) {
    && s.readIndex == |s.popped| % WORD64
    && s.writeIndex == |s.pushed| % WORD64
    && |s.popped| <= |s.pushed| <= |s.popped| + cap
  }

  ghost predicate Unread<T>(cap: nat, s: State<T>, i: nat)
    requires cap > 0 && |s.data| == cap
  {
    i < |s.pushed| && s.data[i % cap] == s.pushed[i]
  }

  /** What came out is the beginning of what went in, and every element in between is in its slot. */
  ghost predicate Contents<T>(cap: nat, s: State<T>) {
    && cap > 0 && |s.data| == cap
    && s.popped <= s.pushed
    && forall i :: |s.popped| <= i < |s.pushed| ==> Unread(cap, s, i)
  }

  ghost predicate Room<T>(cap: nat, s: State<T>) {
    |s.pushed| < |s.popped| + cap
  }

  ghost predicate Nonempty<T>(s: State<T>) {
    |s.popped| < |s.pushed|
  }

  ghost predicate ProducerOk<T>(cap: nat, s: State<T>) {
    && cap > 0 && |s.data| == cap
    && match s.p
       case PIdle => true
       case PLoaded(w, _, _) => w == s.writeIndex
       case PLocking(w, _) => w == s.writeIndex
       case PChecking(w, _) => w == s.writeIndex
       case PBlocked(w, _) => w == s.writeIndex
       case PAsleep(w, _) => w == s.writeIndex
       case PUnlocking(w, _) => w == s.writeIndex && Room(cap, s)
       case PReady(w, _) => w == s.writeIndex && Room(cap, s)
       case PWritten(w, x) => w == s.writeIndex && Room(cap, s) && s.data[|s.pushed| % cap] == x
       case PNotifying => true
       case PHolding => true
       case PLeaving => true
  }

  ghost predicate ConsumerOk<T>(s: State<T>) {
    match s.c
    case CIdle => true
    case CLoaded(r, _) => r == s.readIndex
    case CLocking(r) => r == s.readIndex
    case CChecking(r) => r == s.readIndex
    case CBlocked(r) => r == s.readIndex
    case CAsleep(r) => r == s.readIndex
    case CUnlocking(r) => r == s.readIndex && Nonempty(s)
    case CReady(r) => r == s.readIndex && Nonempty(s)
    case CTaken(r, x) => r == s.readIndex && Nonempty(s) && s.pushed[|s.popped|] == x
    case CNotifying => true
    case CHolding => true
    case CLeaving => true
  }

  ghost predicate Mutexes<T>(s: State<T>) {
    && (s.producerMutex == Producer <==> s.p.InOwn())
    && (s.producerMutex == Consumer <==> s.c.InOther())
    && (s.consumerMutex == Consumer <==> s.c.InOwn())
    && (s.consumerMutex == Producer <==> s.p.InOther())
  }

  /** A thread that sleeps, or has decided to, although it need not any more, has a notification coming:
      the other side has moved its index and not yet notified. */
  ghost predicate Wakeups<T>(cap: nat, s: State<T>) {
    && ((s.p.PBlocked? || s.p.PAsleep?) && Room(cap, s) ==> s.c.CNotifying? || s.c.CHolding?)
    && ((s.c.CBlocked? || s.c.CAsleep?) && Nonempty(s) ==> s.p.PNotifying? || s.p.PHolding?)
  }

  ghost predicate Inv<T>(cap: nat, s: State<T>) {
    Counters(cap, s) && Contents(cap, s) && Control(cap, s)
  }

  /** What is known about where the two threads stand. */
  ghost predicate Control<T>(cap: nat, s: State<T>) {
    ProducerOk(cap, s) && ConsumerOk(s) && Mutexes(s) && Wakeups(cap, s)
  }

  /** Nothing but the positions of the threads and the mutexes differs. */
  ghost predicate SameQueue<T>(s: State<T>, s': State<T>) {
    && s'.readIndex == s.readIndex && s'.writeIndex == s.writeIndex && s'.data == s.data
    && s'.pushed == s.pushed && s'.popped == s.popped
  }

  lemma SameQueueInv<T>(cap: nat, s: State<T>, s': State<T>)
    requires Inv(cap, s) && SameQueue(s, s') && Control(cap, s')
    ensures Inv(cap, s')
  {
    forall i | |s'.popped| <= i < |s'.pushed| ensures Unread(cap, s', i) {
      assert Unread(cap, s, i);
    }
  }

  lemma InitialInv<T>(cap: nat, s: State<T>)
    requires Divides(cap) && Initial(cap, s)
    ensures Inv(cap, s)
  {
  }

  lemma SameSlot(cap: nat, n: nat)
    requires Divides(cap)
    ensures (n % WORD64) % cap == n % cap
  {
    WrapsToSameSlot(cap);
  }

  /** Unsigned subtraction of the indices counts the elements, across wrap-around. */
  lemma MinusCounts(w: nat, r: nat)
    requires r <= w < r + WORD64
    ensures Minus(w % WORD64, r % WORD64) == w - r
  {
    var q := w / WORD64 - r / WORD64;
    assert w % WORD64 - r % WORD64 == (w - r) - q * WORD64;
    DivUnique(w % WORD64 - r % WORD64, WORD64, -q, w - r);
  }

  /** Fewer than 2^64 elements apart, equal indices mean equal counts. */
  lemma EqualIndices(w: nat, r: nat)
    requires r <= w < r + WORD64
    ensures w % WORD64 == r % WORD64 <==> w == r
  {
    MinusCounts(w, r);
  }

  lemma NextIndex(n: nat)
    ensures (n % WORD64 + 1) % WORD64 == (n + 1) % WORD64
  {
  }

  /** Elements less than a capacity apart lie in different slots. */
  lemma DistinctSlots(cap: nat, i: nat, j: nat)
    requires cap > 0 && i < j < i + cap
    ensures i % cap != j % cap
  {
    NextResidue(j, i, cap, i % cap);
  }

  /** The slot the producer writes holds no unread element. */
  lemma WriteSparesUnread<T>(cap: nat, s: State<T>, i: nat)
    requires Divides(cap) && Inv(cap, s) && s.p.PReady? && |s.popped| <= i < |s.pushed|
    ensures i % cap != s.p.w % cap
  {
    SameSlot(cap, |s.pushed|);
    DistinctSlots(cap, i, |s.pushed|);
  }

  lemma WriteInv<T>(cap: nat, s: State<T>, s': State<T>)
    requires Divides(cap) && Inv(cap, s) && s.p.PReady?
    requires ProducerStep(cap, s) == Some(s')
    ensures Inv(cap, s')
  {
    SameSlot(cap, |s.pushed|);
    forall i | |s'.popped| <= i < |s'.pushed| ensures Unread(cap, s', i) {
      assert Unread(cap, s, i);
      WriteSparesUnread(cap, s, i);
    }
  }

  lemma PublishInv<T>(cap: nat, s: State<T>, s': State<T>)
    requires Divides(cap) && Inv(cap, s) && s.p.PWritten?
    requires ProducerStep(cap, s) == Some(s')
    ensures Inv(cap, s')
  {
    NextIndex(|s.pushed|);
    forall i | |s'.popped| <= i < |s'.pushed| ensures Unread(cap, s', i) {
      if i < |s.pushed| { assert Unread(cap, s, i); }
    }
  }

  /** The producer's steps up to its decision to go on, to give up or to sleep. */
  lemma ProducerWaits<T>(cap: nat, s: State<T>, s': State<T>)
    requires Divides(cap) && Counters(cap, s) && Control(cap, s)
    requires s.p.PLoaded? || s.p.PLocking? || s.p.PChecking? || s.p.PBlocked? || s.p.PUnlocking?
    requires ProducerStep(cap, s) == Some(s')
    ensures SameQueue(s, s') && Control(cap, s')
  {
    MinusCounts(|s.pushed|, |s.popped|);
  }

  /** The producer's steps that wake the consumer. */
  lemma ProducerNotifies<T>(cap: nat, s: State<T>, s': State<T>)
    requires Divides(cap) && Counters(cap, s) && Control(cap, s)
    requires s.p.PNotifying? || s.p.PHolding? || s.p.PLeaving?
    requires ProducerStep(cap, s) == Some(s')
    ensures SameQueue(s, s') && Control(cap, s')
  {
  }

  lemma ProducerControl<T>(cap: nat, s: State<T>, s': State<T>)
    requires Divides(cap) && Counters(cap, s) && Control(cap, s) && !s.p.PReady? && !s.p.PWritten?
    requires ProducerStep(cap, s) == Some(s')
    ensures SameQueue(s, s') && Control(cap, s')
  {
    if s.p.PNotifying? || s.p.PHolding? || s.p.PLeaving? {
      ProducerNotifies(cap, s, s');
    } else {
      ProducerWaits(cap, s, s');
    }
  }

  lemma ReadInv<T>(cap: nat, s: State<T>, s': State<T>)
    requires Divides(cap) && Inv(cap, s) && s.c.CReady?
    requires ConsumerStep(cap, s) == Some(s')
    ensures Inv(cap, s')
  {
    SameSlot(cap, |s.popped|);
    assert Unread(cap, s, |s.popped|);
    assert forall i :: Unread(cap, s, i) ==> Unread(cap, s', i);
  }

  lemma RetireInv<T>(cap: nat, s: State<T>, s': State<T>)
    requires Divides(cap) && Inv(cap, s) && s.c.CTaken?
    requires ConsumerStep(cap, s) == Some(s')
    ensures Inv(cap, s')
  {
    NextIndex(|s.popped|);
    assert forall i :: Unread(cap, s, i) ==> Unread(cap, s', i);
  }

  /** The consumer's steps up to its decision to go on, to give up or to sleep. */
  lemma ConsumerWaits<T>(cap: nat, s: State<T>, s': State<T>)
    requires Divides(cap) && Counters(cap, s) && Control(cap, s)
    requires s.c.CLoaded? || s.c.CLocking? || s.c.CChecking? || s.c.CBlocked? || s.c.CUnlocking?
    requires ConsumerStep(cap, s) == Some(s')
    ensures SameQueue(s, s') && Control(cap, s')
  {
    EqualIndices(|s.pushed|, |s.popped|);
  }

  /** The consumer's steps that wake the producer. */
  lemma ConsumerNotifies<T>(cap: nat, s: State<T>, s': State<T>)
    requires Divides(cap) && Counters(cap, s) && Control(cap, s)
    requires s.c.CNotifying? || s.c.CHolding? || s.c.CLeaving?
    requires ConsumerStep(cap, s) == Some(s')
    ensures SameQueue(s, s') && Control(cap, s')
  {
  }

  lemma ConsumerControl<T>(cap: nat, s: State<T>, s': State<T>)
    requires Divides(cap) && Counters(cap, s) && Control(cap, s) && !s.c.CReady? && !s.c.CTaken?
    requires ConsumerStep(cap, s) == Some(s')
    ensures SameQueue(s, s') && Control(cap, s')
  {
    if s.c.CNotifying? || s.c.CHolding? || s.c.CLeaving? {
      ConsumerNotifies(cap, s, s');
    } else {
      ConsumerWaits(cap, s, s');
    }
  }

  /** Every step of either thread keeps the invariant. */
  lemma StepInv<T>(cap: nat, s: State<T>, a: Action<T>, s': State<T>)
    requires Divides(cap) && Inv(cap, s) && Step(cap, s, a) == Some(s')
    ensures Inv(cap, s')
  {
    match a
    case ProducerMoves =>
      if s.p.PReady? { WriteInv(cap, s, s'); }
      else if s.p.PWritten? { PublishInv(cap, s, s'); }
      else { ProducerControl(cap, s, s'); SameQueueInv(cap, s, s'); }
    case ConsumerMoves =>
      if s.c.CReady? { ReadInv(cap, s, s'); }
      else if s.c.CTaken? { RetireInv(cap, s, s'); }
      else { ConsumerControl(cap, s, s'); SameQueueInv(cap, s, s'); }
    case _ =>
      SameQueueInv(cap, s, s');
  }
}
