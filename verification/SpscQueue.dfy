/** The bounded single-producer single-consumer queue, as interleaved steps of the two threads.

    Each step is one access to shared memory: an index, a slot, a mutex or a condition variable.
    `pushed` and `popped` record every element whose index increment has become visible. */
module SpscQueue {
  import opened Options
  import opened Bits

  datatype Owner = Nobody | Producer | Consumer

  /** Where the producer stands in Emplace.  `w` is the write index it has loaded. */
  datatype ProducerAt<T> =
    | PIdle
    | PLoaded(w: nat, x: T, wait: bool)
    | PLocking(w: nat, x: T)
    | PChecking(w: nat, x: T)
    | PBlocked(w: nat, x: T)
    | PAsleep(w: nat, x: T)
    | PUnlocking(w: nat, x: T)
    | PReady(w: nat, x: T)
    | PWritten(w: nat, x: T)
    | PNotifying
    | PHolding
    | PLeaving
  {
    /** Inside the producer's own critical section. */
    predicate InOwn() { PChecking? || PBlocked? || PUnlocking? }
    /** Inside the critical section in which it notifies the consumer. */
    predicate InOther() { PHolding? || PLeaving? }
  }

  datatype ConsumerAt<T> =
    | CIdle
    | CLoaded(r: nat, wait: bool)
    | CLocking(r: nat)
    | CChecking(r: nat)
    | CBlocked(r: nat)
    | CAsleep(r: nat)
    | CUnlocking(r: nat)
    | CReady(r: nat)
    | CTaken(r: nat, x: T)
    | CNotifying
    | CHolding
    | CLeaving
  {
    predicate InOwn() { CChecking? || CBlocked? || CUnlocking? }
    predicate InOther() { CHolding? || CLeaving? }
  }

  datatype State<T> = State(
    readIndex: nat, writeIndex: nat, data: seq<T>,
    producerMutex: Owner, consumerMutex: Owner,
    p: ProducerAt<T>, c: ConsumerAt<T>,
    pushed: seq<T>, popped: seq<T>)

  /** Unsigned 64-bit subtraction. */
  function Minus(a: nat, b: nat): nat {
    (a - b) % WORD64
  }

  /** The next step of the producer, if it can take one. */
  function ProducerStep<T>(cap: nat, s: State<T>): Option<State<T>>
    requires cap > 0 && |s.data| == cap
  {
    match s.p
    case PIdle => None
    case PLoaded(w, x, wait) =>
      if wait then Some(s.(p := PLocking(w, x)))
      else if Minus(w, s.readIndex) == cap then Some(s.(p := PIdle))
      else Some(s.(p := PReady(w, x)))
    case PLocking(w, x) =>
      if s.producerMutex == Nobody then Some(s.(producerMutex := Producer, p := PChecking(w, x))) else None
    case PChecking(w, x) =>
      if Minus(w, s.readIndex) < cap then Some(s.(p := PUnlocking(w, x))) else Some(s.(p := PBlocked(w, x)))
    case PBlocked(w, x) => Some(s.(producerMutex := Nobody, p := PAsleep(w, x)))
    case PAsleep(_, _) => None
    case PUnlocking(w, x) => Some(s.(producerMutex := Nobody, p := PReady(w, x)))
    case PReady(w, x) => Some(s.(data := s.data[w % cap := x], p := PWritten(w, x)))
    case PWritten(w, x) =>
      Some(s.(writeIndex := (s.writeIndex + 1) % WORD64, pushed := s.pushed + [x], p := PNotifying))
    case PNotifying =>
      if s.consumerMutex == Nobody then Some(s.(consumerMutex := Producer, p := PHolding)) else None
    case PHolding =>
      Some(s.(c := if s.c.CAsleep? then CLocking(s.c.r) else s.c, p := PLeaving))
    case PLeaving => Some(s.(consumerMutex := Nobody, p := PIdle))
  }

  /** The next step of the consumer, if it can take one. */
  function ConsumerStep<T>(cap: nat, s: State<T>): Option<State<T>>
    requires cap > 0 && |s.data| == cap
  {
    match s.c
    case CIdle => None
    case CLoaded(r, wait) =>
      if wait then Some(s.(c := CLocking(r)))
      else if r == s.writeIndex then Some(s.(c := CIdle))
      else Some(s.(c := CReady(r)))
    case CLocking(r) =>
      if s.consumerMutex == Nobody then Some(s.(consumerMutex := Consumer, c := CChecking(r))) else None
    case CChecking(r) =>
      if r != s.writeIndex then Some(s.(c := CUnlocking(r))) else Some(s.(c := CBlocked(r)))
    case CBlocked(r) => Some(s.(consumerMutex := Nobody, c := CAsleep(r)))
    case CAsleep(_) => None
    case CUnlocking(r) => Some(s.(consumerMutex := Nobody, c := CReady(r)))
    case CReady(r) => Some(s.(c := CTaken(r, s.data[r % cap])))
    case CTaken(r, x) =>
      Some(s.(readIndex := (s.readIndex + 1) % WORD64, popped := s.popped + [x], c := CNotifying))
    case CNotifying =>
      if s.producerMutex == Nobody then Some(s.(producerMutex := Consumer, c := CHolding)) else None
    case CHolding =>
      Some(s.(p := if s.p.PAsleep? then PLocking(s.p.w, s.p.x) else s.p, c := CLeaving))
    case CLeaving => Some(s.(producerMutex := Nobody, c := CIdle))
  }

  datatype Action<T> =
    | Emplace(x: T, wait: bool)
    | Pop(wait: bool)
    | ProducerMoves
    | ConsumerMoves
    | ProducerWakes
    | ConsumerWakes

  /** What the scheduler may let happen next: a call, a step, or a wake-up for no reason. */
  function Step<T>(cap: nat, s: State<T>, a: Action<T>): Option<State<T>>
    requires cap > 0 && |s.data| == cap
  {
    match a
    case Emplace(x, wait) => if s.p.PIdle? then Some(s.(p := PLoaded(s.writeIndex, x, wait))) else None
    case Pop(wait) => if s.c.CIdle? then Some(s.(c := CLoaded(s.readIndex, wait))) else None
    case ProducerMoves => ProducerStep(cap, s)
    case ConsumerMoves => ConsumerStep(cap, s)
    case ProducerWakes => if s.p.PAsleep? then Some(s.(p := PLocking(s.p.w, s.p.x))) else None
    case ConsumerWakes => if s.c.CAsleep? then Some(s.(c := CLocking(s.c.r))) else None
  }

  /** Capacity is a power of two that fits a word. */
  ghost predicate Capacity(cap: nat) {
    exists k :: IsCapacity(cap, k)
  }

  ghost predicate IsCapacity(cap: nat, k: nat) {
    k < 64 && cap == Pow2(k)
  }

  ghost predicate Initial<T>(cap: nat, s: State<T>) {
    && s.readIndex == s.writeIndex == 0 && |s.data| == cap
    && s.producerMutex == s.consumerMutex == Nobody
    && s.p == PIdle && s.c == CIdle
    && s.pushed == s.popped == []
  }

  /** Slot arithmetic: a word index and the count it stands for name the same slot, for all counts,
      exactly when the capacity divides 2^64. */
  lemma WrapsToSameSlot(cap: nat)
    requires cap > 0
    ensures (forall n: nat :: (n % WORD64) % cap == n % cap) <==> WORD64 % cap == 0
  {
    if WORD64 % cap == 0 {
      forall n: nat ensures (n % WORD64) % cap == n % cap {
        SlotAfterWrap(n, WORD64, cap);
      }
    }
    if forall n: nat :: (n % WORD64) % cap == n % cap {
      var n: nat := WORD64;
      assert (n % WORD64) % cap == n % cap;
      DivUnique(0, cap, 0, 0);
    }
  }

  /** Wrapping at a multiple of the capacity leaves the slot. */
  lemma SlotAfterWrap(n: nat, word: nat, cap: nat)
    requires cap > 0 && word > 0 && word % cap == 0
    ensures (n % word) % cap == n % cap
  {
    var q, w := word / cap, n / word;
    assert word == q * cap;
    assert n == w * word + n % word;
    MulAssociates(w, q, cap);
    AddMultiple(n % word, w * q, cap);
  }
}
