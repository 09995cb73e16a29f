/** What a whole call does: from the action that begins it to the next state in which its thread is idle. */
module SpscCalls {
  import opened SpscQueue
  import opened SpscRuns

  // Emplace.

  /** A call begun at `i` is over at `j`, and not before. */
  ghost predicate ProducerCall<T>(states: seq<State<T>>, i: nat, j: nat) {
    i < j < |states| && states[i].p.PIdle? && states[j].p.PIdle? && forall k :: i < k < j ==> !states[k].p.PIdle?
  }

  /** A call that is to push `x` behind `base`, and is not to be refused. */
  ghost predicate Pushing<T>(s: State<T>, base: seq<T>, x: T) {
    match s.p
    case PLoaded(_, y, wait) => wait && y == x && s.pushed == base
    case PLocking(_, y) => y == x && s.pushed == base
    case PChecking(_, y) => y == x && s.pushed == base
    case PBlocked(_, y) => y == x && s.pushed == base
    case PAsleep(_, y) => y == x && s.pushed == base
    case PUnlocking(_, y) => y == x && s.pushed == base
    case PReady(_, y) => y == x && s.pushed == base
    case PWritten(_, y) => y == x && s.pushed == base
    case PNotifying => s.pushed == base + [x]
    case PHolding => s.pushed == base + [x]
    case PLeaving => s.pushed == base + [x]
    case PIdle => s.pushed == base + [x]
  }

  lemma PushingStep<T>(cap: nat, s: State<T>, a: Action<T>, s': State<T>, base: seq<T>, x: T)
    requires StepsTo(cap, s, a, s') && Pushing(s, base, x) && !s.p.PIdle?
    ensures Pushing(s', base, x)
  {
  }

  lemma {:induction false} PushingOn<T>(cap: nat, states: seq<State<T>>, actions: seq<Action<T>>, i: nat, j: nat,
                                        base: seq<T>, x: T)
    requires IsRun(cap, states, actions) && i <= j < |states| && Pushing(states[i], base, x)
    requires forall k :: i <= k < j ==> !states[k].p.PIdle?
    ensures Pushing(states[j], base, x)
    decreases j - i
  {
    if i < j {
      PushingOn(cap, states, actions, i, j - 1, base, x);
      assert StepsTo(cap, states[j - 1], actions[j - 1], states[j]);
      PushingStep(cap, states[j - 1], actions[j - 1], states[j], base, x);
    }
  }

  /** EmplaceWait: when the call is over, its element, and no other, has been added. */
  lemma EmplaceWaitPushes<T>(cap: nat, states: seq<State<T>>, actions: seq<Action<T>>, i: nat, j: nat, x: T)
    requires IsRun(cap, states, actions) && ProducerCall(states, i, j) && actions[i] == Emplace(x, true)
    ensures states[j].pushed == states[i].pushed + [x]
  {
    assert StepsTo(cap, states[i], actions[i], states[i + 1]);
    PushingOn(cap, states, actions, i + 1, j, states[i].pushed, x);
  }

  /** A call that may be refused and has not looked at the queue yet. */
  ghost predicate Trying<T>(s: State<T>, base: seq<T>, x: T) {
    s.p.PLoaded? && s.p.x == x && !s.p.wait && s.pushed == base
  }

  /** The first step that the producer takes in a call that may be refused. */
  lemma {:induction false} FirstTry<T>(cap: nat, states: seq<State<T>>, actions: seq<Action<T>>, i: nat, j: nat,
                                       base: seq<T>, x: T) returns (k: nat)
    requires IsRun(cap, states, actions) && i < j < |states| && Trying(states[i], base, x) && states[j].p.PIdle?
    ensures i <= k < j && Trying(states[k], base, x)
    ensures actions[k] == ProducerMoves && forall m :: i <= m < k ==> actions[m] != ProducerMoves
    decreases j - i
  {
    if actions[i] == ProducerMoves {
      k := i;
    } else {
      assert StepsTo(cap, states[i], actions[i], states[i + 1]);
      k := FirstTry(cap, states, actions, i + 1, j, base, x);
    }
  }

  /** TryEmplace: the first step the producer takes decides.  If the queue is full at that step the call is over and
      nothing has been added; otherwise its element, and no other, has been added when it is over. */
  lemma EmplaceTryExact<T>(cap: nat, states: seq<State<T>>, actions: seq<Action<T>>, i: nat, j: nat, x: T)
    returns (k: nat)
    requires IsRun(cap, states, actions) && ProducerCall(states, i, j) && actions[i] == Emplace(x, false)
    ensures i < k < j && actions[k] == ProducerMoves && forall m :: i < m < k ==> actions[m] != ProducerMoves
    ensures var full := |states[k].pushed| - |states[k].popped| == cap;
      && (full ==> j == k + 1 && states[j].pushed == states[i].pushed)
      && (!full ==> states[j].pushed == states[i].pushed + [x])
  {
    assert StepsTo(cap, states[i], actions[i], states[i + 1]);
    var base := states[i].pushed;
    k := FirstTry(cap, states, actions, i + 1, j, base, x);
    RefusalsAreExact(cap, states, actions, k);
    assert StepsTo(cap, states[k], actions[k], states[k + 1]);
    if !states[k + 1].p.PIdle? {
      PushingOn(cap, states, actions, k + 1, j, base, x);
    }
  }

  // Pop.

  ghost predicate ConsumerCall<T>(states: seq<State<T>>, i: nat, j: nat) {
    i < j < |states| && states[i].c.CIdle? && states[j].c.CIdle? && forall k :: i < k < j ==> !states[k].c.CIdle?
  }

  /** One element more than `base` has been popped. */
  ghost predicate OneMore<T>(s: State<T>, base: seq<T>) { |s.popped| == |base| + 1 && base <= s.popped }

  /** A call that is to pop one element behind `base`, and is not to be refused. */
  ghost predicate Popping<T>(s: State<T>, base: seq<T>) {
    match s.c
    case CLoaded(_, wait) => wait && s.popped == base
    case CLocking(_) => s.popped == base
    case CChecking(_) => s.popped == base
    case CBlocked(_) => s.popped == base
    case CAsleep(_) => s.popped == base
    case CUnlocking(_) => s.popped == base
    case CReady(_) => s.popped == base
    case CTaken(_, _) => s.popped == base
    case CNotifying => OneMore(s, base)
    case CHolding => OneMore(s, base)
    case CLeaving => OneMore(s, base)
    case CIdle => OneMore(s, base)
  }

  lemma PoppingStep<T>(cap: nat, s: State<T>, a: Action<T>, s': State<T>, base: seq<T>)
    requires StepsTo(cap, s, a, s') && Popping(s, base) && !s.c.CIdle?
    ensures Popping(s', base)
  {
  }

  lemma {:induction false} PoppingOn<T>(cap: nat, states: seq<State<T>>, actions: seq<Action<T>>, i: nat, j: nat,
                                        base: seq<T>)
    requires IsRun(cap, states, actions) && i <= j < |states| && Popping(states[i], base)
    requires forall k :: i <= k < j ==> !states[k].c.CIdle?
    ensures Popping(states[j], base)
    decreases j - i
  {
    if i < j {
      PoppingOn(cap, states, actions, i, j - 1, base);
      assert StepsTo(cap, states[j - 1], actions[j - 1], states[j]);
      PoppingStep(cap, states[j - 1], actions[j - 1], states[j], base);
    }
  }

  /** The oldest element not popped yet is taken, and no other. */
  ghost predicate TookOldest<T>(before: State<T>, after: State<T>) {
    |before.popped| < |after.pushed| && after.popped == before.popped + [after.pushed[|before.popped|]]
  }

  lemma OneMoreIsOldest<T>(cap: nat, states: seq<State<T>>, actions: seq<Action<T>>, i: nat, j: nat)
    requires IsRun(cap, states, actions) && i <= j < |states| && OneMore(states[j], states[i].popped)
    ensures TookOldest(states[i], states[j])
  {
    FirstInFirstOut(cap, states, actions, j);
    var n := |states[i].popped|;
    assert states[j].popped == states[j].popped[..n] + [states[j].popped[n]];
  }

  /** PopWait: when the call is over, the oldest element, and no other, has been taken. */
  lemma PopWaitTakes<T>(cap: nat, states: seq<State<T>>, actions: seq<Action<T>>, i: nat, j: nat)
    requires IsRun(cap, states, actions) && ConsumerCall(states, i, j) && actions[i] == Pop(true)
    ensures TookOldest(states[i], states[j])
  {
    assert StepsTo(cap, states[i], actions[i], states[i + 1]);
    PoppingOn(cap, states, actions, i + 1, j, states[i].popped);
    OneMoreIsOldest(cap, states, actions, i, j);
  }

  ghost predicate TryingPop<T>(s: State<T>, base: seq<T>) {
    s.c.CLoaded? && !s.c.wait && s.popped == base
  }

  lemma {:induction false} FirstTryPop<T>(cap: nat, states: seq<State<T>>, actions: seq<Action<T>>, i: nat, j: nat,
                                          base: seq<T>) returns (k: nat)
    requires IsRun(cap, states, actions) && i < j < |states| && TryingPop(states[i], base) && states[j].c.CIdle?
    ensures i <= k < j && TryingPop(states[k], base)
    ensures actions[k] == ConsumerMoves && forall m :: i <= m < k ==> actions[m] != ConsumerMoves
    decreases j - i
  {
    if actions[i] == ConsumerMoves {
      k := i;
    } else {
      assert StepsTo(cap, states[i], actions[i], states[i + 1]);
      k := FirstTryPop(cap, states, actions, i + 1, j, base);
    }
  }

  /** TryPop: the first step the consumer takes decides.  If the queue is empty at that step the call is over and
      nothing has been taken; otherwise the oldest element, and no other, has been taken when it is over. */
  lemma PopTryExact<T>(cap: nat, states: seq<State<T>>, actions: seq<Action<T>>, i: nat, j: nat) returns (k: nat)
    requires IsRun(cap, states, actions) && ConsumerCall(states, i, j) && actions[i] == Pop(false)
    ensures i < k < j && actions[k] == ConsumerMoves && forall m :: i < m < k ==> actions[m] != ConsumerMoves
    ensures var empty := states[k].pushed == states[k].popped;
      && (empty ==> j == k + 1 && states[j].popped == states[i].popped)
      && (!empty ==> TookOldest(states[i], states[j]))
  {
    assert StepsTo(cap, states[i], actions[i], states[i + 1]);
    var base := states[i].popped;
    k := FirstTryPop(cap, states, actions, i + 1, j, base);
    RefusalsAreExact(cap, states, actions, k);
    assert StepsTo(cap, states[k], actions[k], states[k + 1]);
    if !states[k + 1].c.CIdle? {
      PoppingOn(cap, states, actions, k + 1, j, base);
      OneMoreIsOldest(cap, states, actions, i, j);
    }
  }
}
