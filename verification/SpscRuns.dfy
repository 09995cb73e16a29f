/** Safety of the queue over whole runs: every interleaving, from an empty queue. */
module SpscRuns {
  import opened Options
  import opened SpscQueue
  import opened SpscSafety

  ghost predicate IsRun<T>(cap: nat, states: seq<State<T>>, actions: seq<Action<T>>) {
    && |states| == |actions| + 1
    && Capacity(cap) && Initial(cap, states[0])
    && forall i :: 0 <= i < |actions| ==> StepsTo(cap, states[i], actions[i], states[i + 1])
  }

  ghost predicate StepsTo<T>(cap: nat, s: State<T>, a: Action<T>, s': State<T>) {
    cap > 0 && |s.data| == cap && Step(cap, s, a) == Some(s')
  }

  lemma {:induction false} RunInv<T>(cap: nat, states: seq<State<T>>, actions: seq<Action<T>>, i: nat)
    requires IsRun(cap, states, actions) && i < |states|
    ensures Divides(cap) && Inv(cap, states[i])
  {
    CapacityDivides(cap);
    if i == 0 {
      InitialInv(cap, states[0]);
    } else {
      RunInv(cap, states, actions, i - 1);
      assert StepsTo(cap, states[i - 1], actions[i - 1], states[i]);
      StepInv(cap, states[i - 1], actions[i - 1], states[i]);
    }
  }

  /** In every interleaving, what has been popped is the beginning of what has been pushed, and the
      number of elements in between stays within the capacity, however often the indices wrap. */
  lemma FirstInFirstOut<T>(cap: nat, states: seq<State<T>>, actions: seq<Action<T>>, i: nat)
    requires IsRun(cap, states, actions) && i < |states|
    ensures states[i].popped <= states[i].pushed
    ensures 0 <= |states[i].pushed| - |states[i].popped| <= cap
  {
    RunInv(cap, states, actions, i);
  }

  /** No element that has not been read is ever overwritten. */
  lemma UnreadSurvives<T>(cap: nat, states: seq<State<T>>, actions: seq<Action<T>>, i: nat, j: nat, k: nat)
    requires IsRun(cap, states, actions) && i <= j < |states|
    requires k < |states[i].pushed| && |states[j].popped| <= k
    ensures |states[j].data| == cap > 0 && k < |states[j].pushed|
    ensures states[j].data[k % cap] == states[j].pushed[k] == states[i].pushed[k]
  {
    RunInv(cap, states, actions, j);
    HistoriesGrow(cap, states, actions, i, j);
    assert Unread(cap, states[j], k);
  }

  lemma {:induction false} HistoriesGrow<T>(cap: nat, states: seq<State<T>>, actions: seq<Action<T>>, i: nat, j: nat)
    requires IsRun(cap, states, actions) && i <= j < |states|
    ensures states[i].pushed <= states[j].pushed && states[i].popped <= states[j].popped
    decreases j - i
  {
    if i < j {
      HistoriesGrow(cap, states, actions, i, j - 1);
      assert StepsTo(cap, states[j - 1], actions[j - 1], states[j]);
      StepGrows(cap, states[j - 1], actions[j - 1], states[j]);
    }
  }

  lemma StepGrows<T>(cap: nat, s: State<T>, a: Action<T>, s': State<T>)
    requires StepsTo(cap, s, a, s')
    ensures s.pushed <= s'.pushed && s.popped <= s'.popped
  {
  }

  /** The producer never writes the slot the consumer is about to read. */
  lemma NoSlotRace<T>(cap: nat, states: seq<State<T>>, actions: seq<Action<T>>, i: nat)
    requires IsRun(cap, states, actions) && i < |states|
    requires states[i].p.PReady? && states[i].c.CReady?
    ensures states[i].p.w % cap != states[i].c.r % cap
  {
    RunInv(cap, states, actions, i);
    var s := states[i];
    SameSlot(cap, |s.popped|);
    WriteSparesUnread(cap, s, |s.popped|);
  }

  /** No wake-up is lost: whoever sleeps while it need not has a notification coming. */
  lemma NoLostWakeup<T>(cap: nat, states: seq<State<T>>, actions: seq<Action<T>>, i: nat)
    requires IsRun(cap, states, actions) && i < |states|
    ensures states[i].p.PAsleep? && |states[i].pushed| - |states[i].popped| < cap ==>
              states[i].c.CNotifying? || states[i].c.CHolding?
    ensures states[i].c.CAsleep? && |states[i].pushed| - |states[i].popped| > 0 ==>
              states[i].p.PNotifying? || states[i].p.PHolding?
  {
    RunInv(cap, states, actions, i);
  }

  /** While both threads are in a call, one of them can move: they never wait for each other for ever. */
  lemma NoDeadlock<T>(cap: nat, states: seq<State<T>>, actions: seq<Action<T>>, i: nat)
    requires IsRun(cap, states, actions) && i < |states|
    requires !states[i].p.PIdle? && !states[i].c.CIdle?
    ensures cap > 0 && |states[i].data| == cap
    ensures ProducerStep(cap, states[i]).Some? || ConsumerStep(cap, states[i]).Some?
  {
    RunInv(cap, states, actions, i);
  }

  /** A call that does not wait is refused exactly when the queue is full, or empty. */
  lemma RefusalsAreExact<T>(cap: nat, states: seq<State<T>>, actions: seq<Action<T>>, i: nat)
    requires IsRun(cap, states, actions) && i < |actions|
    ensures states[i].p.PLoaded? && !states[i].p.wait && actions[i] == ProducerMoves ==>
              (states[i + 1].p.PIdle? <==> |states[i].pushed| - |states[i].popped| == cap)
    ensures states[i].c.CLoaded? && !states[i].c.wait && actions[i] == ConsumerMoves ==>
              (states[i + 1].c.CIdle? <==> states[i].pushed == states[i].popped)
  {
    RunInv(cap, states, actions, i);
    assert StepsTo(cap, states[i], actions[i], states[i + 1]);
    var s := states[i];
    MinusCounts(|s.pushed|, |s.popped|);
    EqualIndices(|s.pushed|, |s.popped|);
  }
}
