/** Locking a range of mutexes without deadlock, against arbitrary interference.

    Other threads show up only in which try_lock calls succeed: `answers` may be any sequence of
    outcomes.  A retry loop that others can keep busy for ever is followed through any number of
    failures: `patience` says after how many the observation is cut off, and then nothing is claimed
    about the locks held, since the call has not returned. */
module RangeLock {
  import opened Options

  datatype Event = Blocking(lock: int) | Tried(lock: int, ok: bool) | Unlocked(lock: int)

  predicate Between(begin: int, i: int, end: int) {
    begin <= i < end
  }

  ghost function Range(begin: int, end: int): set<int> {
    set i | begin <= i < end && Between(begin, i, end)
  }

  /** What one call does to the set of locks held. */
  function Apply(held: set<int>, e: Event): set<int> {
    match e
    case Blocking(i) => held + {i}
    case Tried(i, ok) => if ok then held + {i} else held
    case Unlocked(i) => held - {i}
  }

  /** A mutex the thread holds is not locked again, a mutex it does not hold is not unlocked, and a call
      that blocks is made holding nothing but what the thread held `outside`. */
  predicate Allowed(outside: set<int>, held: set<int>, e: Event) {
    match e
    case Blocking(i) => held == outside && i !in held
    case Tried(i, _) => i !in held
    case Unlocked(i) => i in held
  }

  /** The locks a thread holds after the calls in `log`. */
  function Replay(outside: set<int>, log: seq<Event>): set<int> {
    if log == [] then outside else Apply(Replay(outside, log[..|log| - 1]), log[|log| - 1])
  }

  /** Every call in `log` was allowed when it was made. */
  ghost predicate Disciplined(outside: set<int>, log: seq<Event>) {
    log == [] ||
    (Disciplined(outside, log[..|log| - 1]) &&
     Allowed(outside, Replay(outside, log[..|log| - 1]), log[|log| - 1]))
  }

  lemma LogStep(outside: set<int>, log: seq<Event>, e: Event)
    ensures Replay(outside, log + [e]) == Apply(Replay(outside, log), e)
    ensures Disciplined(outside, log + [e]) <==> Disciplined(outside, log) && Allowed(outside, Replay(outside, log), e)
  {
    assert (log + [e])[..|log|] == log;
  }

  /** The calls of an attempt on `[begin, end)` that stops at `failed`: everything before it is tried with success,
      it is tried without, and what was taken is given back in reverse. */
  function TryLog(begin: int, failed: int, end: int): seq<Event>
    requires begin <= failed <= end
    decreases end - begin
  {
    if begin == end then []
    else if begin == failed then [Tried(begin, false)]
    else [Tried(begin, true)] + TryLog(begin + 1, failed, end) + (if failed < end then [Unlocked(begin)] else [])
  }

  lemma TryLogNext(before: seq<Event>, begin: int, failed: int, end: int, log: seq<Event>)
    requires begin < failed <= end
    requires log == before + [Tried(begin, true)] + TryLog(begin + 1, failed, end) +
      (if failed < end then [Unlocked(begin)] else [])
    ensures log == before + TryLog(begin, failed, end)
  {
  }

  lemma {:induction false} TryLogSays(begin: int, failed: int, end: int, i: int)
    requires begin <= failed <= end
    ensures begin <= i < failed ==> Tried(i, true) in TryLog(begin, failed, end)
    ensures failed < end ==> Tried(failed, false) in TryLog(begin, failed, end)
    decreases end - begin
  {
    if begin < failed {
      TryLogSays(begin + 1, failed, end, i);
      var rest := TryLog(begin + 1, failed, end);
      assert forall e :: e in rest ==> e in [Tried(begin, true)] + rest;
    }
  }

  /** The calling thread's view of the mutexes. */
  class Locks {
    /** The outcome of each try_lock. */
    const answers: nat -> bool
    /** The locks the thread held before, outside the range. */
    const outside: set<int>
    var held: set<int>
    var asked: nat
    ghost var failures: nat
    ghost var log: seq<Event>

    ghost predicate Valid()
      reads this
    {
      held == Replay(outside, log) && Disciplined(outside, log)
    }

    constructor (answers: nat -> bool, outside: set<int>)
      ensures Valid() && this.answers == answers && this.outside == outside && held == outside
      ensures asked == 0 && failures == 0 && log == []
    {
      this.answers, this.outside, held, asked, failures, log := answers, outside, outside, 0, 0, [];
    }

    /** Blocks until the mutex is free. */
    method Lock(i: int)
      requires Valid() && held == outside && i !in held
      modifies this`held, this`log
      ensures Valid() && held == old(held) + {i} && log == old(log) + [Blocking(i)]
    {
      LogStep(outside, log, Blocking(i));
      log := log + [Blocking(i)];
      held := held + {i};
    }

    method TryLock(i: int) returns (ok: bool)
      requires Valid() && i !in held
      modifies this
      ensures Valid() && ok == answers(old(asked)) && asked == old(asked) + 1
      ensures held == old(held) + (if ok then {i} else {})
      ensures failures == old(failures) + (if ok then 0 else 1)
      ensures log == old(log) + [Tried(i, ok)]
    {
      ok := answers(asked);
      asked := asked + 1;
      LogStep(outside, log, Tried(i, ok));
      log := log + [Tried(i, ok)];
      if ok {
        held := held + {i};
      } else {
        failures := failures + 1;
      }
    }

    method Unlock(i: int)
      requires Valid() && i in held
      modifies this`held, this`log
      ensures Valid() && held == old(held) - {i} && log == old(log) + [Unlocked(i)]
    {
      LogStep(outside, log, Unlocked(i));
      held := held - {i};
      log := log + [Unlocked(i)];
    }

    /** Takes all locks of `[begin, end)` or none; returns the first that was not free. */
    method TryLockRange(begin: int, end: int) returns (failed: int)
      requires Valid() && begin <= end && held !! Range(begin, end)
      modifies this
      ensures Valid() && begin <= failed <= end && asked >= old(asked)
      ensures failed == end ==> held == old(held) + Range(begin, end) && failures == old(failures)
      ensures failed < end ==> held == old(held) && failures == old(failures) + 1
      ensures log == old(log) + TryLog(begin, failed, end)
      ensures (forall n :: n >= old(asked) ==> answers(n)) ==> failed == end
      decreases end - begin
    {
      if begin == end {
        return end;
      }
      RangeFirst(begin, end);
      ghost var before := log;
      var owns := TryLock(begin);
      if !owns {
        return begin;
      }
      failed := TryLockRange(begin + 1, end);
      if failed != end {
        Unlock(begin);
      }
      TryLogNext(before, begin, failed, end, log);
    }

    /** The destructor of RangeLockGuard. */
    method UnlockRange(begin: int, end: int)
      requires Valid() && begin <= end && Range(begin, end) <= held
      modifies this`held, this`log
      ensures Valid() && held == old(held) - Range(begin, end)
    {
      var i := begin;
      while i != end
        invariant begin <= i <= end && Valid()
        invariant held == old(held) - Range(begin, i)
        decreases end - i
      {
        assert Between(begin, i, end);
        Unlock(i);
        i := i + 1;
        RangeLast(begin, i);
      }
    }

    /** Blocks on the first lock and tries the others; gives the first back when one of them is busy. */
    method TryFromBegin(begin: int, next: int, end: int) returns (failed: int)
      requires Valid() && held == outside && next == begin + 1 <= end && outside !! Range(begin, end)
      modifies this
      ensures Valid() && next <= failed <= end && asked >= old(asked)
      ensures failed == end ==> held == outside + Range(begin, end) && failures == old(failures)
      ensures failed < end ==> held == outside && failures == old(failures) + 1
      ensures (forall n :: n >= old(asked) ==> answers(n)) ==> failed == end
    {
      RangeFirst(begin, end);
      Lock(begin);
      failed := TryLockRange(next, end);
      if failed != end {
        Unlock(begin);
      }
    }

    /** With the locks from `next` on held, tries the ones before; gives all back when one of them is busy and says
        where to go on. */
    method TryBehindGuard(begin: int, next: int, end: int) returns (done: bool, startWithBegin: bool, next': int)
      requires Valid() && begin < next < end && outside !! Range(begin, end) && held == outside + Range(next, end)
      modifies this
      ensures Valid() && asked >= old(asked)
      ensures done ==> held == outside + Range(begin, end) && failures == old(failures)
      ensures !done ==> held == outside && failures == old(failures) + 1 && begin < next' < end
      ensures !done && startWithBegin ==> next' == begin + 1
      ensures (forall n :: n >= old(asked) ==> answers(n)) ==> done
    {
      RangeFirst(begin, end);
      RangeSplit(begin + 1, next, end);
      done, startWithBegin, next' := false, true, begin + 1;
      var owns := TryLock(begin);
      if owns {
        startWithBegin := false;
        next' := TryLockRange(begin + 1, next);
        done := next' == next;
      }
      if !done {
        UnlockRange(next, end);
        if owns {
          Unlock(begin);
        }
      }
    }

    /** Locks all of `[begin, end)`, retrying from whichever lock was busy.  It returns only with every
        lock of the range held, blocks only while holding none of them, and keeps retrying only as long
        as try_lock calls keep failing. */
    method LockRange(begin: int, end: int, patience: nat) returns (returned: bool)
      requires Valid() && begin <= end && held == outside && outside !! Range(begin, end)
      modifies this
      ensures Valid()
      ensures returned ==> held == outside + Range(begin, end)
      ensures failures >= old(failures)
      ensures !returned ==> failures >= old(failures) + patience
      ensures patience > 0 && (forall n :: n >= old(asked) ==> answers(n)) ==> returned
      decreases end - begin
    {
      if begin == end {
        return true;
      }
      RangeFirst(begin, end);
      var startWithBegin, second := true, begin + 1;
      var next := second;
      var left := patience;
      while left > 0
        invariant Valid() && held == outside
        invariant second <= next <= end
        invariant startWithBegin ==> next == second
        invariant !startWithBegin ==> next < end
        invariant failures >= old(failures) + (patience - left)
        invariant left == patience ==> startWithBegin && asked == old(asked)
        invariant left < patience ==> exists n :: n >= old(asked) && !answers(n)
        decreases left
      {
        if startWithBegin {
          var failed := TryFromBegin(begin, next, end);
          if failed == end {
            return true;
          }
          startWithBegin, next := false, failed;
        } else {
          RangeSplit(second, next, end);
          var locked := LockRange(next, end, left);
          if !locked {
            return false;
          }
          var done;
          done, startWithBegin, next := TryBehindGuard(begin, next, end);
          if done {
            return true;
          }
        }
        left := left - 1;
      }
      returned := false;
    }
  }

  lemma RangeFirst(begin: int, end: int)
    requires begin < end
    ensures Range(begin, end) == {begin} + Range(begin + 1, end) && begin !in Range(begin + 1, end)
  {
    forall i ensures i in Range(begin, end) <==> i == begin || i in Range(begin + 1, end) {
      assert Between(begin, i, end) <==> i == begin || Between(begin + 1, i, end);
    }
  }

  lemma RangeLast(begin: int, end: int)
    requires begin < end
    ensures Range(begin, end) == Range(begin, end - 1) + {end - 1}
  {
    forall i ensures i in Range(begin, end) <==> i == end - 1 || i in Range(begin, end - 1) {
      assert Between(begin, i, end) <==> i == end - 1 || Between(begin, i, end - 1);
    }
  }

  lemma RangeSplit(begin: int, mid: int, end: int)
    requires begin <= mid <= end
    ensures Range(begin, end) == Range(begin, mid) + Range(mid, end) && Range(begin, mid) !! Range(mid, end)
  {
    forall i ensures i in Range(begin, end) <==> i in Range(begin, mid) || i in Range(mid, end) {
      assert Between(begin, i, end) <==> Between(begin, i, mid) || Between(mid, i, end);
    }
  }

  /** Several threads, each with a disciplined history and some of them waiting to lock a mutex:
      `waiting[t]` is the mutex thread `t` blocks on. */
  ghost predicate System(logs: seq<seq<Event>>, waiting: seq<Option<int>>) {
    && |waiting| == |logs|
    && forall t :: 0 <= t < |logs| ==>
         && Disciplined({}, logs[t])
         && (waiting[t].Some? ==> Disciplined({}, logs[t] + [Blocking(waiting[t].value)]))
  }

  /** Thread `t` waits for a mutex that thread `u` holds. */
  ghost predicate WaitsFor(logs: seq<seq<Event>>, waiting: seq<Option<int>>, t: int, u: int) {
    && 0 <= t < |logs| && 0 <= u < |logs| && |waiting| == |logs|
    && waiting[t].Some? && waiting[t].value in Replay({}, logs[u])
  }

  function After(circle: seq<int>, k: nat): int
    requires k < |circle|
  {
    circle[(k + 1) % |circle|]
  }

  ghost predicate IsCircle(logs: seq<seq<Event>>, waiting: seq<Option<int>>, circle: seq<int>) {
    |circle| > 0 && forall k :: 0 <= k < |circle| ==> WaitsFor(logs, waiting, circle[k], After(circle, k))
  }

  /** A thread that waits holds nothing another thread could wait for. */
  lemma WaiterHoldsNothing(logs: seq<seq<Event>>, waiting: seq<Option<int>>, t: int)
    requires System(logs, waiting) && 0 <= t < |logs| && waiting[t].Some?
    ensures Replay({}, logs[t]) == {}
  {
    LogStep({}, logs[t], Blocking(waiting[t].value));
  }

  /** Threads that lock ranges never wait for each other in a circle. */
  lemma NoCircularWait(logs: seq<seq<Event>>, waiting: seq<Option<int>>, circle: seq<int>)
    requires System(logs, waiting)
    ensures !IsCircle(logs, waiting, circle)
  {
    if |circle| > 0 {
      var u := After(circle, 0);
      assert IsCircle(logs, waiting, circle) ==> WaitsFor(logs, waiting, circle[0], u);
      if 0 <= u < |logs| && waiting[u].Some? {
        WaiterHoldsNothing(logs, waiting, u);
      }
    }
  }
}
