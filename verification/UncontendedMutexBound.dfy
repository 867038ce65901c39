/**
 How far the flag of base/uncontended_mutex.hh can count when the condition variable wakes nobody
 spuriously: with at most 2^16 threads it never wraps, so every such run is safe.
 */
module UncontendedMutexBound {
  import opened Arith
  import opened Options
  import opened UncontendedMutexes

  /** No thread is scheduled while it sleeps on cv; only notify_all wakes it. */
  predicate NoSpuriousWakeup(n: nat, schedule: seq<nat>) {
    schedule == [] ||
    (var before := schedule[..|schedule| - 1];
     var t := schedule[|schedule| - 1];
     NoSpuriousWakeup(n, before) && (t < n ==> After(n, before).pcs[t] != Sleeping))
  }

  /**
   How often a thread can still make some thread increment the flag while the present holder keeps the
   lock: once itself before it sleeps, or, before its notify_all, once each of all n threads.
   */
  function Weight(pc: PC, n: nat): nat {
    if pc in {Idle, TryLock, LockM, Increment, Woken, LeaveWait} then 1
    else if pc in {ReleaseM, NotifyAll} then n
    else 0
  }

  function Total(pcs: seq<PC>, n: nat): nat {
    if pcs == [] then 0 else Weight(pcs[0], n) + Total(pcs[1..], n)
  }

  function Sleepers(pcs: seq<PC>): (k: nat)
    ensures k <= |pcs|
  {
    if pcs == [] then 0 else (if pcs[0] == Sleeping then 1 else 0) + Sleepers(pcs[1..])
  }

  lemma {:induction false} TotalUpdate(pcs: seq<PC>, t: nat, pc: PC, n: nat)
    requires t < |pcs|
    ensures Total(pcs[t := pc], n) + Weight(pcs[t], n) == Total(pcs, n) + Weight(pc, n)
  {
    if t == 0 {
      assert pcs[0 := pc][1..] == pcs[1..];
    } else {
      TotalUpdate(pcs[1..], t - 1, pc, n);
      assert pcs[t := pc][1..] == pcs[1..][t - 1 := pc];
    }
  }

  lemma {:induction false} TotalWoken(pcs: seq<PC>, n: nat)
    ensures Total(WakeAll(pcs), n) == Total(pcs, n) + Sleepers(pcs)
  {
    if pcs != [] {
      TotalWoken(pcs[1..], n);
      assert WakeAll(pcs)[1..] == WakeAll(pcs[1..]);
    }
  }

  lemma {:induction false} AwakeThread(pcs: seq<PC>, t: nat)
    requires t < |pcs| && pcs[t] != Sleeping
    ensures Sleepers(pcs) <= |pcs| - 1
  {
    if t > 0 {
      AwakeThread(pcs[1..], t - 1);
    }
  }

  lemma {:induction false} TotalAtMost(pcs: seq<PC>, n: nat)
    requires n > 0
    ensures Total(pcs, n) <= n * |pcs|
  {
    if pcs != [] {
      TotalAtMost(pcs[1..], n);
      assert n * |pcs| == n + n * (|pcs| - 1);
    }
  }

  /** The holder itself adds nothing. */
  lemma TotalWithHolder(pcs: seq<PC>, n: nat, h: nat)
    requires h < |pcs| == n && Holds(pcs[h])
    ensures Total(pcs, n) <= n * (n - 1)
  {
    TotalUpdate(pcs, h, NotifyAll, n);
    TotalAtMost(pcs[h := NotifyAll], n);
    assert n * (n - 1) == n * n - n;
  }

  /** While the lock is held, the increments so far and those still to come are bounded. */
  ghost predicate Bounded(s: State, n: nat) {
    SomeHolder(s) ==> s.missed + Total(s.pcs, n) <= n * (n - 1)
  }

  /** The thread that wins the flag starts the count anew. */
  predicate Wins(s: State, t: nat)
    requires t < |s.pcs|
  {
    s.flag == 0 && s.pcs[t] in {TryLock, Increment}
  }

  lemma WinnerStartsAnew(s: State, t: nat, n: nat)
    requires Enabled(s, t) && |s.pcs| == n && Wins(s, t)
    ensures Bounded(Step(s, t), n)
  {
    TotalWithHolder(Step(s, t).pcs, n, t);
  }

  lemma NotifyPays(s: State, t: nat, n: nat)
    requires t < |s.pcs| == n && s.pcs[t] == NotifyAll
    ensures Total(WakeAll(s.pcs[t := Idle]), n) <= Total(s.pcs, n)
  {
    TotalUpdate(s.pcs, t, Idle, n);
    TotalWoken(s.pcs[t := Idle], n);
    AwakeThread(s.pcs[t := Idle], t);
  }

  /** A step of another kind, with the lock held before and after it, adds nothing to the bound. */
  lemma StepPays(s: State, t: nat, n: nat)
    requires Enabled(s, t) && |s.pcs| == n && !Wins(s, t) && s.pcs[t] != Sleeping
    requires s.pcs[t] != ClearFlag && !(s.pcs[t] == TryUnlock && s.flag == 1)
    ensures Step(s, t).missed + Total(Step(s, t).pcs, n) <= s.missed + Total(s.pcs, n)
  {
    if s.pcs[t] == NotifyAll {
      NotifyPays(s, t, n);
    } else {
      TotalUpdate(s.pcs, t, Step(s, t).pcs[t], n);
      assert Step(s, t).pcs == s.pcs[t := Step(s, t).pcs[t]];
    }
  }

  lemma HolderStays(s: State, t: nat, h: Option<nat>, m: Option<nat>)
    requires Inv(s, h, m) && Enabled(s, t) && !Wins(s, t) && SomeHolder(Step(s, t))
    ensures SomeHolder(s) && s.pcs[t] != ClearFlag && !(s.pcs[t] == TryUnlock && s.flag == 1)
  {
    var u :| 0 <= u < |Step(s, t).pcs| && Holds(Step(s, t).pcs[u]);
    assert Holds(s.pcs[u]);
    assert h == Some(u);
  }

  lemma StepKeepsBounded(s: State, t: nat, n: nat, h: Option<nat>, m: Option<nat>)
    requires Inv(s, h, m) && |s.pcs| == n && Bounded(s, n) && Enabled(s, t) && s.pcs[t] != Sleeping
    ensures Bounded(Step(s, t), n)
  {
    if Wins(s, t) {
      WinnerStartsAnew(s, t, n);
    } else if SomeHolder(Step(s, t)) {
      HolderStays(s, t, h, m);
      StepPays(s, t, n);
    }
  }

  /** Without a holder nothing has been counted. */
  ghost predicate CountsForHolder(s: State) {
    !SomeHolder(s) ==> s.missed == 0
  }

  lemma StepKeepsCounts(s: State, t: nat, h: Option<nat>, m: Option<nat>)
    requires Inv(s, h, m) && Enabled(s, t) && CountsForHolder(s)
    ensures CountsForHolder(Step(s, t))
  {
    if !SomeHolder(Step(s, t)) && SomeHolder(s) {
      var u :| 0 <= u < |s.pcs| && Holds(s.pcs[u]);
      assert !Holds(Step(s, t).pcs[u]);
    }
  }

  lemma Square(n: nat)
    requires n <= 0x1_0000
    ensures n * (n - 1) <= 0xFFFF_0000
  {
    if n > 0 {
      MulMonotone(n, n - 1, 0xFFFF);
      MulMonotone(0xFFFF, n, 0x1_0000);
    }
  }

  lemma BoundedIsNoWrap(s: State, n: nat)
    requires Bounded(s, n) && CountsForHolder(s) && n <= 0x1_0000
    ensures NoWrap(s)
  {
    Square(n);
  }

  /** At most n * (n - 1) attempts queue up behind one holder. */
  lemma {:induction false} CalmRunIsBounded(n: nat, schedule: seq<nat>)
    requires NoSpuriousWakeup(n, schedule) && n <= 0x1_0000
    ensures NeverWraps(n, schedule) && Bounded(After(n, schedule), n) && CountsForHolder(After(n, schedule))
  {
    if schedule != [] {
      var k := |schedule| - 1;
      var s, t := After(n, schedule[..k]), schedule[k];
      CalmRunIsBounded(n, schedule[..k]);
      var h, m := RunKeepsInv(n, schedule[..k]);
      if Enabled(s, t) {
        StepKeepsBounded(s, t, n, h, m);
        StepKeepsCounts(s, t, h, m);
      }
      BoundedIsNoWrap(After(n, schedule), n);
    }
  }

  /** With at most 2^16 threads, every run without spurious wakeups is safe throughout. */
  lemma CalmRunIsSafe(n: nat, schedule: seq<nat>)
    requires NoSpuriousWakeup(n, schedule) && n <= 0x1_0000
    ensures AlwaysSafe(n, schedule)
  {
    CalmRunIsBounded(n, schedule);
    SafeExactlyWithoutWrap(n, schedule);
  }
}
