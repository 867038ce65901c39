/**
 The wrap of the generation of base/barrier.hh: a thread that is woken and then passed by for 2^32
 generations goes back to sleep.  It takes more threads than the barrier waits for.
 */
module BarrierGenerations {
  import opened Arith
  import opened Barriers
  import opened Options

  /** A thread sleeps, with no notify to come, although its generation is complete. */
  ghost predicate Stranded(s: State, t: nat)
    requires s.numWaiting > 0
  {
    && t < |s.pcs| && s.pcs[t].Sleeping? && !NotifyPending(s)
    && Generation(s, s.pcs[t].ticket) < s.completed
  }

  // With no more threads than the barrier waits for, nobody is passed by.

  /** Every thread inside is in the open generation or the one before it. */
  ghost predicate Close(s: State)
    requires s.numWaiting > 0
  {
    forall t {:trigger HasTicket(s.pcs[t])} :: 0 <= t < |s.pcs| && HasTicket(s.pcs[t]) ==>
      Generation(s, s.pcs[t].ticket) + 1 >= s.completed
  }

  ghost function Arrived(s: State, lo: nat, j: nat): set<nat>
    requires lo + j <= |s.calls| && forall k :: lo <= k < lo + j ==> s.calls[k].Inside?
  {
    set k | lo <= k < lo + j :: s.calls[k].thread
  }

  lemma TicketsDiffer(s: State, k: nat, l: nat)
    requires TicketInv(s) && k < l < |s.calls| && s.calls[k].Inside? && s.calls[l].Inside?
    ensures s.calls[k].thread != s.calls[l].thread
  {
  }

  lemma {:induction false} ArrivedCount(s: State, lo: nat, j: nat)
    requires TicketInv(s) && lo + j <= |s.calls| && forall k :: lo <= k < lo + j ==> s.calls[k].Inside?
    ensures |Arrived(s, lo, j)| == j
  {
    if j == 0 {
      assert Arrived(s, lo, j) == {};
    } else {
      ArrivedCount(s, lo, j - 1);
      var last := s.calls[lo + j - 1].thread;
      forall k | lo <= k < lo + j - 1
        ensures s.calls[k].thread != last
      {
        TicketsDiffer(s, k, lo + j - 1);
      }
      hide TicketInv;
      assert Arrived(s, lo, j) == Arrived(s, lo, j - 1) + {last};
    }
  }

  ghost function UpTo(n: nat): (r: set<nat>)
    ensures |r| == n && forall i: nat :: i in r <==> i < n
  {
    if n == 0 then {} else UpTo(n - 1) + {n - 1}
  }

  lemma SameSize<T>(a: set<T>, b: set<T>)
    requires a <= b && |a| >= |b|
    ensures a == b
  {
    assert b == a + (b - a);
  }

  /** When all n arrivals are in, they are all the threads there are. */
  lemma AllHaveArrived(s: State, u: nat)
    requires Inv(s) && |s.pcs| <= s.numWaiting && s.numLeft == 0 && u < |s.pcs|
    ensures HasTicket(s.pcs[u]) && Generation(s, s.pcs[u].ticket) == s.completed
  {
    var n, lo := s.numWaiting, s.numWaiting * s.completed;
    forall k | lo <= k < lo + n
      ensures s.calls[k].Inside? && Generation(s, k) == s.completed
    {
      DivMod(n, s.completed, k - lo);
    }
    ArrivedCount(s, lo, n);
    SameSize(Arrived(s, lo, n), UpTo(|s.pcs|));
    assert u in Arrived(s, lo, n);
    var k :| lo <= k < lo + n && s.calls[k].thread == u;
  }

  lemma StepKeepsClose(s: State, t: nat)
    requires Inv(s) && Close(s) && |s.pcs| <= s.numWaiting
    ensures Move(s, t).numWaiting == s.numWaiting && Close(Move(s, t))
  {
    var s' := Move(s, t);
    if t < |s.pcs| {
      forall u | 0 <= u < |s'.pcs| && HasTicket(s'.pcs[u])
        ensures Generation(s', s'.pcs[u].ticket) + 1 >= s'.completed
      {
        StepKeepsCloseAt(s, t, u);
      }
    }
  }

  lemma StepKeepsCloseAt(s: State, t: nat, u: nat)
    requires Inv(s) && Close(s) && |s.pcs| <= s.numWaiting && t < |s.pcs| && u < |s.pcs|
    requires HasTicket(Move(s, t).pcs[u])
    ensures Move(s, t).numWaiting == s.numWaiting
    ensures Generation(s, Move(s, t).pcs[u].ticket) + 1 >= Move(s, t).completed
  {
    if s.pcs[t].Complete? {
      AllHaveArrived(s, u);
    } else if s.pcs[t].Arrive? && u == t {
      TicketOnArrival(s);
    } else {
      assert HasTicket(s.pcs[u]);
    }
  }

  lemma {:induction false} RunKeepsClose(n: nat, threads: nat, schedule: seq<nat>)
    requires 0 < n && threads <= n
    ensures After(n, threads, schedule).numWaiting == n && Close(After(n, threads, schedule))
  {
    if schedule != [] {
      var k := |schedule| - 1;
      RunKeepsClose(n, threads, schedule[..k]);
      RunKeepsInv(n, threads, schedule[..k]);
      StepKeepsClose(After(n, threads, schedule[..k]), schedule[k]);
    }
  }

  /** With at most n threads on a barrier for n, no run strands anybody. */
  lemma NobodyIsStranded(n: nat, threads: nat, schedule: seq<nat>, t: nat)
    requires 0 < n && threads <= n
    ensures After(n, threads, schedule).numWaiting == n && !Stranded(After(n, threads, schedule), t)
  {
    var s := After(n, threads, schedule);
    RunKeepsClose(n, threads, schedule);
    RunKeepsInv(n, threads, schedule);
    if t < |s.pcs| && s.pcs[t].Sleeping? && !NotifyPending(s) {
      SleeperIsCurrent(s, t);
      assert HasTicket(s.pcs[t]);
    }
  }

  // With one thread more, thread 0 is woken but does not run while the others go round.

  function Repeat(s: State, t: nat, k: nat): State {
    if k == 0 then s else Move(Repeat(s, t, k - 1), t)
  }

  function Times(t: nat, k: nat): seq<nat> {
    seq(k, _ => t)
  }

  lemma {:induction false} AfterTimes(n: nat, threads: nat, schedule: seq<nat>, t: nat, k: nat)
    ensures After(n, threads, schedule + Times(t, k)) == Repeat(After(n, threads, schedule), t, k)
  {
    if k == 0 {
      assert schedule + Times(t, 0) == schedule;
    } else {
      AfterTimes(n, threads, schedule, t, k - 1);
      hide Move, Init;
      var front := schedule + Times(t, k - 1);
      assert schedule + Times(t, k) == front + [t];
      assert (front + [t])[..|front|] == front;
    }
  }

  lemma ArriveAndSleep(s: State, t: nat, k: nat)
    requires k == 4 && t < |s.pcs| && s.pcs[t] == Idle && s.owner == None && s.numLeft >= 2
    ensures Repeat(s, t, k) == s.(numLeft := s.numLeft - 1, calls := s.calls + [Inside(t)],
                                  pcs := s.pcs[t := Sleeping(|s.calls|, s.generation)])
  {
    var i, g, arrived := |s.calls|, s.generation, s.calls + [Inside(t)];
    assert Repeat(s, t, 1) == s.(pcs := s.pcs[t := Lock]);
    assert Repeat(s, t, 2) == s.(owner := Some(t), pcs := s.pcs[t := Arrive]);
    assert Repeat(s, t, 3) == s.(owner := Some(t), numLeft := s.numLeft - 1, calls := arrived, pcs := s.pcs[t := Test(i, g)]);
  }

  /** The last arrival wakes the others and returns. */
  lemma CompleteAndReturn(s: State, t: nat, k: nat)
    requires k == 6 && t < |s.pcs| && s.pcs[t] == Idle && s.owner == None && s.numLeft == 1
    ensures Repeat(s, t, k) == s.(generation := (s.generation + 1) % M, numLeft := s.numWaiting, completed := s.completed + 1,
                                  calls := s.calls + [Returned(true)], pcs := WakeAll(s.pcs))
  {
    var i, arrived := |s.calls|, s.calls + [Inside(t)];
    assert Repeat(s, t, 1) == s.(pcs := s.pcs[t := Lock]);
    assert Repeat(s, t, 2) == s.(owner := Some(t), pcs := s.pcs[t := Arrive]);
    assert Repeat(s, t, 3) == s.(owner := Some(t), numLeft := 0, calls := arrived, pcs := s.pcs[t := Complete(i)]);
    var next := s.(generation := (s.generation + 1) % M, numLeft := s.numWaiting, completed := s.completed + 1);
    assert Repeat(s, t, 4) == next.(owner := Some(t), calls := arrived, pcs := s.pcs[t := Notify(i)]);
    assert WakeAll(s.pcs[t := Return(i, true)]) == WakeAll(s.pcs)[t := Return(i, true)];
    assert Repeat(s, t, 5) == next.(owner := Some(t), calls := arrived, pcs := WakeAll(s.pcs)[t := Return(i, true)]);
    assert arrived[i := Returned(true)] == s.calls + [Returned(true)];
    assert WakeAll(s.pcs)[t := Return(i, true)][t := Idle] == WakeAll(s.pcs);
  }

  lemma WakeAndReturn(s: State, t: nat, k: nat)
    requires k == 3 && t < |s.pcs| && s.pcs[t].Woken? && s.owner == None
    requires s.pcs[t].gen != s.generation && s.pcs[t].ticket < |s.calls|
    ensures Repeat(s, t, k) == s.(calls := s.calls[s.pcs[t].ticket := Returned(false)], pcs := s.pcs[t := Idle])
  {
    var i, g := s.pcs[t].ticket, s.pcs[t].gen;
    assert Repeat(s, t, 1) == s.(owner := Some(t), pcs := s.pcs[t := Test(i, g)]);
    assert Repeat(s, t, 2) == s.(owner := Some(t), pcs := s.pcs[t := Return(i, false)]);
  }

  lemma WakeAndSleep(s: State, t: nat, k: nat)
    requires k == 2 && t < |s.pcs| && s.pcs[t].Woken? && s.owner == None && s.pcs[t].gen == s.generation
    ensures Repeat(s, t, k) == s.(pcs := s.pcs[t := Sleeping(s.pcs[t].ticket, s.generation)])
  {
    assert Repeat(s, t, 1) == s.(owner := Some(t), pcs := s.pcs[t := Test(s.pcs[t].ticket, s.pcs[t].gen)]);
  }

  /** The ticket of the first arrival of generation c. */
  function First(n: nat, c: nat): nat {
    n * c
  }

  lemma FirstOfNext(n: nat, c: nat)
    ensures First(n, c + 1) == First(n, c) + n
  {
  }

  /** In generation c, threads a .. a + j - 1 have arrived and sleep; thread 0, if it is before them, has been passed by. */
  ghost predicate Filling(s: State, n: nat, threads: nat, c: nat, a: nat, j: nat) {
    && s.numWaiting == n && s.owner == None && s.generation == c % M && s.completed == c
    && s.numLeft + j == n && |s.calls| == First(n, c) + j && |s.pcs| == threads
    && forall u :: 0 <= u < threads ==>
         s.pcs[u] == if u < a then Woken(0, 0) else if u < a + j then Sleeping(First(n, c) + u - a, c % M) else Idle
  }

  /** Generation c is complete, and of the threads that were woken 1 .. j have returned. */
  ghost predicate Emptying(s: State, n: nat, threads: nat, c: nat, a: nat, j: nat) {
    && a <= 1 && s.numWaiting == n && s.owner == None && s.generation == (c + 1) % M && s.completed == c + 1
    && s.numLeft == n && |s.calls| == First(n, c) + n && |s.pcs| == threads
    && forall u :: 0 <= u < threads ==>
         s.pcs[u] == if u == 0 then Woken(0, 0) else if j < u < a + n - 1 then Woken(First(n, c) + u - a, c % M) else Idle
  }

  function Arrivals(a: nat, j: nat): seq<nat> {
    if j == 0 then [] else Arrivals(a, j - 1) + Times(a + j - 1, 4)
  }

  function Returns(j: nat): seq<nat> {
    if j == 0 then [] else Returns(j - 1) + Times(j, 3)
  }

  lemma OneMoreArrives(s: State, n: nat, threads: nat, c: nat, a: nat, j: nat, k: nat)
    requires Filling(s, n, threads, c, a, j) && j + 1 < n && a + j < threads && k == 4
    ensures Filling(Repeat(s, a + j, k), n, threads, c, a, j + 1)
  {
    hide First, Repeat;
    ArriveAndSleep(s, a + j, k);
  }

  lemma MoreArrivals(before: seq<nat>, a: nat, j: nat)
    requires j > 0
    ensures before + Arrivals(a, j) == before + Arrivals(a, j - 1) + Times(a + j - 1, 4)
  {
    hide Times;
  }

  lemma {:induction false} Fill(before: seq<nat>, n: nat, threads: nat, c: nat, a: nat, j: nat)
    requires Filling(After(n, threads, before), n, threads, c, a, 0) && j < n && a + j <= threads
    ensures Filling(After(n, threads, before + Arrivals(a, j)), n, threads, c, a, j)
  {
    hide After, Filling;
    if j == 0 {
      assert before + Arrivals(a, 0) == before;
    } else {
      hide *;
      var front := before + Arrivals(a, j - 1);
      MoreArrivals(before, a, j);
      Fill(before, n, threads, c, a, j - 1);
      AfterTimes(n, threads, front, a + j - 1, 4);
      OneMoreArrives(After(n, threads, front), n, threads, c, a, j - 1, 4);
    }
  }

  lemma NextGeneration(c: nat)
    ensures (c % M + 1) % M == (c + 1) % M != c % M
  {
  }

  lemma WokenAll(s: State, n: nat, threads: nat, c: nat, a: nat)
    requires 2 <= n && a + n <= threads && Filling(s, n, threads, c, a, n - 1) && a == if c == 0 then 0 else 1
    ensures Emptying(s.(generation := (s.generation + 1) % M, numLeft := n, completed := c + 1,
                        calls := s.calls + [Returned(true)], pcs := WakeAll(s.pcs)), n, threads, c, a, 0)
  {
    assert c == 0 ==> First(n, c) == 0;
    hide First;
    NextGeneration(c);
    forall u | 0 <= u < threads
      ensures WakeAll(s.pcs)[u] == if u == 0 then Woken(0, 0)
                                   else if 0 < u < a + n - 1 then Woken(First(n, c) + u - a, c % M) else Idle
    {
      assert WakeAll(s.pcs)[u] == if s.pcs[u].Sleeping? then Woken(s.pcs[u].ticket, s.pcs[u].gen) else s.pcs[u];
    }
  }

  lemma LastCompletes(s: State, n: nat, threads: nat, c: nat, a: nat, k: nat)
    requires 2 <= n && a + n <= threads && Filling(s, n, threads, c, a, n - 1) && k == 6
    requires a == if c == 0 then 0 else 1
    ensures Emptying(Repeat(s, a + n - 1, k), n, threads, c, a, 0)
  {
    hide First, Repeat, WakeAll, Emptying;
    assert s.pcs[a + n - 1] == Idle;
    WokenAll(s, n, threads, c, a);
    CompleteAndReturn(s, a + n - 1, k);
  }

  lemma CompletesRound(before: seq<nat>, n: nat, threads: nat, c: nat, a: nat)
    requires 2 <= n && a + n <= threads && Filling(After(n, threads, before), n, threads, c, a, n - 1)
    requires a == if c == 0 then 0 else 1
    ensures Emptying(After(n, threads, before + Times(a + n - 1, 6)), n, threads, c, a, 0)
  {
    hide *;
    AfterTimes(n, threads, before, a + n - 1, 6);
    LastCompletes(After(n, threads, before), n, threads, c, a, 6);
  }

  lemma OneMoreReturns(s: State, n: nat, threads: nat, c: nat, a: nat, j: nat, k: nat)
    requires 1 <= j <= a + n - 2 && Emptying(s, n, threads, c, a, j - 1) && a + n <= threads && k == 3
    ensures Emptying(Repeat(s, j, k), n, threads, c, a, j)
  {
    NextGeneration(c);
    hide First, Repeat;
    WakeAndReturn(s, j, k);
  }

  lemma {:induction false} Empty(before: seq<nat>, n: nat, threads: nat, c: nat, a: nat, j: nat)
    requires 2 <= n && a + n <= threads && a <= 1 && j <= a + n - 2
    requires Emptying(After(n, threads, before), n, threads, c, a, 0)
    ensures Emptying(After(n, threads, before + Returns(j)), n, threads, c, a, j)
  {
    hide After, Emptying;
    if j == 0 {
      assert before + Returns(0) == before;
    } else {
      var front := before + Returns(j - 1);
      assert before + Returns(j) == front + Times(j, 3);
      hide *;
      Empty(before, n, threads, c, a, j - 1);
      AfterTimes(n, threads, front, j, 3);
      OneMoreReturns(After(n, threads, front), n, threads, c, a, j, 3);
    }
  }

  function Round(n: nat, a: nat): seq<nat>
    requires n >= 2
  {
    Arrivals(a, n - 1) + Times(a + n - 1, 6) + Returns(a + n - 2)
  }

  lemma AllReturned(s: State, n: nat, threads: nat, c: nat, a: nat)
    requires 2 <= n && a + n <= threads && Emptying(s, n, threads, c, a, a + n - 2)
    ensures Filling(s, n, threads, c + 1, 1, 0)
  {
    FirstOfNext(n, c);
    hide First;
  }

  /** A round of n threads is one generation, and thread 0 stays where it is. */
  lemma RoundSpins(before: seq<nat>, n: nat, threads: nat, c: nat, a: nat)
    requires 2 <= n < threads && a == (if c == 0 then 0 else 1) && Filling(After(n, threads, before), n, threads, c, a, 0)
    ensures Filling(After(n, threads, before + Round(n, a)), n, threads, c + 1, 1, 0)
  {
    hide After, First, Filling, Emptying;
    Fill(before, n, threads, c, a, n - 1);
    var filled := before + Arrivals(a, n - 1);
    CompletesRound(filled, n, threads, c, a);
    var woken := filled + Times(a + n - 1, 6);
    Empty(woken, n, threads, c, a, a + n - 2);
    assert before + Round(n, a) == woken + Returns(a + n - 2);
    AllReturned(After(n, threads, before + Round(n, a)), n, threads, c, a);
  }

  /** The schedule of the first c generations. */
  function Spin(n: nat, c: nat): seq<nat>
    requires n >= 2
  {
    if c == 0 then [] else Spin(n, c - 1) + Round(n, if c == 1 then 0 else 1)
  }

  lemma {:induction false} SpinCounts(n: nat, threads: nat, c: nat)
    requires 2 <= n < threads
    ensures Filling(After(n, threads, Spin(n, c)), n, threads, c, if c == 0 then 0 else 1, 0)
  {
    if c > 0 {
      SpinCounts(n, threads, c - 1);
      RoundSpins(Spin(n, c - 1), n, threads, c - 1, if c == 1 then 0 else 1);
    }
  }

  /** After 2^32 generations thread 0 finds the number it knows and sleeps on. */
  lemma WrapStrandsASleeper(n: nat, threads: nat)
    requires 2 <= n < threads
    ensures var s := After(n, threads, Spin(n, M) + Times(0, 2)); s.numWaiting == n && Stranded(s, 0)
  {
    SpinCounts(n, threads, M);
    AfterTimes(n, threads, Spin(n, M), 0, 2);
    WakeAndSleep(After(n, threads, Spin(n, M)), 0, 2);
  }

  lemma NobodySleepsAlone(threads: nat, schedule: seq<nat>, t: nat)
    ensures After(1, threads, schedule).numWaiting == 1 && !Stranded(After(1, threads, schedule), t)
  {
    RunKeepsInv(1, threads, schedule);
    var s := After(1, threads, schedule);
    assert t < |s.pcs| ==> PcInv(s, s.pcs[t]);
  }

  /** Some run on a barrier for n strands a thread if and only if n is at least 2 and there are more than n threads. */
  lemma StrandsExactlyWithMoreThreads(n: nat, threads: nat)
    requires n > 0
    ensures (exists schedule, t :: After(n, threads, schedule).numWaiting == n && Stranded(After(n, threads, schedule), t))
            <==> 2 <= n < threads
  {
    if 2 <= n < threads {
      WrapStrandsASleeper(n, threads);
    } else {
      forall schedule, t
        ensures !(After(n, threads, schedule).numWaiting == n && Stranded(After(n, threads, schedule), t))
      {
        if n == 1 {
          NobodySleepsAlone(threads, schedule, t);
        } else {
          NobodyIsStranded(n, threads, schedule, t);
        }
      }
    }
  }
}
