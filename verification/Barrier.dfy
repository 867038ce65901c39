/**
 Barrier::wait of base/barrier.hh over any number of threads, one atomic step at a time.  A run is
 any schedule of thread numbers.
 */
module Barriers {
  import opened Arith
  import opened Options

  const M := 0x1_0000_0000  // generation is an unsigned int and wraps modulo 2^32

  /** Where a thread is; each constructor names the operation that comes next. */
  datatype PC =
    | Idle                             // outside; next: call wait()
    | Lock                             // acquire bMutex
    | Arrive                           // gen = generation; --numLeft
    | Complete(ticket: nat)            // numLeft is 0: generation++, numLeft = numWaiting
    | Notify(ticket: nat)              // bCond.notify_all()
    | Test(ticket: nat, gen: nat)      // gen == generation ?
    | Sleeping(ticket: nat, gen: nat)  // on bCond; next: a spurious wakeup
    | Woken(ticket: nat, gen: nat)     // reacquire bMutex inside bCond.wait
    | Return(ticket: nat, result: bool) // release bMutex and return

  datatype Call = Inside(thread: nat) | Returned(result: bool)

  /** `calls` records every arrival in order and `completed` counts generations without wrapping; wait() reads neither. */
  datatype State = State(numWaiting: nat, generation: nat, numLeft: nat, owner: Option<nat>, pcs: seq<PC>,
                         calls: seq<Call>, completed: nat)

  function Init(n: nat, threads: nat): State {
    State(n, 0, n, None, seq(threads, _ => Idle), [], 0)
  }

  predicate Enabled(s: State, t: nat) {
    t < |s.pcs| && (s.pcs[t].Lock? || s.pcs[t].Woken? ==> s.owner == None)
  }

  function WakeAll(pcs: seq<PC>): seq<PC> {
    seq(|pcs|, i requires 0 <= i < |pcs| =>
      if pcs[i].Sleeping? then Woken(pcs[i].ticket, pcs[i].gen) else pcs[i])
  }

  function Decremented(x: nat): nat {
    if x == 0 then M - 1 else x - 1
  }

  function Step(s: State, t: nat): State
    requires Enabled(s, t)
  {
    match s.pcs[t]
    case Idle => s.(pcs := s.pcs[t := Lock])
    case Lock => s.(owner := Some(t), pcs := s.pcs[t := Arrive])
    case Arrive =>
      var k, left := |s.calls|, Decremented(s.numLeft);
      s.(numLeft := left, calls := s.calls + [Inside(t)],
         pcs := s.pcs[t := if left == 0 then Complete(k) else Test(k, s.generation)])
    case Complete(k) =>
      s.(generation := (s.generation + 1) % M, numLeft := s.numWaiting, completed := s.completed + 1,
         pcs := s.pcs[t := Notify(k)])
    case Notify(k) => s.(pcs := WakeAll(s.pcs[t := Return(k, true)]))
    case Test(k, gen) =>
      if gen == s.generation then s.(owner := None, pcs := s.pcs[t := Sleeping(k, gen)])
      else s.(pcs := s.pcs[t := Return(k, false)])
    case Sleeping(k, gen) => s.(pcs := s.pcs[t := Woken(k, gen)])
    case Woken(k, gen) => s.(owner := Some(t), pcs := s.pcs[t := Test(k, gen)])
    case Return(k, result) =>
      s.(owner := None, calls := if k < |s.calls| then s.calls[k := Returned(result)] else s.calls,
         pcs := s.pcs[t := Idle])
  }

  /** A thread that cannot move when it is scheduled stays where it is. */
  function Move(s: State, t: nat): State {
    if Enabled(s, t) then Step(s, t) else s
  }

  function After(n: nat, threads: nat, schedule: seq<nat>): (s: State)
    ensures |s.pcs| == threads
  {
    if schedule == [] then Init(n, threads)
    else Move(After(n, threads, schedule[..|schedule| - 1]), schedule[|schedule| - 1])
  }

  predicate OwnsMutex(pc: PC) {
    pc.Arrive? || pc.Complete? || pc.Notify? || pc.Test? || pc.Return?
  }

  predicate HasTicket(pc: PC) {
    !pc.Idle? && !pc.Lock? && !pc.Arrive?
  }

  // The inductive invariant.

  ghost predicate OwnerInv(s: State) {
    && (s.owner.Some? ==> s.owner.value < |s.pcs|)
    && (forall t :: 0 <= t < |s.pcs| ==> (OwnsMutex(s.pcs[t]) <==> s.owner == Some(t)))
  }

  /** Arrivals are conserved, and numLeft is 0 only while the last arrival completes the generation. */
  ghost predicate CountInv(s: State) {
    && s.numWaiting > 0 && s.generation == s.completed % M && s.numLeft <= s.numWaiting
    && |s.calls| == s.numWaiting * s.completed + (s.numWaiting - s.numLeft)
    && (s.numLeft == 0 <==> s.owner.Some? && s.owner.value < |s.pcs| && s.pcs[s.owner.value].Complete?)
  }

  /** Every arrival is inside at the thread that made it, or has returned. */
  ghost predicate TicketInv(s: State) {
    && (forall k :: 0 <= k < |s.calls| && s.calls[k].Inside? ==>
          s.calls[k].thread < |s.pcs| && HasTicket(s.pcs[s.calls[k].thread]) && s.pcs[s.calls[k].thread].ticket == k)
    && (forall t {:trigger HasTicket(s.pcs[t])} :: 0 <= t < |s.pcs| && HasTicket(s.pcs[t]) ==>
          s.pcs[t].ticket < |s.calls| && s.calls[s.pcs[t].ticket] == Inside(t))
  }

  /** The generation that the k-th arrival belongs to, counted without wrapping. */
  function Generation(s: State, k: nat): nat
    requires s.numWaiting > 0
  {
    k / s.numWaiting
  }

  predicate IsLast(s: State, k: nat)
    requires s.numWaiting > 0
  {
    k % s.numWaiting == s.numWaiting - 1
  }

  ghost predicate PcInv(s: State, pc: PC)
    requires s.numWaiting > 0
  {
    match pc
    case Complete(k) => IsLast(s, k) && Generation(s, k) == s.completed
    case Notify(k) => IsLast(s, k) && Generation(s, k) < s.completed
    case Test(k, gen) => !IsLast(s, k) && gen == Generation(s, k) % M && Generation(s, k) <= s.completed
    case Sleeping(k, gen) => !IsLast(s, k) && gen == Generation(s, k) % M && Generation(s, k) <= s.completed
    case Woken(k, gen) => !IsLast(s, k) && gen == Generation(s, k) % M && Generation(s, k) <= s.completed
    case Return(k, result) => result == IsLast(s, k) && Generation(s, k) < s.completed
    case _ => true
  }

  ghost predicate ReturnInv(s: State)
    requires s.numWaiting > 0
  {
    forall k :: 0 <= k < |s.calls| && s.calls[k].Returned? ==>
      s.calls[k].result == IsLast(s, k) && Generation(s, k) < s.completed
  }

  ghost predicate NotifyPending(s: State) {
    exists t :: 0 <= t < |s.pcs| && s.pcs[t].Notify?
  }

  ghost predicate WakeInv(s: State) {
    forall t :: 0 <= t < |s.pcs| && s.pcs[t].Sleeping? && s.pcs[t].gen != s.generation ==>
      s.owner.Some? && s.owner.value < |s.pcs| && s.pcs[s.owner.value].Notify?
  }

  ghost predicate Inv(s: State) {
    && OwnerInv(s) && CountInv(s) && TicketInv(s) && ReturnInv(s) && WakeInv(s)
    && forall t :: 0 <= t < |s.pcs| ==> PcInv(s, s.pcs[t])
  }

  lemma StepKeepsOwner(s: State, t: nat)
    requires OwnerInv(s)
    ensures OwnerInv(Move(s, t))
  {
  }

  lemma StepKeepsCount(s: State, t: nat)
    requires OwnerInv(s) && CountInv(s)
    ensures CountInv(Move(s, t))
  {
    if Enabled(s, t) && s.pcs[t].Complete? {
      OneMore(s.numWaiting, s.completed);
    }
  }

  lemma OneMore(n: nat, g: nat)
    ensures n * (g + 1) == n * g + n && (g % M + 1) % M == (g + 1) % M
  {
  }

  lemma StepKeepsCallAt(s: State, t: nat, k: nat)
    requires TicketInv(s) && k < |Move(s, t).calls| && Move(s, t).calls[k].Inside?
    ensures var s' := Move(s, t);
            var u := s'.calls[k].thread;
            u < |s'.pcs| && HasTicket(s'.pcs[u]) && s'.pcs[u].ticket == k
  {
    hide Decremented;
    assert t < |s.pcs| && HasTicket(s.pcs[t]) ==> s.calls[s.pcs[t].ticket] == Inside(t);
  }

  lemma StepKeepsTicketAt(s: State, t: nat, u: nat)
    requires TicketInv(s) && u < |Move(s, t).pcs| && HasTicket(Move(s, t).pcs[u])
    ensures var s' := Move(s, t);
            s'.pcs[u].ticket < |s'.calls| && s'.calls[s'.pcs[u].ticket] == Inside(u)
  {
    hide Decremented;
    assert t < |s.pcs| && HasTicket(s.pcs[t]) ==> s.calls[s.pcs[t].ticket] == Inside(t);
    assert HasTicket(s.pcs[u]) || s.pcs[u].Arrive?;
  }

  lemma StepKeepsTickets(s: State, t: nat)
    requires TicketInv(s)
    ensures TicketInv(Move(s, t))
  {
    var s' := Move(s, t);
    hide Move;
    forall k | 0 <= k < |s'.calls| && s'.calls[k].Inside?
      ensures s'.calls[k].thread < |s'.pcs| && HasTicket(s'.pcs[s'.calls[k].thread])
      ensures s'.pcs[s'.calls[k].thread].ticket == k
    {
      StepKeepsCallAt(s, t, k);
    }
    forall u | 0 <= u < |s'.pcs| && HasTicket(s'.pcs[u])
      ensures s'.pcs[u].ticket < |s'.calls| && s'.calls[s'.pcs[u].ticket] == Inside(u)
    {
      StepKeepsTicketAt(s, t, u);
    }
  }

  lemma StepKeepsWake(s: State, t: nat)
    requires OwnerInv(s) && CountInv(s) && WakeInv(s)
    ensures WakeInv(Move(s, t))
  {
  }

  /** The arriving thread's ticket tells its generation and whether it is the last of it. */
  lemma TicketOnArrival(s: State)
    requires CountInv(s) && s.numLeft > 0
    ensures Generation(s, |s.calls|) == s.completed && (IsLast(s, |s.calls|) <==> s.numLeft == 1)
  {
    DivMod(s.numWaiting, s.completed, s.numWaiting - s.numLeft);
  }

  lemma StepKeepsPcs(s: State, t: nat, u: nat)
    requires OwnerInv(s) && CountInv(s) && t < |s.pcs| && u < |s.pcs|
    requires PcInv(s, s.pcs[t]) && PcInv(s, s.pcs[u])
    ensures PcInv(Move(s, t), Move(s, t).pcs[u])
  {
    if s.numLeft > 0 {
      TicketOnArrival(s);
    }
  }

  lemma StepKeepsReturns(s: State, t: nat)
    requires OwnerInv(s) && CountInv(s) && ReturnInv(s)
    requires t < |s.pcs| ==> PcInv(s, s.pcs[t])
    ensures Move(s, t).numWaiting == s.numWaiting && ReturnInv(Move(s, t))
  {
  }

  lemma {:induction false} RunKeepsInv(n: nat, threads: nat, schedule: seq<nat>)
    requires n > 0
    ensures Inv(After(n, threads, schedule)) && After(n, threads, schedule).numWaiting == n
    ensures |After(n, threads, schedule).pcs| == threads
  {
    if schedule != [] {
      var k := |schedule| - 1;
      var s, t := After(n, threads, schedule[..k]), schedule[k];
      RunKeepsInv(n, threads, schedule[..k]);
      StepKeepsOwner(s, t);
      StepKeepsCount(s, t);
      StepKeepsTickets(s, t);
      StepKeepsReturns(s, t);
      StepKeepsWake(s, t);
      if t < |s.pcs| {
        forall u | 0 <= u < |s.pcs|
          ensures PcInv(Move(s, t), Move(s, t).pcs[u])
        {
          StepKeepsPcs(s, t, u);
        }
      }
    }
  }

  // Where a call of wait can go.

  /** A sleeper can wake up at any time without having been notified. */
  lemma SpuriousWakeup(s: State, t: nat)
    requires t < |s.pcs| && s.pcs[t].Sleeping?
    ensures Move(s, t) == s.(pcs := s.pcs[t := Woken(s.pcs[t].ticket, s.pcs[t].gen)])
  {
  }

  /** A thread has to wait exactly if its next step acquires the mutex and that is taken. */
  lemma BlockedOnlyByMutex(s: State, t: nat)
    requires t < |s.pcs|
    ensures Enabled(s.(owner := None), t)
    ensures !Enabled(s, t) <==> s.owner.Some? && Step(s.(owner := None), t).owner == Some(t) && !OwnsMutex(s.pcs[t])
  {
  }

  /** Another thread's step moves a thread only out of its sleep, and only by notify_all, which leaves nobody asleep. */
  lemma OthersOnlyWake(s: State, t: nat, u: nat)
    requires Enabled(s, t) && u < |s.pcs| && u != t
    ensures Step(s, t).pcs[u] == if s.pcs[t].Notify? && s.pcs[u].Sleeping? then Woken(s.pcs[u].ticket, s.pcs[u].gen)
                                 else s.pcs[u]
  {
  }

  /** An upper bound on a call's own steps until it returns or sleeps. */
  function StepsLeft(pc: PC): nat {
    match pc
    case Lock => 5
    case Arrive => 4
    case Complete(_) => 3
    case Notify(_) => 2
    case Woken(_, _) => 3
    case Test(_, _) => 2
    case Return(_, _) => 1
    case _ => 0
  }

  /** A call ends only by its own step from Return; every other step of its own brings it closer to that or to sleep. */
  lemma OwnStepsCount(s: State, t: nat)
    requires Enabled(s, t) && !s.pcs[t].Idle? && !s.pcs[t].Sleeping?
    ensures StepsLeft(Step(s, t).pcs[t]) < StepsLeft(s.pcs[t])
    ensures Step(s, t).pcs[t].Idle? <==> s.pcs[t].Return?
    ensures Step(s, t).pcs[t].Sleeping? <==> s.pcs[t].Test? && s.pcs[t].gen == s.generation
  {
  }

  // What every run of any number of threads on a barrier for n guarantees.

  lemma ArrivalsConserved(n: nat, threads: nat, schedule: seq<nat>)
    requires n > 0
    ensures var s := After(n, threads, schedule);
            && s.numLeft <= n && |s.calls| == n * s.completed + (n - s.numLeft)
            && s.generation == s.completed % M
            && (s.owner == None ==> s.numLeft >= 1)
  {
    RunKeepsInv(n, threads, schedule);
  }

  /** Nobody returns before all n arrivals of the generation, and the last of them returns true. */
  lemma ReturnsAreRight(n: nat, threads: nat, schedule: seq<nat>, k: nat)
    requires n > 0 && k < |After(n, threads, schedule).calls| && After(n, threads, schedule).calls[k].Returned?
    ensures After(n, threads, schedule).calls[k].result <==> k % n == n - 1
    ensures n * (k / n + 1) <= |After(n, threads, schedule).calls|
  {
    RunKeepsInv(n, threads, schedule);
    var s := After(n, threads, schedule);
    assert Generation(s, k) < s.completed;
    if k / n + 1 < s.completed {
      Apart(n, k / n + 1, s.completed);
    }
  }

  /** The k-th call has returned, or is on its way out, with this result. */
  ghost predicate Gets(s: State, k: nat, result: bool)
    requires k < |s.calls|
  {
    || s.calls[k] == Returned(result)
    || (s.calls[k].Inside? && s.calls[k].thread < |s.pcs| && s.pcs[s.calls[k].thread] == Return(k, result))
  }

  /** The thread of the k-th call has completed the generation and is about to notify the others. */
  ghost predicate Notifies(s: State, k: nat)
    requires k < |s.calls|
  {
    s.calls[k].Inside? && s.calls[k].thread < |s.pcs| && s.pcs[s.calls[k].thread] == Notify(k)
  }

  /** Each completed generation g consists of n arrivals; the last gets true, when it has notified, and no other one does. */
  lemma OneTruePerGeneration(n: nat, threads: nat, schedule: seq<nat>, g: nat, k: nat)
    requires n > 0 && g < After(n, threads, schedule).completed && n * g <= k < n * g + n
    ensures k < |After(n, threads, schedule).calls| && k / n == g
    ensures k == n * g + n - 1 <==> Gets(After(n, threads, schedule), k, true) || Notifies(After(n, threads, schedule), k)
  {
    var s := After(n, threads, schedule);
    RunKeepsInv(n, threads, schedule);
    Apart(n, g, s.completed);
    DivMod(n, g, k - n * g);
    CallInGeneration(s, k);
  }

  lemma CallInGeneration(s: State, k: nat)
    requires Inv(s) && k < |s.calls| && Generation(s, k) < s.completed
    ensures IsLast(s, k) <==> Gets(s, k, true) || Notifies(s, k)
  {
    if s.calls[k].Inside? {
      assert PcInv(s, s.pcs[s.calls[k].thread]);
    }
  }

  /** A thread that sleeps un-notified is in a generation that is still open, unless 2^32 of them have passed it by. */
  lemma SleepersWaitForTheirGeneration(n: nat, threads: nat, schedule: seq<nat>, t: nat)
    requires n > 0 && t < |After(n, threads, schedule).pcs| && After(n, threads, schedule).pcs[t].Sleeping?
    requires !NotifyPending(After(n, threads, schedule))
    ensures var s := After(n, threads, schedule);
            && s.pcs[t].ticket < |s.calls|
            && (s.completed - s.pcs[t].ticket / n) % M == 0
            && (s.completed < M ==> s.pcs[t].ticket / n == s.completed)
            && (s.owner == None ==> |s.calls| < n * (s.completed + 1))
  {
    hide After, Inv;
    RunKeepsInv(n, threads, schedule);
    SleeperIsCurrent(After(n, threads, schedule), t);
  }

  lemma SleeperIsCurrent(s: State, t: nat)
    requires Inv(s) && t < |s.pcs| && s.pcs[t].Sleeping? && !NotifyPending(s)
    ensures s.pcs[t].ticket < |s.calls| && (s.completed - s.pcs[t].ticket / s.numWaiting) % M == 0
    ensures s.completed < M ==> s.pcs[t].ticket / s.numWaiting == s.completed
    ensures s.owner == None ==> |s.calls| < s.numWaiting * (s.completed + 1)
  {
    assert PcInv(s, s.pcs[t]) && HasTicket(s.pcs[t]);
    assert s.owner.Some? && s.owner.value < |s.pcs| ==> !s.pcs[s.owner.value].Notify?;
    SameRemainder(s.completed, Generation(s, s.pcs[t].ticket));
    assert s.numWaiting * (s.completed + 1) == s.numWaiting * s.completed + s.numWaiting;
  }

  lemma SameRemainder(a: nat, b: nat)
    requires a % M == b % M && b <= a
    ensures (a - b) % M == 0
  {
    assert a - b == M * (a / M - b / M);
  }
}
