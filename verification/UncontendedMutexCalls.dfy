/**
 The calls of lock and unlock of base/uncontended_mutex.hh: where a thread can go from inside one of
 them, that lock returns only to a thread that has won the flag, and how critical sections follow each
 other over a whole run.
 */
module UncontendedMutexCalls {
  import opened Options
  import opened UncontendedMutexes

  predicate InLock(pc: PC) {
    pc in {TryLock, LockM, Increment, Wait, Sleeping, Woken, LeaveWait, Break}
  }

  predicate InUnlock(pc: PC) {
    pc in {TryUnlock, UnlockM, ClearFlag, ReleaseM, NotifyAll}
  }

  /** What one step of thread t may make of where thread u is. */
  predicate Goes(from: PC, to: PC, own: bool) {
    || to == from
    || (InLock(from) && (InLock(to) || (own && to == Holding)))
    || (InUnlock(from) && own && (InUnlock(to) || to == Idle))
    || (own && from == Idle && to == TryLock)
    || (own && from == Holding && to == TryUnlock)
  }

  /** A thread inside lock stays inside it until it returns with the lock, and likewise for unlock. */
  lemma CallsAreKept(n: nat, schedule: seq<nat>, t: nat, u: nat)
    requires u < n
    ensures Goes(After(n, schedule).pcs[u], After(n, schedule + [t]).pcs[u], t == u)
  {
    var s := After(n, schedule);
    AfterOneMore(n, schedule, t);
    hide After;
    if Enabled(s, t) {
      StepGoes(s, t, u);
    }
  }

  lemma AfterOneMore(n: nat, schedule: seq<nat>, t: nat)
    ensures After(n, schedule + [t]) == Move(After(n, schedule), t)
  {
    assert (schedule + [t])[..|schedule|] == schedule;
  }

  lemma StepGoes(s: State, t: nat, u: nat)
    requires Enabled(s, t) && u < |s.pcs|
    ensures Goes(s.pcs[u], Step(s, t).pcs[u], t == u)
  {
  }

  /** Another thread's step only ever wakes a sleeper, and that is notify_all, which leaves nobody asleep. */
  lemma OthersOnlyWake(s: State, t: nat, u: nat)
    requires Enabled(s, t) && u < |s.pcs| && u != t
    ensures Step(s, t).pcs[u] == if s.pcs[t] == NotifyAll && s.pcs[u] == Sleeping then Woken else s.pcs[u]
  {
  }

  /** What a woken thread does next: it needs m, and then it tries for the flag again. */
  lemma WokenTriesAgain(s: State, t: nat)
    requires t < |s.pcs| && s.pcs[t] == Woken
    ensures Enabled(s, t) <==> s.owner == None
    ensures s.owner == None ==> Step(s, t).owner == Some(t) && Enabled(Step(s, t), t)
                                && Step(Step(s, t), t).pcs[t] == TryLock && Step(Step(s, t), t).owner == None
  {
  }

  /** The flag is won by the thread's own step, from 0 to 1, and given up by its own step, to 0. */
  lemma FlagChangesHands(s: State, t: nat, u: nat)
    requires Enabled(s, t) && u < |s.pcs|
    ensures !Holds(s.pcs[u]) && Holds(Step(s, t).pcs[u]) ==> u == t && s.flag == 0 && Step(s, t).flag == 1
    ensures Holds(s.pcs[u]) && !Holds(Step(s, t).pcs[u]) ==> u == t && Step(s, t).flag == 0
    ensures Step(s, t).pcs[u] == Holding && s.pcs[u] != Holding ==> InLock(s.pcs[u])
  {
  }

  /** A thread has to wait exactly if its next step acquires m and m is taken. */
  lemma BlockedOnlyByMutex(s: State, t: nat)
    requires t < |s.pcs|
    ensures Enabled(s.(owner := None), t)
    ensures !Enabled(s, t) <==> s.owner.Some? && Step(s.(owner := None), t).owner == Some(t)
  {
  }

  /** Each step is one operation: it changes the flag or the owner of m, not both, and others sleep on unless it notifies. */
  lemma OneOperationPerStep(s: State, t: nat)
    requires Enabled(s, t)
    ensures Step(s, t).flag == s.flag || Step(s, t).owner == s.owner
    ensures Step(s, t).owner == None || Step(s, t).owner == s.owner || (s.owner == None && Step(s, t).owner == Some(t))
    ensures s.pcs[t] == NotifyAll ==> Step(s, t).flag == s.flag && Step(s, t).owner == s.owner
  {
  }

  /** A sleeper can wake up at any time without having been notified. */
  lemma SpuriousWakeup(s: State, t: nat)
    requires t < |s.pcs| && s.pcs[t] == Sleeping
    ensures Move(s, t) == s.(pcs := s.pcs[t := Woken])
  {
  }

  // How many steps of its own a call takes.

  /** An upper bound on the steps of its own until unlock returns, or until lock returns or sleeps. */
  function StepsLeft(pc: PC): nat {
    match pc
    case TryUnlock => 5
    case UnlockM => 4
    case ClearFlag => 3
    case ReleaseM => 2
    case NotifyAll => 1
    case Woken => 6
    case LeaveWait => 5
    case TryLock => 4
    case LockM => 3
    case Increment => 2
    case Wait => 1
    case Break => 1
    case _ => 0
  }

  /** Every step of its own brings a call closer to its end, or an attempt to lock closer to sleep. */
  lemma OwnStepsCount(s: State, t: nat)
    requires Enabled(s, t) && s.pcs[t] !in {Idle, Holding, Sleeping}
    ensures StepsLeft(Step(s, t).pcs[t]) < StepsLeft(s.pcs[t])
    ensures !(s.pcs[t] == TryLock && s.flag == 0) && !(s.pcs[t] == TryUnlock && s.flag == 1) ==>
              StepsLeft(Step(s, t).pcs[t]) == StepsLeft(s.pcs[t]) - 1
    ensures StepsLeft(s.pcs[t]) == 1 ==> Step(s, t).pcs[t] == if InUnlock(s.pcs[t]) then Idle
                                         else if s.pcs[t] == Break then Holding else Sleeping
  {
  }

  /** A thread that finds the flag at 0 has the lock at once. */
  lemma UncontendedLock(s: State, t: nat)
    requires t < |s.pcs| && s.pcs[t] == TryLock
    ensures Enabled(s, t)
    ensures s.flag == 0 ==> Step(s, t).pcs[t] == Holding && Step(s, t).flag == 1
  {
  }

  // Critical sections over a run.

  datatype Event = Enter(thread: nat) | Exit(thread: nat)

  /** lock has returned to thread t, or thread t has called unlock. */
  function EventOf(s: State, t: nat): seq<Event> {
    if t >= |s.pcs| then []
    else if s.pcs[t] != Holding && t < |Move(s, t).pcs| && Move(s, t).pcs[t] == Holding then [Enter(t)]
    else if s.pcs[t] == Holding then [Exit(t)]
    else []
  }

  function History(n: nat, schedule: seq<nat>): seq<Event> {
    if schedule == [] then []
    else
      var before := schedule[..|schedule| - 1];
      History(n, before) + EventOf(After(n, before), schedule[|schedule| - 1])
  }

  /** Every section is entered and left by the same thread before the next one is entered. */
  predicate Sections(h: seq<Event>) {
    forall i :: 0 <= i < |h| ==> Follows(h, i)
  }

  predicate Follows(h: seq<Event>, i: nat)
    requires i < |h|
  {
    if i % 2 == 0 then h[i].Enter? else h[i].Exit? && h[i].thread == h[i - 1].thread
  }

  /** Some thread is inside its section exactly if the history is open, and it is the one that entered. */
  ghost predicate Open(h: seq<Event>, s: State) {
    forall t :: 0 <= t < |s.pcs| ==>
      (s.pcs[t] == Holding <==> |h| % 2 == 1 && h[|h| - 1].thread == t)
  }

  lemma OneMoreEvent(h: seq<Event>, s: State, t: nat, holder: Option<nat>, m: Option<nat>)
    requires Sections(h) && Open(h, s) && Inv(s, holder, m)
    requires |h| % 2 == 1 ==> h[|h| - 1].thread < |s.pcs|
    ensures var h' := h + EventOf(s, t);
            && Sections(h') && Open(h', Move(s, t))
            && (|h'| % 2 == 1 ==> h'[|h'| - 1].thread < |s.pcs|)
  {
    if Enabled(s, t) {
      forall u | 0 <= u < |s.pcs|
        ensures u != t ==> (Step(s, t).pcs[u] == Holding <==> s.pcs[u] == Holding)
        ensures Holds(s.pcs[u]) <==> holder == Some(u)
      {
      }
      EntersAlone(h, s, t, holder, m);
      if EventOf(s, t) != [] {
        SectionsGrow(h, EventOf(s, t)[0]);
      }
    }
    if EventOf(s, t) == [] {
      assert h + EventOf(s, t) == h;
    }
  }

  lemma SectionsGrow(h: seq<Event>, e: Event)
    requires Sections(h) && if |h| % 2 == 0 then e.Enter? else e.Exit? && e.thread == h[|h| - 1].thread
    ensures Sections(h + [e])
  {
    var all := h + [e];
    forall i | 0 <= i < |all|
      ensures Follows(all, i)
    {
      if i < |h| {
        assert Follows(h, i) && all[i] == h[i];
      }
    }
  }

  /** Nobody is inside when lock returns. */
  lemma EntersAlone(h: seq<Event>, s: State, t: nat, holder: Option<nat>, m: Option<nat>)
    requires Open(h, s) && Inv(s, holder, m) && Enabled(s, t)
    requires |h| % 2 == 1 ==> h[|h| - 1].thread < |s.pcs|
    ensures s.pcs[t] != Holding && Step(s, t).pcs[t] == Holding ==> |h| % 2 == 0
  {
    if |h| % 2 == 1 {
      var u := h[|h| - 1].thread;
      assert Holds(s.pcs[u]);
    }
  }

  /** In every run without a wrap of the flag, critical sections follow each other without overlap. */
  lemma {:induction false} SectionsFollowEachOther(n: nat, schedule: seq<nat>)
    requires NeverWraps(n, schedule)
    ensures Sections(History(n, schedule)) && Open(History(n, schedule), After(n, schedule))
    ensures var h := History(n, schedule); |h| % 2 == 1 ==> h[|h| - 1].thread < n
  {
    if schedule != [] {
      var k := |schedule| - 1;
      SectionsFollowEachOther(n, schedule[..k]);
      var h, m := RunKeepsInv(n, schedule[..k]);
      OneMoreEvent(History(n, schedule[..k]), After(n, schedule[..k]), schedule[k], h, m);
    }
  }
}
