/**
 The lock and unlock protocol of base/uncontended_mutex.hh over any number of threads.  Every
 atomic operation on the flag, the inner mutex m and the condition variable cv is one step of one
 thread, and a run is any schedule of thread numbers.
 */
module UncontendedMutexes {
  import opened Options

  const M := 0x1_0000_0000  // the flag is an atomic int: arithmetic wraps modulo 2^32

  /** Where a thread is; each constructor names the operation that comes next. */
  datatype PC =
    | Idle            // outside; next: call lock()
    | TryLock         // testAndSet(0, 1)
    | LockM           // acquire m in lock()
    | Increment       // flag++, holding m
    | Wait            // cv.wait(ul), holding m
    | Sleeping        // on cv; next: a spurious wakeup
    | Woken           // reacquire m inside cv.wait
    | LeaveWait       // release m, back to the loop test
    | Break           // flag++ returned 0; release m and return from lock()
    | Holding         // lock() has returned; next: call unlock()
    | TryUnlock       // testAndSet(1, 0)
    | UnlockM         // acquire m in unlock()
    | ClearFlag       // flag = 0, holding m
    | ReleaseM        // release m in unlock()
    | NotifyAll       // cv.notify_all()

  /** `missed` counts the increments of flag since it was last won; nothing in the protocol reads it. */
  datatype State = State(flag: nat, owner: Option<nat>, pcs: seq<PC>, missed: nat)

  function Init(n: nat): State {
    State(0, None, seq(n, _ => Idle), 0)
  }

  /** A step that acquires m has to wait for it; every other step can always be taken. */
  predicate Enabled(s: State, t: nat) {
    t < |s.pcs| && (s.pcs[t] in {LockM, Woken, UnlockM} ==> s.owner == None)
  }

  function WakeAll(pcs: seq<PC>): seq<PC> {
    seq(|pcs|, i requires 0 <= i < |pcs| => if pcs[i] == Sleeping then Woken else pcs[i])
  }

  function Step(s: State, t: nat): State
    requires Enabled(s, t)
  {
    match s.pcs[t]
    case Idle => s.(pcs := s.pcs[t := TryLock])
    case TryLock => if s.flag == 0 then s.(flag := 1, missed := 0, pcs := s.pcs[t := Holding]) else s.(pcs := s.pcs[t := LockM])
    case LockM => s.(owner := Some(t), pcs := s.pcs[t := Increment])
    case Increment =>
      if s.flag == 0 then s.(flag := 1, missed := 0, pcs := s.pcs[t := Break])
      else s.(flag := (s.flag + 1) % M, missed := s.missed + 1, pcs := s.pcs[t := Wait])
    case Wait => s.(owner := None, pcs := s.pcs[t := Sleeping])
    case Sleeping => s.(pcs := s.pcs[t := Woken])
    case Woken => s.(owner := Some(t), pcs := s.pcs[t := LeaveWait])
    case LeaveWait => s.(owner := None, pcs := s.pcs[t := TryLock])
    case Break => s.(owner := None, pcs := s.pcs[t := Holding])
    case Holding => s.(pcs := s.pcs[t := TryUnlock])
    case TryUnlock => if s.flag == 1 then s.(flag := 0, missed := 0, pcs := s.pcs[t := Idle]) else s.(pcs := s.pcs[t := UnlockM])
    case UnlockM => s.(owner := Some(t), pcs := s.pcs[t := ClearFlag])
    case ClearFlag => s.(flag := 0, missed := 0, pcs := s.pcs[t := ReleaseM])
    case ReleaseM => s.(owner := None, pcs := s.pcs[t := NotifyAll])
    case NotifyAll => s.(pcs := WakeAll(s.pcs[t := Idle]))
  }

  /** A thread that cannot move when it is scheduled stays where it is. */
  function Move(s: State, t: nat): State {
    if Enabled(s, t) then Step(s, t) else s
  }

  /** The state that n threads reach by a schedule. */
  function After(n: nat, schedule: seq<nat>): (s: State)
    ensures |s.pcs| == n
  {
    if schedule == [] then Init(n)
    else Move(After(n, schedule[..|schedule| - 1]), schedule[|schedule| - 1])
  }

  // What is to be shown.

  /** Between winning the flag and clearing it. */
  predicate Holds(pc: PC) {
    pc in {Break, Holding, TryUnlock, UnlockM, ClearFlag}
  }

  ghost predicate SomeHolder(s: State) {
    exists t :: 0 <= t < |s.pcs| && Holds(s.pcs[t])
  }

  ghost predicate MutualExclusion(s: State) {
    forall t, u :: 0 <= t < u < |s.pcs| ==> !(Holds(s.pcs[t]) && Holds(s.pcs[u]))
  }

  ghost predicate FlagTellsHolder(s: State) {
    s.flag == 0 <==> !SomeHolder(s)
  }

  /** An unlocker has cleared the flag and still has its notify_all to do. */
  ghost predicate NotifyPending(s: State) {
    exists t :: 0 <= t < |s.pcs| && s.pcs[t] in {ReleaseM, NotifyAll}
  }

  ghost predicate NoLostWakeup(s: State) {
    (exists t :: 0 <= t < |s.pcs| && s.pcs[t] == Sleeping) ==> s.flag >= 2 || NotifyPending(s)
  }

  /** Fewer than 2^32 - 1 threads have queued up since the flag was won. */
  predicate NoWrap(s: State) {
    s.missed + 1 < M
  }

  predicate OwnsM(pc: PC) {
    pc in {Increment, Wait, LeaveWait, Break, ClearFlag, ReleaseM}
  }

  // The inductive invariant: h is the thread that holds the flag, n one that is about to notify.

  ghost predicate HolderInv(s: State, h: Option<nat>) {
    && (h.Some? ==> h.value < |s.pcs|)
    && (forall t :: 0 <= t < |s.pcs| ==> (Holds(s.pcs[t]) <==> h == Some(t)))
    && s.flag == (if h.Some? then s.missed + 1 else 0)
  }

  ghost predicate OwnerInv(s: State) {
    && (s.owner.Some? ==> s.owner.value < |s.pcs|)
    && (forall t :: 0 <= t < |s.pcs| ==> (OwnsM(s.pcs[t]) <==> s.owner == Some(t)))
  }

  ghost predicate WakeInv(s: State, n: Option<nat>) {
    && (n.Some? ==> n.value < |s.pcs| && s.pcs[n.value] in {ReleaseM, NotifyAll})
    && (forall t :: 0 <= t < |s.pcs| && s.pcs[t] == Wait ==> s.flag >= 2)
    && (forall t :: 0 <= t < |s.pcs| && s.pcs[t] == Sleeping ==> s.flag >= 2 || n.Some?)
  }

  ghost predicate Inv(s: State, h: Option<nat>, n: Option<nat>) {
    HolderInv(s, h) && OwnerInv(s) && WakeInv(s, n)
  }

  function NextHolder(s: State, t: nat, h: Option<nat>): Option<nat>
    requires t < |s.pcs|
  {
    if s.pcs[t] in {TryLock, Increment} && s.flag == 0 then Some(t)
    else if s.pcs[t] == ClearFlag || (s.pcs[t] == TryUnlock && s.flag == 1) then None else h
  }

  function NextNotifier(s: State, t: nat, n: Option<nat>): Option<nat>
    requires t < |s.pcs|
  {
    if s.pcs[t] == ClearFlag then Some(t) else if s.pcs[t] == NotifyAll then None else n
  }

  lemma StepKeepsHolder(s: State, t: nat, h: Option<nat>)
    requires HolderInv(s, h) && Enabled(s, t) && NoWrap(Step(s, t)) && NoWrap(s)
    ensures HolderInv(Step(s, t), NextHolder(s, t, h))
  {
  }

  lemma StepKeepsOwner(s: State, t: nat)
    requires OwnerInv(s) && Enabled(s, t)
    ensures OwnerInv(Step(s, t))
  {
  }

  lemma StepKeepsWake(s: State, t: nat, h: Option<nat>, n: Option<nat>)
    requires Inv(s, h, n) && Enabled(s, t) && NoWrap(Step(s, t)) && NoWrap(s)
    ensures WakeInv(Step(s, t), NextNotifier(s, t, n))
  {
  }

  ghost predicate Safe(s: State) {
    MutualExclusion(s) && FlagTellsHolder(s) && NoLostWakeup(s)
  }

  /** Safe in every state that the schedule passes through. */
  ghost predicate AlwaysSafe(n: nat, schedule: seq<nat>) {
    Safe(After(n, schedule)) && (schedule != [] ==> AlwaysSafe(n, schedule[..|schedule| - 1]))
  }

  predicate NeverWraps(n: nat, schedule: seq<nat>) {
    NoWrap(After(n, schedule)) && (schedule != [] ==> NeverWraps(n, schedule[..|schedule| - 1]))
  }

  lemma InvIsSafe(s: State, h: Option<nat>, n: Option<nat>)
    requires Inv(s, h, n)
    ensures Safe(s)
  {
    assert h.Some? ==> Holds(s.pcs[h.value]);
    assert n.Some? ==> s.pcs[n.value] in {ReleaseM, NotifyAll};
  }

  lemma {:induction false} RunKeepsInv(n: nat, schedule: seq<nat>) returns (h: Option<nat>, m: Option<nat>)
    requires NeverWraps(n, schedule)
    ensures Inv(After(n, schedule), h, m)
  {
    if schedule == [] {
      h, m := None, None;
    } else {
      var k := |schedule| - 1;
      var s, t := After(n, schedule[..k]), schedule[k];
      h, m := RunKeepsInv(n, schedule[..k]);
      if Enabled(s, t) {
        StepKeepsHolder(s, t, h);
        StepKeepsOwner(s, t);
        StepKeepsWake(s, t, h, m);
        h, m := NextHolder(s, t, h), NextNotifier(s, t, m);
      }
    }
  }

  /** The increment that takes the count to 2^32 - 1 sets the flag to 0 under the holder's feet. */
  lemma WrapIsUnsafe(s: State, t: nat, h: Option<nat>, m: Option<nat>)
    requires Inv(s, h, m) && NoWrap(s) && !NoWrap(Move(s, t))
    ensures !FlagTellsHolder(Move(s, t))
  {
    assert Move(s, t).flag == 0 && Holds(Move(s, t).pcs[h.value]);
  }

  /**
   Mutual exclusion, a flag that is 0 exactly when nobody holds the lock, and no lost wakeup: a run
   has them throughout exactly if no holder is ever joined by 2^32 - 1 queueing attempts.
   */
  lemma {:induction false} SafeExactlyWithoutWrap(n: nat, schedule: seq<nat>)
    ensures AlwaysSafe(n, schedule) <==> NeverWraps(n, schedule)
  {
    if schedule == [] {
      InvIsSafe(Init(n), None, None);
    } else {
      var k := |schedule| - 1;
      SafeExactlyWithoutWrap(n, schedule[..k]);
      if NeverWraps(n, schedule) {
        var h, m := RunKeepsInv(n, schedule);
        InvIsSafe(After(n, schedule), h, m);
      } else if NeverWraps(n, schedule[..k]) {
        var h, m := RunKeepsInv(n, schedule[..k]);
        WrapIsUnsafe(After(n, schedule[..k]), schedule[k], h, m);
      }
    }
  }

  /** Waiting in lock() is never hopeless: someone can take a step that is no spurious wakeup, or holds the lock. */
  lemma NoDeadlock(n: nat, schedule: seq<nat>, t: nat)
    requires NeverWraps(n, schedule) && t < n
    requires After(n, schedule).pcs[t] !in {Idle, Holding}
    ensures exists u :: 0 <= u < n && After(n, schedule).pcs[u] !in {Idle, Sleeping}
                        && (After(n, schedule).pcs[u] == Holding || Enabled(After(n, schedule), u))
  {
    var s := After(n, schedule);
    var h, m := RunKeepsInv(n, schedule);
    var u := if s.owner.Some? then s.owner.value
             else if s.pcs[t] != Sleeping then t
             else if s.flag >= 2 then h.value else m.value;
    assert s.pcs[u] !in {Idle, Sleeping} && (s.pcs[u] == Holding || Enabled(s, u));
  }

  // The count can be reached: one thread holds the lock while another is woken spuriously.

  function Repeat(s: State, t: nat, k: nat): State {
    if k == 0 then s else Move(Repeat(s, t, k - 1), t)
  }

  function Times(t: nat, k: nat): seq<nat> {
    seq(k, _ => t)
  }

  lemma {:induction false} AfterTimes(n: nat, schedule: seq<nat>, t: nat, k: nat)
    ensures After(n, schedule + Times(t, k)) == Repeat(After(n, schedule), t, k)
  {
    if k == 0 {
      assert schedule + Times(t, 0) == schedule;
    } else {
      AfterTimes(n, schedule, t, k - 1);
      hide Move, Init;
      var front := schedule + Times(t, k - 1);
      assert schedule + Times(t, k) == front + [t];
      assert (front + [t])[..|front|] == front;
    }
  }

  function Spin(c: nat): seq<nat> {
    if c == 0 then Times(0, 2) + Times(1, 1) else Spin(c - 1) + Times(1, 7)
  }

  /** A failed attempt, a spurious wakeup, and the thread is back at the loop test. */
  lemma OneRound(f: nat, c: nat, k: nat)
    requires 0 < f < M && k == 7
    ensures Repeat(State(f, None, [Holding, TryLock], c), 1, k) == State((f + 1) % M, None, [Holding, TryLock], c + 1)
  {
    var s := State(f, None, [Holding, TryLock], c);
    assert Repeat(s, 1, 1) == State(f, None, [Holding, LockM], c);
    assert Repeat(s, 1, 2) == State(f, Some(1), [Holding, Increment], c);
    assert Repeat(s, 1, 3) == State((f + 1) % M, Some(1), [Holding, Wait], c + 1);
    assert Repeat(s, 1, 4) == State((f + 1) % M, None, [Holding, Sleeping], c + 1);
    assert Repeat(s, 1, 5) == State((f + 1) % M, None, [Holding, Woken], c + 1);
    assert Repeat(s, 1, 6) == State((f + 1) % M, Some(1), [Holding, LeaveWait], c + 1);
  }

  lemma SpinStarts()
    ensures After(2, Spin(0)) == State(1, None, [Holding, TryLock], 0)
  {
    assert [] + Times(0, 2) == Times(0, 2);
    AfterTimes(2, [], 0, 2);
    assert Init(2).pcs == [Idle, Idle];
    assert Repeat(Init(2), 0, 1) == State(0, None, [TryLock, Idle], 0);
    assert Repeat(Init(2), 0, 2) == State(1, None, [Holding, Idle], 0);
    AfterTimes(2, Times(0, 2), 1, 1);
    assert Repeat(State(1, None, [Holding, Idle], 0), 1, 1) == State(1, None, [Holding, TryLock], 0);
  }

  lemma SpinTurns(before: seq<nat>, c: nat, k: nat)
    requires 0 < c < M && k == 7
    requires After(2, before) == State(c, None, [Holding, TryLock], c - 1)
    ensures After(2, before + Times(1, k)) == State((c + 1) % M, None, [Holding, TryLock], c)
  {
    AfterTimes(2, before, 1, k);
    OneRound(c, c - 1, k);
  }

  lemma {:induction false} SpinCounts(c: nat)
    requires c < M
    ensures After(2, Spin(c)) == State((1 + c) % M, None, [Holding, TryLock], c)
  {
    if c == 0 {
      SpinStarts();
    } else {
      SpinCounts(c - 1);
      SpinTurns(Spin(c - 1), c, 7);
    }
  }

  lemma WrapLetsTwoThreadsIn()
    ensures !MutualExclusion(After(2, Spin(M - 1) + Times(1, 1)))
  {
    SpinCounts(M - 1);
    AfterTimes(2, Spin(M - 1), 1, 1);
    var s := Repeat(State(0, None, [Holding, TryLock], M - 1), 1, 1);
    assert Holds(s.pcs[0]) && Holds(s.pcs[1]);
  }
}
