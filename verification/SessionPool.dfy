/** The bounded session pool. `State` and `Step` are the protocol: one step per
    region between two lock operations, in any interleaving of any number of
    threads. The class `SessionPool` is the pool object; each of its methods is
    one lock region and is proved to perform exactly one protocol step. */
module SessionPools {
  import opened Common

  type Thread = nat
  type Session = nat

  /** Where a thread is, seen from the pool. */
  datatype Phase =
    | Away
    | Arrived    // not cancelled when checked; about to lock for the first time
    | Blocked    // inside Condvar::wait
    | Woken      // returned from wait, cancellation not yet rechecked
    | Rechecked  // woken and found not cancelled; about to lock again
    | Creating   // reserved a slot in acquire, creating its session
    | Warming    // reserved a slot in prewarm, creating its session
    | Leasing    // holds a session

  datatype State = State(
    idle: seq<Session>,
    total: nat,
    max: nat,
    phase: map<Thread, Phase>,
    held: map<Thread, Session>,
    cancelled: set<Thread>,
    owedWakes: nat,  // cancellations that still have to call notify_all
    minted: nat)     // sessions created so far are 0..minted
  {
    function At(t: Thread): Phase {
      if t in phase then phase[t] else Away
    }

    function In(p: Phase): set<Thread> {
      set t | t in phase && phase[t] == p
    }

    function Count(p: Phase): nat {
      |In(p)|
    }

    function Move(t: Thread, p: Phase): State {
      this.(phase := phase[t := p])
    }

    /** Threads that were woken and have not looked at the pool since. */
    function Pending(): nat {
      Count(Woken) + Count(Rechecked)
    }

    /** Sessions or slots a thread could take right now. */
    function Available(): int {
      |idle| + (max - total)
    }
  }

  datatype Step =
    | Arrive(t: Thread)
    | Recheck(t: Thread)
    | Lock(t: Thread)
    | Created(t: Thread)
    | CreateFailed(t: Thread, wake: Option<Thread>)
    | Return(t: Thread, wake: Option<Thread>)
    | Reserve(t: Thread)
    | Warmed(t: Thread, wake: Option<Thread>)
    | WarmFailed(t: Thread, wake: Option<Thread>)
    | SpuriousWake(t: Thread)
    | Cancel(t: Thread, notifies: bool)
    | WakeAll

  function Initial(maxSessions: nat): State {
    State([0], 1, Max(1, maxSessions), map[], map[], {}, 0, 1)
  }

  /** notify_one wakes some blocked thread, if there is one. */
  predicate Notifies(s: State, wake: Option<Thread>) {
    match wake
    case None => s.In(Blocked) == {}
    case Some(w) => s.At(w) == Blocked
  }

  function Notify(s: State, wake: Option<Thread>): State {
    match wake
    case None => s
    case Some(w) => s.Move(w, Woken)
  }

  /** From before its first lock until it has a session, what a request has
      attached to be stopped with is this pool. */
  predicate WaitsHere(p: Phase) {
    p == Arrived || p == Blocked || p == Woken || p == Rechecked || p == Creating
  }

  /** A cancellation notifies the pool only if the pool is attached: not a request
      that has nothing attached yet, nor one that is running its graph. */
  predicate Enabled(s: State, step: Step) {
    match step
    case Arrive(t) => s.At(t) == Away
    case Recheck(t) => s.At(t) == Woken
    case Lock(t) => s.At(t) == Arrived || s.At(t) == Rechecked
    case Created(t) => s.At(t) == Creating
    case CreateFailed(t, wake) => s.At(t) == Creating && Notifies(s, wake)
    case Return(t, wake) => s.At(t) == Leasing && t in s.held && Notifies(s, wake)
    case Reserve(t) => s.At(t) == Away
    case Warmed(t, wake) => s.At(t) == Warming && Notifies(s, wake)
    case WarmFailed(t, wake) => s.At(t) == Warming && Notifies(s, wake)
    case SpuriousWake(t) => s.At(t) == Blocked
    case Cancel(t, notifies) => WaitsHere(s.At(t)) ==> notifies
    case WakeAll => s.owedWakes > 0
  }

  function Next(s: State, step: Step): State
    requires Enabled(s, step)
  {
    match step
    case Arrive(t) =>
      if t in s.cancelled then s else s.Move(t, Arrived)
    case Recheck(t) =>
      if t in s.cancelled then s.Move(t, Away) else s.Move(t, Rechecked)
    case Lock(t) =>
      if s.idle != [] then
        s.Move(t, Leasing).(idle := s.idle[..|s.idle| - 1], held := s.held[t := s.idle[|s.idle| - 1]])
      else if s.total < s.max then
        s.Move(t, Creating).(total := s.total + 1)
      else
        s.Move(t, Blocked)
    case Created(t) =>
      s.Move(t, Leasing).(held := s.held[t := s.minted], minted := s.minted + 1)
    case CreateFailed(t, wake) =>
      Notify(Release(s.Move(t, Away)), wake)
    case Return(t, wake) =>
      Notify(s.Move(t, Away).(idle := s.idle + [s.held[t]], held := s.held - {t}), wake)
    case Reserve(t) =>
      if s.total >= s.max then s else s.Move(t, Warming).(total := s.total + 1)
    case Warmed(t, wake) =>
      Notify(s.Move(t, Away).(idle := s.idle + [s.minted], minted := s.minted + 1), wake)
    case WarmFailed(t, wake) =>
      Notify(Release(s.Move(t, Away)), wake)
    case SpuriousWake(t) =>
      s.Move(t, Woken)
    case Cancel(t, notifies) =>
      s.(cancelled := s.cancelled + {t}, owedWakes := s.owedWakes + (if notifies then 1 else 0))
    case WakeAll =>
      s.(phase := map t | t in s.phase :: if s.phase[t] == Blocked then Woken else s.phase[t],
         owedWakes := s.owedWakes - 1)
  }

  /** Saturating, as in the source. */
  function Release(s: State): State {
    s.(total := if s.total == 0 then 0 else s.total - 1)
  }

  // ----- counting threads by phase -----------------------------------------

  lemma MoveIn(s: State, t: Thread, p: Phase, q: Phase)
    requires q != Away
    ensures s.Move(t, p).In(q) == if q == p then s.In(q) + {t} else s.In(q) - {t}
  {
  }

  lemma MoveCount(s: State, t: Thread, p: Phase, q: Phase)
    requires s.At(t) != p && q != Away
    ensures s.Move(t, p).Count(q) == s.Count(q) - (if q == s.At(t) then 1 else 0) + (if q == p then 1 else 0)
  {
    MoveIn(s, t, p, q);
    assert t in s.In(q) <==> q == s.At(t);
    hide State.In, State.Move, State.At;
    var before := s.In(q);
    assert t !in before ==> before - {t} == before;
  }

  lemma MoveCounts(s: State, t: Thread, p: Phase)
    requires s.At(t) != p
    ensures forall q | q != Away ::
      s.Move(t, p).Count(q) == s.Count(q) - (if q == s.At(t) then 1 else 0) + (if q == p then 1 else 0)
  {
    hide State.In, State.At;
    forall q | q != Away
      ensures s.Move(t, p).Count(q) == s.Count(q) - (if q == s.At(t) then 1 else 0) + (if q == p then 1 else 0)
    {
      MoveCount(s, t, p, q);
    }
  }

  lemma NotifyCounts(s: State, wake: Option<Thread>)
    requires Notifies(s, wake)
    ensures forall q | q != Woken && q != Blocked && q != Away :: Notify(s, wake).Count(q) == s.Count(q)
    ensures Notify(s, wake).Count(Woken) == s.Count(Woken) + (if wake.Some? then 1 else 0)
  {
    if wake.Some? {
      MoveCounts(s, wake.value, Woken);
    }
  }

  lemma WakeAllCounts(s: State)
    requires s.owedWakes > 0
    ensures Next(s, WakeAll).In(Blocked) == {}
    ensures forall q | q != Woken && q != Blocked :: Next(s, WakeAll).Count(q) == s.Count(q)
  {
    assert forall q | q != Woken && q != Blocked :: Next(s, WakeAll).In(q) == s.In(q);
  }

  // ----- ownership and capacity --------------------------------------------

  /** No session is in two places. */
  ghost predicate Sessions(idle: seq<Session>, held: map<Thread, Session>, minted: nat) {
    && (forall i | 0 <= i < |idle| :: idle[i] < minted)
    && (forall i, j | 0 <= i < j < |idle| :: idle[i] != idle[j])
    && (forall t | t in held :: held[t] < minted && held[t] !in idle)
    && (forall t, u | t in held && u in held && t != u :: held[t] != held[u])
  }

  ghost predicate Owned(s: State) {
    && Sessions(s.idle, s.held, s.minted)
    && s.held.Keys == s.In(Leasing)
  }

  ghost predicate Capacity(s: State) {
    s.total == |s.idle| + s.Count(Leasing) + s.Count(Creating) + s.Count(Warming) <= s.max && 1 <= s.max
  }

  ghost predicate Inv(s: State) {
    Owned(s) && Capacity(s)
  }

  /** If some thread is blocked, every available session or slot has a woken
      thread on its way to it. */
  ghost predicate NoStranded(s: State) {
    s.In(Blocked) != {} ==> s.Available() <= s.Pending()
  }

  lemma TakeSession(idle: seq<Session>, held: map<Thread, Session>, minted: nat, t: Thread)
    requires Sessions(idle, held, minted) && idle != [] && t !in held
    ensures Sessions(idle[..|idle| - 1], held[t := idle[|idle| - 1]], minted)
  {
    var rest, last := idle[..|idle| - 1], idle[|idle| - 1];
    assert forall x | x in rest :: x in idle && x != last;
  }

  lemma PutSession(idle: seq<Session>, held: map<Thread, Session>, minted: nat, t: Thread)
    requires Sessions(idle, held, minted) && t in held
    ensures Sessions(idle + [held[t]], held - {t}, minted)
  {
    assert forall x | x in idle + [held[t]] :: x in idle || x == held[t];
  }

  lemma MintSession(idle: seq<Session>, held: map<Thread, Session>, minted: nat, t: Thread)
    requires Sessions(idle, held, minted) && t !in held
    ensures Sessions(idle, held[t := minted], minted + 1)
    ensures Sessions(idle + [minted], held, minted + 1)
  {
    assert forall x | x in idle + [minted] :: x in idle || x == minted;
  }

  lemma StepKeepsSessions(s: State, step: Step)
    requires Owned(s) && Enabled(s, step)
    ensures var n := Next(s, step); Sessions(n.idle, n.held, n.minted)
  {
    hide Sessions, State.At;
    match step
    case Lock(t) =>
      NotLeasing(s, t);
      if s.idle != [] { TakeSession(s.idle, s.held, s.minted, t); }
    case Created(t) =>
      NotLeasing(s, t);
      MintSession(s.idle, s.held, s.minted, t);
    case Return(t, wake) => PutSession(s.idle, s.held, s.minted, t);
    case Warmed(t, wake) =>
      NotLeasing(s, t);
      MintSession(s.idle, s.held, s.minted, t);
    case _ =>
  }

  lemma NotLeasing(s: State, t: Thread)
    requires s.held.Keys == s.In(Leasing) && s.At(t) != Leasing
    ensures t !in s.held
  {
    assert t !in s.In(Leasing);
  }

  lemma StepKeepsHolders(s: State, step: Step)
    requires s.held.Keys == s.In(Leasing) && Enabled(s, step)
    ensures var n := Next(s, step); n.held.Keys == n.In(Leasing)
  {
    var n := Next(s, step);
    match step
    case WakeAll => assert n.In(Leasing) == s.In(Leasing);
    case _ =>
  }

  lemma StepKeepsOwnership(s: State, step: Step)
    requires Owned(s) && Enabled(s, step)
    ensures Owned(Next(s, step))
  {
    StepKeepsSessions(s, step);
    StepKeepsHolders(s, step);
  }

  /** A step moves its own thread, then perhaps a notified one. */
  lemma StepCounts(s: State, step: Step)
    requires Capacity(s) && Enabled(s, step)
    ensures Capacity(Next(s, step))
    ensures !DropsWakeup(s, step) && NoStranded(s) ==> NoStranded(Next(s, step))
  {
    hide State.In, Notify;
    match step
    case Arrive(t) =>
      if t !in s.cancelled { Moved(s, t, Arrived, Next(s, step)); }
    case Recheck(t) => RecheckCounts(s, t);
    case Lock(t) => LockCounts(s, t);
    case Created(t) => Moved(s, t, Leasing, Next(s, step));
    case CreateFailed(t, wake) => GiveBackCounts(s, t, wake, step);
    case Return(t, wake) => GiveBackCounts(s, t, wake, step);
    case Reserve(t) =>
      if s.total < s.max { Moved(s, t, Warming, Next(s, step)); }
    case Warmed(t, wake) => GiveBackCounts(s, t, wake, step);
    case WarmFailed(t, wake) => GiveBackCounts(s, t, wake, step);
    case SpuriousWake(t) => Moved(s, t, Woken, Next(s, step));
    case Cancel(t, notifies) => CancelCounts(s, t, notifies);
    case WakeAll => WakeAllCounts(s);
  }

  lemma CancelCounts(s: State, t: Thread, notifies: bool)
    requires Enabled(s, Cancel(t, notifies))
    ensures forall q :: Next(s, Cancel(t, notifies)).In(q) == s.In(q)
  {
  }

  lemma RecheckCounts(s: State, t: Thread)
    requires Capacity(s) && Enabled(s, Recheck(t))
    ensures Capacity(Next(s, Recheck(t)))
    ensures t !in s.cancelled && NoStranded(s) ==> NoStranded(Next(s, Recheck(t)))
  {
    var n := Next(s, Recheck(t));
    Moved(s, t, n.At(t), n);
  }

  /** Every step that makes a session or slot available also notifies. */
  lemma GiveBackCounts(s: State, t: Thread, wake: Option<Thread>, step: Step)
    requires Capacity(s) && Enabled(s, step)
    requires step in {CreateFailed(t, wake), Return(t, wake), Warmed(t, wake), WarmFailed(t, wake)}
    ensures Capacity(Next(s, step))
    ensures NoStranded(s) ==> NoStranded(Next(s, step))
  {
    assert t in s.In(s.At(t));
    hide State.In;
    LeaveAndNotify(s, t, wake, Next(s, step));
  }

  lemma LockCounts(s: State, t: Thread)
    requires Capacity(s) && Enabled(s, Lock(t))
    ensures Capacity(Next(s, Lock(t)))
    ensures NoStranded(s) ==> NoStranded(Next(s, Lock(t)))
  {
    var n := Next(s, Lock(t));
    Moved(s, t, n.At(t), n);
  }

  lemma Moved(s: State, t: Thread, p: Phase, n: State)
    requires s.At(t) != p && n.phase == s.phase[t := p]
    ensures forall q | q != Away ::
        n.Count(q) == s.Count(q) - (if q == s.At(t) then 1 else 0) + (if q == p then 1 else 0)
    ensures p != Blocked && s.In(Blocked) == {} ==> n.In(Blocked) == {}
  {
    MoveCounts(s, t, p);
    assert forall q :: s.Move(t, p).In(q) == n.In(q);
  }

  lemma LeaveAndNotify(s: State, t: Thread, wake: Option<Thread>, n: State)
    requires s.At(t) in {Creating, Warming, Leasing} && Notifies(s, wake)
    requires n.phase == Notify(s.Move(t, Away), wake).phase
    ensures forall q | q != Woken && q != Blocked && q != Away ::
        n.Count(q) == s.Count(q) - (if q == s.At(t) then 1 else 0)
    ensures n.Count(Woken) == s.Count(Woken) + (if wake.Some? then 1 else 0)
    ensures wake.None? ==> n.In(Blocked) == {}
  {
    var left := s.Move(t, Away);
    MoveCounts(s, t, Away);
    assert left.In(Blocked) == s.In(Blocked);
    NotifyCounts(left, wake);
    assert forall q :: Notify(left, wake).In(q) == n.In(q);
    assert n.In(Blocked) == Notify(left, wake).In(Blocked);
  }

  /** A woken thread that finds itself cancelled leaves without passing its
      wakeup on. */
  predicate DropsWakeup(s: State, step: Step) {
    step.Recheck? && step.t in s.cancelled
  }

  /** Somebody is blocked beside a session or slot that nobody is coming for, and
      no cancellation still has to notify everybody. */
  ghost predicate Stranded(s: State) {
    s.owedWakes == 0 && s.In(Blocked) != {} && s.Available() > s.Pending()
  }

  /** A cancelled thread drops a wakeup that was counted on: every available
      session or slot had a woken thread coming for it, and no notification is
      owed that would wake the others. */
  ghost predicate Strands(s: State, step: Step) {
    DropsWakeup(s, step) && s.owedWakes == 0 && s.In(Blocked) != {} && s.Available() == s.Pending()
  }

  lemma DropUncovers(s: State, step: Step)
    requires Inv(s) && NoStranded(s) && Enabled(s, step) && DropsWakeup(s, step)
    ensures !NoStranded(Next(s, step)) <==> s.In(Blocked) != {} && s.Available() == s.Pending()
  {
    MoveCounts(s, step.t, Away);
    assert s.Move(step.t, Away).In(Blocked) == s.In(Blocked);
  }

  /** Exactly when a step strands a waiter. */
  lemma DroppedWakeupStrandsIff(s: State, step: Step)
    requires Inv(s) && !Stranded(s) && Enabled(s, step)
    ensures Stranded(Next(s, step)) <==> Strands(s, step)
  {
    if step.WakeAll? {
      WakeAllCounts(s);
    } else if s.owedWakes == 0 {
      StepCounts(s, step);
      if DropsWakeup(s, step) {
        DropUncovers(s, step);
      }
    }
  }

  // ----- runs --------------------------------------------------------------

  predicate Legal(s: State, steps: seq<Step>)
    decreases |steps|
  {
    steps == [] || (Enabled(s, steps[0]) && Legal(Next(s, steps[0]), steps[1..]))
  }

  function After(s: State, steps: seq<Step>): State
    requires Legal(s, steps)
    decreases |steps|
  {
    if steps == [] then s else After(Next(s, steps[0]), steps[1..])
  }

  predicate NeverDropsWakeup(s: State, steps: seq<Step>)
    requires Legal(s, steps)
    decreases |steps|
  {
    steps == [] || (!DropsWakeup(s, steps[0]) && NeverDropsWakeup(Next(s, steps[0]), steps[1..]))
  }

  lemma {:induction false} RunKeepsInv(s: State, steps: seq<Step>)
    requires Inv(s) && Legal(s, steps)
    ensures Inv(After(s, steps)) && After(s, steps).max == s.max
    ensures NoStranded(s) && NeverDropsWakeup(s, steps) ==> NoStranded(After(s, steps))
    decreases |steps|
  {
    if steps != [] {
      StepKeepsOwnership(s, steps[0]);
      StepCounts(s, steps[0]);
      RunKeepsInv(Next(s, steps[0]), steps[1..]);
    }
  }

  lemma InitialInv(maxSessions: nat)
    ensures Inv(Initial(maxSessions)) && NoStranded(Initial(maxSessions))
  {
    assert forall p :: Initial(maxSessions).In(p) == {};
  }

  /** Capacity and ownership in every interleaving, cancellations included. */
  lemma PoolIsBounded(maxSessions: nat, steps: seq<Step>)
    requires Legal(Initial(maxSessions), steps)
    ensures var s := After(Initial(maxSessions), steps);
            && s.total == |s.idle| + s.Count(Leasing) + s.Count(Creating) + s.Count(Warming) <= Max(1, maxSessions)
            && Owned(s)
  {
    InitialInv(maxSessions);
    RunKeepsInv(Initial(maxSessions), steps);
  }

  /** In every interleaving in which no woken thread leaves cancelled, a blocked
      thread with nobody on the way means that every slot is leased or in
      creation, so somebody will still release one. */
  lemma NobodyIsStranded(maxSessions: nat, steps: seq<Step>)
    requires Legal(Initial(maxSessions), steps) && NeverDropsWakeup(Initial(maxSessions), steps)
    ensures var s := After(Initial(maxSessions), steps);
            && NoStranded(s)
            && (s.In(Blocked) != {} && s.Pending() == 0 ==>
                  s.idle == [] && s.Count(Leasing) + s.Count(Creating) + s.Count(Warming) == s.max >= 1)
  {
    InitialInv(maxSessions);
    RunKeepsInv(Initial(maxSessions), steps);
  }

  /** Some state of the run has a stranded waiter. */
  ghost predicate EverStranded(s: State, steps: seq<Step>)
    requires Legal(s, steps)
    decreases |steps|
  {
    Stranded(s) || (steps != [] && EverStranded(Next(s, steps[0]), steps[1..]))
  }

  ghost predicate EverStrands(s: State, steps: seq<Step>)
    requires Legal(s, steps)
    decreases |steps|
  {
    steps != [] && (Strands(s, steps[0]) || EverStrands(Next(s, steps[0]), steps[1..]))
  }

  /** Cancelled threads drop wakeups only while a notification is owed. */
  predicate DropsOnlyWhenOwed(s: State, steps: seq<Step>)
    requires Legal(s, steps)
    decreases |steps|
  {
    steps == [] ||
    ((DropsWakeup(s, steps[0]) ==> s.owedWakes > 0) && DropsOnlyWhenOwed(Next(s, steps[0]), steps[1..]))
  }

  lemma {:induction false} RunStrandsIff(s: State, steps: seq<Step>)
    requires Inv(s) && !Stranded(s) && Legal(s, steps)
    ensures EverStranded(s, steps) <==> EverStrands(s, steps)
    ensures DropsOnlyWhenOwed(s, steps) ==> !EverStrands(s, steps) && !Stranded(After(s, steps))
    decreases |steps|
  {
    hide Owned, Capacity, Stranded, Next, Enabled, DropsWakeup;
    if steps != [] {
      var n := Next(s, steps[0]);
      StepKeepsOwnership(s, steps[0]);
      StepCounts(s, steps[0]);
      DroppedWakeupStrandsIff(s, steps[0]);
      if !Stranded(n) {
        RunStrandsIff(n, steps[1..]);
      } else {
        assert EverStranded(n, steps[1..]);
      }
    }
  }

  /** Over every run of the pool a waiter is stranded exactly when some step
      strands one. So when cancelled threads drop wakeups only while a notification
      is owed, a blocked thread with nobody on the way and no notification owed
      means that every slot is leased or in creation. */
  lemma WaiterIsStrandedIff(maxSessions: nat, steps: seq<Step>)
    requires Legal(Initial(maxSessions), steps)
    ensures EverStranded(Initial(maxSessions), steps) <==> EverStrands(Initial(maxSessions), steps)
    ensures DropsOnlyWhenOwed(Initial(maxSessions), steps) ==>
        && !EverStranded(Initial(maxSessions), steps)
        && var s := After(Initial(maxSessions), steps);
           s.owedWakes == 0 && s.In(Blocked) != {} && s.Pending() == 0 ==>
             s.idle == [] && s.Count(Leasing) + s.Count(Creating) + s.Count(Warming) == s.max >= 1
  {
    InitialInv(maxSessions);
    RunKeepsInv(Initial(maxSessions), steps);
    RunStrandsIff(Initial(maxSessions), steps);
  }

  lemma {:induction false} Extend(s: State, steps: seq<Step>, step: Step)
    requires Legal(s, steps) && Enabled(After(s, steps), step)
    ensures Legal(s, steps + [step]) && After(s, steps + [step]) == Next(After(s, steps), step)
    decreases |steps|
  {
    var longer := steps + [step];
    if steps == [] {
      assert longer == [step] && longer[1..] == [];
    } else {
      assert longer[0] == steps[0] && longer[1..] == steps[1..] + [step];
      Extend(Next(s, steps[0]), steps[1..], step);
    }
  }

  /** Thread 1 leases the only session; thread 2 passes its cancellation check,
      is cancelled, and is notified before it waits. */
  ghost const LATE_CANCEL: seq<Step> :=
    [Arrive(1)] + [Lock(1)] + [Arrive(2)] + [Cancel(2, true)] + [WakeAll] + [Lock(2)]

  lemma LeaseAndArrive()
    ensures Legal(Initial(1), [Arrive(1)] + [Lock(1)] + [Arrive(2)])
    ensures After(Initial(1), [Arrive(1)] + [Lock(1)] + [Arrive(2)]) ==
            State([], 1, 1, map[1 := Leasing, 2 := Arrived], map[1 := 0], {}, 0, 1)
  {
    Extend(Initial(1), [], Arrive(1));
    assert [] + [Arrive(1)] == [Arrive(1)];
    Extend(Initial(1), [Arrive(1)], Lock(1));
    Extend(Initial(1), [Arrive(1)] + [Lock(1)], Arrive(2));
  }

  // ----- cancelled threads that sleep on -------------------------------------

  /** A cancelled thread is waiting and no cancellation still has to notify. */
  ghost predicate SleepsOn(s: State) {
    s.owedWakes == 0 && exists t | t in s.cancelled :: s.At(t) == Blocked
  }

  /** The thread was cancelled and notified between its cancellation check and
      taking the lock, and now finds neither a session nor a slot. */
  predicate WaitsTooLate(s: State, step: Step) {
    step.Lock? && step.t in s.cancelled && s.idle == [] && s.total >= s.max && s.owedWakes == 0
  }

  /** Exactly when a cancelled thread starts to sleep on. */
  lemma SleepsOnIff(s: State, step: Step)
    requires Enabled(s, step) && !SleepsOn(s)
    ensures SleepsOn(Next(s, step)) <==> WaitsTooLate(s, step)
  {
    var n := Next(s, step);
    if WaitsTooLate(s, step) {
      assert n.At(step.t) == Blocked;
    }
  }

  /** A request that is cancelled before its first check never takes the lock. */
  lemma {:induction false} CancelledBeforeArrivalNeverLocks(s: State, steps: seq<Step>, t: Thread)
    requires Legal(s, steps) && t in s.cancelled && (s.At(t) == Away || s.At(t) == Warming)
    ensures Lock(t) !in steps
    decreases |steps|
  {
    if steps != [] {
      assert steps == [steps[0]] + steps[1..];
      StaysAway(s, steps[0], t);
      CancelledBeforeArrivalNeverLocks(Next(s, steps[0]), steps[1..], t);
    }
  }

  lemma StaysAway(s: State, step: Step, t: Thread)
    requires Enabled(s, step) && t in s.cancelled && (s.At(t) == Away || s.At(t) == Warming)
    ensures step != Lock(t)
    ensures var n := Next(s, step); t in n.cancelled && (n.At(t) == Away || n.At(t) == Warming)
  {
  }

  /** Some state of the run has a cancelled thread sleeping on. */
  ghost predicate EverSleepsOn(s: State, steps: seq<Step>)
    requires Legal(s, steps)
    decreases |steps|
  {
    SleepsOn(s) || (steps != [] && EverSleepsOn(Next(s, steps[0]), steps[1..]))
  }

  predicate EverWaitsTooLate(s: State, steps: seq<Step>)
    requires Legal(s, steps)
    decreases |steps|
  {
    steps != [] && (WaitsTooLate(s, steps[0]) || EverWaitsTooLate(Next(s, steps[0]), steps[1..]))
  }

  /** No thread takes the lock of `acquire` after being cancelled. */
  predicate NoLateLock(s: State, steps: seq<Step>)
    requires Legal(s, steps)
    decreases |steps|
  {
    steps == [] || (!(steps[0].Lock? && steps[0].t in s.cancelled) && NoLateLock(Next(s, steps[0]), steps[1..]))
  }

  lemma {:induction false} RunSleepsOnIff(s: State, steps: seq<Step>)
    requires Legal(s, steps) && !SleepsOn(s)
    ensures EverSleepsOn(s, steps) <==> EverWaitsTooLate(s, steps)
    ensures NoLateLock(s, steps) ==> !EverWaitsTooLate(s, steps)
    decreases |steps|
  {
    hide SleepsOn, Next, Enabled;
    if steps != [] {
      SleepsOnIff(s, steps[0]);
      var n := Next(s, steps[0]);
      if !SleepsOn(n) {
        RunSleepsOnIff(n, steps[1..]);
      } else {
        assert EverSleepsOn(n, steps[1..]);
      }
    }
  }

  /** In a run of the pool a cancelled thread sleeps on exactly when some thread
      waits too late; so never when no thread locks after being cancelled. */
  lemma CancelledWaiterSleepsOnIff(maxSessions: nat, steps: seq<Step>)
    requires Legal(Initial(maxSessions), steps)
    ensures EverSleepsOn(Initial(maxSessions), steps) <==> EverWaitsTooLate(Initial(maxSessions), steps)
    ensures NoLateLock(Initial(maxSessions), steps) ==> !EverSleepsOn(Initial(maxSessions), steps)
  {
    assert !SleepsOn(Initial(maxSessions));
    RunSleepsOnIff(Initial(maxSessions), steps);
  }

  /** It does happen: waking under the lock does not close the window between the
      cancellation check and the wait, as the check precedes the lock. */
  lemma CancelledWaiterMaySleepOn()
    ensures Legal(Initial(1), LATE_CANCEL)
    ensures After(Initial(1), LATE_CANCEL) ==
            State([], 1, 1, map[1 := Leasing, 2 := Blocked], map[1 := 0], {2}, 0, 1)
    ensures SleepsOn(After(Initial(1), LATE_CANCEL))
  {
    hide Legal, After;
    LeaseAndArrive();
    var start := [Arrive(1)] + [Lock(1)] + [Arrive(2)];
    Extend(Initial(1), start, Cancel(2, true));
    Extend(Initial(1), start + [Cancel(2, true)], WakeAll);
    Extend(Initial(1), start + [Cancel(2, true)] + [WakeAll], Lock(2));
    assert After(Initial(1), LATE_CANCEL).At(2) == Blocked;
  }

  /** Thread 1 is cancelled while it runs its graph, which notifies nobody. */
  ghost const SILENT_CANCEL: seq<Step> :=
    [Arrive(1)] + [Lock(1)] + [Arrive(2)] + [Cancel(1, false)] + [Cancel(2, true)] + [WakeAll] + [Lock(2)]

  /** So thread 2 sleeps on although another cancellation came meanwhile. */
  lemma SilentCancelWakesNobody()
    ensures Legal(Initial(1), SILENT_CANCEL)
    ensures After(Initial(1), SILENT_CANCEL) ==
            State([], 1, 1, map[1 := Leasing, 2 := Blocked], map[1 := 0], {1, 2}, 0, 1)
    ensures SleepsOn(After(Initial(1), SILENT_CANCEL))
  {
    hide Legal, After;
    LeaseAndArrive();
    var start := [Arrive(1)] + [Lock(1)] + [Arrive(2)];
    Extend(Initial(1), start, Cancel(1, false));
    Extend(Initial(1), start + [Cancel(1, false)], Cancel(2, true));
    Extend(Initial(1), start + [Cancel(1, false)] + [Cancel(2, true)], WakeAll);
    Extend(Initial(1), start + [Cancel(1, false)] + [Cancel(2, true)] + [WakeAll], Lock(2));
    assert After(Initial(1), SILENT_CANCEL).At(2) == Blocked;
  }

  /** After `LATE_CANCEL`, thread 3 blocks too, thread 1 returns its session and wakes thread 2,
      which leaves cancelled. */
  ghost const DROPPED_WAKEUP: seq<Step> :=
    LATE_CANCEL + [Arrive(3)] + [Lock(3)] + [Return(1, Some(2))] + [Recheck(2)]

  /** The hypothesis of `NobodyIsStranded` is needed: here an uncancelled thread
      stays blocked beside an idle session, with no wakeup under way. */
  lemma DroppedWakeupMayStrand()
    ensures Legal(Initial(1), DROPPED_WAKEUP)
    ensures After(Initial(1), DROPPED_WAKEUP) ==
            State([0], 1, 1, map[1 := Away, 2 := Away, 3 := Blocked], map[], {2}, 0, 1)
    ensures Stranded(After(Initial(1), DROPPED_WAKEUP))
  {
    hide Legal, After;
    CancelledWaiterMaySleepOn();
    Extend(Initial(1), LATE_CANCEL, Arrive(3));
    Extend(Initial(1), LATE_CANCEL + [Arrive(3)], Lock(3));
    Extend(Initial(1), LATE_CANCEL + [Arrive(3)] + [Lock(3)], Return(1, Some(2)));
    Extend(Initial(1), LATE_CANCEL + [Arrive(3)] + [Lock(3)] + [Return(1, Some(2))], Recheck(2));
    StrandedState();
  }

  lemma StrandedState()
    ensures Stranded(State([0], 1, 1, map[1 := Away, 2 := Away, 3 := Blocked], map[], {2}, 0, 1))
  {
    var s := State([0], 1, 1, map[1 := Away, 2 := Away, 3 := Blocked], map[], {2}, 0, 1);
    assert 3 in s.In(Blocked) && s.In(Woken) == {} && s.In(Rechecked) == {};
  }

  // ----- the pool object ---------------------------------------------------

  datatype Outcome = Leased(session: Session) | MayCreate | MustWait

  class SessionPool {
    var idle: seq<Session>
    var total: nat
    const maxSessions: nat
    ghost var state: State

    ghost predicate Valid()
      reads this
    {
      && Inv(state)
      && state.idle == idle && state.total == total && state.max == maxSessions
    }

    constructor (max: nat)
      ensures Valid() && state == Initial(max)
    {
      idle := [0];
      total := 1;
      maxSessions := Max(1, max);
      state := Initial(max);
    }

    /** A step outside the lock. */
    ghost method Elsewhere(step: Step)
      requires Valid() && Enabled(state, step)
      requires step.Arrive? || step.Recheck? || step.Created? || step.SpuriousWake? || step.Cancel? || step.WakeAll?
      modifies this`state
      ensures Valid() && state == Next(old(state), step)
    {
      StepKeepsOwnership(state, step);
      StepCounts(state, step);
      state := Next(state, step);
    }

    /** The lock region of `acquire`. The most recently returned session goes out
        first. */
    method TryAcquire(ghost t: Thread) returns (outcome: Outcome)
      requires Valid() && Enabled(state, Lock(t))
      modifies this
      ensures Valid() && state == Next(old(state), Lock(t))
      ensures match outcome
              case Leased(session) => old(idle) == idle + [session] && total == old(total) && state.held[t] == session
              case MayCreate => old(idle) == idle == [] && total == old(total) + 1 <= maxSessions && state.At(t) == Creating
              case MustWait => old(idle) == idle == [] && total == old(total) == maxSessions && state.At(t) == Blocked
    {
      StepKeepsOwnership(state, Lock(t));
      StepCounts(state, Lock(t));
      state := Next(state, Lock(t));
      if idle != [] {
        outcome := Leased(idle[|idle| - 1]);
        idle := idle[..|idle| - 1];
      } else if total < maxSessions {
        total := total + 1;
        outcome := MayCreate;
      } else {
        outcome := MustWait;
      }
    }

    method ReserveSlot(ghost t: Thread) returns (reserved: bool)
      requires Valid() && Enabled(state, Reserve(t))
      modifies this
      ensures Valid() && state == Next(old(state), Reserve(t))
      ensures idle == old(idle) && reserved == (old(total) < maxSessions)
      ensures total == if reserved then old(total) + 1 else old(total)
    {
      StepKeepsOwnership(state, Reserve(t));
      StepCounts(state, Reserve(t));
      state := Next(state, Reserve(t));
      if total >= maxSessions {
        return false;
      }
      total := total + 1;
      return true;
    }

    method AddReservedSession(session: Session, ghost t: Thread, ghost wake: Option<Thread>)
      requires Valid() && Enabled(state, Warmed(t, wake)) && session == state.minted
      modifies this
      ensures Valid() && state == Next(old(state), Warmed(t, wake))
      ensures idle == old(idle) + [session] && total == old(total)
    {
      StepKeepsOwnership(state, Warmed(t, wake));
      StepCounts(state, Warmed(t, wake));
      state := Next(state, Warmed(t, wake));
      idle := idle + [session];
    }

    /** The saturating decrement never saturates: the releasing thread still
        counts in `total`. */
    method ReleaseReservedSlot(ghost step: Step)
      requires Valid() && Enabled(state, step) && (step.CreateFailed? || step.WarmFailed?)
      modifies this
      ensures Valid() && state == Next(old(state), step)
      ensures idle == old(idle) && total == old(total) - 1
    {
      StepKeepsOwnership(state, step);
      StepCounts(state, step);
      assert state.At(step.t) == Creating || state.At(step.t) == Warming;
      assert step.t in state.In(state.At(step.t));
      state := Next(state, step);
      total := if total == 0 then 0 else total - 1;
    }

    /** Dropping the lease. */
    method ReturnSession(session: Session, ghost t: Thread, ghost wake: Option<Thread>)
      requires Valid() && Enabled(state, Return(t, wake)) && state.held[t] == session
      modifies this
      ensures Valid() && state == Next(old(state), Return(t, wake))
      ensures idle == old(idle) + [session] && total == old(total)
    {
      StepKeepsOwnership(state, Return(t, wake));
      StepCounts(state, Return(t, wake));
      state := Next(state, Return(t, wake));
      idle := idle + [session];
    }
  }
}
