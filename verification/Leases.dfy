/** The scheduler connector's capacity leases under concurrent callbacks. A step
    is a lock region or the return of one control call; every callback and the
    shutdown are threads of their own. */
module Leases {
  import opened Common

  type RequestId = nat
  type Lease = nat
  type Thread = nat

  /** What a running callback still has to do, and the leases in its hand. */
  datatype Hand =
    | Reserving(request: RequestId)
    | Storing(request: RequestId, lease: Lease)
    | Committing(lease: Lease)
    | Releasing(lease: Lease)
    | ShuttingDown(leases: seq<Lease>)
    | Aborted(lost: seq<Lease>)  // shutdown left early by an unexpected exception
  {
    function Holds(): seq<Lease> {
      match this
      case Reserving(_) => []
      case Storing(_, l) => [l]
      case Committing(l) => [l]
      case Releasing(l) => [l]
      case ShuttingDown(ls) => ls
      case Aborted(ls) => ls
    }
  }

  datatype State = State(
    leases: map<RequestId, Lease>,
    hands: map<Thread, Hand>,
    received: set<Lease>,       // leases reserve has returned
    released: multiset<Lease>)  // release calls made

  datatype Step =
    | OnNewRequest(t: Thread, request: RequestId)
    | ReserveReturns(t: Thread, lease: Option<Lease>)
    | Store(t: Thread)
    | RequestFinished(t: Thread, request: RequestId)
    | CommitReturns(t: Thread, ok: bool)
    | Release(t: Thread)
    | Shutdown(t: Thread, order: seq<Lease>)
    | ShutdownReleases(t: Thread, unexpected: bool)
    | ShutdownReturns(t: Thread)

  const EMPTY := State(map[], map[], {}, multiset{})

  predicate Distinct(ls: seq<Lease>) {
    forall i, j | 0 <= i < j < |ls| :: ls[i] != ls[j]
  }

  /** Reserve issues fresh leases; shutdown lists the stored ones in some order. */
  ghost predicate Enabled(s: State, step: Step) {
    match step
    case OnNewRequest(t, _) => t !in s.hands
    case ReserveReturns(t, lease) =>
      t in s.hands && s.hands[t].Reserving? && (lease.Some? ==> lease.value !in s.received)
    case Store(t) => t in s.hands && s.hands[t].Storing?
    case RequestFinished(t, _) => t !in s.hands
    case CommitReturns(t, _) => t in s.hands && s.hands[t].Committing?
    case Release(t) => t in s.hands && s.hands[t].Releasing?
    case Shutdown(t, order) =>
      t !in s.hands && Distinct(order) && forall l :: l in order <==> exists r :: r in s.leases && s.leases[r] == l
    case ShutdownReleases(t, _) => t in s.hands && s.hands[t].ShuttingDown? && s.hands[t].leases != []
    case ShutdownReturns(t) => t in s.hands && s.hands[t] == ShuttingDown([])
  }

  ghost function Next(s: State, step: Step): State
    requires Enabled(s, step)
  {
    match step
    case OnNewRequest(t, request) =>
      if request in s.leases then s else s.(hands := s.hands[t := Reserving(request)])
    case ReserveReturns(t, lease) =>
      if lease.None? then s.(hands := s.hands - {t})
      else s.(hands := s.hands[t := Storing(s.hands[t].request, lease.value)], received := s.received + {lease.value})
    case Store(t) =>
      var Storing(request, lease) := s.hands[t];
      if request in s.leases then s.(hands := s.hands[t := Releasing(lease)])
      else s.(leases := s.leases[request := lease], hands := s.hands - {t})
    case RequestFinished(t, request) =>
      if request !in s.leases then s
      else s.(leases := s.leases - {request}, hands := s.hands[t := Committing(s.leases[request])])
    case CommitReturns(t, _) =>
      s.(hands := s.hands[t := Releasing(s.hands[t].lease)])
    case Release(t) =>
      s.(hands := s.hands - {t}, released := s.released + multiset{s.hands[t].lease})
    case Shutdown(t, order) =>
      s.(leases := map[], hands := s.hands[t := ShuttingDown(order)])
    case ShutdownReleases(t, unexpected) =>
      var rest := s.hands[t].leases[1..];
      s.(hands := s.hands[t := if unexpected then Aborted(rest) else ShuttingDown(rest)],
         released := s.released + multiset{s.hands[t].leases[0]})
    case ShutdownReturns(t) =>
      s.(hands := s.hands - {t})
  }

  // ----- conservation ------------------------------------------------------

  datatype Place = InHand(t: Thread) | Stored(request: RequestId) | ReleaseSent

  ghost predicate At(s: State, l: Lease, p: Place) {
    match p
    case InHand(t) => t in s.hands && l in s.hands[t].Holds()
    case Stored(r) => r in s.leases && s.leases[r] == l
    case ReleaseSent => l in s.released
  }

  /** Every received lease is in exactly one place, once. */
  ghost predicate Conserved(s: State) {
    && (forall l | l in s.received :: exists p :: At(s, l, p))
    && (forall l, p | At(s, l, p) :: l in s.received)
    && (forall l, p, q | At(s, l, p) && At(s, l, q) :: p == q)
    && (forall l | l in s.released :: s.released[l] == 1)
    && (forall t | t in s.hands :: Distinct(s.hands[t].Holds()))
  }

  /** What happens to one lease in one step: it stays, or moves as told. */
  ghost function Moved(s: State, step: Step, l: Lease, p: Place): Place
    requires Enabled(s, step)
  {
    match step
    case Store(t) =>
      if p == InHand(t) && s.hands[t].request !in s.leases then Stored(s.hands[t].request) else p
    case RequestFinished(t, request) => if p == Stored(request) then InHand(t) else p
    case Release(t) => if p == InHand(t) then ReleaseSent else p
    case Shutdown(t, _) => if p.Stored? then InHand(t) else p
    case ShutdownReleases(t, _) => if p == InHand(t) && l == s.hands[t].leases[0] then ReleaseSent else p
    case _ => p
  }

  lemma MovesForward(s: State, step: Step, l: Lease, p: Place)
    requires Enabled(s, step) && At(s, l, p)
    ensures At(Next(s, step), l, Moved(s, step, l, p))
  {
    if step.Shutdown? {
      ShutdownTakesStored(s, step, l, p);
    } else if step.ShutdownReleases? {
      ShutdownSends(s, step, l, p);
    }
  }

  lemma ShutdownTakesStored(s: State, step: Step, l: Lease, p: Place)
    requires step.Shutdown? && Enabled(s, step) && At(s, l, p)
    ensures At(Next(s, step), l, Moved(s, step, l, p))
  {
    if p.Stored? {
      assert l in step.order;
    }
  }

  lemma ShutdownSends(s: State, step: Step, l: Lease, p: Place)
    requires step.ShutdownReleases? && Enabled(s, step) && At(s, l, p)
    ensures At(Next(s, step), l, Moved(s, step, l, p))
  {
    var ls := s.hands[step.t].leases;
    assert ls == [ls[0]] + ls[1..];
  }

  /** Nothing appears from nowhere, except a freshly reserved lease. */
  lemma CameFrom(s: State, step: Step, l: Lease, q: Place)
    requires Conserved(s) && Enabled(s, step) && At(Next(s, step), l, q)
    ensures (step.ReserveReturns? && step.lease == Some(l) && l !in s.received && q == InHand(step.t))
         || exists p :: At(s, l, p) && q == Moved(s, step, l, p)
  {
    if step.ShutdownReleases? {
      HeadLeaves(s, step.t);
    }
    if !(step.ReserveReturns? && step.lease == Some(l) && q == InHand(step.t)) {
      hide Conserved;
      OriginMoves(s, step, l, q);
      assert At(s, l, OriginOf(s, step, l, q));
    }
  }

  ghost function OriginOf(s: State, step: Step, l: Lease, q: Place): Place
    requires Enabled(s, step)
  {
    match step
    case Store(t) => if q == Stored(s.hands[t].request) && s.hands[t].request !in s.leases then InHand(t) else q
    case RequestFinished(t, request) => if q == InHand(t) && request in s.leases then Stored(request) else q
    case Release(t) => if q == ReleaseSent && l == s.hands[t].lease then InHand(t) else q
    case Shutdown(t, order) => if q == InHand(t) then Origin(s, l, order) else q
    case ShutdownReleases(t, _) => if q == ReleaseSent && l == s.hands[t].leases[0] then InHand(t) else q
    case _ => q
  }

  lemma OriginMoves(s: State, step: Step, l: Lease, q: Place)
    requires Enabled(s, step) && At(Next(s, step), l, q)
    requires !(step.ReserveReturns? && step.lease == Some(l) && q == InHand(step.t))
    requires step.ShutdownReleases? ==> s.hands[step.t].leases[0] !in s.hands[step.t].leases[1..]
    ensures At(s, l, OriginOf(s, step, l, q)) && q == Moved(s, step, l, OriginOf(s, step, l, q))
  {
    match step
    case Shutdown(_, _) => ShutdownOrigin(s, step, l, q);
    case ShutdownReleases(_, _) => ShutdownReleaseOrigin(s, step, l, q);
    case _ =>
  }

  lemma ShutdownOrigin(s: State, step: Step, l: Lease, q: Place)
    requires step.Shutdown? && Enabled(s, step) && At(Next(s, step), l, q)
    ensures At(s, l, OriginOf(s, step, l, q)) && q == Moved(s, step, l, OriginOf(s, step, l, q))
  {
  }

  lemma ShutdownReleaseOrigin(s: State, step: Step, l: Lease, q: Place)
    requires step.ShutdownReleases? && Enabled(s, step) && At(Next(s, step), l, q)
    requires s.hands[step.t].leases[0] !in s.hands[step.t].leases[1..]
    ensures At(s, l, OriginOf(s, step, l, q)) && q == Moved(s, step, l, OriginOf(s, step, l, q))
  {
  }

  ghost function Origin(s: State, l: Lease, order: seq<Lease>): Place
    requires forall x :: x in order <==> exists r :: r in s.leases && s.leases[r] == x
  {
    if l in order then
      var r :| r in s.leases && s.leases[r] == l;
      Stored(r)
    else ReleaseSent
  }

  lemma HeadLeaves(s: State, t: Thread)
    requires Conserved(s) && t in s.hands && s.hands[t].ShuttingDown? && s.hands[t].leases != []
    ensures var ls := s.hands[t].leases;
            && ls[0] !in ls[1..] && Distinct(ls[1..])
            && (forall l | l in ls[1..] :: l in ls)
  {
    assert Distinct(s.hands[t].Holds());
  }

  lemma StepConserves(s: State, step: Step)
    requires Conserved(s) && Enabled(s, step)
    ensures Conserved(Next(s, step))
  {
    hide Moved;
    var n := Next(s, step);
    forall l | l in n.received ensures exists p :: At(n, l, p) {
      if l in s.received {
        var p :| At(s, l, p);
        MovesForward(s, step, l, p);
      } else {
        assert At(n, l, InHand(step.t));
      }
    }
    forall l, q | At(n, l, q) ensures l in n.received {
      CameFrom(s, step, l, q);
    }
    forall l, q, q' | At(n, l, q) && At(n, l, q') ensures q == q' {
      CameFrom(s, step, l, q);
      CameFrom(s, step, l, q');
    }
    SentOnce(s, step);
    HandsStayDistinct(s, step);
  }

  lemma SentOnce(s: State, step: Step)
    requires Conserved(s) && Enabled(s, step)
    ensures forall l | l in Next(s, step).released :: Next(s, step).released[l] == 1
  {
    match step
    case Release(t) =>
      assert At(s, s.hands[t].lease, InHand(t));
      assert !At(s, s.hands[t].lease, ReleaseSent);
    case ShutdownReleases(t, _) =>
      assert At(s, s.hands[t].leases[0], InHand(t));
      assert !At(s, s.hands[t].leases[0], ReleaseSent);
    case _ =>
  }

  lemma HandsStayDistinct(s: State, step: Step)
    requires Conserved(s) && Enabled(s, step)
    ensures forall t | t in Next(s, step).hands :: Distinct(Next(s, step).hands[t].Holds())
  {
    if step.ShutdownReleases? {
      HeadLeaves(s, step.t);
    }
  }

  // ----- runs --------------------------------------------------------------

  ghost predicate Legal(s: State, steps: seq<Step>)
    decreases |steps|
  {
    steps == [] || (Enabled(s, steps[0]) && Legal(Next(s, steps[0]), steps[1..]))
  }

  ghost function After(s: State, steps: seq<Step>): State
    requires Legal(s, steps)
    decreases |steps|
  {
    if steps == [] then s else After(Next(s, steps[0]), steps[1..])
  }

  lemma {:induction false} RunConserves(s: State, steps: seq<Step>)
    requires Conserved(s) && Legal(s, steps)
    ensures Conserved(After(s, steps))
    decreases |steps|
  {
    hide Conserved, Next, Enabled;
    if steps != [] {
      StepConserves(s, steps[0]);
      RunConserves(Next(s, steps[0]), steps[1..]);
    }
  }

  /** In every interleaving each lease received is in exactly one callback's
      hand, stored under exactly one request, or sent to release exactly once. */
  lemma LeasesAreConserved(steps: seq<Step>, l: Lease)
    requires Legal(EMPTY, steps)
    ensures var s := After(EMPTY, steps);
            && (l in s.received <==> exists p :: At(s, l, p))
            && (forall p, q | At(s, l, p) && At(s, l, q) :: p == q)
            && s.released[l] <= 1
  {
    RunConserves(EMPTY, steps);
  }

  /** `request_finished` has taken the lease, and has released it or still will. */
  ghost predicate OnItsWay(s: State, t: Thread, l: Lease) {
    (t in s.hands && (s.hands[t] == Committing(l) || s.hands[t] == Releasing(l))) || l in s.released
  }

  /** The same after the commit call has returned. */
  ghost predicate PastCommit(s: State, t: Thread, l: Lease) {
    (t in s.hands && s.hands[t] == Releasing(l)) || l in s.released
  }

  lemma {:induction false} StaysOnItsWay(s: State, steps: seq<Step>, t: Thread, l: Lease)
    requires Legal(s, steps) && OnItsWay(s, t, l)
    ensures OnItsWay(After(s, steps), t, l)
    ensures PastCommit(s, t, l) ==> PastCommit(After(s, steps), t, l)
    decreases |steps|
  {
    if steps != [] {
      OneStepOnItsWay(s, steps[0], t, l);
      StaysOnItsWay(Next(s, steps[0]), steps[1..], t, l);
    }
  }

  lemma OneStepOnItsWay(s: State, step: Step, t: Thread, l: Lease)
    requires Enabled(s, step) && OnItsWay(s, t, l)
    ensures OnItsWay(Next(s, step), t, l)
    ensures PastCommit(s, t, l) ==> PastCommit(Next(s, step), t, l)
  {
  }

  /** Whether or not a commit fails, its lease is from then on released or in the
      hand of the same callback, which can release it at once. */
  lemma FailedCommitStillReleases(s: State, t: Thread, ok: bool, steps: seq<Step>)
    requires Conserved(s) && Enabled(s, CommitReturns(t, ok)) && Legal(Next(s, CommitReturns(t, ok)), steps)
    ensures var l, n := s.hands[t].lease, After(Next(s, CommitReturns(t, ok)), steps);
            || (At(n, l, InHand(t)) && Enabled(n, Release(t)) && At(Next(n, Release(t)), l, ReleaseSent))
            || (At(n, l, ReleaseSent) && n.released[l] == 1)
  {
    StepConserves(s, CommitReturns(t, ok));
    RunConserves(Next(s, CommitReturns(t, ok)), steps);
    StaysOnItsWay(Next(s, CommitReturns(t, ok)), steps, t, s.hands[t].lease);
  }

  /** A lease taken out by `request_finished` is released exactly once by the time
      that callback has ended, whatever its commit answered. */
  lemma FinishedRequestIsReleased(s: State, t: Thread, request: RequestId, steps: seq<Step>)
    requires Conserved(s) && Enabled(s, RequestFinished(t, request)) && request in s.leases
    requires Legal(Next(s, RequestFinished(t, request)), steps)
    requires t !in After(Next(s, RequestFinished(t, request)), steps).hands
    ensures After(Next(s, RequestFinished(t, request)), steps).released[s.leases[request]] == 1
  {
    var n := Next(s, RequestFinished(t, request));
    StepConserves(s, RequestFinished(t, request));
    RunConserves(n, steps);
    StaysOnItsWay(n, steps, t, s.leases[request]);
  }

  // ----- whose lease it is ---------------------------------------------------

  /** Thread `t` called `on_new_request` for `request` at step `i`, and did nothing
      else before step `j`. */
  ghost predicate CalledFor(steps: seq<Step>, i: nat, j: nat, t: Thread, request: RequestId) {
    && i < j <= |steps| && steps[i] == OnNewRequest(t, request)
    && forall k | i < k < j :: steps[k].t != t
  }

  /** In this run `lease` was received by a call for `request`. */
  ghost predicate ReservedFor(steps: seq<Step>, lease: Lease, request: RequestId) {
    exists i: nat, j: nat, t ::
      j < |steps| && CalledFor(steps, i, j, t, request) && steps[j] == ReserveReturns(t, Some(lease))
  }

  ghost predicate Waiting(steps: seq<Step>, t: Thread, request: RequestId) {
    exists i: nat :: CalledFor(steps, i, |steps|, t, request)
  }

  /** Every lease is stored, or about to be, under the request it was reserved for. */
  ghost predicate OwnedIn(s: State, steps: seq<Step>) {
    && (forall t | t in s.hands && s.hands[t].Reserving? :: Waiting(steps, t, s.hands[t].request))
    && (forall t | t in s.hands && s.hands[t].Storing? :: ReservedFor(steps, s.hands[t].lease, s.hands[t].request))
    && (forall r | r in s.leases :: ReservedFor(steps, s.leases[r], r))
  }

  lemma ReservedStays(steps: seq<Step>, step: Step, lease: Lease, request: RequestId)
    requires ReservedFor(steps, lease, request)
    ensures ReservedFor(steps + [step], lease, request)
  {
    var i: nat, j: nat, t :| j < |steps| && CalledFor(steps, i, j, t, request) && steps[j] == ReserveReturns(t, Some(lease));
    assert CalledFor(steps + [step], i, j, t, request);
  }

  lemma WaitingStays(steps: seq<Step>, step: Step, t: Thread, request: RequestId)
    requires Waiting(steps, t, request)
    ensures step.t != t ==> Waiting(steps + [step], t, request)
    ensures step.ReserveReturns? && step.t == t && step.lease.Some? ==> ReservedFor(steps + [step], step.lease.value, request)
  {
    var i: nat :| CalledFor(steps, i, |steps|, t, request);
    var longer := steps + [step];
    if step.t != t {
      assert CalledFor(longer, i, |longer|, t, request);
    }
    assert CalledFor(longer, i, |steps|, t, request) && longer[|steps|] == step;
  }

  lemma StepKeepsOwners(s: State, steps: seq<Step>, step: Step)
    requires OwnedIn(s, steps) && Enabled(s, step)
    ensures OwnedIn(Next(s, step), steps + [step])
  {
    var n, longer := Next(s, step), steps + [step];
    hide ReservedFor, Waiting;
    forall t | t in n.hands && n.hands[t].Reserving? ensures Waiting(longer, t, n.hands[t].request) {
      if t in s.hands && s.hands[t] == n.hands[t] {
        WaitingStays(steps, step, t, n.hands[t].request);
      } else {
        NewlyWaiting(steps, t, n.hands[t].request);
      }
    }
    forall t | t in n.hands && n.hands[t].Storing? ensures ReservedFor(longer, n.hands[t].lease, n.hands[t].request) {
      if t in s.hands && s.hands[t] == n.hands[t] {
        ReservedStays(steps, step, n.hands[t].lease, n.hands[t].request);
      } else {
        WaitingStays(steps, step, t, n.hands[t].request);
      }
    }
    forall r | r in n.leases ensures ReservedFor(longer, n.leases[r], r) {
      ReservedStays(steps, step, n.leases[r], r);
    }
  }

  lemma NewlyWaiting(steps: seq<Step>, t: Thread, request: RequestId)
    ensures Waiting(steps + [OnNewRequest(t, request)], t, request)
  {
    var longer := steps + [OnNewRequest(t, request)];
    assert CalledFor(longer, |steps|, |longer|, t, request);
  }

  lemma {:induction false} RunKeepsOwners(s: State, before: seq<Step>, steps: seq<Step>)
    requires OwnedIn(s, before) && Legal(s, steps)
    ensures OwnedIn(After(s, steps), before + steps)
    decreases |steps|
  {
    hide OwnedIn, Next, Enabled;
    if steps == [] {
      assert before + steps == before;
    } else {
      StepKeepsOwners(s, before, steps[0]);
      RunKeepsOwners(Next(s, steps[0]), before + [steps[0]], steps[1..]);
      assert before + [steps[0]] + steps[1..] == before + steps;
    }
  }

  /** In every run a lease is stored under the request it was reserved for; so what
      a finished request commits and releases is its own. */
  lemma StoredLeaseIsItsOwn(steps: seq<Step>, request: RequestId)
    requires Legal(EMPTY, steps) && request in After(EMPTY, steps).leases
    ensures ReservedFor(steps, After(EMPTY, steps).leases[request], request)
  {
    RunKeepsOwners(EMPTY, [], steps);
    assert [] + steps == steps;
  }

  // ----- what a shutdown loses -----------------------------------------------

  /** The callback of thread `t` has ended, or its shutdown was left early. */
  ghost predicate Over(s: State, t: Thread) {
    t in s.hands ==> s.hands[t].Aborted?
  }

  ghost predicate AllOver(s: State) {
    forall t | t in s.hands :: s.hands[t].Aborted?
  }

  /** A shutdown that was left early had leases still to release. */
  ghost predicate Lost(s: State) {
    exists t | t in s.hands :: s.hands[t].Aborted? && s.hands[t].lost != []
  }

  /** An unexpected exception ends a shutdown before its last release. */
  ghost predicate Loses(s: State, step: Step)
    requires Enabled(s, step)
  {
    step.ShutdownReleases? && step.unexpected && |s.hands[step.t].leases| > 1
  }

  /** Exactly when a step leaves leases lost; what is lost stays lost. */
  lemma LosesIff(s: State, step: Step)
    requires Enabled(s, step)
    ensures Lost(Next(s, step)) <==> Lost(s) || Loses(s, step)
  {
    var n := Next(s, step);
    if Lost(s) {
      var t :| t in s.hands && s.hands[t].Aborted? && s.hands[t].lost != [];
      assert t in n.hands && n.hands[t] == s.hands[t];
    } else if Loses(s, step) {
      assert n.hands[step.t].lost != [];
    }
  }

  ghost predicate EverLoses(s: State, steps: seq<Step>)
    requires Legal(s, steps)
    decreases |steps|
  {
    steps != [] && (Loses(s, steps[0]) || EverLoses(Next(s, steps[0]), steps[1..]))
  }

  lemma {:induction false} RunLosesIff(s: State, steps: seq<Step>)
    requires Legal(s, steps)
    ensures Lost(After(s, steps)) <==> Lost(s) || EverLoses(s, steps)
    decreases |steps|
  {
    hide Lost, Loses, Next, Enabled;
    if steps != [] {
      LosesIff(s, steps[0]);
      RunLosesIff(Next(s, steps[0]), steps[1..]);
    }
  }

  /** Once every callback has ended, all leases are released exactly when nothing
      is stored and no shutdown was left early with leases to release. */
  lemma QuietStateIsSettled(steps: seq<Step>)
    requires Legal(EMPTY, steps) && AllOver(After(EMPTY, steps))
    ensures var s := After(EMPTY, steps);
            (forall l | l in s.received :: s.released[l] == 1) <==> s.leases == map[] && !EverLoses(EMPTY, steps)
  {
    RunConserves(EMPTY, steps);
    RunLosesIff(EMPTY, steps);
    SettledIff(After(EMPTY, steps));
  }

  lemma SettledIff(s: State)
    requires Conserved(s) && AllOver(s)
    ensures (forall l | l in s.received :: s.released[l] == 1) <==> s.leases == map[] && !Lost(s)
  {
    if s.leases != map[] {
      var r :| r in s.leases;
      NotReleased(s, s.leases[r], Stored(r));
    } else if Lost(s) {
      var t :| t in s.hands && s.hands[t].Aborted? && s.hands[t].lost != [];
      assert s.hands[t].lost[0] in s.hands[t].Holds();
      NotReleased(s, s.hands[t].lost[0], InHand(t));
    } else {
      forall l | l in s.received ensures s.released[l] == 1 {
        var p :| At(s, l, p);
      }
    }
  }

  lemma NotReleased(s: State, l: Lease, p: Place)
    requires Conserved(s) && At(s, l, p) && p != ReleaseSent
    ensures l in s.received && s.released[l] == 0
  {
    assert !At(s, l, ReleaseSent);
  }

  // ----- what outlives a shutdown --------------------------------------------

  /** Only a reservation that comes back can fill an empty table. */
  lemma OnlyStoreFills(s: State, step: Step)
    requires s.leases == map[] && Enabled(s, step)
    ensures Next(s, step).leases != map[] <==> step.Store?
  {
    if step.Store? {
      assert s.hands[step.t].request in Next(s, step).leases;
    }
  }

  /** Some state of the run has a lease stored. */
  ghost predicate EverStores(s: State, steps: seq<Step>)
    requires Legal(s, steps)
    decreases |steps|
  {
    s.leases != map[] || (steps != [] && EverStores(Next(s, steps[0]), steps[1..]))
  }

  lemma {:induction false} EverStoresIff(s: State, steps: seq<Step>)
    requires Legal(s, steps) && s.leases == map[]
    ensures EverStores(s, steps) <==> exists i | 0 <= i < |steps| :: steps[i].Store?
    decreases |steps|
  {
    hide Next, Enabled;
    if steps != [] {
      var n, rest := Next(s, steps[0]), steps[1..];
      OnlyStoreFills(s, steps[0]);
      if n.leases == map[] {
        EverStoresIff(n, rest);
        assert forall i | 0 < i < |steps| :: steps[i] == rest[i - 1];
        assert forall i | 0 <= i < |rest| :: rest[i] == steps[i + 1];
      } else {
        assert EverStores(n, rest) && steps[0].Store?;
      }
    }
  }

  /** A reservation is under way: its lease is not stored yet. */
  ghost predicate ReservationUnderWay(s: State) {
    exists t | t in s.hands :: s.hands[t].Reserving? || s.hands[t].Storing?
  }

  ghost predicate NoNewRequests(steps: seq<Step>) {
    forall i | 0 <= i < |steps| :: !steps[i].OnNewRequest?
  }

  /** Without new requests and reservations under way, nothing is stored any more. */
  lemma {:induction false} StaysEmpty(s: State, steps: seq<Step>)
    requires Legal(s, steps) && NoNewRequests(steps)
    requires s.leases == map[] && !ReservationUnderWay(s)
    ensures !EverStores(s, steps) && After(s, steps).leases == map[]
    decreases |steps|
  {
    if steps != [] {
      OneStepStaysEmpty(s, steps[0]);
      assert NoNewRequests(steps[1..]);
      StaysEmpty(Next(s, steps[0]), steps[1..]);
    }
  }

  lemma OneStepStaysEmpty(s: State, step: Step)
    requires Enabled(s, step) && !step.OnNewRequest?
    requires s.leases == map[] && !ReservationUnderWay(s)
    ensures Next(s, step).leases == map[] && !ReservationUnderWay(Next(s, step))
  {
  }

  /** This run, without new requests, ends with the callback of thread `t` over and
      a lease stored or lost. */
  ghost predicate LeavesBehind(s: State, t: Thread, steps: seq<Step>) {
    && Legal(s, steps) && NoNewRequests(steps)
    && Over(After(s, steps), t)
    && (After(s, steps).leases != map[] || Lost(After(s, steps)))
  }

  /** A lease that reserve could still issue. */
  ghost function Above(ls: set<Lease>): (bound: Lease)
    ensures forall l | l in ls :: l < bound
  {
    if ls == {} then 0
    else
      var l :| l in ls;
      var rest := Above(ls - {l});
      assert forall x | x in ls :: x == l || x in ls - {l};
      if l < rest then rest else l + 1
  }

  lemma LeavesBehindEarlier(s: State, t: Thread, step: Step, steps: seq<Step>)
    requires Enabled(s, step) && !step.OnNewRequest? && LeavesBehind(Next(s, step), t, steps)
    ensures LeavesBehind(s, t, [step] + steps)
  {
    hide Next, Enabled;
    assert ([step] + steps)[1..] == steps;
  }

  /** A reservation under way can always return and be stored. */
  lemma ReservationCanStore(s: State, done: Thread) returns (steps: seq<Step>)
    requires ReservationUnderWay(s) && s.leases == map[] && Over(s, done)
    ensures LeavesBehind(s, done, steps)
  {
    var t :| t in s.hands && (s.hands[t].Reserving? || s.hands[t].Storing?);
    if s.hands[t].Storing? {
      StoreLast(s, done, t);
      steps := [Store(t)];
    } else {
      var back := ReserveReturns(t, Some(Above(s.received)));
      StoreLast(Next(s, back), done, t);
      LeavesBehindEarlier(s, done, back, [Store(t)]);
      steps := [back] + [Store(t)];
    }
  }

  lemma StoreLast(s: State, done: Thread, t: Thread)
    requires Enabled(s, Store(t)) && s.leases == map[] && Over(s, done)
    ensures LeavesBehind(s, done, [Store(t)])
  {
    var one := [Store(t)];
    assert one[1..] == [];
    OnlyStoreFills(s, Store(t));
  }

  /** The shutdown can first release all it took, and return. */
  lemma {:induction false} ShutdownThenStore(s: State, t: Thread) returns (steps: seq<Step>)
    requires t in s.hands && s.hands[t].ShuttingDown? && ReservationUnderWay(s) && s.leases == map[]
    ensures LeavesBehind(s, t, steps)
    decreases |s.hands[t].leases|
  {
    var step := if s.hands[t].leases == [] then ShutdownReturns(t) else ShutdownReleases(t, false);
    var u :| u in s.hands && (s.hands[u].Reserving? || s.hands[u].Storing?);
    var n := Next(s, step);
    assert u in n.hands && n.hands[u] == s.hands[u];
    var rest;
    if s.hands[t].leases == [] {
      rest := ReservationCanStore(n, t);
    } else {
      rest := ShutdownThenStore(n, t);
    }
    LeavesBehindEarlier(s, t, step, rest);
    steps := [step] + rest;
  }

  /** Some shutdown under way has at least two leases to release. */
  ghost predicate ReleasesUnderWay(s: State) {
    exists t | t in s.hands :: s.hands[t].ShuttingDown? && |s.hands[t].leases| > 1
  }

  lemma {:induction false} ShutdownEnds(s: State, t: Thread) returns (steps: seq<Step>)
    requires Over(s, t) || s.hands[t].ShuttingDown?
    ensures Legal(s, steps) && NoNewRequests(steps) && Over(After(s, steps), t)
    decreases if Over(s, t) then 0 else 1 + |s.hands[t].leases|
  {
    if Over(s, t) {
      steps := [];
    } else {
      var step := if s.hands[t].leases == [] then ShutdownReturns(t) else ShutdownReleases(t, false);
      var rest := ShutdownEnds(Next(s, step), t);
      steps := [step] + rest;
      assert steps[1..] == rest;
    }
  }

  /** What is lost is still lost when the shutdown ends. */
  lemma LostAtEnd(s: State, t: Thread) returns (steps: seq<Step>)
    requires Lost(s) && (Over(s, t) || s.hands[t].ShuttingDown?)
    ensures LeavesBehind(s, t, steps)
  {
    hide Lost, Next, Enabled;
    steps := ShutdownEnds(s, t);
    RunLosesIff(s, steps);
  }

  /** An unexpected exception can come at the first of several releases. */
  lemma ReleasesCanBeLost(s: State, t: Thread) returns (steps: seq<Step>)
    requires ReleasesUnderWay(s) && (Over(s, t) || s.hands[t].ShuttingDown?)
    ensures LeavesBehind(s, t, steps)
  {
    var u :| u in s.hands && s.hands[u].ShuttingDown? && |s.hands[u].leases| > 1;
    var step := ShutdownReleases(u, true);
    LosesIff(s, step);
    assert Over(Next(s, step), t) || Next(s, step).hands[t].ShuttingDown?;
    var rest := LostAtEnd(Next(s, step), t);
    LeavesBehindEarlier(s, t, step, rest);
    steps := [step] + rest;
  }

  /** Nothing is stored, lost, or could still become so without a new request. */
  ghost predicate Safe(s: State) {
    s.leases == map[] && !ReservationUnderWay(s) && !ReleasesUnderWay(s) && !Lost(s)
  }

  lemma TakesOnlyStored(s: State, t: Thread, order: seq<Lease>)
    requires Enabled(s, Shutdown(t, order))
    ensures order == [] || exists r :: r in s.leases && s.leases[r] == order[0]
  {
    if order != [] {
      assert order[0] in order;
    }
  }

  lemma OneStepStaysSafe(s: State, step: Step)
    requires Enabled(s, step) && !step.OnNewRequest? && Safe(s)
    ensures Safe(Next(s, step))
  {
    OneStepStaysEmpty(s, step);
    LosesIff(s, step);
    if step.Shutdown? {
      TakesOnlyStored(s, step.t, step.order);
    }
  }

  lemma {:induction false} StaysSafe(s: State, steps: seq<Step>)
    requires Legal(s, steps) && NoNewRequests(steps) && Safe(s)
    ensures Safe(After(s, steps))
    decreases |steps|
  {
    hide Safe, Next, Enabled;
    if steps != [] {
      OneStepStaysSafe(s, steps[0]);
      assert NoNewRequests(steps[1..]);
      StaysSafe(Next(s, steps[0]), steps[1..]);
    }
  }

  /** Exactly when a lease can outlive a shutdown that no new request follows: when,
      as shutdown takes the lock, a reservation is under way; or two leases are
      stored, or in the hand of another shutdown, so that an unexpected exception
      can lose the second; or one was lost before. */
  lemma LeaseOutlivesShutdownIff(s: State, t: Thread, order: seq<Lease>)
    requires Enabled(s, Shutdown(t, order))
    ensures (exists steps :: LeavesBehind(Next(s, Shutdown(t, order)), t, steps)) <==>
            ReservationUnderWay(s) || |order| > 1 || ReleasesUnderWay(s) || Lost(s)
  {
    var n := Next(s, Shutdown(t, order));
    SameReservations(s, t, order);
    SameReleases(s, t, order);
    LosesIff(s, Shutdown(t, order));
    var steps;
    if ReservationUnderWay(n) {
      steps := ShutdownThenStore(n, t);
    } else if ReleasesUnderWay(n) {
      steps := ReleasesCanBeLost(n, t);
    } else if Lost(n) {
      steps := LostAtEnd(n, t);
    } else {
      forall steps ensures !LeavesBehind(n, t, steps) {
        if LeavesBehind(n, t, steps) {
          StaysSafe(n, steps);
        }
      }
      return;
    }
    assert LeavesBehind(n, t, steps);
  }

  lemma SameReleases(s: State, t: Thread, order: seq<Lease>)
    requires Enabled(s, Shutdown(t, order))
    ensures ReleasesUnderWay(Next(s, Shutdown(t, order))) <==> ReleasesUnderWay(s) || |order| > 1
  {
    var n := Next(s, Shutdown(t, order));
    assert n.hands[t] == ShuttingDown(order);
    forall u | u in s.hands ensures u in n.hands && n.hands[u] == s.hands[u] {
    }
  }

  lemma SameReservations(s: State, t: Thread, order: seq<Lease>)
    requires Enabled(s, Shutdown(t, order))
    ensures ReservationUnderWay(Next(s, Shutdown(t, order))) <==> ReservationUnderWay(s)
  {
    var n := Next(s, Shutdown(t, order));
    forall u | u in s.hands ensures u in n.hands && n.hands[u] == s.hands[u] {
    }
    forall u | u in n.hands && n.hands[u] != ShuttingDown(order) ensures u in s.hands {
    }
  }

  /** A shutdown that finds no reservation under way and that no new request
      follows leaves every lease released once, when every callback has ended,
      exactly unless an unexpected exception ended some shutdown too early. */
  lemma ShutdownReleasesEverything(before: seq<Step>, t: Thread, order: seq<Lease>, steps: seq<Step>)
    requires Legal(EMPTY, before) && Enabled(After(EMPTY, before), Shutdown(t, order))
    requires !ReservationUnderWay(After(EMPTY, before))
    requires var n := Next(After(EMPTY, before), Shutdown(t, order));
             Legal(n, steps) && NoNewRequests(steps) && AllOver(After(n, steps))
    ensures var n := Next(After(EMPTY, before), Shutdown(t, order));
            var end := After(n, steps);
            (forall l | l in end.received :: end.released[l] == 1) <==>
            !EverLoses(EMPTY, before) && !EverLoses(n, steps)
  {
    hide Conserved, Lost, AllOver, ReservationUnderWay;
    var s := After(EMPTY, before);
    var n := Next(s, Shutdown(t, order));
    NothingLostYet();
    RunConserves(EMPTY, before);
    StepConserves(s, Shutdown(t, order));
    RunConserves(n, steps);
    RunLosesIff(EMPTY, before);
    LosesIff(s, Shutdown(t, order));
    RunLosesIff(n, steps);
    SameReservations(s, t, order);
    StaysEmpty(n, steps);
    SettledIff(After(n, steps));
  }

  lemma NothingLostYet()
    ensures Conserved(EMPTY) && !Lost(EMPTY)
  {
  }

  /** It does happen: a reservation that returns during the shutdown is stored
      afterwards and stays. */
  lemma LateStoreOutlivesShutdown()
    ensures var steps := [OnNewRequest(1, 7), ReserveReturns(1, Some(5)), Shutdown(2, []), ShutdownReturns(2), Store(1)];
            && Legal(EMPTY, steps)
            && After(EMPTY, steps).hands == map[]
            && After(EMPTY, steps).leases == map[7 := 5]
  {
    var s1 := Next(EMPTY, OnNewRequest(1, 7));
    var s2 := Next(s1, ReserveReturns(1, Some(5)));
    var s3 := Next(s2, Shutdown(2, []));
    var s4 := Next(s3, ShutdownReturns(2));
    var s5 := Next(s4, Store(1));
    var e1: seq<Step> := [Store(1)];
    assert e1[1..] == [] && Legal(s4, e1) && After(s4, e1) == s5;
    var e2 := [ShutdownReturns(2), Store(1)];
    assert e2[1..] == e1;
    var e3 := [Shutdown(2, []), ShutdownReturns(2), Store(1)];
    assert e3[1..] == e2 && Legal(s2, e3);
    var e4 := [ReserveReturns(1, Some(5)), Shutdown(2, []), ShutdownReturns(2), Store(1)];
    assert e4[1..] == e3 && Legal(s1, e4);
    var e5 := [OnNewRequest(1, 7), ReserveReturns(1, Some(5)), Shutdown(2, []), ShutdownReturns(2), Store(1)];
    assert e5[1..] == e4;
  }

  lemma RunFrom(s: State, step: Step, steps: seq<Step>)
    requires Enabled(s, step) && Legal(Next(s, step), steps)
    ensures Legal(s, [step] + steps) && After(s, [step] + steps) == After(Next(s, step), steps)
  {
    assert ([step] + steps)[1..] == steps;
  }

  /** Two requests are leased; the release of the first lease at shutdown ends in
      an unexpected exception. */
  ghost const BROKEN_SHUTDOWN: seq<Step> :=
    [OnNewRequest(1, 7)] + ([ReserveReturns(1, Some(5))] + ([Store(1)]
    + ([OnNewRequest(1, 8)] + ([ReserveReturns(1, Some(6))] + ([Store(1)]
    + ([Shutdown(2, [5, 6])] + ([ShutdownReleases(2, true)] + [])))))))

  /** It does happen: the second lease is neither stored nor released. */
  lemma BrokenShutdownLoses()
    ensures Legal(EMPTY, BROKEN_SHUTDOWN)
    ensures After(EMPTY, BROKEN_SHUTDOWN) == State(map[], map[2 := Aborted([6])], {5, 6}, multiset{5})
    ensures Lost(After(EMPTY, BROKEN_SHUTDOWN)) && AllOver(After(EMPTY, BROKEN_SHUTDOWN))
  {
    var s3 := State(map[7 := 5], map[], {5}, multiset{});
    var s6 := State(map[7 := 5, 8 := 6], map[], {5, 6}, multiset{});
    var tail := [Shutdown(2, [5, 6])] + ([ShutdownReleases(2, true)] + []);
    var middle := [OnNewRequest(1, 8)] + ([ReserveReturns(1, Some(6))] + ([Store(1)] + tail));
    BrokenEnd(s6);
    LeaseRequest(s3, s6, 8, 6, tail);
    LeaseRequest(EMPTY, s3, 7, 5, middle);
    var end := After(EMPTY, BROKEN_SHUTDOWN);
    assert end.hands[2] == Aborted([6]);
  }

  lemma LeaseRequest(s: State, n: State, request: RequestId, lease: Lease, steps: seq<Step>)
    requires s.hands == map[] && request !in s.leases && lease !in s.received
    requires n == s.(leases := s.leases[request := lease], received := s.received + {lease})
    requires Legal(n, steps)
    ensures var run := [OnNewRequest(1, request)] + ([ReserveReturns(1, Some(lease))] + ([Store(1)] + steps));
            Legal(s, run) && After(s, run) == After(n, steps)
  {
    var s1 := Next(s, OnNewRequest(1, request));
    var s2 := Next(s1, ReserveReturns(1, Some(lease)));
    assert Next(s2, Store(1)) == n;
    hide Next, Legal, After;
    RunFrom(s2, Store(1), steps);
    RunFrom(s1, ReserveReturns(1, Some(lease)), [Store(1)] + steps);
    RunFrom(s, OnNewRequest(1, request), [ReserveReturns(1, Some(lease))] + ([Store(1)] + steps));
  }

  lemma BrokenEnd(s: State)
    requires s == State(map[7 := 5, 8 := 6], map[], {5, 6}, multiset{})
    ensures var run := [Shutdown(2, [5, 6])] + ([ShutdownReleases(2, true)] + []);
            Legal(s, run) && After(s, run) == State(map[], map[2 := Aborted([6])], {5, 6}, multiset{5})
  {
    assert s.leases[7] == 5 && s.leases[8] == 6;
    var n := Next(s, Shutdown(2, [5, 6]));
    assert n.hands[2].leases[1..] == [6];
    RunFrom(n, ShutdownReleases(2, true), []);
    RunFrom(s, Shutdown(2, [5, 6]), [ShutdownReleases(2, true)] + []);
  }

  // ----- the connector object ----------------------------------------------

  class Connector {
    var leases: map<RequestId, Lease>
    ghost var state: State

    ghost predicate Valid()
      reads this
    {
      state.leases == leases && Conserved(state)
    }

    constructor ()
      ensures Valid() && state == EMPTY
    {
      leases := map[];
      state := EMPTY;
    }

    /** A step outside the lease lock. */
    ghost method Elsewhere(step: Step)
      requires Valid() && Enabled(state, step)
      requires step.ReserveReturns? || step.CommitReturns? || step.Release? || step.ShutdownReleases? || step.ShutdownReturns?
      modifies this`state
      ensures Valid() && state == Next(old(state), step)
    {
      StepConserves(state, step);
      state := Next(state, step);
    }

    /** First lock region of on_new_request: is the request already leased? */
    method IsLeased(request: RequestId, ghost t: Thread) returns (known: bool)
      requires Valid() && Enabled(state, OnNewRequest(t, request))
      modifies this`state
      ensures Valid() && state == Next(old(state), OnNewRequest(t, request))
      ensures known <==> request in leases
      ensures state == if known then old(state) else old(state).(hands := old(state).hands[t := Reserving(request)])
    {
      StepConserves(state, OnNewRequest(t, request));
      state := Next(state, OnNewRequest(t, request));
      known := request in leases;
    }

    /** Second lock region: dict.setdefault. A redundant lease is to be released. */
    method SetDefault(request: RequestId, lease: Lease, ghost t: Thread) returns (redundant: bool)
      requires Valid() && t in state.hands && state.hands[t] == Storing(request, lease)
      modifies this
      ensures Valid() && state == Next(old(state), Store(t))
      ensures redundant <==> request in old(leases)
      ensures leases == if redundant then old(leases) else old(leases)[request := lease]
    {
      StepConserves(state, Store(t));
      state := Next(state, Store(t));
      redundant := request in leases;
      if !redundant {
        leases := leases[request := lease];
      }
    }

    /** The lock region of request_finished: dict.pop. */
    method Pop(request: RequestId, ghost t: Thread) returns (lease: Option<Lease>)
      requires Valid() && Enabled(state, RequestFinished(t, request))
      modifies this
      ensures Valid() && state == Next(old(state), RequestFinished(t, request))
      ensures lease == (if request in old(leases) then Some(old(leases)[request]) else None)
      ensures request !in leases
    {
      StepConserves(state, RequestFinished(t, request));
      state := Next(state, RequestFinished(t, request));
      if request !in leases {
        return None;
      }
      lease := Some(leases[request]);
      leases := leases - {request};
    }

    /** The lock region of shutdown: copy the values, clear the dictionary. */
    method TakeAll(ghost t: Thread) returns (taken: seq<Lease>)
      requires Valid() && t !in state.hands
      modifies this
      ensures Enabled(old(state), Shutdown(t, taken))
      ensures Valid() && state == Next(old(state), Shutdown(t, taken))
      ensures leases == map[]
    {
      taken := [];
      var remaining := leases.Keys;
      while remaining != {}
        invariant remaining <= leases.Keys && state == old(state) && leases == old(leases) && Valid()
        invariant Distinct(taken)
        invariant forall l :: l in taken <==> exists r :: r in leases && r !in remaining && leases[r] == l
      {
        var request :| request in remaining;
        if leases[request] in taken {
          var r :| r in leases && r !in remaining && leases[r] == leases[request];
          assert At(state, leases[request], Stored(r)) && At(state, leases[request], Stored(request));
          assert false;
        }
        taken := taken + [leases[request]];
        remaining := remaining - {request};
      }
      StepConserves(state, Shutdown(t, taken));
      state := Next(state, Shutdown(t, taken));
      leases := map[];
    }
  }
}
