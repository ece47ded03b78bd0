/** The cancellation registry: requests register, attach what can stop them, and
    are cancelled from other threads. `Step` lists the regions between two lock
    operations; terminate calls are made after unlocking and return later, as
    steps of their own. */
module CancelRegistry {
  import opened Common

  type RequestId = nat
  type Terminator = nat
  type Handle = nat  // one RequestRegistration value

  datatype Entry = Entry(cancelled: bool, terminator: Option<Terminator>)

  datatype Error = NoRequestId | RepeatedId(id: RequestId) | AlreadyActive(id: RequestId) | LeftRegistry(id: RequestId)

  datatype State = State(
    requests: map<RequestId, Entry>,
    live: map<Handle, seq<RequestId>>,   // registrations not yet dropped
    pending: multiset<Terminator>,       // terminate calls begun and not returned
    terminated: set<Terminator>,
    attached: set<Terminator>)           // terminators ever attached

  datatype Step =
    | Register(handle: Handle, ids: seq<RequestId>)
    | Attach(handle: Handle, terminator: Terminator)
    | Cancel(id: RequestId)
    | TerminateReturns(terminator: Terminator)
    | Drop(handle: Handle)

  const EMPTY := State(map[], map[], multiset{}, {}, {})

  predicate Distinct(ids: seq<RequestId>) {
    forall i, j | 0 <= i < j < |ids| :: ids[i] != ids[j]
  }

  predicate Acceptable(requests: map<RequestId, Entry>, ids: seq<RequestId>) {
    && ids != []
    && Distinct(ids)
    && forall i | 0 <= i < |ids| :: ids[i] !in requests
  }

  function Inserted(requests: map<RequestId, Entry>, ids: seq<RequestId>): map<RequestId, Entry> {
    requests + map id | id in ids :: Entry(false, None)
  }

  function Attached(requests: map<RequestId, Entry>, ids: seq<RequestId>, terminator: Terminator): map<RequestId, Entry> {
    map id | id in requests :: if id in ids then requests[id].(terminator := Some(terminator)) else requests[id]
  }

  function Removed(requests: map<RequestId, Entry>, ids: seq<RequestId>): map<RequestId, Entry> {
    map id | id in requests && id !in ids :: requests[id]
  }

  predicate AnyCancelled(requests: map<RequestId, Entry>, ids: seq<RequestId>) {
    exists i | 0 <= i < |ids| :: ids[i] in requests && requests[ids[i]].cancelled
  }

  lemma CancelledAppend(requests: map<RequestId, Entry>, ids: seq<RequestId>, id: RequestId)
    ensures AnyCancelled(requests, ids + [id]) ==
            (AnyCancelled(requests, ids) || (id in requests && requests[id].cancelled))
  {
    if AnyCancelled(requests, ids) {
      var i :| 0 <= i < |ids| && ids[i] in requests && requests[ids[i]].cancelled;
      assert (ids + [id])[i] == ids[i];
    } else if id in requests && requests[id].cancelled {
      assert (ids + [id])[|ids|] == id;
    }
  }

  /** Every attach brings a new terminator, as its callers allocate one each. */
  predicate Enabled(s: State, step: Step) {
    match step
    case Register(h, ids) => h !in s.live
    case Attach(h, t) => h in s.live && t !in s.attached
    case Cancel(_) => true
    case TerminateReturns(t) => t in s.pending
    case Drop(h) => h in s.live
  }

  function Next(s: State, step: Step): State
    requires Enabled(s, step)
  {
    match step
    case Register(h, ids) =>
      if !Acceptable(s.requests, ids) then s
      else s.(requests := Inserted(s.requests, ids), live := s.live[h := ids])
    case Attach(h, t) =>
      s.(requests := Attached(s.requests, s.live[h], t),
         attached := s.attached + {t},
         pending := if AnyCancelled(s.requests, s.live[h]) then s.pending + multiset{t} else s.pending)
    case Cancel(id) =>
      if id !in s.requests then s
      else
        var entry := s.requests[id];
        s.(requests := s.requests[id := entry.(cancelled := true)],
           pending := if entry.terminator.Some? then s.pending + multiset{entry.terminator.value} else s.pending)
    case TerminateReturns(t) =>
      s.(pending := s.pending - multiset{t}, terminated := s.terminated + {t})
    case Drop(h) =>
      s.(requests := Removed(s.requests, s.live[h]), live := s.live - {h})
  }

  // ----- invariants --------------------------------------------------------

  /** Registered ids are exactly the ids of the live registrations, and no id is
      in two of them. */
  ghost predicate Partitioned(s: State) {
    && (forall h | h in s.live :: Distinct(s.live[h]))
    && (forall h, id | h in s.live && id in s.live[h] :: id in s.requests)
    && (forall g, h, id | g in s.live && h in s.live && id in s.live[g] && id in s.live[h] :: g == h)
    && (forall id | id in s.requests :: exists h :: h in s.live && id in s.live[h])
  }

  /** A cancelled request's current terminator has been terminated, or the call
      is under way. */
  ghost predicate Answered(s: State) {
    forall id | id in s.requests && s.requests[id].cancelled && s.requests[id].terminator.Some? ::
      s.requests[id].terminator.value in s.terminated || s.requests[id].terminator.value in s.pending
  }

  /** Only attached terminators are ever called. */
  ghost predicate Tracked(s: State) {
    && (forall t | t in s.pending :: t in s.attached)
    && s.terminated <= s.attached
    && (forall id | id in s.requests && s.requests[id].terminator.Some? :: s.requests[id].terminator.value in s.attached)
  }

  lemma StepKeepsTracked(s: State, step: Step)
    requires Tracked(s) && Enabled(s, step)
    ensures Tracked(Next(s, step))
  {
  }

  lemma RegisterKeepsPartition(s: State, h: Handle, ids: seq<RequestId>)
    requires Partitioned(s) && h !in s.live
    ensures Partitioned(Next(s, Register(h, ids)))
  {
    if Acceptable(s.requests, ids) {
      hide Enabled;
      var n := Next(s, Register(h, ids));
      assert forall id :: id in n.requests <==> id in s.requests || id in ids;
      forall id | id in n.requests
        ensures exists g :: g in n.live && id in n.live[g]
      {
        if id in ids {
          assert h in n.live && id in n.live[h];
        } else {
          var g :| g in s.live && id in s.live[g];
          assert g in n.live && id in n.live[g];
        }
      }
    }
  }

  lemma DropKeepsPartition(s: State, h: Handle)
    requires Partitioned(s) && h in s.live
    ensures Partitioned(Next(s, Drop(h)))
  {
    var n := Next(s, Drop(h));
    forall id | id in n.requests
      ensures exists g :: g in n.live && id in n.live[g]
    {
      var g :| g in s.live && id in s.live[g];
      assert g in n.live && id in n.live[g];
    }
  }

  lemma StepKeepsPartition(s: State, step: Step)
    requires Partitioned(s) && Enabled(s, step)
    ensures Partitioned(Next(s, step))
  {
    match step
    case Register(h, ids) => RegisterKeepsPartition(s, h, ids);
    case Drop(h) => DropKeepsPartition(s, h);
    case _ => SameIdsKeepPartition(s, Next(s, step));
  }

  lemma SameIdsKeepPartition(s: State, n: State)
    requires Partitioned(s) && n.live == s.live && n.requests.Keys == s.requests.Keys
    ensures Partitioned(n)
  {
    forall id | id in n.requests
      ensures exists h :: h in n.live && id in n.live[h]
    {
      assert id in s.requests;
    }
  }

  lemma AttachAnswers(s: State, h: Handle, t: Terminator)
    requires Answered(s) && Enabled(s, Attach(h, t))
    ensures Answered(Next(s, Attach(h, t)))
  {
    forall id | id in s.live[h] && id in s.requests && s.requests[id].cancelled
      ensures AnyCancelled(s.requests, s.live[h])
    {
      var i :| 0 <= i < |s.live[h]| && s.live[h][i] == id;
    }
  }

  lemma StepKeepsAnswered(s: State, step: Step)
    requires Answered(s) && Enabled(s, step)
    ensures Answered(Next(s, step))
  {
    if step.Attach? {
      AttachAnswers(s, step.handle, step.terminator);
    }
  }

  lemma StepKeepsInv(s: State, step: Step)
    requires Partitioned(s) && Answered(s) && Enabled(s, step)
    ensures Partitioned(Next(s, step)) && Answered(Next(s, step))
  {
    hide Partitioned, Answered, Next;
    StepKeepsPartition(s, step);
    StepKeepsAnswered(s, step);
  }

  predicate Legal(s: State, steps: seq<Step>)
    decreases |steps|
  {
    steps == [] || (Enabled(s, steps[0]) && Legal(Next(s, steps[0]), steps[1..]))
  }

  function After(s: State, steps: seq<Step>): State
    requires Legal(s, steps)
    decreases |steps|
  {
    if steps == [] then s else After(Next(s, steps[0]), steps[1..])
  }

  lemma {:induction false} RunKeepsInv(s: State, steps: seq<Step>)
    requires Partitioned(s) && Answered(s) && Legal(s, steps)
    ensures Partitioned(After(s, steps)) && Answered(After(s, steps))
    decreases |steps|
  {
    if steps != [] {
      StepKeepsInv(s, steps[0]);
      RunKeepsInv(Next(s, steps[0]), steps[1..]);
    }
  }

  lemma {:induction false} RunKeepsTracked(s: State, steps: seq<Step>)
    requires Tracked(s) && Legal(s, steps)
    ensures Tracked(After(s, steps))
    decreases |steps|
  {
    hide Tracked, Next, Enabled;
    if steps != [] {
      StepKeepsTracked(s, steps[0]);
      RunKeepsTracked(Next(s, steps[0]), steps[1..]);
    }
  }

  /** Whatever the interleaving of cancel and attach, once no terminate call is
      under way every cancelled request has been stopped at its current
      terminator. */
  lemma EveryCancelledRequestIsTerminated(steps: seq<Step>, id: RequestId)
    requires Legal(EMPTY, steps)
    requires var s := After(EMPTY, steps);
             && s.pending == multiset{}
             && id in s.requests && s.requests[id].cancelled && s.requests[id].terminator.Some?
    ensures var s := After(EMPTY, steps); s.requests[id].terminator.value in s.terminated
  {
    RunKeepsInv(EMPTY, steps);
  }

  /** That termination is not a stale one: a terminator has no terminate call
      before it is attached, and the attach itself begins one exactly when a
      request of the registration is cancelled already. */
  lemma TerminationFollowsAttachment(steps: seq<Step>, h: Handle, t: Terminator)
    requires Legal(EMPTY, steps) && Enabled(After(EMPTY, steps), Attach(h, t))
    ensures var s := After(EMPTY, steps);
            && t !in s.terminated && t !in s.pending
            && (t in Next(s, Attach(h, t)).pending <==> AnyCancelled(s.requests, s.live[h]))
  {
    RunKeepsTracked(EMPTY, steps);
  }

  /** In every interleaving the ids of the live registrations are disjoint and
      all still registered, so no attach finds one missing. */
  lemma NoIdLeavesEarly(steps: seq<Step>, g: Handle, h: Handle, id: RequestId)
    requires Legal(EMPTY, steps)
    requires var s := After(EMPTY, steps); g in s.live && h in s.live && id in s.live[g]
    ensures var s := After(EMPTY, steps); id in s.requests && (id in s.live[h] ==> g == h)
  {
    RunKeepsInv(EMPTY, steps);
  }

  /** A cancellation is never lost: its registration reports it until dropped. */
  lemma {:induction false} CancellationSticks(s: State, steps: seq<Step>, h: Handle, id: RequestId)
    requires Partitioned(s) && Answered(s) && Legal(s, steps)
    requires h in s.live && id in s.live[h] && s.requests[id].cancelled
    requires Drop(h) !in steps
    ensures var n := After(s, steps); h in n.live && n.live[h] == s.live[h] && AnyCancelled(n.requests, n.live[h])
    decreases |steps|
  {
    if steps == [] {
      var i :| 0 <= i < |s.live[h]| && s.live[h][i] == id;
    } else {
      StepKeepsInv(s, steps[0]);
      KeepsCancelled(s, steps[0], h, id);
      CancellationSticks(Next(s, steps[0]), steps[1..], h, id);
    }
  }

  lemma KeepsCancelled(s: State, step: Step, h: Handle, id: RequestId)
    requires Partitioned(s) && Enabled(s, step) && step != Drop(h)
    requires h in s.live && id in s.live[h] && s.requests[id].cancelled
    ensures var n := Next(s, step);
            h in n.live && n.live[h] == s.live[h] && id in n.requests && n.requests[id].cancelled
  {
    match step
    case Register(_, ids) =>
      if Acceptable(s.requests, ids) {
        assert id !in ids;
      }
    case _ =>
  }

  // ----- terminate calls -----------------------------------------------------

  /** The step begins a call of `t`: its attach finds a cancelled request, or a
      request that has it is cancelled. */
  predicate Begins(s: State, step: Step, t: Terminator)
    requires Enabled(s, step)
  {
    match step
    case Attach(h, attached) => attached == t && AnyCancelled(s.requests, s.live[h])
    case Cancel(id) => id in s.requests && s.requests[id].terminator == Some(t)
    case _ => false
  }

  function CallsBegun(s: State, steps: seq<Step>, t: Terminator): nat
    requires Legal(s, steps)
    decreases |steps|
  {
    if steps == [] then 0 else (if Begins(s, steps[0], t) then 1 else 0) + CallsBegun(Next(s, steps[0]), steps[1..], t)
  }

  /** The calls under way are those begun and not yet returned. */
  lemma {:induction false} PendingIsBegunNotReturned(s: State, steps: seq<Step>, t: Terminator)
    requires Legal(s, steps)
    ensures After(s, steps).pending[t] + multiset(steps)[TerminateReturns(t)] == s.pending[t] + CallsBegun(s, steps, t)
    decreases |steps|
  {
    if steps != [] {
      var step, rest := steps[0], steps[1..];
      assert steps == [step] + rest && multiset(steps) == multiset{step} + multiset(rest);
      PendingStep(s, step, t);
      PendingIsBegunNotReturned(Next(s, step), rest, t);
    }
  }

  lemma PendingStep(s: State, step: Step, t: Terminator)
    requires Enabled(s, step)
    ensures Next(s, step).pending[t] + multiset{step}[TerminateReturns(t)] == s.pending[t] + (if Begins(s, step, t) then 1 else 0)
  {
  }

  // ----- what a registration reports ----------------------------------------

  /** The terminator of the last attach of registration `h`. */
  function LastAttached(steps: seq<Step>, h: Handle): Option<Terminator> {
    if steps == [] then None
    else
      var later := LastAttached(steps[1..], h);
      if later.None? && steps[0].Attach? && steps[0].handle == h then Some(steps[0].terminator) else later
  }

  lemma EntryStep(s: State, step: Step, h: Handle, id: RequestId)
    requires Partitioned(s) && Enabled(s, step) && step != Drop(h)
    requires h in s.live && id in s.live[h]
    ensures var n := Next(s, step);
            && h in n.live && n.live[h] == s.live[h] && id in n.requests
            && (n.requests[id].cancelled <==> s.requests[id].cancelled || step == Cancel(id))
            && n.requests[id].terminator == if step.Attach? && step.handle == h then Some(step.terminator) else s.requests[id].terminator
  {
    if step.Register? && Acceptable(s.requests, step.ids) {
      assert id !in step.ids;
    }
  }

  lemma {:induction false} EntryRun(s: State, steps: seq<Step>, h: Handle, id: RequestId)
    requires Partitioned(s) && Legal(s, steps) && Drop(h) !in steps
    requires h in s.live && id in s.live[h] && id in s.requests
    ensures var n, last := After(s, steps), LastAttached(steps, h);
            && h in n.live && n.live[h] == s.live[h] && id in n.requests
            && (n.requests[id].cancelled <==> s.requests[id].cancelled || Cancel(id) in steps)
            && n.requests[id].terminator == if last.Some? then last else s.requests[id].terminator
    decreases |steps|
  {
    hide Partitioned, Next, Enabled;
    if steps != [] {
      assert steps == [steps[0]] + steps[1..];
      StepKeepsPartition(s, steps[0]);
      EntryStep(s, steps[0], h, id);
      EntryRun(Next(s, steps[0]), steps[1..], h, id);
    }
  }

  /** From its acceptance until it is dropped, a registration reports cancelled
      exactly when one of its ids was cancelled since, and each of its ids has the
      terminator of its last attach, and none before the first. */
  lemma RegistrationFollowsItsSteps(before: seq<Step>, h: Handle, ids: seq<RequestId>, steps: seq<Step>)
    requires Legal(EMPTY, before) && Enabled(After(EMPTY, before), Register(h, ids))
    requires Acceptable(After(EMPTY, before).requests, ids)
    requires Legal(Next(After(EMPTY, before), Register(h, ids)), steps) && Drop(h) !in steps
    ensures var n := After(Next(After(EMPTY, before), Register(h, ids)), steps);
            && h in n.live && n.live[h] == ids
            && (forall id | id in ids :: id in n.requests && n.requests[id].terminator == LastAttached(steps, h))
            && (forall id | id in ids :: n.requests[id].cancelled <==> Cancel(id) in steps)
            && (AnyCancelled(n.requests, ids) <==> exists id :: id in ids && Cancel(id) in steps)
  {
    RunKeepsInv(EMPTY, before);
    hide Partitioned, Answered, Next, Enabled, Legal, After, Acceptable, AnyCancelled;
    var begun := Next(After(EMPTY, before), Register(h, ids));
    var n := After(begun, steps);
    forall id | id in ids
      ensures h in n.live && n.live[h] == ids && id in n.requests
      ensures n.requests[id].cancelled <==> Cancel(id) in steps
      ensures n.requests[id].terminator == LastAttached(steps, h)
    {
      OneIdFollows(After(EMPTY, before), h, ids, steps, id);
    }
    NotEmpty(After(EMPTY, before), ids);
    assert ids[0] in ids;
    AnyIs(n.requests, ids);
  }

  lemma NotEmpty(s: State, ids: seq<RequestId>)
    requires Acceptable(s.requests, ids)
    ensures ids != []
  {
  }

  lemma OneIdFollows(s: State, h: Handle, ids: seq<RequestId>, steps: seq<Step>, id: RequestId)
    requires Partitioned(s) && Enabled(s, Register(h, ids)) && Acceptable(s.requests, ids) && id in ids
    requires Legal(Next(s, Register(h, ids)), steps) && Drop(h) !in steps
    ensures var n := After(Next(s, Register(h, ids)), steps);
            && h in n.live && n.live[h] == ids && id in n.requests
            && n.requests[id] == Entry(Cancel(id) in steps, LastAttached(steps, h))
  {
    var begun := Next(s, Register(h, ids));
    StepKeepsPartition(s, Register(h, ids));
    assert begun.requests[id] == Entry(false, None);
    EntryRun(begun, steps, h, id);
  }

  lemma AnyIs(requests: map<RequestId, Entry>, ids: seq<RequestId>)
    ensures AnyCancelled(requests, ids) <==> exists id :: id in ids && id in requests && requests[id].cancelled
  {
    if id :| id in ids && id in requests && requests[id].cancelled {
      var i :| 0 <= i < |ids| && ids[i] == id;
    }
  }

  // ----- the registry object -----------------------------------------------

  class ActiveRequests {
    var requests: map<RequestId, Entry>
    ghost var state: State

    ghost predicate Valid()
      reads this
    {
      state.requests == requests && Partitioned(state) && Answered(state)
    }

    constructor ()
      ensures Valid() && state == EMPTY
    {
      requests := map[];
      state := EMPTY;
    }

    /** The first pass of `register`, in the source's order of checks. */
    method CheckIds(ids: seq<RequestId>) returns (error: Option<Error>)
      ensures error.None? <==> Acceptable(requests, ids)
      ensures error.None? <==> ids != [] && (forall i, j | 0 <= i < j < |ids| :: ids[i] != ids[j]) && forall id | id in ids :: id !in requests
      ensures error.Some? ==>
          match error.value
          case NoRequestId => ids == []
          case RepeatedId(id) => exists i, j | 0 <= i < j < |ids| :: ids[i] == ids[j] == id
          case AlreadyActive(id) => id in ids && id in requests
          case LeftRegistry(_) => false
    {
      if ids == [] {
        return Some(NoRequestId);
      }
      var seen: set<RequestId> := {};
      for i := 0 to |ids|
        invariant forall j | 0 <= j < i :: ids[j] in seen
        invariant forall id | id in seen :: exists j | 0 <= j < i :: ids[j] == id
        invariant forall j, k | 0 <= j < k < i :: ids[j] != ids[k]
        invariant forall j | 0 <= j < i :: ids[j] !in requests
      {
        if ids[i] in seen {
          return Some(RepeatedId(ids[i]));
        }
        seen := seen + {ids[i]};
        if ids[i] in requests {
          return Some(AlreadyActive(ids[i]));
        }
      }
      return None;
    }

    /** Accepts a batch of new, distinct ids as a whole or not at all. */
    method Register(ids: seq<RequestId>, ghost h: Handle) returns (error: Option<Error>)
      requires Valid() && h !in state.live
      modifies this
      ensures Valid() && state == Next(old(state), Step.Register(h, ids))
      ensures error.None? <==> Acceptable(old(requests), ids)
      ensures error.Some? ==> requests == old(requests)
      ensures error.None? ==> requests.Keys == old(requests).Keys + set id | id in ids
      ensures error.None? ==> forall id | id in requests :: requests[id] == if id in ids then Entry(false, None) else old(requests)[id]
    {
      StepKeepsInv(state, Step.Register(h, ids));
      error := CheckIds(ids);
      if error.Some? {
        return;
      }
      InsertAll(ids);
      state := Next(state, Step.Register(h, ids));
    }

    method InsertAll(ids: seq<RequestId>)
      modifies this`requests
      ensures requests == Inserted(old(requests), ids)
    {
      ghost var before := requests;
      for i := 0 to |ids|
        invariant requests == Inserted(before, ids[..i])
      {
        requests := requests[ids[i] := Entry(false, None)];
        assert ids[..i + 1] == ids[..i] + [ids[i]];
      }
      assert ids[..|ids|] == ids;
    }

    /** Attaches to every id of the registration; `terminate` says whether the
        caller must now terminate at once. It never misses an id. */
    method Attach(ids: seq<RequestId>, terminator: Terminator, ghost h: Handle) returns (r: Result<bool, Error>)
      requires Valid() && h in state.live && state.live[h] == ids && terminator !in state.attached
      modifies this
      ensures Valid() && state == Next(old(state), Step.Attach(h, terminator))
      ensures r == Ok(AnyCancelled(old(requests), ids))
      ensures requests.Keys == old(requests).Keys
      ensures forall id | id in requests ::
          requests[id] == if id in ids then Entry(old(requests)[id].cancelled, Some(terminator)) else old(requests)[id]
    {
      StepKeepsInv(state, Step.Attach(h, terminator));
      assert forall id | id in ids :: id in requests;
      r := AttachAll(ids, terminator);
      state := Next(state, Step.Attach(h, terminator));
    }

    method AttachAll(ids: seq<RequestId>, terminator: Terminator) returns (r: Result<bool, Error>)
      modifies this`requests
      ensures r.Ok? <==> forall id | id in ids :: id in old(requests)
      ensures r.Ok? ==> requests == Attached(old(requests), ids, terminator)
      ensures r.Ok? ==> r.value == AnyCancelled(old(requests), ids)
    {
      ghost var before := requests;
      var shouldTerminate := false;
      for i := 0 to |ids|
        invariant requests == Attached(before, ids[..i], terminator)
        invariant shouldTerminate == AnyCancelled(before, ids[..i])
        invariant forall id | id in ids[..i] :: id in before
      {
        if ids[i] !in requests {
          return Err(LeftRegistry(ids[i]));
        }
        shouldTerminate := shouldTerminate || requests[ids[i]].cancelled;
        requests := requests[ids[i] := requests[ids[i]].(terminator := Some(terminator))];
        assert ids[..i + 1] == ids[..i] + [ids[i]];
        CancelledAppend(before, ids[..i], ids[i]);
      }
      assert ids[..|ids|] == ids;
      return Ok(shouldTerminate);
    }

    /** The caller terminates the returned terminator after unlocking. */
    method Cancel(id: RequestId) returns (terminator: Option<Terminator>)
      requires Valid()
      modifies this
      ensures Valid() && state == Next(old(state), Step.Cancel(id))
      ensures terminator == if id in old(requests) then old(requests)[id].terminator else None
      ensures requests == if id in old(requests) then old(requests)[id := Entry(true, terminator)] else old(requests)
    {
      StepKeepsInv(state, Step.Cancel(id));
      state := Next(state, Step.Cancel(id));
      if id !in requests {
        return None;
      }
      terminator := requests[id].terminator;
      requests := requests[id := requests[id].(cancelled := true)];
    }

    method IsCancelled(ids: seq<RequestId>) returns (cancelled: bool)
      ensures cancelled == AnyCancelled(requests, ids)
    {
      for i := 0 to |ids|
        invariant !AnyCancelled(requests, ids[..i])
      {
        if ids[i] in requests && requests[ids[i]].cancelled {
          return true;
        }
        assert ids[..i + 1] == ids[..i] + [ids[i]];
      }
      assert ids[..|ids|] == ids;
      return false;
    }

    /** Dropping a registration removes its ids and no other. */
    method DropRegistration(ids: seq<RequestId>, ghost h: Handle)
      requires Valid() && h in state.live && state.live[h] == ids
      modifies this
      ensures Valid() && state == Next(old(state), Step.Drop(h))
      ensures forall id :: id in requests <==> id in old(requests) && id !in ids
      ensures forall id | id in requests :: requests[id] == old(requests)[id]
    {
      StepKeepsInv(state, Step.Drop(h));
      RemoveAll(ids);
      state := Next(state, Step.Drop(h));
    }

    method RemoveAll(ids: seq<RequestId>)
      modifies this`requests
      ensures requests == Removed(old(requests), ids)
    {
      ghost var before := requests;
      for i := 0 to |ids|
        invariant requests == Removed(before, ids[..i])
      {
        requests := requests - {ids[i]};
        assert ids[..i + 1] == ids[..i] + [ids[i]];
      }
      assert ids[..|ids|] == ids;
    }
  }
}
