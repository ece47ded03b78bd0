/** The thread-local allocation context: scopes replace it on entry and put the
    previous one back when dropped. */
module AllocationScopes {
  import opened Common

  datatype Kind = Model | Replica | Request | RequestBatch

  datatype Context = Context(deviceId: int, client: nat, isWeights: bool, kind: Kind, scopeId: nat, requestIds: seq<nat>)

  /** The scope kind follows from the class and the number of requests. */
  function KindFor(isWeights: bool, requestIds: seq<nat>): Kind {
    if |requestIds| == 0 then (if isWeights then Model else Replica)
    else if |requestIds| == 1 then Request
    else RequestBatch
  }

  /** Scope ids come from a counter that never wraps. */
  class AllocationScopeBridge {
    const deviceId: int
    const client: nat
    var nextScopeId: nat

    constructor (deviceId: int, client: nat)
      ensures nextScopeId == 1 && this.deviceId == deviceId && this.client == client
    {
      this.deviceId := deviceId;
      this.client := client;
      nextScopeId := 1;
    }

    method EnterAdapterScope(thread: ThreadContext, isWeights: bool, requestIds: seq<nat>)
      returns (entered: Option<Guard>)
      requires thread.Valid() && nextScopeId <= U64_MAX
      modifies this, thread
      ensures thread.Valid()
      ensures nextScopeId <= U64_MAX && nextScopeId >= old(nextScopeId)
      ensures old(nextScopeId) < U64_MAX ==>
          && nextScopeId == old(nextScopeId) + 1
          && var context := Context(deviceId, client, isWeights, KindFor(isWeights, requestIds), old(nextScopeId), requestIds);
             thread.machine == Step(old(thread.machine), Entered(context))
      ensures entered.Some? <==> old(nextScopeId) < U64_MAX && deviceId >= 0 && 0 !in requestIds
      ensures entered.Some? ==>
          && entered.value.previous == old(thread.active)
          && thread.active == Some(Context(deviceId, client, isWeights, KindFor(isWeights, requestIds), old(nextScopeId), requestIds))
      ensures entered.Some? ==> var kind := thread.active.value.kind;
          && (kind == Model <==> requestIds == [] && isWeights)
          && (kind == Replica <==> requestIds == [] && !isWeights)
          && (kind == Request <==> |requestIds| == 1)
          && (kind == RequestBatch <==> |requestIds| >= 2)
      ensures entered.None? ==> thread.active == old(thread.active) && thread.machine == old(thread.machine)
    {
      if nextScopeId + 1 > U64_MAX {
        return None;
      }
      var scopeId := nextScopeId;
      nextScopeId := nextScopeId + 1;
      entered := thread.Enter(Context(deviceId, client, isWeights, KindFor(isWeights, requestIds), scopeId, requestIds));
    }
  }

  datatype Guard = Guard(previous: Option<Context>)

  predicate WellFormed(context: Context) {
    context.deviceId >= 0 && 0 !in context.requestIds
  }

  /** The thread-local variable. Its machine also knows the guards that are alive
      and the context of every allocation so far. */
  class ThreadContext {
    var active: Option<Context>
    ghost var machine: Machine

    ghost predicate Valid()
      reads this
    {
      machine.active == active
    }

    constructor ()
      ensures Valid() && active == None && machine == Machine(None, [], [])
    {
      active := None;
      machine := Machine(None, [], []);
    }

    /** A refused entry changes nothing. */
    method Enter(context: Context) returns (guard: Option<Guard>)
      requires Valid()
      modifies this
      ensures Valid() && machine == Step(old(machine), Entered(context))
      ensures guard.Some? <==> WellFormed(context)
      ensures guard.Some? ==> guard.value == Guard(old(active)) && active == Some(context)
      ensures guard.Some? ==> machine.guards == old(machine.guards) + [guard.value.previous]
      ensures guard.None? ==> active == old(active) && machine == old(machine)
    {
      machine := Step(machine, Entered(context));
      if context.deviceId < 0 || 0 in context.requestIds {
        return None;
      }
      guard := Some(Guard(active));
      active := Some(context);
    }

    /** The scope an allocation is charged to. */
    method Current() returns (context: Option<Context>)
      requires Valid()
      modifies this`machine
      ensures Valid() && machine == Step(old(machine), Allocated)
      ensures context == active
    {
      machine := Step(machine, Allocated);
      context := active;
    }

    /** Any guard restores what it holds; the innermost one, whose turn it is in
        well-nested code, is one step of the machine. */
    method Drop(guard: Guard)
      requires Valid()
      modifies this
      ensures Valid() && active == guard.previous
      ensures old(IsInnermost(guard)) ==> machine == Step(old(machine), Dropped)
    {
      machine := if IsInnermost(guard) then Step(machine, Dropped) else machine.(active := guard.previous);
      active := guard.previous;
    }

    ghost predicate IsInnermost(guard: Guard)
      reads this
    {
      machine.guards != [] && machine.guards[|machine.guards| - 1] == guard.previous
    }
  }

  // ----- block-structured code ----------------------------------------------

  /** Code whose scopes are guards of enclosing blocks. `refused` runs instead of
      the body when the entry is refused. */
  datatype Code =
    | Done
    | Allocate(rest: Code)
    | Scoped(context: Context, body: Code, refused: Code, rest: Code)

  datatype Event = Entered(context: Context) | Allocated | Dropped

  /** What the thread does, in order. */
  function Trace(code: Code): seq<Event> {
    match code
    case Done => []
    case Allocate(rest) => [Allocated] + Trace(rest)
    case Scoped(context, body, refused, rest) =>
      if WellFormed(context) then [Entered(context)] + (Trace(body) + ([Dropped] + Trace(rest)))
      else [Entered(context)] + (Trace(refused) + Trace(rest))
  }

  /** The thread-local and its guards: the active context, the ones guards hold,
      and the context each allocation found. */
  datatype Machine = Machine(active: Option<Context>, guards: seq<Option<Context>>, charged: seq<Option<Context>>)

  function Step(m: Machine, event: Event): Machine {
    match event
    case Entered(context) =>
      if WellFormed(context) then m.(active := Some(context), guards := m.guards + [m.active]) else m
    case Allocated => m.(charged := m.charged + [m.active])
    case Dropped =>
      if m.guards == [] then m
      else m.(active := m.guards[|m.guards| - 1], guards := m.guards[..|m.guards| - 1])
  }

  function Run(m: Machine, events: seq<Event>): Machine
    decreases |events|
  {
    if events == [] then m else Run(Step(m, events[0]), events[1..])
  }

  /** The innermost enclosing scope of every allocation, read off the code. */
  function Innermost(code: Code, enclosing: Option<Context>): seq<Option<Context>> {
    match code
    case Done => []
    case Allocate(rest) => [enclosing] + Innermost(rest, enclosing)
    case Scoped(context, body, refused, rest) =>
      (if WellFormed(context) then Innermost(body, Some(context)) else Innermost(refused, enclosing))
      + Innermost(rest, enclosing)
  }

  lemma {:induction false} RunAppend(m: Machine, a: seq<Event>, b: seq<Event>)
    ensures Run(m, a + b) == Run(Run(m, a), b)
    decreases |a|
  {
    if a == [] {
      assert a + b == b;
    } else {
      assert (a + b)[0] == a[0] && (a + b)[1..] == a[1..] + b;
      RunAppend(Step(m, a[0]), a[1..], b);
    }
  }

  /** Whatever ran before it, well-nested code charges every allocation to its
      innermost enclosing scope that was not refused, and leaves context and guards
      as it found them. */
  lemma {:induction false} ScopesNest(code: Code, m: Machine)
    ensures Run(m, Trace(code)) == Machine(m.active, m.guards, m.charged + Innermost(code, m.active))
    decreases code
  {
    match code
    case Done =>
      assert m.charged + [] == m.charged;
    case Allocate(rest) =>
      var next := m.(charged := m.charged + [m.active]);
      assert ([Allocated] + Trace(rest))[1..] == Trace(rest);
      ScopesNest(rest, next);
      assert m.charged + [m.active] + Innermost(rest, m.active) == m.charged + ([m.active] + Innermost(rest, m.active));
    case Scoped(context, body, refused, rest) =>
      hide WellFormed;
      var inside := Step(m, Entered(context));
      if WellFormed(context) {
        ScopesNest(body, inside);
        RunAround(m, Entered(context), Trace(body), [Dropped] + Trace(rest));
        var after := m.(charged := m.charged + Innermost(body, Some(context)));
        assert inside.guards[..|m.guards|] == m.guards;
        assert ([Dropped] + Trace(rest))[1..] == Trace(rest);
        ScopesNest(rest, after);
        Regroup(m.charged, Innermost(body, Some(context)), Innermost(rest, m.active));
      } else {
        ScopesNest(refused, m);
        RunAround(m, Entered(context), Trace(refused), Trace(rest));
        ScopesNest(rest, m.(charged := m.charged + Innermost(refused, m.active)));
        Regroup(m.charged, Innermost(refused, m.active), Innermost(rest, m.active));
      }
  }

  lemma RunAround(m: Machine, event: Event, a: seq<Event>, b: seq<Event>)
    ensures Run(m, [event] + (a + b)) == Run(Run(Step(m, event), a), b)
  {
    assert ([event] + (a + b))[1..] == a + b;
    RunAppend(Step(m, event), a, b);
  }

  lemma Regroup<T>(a: seq<T>, b: seq<T>, c: seq<T>)
    ensures a + b + c == a + (b + c)
  {
  }
}
