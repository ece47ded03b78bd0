/** The per-device allocation ledger: which clients are registered, which
    allocations are live, and for whom. The hosts that grant and take back
    memory are outside; what they answer is part of each step. */
module GovernedAllocator {
  import opened Common

  type Host = nat     // one host callback table
  type Pointer = nat

  datatype ClientKey = ClientKey(modelId: nat, replicaId: nat)

  /** What the host says it granted. */
  datatype Allocation = Allocation(wellSized: bool, reserved: nat, id: nat, pointer: Pointer, grantedBytes: nat)

  datatype Live = Live(allocation: Allocation, host: Host, client: ClientKey)

  /** One allocation as its host knows it. */
  datatype Grant = Grant(host: Host, id: nat)

  const ALIGNMENT: nat := 256

  predicate Acceptable(a: Allocation, bytes: nat) {
    && a.wellSized && a.reserved == 0 && a.id != 0 && a.pointer != 0
    && a.grantedBytes >= bytes
    && a.pointer % ALIGNMENT == 0
  }

  datatype State = State(
    registered: bool,                 // ORT holds this device's allocator
    clients: map<ClientKey, Host>,
    live: map<Pointer, Live>,
    granted: set<Grant>,              // every grant a host ever made
    outstanding: set<Grant>,          // granted and not taken back, by the hosts' books
    freed: multiset<Grant>)           // frees the hosts accepted

  datatype Reply = Rejected | Granted(allocation: Allocation)

  datatype Step =
    | Register(client: ClientKey, host: Host, ortAccepts: bool)
    | Allocate(scope: Option<ClientKey>, bytes: nat, reply: Reply, freeAccepted: bool)
    | Free(pointer: Pointer, accepted: bool)
    | Unregister(client: ClientKey, refused: set<Grant>, ortReleases: bool)

  const EMPTY := State(false, map[], map[], {}, {}, multiset{})

  function GrantOf(l: Live): Grant {
    Grant(l.host, l.allocation.id)
  }

  function Grants(live: map<Pointer, Live>): set<Grant> {
    set p | p in live :: GrantOf(live[p])
  }

  function LiveOf(live: map<Pointer, Live>, client: ClientKey): map<Pointer, Live> {
    map p | p in live && live[p].client == client :: live[p]
  }

  function LiveOfOthers(live: map<Pointer, Live>, client: ClientKey): map<Pointer, Live> {
    map p | p in live && live[p].client != client :: live[p]
  }

  /** A host that accepts a free takes the allocation off its books. */
  function TakeBack(s: State, grants: set<Grant>): State {
    s.(outstanding := s.outstanding - grants, freed := s.freed + multiset(grants))
  }

  /** Hosts issue fresh identities. */
  predicate Enabled(s: State, step: Step) {
    match step
    case Allocate(Some(client), _, Granted(a), _) =>
      client in s.clients ==> Grant(s.clients[client], a.id) !in s.granted
    case _ => true
  }

  function Next(s: State, step: Step): State {
    match step
    case Register(client, host, ortAccepts) =>
      if s.registered then
        if client in s.clients then s else s.(clients := s.clients[client := host])
      else if !ortAccepts then s
      else s.(registered := true, clients := map[client := host], live := map[])
    case Allocate(client, bytes, reply, freeAccepted) =>
      if client.None? || client.value !in s.clients || reply.Rejected? then s
      else
        var host, a := s.clients[client.value], reply.allocation;
        var grant := Grant(host, a.id);
        var given := s.(granted := s.granted + {grant}, outstanding := s.outstanding + {grant});
        if !Acceptable(a, bytes) || a.pointer in s.live then
          if freeAccepted then TakeBack(given, {grant}) else given
        else given.(live := s.live[a.pointer := Live(a, host, client.value)])
    case Free(pointer, accepted) =>
      if pointer !in s.live || !accepted then s
      else TakeBack(s, {GrantOf(s.live[pointer])}).(live := s.live - {pointer})
    case Unregister(client, refused, ortReleases) =>
      if !s.registered then s
      else
        var reclaimed := TakeBack(s, Grants(LiveOf(s.live, client)) - refused);
        var remaining := s.clients - {client};
        reclaimed.(
          live := LiveOfOthers(s.live, client),
          clients := remaining,
          registered := client !in s.clients || remaining != map[] || !ortReleases)
  }

  // ----- the ledger invariant ----------------------------------------------

  /** Every live entry belongs to a registered client and carries its host. */
  ghost predicate Attributed(s: State) {
    && (forall p | p in s.live :: s.live[p].client in s.clients && s.clients[s.live[p].client] == s.live[p].host)
    && (forall p | p in s.live :: s.live[p].allocation.pointer == p != 0)
    && (!s.registered ==> s.clients == map[])
  }

  /** Live entries are distinct grants still on their hosts' books, and every grant
      is on them or was freed, exactly once. */
  ghost predicate Backed(s: State) {
    && (forall p, q | p in s.live && q in s.live && p != q :: GrantOf(s.live[p]) != GrantOf(s.live[q]))
    && (forall p | p in s.live :: GrantOf(s.live[p]) in s.outstanding)
    && s.outstanding <= s.granted
    && (forall g | g in s.freed :: g in s.granted && g !in s.outstanding && s.freed[g] == 1)
    && (forall g | g in s.granted :: g in s.outstanding || g in s.freed)
  }

  /** Nothing is on the hosts' books that is not live here. */
  ghost predicate NoLeak(s: State) {
    forall g | g in s.outstanding :: g in Grants(s.live)
  }

  lemma StepKeepsAttribution(s: State, step: Step)
    requires Attributed(s) && Enabled(s, step)
    ensures Attributed(Next(s, step))
  {
    var n := Next(s, step);
    match step
    case Register(client, host, _) =>
      if !s.registered {
        assert s.live == map[] by { NoClientsNoLive(s); }
      }
    case Unregister(client, _, _) =>
      if s.registered && !n.registered {
        assert n.clients == map[];
      }
    case _ =>
  }

  /** The empty client map on which unregistration relies. */
  lemma NoClientsNoLive(s: State)
    requires Attributed(s) && s.clients == map[]
    ensures s.live == map[]
  {
    assert forall p :: p !in s.live;
  }

  lemma TakeBackKeepsBooks(s: State, grants: set<Grant>)
    requires s.outstanding <= s.granted && grants <= s.outstanding
    requires forall g | g in s.freed :: g in s.granted && g !in s.outstanding && s.freed[g] == 1
    requires forall g | g in s.granted :: g in s.outstanding || g in s.freed
    ensures var n := TakeBack(s, grants);
            && n.outstanding <= n.granted
            && (forall g | g in n.granted :: g in n.outstanding || g in n.freed)
            && (forall g | g in n.freed :: g in n.granted && g !in n.outstanding && n.freed[g] == 1)
  {
    var n := TakeBack(s, grants);
    forall g | g in n.freed
      ensures g in n.granted && g !in n.outstanding && n.freed[g] == 1
    {
      assert multiset(grants)[g] == if g in grants then 1 else 0;
      assert n.freed[g] == s.freed[g] + multiset(grants)[g];
    }
  }

  /** A fresh grant joins the books. */
  lemma GrantKeepsBacking(s: State, grant: Grant)
    requires Backed(s) && grant !in s.granted
    ensures Backed(s.(granted := s.granted + {grant}, outstanding := s.outstanding + {grant}))
    ensures forall p | p in s.live :: GrantOf(s.live[p]) != grant
  {
  }

  /** Booked but unused, it may become live at a free pointer. */
  lemma EntryKeepsBacking(s: State, pointer: Pointer, entry: Live)
    requires Backed(s) && pointer !in s.live && GrantOf(entry) in s.outstanding
    requires forall p | p in s.live :: GrantOf(s.live[p]) != GrantOf(entry)
    ensures Backed(s.(live := s.live[pointer := entry]))
  {
  }

  /** Or it may be given straight back. */
  lemma GiveBackKeepsBacking(s: State, grant: Grant)
    requires Backed(s) && grant in s.outstanding && forall p | p in s.live :: GrantOf(s.live[p]) != grant
    ensures Backed(TakeBack(s, {grant}))
  {
    TakeBackKeepsBooks(s, {grant});
  }

  lemma AllocateKeepsBacking(s: State, step: Step)
    requires Backed(s) && Enabled(s, step) && step.Allocate?
    ensures Backed(Next(s, step))
  {
    hide Acceptable, Backed, TakeBack;
    if step.scope.Some? && step.scope.value in s.clients && step.reply.Granted? {
      var host, a := s.clients[step.scope.value], step.reply.allocation;
      var grant := Grant(host, a.id);
      var given := s.(granted := s.granted + {grant}, outstanding := s.outstanding + {grant});
      GrantKeepsBacking(s, grant);
      if a.pointer !in s.live {
        EntryKeepsBacking(given, a.pointer, Live(a, host, step.scope.value));
      }
      GiveBackKeepsBacking(given, grant);
    }
  }

  lemma FreeKeepsBacking(s: State, pointer: Pointer, accepted: bool)
    requires Backed(s)
    ensures Backed(Next(s, Free(pointer, accepted)))
  {
    if pointer in s.live && accepted {
      TakeBackKeepsBooks(s, {GrantOf(s.live[pointer])});
    }
  }

  lemma UnregisterKeepsBacking(s: State, client: ClientKey, refused: set<Grant>, ortReleases: bool)
    requires Backed(s)
    ensures Backed(Next(s, Unregister(client, refused, ortReleases)))
  {
    var grants := Grants(LiveOf(s.live, client)) - refused;
    OthersKeepGrants(s, client);
    TakeBackKeepsBooks(s, grants);
  }

  /** No other client's grant is reclaimed. */
  lemma OthersKeepGrants(s: State, client: ClientKey)
    requires Backed(s)
    ensures Grants(LiveOf(s.live, client)) <= s.outstanding
    ensures forall p | p in LiveOfOthers(s.live, client) :: GrantOf(s.live[p]) !in Grants(LiveOf(s.live, client))
  {
  }

  lemma StepKeepsBacking(s: State, step: Step)
    requires Attributed(s) && Backed(s) && Enabled(s, step)
    ensures Backed(Next(s, step))
  {
    match step
    case Register(_, _, _) =>
    case Allocate(_, _, _, _) => AllocateKeepsBacking(s, step);
    case Free(pointer, accepted) => FreeKeepsBacking(s, pointer, accepted);
    case Unregister(client, refused, ortReleases) => UnregisterKeepsBacking(s, client, refused, ortReleases);
  }

  // ----- when the ledger matches the hosts' books ---------------------------

  /** The frees whose status the code ignores: of an unusable grant, and of what
      a client leaves behind. */
  ghost predicate IgnoresRefusal(s: State, step: Step) {
    match step
    case Allocate(client, bytes, Granted(a), freeAccepted) =>
      && client.Some? && client.value in s.clients
      && (!Acceptable(a, bytes) || a.pointer in s.live)
      && !freeAccepted
    case Unregister(client, refused, _) =>
      s.registered && exists p :: p in s.live && s.live[p].client == client && GrantOf(s.live[p]) in refused
    case _ => false
  }

  /** A step keeps the ledger equal to the hosts' books exactly when it does not
      ignore a refused free. A free refused in `free_scoped` does no harm: its
      entry is put back. */
  lemma LeaksIffIgnored(s: State, step: Step)
    requires Attributed(s) && Backed(s) && NoLeak(s) && Enabled(s, step)
    ensures NoLeak(Next(s, step)) <==> !IgnoresRefusal(s, step)
  {
    match step
    case Register(client, _, _) =>
      if !s.registered { NoClientsNoLive(s); }
    case Allocate(client, bytes, reply, freeAccepted) => AllocateLeaksIff(s, client, bytes, reply, freeAccepted);
    case Free(pointer, accepted) => FreeDoesNotLeak(s, pointer, accepted);
    case Unregister(client, refused, ortReleases) => UnregisterLeaksIff(s, client, refused, ortReleases);
  }

  lemma AllocateLeaksIff(s: State, client: Option<ClientKey>, bytes: nat, reply: Reply, freeAccepted: bool)
    requires var step := Allocate(client, bytes, reply, freeAccepted);
             Attributed(s) && Backed(s) && NoLeak(s) && Enabled(s, step)
    ensures var step := Allocate(client, bytes, reply, freeAccepted);
            NoLeak(Next(s, step)) <==> !IgnoresRefusal(s, step)
  {
    var step := Allocate(client, bytes, reply, freeAccepted);
    if client.Some? && client.value in s.clients && reply.Granted? {
      var n, a := Next(s, step), reply.allocation;
      var grant := Grant(s.clients[client.value], a.id);
      if IgnoresRefusal(s, step) {
        assert grant in n.outstanding && grant !in Grants(n.live);
      } else {
        forall g | g in n.outstanding ensures g in Grants(n.live) {
          if g == grant {
            assert GrantOf(n.live[a.pointer]) == grant;
          } else {
            var p :| p in s.live && GrantOf(s.live[p]) == g;
            assert p in n.live && n.live[p] == s.live[p];
          }
        }
      }
    }
  }

  lemma FreeDoesNotLeak(s: State, pointer: Pointer, accepted: bool)
    requires NoLeak(s)
    ensures NoLeak(Next(s, Free(pointer, accepted)))
  {
    var n := Next(s, Free(pointer, accepted));
    forall g | g in n.outstanding ensures g in Grants(n.live) {
      var p :| p in s.live && GrantOf(s.live[p]) == g;
      assert p in n.live;
    }
  }

  lemma UnregisterLeaksIff(s: State, client: ClientKey, refused: set<Grant>, ortReleases: bool)
    requires Backed(s) && NoLeak(s)
    ensures var step := Unregister(client, refused, ortReleases);
            NoLeak(Next(s, step)) <==> !IgnoresRefusal(s, step)
  {
    var step := Unregister(client, refused, ortReleases);
    var n := Next(s, step);
    if IgnoresRefusal(s, step) {
      var p :| p in s.live && s.live[p].client == client && GrantOf(s.live[p]) in refused;
      assert GrantOf(s.live[p]) in n.outstanding;
      assert GrantOf(s.live[p]) !in Grants(n.live);
    } else if s.registered {
      forall p | p in s.live && s.live[p].client == client
        ensures GrantOf(s.live[p]) !in n.outstanding
      {
        assert p in LiveOf(s.live, client);
      }
      forall g | g in n.outstanding ensures g in Grants(n.live) {
        var p :| p in s.live && GrantOf(s.live[p]) == g;
        assert p in n.live;
      }
    }
  }

  // ----- runs --------------------------------------------------------------

  predicate Legal(s: State, steps: seq<Step>)
    decreases |steps|
  {
    steps == [] || (Enabled(s, steps[0]) && Legal(Next(s, steps[0]), steps[1..]))
  }

  function After(s: State, steps: seq<Step>): State
    decreases |steps|
  {
    if steps == [] then s else After(Next(s, steps[0]), steps[1..])
  }

  ghost predicate FreesHonoured(s: State, steps: seq<Step>)
    decreases |steps|
  {
    steps == [] || (!IgnoresRefusal(s, steps[0]) && FreesHonoured(Next(s, steps[0]), steps[1..]))
  }

  lemma {:induction false} RunKeepsLedger(s: State, steps: seq<Step>)
    requires Attributed(s) && Backed(s) && Legal(s, steps)
    ensures Attributed(After(s, steps)) && Backed(After(s, steps))
    decreases |steps|
  {
    hide Attributed, Backed, Next, Enabled;
    if steps != [] {
      StepKeepsAttribution(s, steps[0]);
      StepKeepsBacking(s, steps[0]);
      RunKeepsLedger(Next(s, steps[0]), steps[1..]);
    }
  }

  lemma EmptyLedger()
    ensures Attributed(EMPTY) && Backed(EMPTY) && NoLeak(EMPTY)
  {
  }

  /** In every reachable state, whatever the hosts answer: live entries belong
      to registered clients and carry their hosts, each is still on its host's
      books, nothing was freed twice, and without clients nothing is live. */
  lemma LedgerIsSound(steps: seq<Step>)
    requires Legal(EMPTY, steps)
    ensures var s := After(EMPTY, steps);
            && Attributed(s) && Backed(s)
            && (s.clients == map[] ==> s.live == map[])
            && (!s.registered ==> s.live == map[])
  {
    EmptyLedger();
    RunKeepsLedger(EMPTY, steps);
    if After(EMPTY, steps).clients == map[] {
      NoClientsNoLive(After(EMPTY, steps));
    }
  }

  /** A grant that leaked is never returned: hosts reissue no identity, and the
      code frees only what it holds. */
  lemma LeakStays(s: State, step: Step, g: Grant)
    requires Backed(s) && Enabled(s, step)
    requires g in s.outstanding && g !in Grants(s.live)
    ensures g in Next(s, step).outstanding && g !in Grants(Next(s, step).live)
  {
    match step
    case Allocate(client, bytes, reply, freeAccepted) => AllocateKeepsLeak(s, step, g);
    case Unregister(client, refused, _) =>
      assert forall p | p in LiveOf(s.live, client) :: p in s.live;
    case _ =>
  }

  lemma AllocateKeepsLeak(s: State, step: Step, g: Grant)
    requires Backed(s) && Enabled(s, step) && step.Allocate?
    requires g in s.outstanding && g !in Grants(s.live)
    ensures g in Next(s, step).outstanding && g !in Grants(Next(s, step).live)
  {
    if step.scope.Some? && step.scope.value in s.clients && step.reply.Granted? {
      assert g != Grant(s.clients[step.scope.value], step.reply.allocation.id);
    }
  }

  lemma {:induction false} LeakStaysForever(s: State, steps: seq<Step>, g: Grant)
    requires Attributed(s) && Backed(s) && Legal(s, steps)
    requires g in s.outstanding && g !in Grants(s.live)
    ensures !NoLeak(After(s, steps))
    decreases |steps|
  {
    hide Attributed, Backed, Next, Enabled, Grants;
    if steps != [] {
      StepKeepsAttribution(s, steps[0]);
      StepKeepsBacking(s, steps[0]);
      LeakStays(s, steps[0], g);
      LeakStaysForever(Next(s, steps[0]), steps[1..], g);
    }
  }

  /** A whole run keeps the match exactly when it ignores no refused free. */
  lemma {:induction false} RunLeaksIffIgnored(s: State, steps: seq<Step>)
    requires Attributed(s) && Backed(s) && NoLeak(s) && Legal(s, steps)
    ensures NoLeak(After(s, steps)) <==> FreesHonoured(s, steps)
    decreases |steps|
  {
    hide Attributed, Backed, Next, Enabled, IgnoresRefusal, Grants;
    if steps != [] {
      var n := Next(s, steps[0]);
      StepKeepsAttribution(s, steps[0]);
      StepKeepsBacking(s, steps[0]);
      LeaksIffIgnored(s, steps[0]);
      if NoLeak(n) {
        RunLeaksIffIgnored(n, steps[1..]);
      } else {
        var g :| g in n.outstanding && g !in Grants(n.live);
        LeakStaysForever(n, steps[1..], g);
      }
    }
  }

  /** Live entries and outstanding grants match one to one exactly when the hosts
      honoured every unchecked free. */
  lemma LedgerMatchesHosts(steps: seq<Step>)
    requires Legal(EMPTY, steps)
    ensures var s := After(EMPTY, steps);
            && (FreesHonoured(EMPTY, steps) <==> Grants(s.live) == s.outstanding)
            && (FreesHonoured(EMPTY, steps) <==> |s.live| == |s.outstanding|)
  {
    EmptyLedger();
    RunKeepsLedger(EMPTY, steps);
    RunLeaksIffIgnored(EMPTY, steps);
    var s := After(EMPTY, steps);
    DistinctGrants(s.live);
    LiveIsOutstanding(s);
    LedgerWithinBooks(s);
  }

  lemma LiveIsOutstanding(s: State)
    requires Backed(s)
    ensures Grants(s.live) <= s.outstanding
  {
  }

  /** What is live is on the books; equal numbers mean equal sets. */
  lemma LedgerWithinBooks(s: State)
    requires Grants(s.live) <= s.outstanding && |Grants(s.live)| == |s.live|
    ensures NoLeak(s) <==> Grants(s.live) == s.outstanding
    ensures NoLeak(s) <==> |s.live| == |s.outstanding|
  {
    var held := Grants(s.live);
    var leaked := s.outstanding - held;
    assert s.outstanding == held + leaked && |s.outstanding| == |held| + |leaked|;
    if NoLeak(s) {
      assert leaked == {};
    } else {
      var g :| g in s.outstanding && g !in held;
      assert g in leaked;
    }
  }

  /** It does happen: a client leaves an allocation behind, its host refuses the
      reclaiming free, and the grant stays on the books of that host alone. */
  lemma RefusedReclaimLeaks(client: ClientKey, host: Host, id: nat)
    requires id != 0
    ensures var a := Allocation(true, 0, id, ALIGNMENT, 1);
            var steps := [Register(client, host, true)]
              + ([Allocate(Some(client), 1, Granted(a), true)]
              + [Unregister(client, {Grant(host, id)}, true)]);
            && Legal(EMPTY, steps)
            && After(EMPTY, steps).live == map[]
            && After(EMPTY, steps).outstanding == {Grant(host, id)}
            && !NoLeak(After(EMPTY, steps))
  {
    var grant, a := Grant(host, id), Allocation(true, 0, id, ALIGNMENT, 1);
    var allocate, unregister := Allocate(Some(client), 1, Granted(a), true), Unregister(client, {grant}, true);
    var s1 := State(true, map[client := host], map[], {}, {}, multiset{});
    var s2 := State(true, map[client := host], map[ALIGNMENT := Live(a, host, client)], {grant}, {grant}, multiset{});
    var s3 := State(false, map[], map[], {grant}, {grant}, multiset{});
    assert Next(s1, allocate) == s2;
    RefusedReclaim(client, host, a);
    assert !NoLeak(s3) by { assert grant in s3.outstanding && grant !in Grants(s3.live); }
    hide NoLeak, Next, Legal, After;
    assert Next(EMPTY, Register(client, host, true)) == s1 by { FirstClient(client, host); }
    RunOne(s2, unregister);
    RunFrom(s1, allocate, [unregister]);
    RunFrom(EMPTY, Register(client, host, true), [allocate] + [unregister]);
  }

  lemma FirstClient(client: ClientKey, host: Host)
    ensures Next(EMPTY, Register(client, host, true)) == State(true, map[client := host], map[], {}, {}, multiset{})
  {
  }

  lemma RefusedReclaim(client: ClientKey, host: Host, a: Allocation)
    ensures var grant := Grant(host, a.id);
            Next(State(true, map[client := host], map[ALIGNMENT := Live(a, host, client)], {grant}, {grant}, multiset{}),
                 Unregister(client, {grant}, true))
            == State(false, map[], map[], {grant}, {grant}, multiset{})
  {
    var live := map[ALIGNMENT := Live(a, host, client)];
    assert LiveOf(live, client) == live && LiveOfOthers(live, client) == map[];
    assert GrantOf(live[ALIGNMENT]) == Grant(host, a.id);
    assert Grants(live) == {Grant(host, a.id)};
    assert Grants(live) - {Grant(host, a.id)} == {};
  }

  lemma RunFrom(s: State, step: Step, steps: seq<Step>)
    requires Enabled(s, step) && Legal(Next(s, step), steps)
    ensures Legal(s, [step] + steps) && After(s, [step] + steps) == After(Next(s, step), steps)
  {
    assert ([step] + steps)[1..] == steps;
  }

  lemma RunOne(s: State, step: Step)
    requires Enabled(s, step)
    ensures Legal(s, [step]) && After(s, [step]) == Next(s, step)
  {
    assert [step][1..] == [];
  }

  lemma {:induction false} DistinctGrants(live: map<Pointer, Live>)
    requires forall p, q | p in live && q in live && p != q :: GrantOf(live[p]) != GrantOf(live[q])
    ensures |Grants(live)| == |live|
    decreases |live|
  {
    if live == map[] {
      assert Grants(live) == {};
    } else {
      var p :| p in live;
      var rest := live - {p};
      assert rest.Keys == live.Keys - {p} && |live.Keys| == |live| && |rest.Keys| == |rest|;
      DistinctGrants(rest);
      var here := GrantOf(live[p]);
      forall g | g in Grants(live) ensures g in Grants(rest) + {here} {
        var q :| q in live && GrantOf(live[q]) == g;
        assert q == p || (q in rest && rest[q] == live[q]);
      }
      forall g | g in Grants(rest) ensures g in Grants(live) && g != here {
        var q :| q in rest && GrantOf(rest[q]) == g;
        assert q in live && live[q] == rest[q];
      }
      assert here in Grants(live);
      assert Grants(live) == Grants(rest) + {here};
    }
  }

  lemma UnregisterFields(s: State, client: ClientKey, refused: set<Grant>, ortReleases: bool)
    ensures var step := Unregister(client, refused, ortReleases); var n := Next(s, step);
            && Enabled(s, step)
            && (!s.registered ==> n == s)
            && (s.registered ==>
                  && n.live == LiveOfOthers(s.live, client)
                  && n.clients == s.clients - {client}
                  && n.registered == !(client in s.clients && n.clients == map[] && ortReleases))
  {
  }

  // ----- the allocator object ----------------------------------------------

  datatype Context = Context(deviceId: int, client: ClientKey)

  /** What an unregistration may complain about. */
  datatype Problem =
    | DeviceNotRegistered
    | ClientNotRegistered
    | NotSynchronized
    | LeftBehind(reclaimed: nat)
    | NotReleased

  lemma OthersStay(live: map<Pointer, Live>, client: ClientKey)
    ensures forall p :: p in LiveOfOthers(live, client) <==> p in live && live[p].client != client
    ensures forall p | p in LiveOfOthers(live, client) :: LiveOfOthers(live, client)[p] == live[p]
  {
  }

  lemma NothingLeft(live: map<Pointer, Live>, client: ClientKey)
    ensures LiveOf(live, client) == map[] <==> |LiveOf(live, client)| == 0
    ensures LiveOf(live, client) == map[] ==> LiveOfOthers(live, client) == live
  {
    if LiveOf(live, client) == map[] {
      forall p | p in live ensures live[p].client != client {
        assert p !in LiveOf(live, client);
      }
    }
  }

  /** The errors the source joins, in its order. */
  function Complaints(synchronized: bool, reclaimed: nat, refused: bool): (problems: seq<Problem>)
    ensures problems == [] <==> synchronized && reclaimed == 0 && !refused
  {
    (if synchronized then [] else [NotSynchronized])
    + (if reclaimed == 0 then [] else [LeftBehind(reclaimed)])
    + (if refused then [NotReleased] else [])
  }

  class DeviceAllocator {
    const deviceId: int
    var registered: bool
    var clients: map<ClientKey, Host>
    var live: map<Pointer, Live>
    ghost var state: State

    ghost predicate Valid()
      reads this
    {
      && Attributed(state) && Backed(state)
      && state.registered == registered && state.clients == clients && state.live == live
    }

    constructor (deviceId: int)
      ensures Valid() && state == EMPTY && this.deviceId == deviceId
    {
      this.deviceId := deviceId;
      registered, clients, live := false, map[], map[];
      state := EMPTY;
      new;
      EmptyLedger();
    }

    /** The thread's active scope, if it is for this device. */
    function Scope(context: Option<Context>): Option<ClientKey> {
      if context.Some? && context.value.deviceId == deviceId then Some(context.value.client) else None
    }

    /** An allocation is charged to the client of the caller's scope or refused;
        it never replaces a live entry. `reply` is the host's answer. */
    method AllocateScoped(context: Option<Context>, bytes: nat, reply: Reply, freeAccepted: bool) returns (pointer: Option<Pointer>)
      requires Valid() && Enabled(state, Allocate(Scope(context), bytes, reply, freeAccepted))
      modifies this`live, this`state
      ensures Valid() && state == Next(old(state), Allocate(Scope(context), bytes, reply, freeAccepted))
      ensures pointer.None? ==> live == old(live)
      ensures pointer.Some? <==>
          && context.Some? && context.value.deviceId == deviceId && context.value.client in clients && reply.Granted?
          && var a := reply.allocation;
             && a.wellSized && a.reserved == 0 && a.id != 0 && a.pointer != 0 && a.pointer % 256 == 0
             && bytes <= a.grantedBytes && a.pointer !in old(live)
      ensures pointer.Some? ==>
          && Scope(context).Some? && Scope(context).value in clients && reply.Granted?
          && pointer.value !in old(live)
          && Acceptable(reply.allocation, bytes) && reply.allocation.pointer == pointer.value
          && live == old(live)[pointer.value := Live(reply.allocation, clients[Scope(context).value], Scope(context).value)]
    {
      ghost var step := Allocate(Scope(context), bytes, reply, freeAccepted);
      StepKeepsAttribution(state, step);
      StepKeepsBacking(state, step);
      state := Next(state, step);
      if context.None? || context.value.deviceId != deviceId {
        return None;
      }
      var client := context.value.client;
      if client !in clients {
        return None;
      }
      var host := clients[client];
      match reply {
        case Rejected => return None;
        case Granted(a) =>
          if !Acceptable(a, bytes) || a.pointer in live {
            return None;
          }
          live := live[a.pointer := Live(a, host, client)];
          return Some(a.pointer);
      }
    }

    /** A refused free leaves the entry in place. */
    method FreeScoped(pointer: Pointer, accepted: bool)
      requires Valid()
      modifies this`live, this`state
      ensures Valid() && state == Next(old(state), Step.Free(pointer, accepted))
      ensures live == if accepted then old(live) - {pointer} else old(live)
    {
      StepKeepsAttribution(state, Step.Free(pointer, accepted));
      FreeKeepsBacking(state, pointer, accepted);
      state := Next(state, Step.Free(pointer, accepted));
      if pointer !in live {
        return;
      }
      var entry := live[pointer];
      live := live - {pointer};
      if !accepted {
        live := live[pointer := entry];
      }
    }

    method RegisterClient(client: ClientKey, host: Host, ortAccepts: bool) returns (ok: bool)
      requires Valid()
      modifies this
      ensures Valid() && state == Next(old(state), Step.Register(client, host, ortAccepts))
      ensures ok <==> if old(registered) then client !in old(clients) else ortAccepts
      ensures ok ==> registered && clients == (if old(registered) then old(clients) else map[])[client := host]
      ensures !ok ==> registered == old(registered) && clients == old(clients)
      ensures live == old(live)
    {
      ghost var step := Step.Register(client, host, ortAccepts);
      StepKeepsAttribution(state, step);
      StepKeepsBacking(state, step);
      state := Next(state, step);
      if registered {
        if client in clients {
          return false;
        }
        clients := clients[client := host];
        return true;
      }
      if !ortAccepts {
        return false;
      }
      registered, clients, live := true, map[client := host], map[];
      return true;
    }

    /** Frees what the client left behind. The answer lists what went wrong, in
        the source's order; it is empty for a clean shutdown. */
    method UnregisterClient(client: ClientKey, synchronized: bool, ghost refused: set<Grant>, ortReleases: bool)
      returns (problems: seq<Problem>)
      requires Valid()
      modifies this
      ensures Valid() && state == Next(old(state), Step.Unregister(client, refused, ortReleases))
      ensures problems ==
          if !old(registered) then [DeviceNotRegistered]
          else if client !in old(clients) then [ClientNotRegistered]
          else Complaints(synchronized, |LiveOf(old(live), client)|, clients == map[] && !ortReleases)
      ensures problems == [] ==> client !in clients && live == old(live)
      ensures clients == if old(registered) then old(clients) - {client} else old(clients)
      ensures forall p :: p in live <==> p in old(live) && (old(registered) ==> old(live)[p].client != client)
      ensures forall p | p in live :: live[p] == old(live)[p]
      ensures registered == (old(registered) && !(client in old(clients) && clients == map[] && ortReleases))
    {
      hide Attributed, Backed, Next, LiveOf, LiveOfOthers;
      ghost var next := Next(state, Step.Unregister(client, refused, ortReleases));
      StepKeepsAttribution(state, Step.Unregister(client, refused, ortReleases));
      UnregisterKeepsBacking(state, client, refused, ortReleases);
      UnregisterFields(state, client, refused, ortReleases);
      NothingLeft(live, client);
      OthersStay(live, client);
      if !registered {
        return [DeviceNotRegistered];
      }
      var reclaimed := ReclaimLive(client);
      if client !in clients {
        state := next;
        return [ClientNotRegistered];
      }
      clients := clients - {client};
      problems := Complaints(synchronized, reclaimed, clients == map[] && !ortReleases);
      if clients == map[] && ortReleases {
        registered := false;
      }
      state := next;
    }

    method ReclaimLive(client: ClientKey) returns (reclaimed: nat)
      modifies this`live
      ensures live == LiveOfOthers(old(live), client)
      ensures reclaimed == |LiveOf(old(live), client)|
    {
      ghost var before := live;
      var pointers := set p | p in live && live[p].client == client;
      ghost var all := pointers;
      reclaimed := 0;
      while pointers != {}
        invariant pointers <= all
        invariant forall p :: p in live <==> p in before && p !in all - pointers
        invariant forall p | p in live :: live[p] == before[p]
        invariant reclaimed + |pointers| == |all|
      {
        var pointer :| pointer in pointers;
        live := live - {pointer};
        pointers := pointers - {pointer};
        reclaimed := reclaimed + 1;
      }
      assert all - pointers == all;
      assert live.Keys == LiveOfOthers(before, client).Keys;
      assert live == LiveOfOthers(before, client);
      CountLiveOf(before, client, all);
    }
  }

  lemma CountLiveOf(live: map<Pointer, Live>, client: ClientKey, pointers: set<Pointer>)
    requires pointers == set p | p in live && live[p].client == client
    ensures |LiveOf(live, client)| == |pointers|
  {
    assert LiveOf(live, client).Keys == pointers;
    assert |LiveOf(live, client).Keys| == |LiveOf(live, client)|;
  }
}
