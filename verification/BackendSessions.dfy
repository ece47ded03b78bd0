/** The sessions of a whole backend: its primary pool and the pools of its bucket
    table together. */
module BackendSessions {
  import opened Common
  import opened BucketSessions
  import SessionPools

  /** The sessions of all the pools in a table. */
  ghost function TotalOf(totals: map<Key, nat>): nat
    decreases |totals|
  {
    if totals == map[] then 0
    else
      var key :| key in totals;
      totals[key] + TotalOf(totals - {key})
  }

  lemma {:induction false} TotalWithout(totals: map<Key, nat>, key: Key)
    requires key in totals
    ensures TotalOf(totals) == totals[key] + TotalOf(totals - {key})
    decreases |totals|
  {
    var first :| first in totals && TotalOf(totals) == totals[first] + TotalOf(totals - {first});
    if first != key {
      TotalWithout(totals - {first}, key);
      assert key in totals - {first};
      TotalWithout(totals - {key}, first);
      assert totals - {first} - {key} == totals - {key} - {first};
    }
  }

  /** The sessions of a set of pools, each pool counted once. */
  ghost function SessionsIn(ps: set<Pool>, pools: map<Pool, SessionPools.State>): nat
    requires ps <= pools.Keys
    decreases |ps|
  {
    if ps == {} then 0
    else
      var p :| p in ps;
      pools[p].total + SessionsIn(ps - {p}, pools)
  }

  lemma {:induction false} SessionsWithout(ps: set<Pool>, pools: map<Pool, SessionPools.State>, p: Pool)
    requires ps <= pools.Keys && p in ps
    ensures SessionsIn(ps, pools) == pools[p].total + SessionsIn(ps - {p}, pools)
    decreases |ps|
  {
    var first :| first in ps && SessionsIn(ps, pools) == pools[first].total + SessionsIn(ps - {first}, pools);
    if first != p {
      SessionsWithout(ps - {first}, pools, p);
      SessionsWithout(ps - {p}, pools, first);
      assert ps - {first} - {p} == ps - {p} - {first};
    }
  }

  /** No two keys share a pool, and none has the primary one. */
  ghost predicate OnePoolPerKey(sessions: map<Key, Pool>, primaryPool: Pool) {
    && (forall key | key in sessions :: sessions[key] != primaryPool)
    && (forall j, k | j in sessions && k in sessions && j != k :: sessions[j] != sessions[k])
  }

  /** A pool of the configured size that keeps the pool invariant. */
  ghost predicate Sound(pool: SessionPools.State, poolSize: nat) {
    SessionPools.Inv(pool) && pool.max == poolSize
  }

  /** Every pool of the table is sound, and the table is as its requests left it. */
  ghost predicate Backend(b: Buckets, primaryPool: Pool, pools: map<Pool, SessionPools.State>,
                          sessionBuckets: Option<nat>, poolSize: nat)
  {
    && Inv(b, SecondaryCapacity(MaxBuckets(sessionBuckets)))
    && (MaxBuckets(sessionBuckets) == 1 ==> b == EMPTY)
    && OnePoolPerKey(b.sessions, primaryPool)
    && primaryPool in pools && b.sessions.Values <= pools.Keys
    && forall p | p in pools :: Sound(pools[p], poolSize)
  }

  function Totals(sessions: map<Key, Pool>, pools: map<Pool, SessionPools.State>): map<Key, nat>
    requires sessions.Values <= pools.Keys
  {
    map key | key in sessions :: pools[sessions[key]].total
  }

  /** Adding up by key adds up every pool once. */
  lemma {:induction false} TotalByPool(sessions: map<Key, Pool>, primaryPool: Pool, pools: map<Pool, SessionPools.State>)
    requires sessions.Values <= pools.Keys && OnePoolPerKey(sessions, primaryPool)
    ensures TotalOf(Totals(sessions, pools)) == SessionsIn(sessions.Values, pools)
    decreases |sessions|
  {
    if sessions == map[] {
      assert Totals(sessions, pools) == map[] && sessions.Values == {};
    } else {
      hide OnePoolPerKey, TotalOf, SessionsIn, Totals;
      var key :| key in sessions;
      var rest := sessions - {key};
      SmallerTable(sessions, primaryPool, key);
      TotalByPool(rest, primaryPool, pools);
      TotalsWithout(sessions, pools, key);
      SessionsWithout(sessions.Values, pools, sessions[key]);
    }
  }

  lemma TotalsWithout(sessions: map<Key, Pool>, pools: map<Pool, SessionPools.State>, key: Key)
    requires sessions.Values <= pools.Keys && key in sessions && (sessions - {key}).Values <= pools.Keys
    ensures TotalOf(Totals(sessions, pools)) == pools[sessions[key]].total + TotalOf(Totals(sessions - {key}, pools))
  {
    hide TotalOf;
    TotalWithout(Totals(sessions, pools), key);
    assert Totals(sessions, pools) - {key} == Totals(sessions - {key}, pools);
  }

  lemma SmallerTable(sessions: map<Key, Pool>, primaryPool: Pool, key: Key)
    requires OnePoolPerKey(sessions, primaryPool) && key in sessions
    ensures OnePoolPerKey(sessions - {key}, primaryPool)
    ensures (sessions - {key}).Values == sessions.Values - {sessions[key]}
    ensures |sessions - {key}| < |sessions|
  {
    var rest := sessions - {key};
    assert rest.Keys == sessions.Keys - {key} && |rest.Keys| == |rest| && |sessions.Keys| == |sessions|;
    forall p | p in sessions.Values - {sessions[key]} ensures p in rest.Values {
      var k :| k in sessions && sessions[k] == p;
      assert k in rest && rest[k] == p;
    }
    forall p | p in rest.Values ensures p in sessions.Values - {sessions[key]} {
      var k :| k in rest && rest[k] == p;
      assert sessions[k] == p;
    }
  }

  /** The primary pool and the pools of the table. */
  ghost function PoolsOf(b: Buckets, primaryPool: Pool): set<Pool> {
    {primaryPool} + b.sessions.Values
  }

  lemma TotalOfBackend(b: Buckets, primaryPool: Pool, pools: map<Pool, SessionPools.State>)
    requires OnePoolPerKey(b.sessions, primaryPool) && PoolsOf(b, primaryPool) <= pools.Keys
    ensures SessionsIn(PoolsOf(b, primaryPool), pools) == pools[primaryPool].total + TotalOf(Totals(b.sessions, pools))
  {
    TotalByPool(b.sessions, primaryPool, pools);
    SessionsWithout(PoolsOf(b, primaryPool), pools, primaryPool);
    assert PoolsOf(b, primaryPool) - {primaryPool} == b.sessions.Values;
  }

  /** The report counts the sessions of every pool exactly once and never more than
      one full pool per bucket, so its saturating sums never saturate. */
  method CollectTotalSessions(b: Buckets, primaryPool: Pool, pools: map<Pool, SessionPools.State>,
                              ghost sessionBuckets: Option<nat>, ghost poolSize: nat) returns (total: nat)
    requires Backend(b, primaryPool, pools, sessionBuckets, poolSize) && poolSize <= 0xFFFF_FFFF
    ensures PoolsOf(b, primaryPool) <= pools.Keys && total == SessionsIn(PoolsOf(b, primaryPool), pools)
    ensures total <= MaxBuckets(sessionBuckets) * poolSize
  {
    hide Inv, Sound, TotalOf, OnePoolPerKey, SessionsIn;
    SoundTotals(b, primaryPool, pools, sessionBuckets, poolSize);
    TotalOfBackend(b, primaryPool, pools);
    total := AddTotals(pools[primaryPool].total, Totals(b.sessions, pools), MaxBuckets(sessionBuckets), poolSize);
  }

  method AddTotals(primaryTotal: nat, totals: map<Key, nat>, ghost buckets: nat, ghost poolSize: nat) returns (total: nat)
    requires primaryTotal <= poolSize <= 0xFFFF_FFFF && forall key | key in totals :: totals[key] <= poolSize
    requires |totals| <= buckets - 1 && buckets <= MAX_SESSION_BUCKETS
    ensures total == primaryTotal + TotalOf(totals) <= buckets * poolSize
  {
    total := primaryTotal;
    var remaining := totals;
    ghost var seen := 1;
    while remaining != map[]
      invariant forall key | key in remaining :: key in totals && remaining[key] == totals[key]
      invariant seen + |remaining| == 1 + |totals| && seen >= 1
      invariant total <= seen * poolSize
      invariant total + TotalOf(remaining) == primaryTotal + TotalOf(totals)
      decreases |remaining|
    {
      var key :| key in remaining;
      TotalWithout(remaining, key);
      MulMonotone(seen + 1, MAX_SESSION_BUCKETS, poolSize);
      Distribute(seen, 1, poolSize);
      total := Min(total + remaining[key], U64_MAX);
      assert (remaining - {key}).Keys == remaining.Keys - {key};
      assert |remaining.Keys| == |remaining| && |(remaining - {key}).Keys| == |remaining - {key}|;
      remaining := remaining - {key};
      seen := seen + 1;
    }
    MulMonotone(seen, buckets, poolSize);
  }

  lemma SoundTotal(pool: SessionPools.State, poolSize: nat)
    requires Sound(pool, poolSize)
    ensures 1 <= poolSize && pool.total <= poolSize
  {
    hide SessionPools.Owned;
  }

  /** Pool and table invariants give the bounds the report needs. */
  lemma SoundTotals(b: Buckets, primaryPool: Pool, pools: map<Pool, SessionPools.State>,
                    sessionBuckets: Option<nat>, poolSize: nat)
    requires Backend(b, primaryPool, pools, sessionBuckets, poolSize)
    ensures 1 <= poolSize && pools[primaryPool].total <= poolSize
    ensures forall key | key in Totals(b.sessions, pools) :: Totals(b.sessions, pools)[key] <= poolSize
    ensures |Totals(b.sessions, pools)| <= MaxBuckets(sessionBuckets) - 1
  {
    hide Inv, Sound, OnePoolPerKey;
    forall p | p in pools { SoundTotal(pools[p], poolSize); }
    BucketsFitBackend(b, sessionBuckets);
    assert Totals(b.sessions, pools).Keys == b.sessions.Keys;
    assert |Totals(b.sessions, pools).Keys| == |Totals(b.sessions, pools)| && |b.sessions.Keys| == |b.sessions|;
  }

  /** The table's invariant gives the report's premise, for every setting. */
  lemma BucketsFitBackend(b: Buckets, sessionBuckets: Option<nat>)
    requires Inv(b, SecondaryCapacity(MaxBuckets(sessionBuckets)))
    requires MaxBuckets(sessionBuckets) == 1 ==> b == EMPTY
    ensures |b.sessions| <= MaxBuckets(sessionBuckets) - 1
  {
  }

  // ----- the whole backend, in every run -------------------------------------

  /** The table after a run of requests; with one bucket it is never used. */
  function TableAfter(sessionBuckets: Option<nat>, primaryPool: Pool, asks: seq<Ask>): Buckets {
    var maxBuckets := MaxBuckets(sessionBuckets);
    if maxBuckets <= 1 then EMPTY else Run(EMPTY, SecondaryCapacity(maxBuckets), primaryPool, asks)
  }

  /** Each pool after some interleaving of its own threads. */
  function PoolsAfter(poolSize: nat, runs: map<Pool, seq<SessionPools.Step>>): map<Pool, SessionPools.State>
    requires forall p | p in runs :: SessionPools.Legal(SessionPools.Initial(poolSize), runs[p])
  {
    map p | p in runs :: SessionPools.After(SessionPools.Initial(poolSize), runs[p])
  }

  lemma {:induction false} TotalBounded(totals: map<Key, nat>, poolSize: nat)
    requires forall key | key in totals :: totals[key] <= poolSize
    ensures TotalOf(totals) <= |totals| * poolSize
    decreases |totals|
  {
    if totals != map[] {
      var key :| key in totals;
      TotalWithout(totals, key);
      var rest := totals - {key};
      assert rest.Keys == totals.Keys - {key} && |rest.Keys| == |rest| && |totals.Keys| == |totals|;
      TotalBounded(rest, poolSize);
      Distribute(|rest|, 1, poolSize);
    }
  }

  lemma PoolRunIsSound(poolSize: nat, steps: seq<SessionPools.Step>)
    requires poolSize >= 1 && SessionPools.Legal(SessionPools.Initial(poolSize), steps)
    ensures Sound(SessionPools.After(SessionPools.Initial(poolSize), steps), poolSize)
  {
    hide SessionPools.Inv;
    SessionPools.InitialInv(poolSize);
    SessionPools.RunKeepsInv(SessionPools.Initial(poolSize), steps);
  }

  ghost predicate Created(asks: seq<Ask>, p: Pool) {
    exists i | 0 <= i < |asks| :: asks[i].created == Some(p)
  }

  /** Every session creation that succeeds makes a new pool. */
  ghost predicate NewPools(primaryPool: Pool, asks: seq<Ask>) {
    && !Created(asks, primaryPool)
    && forall i, j | 0 <= i < j < |asks| && asks[i].created.Some? :: asks[i].created != asks[j].created
  }

  /** A request adds at most the pool created for it. */
  lemma RequestPools(b: Buckets, capacity: nat, primaryPool: Pool, key: Key, created: Option<Pool>, k: Key)
    requires k in Request(b, capacity, primaryPool, key, created).0.sessions
    ensures var p := Request(b, capacity, primaryPool, key, created).0.sessions[k];
            (k in b.sessions && p == b.sessions[k]) || (k == key && created == Some(p))
  {
    var named := if b.primary.None? then b.(primary := Some(key)) else b;
    if named.primary != Some(key) && key !in named.sessions && k in EvictTo(named, capacity).sessions {
      EvictionKeepsPools(named, capacity, k);
    }
  }

  /** In every run keys and pools of the table match one to one. */
  lemma {:induction false} RunKeepsPools(capacity: nat, primaryPool: Pool, asks: seq<Ask>)
    requires NewPools(primaryPool, asks)
    ensures var sessions := Run(EMPTY, capacity, primaryPool, asks).sessions;
            && OnePoolPerKey(sessions, primaryPool)
            && forall key | key in sessions :: Created(asks, sessions[key])
  {
    hide Request;
    if asks != [] {
      var last := |asks| - 1;
      var before, ask := asks[..last], asks[last];
      var b := Run(EMPTY, capacity, primaryPool, before);
      NewPoolsBefore(primaryPool, asks);
      RunKeepsPools(capacity, primaryPool, before);
      var sessions := Request(b, capacity, primaryPool, ask.key, ask.created).0.sessions;
      forall key | key in sessions
        ensures (key in b.sessions && sessions[key] == b.sessions[key]) || (key == ask.key && ask.created == Some(sessions[key]))
        ensures Created(asks, sessions[key])
      {
        RequestPools(b, capacity, primaryPool, ask.key, ask.created, key);
      }
    }
  }

  /** No pool ever serves two keys, however often tables change in between. */
  lemma PoolsServeOneKey(capacity: nat, primaryPool: Pool, asks: seq<Ask>, i: nat, j: nat)
    requires capacity >= 1 && i < |asks| && j < |asks| && NewPools(primaryPool, asks)
    requires AnswerAt(capacity, primaryPool, asks, i).Some?
    requires AnswerAt(capacity, primaryPool, asks, i) == AnswerAt(capacity, primaryPool, asks, j)
    ensures asks[i].key == asks[j].key
  {
    hide AnswerAt;
    var p := AnswerAt(capacity, primaryPool, asks, i).value;
    if asks[i].key != asks[0].key {
      CreatedForKey(capacity, primaryPool, asks, i, p);
    }
    if asks[j].key != asks[0].key {
      CreatedForKey(capacity, primaryPool, asks, j, p);
    }
    RequestsKeepTheirPool(capacity, primaryPool, asks, i);
    RequestsKeepTheirPool(capacity, primaryPool, asks, j);
  }

  lemma CreatedForKey(capacity: nat, primaryPool: Pool, asks: seq<Ask>, i: nat, p: Pool)
    requires capacity >= 1 && i < |asks| && asks[i].key != asks[0].key
    requires AnswerAt(capacity, primaryPool, asks, i) == Some(p)
    ensures Created(asks, p)
    ensures exists m | 0 <= m < |asks| :: asks[m].created == Some(p) && asks[m].key == asks[i].key
  {
    hide AnswerAt;
    RequestsKeepTheirPool(capacity, primaryPool, asks, i);
  }

  lemma NewPoolsBefore(primaryPool: Pool, asks: seq<Ask>)
    requires NewPools(primaryPool, asks) && asks != []
    ensures NewPools(primaryPool, asks[..|asks| - 1])
    ensures forall p: Pool | Created(asks[..|asks| - 1], p) :: Created(asks, p) && asks[|asks| - 1].created != Some(p)
  {
    var before := asks[..|asks| - 1];
    forall p: Pool | Created(before, p) ensures Created(asks, p) && asks[|asks| - 1].created != Some(p) {
      var i :| 0 <= i < |before| && before[i].created == Some(p);
      assert asks[i].created == Some(p);
    }
  }

  /** Whatever requests came and however the threads of every pool interleaved,
      failed creations and cancellations included, a backend never counts more
      than buckets times pool size sessions. An evicted pool is not counted. */
  lemma BackendIsBounded(sessionBuckets: Option<nat>, poolSize: nat, primaryPool: Pool, asks: seq<Ask>,
                         runs: map<Pool, seq<SessionPools.Step>>)
    requires poolSize >= 1 && primaryPool in runs && NewPools(primaryPool, asks)
    requires forall p | p in runs :: SessionPools.Legal(SessionPools.Initial(poolSize), runs[p])
    requires TableAfter(sessionBuckets, primaryPool, asks).sessions.Values <= runs.Keys
    ensures var b, pools := TableAfter(sessionBuckets, primaryPool, asks), PoolsAfter(poolSize, runs);
            && Backend(b, primaryPool, pools, sessionBuckets, poolSize)
            && PoolsOf(b, primaryPool) <= pools.Keys
            && SessionsIn(PoolsOf(b, primaryPool), pools) <= MaxBuckets(sessionBuckets) * poolSize
  {
    hide Backend, Request, SessionPools.Legal, SessionPools.After, SessionsIn;
    BackendAfterRuns(sessionBuckets, poolSize, primaryPool, asks, runs);
    SoundBackendIsBounded(TableAfter(sessionBuckets, primaryPool, asks), primaryPool, PoolsAfter(poolSize, runs), sessionBuckets, poolSize);
  }

  lemma SoundBackendIsBounded(b: Buckets, primaryPool: Pool, pools: map<Pool, SessionPools.State>,
                              sessionBuckets: Option<nat>, poolSize: nat)
    requires Backend(b, primaryPool, pools, sessionBuckets, poolSize)
    ensures PoolsOf(b, primaryPool) <= pools.Keys
    ensures SessionsIn(PoolsOf(b, primaryPool), pools) <= MaxBuckets(sessionBuckets) * poolSize
  {
    hide Inv, Sound, OnePoolPerKey, TotalOf, SessionsIn;
    SoundTotals(b, primaryPool, pools, sessionBuckets, poolSize);
    TotalOfBackend(b, primaryPool, pools);
    var totals := Totals(b.sessions, pools);
    TotalBounded(totals, poolSize);
    OnePoolMore(TotalOf(totals), |totals|, MaxBuckets(sessionBuckets), pools[primaryPool].total, poolSize);
  }

  lemma OnePoolMore(total: nat, count: nat, buckets: nat, primaryTotal: nat, poolSize: nat)
    requires total <= count * poolSize && count + 1 <= buckets && primaryTotal <= poolSize
    ensures primaryTotal + total <= buckets * poolSize
  {
    Distribute(count, 1, poolSize);
    MulMonotone(count + 1, buckets, poolSize);
  }

  lemma BackendAfterRuns(sessionBuckets: Option<nat>, poolSize: nat, primaryPool: Pool, asks: seq<Ask>,
                         runs: map<Pool, seq<SessionPools.Step>>)
    requires poolSize >= 1 && primaryPool in runs && NewPools(primaryPool, asks)
    requires forall p | p in runs :: SessionPools.Legal(SessionPools.Initial(poolSize), runs[p])
    requires TableAfter(sessionBuckets, primaryPool, asks).sessions.Values <= runs.Keys
    ensures Backend(TableAfter(sessionBuckets, primaryPool, asks), primaryPool, PoolsAfter(poolSize, runs), sessionBuckets, poolSize)
  {
    hide Request, Inv, Sound, OnePoolPerKey, SessionPools.Legal, SessionPools.After;
    var pools := PoolsAfter(poolSize, runs);
    RunKeepsInv(SecondaryCapacity(MaxBuckets(sessionBuckets)), primaryPool, asks);
    RunKeepsInv(SecondaryCapacity(MaxBuckets(sessionBuckets)), primaryPool, []);
    RunKeepsPools(SecondaryCapacity(MaxBuckets(sessionBuckets)), primaryPool, asks);
    NoPools(primaryPool);
    forall p | p in pools ensures Sound(pools[p], poolSize) {
      PoolRunIsSound(poolSize, runs[p]);
    }
  }

  lemma NoPools(primaryPool: Pool)
    ensures OnePoolPerKey(EMPTY.sessions, primaryPool)
  {
  }
}
