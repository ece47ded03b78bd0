/** Secondary session pools, one per shape bucket, evicted least recently used
    first. */
module BucketSessions {
  import opened Common

  /** The rendered shape of a request's primary tensor. */
  datatype Key = Key(text: string)
  type Pool = nat

  const MAX_SESSION_BUCKETS: nat := 64

  // ----- recency -----------------------------------------------------------

  /** Each key of the history once, in order of its last use. */
  function LastUses(history: seq<Key>): seq<Key> {
    if history == [] then []
    else if history[0] in history[1..] then LastUses(history[1..])
    else [history[0]] + LastUses(history[1..])
  }

  function LastN(n: nat, s: seq<Key>): seq<Key> {
    if |s| <= n then s else s[|s| - n..]
  }

  predicate IsSuffix(s: seq<Key>, whole: seq<Key>) {
    |s| <= |whole| && s == whole[|whole| - |s|..]
  }

  predicate Distinct(s: seq<Key>) {
    forall i, j | 0 <= i < j < |s| :: s[i] != s[j]
  }

  function Without(s: seq<Key>, key: Key): seq<Key> {
    if s == [] then []
    else if s[0] == key then s[1..]
    else [s[0]] + Without(s[1..], key)
  }

  function Touch(s: seq<Key>, key: Key): seq<Key> {
    Without(s, key) + [key]
  }

  lemma {:induction false} WithoutParts(a: seq<Key>, b: seq<Key>, key: Key)
    ensures Without(a + b, key) == if key in a then Without(a, key) + b else a + Without(b, key)
  {
    if a == [] {
      assert a + b == b;
    } else {
      assert (a + b)[1..] == a[1..] + b;
      WithoutParts(a[1..], b, key);
      if a[0] != key {
        assert key in a <==> key in a[1..];
        assert [a[0]] + (Without(a[1..], key) + b) == [a[0]] + Without(a[1..], key) + b;
        assert [a[0]] + (a[1..] + Without(b, key)) == a + Without(b, key);
      }
    }
  }

  lemma DistinctCons(key: Key, s: seq<Key>)
    requires Distinct(s) && key !in s
    ensures Distinct([key] + s)
  {
  }

  lemma DistinctSnoc(s: seq<Key>, key: Key)
    requires Distinct(s) && key !in s
    ensures Distinct(s + [key])
  {
  }

  lemma DistinctParts(a: seq<Key>, b: seq<Key>)
    requires Distinct(a + b)
    ensures Distinct(a) && Distinct(b) && forall key :: !(key in a && key in b)
  {
    forall i, j | 0 <= i < j < |a| ensures a[i] != a[j] {
      assert (a + b)[i] == a[i] && (a + b)[j] == a[j];
    }
    forall i, j | 0 <= i < j < |b| ensures b[i] != b[j] {
      assert (a + b)[|a| + i] == b[i] && (a + b)[|a| + j] == b[j];
    }
    forall i, j | 0 <= i < |a| && 0 <= j < |b| ensures a[i] != b[j] {
      assert (a + b)[i] == a[i] && (a + b)[|a| + j] == b[j];
    }
  }

  lemma {:induction false} WithoutKeeps(s: seq<Key>, key: Key)
    requires Distinct(s)
    ensures Distinct(Without(s, key)) && key !in Without(s, key)
    ensures forall x :: x in Without(s, key) <==> x in s && x != key
    ensures |Without(s, key)| == if key in s then |s| - 1 else |s|
    ensures key !in s ==> Without(s, key) == s
  {
    if s != [] {
      assert s == [s[0]] + s[1..];
      WithoutKeeps(s[1..], key);
      assert s[0] !in s[1..];
      if s[0] != key {
        var rest := Without(s[1..], key);
        assert s[0] !in rest;
        DistinctCons(s[0], rest);
      }
    }
  }

  lemma {:induction false} LastUsesDistinct(history: seq<Key>)
    ensures Distinct(LastUses(history))
    ensures forall x :: x in LastUses(history) <==> x in history
  {
    if history != [] {
      assert history == [history[0]] + history[1..];
      LastUsesDistinct(history[1..]);
    }
  }

  /** Using a key moves it to the end of the recency order. */
  lemma {:induction false} LastUsesAppend(history: seq<Key>, key: Key)
    ensures LastUses(history + [key]) == Touch(LastUses(history), key)
  {
    if history == [] {
      assert [] + [key] == [key];
    } else {
      var rest := history[1..];
      assert (history + [key])[1..] == rest + [key];
      LastUsesAppend(rest, key);
      LastUsesDistinct(rest);
      WithoutKeeps(LastUses(rest), key);
    }
  }

  lemma SuffixOf(before: seq<Key>, s: seq<Key>)
    ensures IsSuffix(s, before + s)
  {
  }

  lemma LastNIsSuffix(n: nat, s: seq<Key>)
    ensures IsSuffix(LastN(n, s), s) && |LastN(n, s)| == Min(n, |s|)
  {
  }

  lemma LongestSuffix(n: nat, t: seq<Key>, s: seq<Key>)
    requires IsSuffix(t, s) && |t| == Min(n, |s|)
    ensures t == LastN(n, s)
  {
  }

  lemma LastNGrows(n: nat, s: seq<Key>, key: Key)
    requires key in LastN(n, s)
    ensures key in LastN(n + 1, s)
  {
    if |s| > n {
      assert LastN(n, s) == LastN(n + 1, s)[1..];
    }
  }

  lemma TouchHit(before: seq<Key>, s: seq<Key>, key: Key)
    requires Distinct(before + s) && key in s
    ensures IsSuffix(Touch(s, key), Touch(before + s, key))
    ensures |Touch(s, key)| == |s| && |Touch(before + s, key)| == |before| + |s|
  {
    DistinctParts(before, s);
    WithoutParts(before, s, key);
    WithoutKeeps(s, key);
    assert Touch(before + s, key) == before + Touch(s, key);
    SuffixOf(before, Touch(s, key));
  }

  lemma TouchMiss(before: seq<Key>, s: seq<Key>, key: Key)
    requires Distinct(before + s) && key !in s
    ensures IsSuffix(s + [key], Touch(before + s, key))
    ensures |Touch(before + s, key)| == |before| + |s| + (if key in before then 0 else 1)
  {
    DistinctParts(before, s);
    WithoutParts(before, s, key);
    WithoutKeeps(before, key);
    WithoutKeeps(s, key);
    var front := Without(before, key);
    assert Touch(before + s, key) == front + (s + [key]);
    SuffixOf(front, s + [key]);
  }

  /** What a served or failed secondary request does to the list. */
  function Recall(lru: seq<Key>, capacity: nat, key: Key, created: bool): seq<Key> {
    if key in lru then Touch(lru, key)
    else
      var room := if |lru| < capacity || lru == [] then lru else lru[1..];
      if created then room + [key] else room
  }

  /** One step against the recency order `recent`: a served key moves to its
      end, a failed creation leaves it alone, and the list stays a suffix, as
      long as possible unless a creation failed. */
  lemma RecallTracksRecency(lru: seq<Key>, capacity: nat, key: Key, created: bool, recent: seq<Key>)
    requires capacity >= 1 && |lru| <= capacity && Distinct(recent) && IsSuffix(lru, recent)
    ensures var next := Recall(lru, capacity, key, created);
            var order := if key in lru || created then Touch(recent, key) else recent;
            && |next| <= capacity
            && IsSuffix(next, order)
            && (created && |lru| == Min(capacity, |recent|) ==> |next| == Min(capacity, |order|))
  {
    var before := recent[..|recent| - |lru|];
    assert recent == before + lru;
    if key in lru {
      TouchHit(before, lru, key);
    } else if |lru| < capacity {
      TouchMiss(before, lru, key);
      SuffixOf(before, lru);
    } else {
      RecallEvicts(before, lru, key);
    }
  }

  lemma RecallEvicts(before: seq<Key>, lru: seq<Key>, key: Key)
    requires lru != [] && Distinct(before + lru) && key !in lru
    ensures IsSuffix(lru[1..] + [key], Touch(before + lru, key))
    ensures IsSuffix(lru[1..], before + lru)
    ensures |Touch(before + lru, key)| >= |before| + |lru|
  {
    var front := before + [lru[0]];
    assert before + lru == front + lru[1..];
    TouchMiss(front, lru[1..], key);
    SuffixOf(front, lru[1..]);
  }

  // ----- the bucket table --------------------------------------------------

  datatype Buckets = Buckets(primary: Option<Key>, sessions: map<Key, Pool>, lru: seq<Key>)

  const EMPTY := Buckets(None, map[], [])

  /** Four unless set, and at least 1 and at most 64. */
  function MaxBuckets(sessionBuckets: Option<nat>): (n: nat)
    ensures 1 <= n <= 64
    ensures match sessionBuckets
            case None => n == 4
            case Some(wanted) => (1 <= wanted <= 64 ==> n == wanted) && (wanted < 1 ==> n == 1) && (wanted > 64 ==> n == 64)
  {
    var wanted := if sessionBuckets.None? then 4 else sessionBuckets.value;
    Min(Max(wanted, 1), MAX_SESSION_BUCKETS)
  }

  /** All buckets but the primary one. */
  function SecondaryCapacity(maxBuckets: nat): (c: nat)
    ensures c >= 1 && (maxBuckets > 1 ==> c + 1 == maxBuckets)
  {
    Max(maxBuckets - 1, 1)
  }

  function EvictTo(b: Buckets, capacity: nat): Buckets
    decreases |b.lru|
  {
    if |b.sessions| < capacity || b.lru == [] then b
    else EvictTo(b.(lru := b.lru[1..], sessions := b.sessions - {b.lru[0]}), capacity)
  }

  /** One request for a bucket. `created` is the pool a new session would give,
      `None` if its creation fails. */
  function Request(b: Buckets, capacity: nat, primaryPool: Pool, key: Key, created: Option<Pool>): (Buckets, Option<Pool>) {
    var named := if b.primary.None? then b.(primary := Some(key)) else b;
    if named.primary == Some(key) then (named, Some(primaryPool))
    else if key in named.sessions then (named.(lru := Touch(named.lru, key)), Some(named.sessions[key]))
    else
      var room := EvictTo(named, capacity);
      match created
      case None => (room, None)
      case Some(pool) => (room.(sessions := room.sessions[key := pool], lru := Touch(room.lru, key)), created)
  }

  /** The list and the map hold the same secondary keys, at most `capacity`. */
  ghost predicate Inv(b: Buckets, capacity: nat) {
    && Distinct(b.lru)
    && Mirrors(b.lru, b.sessions.Keys)
    && |b.lru| == |b.sessions| <= capacity
    && (b.primary.None? ==> b.lru == [])
    && (b.primary.Some? ==> b.primary.value !in b.sessions)
  }

  ghost predicate Mirrors(s: seq<Key>, keys: set<Key>) {
    forall key :: key in s <==> key in keys
  }

  lemma DropFront(b: Buckets)
    requires Inv(b, |b.lru|) && b.lru != []
    ensures Inv(Buckets(b.primary, b.sessions - {b.lru[0]}, b.lru[1..]), |b.lru| - 1)
  {
    var keys := (b.sessions - {b.lru[0]}).Keys;
    assert keys == b.sessions.Keys - {b.lru[0]};
    assert b.lru == [b.lru[0]] + b.lru[1..];
    assert |keys| == |b.sessions - {b.lru[0]}| && |b.sessions.Keys| == |b.sessions|;
  }

  /** Under the invariant, eviction drops at most the front of the list. */
  lemma EvictsFront(b: Buckets, capacity: nat)
    requires Inv(b, capacity) && capacity >= 1
    ensures EvictTo(b, capacity) ==
            if |b.lru| < capacity then b else Buckets(b.primary, b.sessions - {b.lru[0]}, b.lru[1..])
    ensures Inv(EvictTo(b, capacity), capacity) && |EvictTo(b, capacity).lru| < capacity
  {
    if |b.sessions| >= capacity {
      DropFront(b);
      var next := Buckets(b.primary, b.sessions - {b.lru[0]}, b.lru[1..]);
      assert EvictTo(next, capacity) == next;
    }
  }

  lemma InsertKeepsInv(b: Buckets, capacity: nat, key: Key, pool: Pool)
    requires Inv(b, capacity) && |b.lru| < capacity && key !in b.lru && b.primary.Some? && key != b.primary.value
    ensures Touch(b.lru, key) == b.lru + [key]
    ensures Inv(b.(sessions := b.sessions[key := pool], lru := b.lru + [key]), capacity)
  {
    WithoutKeeps(b.lru, key);
    DistinctSnoc(b.lru, key);
    var sessions := b.sessions[key := pool];
    assert sessions.Keys == b.sessions.Keys + {key};
    assert |b.sessions.Keys| == |b.sessions| && |sessions.Keys| == |sessions|;
  }

  /** A request keeps the invariant, and acts on the list as `Recall`. */
  lemma RequestKeepsInv(b: Buckets, capacity: nat, primaryPool: Pool, key: Key, created: Option<Pool>)
    requires Inv(b, capacity) && capacity >= 1
    ensures var n := Request(b, capacity, primaryPool, key, created).0;
            && Inv(n, capacity)
            && n.primary == (if b.primary.None? then Some(key) else b.primary)
            && n.lru == if n.primary == Some(key) then b.lru else Recall(b.lru, capacity, key, created.Some?)
  {
    var named := if b.primary.None? then b.(primary := Some(key)) else b;
    if named.primary == Some(key) {
    } else if key in named.sessions {
      WithoutKeeps(named.lru, key);
      DistinctSnoc(Without(named.lru, key), key);
    } else {
      EvictsFront(named, capacity);
      var room := EvictTo(named, capacity);
      if created.Some? {
        InsertKeepsInv(room, capacity, key, created.value);
      }
    }
  }

  // ----- runs --------------------------------------------------------------

  datatype Ask = Ask(key: Key, created: Option<Pool>)

  function Run(b: Buckets, capacity: nat, primaryPool: Pool, asks: seq<Ask>): Buckets {
    if asks == [] then b
    else
      var last := |asks| - 1;
      Request(Run(b, capacity, primaryPool, asks[..last]), capacity, primaryPool, asks[last].key, asks[last].created).0
  }

  /** The secondary keys of a run, read off the requests alone: the first key
      asked for is the primary one. */
  function SecondaryKeys(asks: seq<Ask>): seq<Key> {
    if |asks| <= 1 then []
    else
      var last := |asks| - 1;
      SecondaryKeys(asks[..last]) + (if asks[last].key == asks[0].key then [] else [asks[last].key])
  }

  ghost predicate CreationsSucceed(asks: seq<Ask>) {
    forall i | 0 <= i < |asks| :: asks[i].created.Some?
  }

  lemma {:induction false} RunKeepsInv(capacity: nat, primaryPool: Pool, asks: seq<Ask>)
    requires capacity >= 1
    ensures Inv(Run(EMPTY, capacity, primaryPool, asks), capacity)
    ensures Run(EMPTY, capacity, primaryPool, asks).primary == if asks == [] then None else Some(asks[0].key)
  {
    if asks != [] {
      var last := |asks| - 1;
      RunKeepsInv(capacity, primaryPool, asks[..last]);
      RequestKeepsInv(Run(EMPTY, capacity, primaryPool, asks[..last]), capacity, primaryPool, asks[last].key, asks[last].created);
    }
  }

  lemma RecencyStep(capacity: nat, used: seq<Key>, key: Key)
    requires capacity >= 1
    ensures Recall(LastN(capacity, LastUses(used)), capacity, key, true) == LastN(capacity, LastUses(used + [key]))
  {
    var lru := LastN(capacity, LastUses(used));
    LastUsesDistinct(used);
    LastNIsSuffix(capacity, LastUses(used));
    RecallTracksRecency(lru, capacity, key, true, LastUses(used));
    LastUsesAppend(used, key);
    LongestSuffix(capacity, Recall(lru, capacity, key, true), LastUses(used + [key]));
  }

  lemma Resident(b: Buckets, capacity: nat, key: Key)
    requires Inv(b, capacity)
    ensures key in b.sessions <==> key in b.lru
  {
  }

  /** After any run whose session creations succeed, the list is exactly the
      last `capacity` distinct secondary keys in order of last use. */
  lemma {:induction false} LruIsRecency(capacity: nat, primaryPool: Pool, asks: seq<Ask>)
    requires capacity >= 1 && CreationsSucceed(asks)
    ensures Run(EMPTY, capacity, primaryPool, asks).lru == LastN(capacity, LastUses(SecondaryKeys(asks)))
  {
    hide Request, LastUses, Recall, LastN, Inv;
    if |asks| <= 1 {
      FirstAsk(capacity, primaryPool, asks);
    } else {
      var last := |asks| - 1;
      var before, key := asks[..last], asks[last].key;
      LruIsRecency(capacity, primaryPool, before);
      RunKeepsInv(capacity, primaryPool, before);
      var b, used := Run(EMPTY, capacity, primaryPool, before), SecondaryKeys(before);
      RequestKeepsInv(b, capacity, primaryPool, key, asks[last].created);
      assert before[0] == asks[0];
      if key != asks[0].key {
        RecencyStep(capacity, used, key);
      } else {
        assert used + [] == used;
      }
    }
  }

  /** The first request only names the primary bucket. */
  lemma FirstAsk(capacity: nat, primaryPool: Pool, asks: seq<Ask>)
    requires |asks| <= 1
    ensures Run(EMPTY, capacity, primaryPool, asks).lru == [] == LastN(capacity, LastUses(SecondaryKeys(asks)))
  {
    if |asks| == 1 {
      assert asks[..0] == [];
    }
  }

  /** A larger cache keeps what a smaller one keeps. */
  lemma CapacityIsMonotone(capacity: nat, primaryPool: Pool, asks: seq<Ask>, key: Key)
    requires capacity >= 1 && CreationsSucceed(asks)
    requires key in Run(EMPTY, capacity, primaryPool, asks).sessions
    ensures key in Run(EMPTY, capacity + 1, primaryPool, asks).sessions
  {
    hide Request, LastUses, LastN, Inv, Run, SecondaryKeys;
    var small, large := Run(EMPTY, capacity, primaryPool, asks), Run(EMPTY, capacity + 1, primaryPool, asks);
    RunKeepsInv(capacity, primaryPool, asks);
    RunKeepsInv(capacity + 1, primaryPool, asks);
    Resident(small, capacity, key);
    Resident(large, capacity + 1, key);
    LruIsRecency(capacity, primaryPool, asks);
    LruIsRecency(capacity + 1, primaryPool, asks);
    LastNGrows(capacity, LastUses(SecondaryKeys(asks)), key);
  }

  // ----- the pool a request is answered with ---------------------------------

  lemma {:induction false} EvictionKeepsPools(b: Buckets, capacity: nat, key: Key)
    requires key in EvictTo(b, capacity).sessions
    ensures key in b.sessions && EvictTo(b, capacity).sessions[key] == b.sessions[key]
    decreases |b.lru|
  {
    if |b.sessions| >= capacity && b.lru != [] {
      EvictionKeepsPools(b.(lru := b.lru[1..], sessions := b.sessions - {b.lru[0]}), capacity, key);
    }
  }

  /** The primary key is answered with the primary pool, a key of the new table
      with its own pool, any other not at all. A hit and a request for the primary
      key leave the pools alone; a miss stores the created pool under its key. */
  lemma RequestAnswers(b: Buckets, capacity: nat, primaryPool: Pool, key: Key, created: Option<Pool>)
    requires Inv(b, capacity) && capacity >= 1
    ensures var (n, answer) := Request(b, capacity, primaryPool, key, created);
            && (n.primary == Some(key) ==> answer == Some(primaryPool))
            && (n.primary != Some(key) ==> answer == if key in n.sessions then Some(n.sessions[key]) else None)
            && (n.primary == Some(key) || key in b.sessions ==> n.sessions == b.sessions)
            && (n.primary != Some(key) && key !in b.sessions ==> answer == created)
            && (forall k | k in n.sessions && k != key :: k in b.sessions && n.sessions[k] == b.sessions[k])
  {
    var named := if b.primary.None? then b.(primary := Some(key)) else b;
    forall k | k in EvictTo(named, capacity).sessions
      ensures k in b.sessions && EvictTo(named, capacity).sessions[k] == b.sessions[k]
    {
      EvictionKeepsPools(named, capacity, k);
    }
    EvictsFront(named, capacity);
  }

  /** The answer to request `i` of a run. */
  function AnswerAt(capacity: nat, primaryPool: Pool, asks: seq<Ask>, i: nat): Option<Pool>
    requires i < |asks|
  {
    Request(Run(EMPTY, capacity, primaryPool, asks[..i]), capacity, primaryPool, asks[i].key, asks[i].created).1
  }

  /** Request `i` finds no pool for its secondary key. */
  predicate Misses(capacity: nat, primaryPool: Pool, asks: seq<Ask>, i: nat)
    requires i < |asks|
  {
    asks[i].key != asks[0].key && asks[i].key !in Run(EMPTY, capacity, primaryPool, asks[..i]).sessions
  }

  /** `i` is the last miss of its key before request `n`. */
  ghost predicate LastMiss(capacity: nat, primaryPool: Pool, asks: seq<Ask>, i: nat, n: nat)
    requires n <= |asks|
  {
    && i < n && Misses(capacity, primaryPool, asks, i)
    && forall j | i < j < n && asks[j].key == asks[i].key :: !Misses(capacity, primaryPool, asks, j)
  }

  /** A resident key has the pool that its own last miss created. */
  lemma {:induction false} ResidentSinceLastMiss(capacity: nat, primaryPool: Pool, asks: seq<Ask>, n: nat, key: Key)
    requires capacity >= 1 && n <= |asks| && key in Run(EMPTY, capacity, primaryPool, asks[..n]).sessions
    ensures exists i: nat :: LastMiss(capacity, primaryPool, asks, i, n) && asks[i].key == key
              && asks[i].created == Some(Run(EMPTY, capacity, primaryPool, asks[..n]).sessions[key])
    decreases n
  {
    NothingRun(capacity, primaryPool, asks);
    hide Request, Inv, Run;
    if n > 0 {
      var last, ask := n - 1, asks[n - 1];
      var b, after := Run(EMPTY, capacity, primaryPool, asks[..last]), Run(EMPTY, capacity, primaryPool, asks[..n]);
      RunSnoc(capacity, primaryPool, asks, last);
      RunKeepsInv(capacity, primaryPool, asks[..last]);
      RunKeepsInv(capacity, primaryPool, asks[..n]);
      RequestAnswers(b, capacity, primaryPool, ask.key, ask.created);
      SecondaryOnly(after, capacity, key);
      if key == ask.key && key !in b.sessions {
        assert LastMiss(capacity, primaryPool, asks, last, n);
      } else {
        ResidentSinceLastMiss(capacity, primaryPool, asks, last, key);
        var i: nat :| LastMiss(capacity, primaryPool, asks, i, last) && asks[i].key == key && asks[i].created == Some(b.sessions[key]);
        assert LastMiss(capacity, primaryPool, asks, i, n);
      }
    }
  }

  lemma NothingRun(capacity: nat, primaryPool: Pool, asks: seq<Ask>)
    ensures Run(EMPTY, capacity, primaryPool, asks[..0]) == EMPTY
  {
  }

  lemma RunSnoc(capacity: nat, primaryPool: Pool, asks: seq<Ask>, n: nat)
    requires n < |asks|
    ensures Run(EMPTY, capacity, primaryPool, asks[..n + 1]) ==
            Request(Run(EMPTY, capacity, primaryPool, asks[..n]), capacity, primaryPool, asks[n].key, asks[n].created).0
  {
    assert asks[..n + 1][..n] == asks[..n];
  }

  lemma SecondaryOnly(b: Buckets, capacity: nat, key: Key)
    requires Inv(b, capacity) && key in b.sessions
    ensures b.primary.Some? && b.primary.value != key
  {
  }

  /** In every run, requests for the first key are answered with the primary pool;
      any other is answered with the pool created by the last miss of its own key,
      that request included, and not at all if its creation fails. */
  lemma RequestsKeepTheirPool(capacity: nat, primaryPool: Pool, asks: seq<Ask>, n: nat)
    requires capacity >= 1 && n < |asks|
    ensures var answer := AnswerAt(capacity, primaryPool, asks, n);
            if asks[n].key == asks[0].key then answer == Some(primaryPool)
            else exists i: nat :: LastMiss(capacity, primaryPool, asks, i, n + 1) && asks[i].key == asks[n].key && answer == asks[i].created
  {
    hide Request, Inv;
    var key := asks[n].key;
    var b, after := Run(EMPTY, capacity, primaryPool, asks[..n]), Run(EMPTY, capacity, primaryPool, asks[..n + 1]);
    RunSnoc(capacity, primaryPool, asks, n);
    RunKeepsInv(capacity, primaryPool, asks[..n]);
    RunKeepsInv(capacity, primaryPool, asks[..n + 1]);
    RequestAnswers(b, capacity, primaryPool, key, asks[n].created);
    if key != asks[0].key {
      if key in after.sessions {
        ResidentSinceLastMiss(capacity, primaryPool, asks, n + 1, key);
      } else {
        assert LastMiss(capacity, primaryPool, asks, n, n + 1);
      }
    }
  }

  // ----- the table object --------------------------------------------------

  class BucketSessionState {
    var primaryBucketKey: Option<Key>
    var sessions: map<Key, Pool>
    var lru: seq<Key>

    ghost function Value(): Buckets
      reads this
    {
      Buckets(primaryBucketKey, sessions, lru)
    }

    constructor ()
      ensures Value() == EMPTY
    {
      primaryBucketKey, sessions, lru := None, map[], [];
    }

    method TouchBucketLru(key: Key)
      modifies this`lru
      ensures lru == Touch(old(lru), key)
    {
      var position := 0;
      while position < |lru| && lru[position] != key
        invariant 0 <= position <= |lru|
        invariant key !in lru[..position]
      {
        position := position + 1;
      }
      WithoutParts(lru[..position], lru[position..], key);
      assert lru == lru[..position] + lru[position..];
      if position < |lru| {
        lru := lru[..position] + lru[position + 1..];
      }
      lru := lru + [key];
    }

    /** Pops the least recently used keys until one more pool fits. */
    method Evict(capacity: nat)
      modifies this`lru, this`sessions
      ensures Value() == EvictTo(old(Value()), capacity)
    {
      ghost var before := Value();
      while |sessions| >= capacity
        invariant primaryBucketKey == before.primary
        invariant EvictTo(Value(), capacity) == EvictTo(before, capacity)
        decreases |lru|
      {
        if lru == [] {
          break;
        }
        var evicted := lru[0];
        lru := lru[1..];
        sessions := sessions - {evicted};
      }
    }

    method PoolForRequest(maxBuckets: nat, primaryPool: Pool, key: Key, created: Option<Pool>) returns (pool: Option<Pool>)
      requires Inv(Value(), SecondaryCapacity(maxBuckets))
      modifies this
      ensures maxBuckets <= 1 ==> pool == Some(primaryPool) && Value() == old(Value())
      ensures maxBuckets > 1 ==>
          (Value(), pool) == Request(old(Value()), SecondaryCapacity(maxBuckets), primaryPool, key, created)
      ensures Inv(Value(), SecondaryCapacity(maxBuckets))
    {
      hide Inv, EvictTo, Touch;
      if maxBuckets <= 1 {
        return Some(primaryPool);
      }
      var capacity := Max(maxBuckets - 1, 1);
      RequestKeepsInv(Value(), capacity, primaryPool, key, created);
      if primaryBucketKey.None? {
        primaryBucketKey := Some(key);
      }
      if primaryBucketKey.value == key {
        return Some(primaryPool);
      }
      if key in sessions {
        pool := Some(sessions[key]);
        TouchBucketLru(key);
        return;
      }
      Evict(capacity);
      if created.None? {
        return None;
      }
      sessions := sessions[key := created.value];
      TouchBucketLru(key);
      return created;
    }
  }
}
