/** Agreement across ranks: exactly which geometries can be described and which
    sizings make a plan. */
module PlanAgreement {
  import opened Common
  import opened Sorting
  import opened Planning

  predicate AllDistinct(values: seq<nat>) {
    forall i, j | 0 <= i < j < |values| :: values[i] != values[j]
  }

  function Values(values: seq<nat>): set<nat> {
    set v | v in values
  }

  lemma {:induction false} DistinctIffFull(values: seq<nat>)
    ensures |Values(values)| <= |values|
    ensures AllDistinct(values) <==> |Values(values)| == |values|
  {
    if values == [] {
      assert Values(values) == {};
    } else {
      var last := |values| - 1;
      var front := values[..last];
      DistinctIffFull(front);
      assert values == front + [values[last]];
      assert Values(values) == Values(front) + {values[last]};
      if values[last] in front {
        assert Values(values) == Values(front);
        var i :| 0 <= i < last && front[i] == values[last];
        assert values[i] == values[last];
      } else {
        assert values[last] !in Values(front);
      }
    }
  }

  lemma {:induction false} RangeIs(n: nat)
    ensures |Range(n)| == n && forall v: nat :: v in Range(n) <==> v < n
  {
    if n > 0 {
      RangeIs(n - 1);
    }
  }

  function RankIdsOf(ranks: seq<RankGeometry>): (ids: seq<nat>)
    ensures |ids| == |ranks| && forall i | 0 <= i < |ranks| :: ids[i] == ranks[i].rank
  {
    seq(|ranks|, i requires 0 <= i < |ranks| => ranks[i].rank)
  }

  function DevicesOf(ranks: seq<RankGeometry>): (ids: seq<nat>)
    ensures |ids| == |ranks| && forall i | 0 <= i < |ranks| :: ids[i] == ranks[i].deviceId
  {
    seq(|ranks|, i requires 0 <= i < |ranks| => ranks[i].deviceId)
  }

  function BytesOf(ranks: seq<RankGeometry>): (bytes: seq<nat>)
    ensures |bytes| == |ranks| && forall i | 0 <= i < |ranks| :: bytes[i] == ranks[i].bytesPerBlock
  {
    seq(|ranks|, i requires 0 <= i < |ranks| => ranks[i].bytesPerBlock)
  }

  /** Numbers that increase and are the first `n`, each in its place. */
  lemma {:induction false} InPlace(ids: seq<nat>, i: nat)
    requires (forall j, k | 0 <= j < k < |ids| :: ids[j] < ids[k]) && (forall j | 0 <= j < |ids| :: ids[j] < |ids|) && i < |ids|
    ensures ids[i] >= i && |ids| - ids[i] >= |ids| - i
    decreases i
  {
    AtLeastPlace(ids, i);
    AtMostPlace(ids, i);
  }

  lemma {:induction false} AtLeastPlace(ids: seq<nat>, i: nat)
    requires (forall j, k | 0 <= j < k < |ids| :: ids[j] < ids[k]) && i < |ids|
    ensures ids[i] >= i
  {
    if i > 0 {
      AtLeastPlace(ids, i - 1);
    }
  }

  lemma {:induction false} AtMostPlace(ids: seq<nat>, i: nat)
    requires (forall j, k | 0 <= j < k < |ids| :: ids[j] < ids[k]) && (forall j | 0 <= j < |ids| :: ids[j] < |ids|) && i < |ids|
    ensures ids[i] <= i
    decreases |ids| - i
  {
    if i < |ids| - 1 {
      AtMostPlace(ids, i + 1);
    }
  }

  /** `ordered` lists the ranks 0, 1, ... in place, on distinct devices, with one
      geometry and a total that fits 64 bits. */
  ghost predicate InOrder(ordered: seq<RankGeometry>, worldSize: nat) {
    && |ordered| == worldSize
    && (forall i | 0 <= i < |ordered| :: ordered[i].rank == i)
    && (forall i, j | 0 <= i < j < |ordered| :: ordered[i].deviceId != ordered[j].deviceId)
    && (forall i | 1 <= i < |ordered| ::
          && ordered[i].bytesPerBlock == ordered[0].bytesPerBlock
          && ordered[i].overhead == ordered[0].overhead && ordered[i].groups == ordered[0].groups)
    && Sum(BytesOf(ordered)) <= U64_MAX
  }

  /** A geometry is accepted exactly when its ranks, in some order, are in order;
      and that order is the result. */
  lemma DescribeIff(ranks: seq<RankGeometry>, worldSize: nat, ordered: seq<RankGeometry>)
    requires worldSize > 0
    ensures Describe(ranks, worldSize) == Ok(ordered) <==>
            multiset(ordered) == multiset(ranks) && InOrder(ordered, worldSize)
  {
    var sorted := Sort(BY_RANK, ranks);
    SortPermutes(BY_RANK, ranks);
    assert TotalPreorder(BY_RANK);
    SortSorts(BY_RANK, ranks);
    if multiset(ordered) == multiset(ranks) && InOrder(ordered, worldSize) {
      assert Sorted(BY_RANK, ordered) && NoTies(BY_RANK, ordered);
      SortedUnique(BY_RANK, ordered, sorted);
    }
    SortedIsDescribed(ranks, worldSize, sorted);
  }

  lemma SortedIsDescribed(ranks: seq<RankGeometry>, worldSize: nat, sorted: seq<RankGeometry>)
    requires worldSize > 0 && sorted == Sort(BY_RANK, ranks) && Sorted(BY_RANK, sorted)
    ensures Describe(ranks, worldSize).Ok? <==> InOrder(sorted, worldSize)
    ensures Describe(ranks, worldSize).Ok? ==> Describe(ranks, worldSize).value == sorted
  {
    RanksInPlace(sorted);
    DevicesDistinct(sorted);
    assert BytesOf(sorted) == seq(|sorted|, i requires 0 <= i < |sorted| => sorted[i].bytesPerBlock);
    hide Ids, Range, Sort, BytesOf;
  }

  lemma DevicesDistinct(sorted: seq<RankGeometry>)
    ensures |set i | 0 <= i < |sorted| :: sorted[i].deviceId| == |sorted| <==>
            forall i, j | 0 <= i < j < |sorted| :: sorted[i].deviceId != sorted[j].deviceId
  {
    DistinctIffFull(DevicesOf(sorted));
    assert (set i | 0 <= i < |sorted| :: sorted[i].deviceId) == Values(DevicesOf(sorted));
  }

  lemma RanksInPlace(sorted: seq<RankGeometry>)
    requires Sorted(BY_RANK, sorted)
    ensures Ids(sorted) == Range(|sorted|) <==> forall i | 0 <= i < |sorted| :: sorted[i].rank == i
  {
    var ids := RankIdsOf(sorted);
    RangeIs(|sorted|);
    assert Ids(sorted) == Values(ids);
    DistinctIffFull(ids);
    if Ids(sorted) == Range(|sorted|) {
      forall j, k | 0 <= j < k < |ids| ensures ids[j] < ids[k] {
        assert BY_RANK(sorted[j], sorted[k]);
      }
      forall i | 0 <= i < |ids| ensures ids[i] < |ids| {
        assert ids[i] in Range(|sorted|);
      }
      forall i | 0 <= i < |sorted| ensures sorted[i].rank == i {
        InPlace(ids, i);
      }
    } else if forall i | 0 <= i < |sorted| :: sorted[i].rank == i {
      forall v: nat ensures v in Ids(sorted) <==> v in Range(|sorted|) {
        assert v < |sorted| ==> sorted[v].rank == v;
      }
      assert false;
    }
  }

  predicate HasRank(sizes: seq<Sizing>, r: nat) {
    exists i :: 0 <= i < |sizes| && sizes[i].rank == r
  }

  /** All ranks got the same counts and bytes, the maximum is not below, every rank
      is there, and the total fits 64 bits. */
  ghost predicate Agreeing(sizes: seq<Sizing>, worldSize: nat) {
    && |sizes| == worldSize > 0
    && (forall i | 0 <= i < |sizes| :: sizes[i].rank < |sizes|)
    && (forall r: nat | r < |sizes| :: HasRank(sizes, r))
    && (forall i | 0 <= i < |sizes| ::
          && sizes[i].desiredBlocks == sizes[0].desiredBlocks && sizes[i].desiredBytes == sizes[0].desiredBytes
          && sizes[i].maximumBlocks == sizes[0].maximumBlocks && sizes[i].maximumBytes == sizes[0].maximumBytes
          && sizes[i].maximumBlocks >= sizes[i].desiredBlocks)
    && Sum(DesiredBytes(sizes)) <= U64_MAX
  }

  lemma OneValueIff(values: seq<nat>)
    ensures OneValue(values) <==> values != [] && forall i | 0 <= i < |values| :: values[i] == values[0]
  {
    var all := Values(values);
    if values != [] {
      assert values[0] in all;
      if forall i | 0 <= i < |values| :: values[i] == values[0] {
        AllEqualIsOneValue(values, values[0]);
      } else {
        var i :| 0 <= i < |values| && values[i] != values[0];
        assert values[i] in all - {values[0]} && |all - {values[0]}| == |all| - 1;
        assert (set v | v in values) == all;
      }
    }
  }

  /** The cross-rank checks accept exactly agreeing sizings. */
  lemma CheckResultIff(sizes: seq<Sizing>, worldSize: nat)
    ensures CheckResult(sizes, worldSize) == Ok(sizes) <==> Agreeing(sizes, worldSize)
    ensures CheckResult(sizes, worldSize).Ok? ==> CheckResult(sizes, worldSize).value == sizes
  {
    ColumnAgrees(sizes, (s: Sizing) => s.desiredBlocks);
    ColumnAgrees(sizes, (s: Sizing) => s.desiredBytes);
    ColumnAgrees(sizes, (s: Sizing) => s.maximumBlocks);
    ColumnAgrees(sizes, (s: Sizing) => s.maximumBytes);
    RanksCovered(sizes);
    hide OneValue, Range, Column, HasRank;
  }

  lemma ColumnAgrees(sizes: seq<Sizing>, field: Sizing -> nat)
    ensures OneValue(Column(sizes, field)) <==> sizes != [] && forall i | 0 <= i < |sizes| :: field(sizes[i]) == field(sizes[0])
  {
    OneValueIff(Column(sizes, field));
  }

  lemma RanksCovered(sizes: seq<Sizing>)
    ensures (set i | 0 <= i < |sizes| :: sizes[i].rank) == Range(|sizes|) <==>
            && (forall i | 0 <= i < |sizes| :: sizes[i].rank < |sizes|)
            && (forall r: nat | r < |sizes| :: HasRank(sizes, r))
  {
    RangeIs(|sizes|);
    var ids := set i | 0 <= i < |sizes| :: sizes[i].rank;
    if ids == Range(|sizes|) {
      forall r: nat | r < |sizes| ensures HasRank(sizes, r) {
        assert r in ids;
      }
      forall i | 0 <= i < |sizes| ensures sizes[i].rank < |sizes| {
        assert sizes[i].rank in ids;
      }
    } else if (forall i | 0 <= i < |sizes| :: sizes[i].rank < |sizes|) && forall r: nat | r < |sizes| :: HasRank(sizes, r) {
      forall r: nat ensures r in ids <==> r in Range(|sizes|) {
        assert r < |sizes| ==> HasRank(sizes, r);
      }
      assert false;
    }
  }
}
