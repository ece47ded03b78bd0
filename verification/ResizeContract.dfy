/** Validation of the elastic pool receipt and of live resize operations: the
    segments must tile the mapped prefix, or the changed tail, exactly. A
    rejection is `false`; the source raises one exception type. */
module ResizeContract {
  import opened Common
  import opened Sorting

  datatype Stage = MapWorkers | ActivateScheduler | RetireScheduler | UnmapWorkers | Unsupported

  datatype Segment = Segment(id: string, offset: int, length: int, handle: int)

  datatype Operation = Operation(
    participantEpoch: int, generation: int, bindingId: string, stage: Stage,
    fromBlocks: int, targetBlocks: int, stride: int, granularity: int, segments: seq<Segment>)

  datatype ElasticPool = ElasticPool(
    minimumBlocks: int, mappedBlocks: int, maximumBlocks: int,
    granularity: int, alignment: int, segments: seq<Segment>)

  /** ASCII white space, as stripping a string removes it. */
  predicate IsSpace(c: char) {
    c == ' ' || 9 <= c as int <= 13 || 28 <= c as int <= 31
  }

  function StripLeft(s: string): string {
    if s != [] && IsSpace(s[0]) then StripLeft(s[1..]) else s
  }

  function Strip(s: string): string {
    if s != [] && IsSpace(s[|s| - 1]) then Strip(s[..|s| - 1]) else StripLeft(s)
  }

  /** A string with something left when stripped. */
  predicate Nonempty(s: string) {
    Strip(s) != []
  }

  lemma {:induction false} StripLeftIff(s: string)
    ensures StripLeft(s) != [] <==> exists i | 0 <= i < |s| :: !IsSpace(s[i])
  {
    if s != [] && IsSpace(s[0]) {
      StripLeftIff(s[1..]);
      assert forall i | 1 <= i < |s| :: s[i] == s[1..][i - 1];
    }
  }

  /** Nothing is left exactly of strings of tab to carriage return, file to unit
      separator, and space characters. */
  lemma {:induction false} NonemptyIff(s: string)
    ensures Nonempty(s) <==> exists i | 0 <= i < |s| :: s[i] > ' ' || s[i] < '\t' || '\r' < s[i] < '\U{1C}'
  {
    if s != [] && IsSpace(s[|s| - 1]) {
      NonemptyIff(s[..|s| - 1]);
      assert forall i | 0 <= i < |s| - 1 :: s[i] == s[..|s| - 1][i];
    } else {
      StripLeftIff(s);
    }
  }

  // ----- tilings -----------------------------------------------------------

  /** The pieces, in this order, are non-empty, adjoin, and run from `start` to
      `end`. */
  ghost predicate Tiles(p: seq<Segment>, start: int, end: int) {
    if p == [] then start == end
    else
      var last := p[|p| - 1];
      last.length > 0 && last.offset + last.length == end && Tiles(p[..|p| - 1], start, last.offset)
  }

  predicate Aligned(s: Segment, granularity: int)
    requires granularity > 0
  {
    && Nonempty(s.id) && s.offset >= 0 && s.length > 0 && s.handle >= 0
    && s.offset % granularity == 0 && s.length % granularity == 0
  }

  ghost predicate DistinctMarks(p: seq<Segment>) {
    forall i, j | 0 <= i < j < |p| :: p[i].id != p[j].id && p[i].handle != p[j].handle
  }

  ghost predicate Covers(p: seq<Segment>, start: int, end: int, granularity: int)
    requires granularity > 0
  {
    && Tiles(p, start, end)
    && DistinctMarks(p)
    && forall i | 0 <= i < |p| :: Aligned(p[i], granularity)
  }

  /** The segments cover the interval in some order. */
  ghost predicate CoversInSomeOrder(segments: seq<Segment>, start: int, end: int, granularity: int)
    requires granularity > 0
  {
    exists p: seq<Segment> :: multiset(p) == multiset(segments) && Covers(p, start, end, granularity)
  }

  const BY_OFFSET := (a: Segment, b: Segment) => a.offset <= b.offset

  lemma {:induction false} TilesPrefix(p: seq<Segment>, start: int, end: int, i: nat)
    requires Tiles(p, start, end) && i < |p|
    ensures Tiles(p[..i], start, p[i].offset) && p[i].length > 0
    ensures start <= p[i].offset && p[i].offset + p[i].length <= end
  {
    var last := |p| - 1;
    if i < last {
      TilesPrefix(p[..last], start, p[last].offset, i);
      assert p[..last][..i] == p[..i];
    } else {
      TilesLength(p[..last], start, p[last].offset);
    }
  }

  lemma {:induction false} TilesLength(p: seq<Segment>, start: int, end: int)
    requires Tiles(p, start, end)
    ensures start <= end && (p == [] <==> start == end)
  {
    if p != [] {
      TilesLength(p[..|p| - 1], start, p[|p| - 1].offset);
    }
  }

  lemma TilesIncrease(p: seq<Segment>, start: int, end: int, i: nat, j: nat)
    requires Tiles(p, start, end) && i < j < |p|
    ensures p[i].offset < p[j].offset
  {
    TilesPrefix(p, start, end, j);
    TilesPrefix(p[..j], start, p[j].offset, i);
  }

  lemma {:induction false} TilesConcat(p: seq<Segment>, q: seq<Segment>, a: int, b: int, c: int)
    requires Tiles(p, a, b) && Tiles(q, b, c)
    ensures Tiles(p + q, a, c)
  {
    if q == [] {
      assert p + q == p;
    } else {
      var last := |q| - 1;
      TilesConcat(p, q[..last], a, b, q[last].offset);
      assert (p + q)[..|p| + last] == p + q[..last];
    }
  }

  /** Only the order by offset can tile, so sorting decides. */
  lemma SortedOrderDecides(segments: seq<Segment>, start: int, end: int, granularity: int)
    requires granularity > 0
    ensures CoversInSomeOrder(segments, start, end, granularity) <==>
            Covers(Sort(BY_OFFSET, segments), start, end, granularity)
  {
    var sorted := Sort(BY_OFFSET, segments);
    SortPermutes(BY_OFFSET, segments);
    if CoversInSomeOrder(segments, start, end, granularity) {
      var p :| multiset(p) == multiset(segments) && Covers(p, start, end, granularity);
      TilingIsSorted(p, start, end);
      assert TotalPreorder(BY_OFFSET);
      SortSorts(BY_OFFSET, segments);
      SortedUnique(BY_OFFSET, p, sorted);
    }
  }

  lemma TilingIsSorted(p: seq<Segment>, start: int, end: int)
    requires Tiles(p, start, end)
    ensures Sorted(BY_OFFSET, p) && NoTies(BY_OFFSET, p)
  {
    forall i, j | 0 <= i < j < |p| ensures p[i].offset < p[j].offset {
      TilesIncrease(p, start, end, i, j);
    }
  }

  // ----- the shared segment loop -------------------------------------------

  /** Walks the segments by offset; the result is where they end, if they are
      well formed, distinctly marked, and adjoin from `start` on. */
  method WalkSegments(segments: seq<Segment>, start: int, granularity: int) returns (end: Option<int>)
    requires granularity > 0
    ensures end.Some? ==> CoversInSomeOrder(segments, start, end.value, granularity)
    ensures forall e | CoversInSomeOrder(segments, start, e, granularity) :: end == Some(e)
  {
    forall e ensures CoversInSomeOrder(segments, start, e, granularity) <==> Covers(Sort(BY_OFFSET, segments), start, e, granularity) {
      SortedOrderDecides(segments, start, e, granularity);
    }
    end := WalkOrdered(Sort(BY_OFFSET, segments), start, granularity);
  }

  method WalkOrdered(ordered: seq<Segment>, start: int, granularity: int) returns (end: Option<int>)
    requires granularity > 0
    ensures end.Some? ==> Covers(ordered, start, end.value, granularity)
    ensures forall e | Covers(ordered, start, e, granularity) :: end == Some(e)
  {
    hide Covers, Nonempty;
    var expectedOffset := start;
    NothingCovered(start, granularity);
    var seenIds: set<string>, seenHandles: set<int> := {}, {};
    for i := 0 to |ordered|
      invariant Covers(ordered[..i], start, expectedOffset, granularity)
      invariant forall id :: id in seenIds <==> exists j | 0 <= j < i :: ordered[j].id == id
      invariant forall handle :: handle in seenHandles <==> exists j | 0 <= j < i :: ordered[j].handle == handle
    {
      var segment := ordered[i];
      NextPiece(ordered, i, start, expectedOffset, granularity);
      if !Nonempty(segment.id) || segment.offset < 0 || segment.length <= 0 || segment.handle < 0 {
        return None;
      }
      if segment.id in seenIds || segment.handle in seenHandles || segment.offset != expectedOffset
        || segment.offset % granularity != 0 || segment.length % granularity != 0
      {
        return None;
      }
      CoversSnoc(ordered[..i], segment, start, granularity);
      assert ordered[..i + 1] == ordered[..i] + [segment];
      seenIds := seenIds + {segment.id};
      seenHandles := seenHandles + {segment.handle};
      expectedOffset := expectedOffset + segment.length;
    }
    assert ordered[..|ordered|] == ordered;
    forall e | Covers(ordered, start, e, granularity) ensures e == expectedOffset {
      CoversEnd(ordered, start, expectedOffset, e, granularity);
    }
    return Some(expectedOffset);
  }

  lemma TilesEnd(p: seq<Segment>, start: int, a: int, b: int)
    requires Tiles(p, start, a) && Tiles(p, start, b)
    ensures a == b
  {
  }

  lemma CoversEnd(p: seq<Segment>, start: int, a: int, b: int, granularity: int)
    requires granularity > 0 && Covers(p, start, a, granularity) && Covers(p, start, b, granularity)
    ensures a == b
  {
    TilesEnd(p, start, a, b);
  }

  lemma NothingCovered(start: int, granularity: int)
    requires granularity > 0
    ensures Covers([], start, start, granularity)
  {
  }

  /** What a cover asks of the piece after a covered prefix. */
  lemma NextPiece(ordered: seq<Segment>, i: nat, start: int, expected: int, granularity: int)
    requires granularity > 0 && i < |ordered| && Covers(ordered[..i], start, expected, granularity)
    ensures (exists e :: Covers(ordered, start, e, granularity)) ==>
        && ordered[i].offset == expected && Aligned(ordered[i], granularity)
        && forall j | 0 <= j < i :: ordered[j].id != ordered[i].id && ordered[j].handle != ordered[i].handle
  {
    if e :| Covers(ordered, start, e, granularity) {
      TilesPrefix(ordered, start, e, i);
      TilesEnd(ordered[..i], start, expected, ordered[i].offset);
    }
  }

  lemma CoversSnoc(p: seq<Segment>, s: Segment, start: int, granularity: int)
    requires granularity > 0 && Covers(p, start, s.offset, granularity) && Aligned(s, granularity)
    requires forall i | 0 <= i < |p| :: p[i].id != s.id && p[i].handle != s.handle
    ensures Covers(p + [s], start, s.offset + s.length, granularity)
  {
    assert (p + [s])[..|p|] == p;
  }

  // ----- resize operations -------------------------------------------------

  predicate Physical(stage: Stage) {
    stage == MapWorkers || stage == UnmapWorkers
  }

  function Start(op: Operation): int {
    Min(op.fromBlocks, op.targetBlocks) * op.stride
  }

  function End(op: Operation): int {
    Max(op.fromBlocks, op.targetBlocks) * op.stride
  }

  /** Everything the validator asks apart from the segments. */
  predicate Framed(op: Operation) {
    && op.participantEpoch > 0 && op.generation > 0 && Nonempty(op.bindingId)
    && op.stage != Unsupported
    && op.fromBlocks > 0 && op.targetBlocks > 0 && op.fromBlocks != op.targetBlocks
    && (op.targetBlocks > op.fromBlocks <==> op.stage == MapWorkers || op.stage == ActivateScheduler)
    && op.stride > 0 && op.granularity > 0
    && Start(op) % op.granularity == 0 && End(op) % op.granularity == 0
  }

  /** Worker stages need segments that cover the changed tail; scheduler stages
      need none. */
  ghost predicate ExactlyCovered(op: Operation)
    requires op.granularity > 0
  {
    if Physical(op.stage) then CoversInSomeOrder(op.segments, Start(op), End(op), op.granularity)
    else op.segments == []
  }

  method ValidateResizeOperation(op: Operation) returns (ok: bool)
    ensures ok <==> Acceptable(op)
  {
    if op.participantEpoch <= 0 || op.generation <= 0 || !Nonempty(op.bindingId) || op.stage == Unsupported {
      return false;
    }
    if op.fromBlocks <= 0 || op.targetBlocks <= 0 || op.fromBlocks == op.targetBlocks {
      return false;
    }
    var growing := op.targetBlocks > op.fromBlocks;
    if (growing && op.stage != MapWorkers && op.stage != ActivateScheduler)
      || (!growing && op.stage != RetireScheduler && op.stage != UnmapWorkers)
    {
      return false;
    }
    if op.stride <= 0 || op.granularity <= 0 {
      return false;
    }
    var start, end := Start(op), End(op);
    if start % op.granularity != 0 || end % op.granularity != 0 {
      return false;
    }
    var physical := Physical(op.stage);
    assert start < end by { Scale(Min(op.fromBlocks, op.targetBlocks), Max(op.fromBlocks, op.targetBlocks), op.stride); }
    if physical != (op.segments != []) {
      if physical && ExactlyCovered(op) {
        EmptyCoversNothing(op.segments, start, end, op.granularity);
      }
      return false;
    }
    var covered := WalkSegments(op.segments, start, op.granularity);
    if covered.None? || (physical && covered.value != end) {
      if !physical {
        NothingCovers(start, op.granularity);
      }
      return false;
    }
    return true;
  }

  lemma Scale(a: int, b: int, w: int)
    requires a < b && w > 0
    ensures a * w < b * w
  {
  }

  lemma EmptyCoversNothing(segments: seq<Segment>, start: int, end: int, granularity: int)
    requires granularity > 0 && segments == [] && CoversInSomeOrder(segments, start, end, granularity)
    ensures start == end
  {
    var p :| multiset(p) == multiset(segments) && Covers(p, start, end, granularity);
    assert |multiset(p)| == 0;
  }

  lemma NothingCovers(start: int, granularity: int)
    requires granularity > 0
    ensures CoversInSomeOrder([], start, start, granularity)
  {
    NothingCovered(start, granularity);
    var p: seq<Segment> := [];
    assert multiset(p) == multiset([]) && Covers(p, start, start, granularity);
  }

  /** What the validator accepts. */
  ghost predicate Acceptable(op: Operation) {
    Framed(op) && ExactlyCovered(op)
  }

  /** The pieces, in this order: the first starts at `start`, each next one where
      the one before ends, the last ends at `end`; all are non-empty multiples of
      the granularity; ids are not blank, and ids and handle indices are distinct. */
  ghost predicate TiledBy(p: seq<Segment>, start: int, end: int, granularity: int)
    requires granularity > 0
  {
    && p != [] && p[0].offset == start && p[|p| - 1].offset + p[|p| - 1].length == end
    && (forall i | 0 <= i < |p| - 1 :: p[i].offset + p[i].length == p[i + 1].offset)
    && (forall i | 0 <= i < |p| ::
          && p[i].offset >= 0 && p[i].length > 0 && p[i].handle >= 0 && Nonempty(p[i].id)
          && p[i].offset % granularity == 0 && p[i].length % granularity == 0)
    && (forall i, j | 0 <= i < j < |p| :: p[i].id != p[j].id && p[i].handle != p[j].handle)
  }

  lemma {:induction false} TilesIff(p: seq<Segment>, start: int, end: int)
    requires p != []
    ensures Tiles(p, start, end) <==>
            && p[0].offset == start && p[|p| - 1].offset + p[|p| - 1].length == end
            && (forall i | 0 <= i < |p| - 1 :: p[i].offset + p[i].length == p[i + 1].offset)
            && (forall i | 0 <= i < |p| :: p[i].length > 0)
  {
    var last := |p| - 1;
    var front := p[..last];
    if front == [] {
      assert Tiles(p, start, end) <==> p[0].length > 0 && p[0].offset + p[0].length == end && start == p[0].offset;
    } else {
      TilesIff(front, start, p[last].offset);
      assert forall i | 0 <= i < last :: front[i] == p[i];
    }
  }

  lemma CoversIff(p: seq<Segment>, start: int, end: int, granularity: int)
    requires granularity > 0 && start < end
    ensures Covers(p, start, end, granularity) <==> TiledBy(p, start, end, granularity)
  {
    if p != [] {
      TilesIff(p, start, end);
    }
    hide Tiles, Nonempty;
  }

  /** The segments, in some order, tile the bytes between two block counts. */
  ghost predicate TileBlocks(segments: seq<Segment>, from: int, to: int, stride: int, granularity: int)
    requires granularity > 0
  {
    exists p: seq<Segment> :: multiset(p) == multiset(segments) && TiledBy(p, from * stride, to * stride, granularity)
  }

  lemma CoveredIff(segments: seq<Segment>, from: int, to: int, stride: int, granularity: int)
    requires granularity > 0 && stride > 0 && from < to
    ensures CoversInSomeOrder(segments, from * stride, to * stride, granularity) <==>
            TileBlocks(segments, from, to, stride, granularity)
  {
    Scale(from, to, stride);
    forall p: seq<Segment>
      ensures Covers(p, from * stride, to * stride, granularity) <==> TiledBy(p, from * stride, to * stride, granularity)
    {
      CoversIff(p, from * stride, to * stride, granularity);
    }
    hide Covers, TiledBy;
  }

  /** Acceptance in full, stage by stage: growing operations map new workers' bytes
      or activate them in the scheduler, shrinking ones retire or unmap; the worker
      stages tile exactly the bytes between the two block counts. */
  lemma AcceptableIff(op: Operation)
    ensures Acceptable(op) <==>
        && op.participantEpoch > 0 && op.generation > 0 && Nonempty(op.bindingId)
        && op.fromBlocks > 0 && op.targetBlocks > 0 && op.stride > 0 && op.granularity > 0
        && op.fromBlocks * op.stride % op.granularity == 0 && op.targetBlocks * op.stride % op.granularity == 0
        && match op.stage
           case MapWorkers =>
             op.fromBlocks < op.targetBlocks && TileBlocks(op.segments, op.fromBlocks, op.targetBlocks, op.stride, op.granularity)
           case UnmapWorkers =>
             op.targetBlocks < op.fromBlocks && TileBlocks(op.segments, op.targetBlocks, op.fromBlocks, op.stride, op.granularity)
           case ActivateScheduler => op.fromBlocks < op.targetBlocks && op.segments == []
           case RetireScheduler => op.targetBlocks < op.fromBlocks && op.segments == []
           case Unsupported => false
  {
    if op.granularity > 0 && op.stride > 0 {
      if op.fromBlocks < op.targetBlocks {
        CoveredIff(op.segments, op.fromBlocks, op.targetBlocks, op.stride, op.granularity);
      } else if op.targetBlocks < op.fromBlocks {
        CoveredIff(op.segments, op.targetBlocks, op.fromBlocks, op.stride, op.granularity);
      }
    }
    hide CoversInSomeOrder, TileBlocks, Nonempty;
  }

  /** The answer does not depend on the order of the segments: any permutation of
      them is accepted or rejected alike. */
  lemma AcceptanceIgnoresOrder(op: Operation, segments: seq<Segment>)
    requires multiset(segments) == multiset(op.segments)
    ensures Acceptable(op) <==> Acceptable(op.(segments := segments))
  {
    assert |multiset(segments)| == |segments| && |multiset(op.segments)| == |op.segments|;
  }

  // ----- the elastic receipt -----------------------------------------------

  ghost predicate SoundReceipt(e: ElasticPool, blockCount: int, bytesPerBlock: int) {
    && e.minimumBlocks > 0 && e.granularity > 0 && e.alignment > 0
    && e.minimumBlocks <= e.mappedBlocks <= e.maximumBlocks == blockCount
    && e.minimumBlocks % e.alignment == 0 && e.mappedBlocks % e.alignment == 0
    && e.minimumBlocks * bytesPerBlock % e.granularity == 0
    && e.mappedBlocks * bytesPerBlock % e.granularity == 0
    && e.maximumBlocks * bytesPerBlock % e.granularity == 0
    && CoversInSomeOrder(e.segments, 0, e.mappedBlocks * bytesPerBlock, e.granularity)
  }

  /** The mapped segments of a sound receipt tile the mapped blocks. */
  lemma SoundReceiptIff(e: ElasticPool, blockCount: int, bytesPerBlock: int)
    requires bytesPerBlock > 0
    ensures SoundReceipt(e, blockCount, bytesPerBlock) <==>
        && 0 < e.minimumBlocks <= e.mappedBlocks <= e.maximumBlocks == blockCount && e.granularity > 0 && e.alignment > 0
        && e.minimumBlocks % e.alignment == 0 && e.mappedBlocks % e.alignment == 0
        && e.minimumBlocks * bytesPerBlock % e.granularity == 0
        && e.mappedBlocks * bytesPerBlock % e.granularity == 0
        && e.maximumBlocks * bytesPerBlock % e.granularity == 0
        && TileBlocks(e.segments, 0, e.mappedBlocks, bytesPerBlock, e.granularity)
  {
    if e.granularity > 0 && e.mappedBlocks > 0 {
      CoveredIff(e.segments, 0, e.mappedBlocks, bytesPerBlock, e.granularity);
    }
    hide CoversInSomeOrder, TileBlocks;
  }

  method ValidateElasticPool(e: ElasticPool, blockCount: int, bytesPerBlock: int) returns (ok: bool)
    requires bytesPerBlock > 0
    ensures ok <==> SoundReceipt(e, blockCount, bytesPerBlock)
  {
    if e.minimumBlocks <= 0 || e.mappedBlocks <= 0 || e.maximumBlocks <= 0 || e.granularity <= 0 || e.alignment <= 0 {
      return false;
    }
    if e.maximumBlocks != blockCount || e.minimumBlocks > e.mappedBlocks || e.mappedBlocks > e.maximumBlocks {
      return false;
    }
    if e.minimumBlocks % e.alignment != 0 || e.mappedBlocks % e.alignment != 0
      || e.minimumBlocks * bytesPerBlock % e.granularity != 0
      || e.mappedBlocks * bytesPerBlock % e.granularity != 0
      || e.maximumBlocks * bytesPerBlock % e.granularity != 0
    {
      return false;
    }
    Scale(0, e.mappedBlocks, bytesPerBlock);
    if e.segments == [] {
      if SoundReceipt(e, blockCount, bytesPerBlock) {
        EmptyCoversNothing(e.segments, 0, e.mappedBlocks * bytesPerBlock, e.granularity);
      }
      return false;
    }
    var end := WalkSegments(e.segments, 0, e.granularity);
    return end == Some(e.mappedBlocks * bytesPerBlock);
  }

  // ----- growth over a whole run -------------------------------------------

  /** Accepted worker growth steps, each starting where the last one ended. */
  ghost predicate GrowthChain(ops: seq<Operation>, from: int, stride: int) {
    ops != [] ==>
      && Acceptable(ops[0])
      && ops[0].stage == MapWorkers && ops[0].stride == stride && ops[0].fromBlocks == from
      && GrowthChain(ops[1..], ops[0].targetBlocks, stride)
  }

  ghost function FinalBlocks(ops: seq<Operation>, from: int): int {
    if ops == [] then from else FinalBlocks(ops[1..], ops[0].targetBlocks)
  }

  ghost function SegmentsOf(ops: seq<Operation>): seq<Segment> {
    if ops == [] then [] else ops[0].segments + SegmentsOf(ops[1..])
  }

  ghost predicate TilesInSomeOrder(segments: seq<Segment>, start: int, end: int) {
    exists p: seq<Segment> :: multiset(p) == multiset(segments) && Tiles(p, start, end)
  }

  lemma TilesTogether(a: seq<Segment>, b: seq<Segment>, start: int, middle: int, end: int)
    requires TilesInSomeOrder(a, start, middle) && TilesInSomeOrder(b, middle, end)
    ensures TilesInSomeOrder(a + b, start, end)
  {
    var p :| multiset(p) == multiset(a) && Tiles(p, start, middle);
    var q :| multiset(q) == multiset(b) && Tiles(q, middle, end);
    TilesConcat(p, q, start, middle, end);
    assert multiset(p + q) == multiset(a + b);
  }

  lemma {:induction false} GrowthTiles(ops: seq<Operation>, from: int, stride: int)
    requires GrowthChain(ops, from, stride)
    ensures TilesInSomeOrder(SegmentsOf(ops), from * stride, FinalBlocks(ops, from) * stride)
  {
    if ops == [] {
      var none: seq<Segment> := [];
      assert multiset(none) == multiset(SegmentsOf(ops)) && Tiles(none, from * stride, from * stride);
    } else {
      var op := ops[0];
      assert TilesInSomeOrder(op.segments, Start(op), End(op)) by {
        var p :| multiset(p) == multiset(op.segments) && Covers(p, Start(op), End(op), op.granularity);
      }
      GrowthTiles(ops[1..], op.targetBlocks, stride);
      TilesTogether(op.segments, SegmentsOf(ops[1..]), from * stride, op.targetBlocks * stride, FinalBlocks(ops, from) * stride);
    }
  }

  /** An accepted receipt followed by accepted growth leaves the mapped bytes
      [0, final) tiled exactly: no gap, no overlap, no double mapping. */
  lemma MappedPrefixStaysTiled(e: ElasticPool, blockCount: int, bytesPerBlock: int, ops: seq<Operation>)
    requires SoundReceipt(e, blockCount, bytesPerBlock)
    requires GrowthChain(ops, e.mappedBlocks, bytesPerBlock)
    ensures TilesInSomeOrder(e.segments + SegmentsOf(ops), 0, FinalBlocks(ops, e.mappedBlocks) * bytesPerBlock)
  {
    assert TilesInSomeOrder(e.segments, 0, e.mappedBlocks * bytesPerBlock) by {
      var p :| multiset(p) == multiset(e.segments) && Covers(p, 0, e.mappedBlocks * bytesPerBlock, e.granularity);
    }
    GrowthTiles(ops, e.mappedBlocks, bytesPerBlock);
    TilesTogether(e.segments, SegmentsOf(ops), 0, e.mappedBlocks * bytesPerBlock, FinalBlocks(ops, e.mappedBlocks) * bytesPerBlock);
  }
}
