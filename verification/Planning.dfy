/** KV-cache sizing with checked unsigned 64-bit arithmetic: block alignment,
    byte floor, byte cap, and the concurrency that fits. */
module Planning {
  import opened Common
  import opened Sorting

  datatype Error =
    | Overflow
    | MinBytesBelowMinimum | CapBelowMinimum | FloorAboveCap
    | MaximumBelowInitial | CannotHoldOne | StrictReduction
    | RankCover | RankIds | DeviceIds | MixedGeometry
    | BlockCountsDiffer | ByteGrantsDiffer | MaximaDiffer | MaximumBelowDesired

  // ----- checked arithmetic ------------------------------------------------

  function CheckedAdd(a: nat, b: nat): Result<nat, Error> {
    if a + b <= U64_MAX then Ok(a + b) else Err(Overflow)
  }

  function CheckedMul(a: nat, b: nat): Result<nat, Error> {
    if a <= U64_MAX && b <= U64_MAX && a * b <= U64_MAX then Ok(a * b) else Err(Overflow)
  }

  function CeilDiv(value: nat, divisor: nat): nat
    requires divisor > 0
  {
    value / divisor + (if value % divisor != 0 then 1 else 0)
  }

  function RoundUp(value: nat, alignment: nat): Result<nat, Error>
    requires alignment > 0
  {
    CheckedMul(CeilDiv(value, alignment), alignment)
  }

  function RoundDown(value: nat, alignment: nat): nat
    requires alignment > 0
  {
    value - value % alignment
  }

  predicate Multiple(v: nat, of: nat)
    requires of > 0
  {
    v % of == 0
  }

  lemma MultipleFactor(v: nat, of: nat) returns (k: nat)
    requires of > 0 && Multiple(v, of)
    ensures v == k * of
  {
    k := v / of;
  }

  lemma FactorMultiple(k: nat, of: nat)
    requires of > 0
    ensures k * of >= 0 && Multiple(k * of, of)
  {
    DivModUnique(k * of, of, k, 0);
  }

  /** `CeilDiv` is the least number of `divisor`s that reach `value`. */
  lemma CeilDivLeast(value: nat, divisor: nat)
    requires divisor > 0
    ensures value <= CeilDiv(value, divisor) * divisor
    ensures forall n: nat | value <= n * divisor :: CeilDiv(value, divisor) <= n
  {
    var q, r := value / divisor, value % divisor;
    assert value == q * divisor + r;
    Distribute(q, 1, divisor);
    forall n: nat | value <= n * divisor ensures CeilDiv(value, divisor) <= n {
      if n < CeilDiv(value, divisor) {
        MulMonotone(n, if r != 0 then q else q - 1, divisor);
        Distribute(q - 1, 1, divisor);
      }
    }
  }

  /** Rounding up gives the least multiple at or above; rounding down the
      greatest at or below. */
  lemma RoundUpLeast(value: nat, alignment: nat)
    requires alignment > 0 && RoundUp(value, alignment).Ok?
    ensures var v := RoundUp(value, alignment).value;
            && Multiple(v, alignment) && value <= v <= U64_MAX
            && forall w: nat | Multiple(w, alignment) && value <= w :: v <= w
  {
    CeilDivLeast(value, alignment);
    FactorMultiple(CeilDiv(value, alignment), alignment);
    forall w: nat | Multiple(w, alignment) && value <= w
      ensures RoundUp(value, alignment).value <= w
    {
      var k := MultipleFactor(w, alignment);
      MulMonotone(CeilDiv(value, alignment), k, alignment);
    }
  }

  lemma RoundDownGreatest(value: nat, alignment: nat)
    requires alignment > 0
    ensures Multiple(RoundDown(value, alignment), alignment) && RoundDown(value, alignment) <= value
    ensures forall w: nat | Multiple(w, alignment) && w <= value :: w <= RoundDown(value, alignment)
  {
    var q := value / alignment;
    assert RoundDown(value, alignment) == q * alignment;
    FactorMultiple(q, alignment);
    forall w: nat | Multiple(w, alignment) && w <= value
      ensures w <= RoundDown(value, alignment)
    {
      var k := MultipleFactor(w, alignment);
      if k > q {
        MulMonotone(q + 1, k, alignment);
        Distribute(q, 1, alignment);
      }
      MulMonotone(k, q, alignment);
    }
  }

  /** The totals of the plan and of a rank's groups. */
  method CheckedTotal(values: seq<nat>) returns (r: Result<nat, Error>)
    ensures r == CheckedSum(values)
  {
    var total: nat := 0;
    for i := 0 to |values|
      invariant total == Sum(values[..i]) <= U64_MAX
    {
      assert values[..i + 1] == values[..i] + [values[i]];
      SumAppend(values[..i], [values[i]]);
      if total + values[i] > U64_MAX {
        SumSplit(values, i + 1);
        return Err(Overflow);
      }
      total := total + values[i];
    }
    assert values[..|values|] == values;
    return Ok(total);
  }

  function CheckedSum(values: seq<nat>): Result<nat, Error> {
    SumNonNegative(values);
    if Sum(values) <= U64_MAX then Ok(Sum(values)) else Err(Overflow)
  }

  lemma {:induction false} SumNonNegative(values: seq<nat>)
    ensures Sum(values) >= 0
    ensures values != [] ==> Sum(values) >= values[0]
  {
    if values != [] {
      SumNonNegative(values[1..]);
    }
  }

  lemma SumSplit(values: seq<nat>, i: nat)
    requires i <= |values|
    ensures Sum(values[..i]) <= Sum(values)
  {
    assert values == values[..i] + values[i..];
    SumAppend(values[..i], values[i..]);
    SumNonNegative(values[i..]);
  }

  // ----- geometry and policy -----------------------------------------------

  /** A cache group; `details` stands for the fields that sizing does not use. */
  datatype Group = Group(groupId: string, bytesPerBlock: nat, requiredBlocks: nat, details: string)

  datatype RankGeometry = RankGeometry(
    rank: nat, deviceId: nat, bytesPerBlock: nat, groups: seq<Group>, overhead: nat)

  datatype Policy = Policy(
    target: nat, maximum: Option<nat>, headroomPercent: nat, prefix: nat, alignment: nat,
    minBytes: Option<nat>, maxBytes: Option<nat>, strict: bool)

  datatype Sizing = Sizing(
    rank: nat, deviceId: nat, bytesPerBlock: nat, sequenceBlocks: nat,
    minimumBlocks: nat, minimumBytes: nat, baseBlocks: nat, headroomBlocks: nat,
    desiredBlocks: nat, desiredBytes: nat, maximumBlocks: nat, maximumBytes: nat,
    effective: nat, reduced: bool)

  ghost predicate ValidRank(g: RankGeometry) {
    && 0 < g.bytesPerBlock <= U64_MAX
    && g.groups != []
    && (forall i | 0 <= i < |g.groups| :: 0 < g.groups[i].requiredBlocks <= U64_MAX)
  }

  ghost predicate ValidPolicy(p: Policy) {
    && 0 < p.target <= U64_MAX
    && (p.maximum.Some? ==> p.target <= p.maximum.value <= U64_MAX)
    && p.headroomPercent <= 100
    && 0 < p.alignment <= U64_MAX
    && (p.minBytes.Some? ==> 0 < p.minBytes.value <= U64_MAX)
    && (p.maxBytes.Some? ==> 0 < p.maxBytes.value <= U64_MAX)
    && (p.minBytes.Some? && p.maxBytes.Some? ==> p.minBytes.value <= p.maxBytes.value)
  }

  function SequenceBlocks(g: RankGeometry): Result<nat, Error> {
    CheckedSum(seq(|g.groups|, i requires 0 <= i < |g.groups| => g.groups[i].requiredBlocks))
  }

  lemma SequenceBlocksPositive(g: RankGeometry)
    requires ValidRank(g) && SequenceBlocks(g).Ok?
    ensures SequenceBlocks(g).value > 0
  {
    SumNonNegative(seq(|g.groups|, i requires 0 <= i < |g.groups| => g.groups[i].requiredBlocks));
  }

  // ----- sizing ------------------------------------------------------------

  /** What `concurrency` sequences ask for: base blocks, headroom blocks, and
      both together rounded up to the alignment. */
  datatype Demand = Demand(base: nat, headroom: nat, blocks: nat)

  function DemandFor(g: RankGeometry, p: Policy, sequence: nat, concurrency: nat): Result<Demand, Error>
    requires p.alignment > 0
  {
    var workload :- CheckedMul(sequence, concurrency);
    var wanted :- CheckedAdd(workload, p.prefix);
    var numerator :- CheckedMul(wanted, p.headroomPercent);
    var headroom := CeilDiv(numerator, 100);
    var base :- CheckedAdd(g.overhead, wanted);
    var unaligned :- CheckedAdd(base, headroom);
    var blocks :- RoundUp(unaligned, p.alignment);
    Ok(Demand(base, headroom, blocks))
  }

  function Minimum(g: RankGeometry, p: Policy, sequence: nat): Result<nat, Error>
    requires p.alignment > 0
  {
    var unaligned :- CheckedAdd(g.overhead, sequence);
    var blocks :- RoundUp(unaligned, p.alignment);
    var _ :- CheckedMul(blocks, g.bytesPerBlock);
    Ok(blocks)
  }

  function Floor(g: RankGeometry, p: Policy, minimum: nat): Result<nat, Error>
    requires p.alignment > 0 && g.bytesPerBlock > 0
  {
    match p.minBytes
    case None => Ok(0)
    case Some(bytes) =>
      if bytes < minimum * g.bytesPerBlock then Err(MinBytesBelowMinimum)
      else RoundUp(CeilDiv(bytes, g.bytesPerBlock), p.alignment)
  }

  function Cap(g: RankGeometry, p: Policy): Option<nat>
    requires p.alignment > 0 && g.bytesPerBlock > 0
  {
    match p.maxBytes
    case None => None
    case Some(bytes) => Some(RoundDown(bytes / g.bytesPerBlock, p.alignment))
  }

  function Capped(blocks: nat, cap: Option<nat>): nat {
    if cap.Some? then Min(blocks, cap.value) else blocks
  }

  function SizeRank(g: RankGeometry, p: Policy): Result<Sizing, Error>
    requires ValidRank(g) && ValidPolicy(p)
  {
    var sequence :- SequenceBlocks(g);
    SequenceBlocksPositive(g);
    var minimum :- Minimum(g, p, sequence);
    var demand :- DemandFor(g, p, sequence, p.target);
    var floor :- Floor(g, p, minimum);
    var cap := Cap(g, p);
    if cap.Some? && cap.value < minimum then Err(CapBelowMinimum)
    else if cap.Some? && p.minBytes.Some? && cap.value < floor then Err(FloorAboveCap)
    else
      var desired := Capped(Max(demand.blocks, floor), cap);
      var desiredBytes :- CheckedMul(desired, g.bytesPerBlock);
      var maximum :- MaximumFor(g, p, sequence, desired);
      var maximumBytes :- CheckedMul(maximum, g.bytesPerBlock);
      var effective := Min(p.target, (desired - g.overhead) / sequence);
      if effective < 1 then Err(CannotHoldOne)
      else if effective < p.target && p.strict then Err(StrictReduction)
      else
        Ok(Sizing(g.rank, g.deviceId, g.bytesPerBlock, sequence,
                  minimum, minimum * g.bytesPerBlock, demand.base, demand.headroom,
                  desired, desiredBytes, maximum, maximumBytes, effective, effective < p.target))
  }

  function MaximumFor(g: RankGeometry, p: Policy, sequence: nat, desired: nat): Result<nat, Error>
    requires p.alignment > 0 && g.bytesPerBlock > 0
  {
    match p.maximum
    case None => Ok(desired)
    case Some(concurrency) =>
      var demand :- DemandFor(g, p, sequence, concurrency);
      var maximum := Capped(demand.blocks, Cap(g, p));
      if maximum < desired then Err(MaximumBelowInitial) else Ok(maximum)
  }

  // ----- the parts, characterised ------------------------------------------

  /** The least aligned block count that holds `blocks` blocks and `bytes` bytes. */
  ghost predicate LeastCovering(v: nat, g: RankGeometry, p: Policy, blocks: nat, bytes: nat)
    requires p.alignment > 0
  {
    && Multiple(v, p.alignment) && v >= blocks && v * g.bytesPerBlock >= bytes
    && forall w: nat | Multiple(w, p.alignment) && w >= blocks && w * g.bytesPerBlock >= bytes :: v <= w
  }

  /** The greatest aligned block count within `bytes` bytes. */
  ghost predicate GreatestWithin(v: nat, g: RankGeometry, p: Policy, bytes: nat)
    requires p.alignment > 0
  {
    && Multiple(v, p.alignment) && v * g.bytesPerBlock <= bytes
    && forall w: nat | Multiple(w, p.alignment) && w * g.bytesPerBlock <= bytes :: w <= v
  }

  /** Blocks asked for before alignment: overhead, sequences, prefix and
      headroom. */
  ghost function Unaligned(g: RankGeometry, p: Policy, sequence: nat, concurrency: nat): nat {
    var wanted := sequence * concurrency + p.prefix;
    g.overhead + wanted + CeilDiv(wanted * p.headroomPercent, 100)
  }

  lemma DemandIs(g: RankGeometry, p: Policy, sequence: nat, concurrency: nat)
    requires p.alignment > 0 && DemandFor(g, p, sequence, concurrency).Ok?
    ensures var d := DemandFor(g, p, sequence, concurrency).value;
            && d.base == g.overhead + sequence * concurrency + p.prefix
            && d.base + d.headroom == Unaligned(g, p, sequence, concurrency)
            && d.blocks <= U64_MAX && Multiple(d.blocks, p.alignment)
            && Unaligned(g, p, sequence, concurrency) <= d.blocks
            && forall w: nat | Multiple(w, p.alignment) && Unaligned(g, p, sequence, concurrency) <= w :: d.blocks <= w
  {
    RoundUpLeast(Unaligned(g, p, sequence, concurrency), p.alignment);
  }

  lemma FloorIs(g: RankGeometry, p: Policy, minimum: nat)
    requires p.alignment > 0 && g.bytesPerBlock > 0 && Floor(g, p, minimum).Ok?
    ensures var bytes := if p.minBytes.Some? then p.minBytes.value else 0;
            LeastCovering(Floor(g, p, minimum).value, g, p, 0, bytes)
  {
    var v := Floor(g, p, minimum).value;
    if p.minBytes.Some? {
      var bytes := p.minBytes.value;
      CeilDivLeast(bytes, g.bytesPerBlock);
      RoundUpLeast(CeilDiv(bytes, g.bytesPerBlock), p.alignment);
      MulMonotone(CeilDiv(bytes, g.bytesPerBlock), v, g.bytesPerBlock);
    } else {
      FactorMultiple(0, p.alignment);
    }
  }

  lemma CapIs(g: RankGeometry, p: Policy)
    requires p.alignment > 0 && g.bytesPerBlock > 0 && p.maxBytes.Some?
    ensures GreatestWithin(Cap(g, p).value, g, p, p.maxBytes.value)
  {
    var bytes := p.maxBytes.value;
    var q, v := bytes / g.bytesPerBlock, Cap(g, p).value;
    RoundDownGreatest(q, p.alignment);
    MulMonotone(v, q, g.bytesPerBlock);
    assert bytes == q * g.bytesPerBlock + bytes % g.bytesPerBlock;
    forall w: nat | Multiple(w, p.alignment) && w * g.bytesPerBlock <= bytes ensures w <= v {
      if w > q {
        MulMonotone(q + 1, w, g.bytesPerBlock);
        Distribute(q, 1, g.bytesPerBlock);
      }
    }
  }

  /** The larger of two least covers covers both least. */
  lemma LargerCover(g: RankGeometry, p: Policy, a: nat, b: nat, blocks: nat, bytes: nat)
    requires p.alignment > 0
    requires Multiple(a, p.alignment) && a >= blocks && forall w: nat | Multiple(w, p.alignment) && w >= blocks :: a <= w
    requires LeastCovering(b, g, p, 0, bytes)
    ensures LeastCovering(Max(a, b), g, p, blocks, bytes)
  {
    MulMonotone(b, Max(a, b), g.bytesPerBlock);
  }

  // ----- exactness of one rank ---------------------------------------------

  ghost function MinBytes(p: Policy): nat {
    if p.minBytes.Some? then p.minBytes.value else 0
  }

  /** The desired count is the least aligned one that covers the demand and the
      byte floor, or the greatest under the byte cap if that is smaller. */
  lemma DesiredIsExact(g: RankGeometry, p: Policy)
    requires ValidRank(g) && ValidPolicy(p) && SizeRank(g, p).Ok?
    ensures var s := SizeRank(g, p).value;
            exists want: nat ::
              && LeastCovering(want, g, p, Unaligned(g, p, s.sequenceBlocks, p.target), MinBytes(p))
              && (p.maxBytes.None? ==> s.desiredBlocks == want)
              && (p.maxBytes.Some? ==> exists cap: nat ::
                    GreatestWithin(cap, g, p, p.maxBytes.value) && s.desiredBlocks == Min(want, cap))
  {
    var s := SizeRank(g, p).value;
    var demand := DemandFor(g, p, s.sequenceBlocks, p.target).value;
    var floor := Floor(g, p, s.minimumBlocks).value;
    DemandIs(g, p, s.sequenceBlocks, p.target);
    FloorIs(g, p, s.minimumBlocks);
    LargerCover(g, p, demand.blocks, floor, Unaligned(g, p, s.sequenceBlocks, p.target), MinBytes(p));
    if p.maxBytes.Some? {
      CapIs(g, p);
    }
  }

  lemma MinimumIs(g: RankGeometry, p: Policy, sequence: nat)
    requires p.alignment > 0 && Minimum(g, p, sequence).Ok?
    ensures LeastCovering(Minimum(g, p, sequence).value, g, p, g.overhead + sequence, 0)
    ensures Minimum(g, p, sequence).value <= U64_MAX && Minimum(g, p, sequence).value * g.bytesPerBlock <= U64_MAX
  {
    RoundUpLeast(g.overhead + sequence, p.alignment);
  }

  lemma DemandHoldsOne(g: RankGeometry, p: Policy, sequence: nat)
    requires ValidPolicy(p) && Minimum(g, p, sequence).Ok? && DemandFor(g, p, sequence, p.target).Ok?
    ensures Minimum(g, p, sequence).value <= DemandFor(g, p, sequence, p.target).value.blocks
  {
    hide Minimum, DemandFor;
    MinimumIs(g, p, sequence);
    DemandIs(g, p, sequence, p.target);
    MulMonotone(1, p.target, sequence);
    assert sequence * p.target == p.target * sequence;
    var blocks := DemandFor(g, p, sequence, p.target).value.blocks;
    assert g.overhead + sequence <= blocks && blocks * g.bytesPerBlock >= 0;
  }

  /** One sequence always fits, within the demand and under the cap. */
  lemma MinimumFits(g: RankGeometry, p: Policy, sequence: nat, floor: nat)
    requires ValidPolicy(p) && sequence > 0 && g.bytesPerBlock > 0
    requires Minimum(g, p, sequence).Ok? && DemandFor(g, p, sequence, p.target).Ok?
    requires Cap(g, p).Some? ==> Cap(g, p).value >= Minimum(g, p, sequence).value
    ensures var desired := Capped(Max(DemandFor(g, p, sequence, p.target).value.blocks, floor), Cap(g, p));
            && Minimum(g, p, sequence).value <= desired
            && g.overhead + sequence <= desired
            && (desired - g.overhead) / sequence >= 1
  {
    hide Minimum, DemandFor, Cap;
    MinimumIs(g, p, sequence);
    DemandHoldsOne(g, p, sequence);
    var desired := Capped(Max(DemandFor(g, p, sequence, p.target).value.blocks, floor), Cap(g, p));
    QuotientAtLeast(desired - g.overhead, sequence, 1);
  }

  lemma QuotientAtLeast(a: nat, b: nat, q: nat)
    requires b > 0
    ensures a / b >= q <==> a >= q * b
  {
    assert a == a / b * b + a % b;
    if a / b >= q {
      MulMonotone(q, a / b, b);
    } else {
      MulMonotone(a / b + 1, q, b);
      Distribute(a / b, 1, b);
    }
  }

  /** The "cannot hold one sequence" error after sizing is unreachable. */
  lemma OneSequenceAlwaysFits(g: RankGeometry, p: Policy)
    requires ValidRank(g) && ValidPolicy(p)
    ensures SizeRank(g, p) != Err(CannotHoldOne)
  {
    if SizeRank(g, p) == Err(CannotHoldOne) {
      var sequence := SequenceBlocks(g).value;
      SequenceBlocksPositive(g);
      var minimum := Minimum(g, p, sequence).value;
      var demand := DemandFor(g, p, sequence, p.target).value;
      var floor := Floor(g, p, minimum).value;
      MinimumFits(g, p, sequence, floor);
    }
  }

  /** Order, alignment, byte bounds and 64-bit range of everything returned. */
  lemma SizingIsBounded(g: RankGeometry, p: Policy)
    requires ValidRank(g) && ValidPolicy(p) && SizeRank(g, p).Ok?
    ensures var s := SizeRank(g, p).value;
            && s.minimumBlocks <= s.desiredBlocks <= s.maximumBlocks <= U64_MAX
            && Multiple(s.minimumBlocks, p.alignment) && Multiple(s.desiredBlocks, p.alignment) && Multiple(s.maximumBlocks, p.alignment)
            && s.minimumBytes == s.minimumBlocks * g.bytesPerBlock <= U64_MAX
            && s.desiredBytes == s.desiredBlocks * g.bytesPerBlock <= U64_MAX
            && s.maximumBytes == s.maximumBlocks * g.bytesPerBlock <= U64_MAX
            && s.baseBlocks <= U64_MAX && s.headroomBlocks <= U64_MAX && s.sequenceBlocks <= U64_MAX
            && (p.minBytes.Some? ==> p.minBytes.value <= s.desiredBytes)
            && (p.maxBytes.Some? ==> s.maximumBytes <= p.maxBytes.value)
  {
    var s := SizeRank(g, p).value;
    var sequence := s.sequenceBlocks;
    SequenceBlocksPositive(g);
    MinimumIs(g, p, sequence);
    MinimumFits(g, p, sequence, Floor(g, p, s.minimumBlocks).value);
    DemandIs(g, p, sequence, p.target);
    FloorIs(g, p, s.minimumBlocks);
    var floor := Floor(g, p, s.minimumBlocks).value;
    if p.maximum.Some? {
      DemandIs(g, p, sequence, p.maximum.value);
    }
    if p.maxBytes.Some? {
      CapIs(g, p);
      MulMonotone(s.maximumBlocks, Cap(g, p).value, g.bytesPerBlock);
    }
    if p.minBytes.Some? {
      MulMonotone(floor, s.desiredBlocks, g.bytesPerBlock);
    }
  }

  /** The effective concurrency is the largest within the target whose sequences
      fit beside the fixed overhead; strict mode refuses a smaller one. */
  lemma EffectiveIsLargest(g: RankGeometry, p: Policy)
    requires ValidRank(g) && ValidPolicy(p) && SizeRank(g, p).Ok?
    ensures var s := SizeRank(g, p).value;
            && 1 <= s.effective <= p.target
            && g.overhead + s.effective * s.sequenceBlocks <= s.desiredBlocks
            && (forall n: nat | n <= p.target && g.overhead + n * s.sequenceBlocks <= s.desiredBlocks :: n <= s.effective)
            && (s.reduced <==> s.effective < p.target)
            && (p.strict ==> s.effective == p.target)
  {
    var s := SizeRank(g, p).value;
    SequenceBlocksPositive(g);
    MinimumFits(g, p, s.sequenceBlocks, Floor(g, p, s.minimumBlocks).value);
    var room := s.desiredBlocks - g.overhead;
    QuotientAtLeast(room, s.sequenceBlocks, s.effective);
    forall n: nat | n <= p.target && g.overhead + n * s.sequenceBlocks <= s.desiredBlocks ensures n <= s.effective {
      QuotientAtLeast(room, s.sequenceBlocks, n);
    }
  }

  // ----- every field, and when there is a plan -------------------------------

  /** The least multiple of `of` at or above `n`, without a bound. */
  ghost function LeastAligned(n: nat, of: nat): (v: nat)
    requires of > 0
    ensures Multiple(v, of) && n <= v && forall w: nat | Multiple(w, of) && n <= w :: v <= w
  {
    CeilDivLeast(n, of);
    FactorMultiple(CeilDiv(n, of), of);
    forall w: nat | Multiple(w, of) && n <= w ensures CeilDiv(n, of) * of <= w {
      var k := MultipleFactor(w, of);
      MulMonotone(CeilDiv(n, of), k, of);
    }
    CeilDiv(n, of) * of
  }

  /** Rounding up fails exactly when the least multiple exceeds 64 bits. */
  lemma RoundUpIs(n: nat, of: nat)
    requires 0 < of <= U64_MAX
    ensures RoundUp(n, of) == if LeastAligned(n, of) <= U64_MAX then Ok(LeastAligned(n, of)) else Err(Overflow)
  {
    MulMonotone(1, of, CeilDiv(n, of));
  }

  lemma ProductBounds(a: nat, b: nat)
    requires a > 0 && b > 0
    ensures a <= a * b && b <= a * b
  {
    MulMonotone(1, b, a);
    MulMonotone(1, a, b);
  }

  /** Blocks for `concurrency` sequences, aligned. */
  ghost function BlocksFor(g: RankGeometry, p: Policy, concurrency: nat): nat
    requires p.alignment > 0
  {
    LeastAligned(Unaligned(g, p, RequiredBlocks(g), concurrency), p.alignment)
  }

  ghost function RequiredBlocks(g: RankGeometry): nat {
    var blocks := seq(|g.groups|, i requires 0 <= i < |g.groups| => g.groups[i].requiredBlocks);
    SumNonNegative(blocks);
    Sum(blocks)
  }

  ghost function LeastBlocks(g: RankGeometry, p: Policy): nat
    requires p.alignment > 0
  {
    LeastAligned(g.overhead + RequiredBlocks(g), p.alignment)
  }

  /** The least aligned count whose bytes reach the floor. */
  ghost function FloorBlocks(g: RankGeometry, p: Policy): (v: nat)
    requires p.alignment > 0 && g.bytesPerBlock > 0
    ensures LeastCovering(v, g, p, 0, MinBytes(p))
  {
    CeilDivLeast(MinBytes(p), g.bytesPerBlock);
    var v := LeastAligned(CeilDiv(MinBytes(p), g.bytesPerBlock), p.alignment);
    MulMonotone(CeilDiv(MinBytes(p), g.bytesPerBlock), v, g.bytesPerBlock);
    v
  }

  /** `blocks`, or the greatest aligned count under the byte cap if that is less. */
  ghost predicate UnderCap(v: nat, g: RankGeometry, p: Policy, blocks: nat)
    requires p.alignment > 0
  {
    if p.maxBytes.None? then v == blocks
    else exists cap: nat :: GreatestWithin(cap, g, p, p.maxBytes.value) && v == Min(blocks, cap)
  }

  /** The maximum is what the maximum concurrency asks for, under the same cap;
      without one it is the desired count. The other counts likewise. */
  lemma FieldsAreExact(g: RankGeometry, p: Policy)
    requires ValidRank(g) && ValidPolicy(p) && SizeRank(g, p).Ok?
    ensures var s := SizeRank(g, p).value;
            var wanted := s.sequenceBlocks * p.target + p.prefix;
            && s.rank == g.rank && s.deviceId == g.deviceId && s.bytesPerBlock == g.bytesPerBlock
            && s.sequenceBlocks == RequiredBlocks(g)
            && s.minimumBlocks == LeastBlocks(g, p)
            && s.baseBlocks == g.overhead + wanted
            && wanted * p.headroomPercent <= s.headroomBlocks * 100
            && (forall h: nat | wanted * p.headroomPercent <= h * 100 :: s.headroomBlocks <= h)
            && UnderCap(s.desiredBlocks, g, p, Max(BlocksFor(g, p, p.target), FloorBlocks(g, p)))
            && (p.maximum.None? ==> s.maximumBlocks == s.desiredBlocks)
            && (p.maximum.Some? ==> UnderCap(s.maximumBlocks, g, p, BlocksFor(g, p, p.maximum.value)))
  {
    var sequence := RequiredBlocks(g);
    SequencePositive(g);
    SizeRankFields(g, p);
    hide SizeRank, LeastAligned, CeilDiv;
    MinimumOkIff(g, p, sequence);
    DemandOkIff(g, p, sequence, p.target);
    DemandFields(g, p, sequence, p.target);
    FloorOkIff(g, p, LeastBlocks(g, p));
    if p.maximum.Some? {
      DemandOkIff(g, p, sequence, p.maximum.value);
    }
    if p.maxBytes.Some? {
      CapIs(g, p);
    } else {
      NoCap(g, p);
    }
    hide Minimum, DemandFor, Floor, Cap, Unaligned, BlocksFor, LeastBlocks, FloorBlocks, RequiredBlocks;
  }

  lemma DemandFields(g: RankGeometry, p: Policy, sequence: nat, concurrency: nat)
    requires p.alignment > 0 && DemandFor(g, p, sequence, concurrency).Ok?
    ensures var d, wanted := DemandFor(g, p, sequence, concurrency).value, sequence * concurrency + p.prefix;
            && d.base == g.overhead + wanted
            && wanted * p.headroomPercent <= d.headroom * 100
            && forall h: nat | wanted * p.headroomPercent <= h * 100 :: d.headroom <= h
  {
    CeilDivLeast((sequence * concurrency + p.prefix) * p.headroomPercent, 100);
  }

  /** The sequence of checks in sizing, with its parts left as they are. */
  lemma SizeRankParts(g: RankGeometry, p: Policy)
    requires ValidRank(g) && ValidPolicy(p)
    ensures SizeRank(g, p).Ok? <==>
        && SequenceBlocks(g).Ok?
        && var sequence := SequenceBlocks(g).value;
        && Minimum(g, p, sequence).Ok?
        && var minimum := Minimum(g, p, sequence).value;
        && DemandFor(g, p, sequence, p.target).Ok? && Floor(g, p, minimum).Ok?
        && var floor := Floor(g, p, minimum).value;
           var desired := Capped(Max(DemandFor(g, p, sequence, p.target).value.blocks, floor), Cap(g, p));
        && (Cap(g, p).Some? ==> Cap(g, p).value >= minimum && (p.minBytes.Some? ==> Cap(g, p).value >= floor))
        && CheckedMul(desired, g.bytesPerBlock).Ok?
        && MaximumFor(g, p, sequence, desired).Ok?
        && CheckedMul(MaximumFor(g, p, sequence, desired).value, g.bytesPerBlock).Ok?
        && (p.strict ==> g.overhead + p.target * sequence <= desired)
  {
    hide Minimum, DemandFor, Floor, Cap, MaximumFor, SequenceBlocks, CheckedMul;
    if SequenceBlocks(g).Ok? {
      var sequence := SequenceBlocks(g).value;
      SequenceBlocksPositive(g);
      if Minimum(g, p, sequence).Ok? && DemandFor(g, p, sequence, p.target).Ok? && Floor(g, p, Minimum(g, p, sequence).value).Ok?
        && (Cap(g, p).Some? ==> Cap(g, p).value >= Minimum(g, p, sequence).value)
      {
        var floor := Floor(g, p, Minimum(g, p, sequence).value).value;
        MinimumFits(g, p, sequence, floor);
        var desired := Capped(Max(DemandFor(g, p, sequence, p.target).value.blocks, floor), Cap(g, p));
        QuotientAtLeast(desired - g.overhead, sequence, p.target);
      }
    }
  }

  /** What sizing returns, in terms of its parts. */
  lemma SizeRankFields(g: RankGeometry, p: Policy)
    requires ValidRank(g) && ValidPolicy(p) && SizeRank(g, p).Ok?
    ensures SequenceBlocks(g).Ok?
    ensures
        var s, sequence := SizeRank(g, p).value, SequenceBlocks(g).value;
        && Minimum(g, p, sequence).Ok? && DemandFor(g, p, sequence, p.target).Ok? && Floor(g, p, s.minimumBlocks).Ok?
        && s.rank == g.rank && s.deviceId == g.deviceId && s.bytesPerBlock == g.bytesPerBlock
        && s.sequenceBlocks == sequence && s.minimumBlocks == Minimum(g, p, sequence).value
        && s.baseBlocks == DemandFor(g, p, sequence, p.target).value.base
        && s.headroomBlocks == DemandFor(g, p, sequence, p.target).value.headroom
        && s.desiredBlocks == Capped(Max(DemandFor(g, p, sequence, p.target).value.blocks, Floor(g, p, s.minimumBlocks).value), Cap(g, p))
        && MaximumFor(g, p, sequence, s.desiredBlocks) == Ok(s.maximumBlocks)
  {
    hide Minimum, DemandFor, Floor, Cap, MaximumFor, SequenceBlocks, CheckedMul;
  }

  /** A demand overflows exactly when its headroom product or its aligned total
      does. */
  lemma DemandOkIff(g: RankGeometry, p: Policy, sequence: nat, concurrency: nat)
    requires 0 < p.alignment <= U64_MAX && p.headroomPercent <= 100 && sequence > 0 && concurrency > 0
    ensures var aligned := LeastAligned(Unaligned(g, p, sequence, concurrency), p.alignment);
            && (DemandFor(g, p, sequence, concurrency).Ok? <==>
                  (sequence * concurrency + p.prefix) * p.headroomPercent <= U64_MAX && aligned <= U64_MAX)
            && (DemandFor(g, p, sequence, concurrency).Ok? ==> DemandFor(g, p, sequence, concurrency).value.blocks == aligned)
            && (DemandFor(g, p, sequence, concurrency).Err? ==> DemandFor(g, p, sequence, concurrency).error == Overflow)
  {
    hide RoundUp, LeastAligned;
    ProductBounds(sequence, concurrency);
    RoundUpIs(Unaligned(g, p, sequence, concurrency), p.alignment);
  }

  lemma MinimumOkIff(g: RankGeometry, p: Policy, sequence: nat)
    requires 0 < p.alignment <= U64_MAX && 0 < g.bytesPerBlock <= U64_MAX
    ensures var least := LeastAligned(g.overhead + sequence, p.alignment);
            && (Minimum(g, p, sequence).Ok? <==> least <= U64_MAX && least * g.bytesPerBlock <= U64_MAX)
            && (Minimum(g, p, sequence).Ok? ==> Minimum(g, p, sequence).value == least)
  {
    hide RoundUp, LeastAligned;
    RoundUpIs(g.overhead + sequence, p.alignment);
  }

  lemma FloorOkIff(g: RankGeometry, p: Policy, minimum: nat)
    requires 0 < p.alignment <= U64_MAX && g.bytesPerBlock > 0
    ensures Floor(g, p, minimum).Ok? <==>
            p.minBytes.None? || (minimum * g.bytesPerBlock <= p.minBytes.value && FloorBlocks(g, p) <= U64_MAX)
    ensures Floor(g, p, minimum).Ok? ==> Floor(g, p, minimum).value == FloorBlocks(g, p)
  {
    if p.minBytes.Some? {
      RoundUpIs(CeilDiv(p.minBytes.value, g.bytesPerBlock), p.alignment);
    } else {
      FactorMultiple(0, p.alignment);
    }
  }

  /** The byte cap holds one sequence and the byte floor. */
  ghost predicate CapSuffices(g: RankGeometry, p: Policy)
    requires p.alignment > 0 && g.bytesPerBlock > 0
  {
    p.maxBytes.Some? ==>
      exists cap: nat :: GreatestWithin(cap, g, p, p.maxBytes.value) && cap >= LeastBlocks(g, p)
        && (p.minBytes.Some? ==> cap >= FloorBlocks(g, p))
  }

  /** No intermediate value exceeds 64 bits. */
  ghost predicate NothingOverflows(g: RankGeometry, p: Policy, desired: nat, maximum: nat)
    requires p.alignment > 0 && g.bytesPerBlock > 0
  {
    && RequiredBlocks(g) <= U64_MAX
    && LeastBlocks(g, p) <= U64_MAX && LeastBlocks(g, p) * g.bytesPerBlock <= U64_MAX
    && (RequiredBlocks(g) * p.target + p.prefix) * p.headroomPercent <= U64_MAX && BlocksFor(g, p, p.target) <= U64_MAX
    && (p.minBytes.Some? ==> FloorBlocks(g, p) <= U64_MAX)
    && desired * g.bytesPerBlock <= U64_MAX && maximum * g.bytesPerBlock <= U64_MAX
    && (p.maximum.Some? ==>
          && (RequiredBlocks(g) * p.maximum.value + p.prefix) * p.headroomPercent <= U64_MAX
          && BlocksFor(g, p, p.maximum.value) <= U64_MAX)
  }

  /** There is a plan exactly when nothing overflows, the byte floor is at least
      one sequence, the cap suffices, the maximum is not below the desired count,
      and the target is met if it must be. */
  lemma SizeRankOkIff(g: RankGeometry, p: Policy, desired: nat, maximum: nat)
    requires ValidRank(g) && ValidPolicy(p)
    requires UnderCap(desired, g, p, Max(BlocksFor(g, p, p.target), FloorBlocks(g, p)))
    requires if p.maximum.None? then maximum == desired else UnderCap(maximum, g, p, BlocksFor(g, p, p.maximum.value))
    ensures SizeRank(g, p).Ok? <==>
        && NothingOverflows(g, p, desired, maximum)
        && (p.minBytes.Some? ==> LeastBlocks(g, p) * g.bytesPerBlock <= p.minBytes.value)
        && CapSuffices(g, p)
        && desired <= maximum
        && (p.strict ==> g.overhead + p.target * RequiredBlocks(g) <= desired)
  {
    var sequence := RequiredBlocks(g);
    SequencePositive(g);
    SizeRankParts(g, p);
    MinimumOkIff(g, p, sequence);
    DemandOkIff(g, p, sequence, p.target);
    FloorOkIff(g, p, LeastBlocks(g, p));
    MaximumOkIff(g, p, desired);
    UnderCapIs(g, p, desired, Max(BlocksFor(g, p, p.target), FloorBlocks(g, p)));
    if p.maximum.Some? {
      UnderCapIs(g, p, maximum, BlocksFor(g, p, p.maximum.value));
    }
    CapSufficesIs(g, p);
    WithinDemand(g, p, desired, maximum);
    hide SizeRank, LeastAligned, CeilDiv, Minimum, DemandFor, Floor, Cap, Unaligned, BlocksFor, LeastBlocks, FloorBlocks,
         RequiredBlocks, UnderCap, CapSuffices, MaximumFor, SequenceBlocks;
  }

  /** Only the byte counts remain to be checked once the demands fit. */
  lemma WithinDemand(g: RankGeometry, p: Policy, desired: nat, maximum: nat)
    requires ValidRank(g) && ValidPolicy(p)
    requires UnderCap(desired, g, p, Max(BlocksFor(g, p, p.target), FloorBlocks(g, p)))
    requires if p.maximum.None? then maximum == desired else UnderCap(maximum, g, p, BlocksFor(g, p, p.maximum.value))
    ensures desired <= Max(BlocksFor(g, p, p.target), FloorBlocks(g, p))
    ensures p.maximum.Some? ==> maximum <= BlocksFor(g, p, p.maximum.value)
    ensures p.minBytes.None? ==> FloorBlocks(g, p) == 0
  {
    hide BlocksFor, LeastAligned;
    FactorMultiple(0, p.alignment);
  }

  lemma UnderCapIs(g: RankGeometry, p: Policy, v: nat, blocks: nat)
    requires p.alignment > 0 && g.bytesPerBlock > 0
    ensures UnderCap(v, g, p, blocks) <==> v == Capped(blocks, Cap(g, p))
  {
    if p.maxBytes.Some? {
      CapIs(g, p);
      CapIsUnique(g, p);
    }
  }

  lemma CapSufficesIs(g: RankGeometry, p: Policy)
    requires p.alignment > 0 && g.bytesPerBlock > 0
    ensures CapSuffices(g, p) <==>
        (Cap(g, p).Some? ==> Cap(g, p).value >= LeastBlocks(g, p) && (p.minBytes.Some? ==> Cap(g, p).value >= FloorBlocks(g, p)))
  {
    hide LeastBlocks, FloorBlocks;
    if p.maxBytes.Some? {
      CapIs(g, p);
      CapIsUnique(g, p);
    }
  }

  lemma MaximumOkIff(g: RankGeometry, p: Policy, desired: nat)
    requires ValidRank(g) && ValidPolicy(p)
    ensures var r := MaximumFor(g, p, RequiredBlocks(g), desired);
            if p.maximum.None? then r == Ok(desired)
            else
              var most := Capped(BlocksFor(g, p, p.maximum.value), Cap(g, p));
              && (r.Ok? <==>
                    && (RequiredBlocks(g) * p.maximum.value + p.prefix) * p.headroomPercent <= U64_MAX
                    && BlocksFor(g, p, p.maximum.value) <= U64_MAX
                    && desired <= most)
              && (r.Ok? ==> r.value == most)
  {
    SequencePositive(g);
    if p.maximum.Some? {
      DemandOkIff(g, p, RequiredBlocks(g), p.maximum.value);
    }
    hide DemandFor, LeastAligned, RequiredBlocks, Unaligned, Cap;
  }

  lemma SequencePositive(g: RankGeometry)
    requires ValidRank(g)
    ensures RequiredBlocks(g) > 0
    ensures SequenceBlocks(g).Ok? <==> RequiredBlocks(g) <= U64_MAX
    ensures SequenceBlocks(g).Ok? ==> SequenceBlocks(g).value == RequiredBlocks(g)
  {
    SumNonNegative(seq(|g.groups|, i requires 0 <= i < |g.groups| => g.groups[i].requiredBlocks));
  }

  lemma CapIsUnique(g: RankGeometry, p: Policy)
    requires p.alignment > 0 && g.bytesPerBlock > 0 && p.maxBytes.Some?
    ensures forall cap: nat | GreatestWithin(cap, g, p, p.maxBytes.value) :: cap == Cap(g, p).value
  {
    CapIs(g, p);
  }

  // ----- the maximum-capacity error ----------------------------------------

  lemma DemandGrows(g: RankGeometry, p: Policy, q: Policy, sequence: nat, a: nat, b: nat)
    requires p.alignment == q.alignment > 0 && p.prefix == q.prefix && p.headroomPercent == q.headroomPercent
    requires a <= b && DemandFor(g, p, sequence, a).Ok? && DemandFor(g, q, sequence, b).Ok?
    ensures DemandFor(g, p, sequence, a).value.blocks <= DemandFor(g, q, sequence, b).value.blocks
  {
    hide DemandFor;
    DemandIs(g, p, sequence, a);
    DemandIs(g, q, sequence, b);
    UnalignedGrows(g, p, q, sequence, a, b);
  }

  lemma UnalignedGrows(g: RankGeometry, p: Policy, q: Policy, sequence: nat, a: nat, b: nat)
    requires p.prefix == q.prefix && p.headroomPercent == q.headroomPercent && a <= b
    ensures Unaligned(g, p, sequence, a) <= Unaligned(g, q, sequence, b)
  {
    MulMonotone(a, b, sequence);
    assert sequence * a == a * sequence && sequence * b == b * sequence;
    var x, y := sequence * a + p.prefix, sequence * b + p.prefix;
    MulMonotone(x, y, p.headroomPercent);
    CeilDivLeast(x * p.headroomPercent, 100);
    CeilDivLeast(y * p.headroomPercent, 100);
  }

  /** With the rest of the plan in order, the "maximum cannot fit the initial
      target" error occurs exactly when the byte floor exceeds what the maximum
      concurrency asks for; without `minBytes` it never does. */
  lemma MaximumErrorIffFloorTooHigh(g: RankGeometry, p: Policy)
    requires ValidRank(g) && ValidPolicy(p) && p.maximum.Some?
    requires SizeRank(g, p.(maximum := None, strict := false)).Ok?
    requires SequenceBlocks(g).Ok? && DemandFor(g, p, SequenceBlocks(g).value, p.maximum.value).Ok?
    ensures SizeRank(g, p) == Err(MaximumBelowInitial) <==>
            p.minBytes.Some? && DemandFor(g, p, SequenceBlocks(g).value, p.maximum.value).value.blocks * g.bytesPerBlock < p.minBytes.value
  {
    var plain := p.(maximum := None, strict := false);
    var s := SizeRank(g, plain).value;
    var sequence := s.sequenceBlocks;
    var most := DemandFor(g, p, sequence, p.maximum.value).value.blocks;
    var floor := Floor(g, p, s.minimumBlocks).value;
    SamePolicyParts(g, p, plain, sequence, s.minimumBlocks);
    FloorIs(g, p, s.minimumBlocks);
    DemandIs(g, p, sequence, p.maximum.value);
    DemandGrows(g, p, p, sequence, p.target, p.maximum.value);
    if most < floor {
      assert p.minBytes.Some? && most * g.bytesPerBlock < p.minBytes.value;
    } else if p.minBytes.Some? {
      MulMonotone(floor, most, g.bytesPerBlock);
    }
  }

  lemma SamePolicyParts(g: RankGeometry, p: Policy, q: Policy, sequence: nat, minimum: nat)
    requires ValidRank(g) && ValidPolicy(p) && q == p.(maximum := None, strict := false)
    ensures Minimum(g, p, sequence) == Minimum(g, q, sequence)
    ensures DemandFor(g, p, sequence, p.target) == DemandFor(g, q, sequence, q.target)
    ensures Floor(g, p, minimum) == Floor(g, q, minimum) && Cap(g, p) == Cap(g, q)
  {
  }

  /** The error is reachable: a byte floor of three blocks, one sequence. */
  lemma MaximumErrorIsReachable()
    ensures var g := RankGeometry(0, 0, 1, [Group("g", 1, 1, "")], 0);
            var p := Policy(1, Some(1), 0, 0, 1, Some(3), None, false);
            ValidRank(g) && ValidPolicy(p) && SizeRank(g, p) == Err(MaximumBelowInitial)
  {
    var g := RankGeometry(0, 0, 1, [Group("g", 1, 1, "")], 0);
    var blocks := seq(|g.groups|, i requires 0 <= i < |g.groups| => g.groups[i].requiredBlocks);
    assert blocks == [1] && Sum([1]) == 1;
  }

  // ----- monotonicity ------------------------------------------------------

  /** `q` allows at least the bytes and the target that `p` allows. */
  ghost predicate Relaxes(p: Policy, q: Policy) {
    && p.prefix == q.prefix && p.headroomPercent == q.headroomPercent
    && p.alignment == q.alignment && p.minBytes == q.minBytes
    && p.target <= q.target
    && (q.maxBytes.Some? ==> p.maxBytes.Some? && p.maxBytes.value <= q.maxBytes.value)
  }

  lemma CapGrows(g: RankGeometry, p: Policy, q: Policy)
    requires p.alignment == q.alignment > 0 && g.bytesPerBlock > 0
    requires p.maxBytes.Some? && q.maxBytes.Some? && p.maxBytes.value <= q.maxBytes.value
    ensures Cap(g, p).value <= Cap(g, q).value
  {
    CapIs(g, p);
    CapIs(g, q);
  }

  /** Raising the byte cap or the target between two successful plans never
      lowers the desired blocks or the effective concurrency. */
  lemma SizingIsMonotone(g: RankGeometry, p: Policy, q: Policy)
    requires ValidRank(g) && ValidPolicy(p) && ValidPolicy(q) && Relaxes(p, q)
    requires SizeRank(g, p).Ok? && SizeRank(g, q).Ok?
    ensures SizeRank(g, p).value.desiredBlocks <= SizeRank(g, q).value.desiredBlocks
    ensures SizeRank(g, p).value.effective <= SizeRank(g, q).value.effective
  {
    DesiredIsMonotone(g, p, q);
    hide SizeRank;
    EffectiveIsLargest(g, p);
    EffectiveIsLargest(g, q);
    SameSequence(g, p, q);
  }

  lemma SameSequence(g: RankGeometry, p: Policy, q: Policy)
    requires ValidRank(g) && ValidPolicy(p) && ValidPolicy(q)
    requires SizeRank(g, p).Ok? && SizeRank(g, q).Ok?
    ensures SizeRank(g, p).value.sequenceBlocks == SizeRank(g, q).value.sequenceBlocks
  {
  }

  lemma DesiredIsMonotone(g: RankGeometry, p: Policy, q: Policy)
    requires ValidRank(g) && ValidPolicy(p) && ValidPolicy(q) && Relaxes(p, q)
    requires SizeRank(g, p).Ok? && SizeRank(g, q).Ok?
    ensures SizeRank(g, p).value.desiredBlocks <= SizeRank(g, q).value.desiredBlocks
  {
    var s, t := SizeRank(g, p).value, SizeRank(g, q).value;
    hide DemandFor, Cap;
    DemandGrows(g, p, q, s.sequenceBlocks, p.target, q.target);
    if q.maxBytes.Some? {
      CapGrows(g, p, q);
    } else {
      NoCap(g, q);
    }
  }

  lemma NoCap(g: RankGeometry, p: Policy)
    requires p.alignment > 0 && g.bytesPerBlock > 0 && p.maxBytes.None?
    ensures Cap(g, p).None?
  {
  }

  // ----- agreement across ranks --------------------------------------------

  function Ids(ranks: seq<RankGeometry>): set<nat> {
    set i | 0 <= i < |ranks| :: ranks[i].rank
  }

  function Range(n: nat): set<nat> {
    if n == 0 then {} else Range(n - 1) + {n - 1}
  }

  const BY_RANK := (a: RankGeometry, b: RankGeometry) => a.rank <= b.rank

  predicate SameGeometry(a: RankGeometry, b: RankGeometry) {
    a.bytesPerBlock == b.bytesPerBlock && a.overhead == b.overhead && a.groups == b.groups
  }

  /** Construction of a geometry descriptor: the ranks in order. */
  function Describe(ranks: seq<RankGeometry>, worldSize: nat): Result<seq<RankGeometry>, Error>
    requires worldSize > 0
  {
    var ordered := Sort(BY_RANK, ranks);
    if |ordered| != worldSize then Err(RankCover)
    else if Ids(ordered) != Range(worldSize) then Err(RankIds)
    else if |set i | 0 <= i < |ordered| :: ordered[i].deviceId| != |ordered| then Err(DeviceIds)
    else if exists i | 1 <= i < |ordered| :: !SameGeometry(ordered[i], ordered[0]) then Err(MixedGeometry)
    else
      var _ :- CheckedSum(seq(|ordered|, i requires 0 <= i < |ordered| => ordered[i].bytesPerBlock));
      Ok(ordered)
  }

  predicate OneValue(values: seq<nat>) {
    |set v | v in values| == 1
  }

  /** One field of every rank's sizing. */
  function Column(sizes: seq<Sizing>, field: Sizing -> nat): (values: seq<nat>)
    ensures |values| == |sizes| && forall i | 0 <= i < |sizes| :: values[i] == field(sizes[i])
  {
    if sizes == [] then [] else [field(sizes[0])] + Column(sizes[1..], field)
  }

  function DesiredBlocks(sizes: seq<Sizing>): seq<nat> {
    Column(sizes, (s: Sizing) => s.desiredBlocks)
  }

  function DesiredBytes(sizes: seq<Sizing>): seq<nat> {
    Column(sizes, (s: Sizing) => s.desiredBytes)
  }

  function MaximumBlocks(sizes: seq<Sizing>): seq<nat> {
    Column(sizes, (s: Sizing) => s.maximumBlocks)
  }

  function MaximumBytes(sizes: seq<Sizing>): seq<nat> {
    Column(sizes, (s: Sizing) => s.maximumBytes)
  }

  /** The cross-rank checks on a finished plan. */
  function CheckResult(sizes: seq<Sizing>, worldSize: nat): Result<seq<Sizing>, Error> {
    if |sizes| != worldSize then Err(RankCover)
    else if (set i | 0 <= i < |sizes| :: sizes[i].rank) != Range(|sizes|) then Err(RankIds)
    else if !OneValue(DesiredBlocks(sizes)) then Err(BlockCountsDiffer)
    else if !OneValue(DesiredBytes(sizes)) then Err(ByteGrantsDiffer)
    else if !OneValue(MaximumBlocks(sizes)) || !OneValue(MaximumBytes(sizes)) then Err(MaximaDiffer)
    else if exists i | 0 <= i < |sizes| :: sizes[i].maximumBlocks < sizes[i].desiredBlocks then Err(MaximumBelowDesired)
    else
      var _ :- CheckedSum(DesiredBytes(sizes));
      Ok(sizes)
  }

  function SizeAll(ranks: seq<RankGeometry>, p: Policy): Result<seq<Sizing>, Error>
    requires ValidPolicy(p) && forall i | 0 <= i < |ranks| :: ValidRank(ranks[i])
  {
    if ranks == [] then Ok([])
    else
      var first :- SizeRank(ranks[0], p);
      var rest :- SizeAll(ranks[1..], p);
      Ok([first] + rest)
  }

  function BuildPlan(ranks: seq<RankGeometry>, worldSize: nat, p: Policy): Result<seq<Sizing>, Error>
    requires ValidPolicy(p) && forall i | 0 <= i < |ranks| :: ValidRank(ranks[i])
  {
    var sizes :- SizeAll(ranks, p);
    CheckResult(sizes, worldSize)
  }

  lemma {:induction false} SizeAllIs(ranks: seq<RankGeometry>, p: Policy)
    requires ValidPolicy(p) && (forall i | 0 <= i < |ranks| :: ValidRank(ranks[i])) && SizeAll(ranks, p).Ok?
    ensures |SizeAll(ranks, p).value| == |ranks|
    ensures forall i | 0 <= i < |ranks| :: SizeRank(ranks[i], p) == Ok(SizeAll(ranks, p).value[i])
  {
    hide SizeRank, ValidRank;
    if ranks != [] {
      SizeAllIs(ranks[1..], p);
    }
  }

  /** Sizing depends on the geometry, not on which rank has it. */
  lemma SameGeometrySameSize(a: RankGeometry, b: RankGeometry, p: Policy)
    requires ValidRank(a) && ValidRank(b) && ValidPolicy(p) && SameGeometry(b, a)
    requires SizeRank(a, p).Ok? && SizeRank(b, p).Ok?
    ensures SizeRank(b, p).value == SizeRank(a, p).value.(rank := b.rank, deviceId := b.deviceId)
    ensures SizeRank(a, p).value.rank == a.rank
  {
  }

  lemma AllEqualIsOneValue(values: seq<nat>, v: nat)
    requires values != [] && forall i | 0 <= i < |values| :: values[i] == v
    ensures OneValue(values)
  {
    assert values[0] == v;
    assert (set x | x in values) == {v};
  }

  /** For an accepted geometry whose ranks can be sized, the cross-rank checks
      can only fail by overflow of the total, and exactly then. */
  lemma PlanFailsOnlyByOverflow(ranks: seq<RankGeometry>, worldSize: nat, p: Policy, ordered: seq<RankGeometry>, sizes: seq<Sizing>)
    requires ValidPolicy(p) && worldSize > 0 && Describe(ranks, worldSize) == Ok(ordered)
    requires (forall i | 0 <= i < |ordered| :: ValidRank(ordered[i])) && SizeAll(ordered, p) == Ok(sizes)
    ensures BuildPlan(ordered, worldSize, p) == if Sum(DesiredBytes(sizes)) <= U64_MAX then Ok(sizes) else Err(Overflow)
  {
    DescribedRanks(ranks, worldSize);
    hide SizeRank, ValidRank, Describe, SizeAll, OneValue, DesiredBlocks, DesiredBytes, MaximumBlocks, MaximumBytes, Range, Ids, CheckResult, SameGeometry;
    SizesAgree(ordered, p);
    AgreementChecks(sizes, ordered);
    AgreedResult(sizes, worldSize);
  }

  lemma AgreedResult(sizes: seq<Sizing>, worldSize: nat)
    requires |sizes| == worldSize && (set i | 0 <= i < |sizes| :: sizes[i].rank) == Range(|sizes|)
    requires OneValue(DesiredBlocks(sizes)) && OneValue(DesiredBytes(sizes))
    requires OneValue(MaximumBlocks(sizes)) && OneValue(MaximumBytes(sizes))
    requires !exists i | 0 <= i < |sizes| :: sizes[i].maximumBlocks < sizes[i].desiredBlocks
    ensures CheckResult(sizes, worldSize) == if Sum(DesiredBytes(sizes)) <= U64_MAX then Ok(sizes) else Err(Overflow)
  {
    hide OneValue, DesiredBlocks, DesiredBytes, MaximumBlocks, MaximumBytes, Range;
  }

  lemma DescribedRanks(ranks: seq<RankGeometry>, worldSize: nat)
    requires worldSize > 0 && Describe(ranks, worldSize).Ok?
    ensures var ordered := Describe(ranks, worldSize).value;
            && |ordered| == worldSize && Ids(ordered) == Range(worldSize)
            && forall i | 0 <= i < |ordered| :: SameGeometry(ordered[i], ordered[0])
  {
  }

  /** The sizings of ranks with one geometry differ in rank and device only. */
  lemma SizesAgree(ordered: seq<RankGeometry>, p: Policy)
    requires ValidPolicy(p) && ordered != []
    requires forall i | 0 <= i < |ordered| :: ValidRank(ordered[i]) && SameGeometry(ordered[i], ordered[0])
    requires SizeAll(ordered, p).Ok?
    ensures var sizes := SizeAll(ordered, p).value;
            && |sizes| == |ordered|
            && sizes[0].desiredBlocks <= sizes[0].maximumBlocks
            && forall i | 0 <= i < |sizes| :: sizes[i] == sizes[0].(rank := ordered[i].rank, deviceId := ordered[i].deviceId)
  {
    hide SizeRank, ValidRank, SameGeometry;
    var sizes := SizeAll(ordered, p).value;
    SizeAllIs(ordered, p);
    forall i | 0 <= i < |sizes|
      ensures sizes[i] == sizes[0].(rank := ordered[i].rank, deviceId := ordered[i].deviceId)
    {
      SameGeometrySameSize(ordered[0], ordered[i], p);
    }
    SizingIsBounded(ordered[0], p);
  }

  lemma AgreementChecks(sizes: seq<Sizing>, ordered: seq<RankGeometry>)
    requires |sizes| == |ordered| > 0 && sizes[0].desiredBlocks <= sizes[0].maximumBlocks
    requires forall i | 0 <= i < |sizes| :: sizes[i] == sizes[0].(rank := ordered[i].rank, deviceId := ordered[i].deviceId)
    ensures OneValue(DesiredBlocks(sizes)) && OneValue(DesiredBytes(sizes))
    ensures OneValue(MaximumBlocks(sizes)) && OneValue(MaximumBytes(sizes))
    ensures (set i | 0 <= i < |sizes| :: sizes[i].rank) == Ids(ordered)
    ensures !exists i | 0 <= i < |sizes| :: sizes[i].maximumBlocks < sizes[i].desiredBlocks
  {
    hide OneValue;
    AllEqualIsOneValue(DesiredBlocks(sizes), sizes[0].desiredBlocks);
    AllEqualIsOneValue(DesiredBytes(sizes), sizes[0].desiredBytes);
    AllEqualIsOneValue(MaximumBlocks(sizes), sizes[0].maximumBlocks);
    AllEqualIsOneValue(MaximumBytes(sizes), sizes[0].maximumBytes);
  }
}
