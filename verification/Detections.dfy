/** Greedy non-maximum suppression over boxes with real coordinates and scores. */
module Detections {
  import opened Common
  import opened Sorting

  datatype Candidate = Candidate(x1: real, y1: real, x2: real, y2: real, score: real, cls: nat)

  datatype Config = Config(iouThreshold: real, classAgnostic: bool)

  function RMin(a: real, b: real): real {
    if a <= b then a else b
  }

  function RMax(a: real, b: real): real {
    if a >= b then a else b
  }

  // ----- intersection over union -------------------------------------------

  function Overlap(lowA: real, highA: real, lowB: real, highB: real): real {
    RMax(RMin(highA, highB) - RMax(lowA, lowB), 0.0)
  }

  function Area(c: Candidate): real {
    RMax(c.x2 - c.x1, 0.0) * RMax(c.y2 - c.y1, 0.0)
  }

  function Intersection(a: Candidate, b: Candidate): real {
    Overlap(a.x1, a.x2, b.x1, b.x2) * Overlap(a.y1, a.y2, b.y1, b.y2)
  }

  function IntersectionOverUnion(a: Candidate, b: Candidate): real {
    var intersection := Intersection(a, b);
    var union := Area(a) + Area(b) - intersection;
    if union <= 0.0 then 0.0 else intersection / union
  }

  lemma MulOrder(a: real, b: real, c: real, d: real)
    requires 0.0 <= a <= c && 0.0 <= b <= d
    ensures 0.0 <= a * b <= c * d
  {
    assert a * b <= c * b;
    assert c * b <= c * d;
  }

  lemma IntersectionFits(a: Candidate, b: Candidate)
    ensures 0.0 <= Intersection(a, b) <= Area(a)
    ensures Intersection(a, b) == Intersection(b, a)
  {
    MulOrder(Overlap(a.x1, a.x2, b.x1, b.x2), Overlap(a.y1, a.y2, b.y1, b.y2), RMax(a.x2 - a.x1, 0.0), RMax(a.y2 - a.y1, 0.0));
  }

  lemma QuotientInUnit(n: real, d: real)
    requires 0.0 <= n <= d && d > 0.0
    ensures 0.0 <= n / d <= 1.0
  {
  }

  /** IoU is symmetric and between 0 and 1, for inverted boxes too. */
  lemma IouIsSymmetricAndBounded(a: Candidate, b: Candidate)
    ensures IntersectionOverUnion(a, b) == IntersectionOverUnion(b, a)
    ensures 0.0 <= IntersectionOverUnion(a, b) <= 1.0
  {
    IntersectionFits(a, b);
    IntersectionFits(b, a);
    var intersection := Intersection(a, b);
    var union := Area(a) + Area(b) - intersection;
    if union > 0.0 {
      QuotientInUnit(intersection, union);
    }
  }

  /** The interval from `l` to `h` lies in both others. */
  predicate CommonInterval(l: real, h: real, lowA: real, highA: real, lowB: real, highB: real) {
    lowA <= l <= h <= highA && lowB <= l <= h <= highB
  }

  /** The overlap is the length of the longest common interval, zero if none. */
  lemma OverlapIsLongest(lowA: real, highA: real, lowB: real, highB: real)
    ensures forall l, h | CommonInterval(l, h, lowA, highA, lowB, highB) :: h - l <= Overlap(lowA, highA, lowB, highB)
    ensures var w := Overlap(lowA, highA, lowB, highB);
            w >= 0.0 && (w > 0.0 ==> exists l, h :: CommonInterval(l, h, lowA, highA, lowB, highB) && h - l == w)
  {
    var l, h := RMax(lowA, lowB), RMin(highA, highB);
    if l <= h {
      assert CommonInterval(l, h, lowA, highA, lowB, highB);
    }
  }

  /** A box with corners in order. */
  predicate Proper(c: Candidate) {
    c.x1 <= c.x2 && c.y1 <= c.y2
  }

  /** A box within another has IoU the ratio of their areas; so a box with area and
      itself have 1. */
  lemma IouOfNested(inner: Candidate, outer: Candidate)
    requires Proper(inner) && outer.x1 < outer.x2 && outer.y1 < outer.y2
    requires outer.x1 <= inner.x1 && inner.x2 <= outer.x2 && outer.y1 <= inner.y1 && inner.y2 <= outer.y2
    ensures (outer.x2 - outer.x1) * (outer.y2 - outer.y1) > 0.0
    ensures IntersectionOverUnion(inner, outer) ==
            (inner.x2 - inner.x1) * (inner.y2 - inner.y1) / ((outer.x2 - outer.x1) * (outer.y2 - outer.y1))
    ensures inner == outer ==> IntersectionOverUnion(inner, outer) == 1.0
  {
    ProductPositive(outer.x2 - outer.x1, outer.y2 - outer.y1);
    AreaIs(inner);
    AreaIs(outer);
    assert Intersection(inner, outer) == Area(inner);
    if inner == outer {
      QuotientOfSelf(Area(outer));
    }
  }

  lemma AreaIs(c: Candidate)
    requires Proper(c)
    ensures Area(c) == (c.x2 - c.x1) * (c.y2 - c.y1)
  {
  }

  lemma QuotientOfSelf(a: real)
    requires a > 0.0
    ensures a / a == 1.0
  {
  }

  lemma ProductPositive(a: real, b: real)
    requires a > 0.0 && b > 0.0
    ensures a * b > 0.0
  {
  }

  /** Boxes side by side have IoU zero. */
  lemma IouOfDisjoint(a: Candidate, b: Candidate)
    requires a.x2 <= b.x1 || a.y2 <= b.y1
    ensures IntersectionOverUnion(a, b) == 0.0
  {
  }

  /** For boxes with corners in order, one of them with area: the common area as a
      share of what they cover together. */
  lemma IouIsShare(a: Candidate, b: Candidate, width: real, height: real)
    requires Proper(a) && a.x1 < a.x2 && a.y1 < a.y2 && Proper(b)
    requires width == Overlap(a.x1, a.x2, b.x1, b.x2) && height == Overlap(a.y1, a.y2, b.y1, b.y2)
    ensures var together := (a.x2 - a.x1) * (a.y2 - a.y1) + (b.x2 - b.x1) * (b.y2 - b.y1) - width * height;
            together > 0.0 && IntersectionOverUnion(a, b) == width * height / together
  {
    ProductPositive(a.x2 - a.x1, a.y2 - a.y1);
    AreaIs(a);
    AreaIs(b);
    IntersectionFits(a, b);
    IntersectionFits(b, a);
    assert Intersection(a, b) == width * height;
    hide Intersection, Area;
  }

  // ----- greedy suppression ------------------------------------------------

  predicate Suppresses(config: Config, a: Candidate, b: Candidate) {
    (config.classAgnostic || a.cls == b.cls) && IntersectionOverUnion(a, b) > config.iouThreshold
  }

  lemma SuppressionIsSymmetric(config: Config, a: Candidate, b: Candidate)
    ensures Suppresses(config, a, b) <==> Suppresses(config, b, a)
  {
    IouIsSymmetricAndBounded(a, b);
  }

  const BY_SCORE := (a: Candidate, b: Candidate) => a.score >= b.score

  predicate Free(config: Config, kept: seq<Candidate>, c: Candidate) {
    forall k | 0 <= k < |kept| :: !Suppresses(config, kept[k], c)
  }

  /** The greedy choice among ranked candidates, as positions in the ranking. */
  function KeptPositions(config: Config, ranked: seq<Candidate>): (kept: seq<nat>)
    ensures forall k | 0 <= k < |kept| :: kept[k] < |ranked|
  {
    if ranked == [] then []
    else
      var last := |ranked| - 1;
      var before := KeptPositions(config, ranked[..last]);
      if Free(config, Pick(ranked, before), ranked[last]) then before + [last] else before
  }

  function Pick(ranked: seq<Candidate>, positions: seq<nat>): (picked: seq<Candidate>)
    requires forall k | 0 <= k < |positions| :: positions[k] < |ranked|
    ensures |picked| == |positions|
  {
    seq(|positions|, k requires 0 <= k < |positions| => ranked[positions[k]])
  }

  function Ranked(candidates: seq<Candidate>): seq<Candidate> {
    Sort(BY_SCORE, candidates)
  }

  method IsSuppressed(config: Config, kept: seq<Candidate>, candidate: Candidate) returns (suppressed: bool)
    ensures suppressed <==> !Free(config, kept, candidate)
  {
    for k := 0 to |kept|
      invariant forall j | 0 <= j < k :: !Suppresses(config, kept[j], candidate)
    {
      if (config.classAgnostic || kept[k].cls == candidate.cls)
        && IntersectionOverUnion(kept[k], candidate) > config.iouThreshold
      {
        return true;
      }
    }
    return false;
  }

  method NonMaxSuppression(config: Config, candidates: seq<Candidate>) returns (kept: seq<Candidate>)
    ensures kept == Pick(Ranked(candidates), KeptPositions(config, Ranked(candidates)))
  {
    hide Free, Ranked;
    var ranked := Ranked(candidates);
    kept := [];
    for i := 0 to |ranked|
      invariant kept == Pick(ranked[..i], KeptPositions(config, ranked[..i]))
    {
      var suppressed := IsSuppressed(config, kept, ranked[i]);
      PickNext(config, ranked, i);
      if !suppressed {
        kept := kept + [ranked[i]];
      }
    }
    assert ranked[..|ranked|] == ranked;
  }

  lemma PickNext(config: Config, ranked: seq<Candidate>, i: nat)
    requires i < |ranked|
    ensures var kept := Pick(ranked[..i], KeptPositions(config, ranked[..i]));
            Pick(ranked[..i + 1], KeptPositions(config, ranked[..i + 1])) ==
            if Free(config, kept, ranked[i]) then kept + [ranked[i]] else kept
  {
    hide Free;
    var shorter, longer := ranked[..i], ranked[..i + 1];
    assert longer[..i] == shorter && longer[i] == ranked[i];
    assert Pick(longer, KeptPositions(config, shorter)) == Pick(shorter, KeptPositions(config, shorter));
  }

  // ----- characterisation --------------------------------------------------

  /** A set of positions is a greedy choice when a position is in it exactly if
      no earlier position in it suppresses it. */
  ghost predicate GreedyChoice(config: Config, ranked: seq<Candidate>, chosen: iset<nat>) {
    forall i: nat | i < |ranked| ::
      i in chosen <==> !exists j: nat :: j < i && j in chosen && Suppresses(config, ranked[j], ranked[i])
  }

  ghost function Positions(config: Config, ranked: seq<Candidate>): iset<nat> {
    iset i: nat | i in KeptPositions(config, ranked)
  }

  ghost predicate Increasing(positions: seq<nat>) {
    forall k, m | 0 <= k < m < |positions| :: positions[k] < positions[m]
  }

  lemma {:induction false} KeptIncrease(config: Config, ranked: seq<Candidate>)
    ensures Increasing(KeptPositions(config, ranked))
  {
    if ranked != [] {
      var last := |ranked| - 1;
      KeptIncrease(config, ranked[..last]);
      IncreasingSnoc(KeptPositions(config, ranked[..last]), last);
    }
  }

  lemma IncreasingSnoc(positions: seq<nat>, last: nat)
    requires Increasing(positions) && forall k | 0 <= k < |positions| :: positions[k] < last
    ensures Increasing(positions + [last])
  {
  }

  lemma FreeMeans(config: Config, ranked: seq<Candidate>, positions: seq<nat>, c: Candidate)
    requires forall k | 0 <= k < |positions| :: positions[k] < |ranked|
    ensures Free(config, Pick(ranked, positions), c) <==>
            !exists j: nat :: j in positions && Suppresses(config, ranked[j], c)
  {
    hide Suppresses;
    var picked := Pick(ranked, positions);
    forall j | j in positions
      ensures exists k :: 0 <= k < |picked| && picked[k] == ranked[j]
    {
      var k :| 0 <= k < |positions| && positions[k] == j;
      assert picked[k] == ranked[j];
    }
    assert forall k | 0 <= k < |picked| :: picked[k] == ranked[positions[k]] && positions[k] in positions;
  }

  lemma GreedyExtends(config: Config, ranked: seq<Candidate>, before: iset<nat>, chosen: iset<nat>)
    requires ranked != []
    requires GreedyChoice(config, ranked[..|ranked| - 1], before)
    requires forall j: nat | j < |ranked| - 1 :: j in chosen <==> j in before
    requires var last := |ranked| - 1;
             last in chosen <==> !exists j: nat :: j < last && j in before && Suppresses(config, ranked[j], ranked[last])
    ensures GreedyChoice(config, ranked, chosen)
  {
    hide Suppresses;
    var shorter := ranked[..|ranked| - 1];
    assert forall j | 0 <= j < |shorter| :: shorter[j] == ranked[j];
    forall i: nat | i < |ranked|
      ensures i in chosen <==> !exists j: nat :: j < i && j in chosen && Suppresses(config, ranked[j], ranked[i])
    {
      assert i < |shorter| ==> (i in before <==> !exists j: nat :: j < i && j in before && Suppresses(config, shorter[j], shorter[i]));
    }
  }

  /** The loop makes a greedy choice: kept if and only if no earlier kept
      candidate suppresses it. */
  lemma {:induction false} LoopChoosesGreedily(config: Config, ranked: seq<Candidate>)
    ensures GreedyChoice(config, ranked, Positions(config, ranked))
  {
    if ranked != [] {
      hide Suppresses, Free, GreedyChoice;
      var last := |ranked| - 1;
      var before := KeptPositions(config, ranked[..last]);
      LoopChoosesGreedily(config, ranked[..last]);
      FreeMeans(config, ranked, before, ranked[last]);
      assert forall j | j in before :: j < last;
      GreedyExtends(config, ranked, Positions(config, ranked[..last]), Positions(config, ranked));
    }
  }

  /** There is only one greedy choice. */
  lemma {:induction false} GreedyChoiceIsUnique(config: Config, ranked: seq<Candidate>, a: iset<nat>, b: iset<nat>, i: nat)
    requires GreedyChoice(config, ranked, a) && GreedyChoice(config, ranked, b) && i < |ranked|
    ensures i in a <==> i in b
    decreases i
  {
    forall j: nat | j < i ensures j in a <==> j in b {
      GreedyChoiceIsUnique(config, ranked, a, b, j);
    }
  }

  lemma ScoreIsPreorder()
    ensures TotalPreorder(BY_SCORE)
  {
  }

  /** The result is ordered by score, no two kept candidates suppress each
      other, and every dropped one has a kept suppressor of at least its score. */
  lemma SuppressionIsSound(config: Config, candidates: seq<Candidate>)
    ensures var ranked := Ranked(candidates); var kept := KeptPositions(config, ranked); var result := Pick(ranked, kept);
            && Sorted(BY_SCORE, result)
            && (forall k, m | 0 <= k < |result| && 0 <= m < |result| && k != m :: !Suppresses(config, result[k], result[m]))
            && (forall i: nat | i < |ranked| && i !in kept ::
                  exists k :: 0 <= k < |result| && Suppresses(config, result[k], ranked[i]) && result[k].score >= ranked[i].score)
            && multiset(ranked) == multiset(candidates)
  {
    var ranked := Ranked(candidates);
    var kept := KeptPositions(config, ranked);
    var result := Pick(ranked, kept);
    ScoreIsPreorder();
    SortSorts(BY_SCORE, candidates);
    SortPermutes(BY_SCORE, candidates);
    KeptIncrease(config, ranked);
    LoopChoosesGreedily(config, ranked);
    forall k, m | 0 <= k < |result| && 0 <= m < |result| && k != m
      ensures !Suppresses(config, result[k], result[m])
    {
      KeptAreIndependent(config, ranked, kept, Min(k, m), Max(k, m));
      SuppressionIsSymmetric(config, result[k], result[m]);
    }
    forall i: nat | i < |ranked| && i !in kept
      ensures exists k :: 0 <= k < |result| && Suppresses(config, result[k], ranked[i]) && result[k].score >= ranked[i].score
    {
      assert i !in Positions(config, ranked);
      var j: nat :| j < i && j in Positions(config, ranked) && Suppresses(config, ranked[j], ranked[i]);
      var k :| 0 <= k < |kept| && kept[k] == j;
      assert result[k] == ranked[j] && BY_SCORE(ranked[j], ranked[i]);
    }
  }

  /** In full: the scores do not rise; any two kept candidates overlap by at most
      the threshold, or have different classes if these count; and every dropped one
      overlaps a kept one of at least its score by more, and has its class if these
      count. */
  lemma SuppressionInFull(config: Config, candidates: seq<Candidate>)
    ensures var ranked := Ranked(candidates); var kept := KeptPositions(config, ranked); var result := Pick(ranked, kept);
            && (forall k, m | 0 <= k < m < |result| :: result[k].score >= result[m].score)
            && (forall k, m | 0 <= k < |result| && 0 <= m < |result| && k != m ::
                  IntersectionOverUnion(result[k], result[m]) <= config.iouThreshold
                  || (!config.classAgnostic && result[k].cls != result[m].cls))
            && (forall i: nat | i < |ranked| && i !in kept ::
                  exists k :: 0 <= k < |result| && result[k].score >= ranked[i].score
                    && IntersectionOverUnion(result[k], ranked[i]) > config.iouThreshold
                    && (config.classAgnostic || result[k].cls == ranked[i].cls))
  {
    SuppressionIsSound(config, candidates);
    hide IntersectionOverUnion, Ranked, KeptPositions, Pick;
    var ranked := Ranked(candidates);
    var kept := KeptPositions(config, ranked);
    var result := Pick(ranked, kept);
    forall k, m | 0 <= k < m < |result| ensures result[k].score >= result[m].score {
      assert BY_SCORE(result[k], result[m]);
    }
    forall k, m | 0 <= k < |result| && 0 <= m < |result| && k != m
      ensures IntersectionOverUnion(result[k], result[m]) <= config.iouThreshold
              || (!config.classAgnostic && result[k].cls != result[m].cls)
    {
      assert !Suppresses(config, result[k], result[m]);
    }
  }

  lemma KeptAreIndependent(config: Config, ranked: seq<Candidate>, kept: seq<nat>, k: nat, m: nat)
    requires kept == KeptPositions(config, ranked) && k < m < |kept| && kept[k] < kept[m]
    requires GreedyChoice(config, ranked, Positions(config, ranked))
    ensures !Suppresses(config, ranked[kept[k]], ranked[kept[m]])
  {
    assert kept[k] in Positions(config, ranked) && kept[m] in Positions(config, ranked);
  }

  /** A second run changes nothing. */
  lemma SuppressionIsIdempotent(config: Config, candidates: seq<Candidate>)
    ensures var ranked := Ranked(candidates);
            var result := Pick(ranked, KeptPositions(config, ranked));
            Pick(Ranked(result), KeptPositions(config, Ranked(result))) == result
  {
    var ranked := Ranked(candidates);
    var result := Pick(ranked, KeptPositions(config, ranked));
    SuppressionIsSound(config, candidates);
    SortOfSorted(BY_SCORE, result);
    AllKept(config, result);
  }

  lemma {:induction false} AllKept(config: Config, independent: seq<Candidate>)
    requires forall k, m | 0 <= k < |independent| && 0 <= m < |independent| && k != m ::
               !Suppresses(config, independent[k], independent[m])
    ensures KeptPositions(config, independent) == seq(|independent|, k => k)
    ensures Pick(independent, KeptPositions(config, independent)) == independent
  {
    if independent != [] {
      AllKept(config, independent[..|independent| - 1]);
    }
  }
}
