/** Reflection padding and framing of a waveform. */
module AudioFraming {
  import opened Common

  const USIZE_MAX: nat := U64_MAX

  datatype Error = TooShort | LengthOverflow

  // ----- reflection --------------------------------------------------------

  /** The constant-time fold. */
  function ReflectIndex(index: int, length: nat): int
    requires length > 0
  {
    if length == 1 then 0
    else
      var period := 2 * (length - 1);
      var folded := index % period;
      if folded >= length then period - folded else folded
  }

  /** How far an index lies from the middle of the samples, doubled. */
  function Distance(index: int, length: nat): nat {
    var d := 2 * index - (length - 1);
    if d < 0 then -d else d
  }

  /** Mirroring about the first sample, or about the last, until in range. */
  function Mirror(index: int, length: nat): (i: int)
    requires length > 1
    ensures 0 <= i < length
    decreases Distance(index, length)
  {
    if index < 0 then Mirror(-index, length)
    else if index >= length then Mirror(2 * (length - 1) - index, length)
    else index
  }

  lemma ShiftMod(a: int, k: int, period: int)
    requires period > 0
    ensures (a + k * period) % period == a % period
  {
    Distribute(a / period, k, period);
    DivModUnique(a + k * period, period, a / period + k, a % period);
  }

  lemma NegateMod(a: int, period: int)
    requires period > 0
    ensures (-a) % period == if a % period == 0 then 0 else period - a % period
  {
    var q, r := a / period, a % period;
    assert a == q * period + r;
    if r == 0 {
      assert -a == (-q) * period + 0;
      DivModUnique(-a, period, -q, 0);
    } else {
      Distribute(-q, -1, period);
      assert -a == (-q - 1) * period + (period - r);
      DivModUnique(-a, period, -q - 1, period - r);
    }
  }

  lemma FoldIsEven(index: int, length: nat)
    requires length > 1
    ensures ReflectIndex(-index, length) == ReflectIndex(index, length)
    ensures ReflectIndex(2 * (length - 1) - index, length) == ReflectIndex(index, length)
  {
    var period := 2 * (length - 1);
    NegateMod(index, period);
    ShiftMod(-index, 1, period);
    assert -index + 1 * period == period - index;
  }

  lemma SmallMod(a: int, period: int)
    requires 0 <= a < period
    ensures a % period == a
  {
    DivModUnique(a, period, 0, a);
  }

  /** The fold equals repeated mirroring. */
  lemma {:induction false} FoldIsMirror(index: int, length: nat)
    requires length > 1
    ensures ReflectIndex(index, length) == Mirror(index, length)
    decreases Distance(index, length)
  {
    FoldIsEven(index, length);
    if index < 0 {
      FoldIsMirror(-index, length);
    } else if index >= length {
      FoldIsMirror(2 * (length - 1) - index, length);
    } else if index == 2 * (length - 1) {
      assert false;
    } else {
      SmallMod(index, 2 * (length - 1));
    }
  }

  lemma ReflectInRange(index: int, length: nat)
    requires length > 0
    ensures 0 <= ReflectIndex(index, length) < length
  {
    if length > 1 {
      FoldIsMirror(index, length);
    }
  }

  lemma ReflectInside(index: int, length: nat)
    requires 0 <= index < length
    ensures ReflectIndex(index, length) == index
  {
    if length > 1 {
      FoldIsMirror(index, length);
    }
  }

  // ----- centring ----------------------------------------------------------

  function CenteredLength(samples: nat, nFft: nat, center: bool): Result<nat, Error> {
    if !center then Ok(samples)
    else if samples + 2 * (nFft / 2) <= USIZE_MAX then Ok(samples + 2 * (nFft / 2))
    else Err(LengthOverflow)
  }

  ghost function Sample(samples: seq<real>, index: int): real
    requires samples != []
  {
    ReflectInRange(index, |samples|);
    samples[ReflectIndex(index, |samples|)]
  }

  /** Sample `j` of the padded signal is the waveform reflected at `j - pad`. */
  method MaybeCenter(samples: seq<real>, nFft: nat, center: bool) returns (r: Result<seq<real>, Error>)
    requires samples != []
    ensures r.Ok? <==> CenteredLength(|samples|, nFft, center).Ok?
    ensures r.Ok? <==> !center || |samples| + nFft / 2 + nFft / 2 <= USIZE_MAX
    ensures r.Ok? ==> |r.value| == if center then nFft / 2 + |samples| + nFft / 2 else |samples|
    ensures r.Ok? ==> |r.value| == CenteredLength(|samples|, nFft, center).value
    ensures r.Ok? ==> var pad := if center then nFft / 2 else 0;
        forall j | 0 <= j < |r.value| :: r.value[j] == Sample(samples, j - pad)
  {
    hide ReflectIndex;
    if !center {
      forall j | 0 <= j < |samples| ensures samples[j] == Sample(samples, j) {
        ReflectInside(j, |samples|);
      }
      return Ok(samples);
    }
    var pad := nFft / 2;
    var length :- CenteredLength(|samples|, nFft, center);
    var output: seq<real> := [];
    for index := 0 to pad
      invariant |output| == index
      invariant forall j | 0 <= j < index :: output[j] == Sample(samples, j - pad)
    {
      ReflectInRange(pad - index, |samples|);
      LeftPad(pad, index, |samples|);
      output := output + [samples[ReflectIndex(pad - index, |samples|)]];
    }
    forall j | 0 <= j < |samples| ensures samples[j] == Sample(samples, j) {
      ReflectInside(j, |samples|);
    }
    output := output + samples;
    for index := 0 to pad
      invariant |output| == pad + |samples| + index
      invariant forall j | 0 <= j < |output| :: output[j] == Sample(samples, j - pad)
    {
      ReflectInRange(|samples| - 2 - index, |samples|);
      RightPad(index, |samples|);
      output := output + [samples[ReflectIndex(|samples| - 2 - index, |samples|)]];
    }
    return Ok(output);
  }

  lemma LeftPad(pad: nat, index: nat, length: nat)
    requires length > 0
    ensures ReflectIndex(pad - index, length) == ReflectIndex(index - pad, length)
  {
    if length > 1 {
      FoldIsEven(pad - index, length);
    }
  }

  lemma RightPad(index: nat, length: nat)
    requires length > 0
    ensures ReflectIndex(length - 2 - index, length) == ReflectIndex(length + index, length)
  {
    if length > 1 {
      FoldIsEven(length + index, length);
    }
  }

  // ----- framing -----------------------------------------------------------

  function FrameCount(signalLength: nat, nFft: nat, hop: nat): Result<nat, Error>
    requires hop > 0
  {
    if signalLength < nFft then Err(TooShort) else Ok(1 + (signalLength - nFft) / hop)
  }

  /** Frames can be counted exactly when one fits. */
  lemma FramesCanBeCounted(signalLength: nat, nFft: nat, hop: nat)
    requires hop > 0
    ensures FrameCount(signalLength, nFft, hop).Ok? <==> nFft <= signalLength
  {
  }

  /** Every counted frame reads inside the signal, and one more would not. */
  lemma FramesFitExactly(signalLength: nat, nFft: nat, hop: nat, frame: nat)
    requires hop > 0 && FrameCount(signalLength, nFft, hop).Ok?
    ensures frame < FrameCount(signalLength, nFft, hop).value <==> frame * hop + nFft <= signalLength
  {
    var room := signalLength - nFft;
    var q := room / hop;
    assert room == q * hop + room % hop;
    if frame <= q {
      MulMonotone(frame, q, hop);
    } else {
      MulMonotone(q + 1, frame, hop);
      Distribute(q, 1, hop);
    }
  }

  /** The frames the transform reads: each is `nFft` samples of the reflected
      waveform, taken every `hop` samples. */
  method Frames(samples: seq<real>, nFft: nat, hop: nat, center: bool) returns (r: Result<seq<seq<real>>, Error>)
    requires samples != [] && hop > 0
    ensures r.Ok? <==>
        && CenteredLength(|samples|, nFft, center).Ok?
        && FrameCount(CenteredLength(|samples|, nFft, center).value, nFft, hop).Ok?
    ensures r.Ok? ==> FrameCount(CenteredLength(|samples|, nFft, center).value, nFft, hop) == Ok(|r.value|)
    ensures r.Ok? ==> forall f | 0 <= f < |r.value| :: |r.value[f]| == nFft
    ensures r.Ok? ==> var pad := if center then nFft / 2 else 0;
        forall f, i | 0 <= f < |r.value| && 0 <= i < |r.value[f]| :: r.value[f][i] == Sample(samples, f * hop + i - pad)
  {
    var signal :- MaybeCenter(samples, nFft, center);
    var count :- FrameCount(|signal|, nFft, hop);
    var frames: seq<seq<real>> := [];
    ghost var pad := if center then nFft / 2 else 0;
    for f := 0 to count
      invariant |frames| == f
      invariant forall g | 0 <= g < f :: |frames[g]| == nFft
      invariant forall g, i | 0 <= g < f && 0 <= i < |frames[g]| :: frames[g][i] == Sample(samples, g * hop + i - pad)
    {
      FramesFitExactly(|signal|, nFft, hop, f);
      MulMonotone(0, f, hop);
      var start := f * hop;
      var buffer := signal[start..start + nFft];
      assert forall i | 0 <= i < nFft :: buffer[i] == signal[start + i];
      frames := frames + [buffer];
    }
    return Ok(frames);
  }
}
