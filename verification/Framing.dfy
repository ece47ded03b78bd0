/** The control-socket frame reader: newline-terminated frames, read in chunks
    that the transport cuts as it likes. Only bytes are modelled. */
module Framing {
  import opened Common

  const NEWLINE: byte := 0x0A
  const MAX_READ: nat := 65536

  datatype Error = PeerClosed | TooLong | EmptyFrame | TooLongAfterLoop

  /** The first newline at or after `from`, or the length. */
  function FindNewline(s: seq<byte>, from: nat): (i: nat)
    requires from <= |s|
    ensures from <= i <= |s|
    ensures forall j | from <= j < i :: s[j] != NEWLINE
    ensures i < |s| ==> s[i] == NEWLINE
    decreases |s| - from
  {
    if from == |s| || s[from] == NEWLINE then from else FindNewline(s, from + 1)
  }

  /** The most bytes one read asks for, after `size` bytes. */
  function Limit(size: nat, maxFrame: nat): int {
    Min(MAX_READ, maxFrame - size + 1)
  }

  /** What the frame reader does, told by the bytes alone: `first` is the index
      of the first newline. Undetermined only when it is exactly `maxFrame`. */
  predicate Expected(stream: seq<byte>, maxFrame: nat, r: Result<seq<byte>, Error>) {
    var first := FindNewline(stream, 0);
    if first == 0 < |stream| then r == Err(EmptyFrame)
    else if first < |stream| && first < maxFrame then r == Ok(stream[..first])
    else if first == |stream| && first < maxFrame then r == Err(PeerClosed)
    else if first < |stream| && first == maxFrame then r == Ok(stream[..first]) || r == Err(TooLong)
    else r == Err(TooLong)
  }

  lemma FirstNewlineIs(s: seq<byte>, i: nat)
    requires i <= |s| && (i < |s| ==> s[i] == NEWLINE) && forall j | 0 <= j < i :: s[j] != NEWLINE
    ensures FindNewline(s, 0) == i
  {
    var first := FindNewline(s, 0);
    assert first < |s| ==> s[first] == NEWLINE;
  }

  /** A way the transport may cut a stream: no read is empty or over its limit.
      After `maxFrame` bytes the reader has stopped. */
  predicate LegalCuts(cuts: seq<seq<byte>>, size: nat, maxFrame: nat) {
    size >= maxFrame || cuts == [] ||
    (0 < |cuts[0]| <= Limit(size, maxFrame) && LegalCuts(cuts[1..], size + |cuts[0]|, maxFrame))
  }

  function Finish(frame: seq<byte>, maxFrame: nat): Result<seq<byte>, Error> {
    if frame == [] then Err(EmptyFrame)
    else if |frame| > maxFrame then Err(TooLongAfterLoop)
    else Ok(frame)
  }

  /** The reader on given cuts, after which the peer has closed. */
  function Outcome(cuts: seq<seq<byte>>, before: seq<byte>, maxFrame: nat): Result<seq<byte>, Error> {
    if cuts == [] then Err(PeerClosed)
    else
      var newline := FindNewline(cuts[0], 0);
      if newline < |cuts[0]| then Finish(before + cuts[0][..newline], maxFrame)
      else if |before + cuts[0]| >= maxFrame then Err(TooLong)
      else Outcome(cuts[1..], before + cuts[0], maxFrame)
  }

  method ReadFrame(cuts: seq<seq<byte>>, maxFrame: nat) returns (r: Result<seq<byte>, Error>)
    ensures r == Outcome(cuts, [], maxFrame)
  {
    var chunks: seq<byte>, size: nat, i: nat := [], 0, 0;
    while true
      invariant i <= |cuts| && size == |chunks|
      invariant Outcome(cuts, [], maxFrame) == Outcome(cuts[i..], chunks, maxFrame)
      decreases |cuts| - i
    {
      if i == |cuts| {
        return Err(PeerClosed);
      }
      var chunk := cuts[i];
      assert cuts[i..][1..] == cuts[i + 1..];
      var newline := FindNewline(chunk, 0);
      if newline < |chunk| {
        chunks := chunks + chunk[..newline];
        break;
      }
      chunks := chunks + chunk;
      size := size + |chunk|;
      i := i + 1;
      if size >= maxFrame {
        return Err(TooLong);
      }
    }
    if chunks == [] {
      return Err(EmptyFrame);
    }
    if |chunks| > maxFrame {
      return Err(TooLongAfterLoop);
    }
    return Ok(chunks);
  }

  ghost predicate NoNewline(s: seq<byte>) {
    forall j | 0 <= j < |s| :: s[j] != NEWLINE
  }

  /** Whatever the cuts, the outcome is the one the bytes alone allow. */
  lemma {:induction false} OutcomeIsExpected(cuts: seq<seq<byte>>, before: seq<byte>, maxFrame: nat)
    requires |before| < maxFrame && NoNewline(before) && LegalCuts(cuts, |before|, maxFrame)
    ensures Expected(before + Flatten(cuts), maxFrame, Outcome(cuts, before, maxFrame))
  {
    var stream := before + Flatten(cuts);
    if cuts == [] {
      FirstNewlineIs(stream, |stream|);
    } else {
      var chunk := cuts[0];
      var newline := FindNewline(chunk, 0);
      assert stream == before + chunk + Flatten(cuts[1..]);
      if newline < |chunk| {
        assert before + chunk[..newline] == stream[..|before| + newline];
        FirstNewlineIs(stream, |before| + newline);
      } else if |before + chunk| < maxFrame {
        OutcomeIsExpected(cuts[1..], before + chunk, maxFrame);
      } else {
        LateNewline(before + chunk, Flatten(cuts[1..]));
      }
    }
  }

  lemma LateNewline(front: seq<byte>, rest: seq<byte>)
    requires NoNewline(front)
    ensures FindNewline(front + rest, 0) >= |front|
  {
    var all := front + rest;
    assert forall j | 0 <= j < |front| :: all[j] == front[j] != NEWLINE;
    var first := FindNewline(all, 0);
    assert first < |all| ==> all[first] == NEWLINE;
  }

  /** A payload without newlines, of 1 to `maxFrame - 1` bytes and followed by a
      newline, is returned exactly under every way of cutting the stream. */
  lemma FrameRoundTrip(payload: seq<byte>, rest: seq<byte>, cuts: seq<seq<byte>>, maxFrame: nat)
    requires 0 < |payload| < maxFrame && NoNewline(payload)
    requires Flatten(cuts) == payload + [NEWLINE] + rest && LegalCuts(cuts, 0, maxFrame)
    ensures Outcome(cuts, [], maxFrame) == Ok(payload)
  {
    OutcomeIsExpected(cuts, [], maxFrame);
    var stream := Flatten(cuts);
    assert [] + stream == stream;
    FirstNewlineIs(stream, |payload|);
    assert stream[..|payload|] == payload;
  }

  /** No frame is longer than the maximum, and the length check after the loop
      never fails. */
  lemma FrameFits(cuts: seq<seq<byte>>, maxFrame: nat)
    requires maxFrame > 0 && LegalCuts(cuts, 0, maxFrame)
    ensures var r := Outcome(cuts, [], maxFrame);
            r != Err(TooLongAfterLoop) && (r.Ok? ==> 1 <= |r.value| <= maxFrame)
  {
    OutcomeIsExpected(cuts, [], maxFrame);
    assert [] + Flatten(cuts) == Flatten(cuts);
  }

  /** Two ways of cutting one stream agree, unless its first newline is at
      exactly `maxFrame`. */
  lemma CutsAgree(a: seq<seq<byte>>, b: seq<seq<byte>>, maxFrame: nat)
    requires maxFrame > 0 && LegalCuts(a, 0, maxFrame) && LegalCuts(b, 0, maxFrame)
    requires Flatten(a) == Flatten(b)
    requires FindNewline(Flatten(a), 0) != maxFrame || |Flatten(a)| == maxFrame
    ensures Outcome(a, [], maxFrame) == Outcome(b, [], maxFrame)
  {
    OutcomeIsExpected(a, [], maxFrame);
    OutcomeIsExpected(b, [], maxFrame);
    assert [] + Flatten(a) == Flatten(a);
  }

  // ----- the newline at exactly the maximum ---------------------------------

  /** A way to cut this very stream. */
  ghost predicate CutsOf(cuts: seq<seq<byte>>, stream: seq<byte>, maxFrame: nat) {
    LegalCuts(cuts, 0, maxFrame) && Flatten(cuts) == stream
  }

  ghost predicate AllCutsAgree(stream: seq<byte>, maxFrame: nat) {
    forall a, b | CutsOf(a, stream, maxFrame) && CutsOf(b, stream, maxFrame) ::
      Outcome(a, [], maxFrame) == Outcome(b, [], maxFrame)
  }

  function Singles(s: seq<byte>): seq<seq<byte>> {
    if s == [] then [] else [[s[0]]] + Singles(s[1..])
  }

  lemma {:induction false} SinglesFlatten(front: seq<byte>, rest: seq<seq<byte>>)
    ensures Flatten(Singles(front) + rest) == front + Flatten(rest)
  {
    var cuts := Singles(front) + rest;
    if front == [] {
      assert cuts == rest;
    } else {
      assert cuts[0] == [front[0]] && cuts[1..] == Singles(front[1..]) + rest;
      SinglesFlatten(front[1..], rest);
    }
  }

  /** Reading a newline-free front byte by byte only moves it into the buffer. */
  lemma {:induction false} SinglesThen(front: seq<byte>, rest: seq<seq<byte>>, before: seq<byte>, maxFrame: nat)
    requires NoNewline(front) && |before| + |front| < maxFrame
    requires LegalCuts(rest, |before| + |front|, maxFrame)
    ensures LegalCuts(Singles(front) + rest, |before|, maxFrame)
    ensures Outcome(Singles(front) + rest, before, maxFrame) == Outcome(rest, before + front, maxFrame)
  {
    hide Finish, Flatten;
    var cuts := Singles(front) + rest;
    if front == [] {
      assert cuts == rest && before + front == before;
    } else {
      var one := [front[0]];
      assert cuts[0] == one && cuts[1..] == Singles(front[1..]) + rest;
      FirstNewlineIs(one, 1);
      assert before + front == before + one + front[1..];
      SinglesThen(front[1..], rest, before + one, maxFrame);
    }
  }

  /** Every stream whose first newline is at exactly `maxFrame` can be read as a
      frame or found too long: up to one byte below the maximum byte by byte,
      then the last byte with or without its newline. */
  lemma CutsDisagreeAtMaximum(stream: seq<byte>, maxFrame: nat) returns (a: seq<seq<byte>>, b: seq<seq<byte>>)
    requires maxFrame > 0 && FindNewline(stream, 0) == maxFrame < |stream|
    ensures CutsOf(a, stream, maxFrame) && CutsOf(b, stream, maxFrame)
    ensures Outcome(a, [], maxFrame) == Ok(stream[..maxFrame])
    ensures Outcome(b, [], maxFrame) == Err(TooLong)
  {
    var m := maxFrame - 1;
    var front := stream[..m];
    var pair, last := stream[m..m + 2], stream[m..m + 1];
    a, b := [pair, stream[m + 2..]], [last, stream[m + 1..]];
    ReadAtOnce(stream, maxFrame, a);
    ReadApart(stream, maxFrame, b);
    assert [] + front == front;
    SinglesThen(front, a, [], maxFrame);
    SinglesThen(front, b, [], maxFrame);
    SinglesFlatten(front, a);
    SinglesFlatten(front, b);
    assert front + stream[m..] == stream;
    a, b := Singles(front) + a, Singles(front) + b;
  }

  lemma ReadAtOnce(stream: seq<byte>, maxFrame: nat, cuts: seq<seq<byte>>)
    requires maxFrame > 0 && FindNewline(stream, 0) == maxFrame < |stream|
    requires cuts == [stream[maxFrame - 1..maxFrame + 1], stream[maxFrame + 1..]]
    ensures LegalCuts(cuts, maxFrame - 1, maxFrame) && Flatten(cuts) == stream[maxFrame - 1..]
    ensures Outcome(cuts, stream[..maxFrame - 1], maxFrame) == Ok(stream[..maxFrame])
  {
    PairFlattens(cuts);
    FirstNewlineIs(cuts[0], 1);
    assert stream[..maxFrame - 1] + cuts[0][..1] == stream[..maxFrame];
  }

  lemma ReadApart(stream: seq<byte>, maxFrame: nat, cuts: seq<seq<byte>>)
    requires maxFrame > 0 && FindNewline(stream, 0) == maxFrame < |stream|
    requires cuts == [stream[maxFrame - 1..maxFrame], stream[maxFrame..]]
    ensures LegalCuts(cuts, maxFrame - 1, maxFrame) && Flatten(cuts) == stream[maxFrame - 1..]
    ensures Outcome(cuts, stream[..maxFrame - 1], maxFrame) == Err(TooLong)
  {
    PairFlattens(cuts);
    FirstNewlineIs(cuts[0], 1);
  }

  lemma PairFlattens(cuts: seq<seq<byte>>)
    requires |cuts| == 2
    ensures Flatten(cuts) == cuts[0] + cuts[1]
  {
    assert cuts[1..] == [cuts[1]] && cuts[1..][1..] == [];
    assert Flatten(cuts[1..]) == cuts[1] + [];
  }

  /** The reader's answer is independent of the cuts exactly when the stream has
      no newline or its first one is not at exactly `maxFrame`. */
  lemma CutsAgreeIff(stream: seq<byte>, maxFrame: nat)
    requires maxFrame > 0
    ensures AllCutsAgree(stream, maxFrame) <==>
            FindNewline(stream, 0) != maxFrame || |stream| == maxFrame
  {
    if FindNewline(stream, 0) == maxFrame && |stream| != maxFrame {
      var a, b := CutsDisagreeAtMaximum(stream, maxFrame);
    } else {
      forall a, b | CutsOf(a, stream, maxFrame) && CutsOf(b, stream, maxFrame)
        ensures Outcome(a, [], maxFrame) == Outcome(b, [], maxFrame)
      {
        CutsAgree(a, b, maxFrame);
      }
    }
  }

  /** For instance, one byte and a newline under a maximum of one byte are a
      frame when read at once, and too long when read one by one. */
  lemma CutsMayDisagreeAtMaximum()
    ensures var whole: seq<seq<byte>>, halves: seq<seq<byte>> := [[1, NEWLINE]], [[1], [NEWLINE]];
            && Flatten(whole) == Flatten(halves)
            && LegalCuts(whole, 0, 1) && LegalCuts(halves, 0, 1)
            && Outcome(whole, [], 1) == Ok([1])
            && Outcome(halves, [], 1) == Err(TooLong)
  {
    var whole: seq<seq<byte>>, halves: seq<seq<byte>> := [[1, NEWLINE]], [[1], [NEWLINE]];
    assert whole[1..] == [] && halves[1..] == [[NEWLINE]] && halves[1..][1..] == [];
    assert Flatten(whole) == [1, NEWLINE] + [] == [1, NEWLINE];
    assert Flatten(halves[1..]) == [NEWLINE] + [];
    assert Flatten(halves) == [1] + [NEWLINE];
    FirstNewlineIs([1, NEWLINE], 1);
    assert [] + [1, NEWLINE][..1] == [1];
    FirstNewlineIs([1], 1);
  }

  /** What the client sends fits a reader with its own limit: the frame and its
      newline, under every way of cutting. */
  lemma SentFrameIsRead(frame: seq<byte>, cuts: seq<seq<byte>>, maxFrame: nat)
    requires frame != [] && |frame| + 1 <= maxFrame && NoNewline(frame)
    requires Flatten(cuts) == frame + [0x0A] && LegalCuts(cuts, 0, maxFrame)
    ensures Outcome(cuts, [], maxFrame) == Ok(frame)
  {
    assert frame + [NEWLINE] == frame + [NEWLINE] + [];
    FrameRoundTrip(frame, [], cuts, maxFrame);
  }
}
