/** Greedy CTC decoding of a [time, vocabulary] score matrix. */
module Transcription {
  import opened Common

  datatype Config = Config(blankId: nat, collapseRepeats: bool)

  type Frame = seq<real>

  /** One score per vocabulary entry in every frame, and a blank among them. */
  predicate WellFormed(frames: seq<Frame>, vocabulary: nat, config: Config) {
    config.blankId < vocabulary && forall i | 0 <= i < |frames| :: |frames[i]| == vocabulary
  }

  /** `best` is the first position of the row's greatest score. */
  ghost predicate IsArgmax(row: Frame, best: nat) {
    && best < |row|
    && (forall i | 0 <= i < |row| :: row[i] <= row[best])
    && (forall i | 0 <= i < best :: row[i] < row[best])
  }

  ghost function Argmax(row: Frame): (best: nat)
    requires row != []
    ensures IsArgmax(row, best)
  {
    if |row| == 1 then 0
    else
      var last := |row| - 1;
      var before := Argmax(row[..last]);
      assert forall i | 0 <= i < last :: row[i] == row[..last][i];
      if row[last] > row[before] then last else before
  }

  ghost function Path(frames: seq<Frame>): seq<nat>
    requires forall i | 0 <= i < |frames| :: frames[i] != []
  {
    seq(|frames|, i requires 0 <= i < |frames| => Argmax(frames[i]))
  }

  /** Equal neighbours collapsed to one. */
  function Collapse(path: seq<nat>): seq<nat> {
    if |path| <= 1 then path
    else
      var last := |path| - 1;
      Collapse(path[..last]) + (if path[last] == path[last - 1] then [] else [path[last]])
  }

  function RemoveBlanks(path: seq<nat>, blank: nat): seq<nat> {
    if path == [] then []
    else
      var last := |path| - 1;
      RemoveBlanks(path[..last], blank) + (if path[last] == blank then [] else [path[last]])
  }

  /** The textbook definition: argmax per frame, collapse, then drop blanks. */
  function Decode(path: seq<nat>, config: Config): seq<nat> {
    RemoveBlanks(if config.collapseRepeats then Collapse(path) else path, config.blankId)
  }

  method BestToken(row: Frame) returns (best: nat)
    requires row != []
    ensures best == Argmax(row)
  {
    best := 0;
    for index := 1 to |row|
      invariant best == Argmax(row[..index])
    {
      assert row[..index + 1][..index] == row[..index];
      if row[index] > row[best] {
        best := index;
      }
    }
    assert row[..|row|] == row;
  }

  /** The source's single pass over the frames. */
  method Transcribe(frames: seq<Frame>, vocabulary: nat, config: Config) returns (tokens: seq<nat>)
    requires WellFormed(frames, vocabulary, config)
    ensures tokens == Decode(Path(frames), config)
  {
    hide Decode, Argmax;
    tokens := [];
    DecodeNothing(config);
    var previous: Option<nat> := None;
    ghost var path := Path(frames);
    for t := 0 to |frames|
      invariant tokens == Decode(path[..t], config)
      invariant previous == if t == 0 then None else Some(path[t - 1])
    {
      var best := BestToken(frames[t]);
      assert path[..t + 1][..t] == path[..t] && path[..t + 1][t] == best;
      DecodeSnoc(path[..t], best, config);
      assert path[..t] + [best] == path[..t + 1];
      if config.collapseRepeats && previous == Some(best) {
        continue;
      }
      previous := Some(best);
      if best != config.blankId {
        tokens := tokens + [best];
      }
    }
    assert path[..|frames|] == path;
  }

  lemma DecodeNothing(config: Config)
    ensures Decode([], config) == []
  {
  }

  lemma RemoveBlanksSnoc(path: seq<nat>, token: nat, blank: nat)
    ensures RemoveBlanks(path + [token], blank) == RemoveBlanks(path, blank) + (if token == blank then [] else [token])
  {
    assert (path + [token])[..|path|] == path;
  }

  lemma CollapseSnoc(path: seq<nat>, token: nat)
    ensures Collapse(path + [token]) ==
            Collapse(path) + (if path != [] && path[|path| - 1] == token then [] else [token])
  {
    var longer := path + [token];
    assert longer[..|path|] == path && longer[|path|] == token;
    if path == [] {
      assert longer == [token] && Collapse(path) + [token] == [token];
    } else {
      assert longer[|path| - 1] == path[|path| - 1];
    }
  }

  lemma DecodeSnoc(path: seq<nat>, token: nat, config: Config)
    ensures Decode(path + [token], config) == Decode(path, config) +
      (if token == config.blankId || (config.collapseRepeats && path != [] && path[|path| - 1] == token) then [] else [token])
  {
    hide Collapse, RemoveBlanks;
    if config.collapseRepeats {
      CollapseSnoc(path, token);
      if path != [] && path[|path| - 1] == token {
        assert Collapse(path) + [] == Collapse(path);
        assert Decode(path, config) + [] == Decode(path, config);
      } else {
        RemoveBlanksSnoc(Collapse(path), token, config.blankId);
      }
    } else {
      RemoveBlanksSnoc(path, token, config.blankId);
    }
  }

  // ----- invariance and recovery -------------------------------------------

  /** With collapsing on, only the last token of the front matters to what the
      rest adds. */
  lemma {:induction false} DecodeContinues(a: seq<nat>, b: seq<nat>, rest: seq<nat>, config: Config)
    requires config.collapseRepeats && a != [] && b != [] && a[|a| - 1] == b[|b| - 1]
    requires Decode(a, config) == Decode(b, config)
    ensures Decode(a + rest, config) == Decode(b + rest, config)
  {
    hide Decode;
    if rest == [] {
      assert a + rest == a && b + rest == b;
    } else {
      var last := |rest| - 1;
      DecodeContinues(a, b, rest[..last], config);
      DecodeSnoc(a + rest[..last], rest[last], config);
      DecodeSnoc(b + rest[..last], rest[last], config);
      assert a + rest == a + rest[..last] + [rest[last]];
      assert b + rest == b + rest[..last] + [rest[last]];
    }
  }

  /** Repeating any frame leaves the transcript unchanged. */
  lemma RepeatedFrameChangesNothing(frames: seq<Frame>, vocabulary: nat, config: Config, t: nat)
    requires WellFormed(frames, vocabulary, config) && config.collapseRepeats && t < |frames|
    ensures var longer := frames[..t + 1] + frames[t..];
            WellFormed(longer, vocabulary, config) && Decode(Path(longer), config) == Decode(Path(frames), config)
  {
    hide Decode;
    var path := Path(frames);
    var front, rest := path[..t + 1], path[t + 1..];
    RepeatedPath(frames, t);
    assert path == front + rest;
    DecodeSnoc(front, path[t], config);
    assert Decode(front, config) + [] == Decode(front, config);
    DecodeContinues(front + [path[t]], front, rest, config);
  }

  lemma RepeatedPath(frames: seq<Frame>, t: nat)
    requires t < |frames| && forall i | 0 <= i < |frames| :: frames[i] != []
    ensures Path(frames[..t + 1] + frames[t..]) == Path(frames)[..t + 1] + [Path(frames)[t]] + Path(frames)[t + 1..]
  {
    hide Argmax;
  }

  function OneHot(token: nat, vocabulary: nat): Frame
    requires token < vocabulary
  {
    seq(vocabulary, i => if i == token then 1.0 else 0.0)
  }

  lemma OneHotArgmax(token: nat, vocabulary: nat)
    requires token < vocabulary
    ensures Argmax(OneHot(token, vocabulary)) == token
  {
    var row := OneHot(token, vocabulary);
    var best := Argmax(row);
    assert row[token] <= row[best];
  }

  /** Frames that spell the tokens, with a blank frame after each. */
  function Spell(tokens: seq<nat>, vocabulary: nat, blank: nat): seq<Frame>
    requires blank < vocabulary && forall i | 0 <= i < |tokens| :: tokens[i] < vocabulary
  {
    if tokens == [] then []
    else
      var last := |tokens| - 1;
      Spell(tokens[..last], vocabulary, blank) + [OneHot(tokens[last], vocabulary)] + [OneHot(blank, vocabulary)]
  }

  lemma PathSnoc(frames: seq<Frame>, frame: Frame)
    requires frame != [] && forall i | 0 <= i < |frames| :: frames[i] != []
    ensures Path(frames + [frame]) == Path(frames) + [Argmax(frame)]
  {
  }

  /** Every blank-free token list is some transcript, with or without
      collapsing: tokens separated by blanks are recovered exactly. */
  lemma {:induction false} SpellingIsRecovered(tokens: seq<nat>, vocabulary: nat, config: Config)
    requires config.blankId < vocabulary
    requires forall i | 0 <= i < |tokens| :: tokens[i] < vocabulary && tokens[i] != config.blankId
    ensures var frames := Spell(tokens, vocabulary, config.blankId);
            && WellFormed(frames, vocabulary, config)
            && Decode(Path(frames), config) == tokens
            && (tokens != [] ==> Path(frames) != [] && Path(frames)[|frames| - 1] == config.blankId)
  {
    if tokens != [] {
      var last, blank := |tokens| - 1, config.blankId;
      SpellingIsRecovered(tokens[..last], vocabulary, config);
      var before := Spell(tokens[..last], vocabulary, blank);
      SpellOne(before, tokens[last], vocabulary, config);
      assert tokens == tokens[..last] + [tokens[last]];
    }
  }

  lemma SpellOne(before: seq<Frame>, token: nat, vocabulary: nat, config: Config)
    requires WellFormed(before, vocabulary, config) && token < vocabulary && token != config.blankId
    requires before != [] ==> Path(before)[|before| - 1] == config.blankId
    ensures var frames := before + [OneHot(token, vocabulary)] + [OneHot(config.blankId, vocabulary)];
            && WellFormed(frames, vocabulary, config)
            && Path(frames) == Path(before) + [token] + [config.blankId]
            && Decode(Path(frames), config) == Decode(Path(before), config) + [token]
  {
    hide Decode;
    var frame, path := OneHot(token, vocabulary), Path(before);
    OneHotArgmax(token, vocabulary);
    OneHotArgmax(config.blankId, vocabulary);
    PathSnoc(before, frame);
    PathSnoc(before + [frame], OneHot(config.blankId, vocabulary));
    DecodeSnoc(path, token, config);
    DecodeSnoc(path + [token], config.blankId, config);
    assert Decode(path, config) + [token] + [] == Decode(path, config) + [token];
  }
}
