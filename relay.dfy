/** The buffered aggregation loop of `generateHandler` (server/api.go:85-111;
    the same loop is main.go:53-79): read the backend's NDJSON body line by
    line, skip blank lines, decode each remaining line, append its `response`
    text, and stop after the first frame with `done` set, at end of stream, or
    at the first read or decode error. */
module Relay {
  import opened Text
  import opened Transport

  /** A decoded backend line (`OllamaResponse`), or a line `json.Unmarshal`
      rejects. JSON syntax itself is abstracted into the `decode` parameter. */
  datatype Frame = Msg(model: string, createdAt: string, response: string, done: bool) | Malformed

  /** How the loop ends: with the accumulated text, with a read error, or with
      a decode error. The errors carry no partial text: it is discarded. */
  datatype Outcome = Relayed(text: string) | ReadFailed | UnmarshalFailed

  /** `json.Unmarshal` of one trimmed line into an `OllamaResponse`. It only
      names that Go call: the decoding itself is the `decode` parameter. */
  function Unmarshal(decode: string -> Frame, line: string): Frame {
    decode(line)
  }

  /** What the loop does with one read result. */
  datatype Step =
    | Skip                   // a blank line: `continue`
    | Append(text: string)   // a frame without `done`: append and read on
    | Finish(text: string)   // a frame with `done`, or end of stream: append and stop
    | Abort(outcome: Outcome) // a read or decode error

  function StepOf(r: ReadResult, decode: string -> Frame): (step: Step)
    ensures step.Abort? ==> !step.outcome.Relayed?
  {
    match r
    case Eof(_) => Finish("")
    case Failed(_) => Abort(ReadFailed)
    case Line(bytes) =>
      var line := TrimSpace(bytes);
      if line == [] then Skip
      else match decode(line)
        case Malformed => Abort(UnmarshalFailed)
        case Msg(_, _, response, done) => if done then Finish(response) else Append(response)
  }

  /** Puts `prefix` in front of a successful outcome; errors stay errors. */
  function Prepend(prefix: string, o: Outcome): Outcome {
    match o
    case Relayed(t) => Relayed(prefix + t)
    case _ => o
  }

  /** The outcome of the loop over the given read results. Running out of
      results is treated like end of stream. */
  function Aggregate(rs: seq<ReadResult>, decode: string -> Frame): Outcome {
    if rs == [] then Relayed("")
    else match StepOf(rs[0], decode)
      case Skip => Aggregate(rs[1..], decode)
      case Append(t) => Prepend(t, Aggregate(rs[1..], decode))
      case Finish(t) => Relayed(t)
      case Abort(o) => o
  }

  /** How many read results the loop takes before it stops. */
  function Consumed(rs: seq<ReadResult>, decode: string -> Frame): (n: nat)
    ensures n <= |rs|
    ensures rs != [] ==> n > 0
  {
    if rs == [] then 0
    else match StepOf(rs[0], decode)
      case Skip => 1 + Consumed(rs[1..], decode)
      case Append(_) => 1 + Consumed(rs[1..], decode)
      case _ => 1
  }

  /** Ends with an end-of-stream or failure result, as every `Reads` does. */
  predicate Terminated(rs: seq<ReadResult>) {
    rs != [] && !rs[|rs| - 1].Line?
  }

  // ---------------------------------------------------------------------
  // An independent description of the outcome: decode every non-blank line,
  // cut the frames after the first `done` or malformed one, concatenate.
  // ---------------------------------------------------------------------

  /** The decoded frames of the non-blank lines before the first end or failure. */
  function Frames(rs: seq<ReadResult>, decode: string -> Frame): seq<Frame> {
    if rs == [] || !rs[0].Line? then []
    else
      var line := TrimSpace(rs[0].bytes);
      if line == [] then Frames(rs[1..], decode)
      else [decode(line)] + Frames(rs[1..], decode)
  }

  predicate Stops(f: Frame) {
    f.Malformed? || f.done
  }

  /** The frames up to and including the first malformed or `done` one. */
  function Cut(fs: seq<Frame>): (c: seq<Frame>)
    ensures |c| <= |fs| && c == fs[..|c|]
    ensures forall i :: 0 <= i < |c| - 1 ==> !Stops(c[i])
    ensures c != fs ==> c != [] && Stops(c[|c| - 1])
  {
    if fs == [] then []
    else if Stops(fs[0]) then [fs[0]]
    else [fs[0]] + Cut(fs[1..])
  }

  /** The `response` texts of the frames, in order. */
  function Texts(fs: seq<Frame>): string {
    if fs == [] then ""
    else (if fs[0].Msg? then fs[0].response else "") + Texts(fs[1..])
  }

  /** True when the first result that is not a line is a read failure. */
  predicate EndsInFailure(rs: seq<ReadResult>) {
    rs != [] && (rs[0].Failed? || (rs[0].Line? && EndsInFailure(rs[1..])))
  }

  /** What the loop computes, stated without the loop: a decode error when the
      cut frames end with a malformed one; otherwise the concatenated `response`
      texts of the cut frames, unless no `done` frame came and the stream ended
      in a read failure. */
  function Expected(rs: seq<ReadResult>, decode: string -> Frame): Outcome {
    var c := Cut(Frames(rs, decode));
    if c != [] && c[|c| - 1].Malformed? then UnmarshalFailed
    else if c != [] && c[|c| - 1].done then Relayed(Texts(c))
    else if EndsInFailure(rs) then ReadFailed
    else Relayed(Texts(c))
  }

  lemma CutPastFrame(f: Frame, fs: seq<Frame>)
    requires !Stops(f)
    ensures Cut([f] + fs) == [f] + Cut(fs)
  {
    assert ([f] + fs)[1..] == fs;
  }

  lemma TextsPastFrame(f: Frame, c: seq<Frame>)
    ensures Texts([f] + c) == (if f.Msg? then f.response else "") + Texts(c)
  {
    assert ([f] + c)[1..] == c;
  }

  /** The frame a non-blank line decodes to. */
  function LineFrame(r: ReadResult, decode: string -> Frame): Frame
    requires r.Line? && TrimSpace(r.bytes) != []
  {
    decode(TrimSpace(r.bytes))
  }

  lemma ExpectedPastBlank(rs: seq<ReadResult>, decode: string -> Frame)
    requires rs != [] && rs[0].Line? && TrimSpace(rs[0].bytes) == []
    ensures Aggregate(rs, decode) == Aggregate(rs[1..], decode)
    ensures Expected(rs, decode) == Expected(rs[1..], decode)
  {
    assert Frames(rs, decode) == Frames(rs[1..], decode);
    assert EndsInFailure(rs) == EndsInFailure(rs[1..]);
  }

  lemma ExpectedAtStop(rs: seq<ReadResult>, decode: string -> Frame)
    requires rs != [] && rs[0].Line? && TrimSpace(rs[0].bytes) != []
    requires Stops(LineFrame(rs[0], decode))
    ensures Aggregate(rs, decode) == Expected(rs, decode)
  {
    var f := LineFrame(rs[0], decode);
    assert Frames(rs, decode) == [f] + Frames(rs[1..], decode);
    assert Cut([f] + Frames(rs[1..], decode)) == [f];
    assert f.Msg? ==> Texts([f]) == f.response by {
      TextsPastFrame(f, []);
      assert [f] + [] == [f];
    }
  }

  lemma AggregatePastFrame(rs: seq<ReadResult>, decode: string -> Frame)
    requires rs != [] && rs[0].Line? && TrimSpace(rs[0].bytes) != []
    requires !Stops(LineFrame(rs[0], decode))
    ensures Aggregate(rs, decode) == Prepend(LineFrame(rs[0], decode).response, Aggregate(rs[1..], decode))
  {
  }

  lemma ExpectedPastFrame(rs: seq<ReadResult>, decode: string -> Frame)
    requires rs != [] && rs[0].Line? && TrimSpace(rs[0].bytes) != []
    requires !Stops(LineFrame(rs[0], decode))
    ensures Expected(rs, decode) == Prepend(LineFrame(rs[0], decode).response, Expected(rs[1..], decode))
  {
    var f := LineFrame(rs[0], decode);
    var fs := Frames(rs[1..], decode);
    var c := Cut(fs);
    assert Frames(rs, decode) == [f] + fs;
    assert EndsInFailure(rs) == EndsInFailure(rs[1..]);
    CutPastFrame(f, fs);
    TextsPastFrame(f, c);
    if c != [] {
      assert ([f] + c)[|c|] == c[|c| - 1];
    }
  }

  /** The loop computes exactly `Expected`: on success its text is the ordered
      concatenation of the decoded `response` fields up to and including the
      first `done` frame (appended before stopping); partial text never
      escapes an error. */
  lemma {:induction false} AggregateMatchesExpected(rs: seq<ReadResult>, decode: string -> Frame)
    ensures Aggregate(rs, decode) == Expected(rs, decode)
    decreases |rs|
  {
    if rs != [] && rs[0].Line? {
      if TrimSpace(rs[0].bytes) == [] {
        ExpectedPastBlank(rs, decode);
        AggregateMatchesExpected(rs[1..], decode);
      } else if Stops(LineFrame(rs[0], decode)) {
        ExpectedAtStop(rs, decode);
      } else {
        AggregatePastFrame(rs, decode);
        ExpectedPastFrame(rs, decode);
        AggregateMatchesExpected(rs[1..], decode);
      }
    }
  }

  /** A blank line (white space only, as `bytes.TrimSpace` sees it) anywhere
      in the body changes nothing. */
  lemma {:induction false} BlankLinesSkipped(before: seq<ReadResult>, blank: string, after: seq<ReadResult>, decode: string -> Frame)
    requires AllSpace(blank)
    ensures Aggregate(before + [Line(blank)] + after, decode) == Aggregate(before + after, decode)
    ensures Consumed(before + after, decode) <= Consumed(before + [Line(blank)] + after, decode)
    ensures Consumed(before + [Line(blank)] + after, decode) <= Consumed(before + after, decode) + 1
    decreases |before|
  {
    var rs := before + [Line(blank)] + after;
    if before == [] {
      assert rs[1..] == after;
      assert before + after == after;
    } else {
      assert rs[1..] == before[1..] + [Line(blank)] + after;
      assert (before + after)[1..] == before[1..] + after;
      assert rs[0] == (before + after)[0];
      BlankLinesSkipped(before[1..], blank, after, decode);
    }
  }

  /** Nothing after the point where the loop stops is ever looked at: any
      other continuation of the results it consumed gives the same outcome and
      the same number of reads. In particular a malformed line after the first
      `done` frame cannot cause an error. */
  lemma {:induction false} UnreadIrrelevant(rs: seq<ReadResult>, other: seq<ReadResult>, decode: string -> Frame)
    requires Terminated(rs)
    requires Consumed(rs, decode) <= |other|
    requires other[..Consumed(rs, decode)] == rs[..Consumed(rs, decode)]
    ensures Aggregate(other, decode) == Aggregate(rs, decode)
    ensures Consumed(other, decode) == Consumed(rs, decode)
    decreases |rs|
  {
    var n := Consumed(rs, decode);
    assert other[0] == other[..n][0];
    assert rs[0] == rs[..n][0];
    var step := StepOf(rs[0], decode);
    if step.Skip? || step.Append? {
      assert other[1..][..n - 1] == other[..n][1..];
      assert rs[1..][..n - 1] == rs[..n][1..];
      UnreadIrrelevant(rs[1..], other[1..], decode);
    }
  }

  /** The texts the given results append, in order. */
  function Appended(rs: seq<ReadResult>, decode: string -> Frame): string {
    if rs == [] then ""
    else
      var step := StepOf(rs[0], decode);
      (if step.Append? then step.text else "") + Appended(rs[1..], decode)
  }

  /** Results the loop reads past without stopping. */
  predicate PassesThrough(rs: seq<ReadResult>, decode: string -> Frame) {
    forall i :: 0 <= i < |rs| ==> StepOf(rs[i], decode).Skip? || StepOf(rs[i], decode).Append?
  }

  lemma PassesThroughTail(rs: seq<ReadResult>, decode: string -> Frame)
    requires rs != [] && PassesThrough(rs, decode)
    ensures PassesThrough(rs[1..], decode)
    ensures StepOf(rs[0], decode).Skip? || StepOf(rs[0], decode).Append?
  {
    assert forall i :: 0 <= i < |rs| - 1 ==> rs[1..][i] == rs[i + 1];
  }

  /** The first `done` frame, malformed line, read failure or end of stream
      is the last result read, whatever follows it. */
  lemma {:induction false} ReadsStopAtFinish(before: seq<ReadResult>, r: ReadResult, after: seq<ReadResult>, decode: string -> Frame)
    requires PassesThrough(before, decode)
    requires StepOf(r, decode).Finish? || StepOf(r, decode).Abort?
    ensures Consumed(before + [r] + after, decode) == |before| + 1
    decreases |before|
  {
    var rs := before + [r] + after;
    if before == [] {
      assert rs[0] == r;
    } else {
      assert rs[0] == before[0];
      assert rs[1..] == before[1..] + [r] + after;
      PassesThroughTail(before, decode);
      ReadsStopAtFinish(before[1..], r, after, decode);
    }
  }

  /** A malformed line or a read failure after lines that only append ends
      the loop with that error alone: the text accumulated so far is dropped. */
  lemma {:induction false} AbortDiscardsText(before: seq<ReadResult>, r: ReadResult, after: seq<ReadResult>, decode: string -> Frame)
    requires PassesThrough(before, decode)
    requires StepOf(r, decode).Abort?
    ensures Aggregate(before + [r] + after, decode) == StepOf(r, decode).outcome
    ensures !Aggregate(before + [r] + after, decode).Relayed?
    decreases |before|
  {
    var rs := before + [r] + after;
    if before == [] {
      assert rs[0] == r;
    } else {
      assert rs[0] == before[0];
      assert rs[1..] == before[1..] + [r] + after;
      PassesThroughTail(before, decode);
      AbortDiscardsText(before[1..], r, after, decode);
    }
  }

  /** The text of the first `done` frame is appended before stopping, after
      the texts of every frame before it. */
  lemma {:induction false} TextAtFinish(before: seq<ReadResult>, r: ReadResult, after: seq<ReadResult>, decode: string -> Frame)
    requires PassesThrough(before, decode)
    requires StepOf(r, decode).Finish?
    ensures Aggregate(before + [r] + after, decode) == Relayed(Appended(before, decode) + StepOf(r, decode).text)
    decreases |before|
  {
    var rs := before + [r] + after;
    if before == [] {
      assert rs[0] == r;
    } else {
      assert rs[0] == before[0];
      assert rs[1..] == before[1..] + [r] + after;
      PassesThroughTail(before, decode);
      TextAtFinish(before[1..], r, after, decode);
      var step := StepOf(before[0], decode);
      var t := StepOf(r, decode).text;
      if step.Append? {
        assert step.text + (Appended(before[1..], decode) + t) == (step.text + Appended(before[1..], decode)) + t;
      } else {
        assert "" + Appended(before[1..], decode) == Appended(before[1..], decode);
      }
    }
  }

  lemma {:induction false} TrimLeftPastNewline(l: string)
    ensures TrimLeft(l + "\n") == if TrimLeft(l) == [] then [] else TrimLeft(l) + "\n"
    decreases |l|
  {
    if l == [] {
      assert ("\n")[1..] == [];
    } else if IsSpace(l[0]) {
      assert (l + "\n")[1..] == l[1..] + "\n";
      TrimLeftPastNewline(l[1..]);
    }
  }

  /** The line terminator is white space, so trimming ignores it. */
  lemma TrimLinePayload(l: string)
    ensures TrimSpace(l + "\n") == TrimSpace(l)
  {
    TrimLeftPastNewline(l);
    var t := TrimLeft(l);
    if t != [] {
      assert (t + "\n")[..|t|] == t;
    }
  }

  /** An empty body is answered with empty text when the connection closes
      cleanly, and with the read error when it breaks. */
  lemma EmptyBody(decode: string -> Frame)
    ensures Aggregate(Reads("", false), decode) == Relayed("")
    ensures Aggregate(Reads("", true), decode) == ReadFailed
  {
    assert Reads("", false) == [Eof("")];
    assert Reads("", true) == [Failed("")];
  }

  /** A final unterminated segment is never processed: whatever follows the
      last `'\n'` before a clean end of stream does not change the outcome. */
  lemma TrailingSegmentDropped(ls: seq<string>, tail: string, decode: string -> Frame)
    requires forall i :: 0 <= i < |ls| ==> '\n' !in ls[i]
    requires '\n' !in tail
    ensures Aggregate(Reads(Unlines(ls) + tail, false), decode) == Aggregate(Reads(Unlines(ls), false), decode)
  {
    ReadsUnlines(ls, tail, false);
    ReadsUnlines(ls, [], false);
    assert Unlines(ls) + [] == Unlines(ls);
    FinalIgnored(LineReads(ls), tail, [], decode);
  }

  lemma {:induction false} FinalIgnored(before: seq<ReadResult>, p: string, q: string, decode: string -> Frame)
    ensures Aggregate(before + [Eof(p)], decode) == Aggregate(before + [Eof(q)], decode)
    decreases |before|
  {
    if before != [] {
      assert (before + [Eof(p)])[1..] == before[1..] + [Eof(p)];
      assert (before + [Eof(q)])[1..] == before[1..] + [Eof(q)];
      FinalIgnored(before[1..], p, q, decode);
    }
  }

  /** One read result's effect on the rest of the loop. */
  lemma AggregateAt(rs: seq<ReadResult>, k: nat, decode: string -> Frame)
    requires k < |rs|
    ensures var step := StepOf(rs[k], decode);
      && (step.Skip? ==> Aggregate(rs[k..], decode) == Aggregate(rs[k + 1..], decode))
      && (step.Append? ==> Aggregate(rs[k..], decode) == Prepend(step.text, Aggregate(rs[k + 1..], decode)))
      && (step.Finish? ==> Aggregate(rs[k..], decode) == Relayed(step.text))
      && (step.Abort? ==> Aggregate(rs[k..], decode) == step.outcome)
      && (step.Skip? || step.Append? ==> Consumed(rs[k..], decode) == 1 + Consumed(rs[k + 1..], decode))
      && (step.Finish? || step.Abort? ==> Consumed(rs[k..], decode) == 1)
  {
    assert rs[k..][0] == rs[k];
    assert rs[k..][1..] == rs[k + 1..];
  }

  /** One read result's effect on the loop, from the position `k` it has
      reached with `full` accumulated. */
  lemma Advance(rs: seq<ReadResult>, k: nat, full: string, decode: string -> Frame)
    requires k < |rs|
    requires Aggregate(rs, decode) == Prepend(full, Aggregate(rs[k..], decode))
    requires Consumed(rs, decode) == k + Consumed(rs[k..], decode)
    ensures var step := StepOf(rs[k], decode);
      && (step.Skip? ==> Aggregate(rs, decode) == Prepend(full, Aggregate(rs[k + 1..], decode)))
      && (step.Append? ==> Aggregate(rs, decode) == Prepend(full + step.text, Aggregate(rs[k + 1..], decode)))
      && (step.Finish? ==> Aggregate(rs, decode) == Relayed(full + step.text))
      && (step.Abort? ==> Aggregate(rs, decode) == step.outcome)
      && (step.Skip? || step.Append? ==> Consumed(rs, decode) == k + 1 + Consumed(rs[k + 1..], decode))
      && (step.Finish? || step.Abort? ==> Consumed(rs, decode) == k + 1)
  {
    AggregateAt(rs, k, decode);
    StepOutcome(full, StepOf(rs[k], decode), Aggregate(rs[k..], decode), Aggregate(rs[k + 1..], decode));
  }

  /** `Advance` on outcome values: `here` is the outcome from the current
      result on, `next` the outcome from the one after it. */
  lemma StepOutcome(full: string, step: Step, here: Outcome, next: Outcome)
    requires step.Skip? ==> here == next
    requires step.Append? ==> here == Prepend(step.text, next)
    requires step.Finish? ==> here == Relayed(step.text)
    requires step.Abort? ==> here == step.outcome && !step.outcome.Relayed?
    ensures step.Skip? ==> Prepend(full, here) == Prepend(full, next)
    ensures step.Append? ==> Prepend(full, here) == Prepend(full + step.text, next)
    ensures step.Finish? ==> Prepend(full, here) == Relayed(full + step.text)
    ensures step.Abort? ==> Prepend(full, here) == step.outcome
  {
    if step.Append? {
      PrependTwice(full, step.text, next);
    }
  }

  /** Reading from the position the loop has reached yields the next result. */
  lemma ReadsAt(rest: string, fails: bool, rs: seq<ReadResult>, k: nat)
    requires k < |rs| && Reads(rest, fails) == rs[k..]
    ensures NextRead(rest, fails).0 == rs[k]
    ensures rs[k].Line? ==> k + 1 < |rs| && Reads(NextRead(rest, fails).1, fails) == rs[k + 1..]
    ensures !rs[k].Line? ==> k + 1 == |rs|
  {
    assert rs[k..][0] == rs[k];
    assert rs[k..][1..] == rs[k + 1..];
  }

  lemma LogOneMore(log: seq<ReadResult>, rs: seq<ReadResult>, k: nat)
    requires k < |rs|
    ensures log + rs[..k] + [rs[k]] == log + rs[..k + 1]
  {
    assert rs[..k + 1] == rs[..k] + [rs[k]];
  }

  lemma PrependTwice(a: string, b: string, o: Outcome)
    ensures Prepend(a, Prepend(b, o)) == Prepend(a + b, o)
  {
    if o.Relayed? {
      assert a + (b + o.text) == (a + b) + o.text;
    }
  }

  /** What a reader holds after `n` of the reads `rs`: the rest of them,
      unless all were taken. */
  predicate LeftAt(rs: seq<ReadResult>, n: nat, rest: string, fails: bool) {
    n < |rs| ==> Reads(rest, fails) == rs[n..]
  }

  /** The loop of server/api.go:85-111 over a `bufio.Reader`, with the
      `strings.Builder` as a local accumulator. It returns what `Aggregate`
      specifies and performs exactly the reads `Consumed` counts, so no line
      after the first `done` frame is read. */
  method RelayStream(reader: Reader, decode: string -> Frame) returns (outcome: Outcome)
    modifies reader
    ensures var rs := Reads(old(reader.rest), reader.fails);
      outcome == Aggregate(rs, decode) &&
      reader.history == old(reader.history) + rs[..Consumed(rs, decode)]
    ensures var rs := Reads(old(reader.rest), reader.fails);
      LeftAt(rs, Consumed(rs, decode), reader.rest, reader.fails)
  {
    ghost var rs := Reads(reader.rest, reader.fails);
    ghost var k := 0;
    var full := "";
    while true
      invariant 0 <= k < |rs|
      invariant Reads(reader.rest, reader.fails) == rs[k..]
      invariant reader.history == old(reader.history) + rs[..k]
      invariant Aggregate(rs, decode) == Prepend(full, Aggregate(rs[k..], decode))
      invariant Consumed(rs, decode) == k + Consumed(rs[k..], decode)
      decreases |reader.rest|
    {
      ghost var unread := reader.rest;
      var r := reader.ReadBytes();
      ReadsAt(unread, reader.fails, rs, k);
      LogOneMore(old(reader.history), rs, k);
      Advance(rs, k, full, decode);
      k := k + 1;
      if r.Eof? {
        assert full + "" == full;
        outcome := Relayed(full);
        return;
      } else if r.Failed? {
        outcome := ReadFailed;
        return;
      }
      var line := TrimSpace(r.bytes);
      if line == [] {
        continue;
      }
      var msg := Unmarshal(decode, line);
      if msg.Malformed? {
        assert LeftAt(rs, k, reader.rest, reader.fails);
        outcome := UnmarshalFailed;
        return;
      }
      full := full + msg.response;
      if msg.done {
        assert LeftAt(rs, k, reader.rest, reader.fails);
        outcome := Relayed(full);
        return;
      }
    }
  }
}
