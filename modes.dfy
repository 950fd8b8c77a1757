/** The two ways the same backend stream is consumed: buffered by the HTTP
    handler (`Relay.Aggregate`) and printed live by the interactive loop
    (`Cli.Emitted`). They agree on well-formed streams whose only `done`
    frame is the last, and part ways when frames follow a `done` one. */
module Modes {
  import opened Text
  import opened Transport
  import opened Relay
  import opened Http
  import opened Cli

  /** The object `json.Decoder` yields for a line that `json.Unmarshal`
      decodes to `f`, and the decode error for a line it rejects. This reads
      both decoders the same way, which Go does not promise: `json.Unmarshal`
      into `OllamaResponse` also matches keys that differ only in case and
      rejects a `response` that is not a string, while the `map[string]any`
      decoder does neither. The comparisons below hold for lines on which the
      two agree (`DecodesAsUnmarshal`). */
  function ChunkOf(f: Frame): (c: Chunk)
    ensures c.Object? <==> f.Msg?
    ensures f.Msg? ==> Token(c.fields) == f.response
  {
    match f
    case Malformed => Undecodable
    case Msg(model, createdAt, response, done) =>
      Object(map["model" := Str(model), "created_at" := Str(createdAt),
                 "response" := Str(response), "done" := Bool(done)])
  }

  /** The frame `json.Unmarshal` makes of one received line. */
  function FrameOfLine(l: string, decode: string -> Frame): Frame {
    Unmarshal(decode, TrimSpace(l))
  }

  /** The chunks the live decoder yields for the given lines, line by line. */
  function ChunksOf(ls: seq<string>, decode: string -> Frame): (cs: seq<Chunk>)
    ensures |cs| == |ls|
    ensures forall i :: 0 <= i < |ls| ==> cs[i] == ChunkOf(FrameOfLine(ls[i], decode))
  {
    if ls == [] then [] else [ChunkOf(FrameOfLine(ls[0], decode))] + ChunksOf(ls[1..], decode)
  }

  /** A single, non-blank line that decodes to a message. */
  predicate Good(l: string, decode: string -> Frame) {
    '\n' !in l && TrimSpace(l) != "" && FrameOfLine(l, decode).Msg?
  }

  predicate WellFormed(ls: seq<string>, decode: string -> Frame) {
    forall i :: 0 <= i < |ls| ==> Good(ls[i], decode)
  }

  predicate IsDone(f: Frame) {
    f.Msg? && f.done
  }

  /** No frame but the last has `done` set. */
  predicate DoneOnlyLast(ls: seq<string>, decode: string -> Frame) {
    forall i :: 0 <= i < |ls| - 1 ==> !IsDone(FrameOfLine(ls[i], decode))
  }

  /** What the handler's loop does with a good line. */
  lemma GoodLineStep(l: string, decode: string -> Frame)
    requires Good(l, decode)
    ensures var f := FrameOfLine(l, decode);
      StepOf(Line(l + "\n"), decode) == if f.done then Finish(f.response) else Append(f.response)
  {
    TrimLinePayload(l);
  }

  lemma WellFormedTail(ls: seq<string>, decode: string -> Frame)
    requires ls != [] && WellFormed(ls, decode) && DoneOnlyLast(ls, decode)
    ensures WellFormed(ls[1..], decode) && DoneOnlyLast(ls[1..], decode)
  {
    assert forall i :: 0 <= i < |ls| - 1 ==> ls[1..][i] == ls[i + 1];
  }

  /** The handler's outcome past one good line. */
  lemma AggregatePastLine(l: string, rest: seq<ReadResult>, decode: string -> Frame)
    requires Good(l, decode)
    ensures var f := FrameOfLine(l, decode);
      Aggregate([Line(l + "\n")] + rest, decode)
        == if f.done then Relayed(f.response) else Prepend(f.response, Aggregate(rest, decode))
  {
    GoodLineStep(l, decode);
    assert ([Line(l + "\n")] + rest)[1..] == rest;
  }

  /** The live output past one decoded chunk. */
  lemma EmittedPastChunk(f: Frame, rest: seq<Chunk>)
    requires f.Msg?
    ensures Emitted([ChunkOf(f)] + rest) == f.response + Emitted(rest)
  {
    assert ([ChunkOf(f)] + rest)[1..] == rest;
  }

  /** The first of the lines, when it is good, adds its text in both modes. */
  lemma FirstLine(ls: seq<string>, decode: string -> Frame)
    requires ls != [] && Good(ls[0], decode)
    ensures var f := FrameOfLine(ls[0], decode);
      var rest := LineReads(ls[1..]) + [Eof([])];
      && Aggregate(LineReads(ls) + [Eof([])], decode)
           == (if f.done then Relayed(f.response) else Prepend(f.response, Aggregate(rest, decode)))
      && Emitted(ChunksOf(ls, decode)) == f.response + Emitted(ChunksOf(ls[1..], decode))
  {
    var tail := LineReads(ls[1..]) + [Eof([])];
    assert LineReads(ls) + [Eof([])] == [Line(ls[0] + "\n")] + tail;
    assert ChunksOf(ls, decode) == [ChunkOf(FrameOfLine(ls[0], decode))] + ChunksOf(ls[1..], decode);
    AggregatePastLine(ls[0], tail, decode);
    EmittedPastChunk(FrameOfLine(ls[0], decode), ChunksOf(ls[1..], decode));
  }

  lemma {:induction false} AggregateLines(ls: seq<string>, decode: string -> Frame)
    requires WellFormed(ls, decode) && DoneOnlyLast(ls, decode)
    ensures Aggregate(LineReads(ls) + [Eof([])], decode) == Relayed(Emitted(ChunksOf(ls, decode)))
    decreases |ls|
  {
    if ls == [] {
      assert LineReads(ls) + [Eof([])] == [Eof([])];
    } else {
      FirstLine(ls, decode);
      var f := FrameOfLine(ls[0], decode);
      if f.done {
        assert ls[1..] == [];
        assert f.response + "" == f.response;
      } else {
        WellFormedTail(ls, decode);
        AggregateLines(ls[1..], decode);
      }
    }
  }

  /** On a well-formed stream whose only `done` frame is the last one (the
      shape the backend sends), the handler replies with exactly the text the
      interactive loop prints, provided the live decoder reads each line as
      `json.Unmarshal` does. */
  lemma LiveMatchesBuffered(ls: seq<string>, decode: string -> Frame)
    requires WellFormed(ls, decode) && DoneOnlyLast(ls, decode)
    ensures Aggregate(Reads(Unlines(ls), false), decode) == Relayed(Emitted(ChunksOf(ls, decode)))
  {
    GoodReads(ls, decode);
    AggregateLines(ls, decode);
  }

  /** The live decoder yields, for the body made of the given lines, the
      chunks that `json.Unmarshal` of each line describes. */
  predicate DecodesAsUnmarshal(decodeStream: Body -> seq<Chunk>, ls: seq<string>, decode: string -> Frame) {
    DecodeStream(decodeStream, Body(Unlines(ls), false)) == ChunksOf(ls, decode)
  }

  /** A prompt the backend answers with a well-formed stream whose only
      `done` frame is the last: when the live decoder reads each line as
      `json.Unmarshal` does, the interactive loop shows exactly the text the
      HTTP handler replies with. */
  lemma CliShowsHandlerReply(c: Client, prompt: string, ls: seq<string>, decode: string -> Frame)
    requires Post(c.backend, Outbound(c.base, c.model, prompt)) == Opened(Body(Unlines(ls), false))
    requires DecodesAsUnmarshal(c.decodeStream, ls, decode)
    requires WellFormed(ls, decode) && DoneOnlyLast(ls, decode)
    ensures var reply := ReplyFor(Aggregate(Reads(Unlines(ls), false), decode));
      reply.Ok? && Shown(c, prompt) == "=> " + reply.response + "\n"
  {
    LiveMatchesBuffered(ls, decode);
  }

  /** Good lines are read back one by one, then a clean end of stream. */
  lemma GoodReads(ls: seq<string>, decode: string -> Frame)
    requires WellFormed(ls, decode)
    ensures Reads(Unlines(ls), false) == LineReads(ls) + [Eof([])]
  {
    ReadsUnlines(ls, [], false);
    assert Unlines(ls) + [] == Unlines(ls);
  }


  lemma ChunksOfConcat(a: seq<string>, b: seq<string>, decode: string -> Frame)
    ensures ChunksOf(a + b, decode) == ChunksOf(a, decode) + ChunksOf(b, decode)
  {
    var l := ChunksOf(a + b, decode);
    var r := ChunksOf(a, decode) + ChunksOf(b, decode);
    assert |l| == |r|;
    forall i | 0 <= i < |l|
      ensures l[i] == r[i]
    {
      if i >= |a| {
        assert (a + b)[i] == b[i - |a|];
      } else {
        assert (a + b)[i] == a[i];
      }
    }
  }

  lemma LineReadsConcat(a: seq<string>, b: seq<string>)
    ensures LineReads(a + b) == LineReads(a) + LineReads(b)
  {
    var l := LineReads(a + b);
    var r := LineReads(a) + LineReads(b);
    assert |l| == |r|;
    forall i | 0 <= i < |l|
      ensures l[i] == r[i]
    {
      if i >= |a| {
        assert (a + b)[i] == b[i - |a|];
      } else {
        assert (a + b)[i] == a[i];
      }
    }
  }

  /** Good lines without `done` never stop the handler's loop. */
  lemma GoodLinesPass(ls: seq<string>, decode: string -> Frame)
    requires forall i :: 0 <= i < |ls| ==> Good(ls[i], decode) && !IsDone(FrameOfLine(ls[i], decode))
    ensures PassesThrough(LineReads(ls), decode)
  {
    forall i | 0 <= i < |ls|
      ensures StepOf(LineReads(ls)[i], decode).Append?
    {
      GoodLineStep(ls[i], decode);
    }
  }

  lemma Layout(before: seq<string>, last: string, after: seq<string>)
    ensures LineReads(before + [last] + after) + [Eof([])]
         == LineReads(before) + [Line(last + "\n")] + (LineReads(after) + [Eof([])])
  {
    LineReadsConcat(before + [last], after);
    LineReadsConcat(before, [last]);
    assert LineReads([last]) == [Line(last + "\n")];
  }

  /** The handler's reply for lines that reach a `done` frame: the text up
      to and including it, whatever lines follow. */
  lemma ReplyStopsAtDone(before: seq<string>, last: string, after: seq<string>, decode: string -> Frame)
    requires forall i :: 0 <= i < |before| ==> Good(before[i], decode) && !IsDone(FrameOfLine(before[i], decode))
    requires Good(last, decode) && IsDone(FrameOfLine(last, decode))
    ensures Aggregate(LineReads(before + [last] + after) + [Eof([])], decode)
         == Aggregate(LineReads(before + [last]) + [Eof([])], decode)
  {
    var pre := LineReads(before);
    var r := Line(last + "\n");
    GoodLinesPass(before, decode);
    GoodLineStep(last, decode);
    Layout(before, last, after);
    Layout(before, last, []);
    assert before + [last] + [] == before + [last];
    assert LineReads([]) + [Eof([])] == [Eof([])];
    TextAtFinish(pre, r, LineReads(after) + [Eof([])], decode);
    TextAtFinish(pre, r, [Eof([])], decode);
  }

  /** The conditions on a whole stream, for its parts. */
  lemma SplitWellFormed(before: seq<string>, last: string, after: seq<string>, decode: string -> Frame)
    requires WellFormed(before + [last] + after, decode) && DoneOnlyLast(before + [last], decode)
    ensures WellFormed(before + [last], decode) && DoneOnlyLast(before + [last], decode)
    ensures WellFormed(after, decode) && Good(last, decode)
    ensures forall i :: 0 <= i < |before| ==> Good(before[i], decode) && !IsDone(FrameOfLine(before[i], decode))
  {
    var upto := before + [last];
    var ls := upto + after;
    assert forall i :: 0 <= i < |upto| ==> ls[i] == upto[i];
    assert forall i :: 0 <= i < |after| ==> ls[|upto| + i] == after[i];
    assert forall i :: 0 <= i < |before| ==> upto[i] == before[i];
    assert upto[|before|] == last;
  }

  /** Where the two modes part: after a `done` frame the handler has stopped
      reading, while the interactive loop goes on printing the tokens of every
      well-formed frame that follows it. */
  lemma LiveReadsPastDone(before: seq<string>, last: string, after: seq<string>, decode: string -> Frame)
    requires WellFormed(before + [last] + after, decode)
    requires DoneOnlyLast(before + [last], decode)
    requires IsDone(FrameOfLine(last, decode))
    ensures var ls := before + [last] + after;
      && Aggregate(Reads(Unlines(ls), false), decode) == Relayed(Emitted(ChunksOf(before + [last], decode)))
      && Emitted(ChunksOf(ls, decode)) == Emitted(ChunksOf(before + [last], decode)) + Emitted(ChunksOf(after, decode))
  {
    var upto := before + [last];
    var ls := upto + after;
    SplitWellFormed(before, last, after, decode);
    GoodReads(ls, decode);
    ReplyStopsAtDone(before, last, after, decode);
    AggregateLines(upto, decode);
    ChunksOfConcat(upto, after, decode);
    assert forall i :: 0 <= i < |upto| ==> ChunksOf(upto, decode)[i].Object?;
    EmittedConcat(ChunksOf(upto, decode), ChunksOf(after, decode));
  }
}
