/** `RunCLI` of server/cli.go: the interactive loop that reads prompts,
    posts each to the backend and prints the streamed tokens live. Standard
    output is modelled as the text appended to it; standard input as the
    strings `ReadString('\n')` returns, one per prompt. */
module Cli {
  import opened Text
  import opened Transport
  import opened Http

  /** A JSON value as `map[string]any` holds it, as far as the loop looks:
      a string, a boolean, or anything else. */
  datatype Json = Str(s: string) | Bool(b: bool) | Other

  /** One `decoder.Decode(&chunk)`: a decoded object, or an error (malformed
      input, a value that is not an object, a read failure, or no value left). */
  datatype Chunk = Object(fields: map<string, Json>) | Undecodable

  /** The text printed for one decoded chunk: its `"response"` value when that
      is a string, and nothing when it is missing or of another type. */
  function Token(fields: map<string, Json>): string {
    if "response" in fields && fields["response"].Str? then fields["response"].s else ""
  }

  /** What the live loop prints for one response stream: the tokens of the
      chunks in order, up to the first decode error. `done` is not looked at. */
  function Emitted(chunks: seq<Chunk>): string {
    if chunks == [] || chunks[0].Undecodable? then ""
    else Token(chunks[0].fields) + Emitted(chunks[1..])
  }

  /** The values a decoder still holds after the live loop: those after the
      first decode error, or none when the stream had no error. */
  function Remaining(chunks: seq<Chunk>): seq<Chunk> {
    if chunks == [] then []
    else if chunks[0].Undecodable? then chunks[1..]
    else Remaining(chunks[1..])
  }

  /** The chunks `json.Decoder` yields from a response body. It only names
      that Go call: JSON syntax is abstracted into the `decodeStream`
      parameter. */
  function DecodeStream(decodeStream: Body -> seq<Chunk>, body: Body): seq<Chunk> {
    decodeStream(body)
  }

  /** A `json.Decoder` over one response body. */
  class Decoder {
    /** The values not yet decoded. */
    var pending: seq<Chunk>

    constructor (chunks: seq<Chunk>)
      ensures pending == chunks
    {
      pending := chunks;
    }

    /** `decoder.More()`: whether another value follows. */
    predicate More()
      reads this
    {
      pending != []
    }

    /** `decoder.Decode(&chunk)`: the next value, or an error when none is left. */
    method Decode() returns (c: Chunk)
      modifies this
      ensures old(pending) == [] ==> c == Undecodable && pending == []
      ensures old(pending) != [] ==> c == old(pending)[0] && pending == old(pending)[1..]
    {
      if pending == [] {
        c := Undecodable;
      } else {
        c := pending[0];
        pending := pending[1..];
      }
    }
  }

  /** The inner loop (server/cli.go:52-61): decode while more values follow,
      stop silently at the first decode error, print string tokens only. */
  method StreamTokens(decoder: Decoder) returns (printed: string)
    modifies decoder
    ensures printed == Emitted(old(decoder.pending))
    ensures decoder.pending == Remaining(old(decoder.pending))
  {
    printed := "";
    while decoder.More()
      invariant Emitted(old(decoder.pending)) == printed + Emitted(decoder.pending)
      invariant Remaining(old(decoder.pending)) == Remaining(decoder.pending)
      decreases |decoder.pending|
    {
      var chunk := decoder.Decode();
      if chunk.Undecodable? {
        assert printed + "" == printed;
        return;
      }
      printed := printed + Token(chunk.fields);
    }
    assert printed + "" == printed;
  }

  /** Decoding continues across chunk boundaries: the text printed for two
      streams in a row, the first without decode errors, is the two texts in a
      row. In particular a chunk with `done` set does not stop the stream. */
  lemma {:induction false} EmittedConcat(first: seq<Chunk>, second: seq<Chunk>)
    requires forall i :: 0 <= i < |first| ==> first[i].Object?
    ensures Emitted(first + second) == Emitted(first) + Emitted(second)
    decreases |first|
  {
    if first != [] {
      assert (first + second)[1..] == first[1..] + second;
      EmittedConcat(first[1..], second);
    } else {
      assert first + second == second;
    }
  }

  /** A decode error ends the stream: nothing after it is printed. */
  lemma DecodeErrorEndsStream(before: seq<Chunk>, after: seq<Chunk>)
    requires forall i :: 0 <= i < |before| ==> before[i].Object?
    ensures Emitted(before + [Undecodable] + after) == Emitted(before)
  {
    assert before + [Undecodable] + after == before + ([Undecodable] + after);
    EmittedConcat(before, [Undecodable] + after);
  }

  /** Tokens once printed stay printed: what is printed for a stream begins
      with what is printed for any prefix of it. */
  lemma {:induction false} PrintedTokensRemain(before: seq<Chunk>, after: seq<Chunk>)
    ensures |Emitted(before)| <= |Emitted(before + after)|
    ensures Emitted(before + after)[..|Emitted(before)|] == Emitted(before)
    decreases |before|
  {
    if before != [] {
      assert (before + after)[0] == before[0];
      if before[0].Object? {
        assert (before + after)[1..] == before[1..] + after;
        PrintedTokensRemain(before[1..], after);
        var t := Token(before[0].fields);
        var whole := Emitted(before[1..] + after);
        var part := Emitted(before[1..]);
        assert (t + whole)[..|t + part|] == t + whole[..|part|];
      }
    }
  }

  /** A chunk whose `"response"` is missing or not a string prints nothing,
      and does not interrupt the stream. */
  lemma NonStringTokenSilent(before: seq<Chunk>, fields: map<string, Json>, after: seq<Chunk>)
    requires forall i :: 0 <= i < |before| ==> before[i].Object?
    requires !("response" in fields && fields["response"].Str?)
    ensures Emitted(before + [Object(fields)] + after) == Emitted(before + after)
  {
    assert before + [Object(fields)] + after == before + ([Object(fields)] + after);
    EmittedConcat(before, [Object(fields)] + after);
    EmittedConcat(before, after);
    assert ([Object(fields)] + after)[1..] == after;
    assert "" + Emitted(after) == Emitted(after);
  }

  // -----------------------------------------------------------------------
  // The session
  // -----------------------------------------------------------------------

  /** What a session is run against: the backend base URL (`OLLAMA_URL`), the
      resolved model, the backend itself, and how a response body decodes. */
  datatype Client = Client(base: string, model: string,
                           backend: GenerateRequest -> Connection,
                           decodeStream: Body -> seq<Chunk>)

  /** The client a session builds from the environment (server/cli.go:14-18). */
  function ClientFor(env: Env, backend: GenerateRequest -> Connection, decodeStream: Body -> seq<Chunk>): (c: Client)
    ensures c.base == env.ollamaUrl && c.model == ResolveModel(env.model)
  {
    Client(env.ollamaUrl, ResolveModel(env.model), backend, decodeStream)
  }

  /** Everything a session shows and does: the text written to standard
      output, the generate requests posted in order, and whether it ended on
      an exit command. */
  datatype Transcript = Transcript(stdout: string, sent: seq<GenerateRequest>, exited: bool)

  /** Output and requests of one step, followed by the rest of the session. */
  function Then(stdout: string, sent: seq<GenerateRequest>, t: Transcript): Transcript {
    Transcript(stdout + t.stdout, sent + t.sent, t.exited)
  }

  /** The two commands that end the session (case-sensitive, after trimming). */
  predicate IsExitCommand(prompt: string) {
    prompt == "exit" || prompt == "quit"
  }

  function Banner(model: string): string {
    "Running CLI against model: " + model + " (type 'exit' to quit)\n\n"
  }

  /** What a prompt that reached the backend prints after `"Prompt: "`: the
      connection error, or `"=> "`, the live tokens and a newline. */
  function Shown(c: Client, prompt: string): string {
    match Post(c.backend, Outbound(c.base, c.model, prompt))
    case Refused(err) => "Error connecting to Ollama: " + err + "\n"
    case Opened(body) => "=> " + Emitted(DecodeStream(c.decodeStream, body)) + "\n"
  }

  /** One pass of the outer loop (server/cli.go:24-62) for one input line,
      followed by `next`, the rest of the session. A blank line only
      re-prompts; an exit command prints `"Exiting..."` and ends the session
      there; anything else is posted, trimmed, and its reply shown, and the
      loop goes on even when the connection failed. */
  function Turn(c: Client, line: string, next: Transcript): (t: Transcript)
    ensures t.exited <==> IsExitCommand(TrimSpace(line)) || next.exited
  {
    var prompt := TrimSpace(line);
    if prompt == "" then Then("Prompt: ", [], next)
    else if IsExitCommand(prompt) then Transcript("Prompt: Exiting...\n", [], true)
    else Then("Prompt: " + Shown(c, prompt), [Outbound(c.base, c.model, prompt)], next)
  }

  /** The outer loop over the given input lines. */
  function Loop(c: Client, inputs: seq<string>): Transcript
    decreases |inputs|
  {
    if inputs == [] then Transcript("", [], false)
    else Turn(c, inputs[0], Loop(c, inputs[1..]))
  }

  /** A whole session: the banner naming the model, then the loop. */
  function Session(env: Env, inputs: seq<string>,
                   backend: GenerateRequest -> Connection, decodeStream: Body -> seq<Chunk>): Transcript
  {
    var c := ClientFor(env, backend, decodeStream);
    Then(Banner(c.model), [], Loop(c, inputs))
  }

  lemma ThenThen(a: string, s: seq<GenerateRequest>, b: string, s2: seq<GenerateRequest>, t: Transcript)
    ensures Then(a, s, Then(b, s2, t)) == Then(a + b, s + s2, t)
  {
    assert a + (b + t.stdout) == (a + b) + t.stdout;
    assert s + (s2 + t.sent) == (s + s2) + t.sent;
  }

  lemma LoopAt(c: Client, inputs: seq<string>, i: nat)
    requires i < |inputs|
    ensures Loop(c, inputs[i..]) == Turn(c, inputs[i], Loop(c, inputs[i + 1..]))
  {
    assert inputs[i..][0] == inputs[i];
    assert inputs[i..][1..] == inputs[i + 1..];
  }

  /** One prompt sent to the backend (server/cli.go:36-62): post it, then
      print the connection error, or stream the reply's tokens. */
  method Ask(c: Client, prompt: string) returns (shown: string)
    ensures shown == Shown(c, prompt)
  {
    var conn := Post(c.backend, Outbound(c.base, c.model, prompt));
    if conn.Refused? {
      shown := "Error connecting to Ollama: " + conn.err + "\n";
    } else {
      var decoder := new Decoder(DecodeStream(c.decodeStream, conn.body));
      var printed := StreamTokens(decoder);
      shown := "=> " + printed + "\n";
    }
  }

  /** `RunCLI` (server/cli.go:13-64) over the given input lines: prints the
      banner, then handles each line as `Turn` specifies. Once the input is
      exhausted the source goes on re-prompting forever (see
      `EndOfInputRePrompts`); the model stops there. */
  method RunCli(env: Env, inputs: seq<string>,
                backend: GenerateRequest -> Connection, decodeStream: Body -> seq<Chunk>)
    returns (t: Transcript)
    ensures t == Session(env, inputs, backend, decodeStream)
  {
    var c := ClientFor(env, backend, decodeStream);
    var stdout := Banner(c.model);
    var sent: seq<GenerateRequest> := [];
    var i := 0;
    assert inputs[0..] == inputs;
    while i < |inputs|
      invariant 0 <= i <= |inputs|
      invariant Session(env, inputs, backend, decodeStream) == Then(stdout, sent, Loop(c, inputs[i..]))
    {
      LoopAt(c, inputs, i);
      var prompt := TrimSpace(inputs[i]);
      i := i + 1;
      if prompt == "" {
        ThenThen(stdout, sent, "Prompt: ", [], Loop(c, inputs[i..]));
        stdout := stdout + "Prompt: ";
        assert sent + [] == sent;
      } else if prompt == "exit" || prompt == "quit" {
        stdout := stdout + "Prompt: Exiting...\n";
        assert stdout + "" == stdout && sent + [] == sent;
        return Transcript(stdout, sent, true);
      } else {
        var shown := Ask(c, prompt);
        var req := Outbound(c.base, c.model, prompt);
        ThenThen(stdout, sent, "Prompt: " + shown, [req], Loop(c, inputs[i..]));
        stdout := stdout + ("Prompt: " + shown);
        sent := sent + [req];
      }
    }
    assert stdout + "" == stdout && sent + [] == sent;
    t := Transcript(stdout, sent, false);
  }

  // -----------------------------------------------------------------------
  // Properties of the session
  // -----------------------------------------------------------------------

  /** The session ends on its own exactly when some input line, trimmed, is
      `"exit"` or `"quit"`; blank lines, connection failures and broken
      streams never end it. */
  lemma {:induction false} ExitedIffExitCommand(c: Client, inputs: seq<string>)
    ensures Loop(c, inputs).exited <==> exists k :: 0 <= k < |inputs| && IsExitCommand(TrimSpace(inputs[k]))
    decreases |inputs|
  {
    if inputs != [] {
      ExitedIffExitCommand(c, inputs[1..]);
      if exists k :: 0 <= k < |inputs| && IsExitCommand(TrimSpace(inputs[k])) {
        var k :| 0 <= k < |inputs| && IsExitCommand(TrimSpace(inputs[k]));
        if k > 0 {
          assert inputs[1..][k - 1] == inputs[k];
        }
      } else {
        assert forall k :: 0 <= k < |inputs| - 1 ==> inputs[1..][k] == inputs[k + 1];
      }
    }
  }

  /** Nothing typed after an exit command is read, posted or shown. */
  lemma {:induction false} InputsAfterExitIgnored(c: Client, before: seq<string>, command: string, after: seq<string>)
    requires IsExitCommand(TrimSpace(command))
    ensures Loop(c, before + [command] + after) == Loop(c, before + [command])
    decreases |before|
  {
    var whole := before + [command] + after;
    var cut := before + [command];
    if before == [] {
      assert whole[0] == command && cut[0] == command;
    } else {
      assert whole[0] == before[0] && cut[0] == before[0];
      assert whole[1..] == before[1..] + [command] + after;
      assert cut[1..] == before[1..] + [command];
      InputsAfterExitIgnored(c, before[1..], command, after);
    }
  }

  /** The prompts a session posts, in order: the trimmed input lines that are
      neither blank nor an exit command, up to the first exit command. */
  function Prompts(inputs: seq<string>): (ps: seq<string>)
    ensures forall i :: 0 <= i < |ps| ==> ps[i] != "" && Trimmed(ps[i]) && !IsExitCommand(ps[i])
  {
    if inputs == [] then []
    else
      var prompt := TrimSpace(inputs[0]);
      if prompt == "" then Prompts(inputs[1..])
      else if IsExitCommand(prompt) then []
      else [prompt] + Prompts(inputs[1..])
  }

  function Requests(base: string, model: string, prompts: seq<string>): (reqs: seq<GenerateRequest>)
    ensures |reqs| == |prompts|
    ensures forall i :: 0 <= i < |prompts| ==> reqs[i] == Outbound(base, model, prompts[i])
  {
    if prompts == [] then [] else [Outbound(base, model, prompts[0])] + Requests(base, model, prompts[1..])
  }

  /** A request is posted for each prompt and for nothing else, whatever the
      backend answers: blank lines and exit commands never reach it, and a
      refused connection or a broken stream does not keep later prompts from
      being posted. */
  lemma {:induction false} SentArePrompts(c: Client, inputs: seq<string>)
    ensures Loop(c, inputs).sent == Requests(c.base, c.model, Prompts(inputs))
    decreases |inputs|
  {
    if inputs != [] {
      SentArePrompts(c, inputs[1..]);
      var prompt := TrimSpace(inputs[0]);
      if prompt != "" && !IsExitCommand(prompt) {
        var ps := Prompts(inputs[1..]);
        assert Prompts(inputs) == [prompt] + ps;
        assert ([prompt] + ps)[1..] == ps;
      }
    }
  }

  /** The transcript with one more `"Prompt: "` and nothing else. */
  function Reprompted(t: Transcript): Transcript {
    Transcript(t.stdout + "Prompt: ", t.sent, false)
  }

  lemma TurnReprompted(c: Client, line: string, next: Transcript)
    requires !Turn(c, line, next).exited
    ensures Turn(c, line, Reprompted(next)) == Reprompted(Turn(c, line, next))
  {
    var prompt := TrimSpace(line);
    var shown := if prompt == "" then "Prompt: " else "Prompt: " + Shown(c, prompt);
    assert shown + (next.stdout + "Prompt: ") == (shown + next.stdout) + "Prompt: ";
  }

  /** At end of input `ReadString` returns `""` and the loop only prints
      `"Prompt: "` again: a session that has not exited never ends on its
      own, and posts nothing more. */
  lemma {:induction false} EndOfInputRePrompts(c: Client, inputs: seq<string>)
    requires !Loop(c, inputs).exited
    ensures Loop(c, inputs + [""]) == Reprompted(Loop(c, inputs))
    decreases |inputs|
  {
    var longer := inputs + [""];
    if inputs == [] {
      assert longer == [""] && longer[1..] == [];
      assert TrimSpace("") == "";
      assert "Prompt: " + "" == "" + "Prompt: ";
    } else {
      assert longer[0] == inputs[0];
      assert longer[1..] == inputs[1..] + [""];
      EndOfInputRePrompts(c, inputs[1..]);
      TurnReprompted(c, inputs[0], Loop(c, inputs[1..]));
    }
  }
}
