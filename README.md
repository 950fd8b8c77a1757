# minivault-api stream relay, modelled in Dafny

This project models the core of minivault-api: a small Go service that puts an HTTP API and an
interactive command line in front of an Ollama backend. The core is the loop that sends a prompt to
the backend's `/api/generate` endpoint and rebuilds the answer from the streamed NDJSON fragments.
There are three copies of that loop:

- the buffered aggregator in `generateHandler` of `server/api.go`. It reads the body line by line,
  trims each line, skips blank lines, decodes each remaining line, appends its `response`, and stops
  after the first frame with `done` set or at end of stream. A read error or a decode error becomes
  an HTTP 500. Around the loop sit the method check, the 400 for a bad request body, the model
  default `"llama2"`, the outbound request, and the chat-log entry written on success;
- the earlier copy of the same handler in `main.go`. It has no method check, a fixed model and
  backend URL, and no log;
- the interactive loop `RunCLI` of `server/cli.go`. It trims each input line, re-prompts on blank
  input, stops on `exit` or `quit`, and otherwise prints the reply's tokens live with a
  `json.Decoder`.

Modules, one per concern:

| file | module | models |
|---|---|---|
| `text.dfy` | `Text` | `bytes.TrimSpace` / `strings.TrimSpace` |
| `transport.dfy` | `Transport` | the response body and `bufio.Reader.ReadBytes('\n')`, as a class |
| `relay.dfy` | `Relay` | the buffered loop: the specification `Aggregate`, an independent characterisation `Expected`, and the imperative `RelayStream` proved against `Aggregate` |
| `http.dfy` | `Http` | the configuration, the outbound request, the connection and the handler's reply |
| `api.dfy` | `Api` | `generateHandler` and the log entry of `server/api.go` |
| `legacy.dfy` | `LegacyMain` | `generateHandler` of `main.go` |
| `cli.dfy` | `Cli` | `RunCLI`: the `json.Decoder` as a class, the live token loop, and the session over a sequence of input lines |
| `modes.dfy` | `Modes` | where the buffered and the live modes agree, and where they do not |

Collaborators the code calls but the model cannot see are parameters:

- the backend is a function from the outbound request to a connection: refused with an error text,
  or an open body;
- a body is its bytes plus whether the connection breaks after them;
- `json.Unmarshal` of one line is `decode: string -> Frame`;
- the values a `json.Decoder` yields for one body are `decodeStream: Body -> seq<Chunk>`;
- the environment variables are an `Env` value and the timestamp is a string argument;
- standard output is the text a session prints, and standard input is the list of lines
  `ReadString('\n')` returns.

## Model

| member | source | states |
|---|---|---|
| Text.TrimSpace | server/api.go:95 | the trimmed line is empty exactly when the input is all white space, and otherwise neither starts nor ends with white space |
| Text.TrimLeftShape | server/api.go:95 | leading trimming keeps a suffix that starts with a non-space and drops only white space |
| Text.TrimRightShape | server/api.go:95 | trailing trimming keeps a prefix that ends with a non-space and drops only white space |
| Text.TrimSurrounded | server/cli.go:25-26 | any trimmed string surrounded by white space trims back to itself, so `"  exit \n"` becomes `"exit"` |
| Text.TrimIdempotent | server/api.go:95 | trimming twice is trimming once |
| Transport.NextRead | server/api.go:86 | one `ReadBytes('\n')` returns everything up to and including the first `'\n'`, or the unterminated rest with end of stream or with the read error exactly when the connection fails |
| Transport.Reader.ReadBytes | server/api.go:86 | the reader's scan returns what `NextRead` specifies, advances past it, and records it |
| Transport.Reads | server/api.go:85-92 | the reads until the first end or failure are non-empty and end with a result that is not a line |
| Transport.ReadsShape | server/api.go:86-92 | every read but the last is a line ending in its only `'\n'`; the last is unterminated, and it is the failure exactly when the connection fails |
| Transport.ReadsReassemble | server/api.go:86 | the reads put back together are the whole body: nothing lost, nothing invented |
| Transport.ReadsUnlines | server/api.go:86-88 | a body of newline-terminated lines plus a tail is read back as exactly those lines, then the tail with end of stream or failure |
| Relay.Aggregate | server/api.go:85-111 | definition of the loop's outcome over the read results; characterised by `Relay.AggregateMatchesExpected` and implemented by `Relay.RelayStream` |
| Relay.StepOf | server/api.go:86-110 | one read result leads to a skip, an append, a finish or an error, and an error never carries text |
| Relay.Consumed | server/api.go:85-111 | the loop reads at most the results there are, and at least one |
| Relay.Cut | server/api.go:100-110 | the frames kept are a prefix, with no stopping frame before the last, and the last stops when anything was cut |
| Relay.Expected | server/api.go:94-110 | definition without the loop: decode the non-blank lines, cut after the first `done` or malformed frame, concatenate; equal to `Relay.Aggregate` by `Relay.AggregateMatchesExpected` |
| Relay.AggregateMatchesExpected | server/api.go:85-115 | the loop's outcome is the decode error when the frames kept end with a malformed one; otherwise it is the concatenated `response` texts up to and including the first `done` frame, unless the stream failed before any `done` frame |
| Relay.BlankLinesSkipped | server/api.go:94-98 | inserting a whitespace-only line anywhere leaves the outcome unchanged and costs at most the one extra read of that line |
| Relay.UnreadIrrelevant | server/api.go:108-110 | results after the ones the loop reads cannot change its outcome, so a malformed line after a `done` frame causes no error |
| Relay.ReadsStopAtFinish | server/api.go:86-110 | after lines that only append, the first `done` frame, malformed line, read failure or end of stream is the last result read |
| Relay.AbortDiscardsText | server/api.go:89-104 | after lines that only append, a read failure or a malformed line ends the loop with that error alone, discarding the text accumulated so far, whatever follows |
| Relay.TextAtFinish | server/api.go:106-110 | the text of the first `done` frame is appended before stopping, after the texts of every frame before it |
| Relay.TrimLinePayload | server/api.go:86-95 | the `'\n'` that `ReadBytes` keeps is removed by trimming |
| Relay.EmptyBody | server/api.go:86-91 | an empty body is answered with empty text on a clean close, and with the read error on a broken connection |
| Relay.TrailingSegmentDropped | server/api.go:86-88 | a final segment with no `'\n'` before a clean end of stream never changes the outcome |
| Relay.FinalIgnored | server/api.go:86-88 | the bytes returned together with end of stream are not processed |
| Relay.StepOutcome | server/api.go:106-110 | appending, finishing or failing on one result, from text already accumulated, gives the accumulated text plus the result's, or the error alone |
| Relay.RelayStream | server/api.go:82-111 | the imperative loop returns the outcome `Aggregate` specifies, performs exactly the reads `Consumed` counts, and leaves the reader at the first result it did not read |
| Http.ResolveModel | server/api.go:58-61 | the model is never empty: the configured one when set, `"llama2"` otherwise |
| Http.Outbound | server/api.go:68-74 | the request goes to `<base>/api/generate` with the model, the prompt verbatim and streaming on |
| Http.ReplyFor | server/api.go:89-120 | success is answered with the text, a read error and a decode error with a 500 and their messages |
| Api.LogEntry | server/api.go:148 | the log entry is exactly `[` timestamp `]\nPrompt: ` prompt `\nResponse: ` response and a blank line: every fixed label and every field is pinned at its offset, and the length is the fields plus 24 |
| Api.GenerateHandler | server/api.go:47-122 | non-POST gets 405 and a bad body gets 400, neither contacting the backend; a refused connection gets 500; otherwise the reply is the aggregation's, and only success writes a log entry |
| LegacyMain.GenerateHandler | main.go:28-87 | a bad body gets 400 before any contact, whatever the method; the request is always `"llama2"` at the fixed local URL; the reply is the aggregation's; nothing is logged |
| Cli.Token | server/cli.go:58-60 | definition: the `response` value when it is a string, else nothing; characterised by `Cli.NonStringTokenSilent` |
| Cli.Emitted | server/cli.go:53-61 | definition of the live output for one stream; implemented by `Cli.StreamTokens` and characterised by `Cli.EmittedConcat`, `Cli.DecodeErrorEndsStream` and `Cli.PrintedTokensRemain` |
| Cli.Decoder.Decode | server/cli.go:55 | decoding yields the next value and consumes it, or an error when none is left |
| Cli.StreamTokens | server/cli.go:52-61 | the live loop prints the tokens of the chunks up to the first decode error, and leaves the decoder holding only the values after that error |
| Cli.EmittedConcat | server/cli.go:53-61 | the live loop does not stop at chunk boundaries, so a `done` chunk does not end it |
| Cli.DecodeErrorEndsStream | server/cli.go:55-57 | nothing after a decode error is printed |
| Cli.PrintedTokensRemain | server/cli.go:55-62 | tokens already printed stay printed when the stream continues or breaks |
| Cli.NonStringTokenSilent | server/cli.go:58-60 | a chunk whose `response` is missing or not a string prints nothing and does not interrupt the stream |
| Cli.ClientFor | server/cli.go:14-18 | the session uses `OLLAMA_URL` and the model, defaulted to `"llama2"` |
| Cli.Banner | server/cli.go:21 | definition: the banner naming the model, then a blank line |
| Cli.Shown | server/cli.go:42-62 | definition of what one posted prompt prints; implemented by `Cli.Ask` |
| Cli.Turn | server/cli.go:24-62 | one input line ends the session exactly when it trims to an exit command |
| Cli.Loop | server/cli.go:23-63 | definition of the outer loop as a fold of `Cli.Turn` over the input lines; characterised by `Cli.ExitedIffExitCommand`, `Cli.InputsAfterExitIgnored` and `Cli.SentArePrompts` |
| Cli.Session | server/cli.go:13-63 | definition of a whole session, the banner then `Cli.Loop`; implemented by `Cli.RunCli` |
| Cli.Ask | server/cli.go:36-62 | one posted prompt prints the connection error, or `"=> "`, the live tokens and a newline |
| Cli.RunCli | server/cli.go:13-64 | the session prints the banner and then does, line by line, what `Turn` specifies |
| Cli.ExitedIffExitCommand | server/cli.go:31-34 | the session ends on its own exactly when some line trims to `exit` or `quit`; failures never end it |
| Cli.InputsAfterExitIgnored | server/cli.go:31-34 | nothing typed after an exit command is read, posted or shown |
| Cli.Prompts | server/cli.go:25-34 | the prompts sent are non-empty, trimmed and never an exit command |
| Cli.Requests | server/cli.go:36-42 | one request per prompt, in order, each to `<base>/api/generate` with the model |
| Cli.SentArePrompts | server/cli.go:25-46 | the requests posted are exactly those for the trimmed non-blank lines before the first exit command, whatever the backend answers |
| Cli.TurnReprompted | server/cli.go:24-30 | a blank line at the end of a session that has not exited only adds `"Prompt: "` |
| Cli.EndOfInputRePrompts | server/cli.go:24-30 | at end of input the loop only prints `"Prompt: "` again, posts nothing and does not end |
| Modes.ChunkOf | server/cli.go:54-60 | provided the live decoder reads a line as `json.Unmarshal` does, the object it yields for a message carries the message's `response` as the token, and a line `json.Unmarshal` rejects stops the live loop |
| Modes.ChunksOf | server/cli.go:52-61 | for non-blank lines that each hold a single object, and under `Modes.ChunkOf`'s assumption, the live decoder yields one chunk per line, that line's `ChunkOf` |
| Modes.LiveMatchesBuffered | server/api.go:85-111 | on well-formed lines whose only `done` frame is the last, and provided the live decoder reads each line as `json.Unmarshal` does, the handler replies with exactly the text the interactive loop prints |
| Modes.CliShowsHandlerReply | server/cli.go:42-62 | when the backend answers a prompt with such a stream and the live decoder reads each line as `json.Unmarshal` does, the handler's reply is a success and the interactive loop shows `"=> "`, that reply's text and a newline |
| Modes.ReplyStopsAtDone | server/api.go:108-110 | lines after a `done` frame do not change the handler's reply |
| Modes.LiveReadsPastDone | server/cli.go:53-61 | after a `done` frame the handler has stopped, while the interactive loop prints the tokens of the frames that follow too |

## Left out

- JSON syntax is not modelled. `encoding/json` decoding, its case-insensitive field matching, and
  the encoding of the reply and the outbound body are abstracted into the `decode` and
  `decodeStream` parameters. `Decoder.More()` is modelled as "a value remains", ignoring its
  answer at a closing `]` or `}`.
- How `bufio` reassembles the transport's chunks is not modelled, only its `ReadBytes('\n')`
  contract. A body is the bytes that arrive, then a clean end or a failure.
- Bytes and Go strings are both `string`, one character per byte. Trimming recognises the ASCII
  white space only, not the Unicode spaces `bytes.TrimSpace` also removes.
- `Run` and `main` (the HTTP server set-up) are not modelled; `http.Post` is the backend
  parameter.
- `statusHandler` (runtime memory statistics, floating point) is not modelled.
- File I/O in `logToFile` is not modelled; only the entry it writes is. Reading the environment
  and formatting `time.Now` are not modelled either: both are inputs.
- Closing bodies (`defer resp.Body.Close()`, deferred to the end of `RunCLI` in the interactive
  loop) is a resource-lifetime concern and is not modelled.
- Concurrent requests are not modelled; each handler call is independent.
- Cli.RunCli: covers a finite list of input lines. Once stdin is exhausted the Go loop reads `""`
  forever and never returns; `EndOfInputRePrompts` states what each such extra pass does.
- Relay.Aggregate: running out of read results is treated like end of stream. `Reads` always ends
  with an end-of-stream or failure result, so this never arises for a real body.
- Modes.ChunkOf: assumes the live `map[string]any` decoder and `json.Unmarshal` into
  `OllamaResponse` read each line the same way, which Go does not promise. `json.Unmarshal` also
  matches keys that differ only in case (`{"Response":"x"}` relays `x`, while the live loop prints
  nothing), and it rejects a `response` that is not a string (`{"response":5}` is a 500 for the
  handler, while the live loop prints nothing and goes on). `Modes.LiveMatchesBuffered`,
  `Modes.LiveReadsPastDone` and `Modes.CliShowsHandlerReply` hold only for lines on which the two
  decoders agree (`Modes.DecodesAsUnmarshal`).

## Behaviour of the code worth noting

- The interactive loop does not stop at a frame with `done` set (`Modes.LiveReadsPastDone`).
- It ends a reply silently at a decode error or a read error (which `json.Decoder` reports the
  same way), printing no message.
- The handler drops a final segment that has no `'\n'` instead of processing it
  (`Relay.TrailingSegmentDropped`).
