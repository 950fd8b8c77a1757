/** `generateHandler` of server/api.go: the HTTP relay in front of the
    backend, with the method check, configurable model and URL, and the chat
    log entry written on success. */
module Api {
  import opened Transport
  import opened Relay
  import opened Http

  /** An inbound request: its HTTP method and its body as `json.Decoder`
      decodes it into `APIRequest` (`None` when the body does not decode). */
  datatype Request = Request(httpMethod: string, prompt: Option<string>)

  /** The entry `logToFile` appends (server/api.go:148): the timestamp in
      brackets, then the prompt and the response on labelled lines, then a
      blank line. Each part sits at a fixed offset and can be read back. */
  function LogEntry(timestamp: string, prompt: string, response: string): (entry: string)
    ensures |entry| == |timestamp| + |prompt| + |response| + 24
    ensures entry[..|timestamp| + 3] == "[" + timestamp + "]\n"
    ensures entry[|timestamp| + 3..|timestamp| + 11] == "Prompt: "
    ensures entry[|timestamp| + 11..|timestamp| + 11 + |prompt|] == prompt
    ensures entry[|timestamp| + 11 + |prompt|..|timestamp| + 22 + |prompt|] == "\nResponse: "
    ensures entry[|entry| - |response| - 2..] == response + "\n\n"
  {
    var head := "[" + timestamp + "]\nPrompt: ";
    var entry := head + prompt + "\nResponse: " + response + "\n\n";
    assert entry == head + (prompt + ("\nResponse: " + response + "\n\n"));
    assert entry[..|timestamp| + 3] == head[..|timestamp| + 3];
    assert entry[|head|..|head| + |prompt|] == prompt;
    assert entry == (head + prompt + "\nResponse: ") + (response + "\n\n");
    entry
  }

  /** `generateHandler` (server/api.go:47-122). A non-POST request gets 405
      and an undecodable body 400, neither contacting the backend; otherwise
      the request posted carries the configured model (default `"llama2"`),
      the prompt verbatim and `stream: true`; a refused connection gets 500;
      the body is aggregated as `Aggregate` specifies, and only a successful
      aggregation is logged and answered with its text. */
  method GenerateHandler(request: Request, env: Env, timestamp: string,
                         backend: GenerateRequest -> Connection, decode: string -> Frame)
    returns (ex: Exchange)
    ensures request.httpMethod != "POST" ==>
      ex == Exchange(Error(405, "Method not allowed"), None, None)
    ensures request.httpMethod == "POST" && request.prompt.None? ==>
      ex == Exchange(Error(400, "Invalid request"), None, None)
    ensures request.httpMethod == "POST" && request.prompt.Some? ==>
      var prompt := request.prompt.value;
      var out := Outbound(env.ollamaUrl, ResolveModel(env.model), prompt);
      && ex.sent == Some(out)
      && match Post(backend, out)
         case Refused(_) => ex.reply == Error(500, "Failed to contact Ollama") && ex.logEntry == None
         case Opened(body) =>
           var o := Aggregate(Reads(body.data, body.fails), decode);
           && ex.reply == ReplyFor(o)
           && ex.logEntry == (if o.Relayed? then Some(LogEntry(timestamp, prompt, o.text)) else None)
  {
    if request.httpMethod != "POST" {
      return Exchange(Error(405, "Method not allowed"), None, None);
    }
    var model := ResolveModel(env.model);
    if request.prompt.None? {
      return Exchange(Error(400, "Invalid request"), None, None);
    }
    var prompt := request.prompt.value;
    var out := Outbound(env.ollamaUrl, model, prompt);
    var conn := Post(backend, out);
    if conn.Refused? {
      return Exchange(Error(500, "Failed to contact Ollama"), Some(out), None);
    }
    var reader := new Reader(conn.body);
    var outcome := RelayStream(reader, decode);
    if !outcome.Relayed? {
      return Exchange(ReplyFor(outcome), Some(out), None);
    }
    var entry := LogEntry(timestamp, prompt, outcome.text);
    ex := Exchange(Ok(outcome.text), Some(out), Some(entry));
  }
}
