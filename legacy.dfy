/** `generateHandler` of main.go: the earlier, hard-wired copy of the relay.
    It has no method check, always asks for model `"llama2"` at a fixed local
    URL, and writes no log. */
module LegacyMain {
  import opened Transport
  import opened Relay
  import opened Http

  const BackendBase := "http://localhost:11434"

  /** `generateHandler` (main.go:28-87). An undecodable body gets 400 before
      any backend contact, whatever the HTTP method; otherwise the request
      posted is always model `"llama2"`, the prompt verbatim and
      `stream: true`; a refused connection gets 500; the body is aggregated as
      `Aggregate` specifies and nothing is logged. */
  method GenerateHandler(prompt: Option<string>, backend: GenerateRequest -> Connection, decode: string -> Frame)
    returns (ex: Exchange)
    ensures prompt.None? ==> ex == Exchange(Error(400, "Invalid request"), None, None)
    ensures prompt.Some? ==>
      var out := GenerateRequest("http://localhost:11434/api/generate", "llama2", prompt.value, true);
      && ex.sent == Some(out)
      && ex.logEntry == None
      && match Post(backend, out)
         case Refused(_) => ex.reply == Error(500, "Failed to contact Ollama")
         case Opened(body) => ex.reply == ReplyFor(Aggregate(Reads(body.data, body.fails), decode))
  {
    if prompt.None? {
      return Exchange(Error(400, "Invalid request"), None, None);
    }
    assert BackendBase + "/api/generate" == "http://localhost:11434/api/generate";
    var out := Outbound(BackendBase, DefaultModel, prompt.value);
    var conn := Post(backend, out);
    if conn.Refused? {
      return Exchange(Error(500, "Failed to contact Ollama"), Some(out), None);
    }
    var reader := new Reader(conn.body);
    var outcome := RelayStream(reader, decode);
    ex := Exchange(ReplyFor(outcome), Some(out), None);
  }
}
