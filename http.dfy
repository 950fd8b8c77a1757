/** What the handlers and the interactive loop exchange with the world: the
    configuration, the outbound generate request, the backend connection, and
    the reply an HTTP handler writes. */
module Http {
  import opened Transport
  import opened Relay

  /** The environment variables `OLLAMA_URL` and `MODEL`, as read (empty when unset). */
  datatype Env = Env(ollamaUrl: string, model: string)

  /** The JSON body `{"model", "prompt", "stream"}` posted to the backend, with
      the URL it is posted to. */
  datatype GenerateRequest = GenerateRequest(url: string, model: string, prompt: string, stream: bool)

  /** The result of `http.Post`: a connection error (its text), or an open
      streaming response body. */
  datatype Connection = Refused(err: string) | Opened(body: Body)

  /** What a handler writes: the JSON reply `{"response": ...}` with content
      type `application/json`, or `http.Error` with a status and a plain-text
      message. JSON encoding of the reply is not modelled. */
  datatype Reply = Ok(response: string) | Error(status: nat, message: string)

  /** One handled request: the reply, the generate request posted to the
      backend (if any), and the entry appended to the chat log (if any). */
  datatype Exchange = Exchange(reply: Reply, sent: Option<GenerateRequest>, logEntry: Option<string>)

  datatype Option<T> = None | Some(value: T)

  const DefaultModel := "llama2"

  /** The model named by `MODEL`, or `"llama2"` when it is empty
      (server/api.go:58-61, server/cli.go:15-18): never empty, and the
      configured name whenever there is one. */
  function ResolveModel(configured: string): (model: string)
    ensures model != ""
    ensures configured != "" ==> model == configured
    ensures configured == "" ==> model == DefaultModel
  {
    if configured == "" then DefaultModel else configured
  }

  /** The outbound request: `<base>/api/generate` with the model, the prompt
      verbatim, and streaming always on. */
  function Outbound(base: string, model: string, prompt: string): (req: GenerateRequest)
    ensures req.stream && req.prompt == prompt && req.model == model
    ensures req.url == base + "/api/generate"
  {
    GenerateRequest(base + "/api/generate", model, prompt, true)
  }

  /** `http.Post` through the backend capability. It only names that Go call:
      what the backend answers is the `backend` parameter. */
  function Post(backend: GenerateRequest -> Connection, req: GenerateRequest): Connection {
    backend(req)
  }

  /** The reply written for an aggregation outcome: the text on success, a 500
      with the source's message on either error (server/api.go:89-91,
      100-104, 113-120). */
  function ReplyFor(o: Outcome): (reply: Reply)
    ensures reply.Ok? <==> o.Relayed?
    ensures reply.Ok? ==> reply.response == o.text
    ensures o.ReadFailed? ==> reply == Error(500, "Failed to read ollama response")
    ensures o.UnmarshalFailed? ==> reply == Error(500, "Failed to unmarshal ollama response")
  {
    match o
    case Relayed(t) => Ok(t)
    case ReadFailed => Error(500, "Failed to read ollama response")
    case UnmarshalFailed => Error(500, "Failed to unmarshal ollama response")
  }
}
