/** The `/chat` endpoint: run `answer_question` on the request and shape the
    JSON response. */
module ChatApi {
  import opened Graph
  import opened Orchestrator

  /** The JSON values the response can hold. */
  datatype Json = JString(s: string) | JNull | JStrings(items: seq<string>)

  /** The request body; `debug` is false when the client leaves it out. */
  datatype ChatRequest = ChatRequest(userId: string, question: string, debug: bool := false)

  /** How the orchestrator's context serialises: Python's `None` is `null`. */
  function ContextJson(context: Option<seq<string>>): Json {
    match context
    case None => JNull
    case Some(texts) => JStrings(texts)
  }

  /** `chat(req)`: the response holds the answer, and the context only when
      the request asked for debug output. */
  method Chat(svc: Services, req: ChatRequest) returns (response: map<string, Json>)
    requires Usable(svc.lookupUser(req.userId))
    ensures var reply := AnswerQuestion(svc, req.userId, req.question, req.debug);
      response.Keys == (if req.debug then {"answer", "context"} else {"answer"})
      && response["answer"] == JString(reply.answer)
      && (req.debug ==> response["context"] == ContextJson(reply.context))
    ensures req.debug && IsFalsy(svc.lookupUser(req.userId)) ==>
      response["answer"] == JString(UserNotFound) && response["context"] == JNull
    ensures req.debug && !IsFalsy(svc.lookupUser(req.userId)) ==>
      response["context"].JStrings?
      && |response["context"].items| == |svc.search(req.question)|
  {
    var reply := AnswerQuestion(svc, req.userId, req.question, req.debug);
    response := map["answer" := JString(reply.answer)];
    if req.debug {
      response := response["context" := ContextJson(reply.context)];
    }
  }

  /** A request that leaves `debug` out does not ask for the context. */
  lemma DebugDefaultsOff(userId: string, question: string)
    ensures !ChatRequest(userId, question).debug
  {
  }
}
