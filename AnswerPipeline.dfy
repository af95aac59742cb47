/**
  The `/api/ask` handler: it picks a chat-completion provider from the two
  configured keys (Perplexity first, OpenAI as the fallback), sends it the
  question, splits and cleans the completion, and answers 200 with
  `{ summary, answer }`, 400 when no key is configured, or 500 when the
  provider call or the reading of its reply fails.

  The environment is passed in as two optional strings, and the provider call
  is a parameter: a total function from the request the handler would send to
  the completion text it gets back, `None` standing for any failure (a network
  error, a non-2xx reply, a reply without `choices[0].message.content`).
 */
module AnswerPipeline {
  import opened JsStrings
  import opened ResponseSplitter

  datatype Provider = Perplexity | OpenAI

  /** The routing decision: one provider, or no usable key. */
  datatype Route = Use(provider: Provider) | NoKey

  /** `process.env.PERPLEXITY_API_KEY` and `process.env.OPENAI_API_KEY`;
      `None` is an unset variable. */
  datatype Env = Env(perplexityKey: Option<string>, openAiKey: Option<string>)

  /** What the handler posts to a provider's chat-completions endpoint. */
  datatype Request = Request(
    provider: Provider,
    model: string,
    authorization: string,
    systemPrompt: string,
    userPrompt: string)

  /** The handler's reply: status and JSON body. */
  datatype Response =
    | Ok(summary: string, answer: string)
    | ClientError(message: string)
    | ServerError(message: string)

  /** One run of the handler: its reply and the provider requests it sent. */
  datatype Exchange = Exchange(response: Response, sent: seq<Request>)

  const NoKeyMessage: string :=
    "No API key found. Please provide PERPLEXITY_API_KEY or OPENAI_API_KEY in .env"
  const FailureMessage: string := "Failed to summarize/answer question"
  const SystemPrompt: string :=
    "You are a helpful assistant that summarizes and answers questions clearly."
  const UserPromptPrefix: string :=
    "First, summarize this question clearly. Then, provide a short and direct answer.\nQuestion: "

  /** JavaScript truthiness of an environment variable: set and not "". */
  function Truthy(key: Option<string>): (b: bool)
    ensures b <==> key != None && key != Some("")
  {
    key.Some? && key.value != ""
  }

  /** The `if (PERPLEXITY_API_KEY) … else if (OPENAI_API_KEY) … else …` chain. */
  function Select(env: Env): (r: Route)
    ensures r == Use(Perplexity) <==> Truthy(env.perplexityKey)
    ensures r == Use(OpenAI) <==> !Truthy(env.perplexityKey) && Truthy(env.openAiKey)
    ensures r == NoKey <==> !Truthy(env.perplexityKey) && !Truthy(env.openAiKey)
  {
    if Truthy(env.perplexityKey) then Use(Perplexity)
    else if Truthy(env.openAiKey) then Use(OpenAI)
    else NoKey
  }

  /** The request body and headers for `provider`, carrying `key` as the bearer
      token and the question in the fixed user prompt. */
  function MakeRequest(provider: Provider, key: string, question: string): (q: Request)
    ensures q.provider == provider && q.systemPrompt == SystemPrompt
    ensures |q.userPrompt| == |UserPromptPrefix| + |question|
    ensures q.userPrompt[..|UserPromptPrefix|] == UserPromptPrefix
    ensures q.userPrompt[|UserPromptPrefix|..] == question
  {
    Request(
      provider,
      if provider == Perplexity then "sonar-small-chat" else "gpt-4o-mini",
      "Bearer " + key,
      SystemPrompt,
      UserPromptPrefix + question)
  }

  /** HTTP status of a reply. */
  function Status(r: Response): (code: int)
    ensures code == 200 <==> r.Ok?
    ensures code == 400 <==> r.ClientError?
    ensures code == 500 <==> r.ServerError?
  {
    match r
    case Ok(_, _) => 200
    case ClientError(_) => 400
    case ServerError(_) => 500
  }

  /** The handler. Each provider branch splits and cleans the completion
      itself, as the source does (its two branches hold the same lines). */
  function Ask(env: Env, question: string, complete: Request -> Option<string>): (x: Exchange)
    ensures |x.sent| <= 1
    ensures Select(env) == NoKey <==> x.sent == []
    ensures x.sent != [] ==> Use(x.sent[0].provider) == Select(env)
    ensures Status(x.response) == 400 <==> Select(env) == NoKey
  {
    if Truthy(env.perplexityKey) then
      var request := MakeRequest(Perplexity, env.perplexityKey.value, question);
      match complete(request)
      case None => Exchange(ServerError(FailureMessage), [request])
      case Some(content) =>
        var result := SplitCompletion(content);
        Exchange(Ok(result.summary, result.answer), [request])
    else if Truthy(env.openAiKey) then
      var request := MakeRequest(OpenAI, env.openAiKey.value, question);
      match complete(request)
      case None => Exchange(ServerError(FailureMessage), [request])
      case Some(content) =>
        var result := SplitCompletion(content);
        Exchange(Ok(result.summary, result.answer), [request])
    else
      Exchange(ClientError(NoKeyMessage), [])
  }

  /** An empty key counts as no key at all. */
  lemma EmptyKeyIsNoKey(env: Env)
    ensures Select(Env(Some(""), env.openAiKey)) == Select(Env(None, env.openAiKey))
    ensures Select(Env(env.perplexityKey, Some(""))) == Select(Env(env.perplexityKey, None))
  {
  }

  /** With no usable key the handler answers 400 with its fixed message and
      calls no provider. */
  lemma NoKeyMeansNoCall(env: Env, question: string, complete: Request -> Option<string>)
    requires !Truthy(env.perplexityKey) && !Truthy(env.openAiKey)
    ensures Ask(env, question, complete) == Exchange(ClientError(NoKeyMessage), [])
  {
  }

  /** A Perplexity key wins whatever the OpenAI key is: only Perplexity is
      asked, with that key, and OpenAI never is. */
  lemma PerplexityFirst(env: Env, question: string, complete: Request -> Option<string>)
    requires Truthy(env.perplexityKey)
    ensures var x := Ask(env, question, complete);
      x.sent == [MakeRequest(Perplexity, env.perplexityKey.value, question)]
      && forall k :: 0 <= k < |x.sent| ==> x.sent[k].provider != OpenAI
  {
  }

  /** OpenAI is asked only when the Perplexity key is unset or empty. */
  lemma OpenAIOnlyAsFallback(env: Env, question: string, complete: Request -> Option<string>)
    ensures var x := Ask(env, question, complete);
      (exists k :: 0 <= k < |x.sent| && x.sent[k].provider == OpenAI)
        <==> !Truthy(env.perplexityKey) && Truthy(env.openAiKey)
  {
    var x := Ask(env, question, complete);
    if !Truthy(env.perplexityKey) && Truthy(env.openAiKey) {
      assert x.sent[0].provider == OpenAI;
    }
  }

  /** Whichever provider answers, the reply is the split of its completion, or
      the 500 error when it did not answer; there is no retry and no fall back
      to the other provider. */
  lemma ReplyFollowsCompletion(env: Env, question: string, complete: Request -> Option<string>)
    requires Select(env) != NoKey
    ensures var x := Ask(env, question, complete);
      && |x.sent| == 1
      && x.response == match complete(x.sent[0])
         case None => ServerError(FailureMessage)
         case Some(content) =>
           Ok(SplitCompletion(content).summary, SplitCompletion(content).answer)
  {
  }

  /** Both provider branches post-process a completion identically: the same
      completion text gives the same reply whichever provider produced it. */
  lemma BranchesAgree(
    envA: Env, envB: Env, question: string,
    completeA: Request -> Option<string>, completeB: Request -> Option<string>)
    requires Select(envA) == Use(Perplexity) && Select(envB) == Use(OpenAI)
    requires completeA(MakeRequest(Perplexity, envA.perplexityKey.value, question))
          == completeB(MakeRequest(OpenAI, envB.openAiKey.value, question))
    ensures Ask(envA, question, completeA).response == Ask(envB, question, completeB).response
  {
  }

  /** Every successful reply has both fields, free of `*` and of surrounding
      whitespace. */
  lemma OkRepliesAreClean(env: Env, question: string, complete: Request -> Option<string>)
    ensures var r := Ask(env, question, complete).response;
      r.Ok? ==> '*' !in r.summary && '*' !in r.answer && Trimmed(r.summary) && Trimmed(r.answer)
  {
  }
}
