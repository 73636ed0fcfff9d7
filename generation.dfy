/** `generate_content` (app.py:14-22): one chat-completion request per topic
    to a remote language model. The remote service is not modelled; it is the
    parameter `client`, a function from the request to what the service
    answers. Being a function, it answers equal requests equally; one run of
    `index` never sends the same request twice (`Seminar.ExpectedCallsDistinct`
    with `ChatRequestShape`), so within a run this costs no generality. */
module Generation {
  import opened Outcomes

  /** Fixed generation parameters of every request. */
  const ModelId: string := "llama3-8b-8192"
  const MaxTokens: nat := 500
  const Temperature: real := 0.7

  /** The fixed text around the topic in the prompt template. */
  const PromptPrefix: string := "Escreva um conteúdo claro e objetivo sobre: "
  const PromptSuffix: string := ". Inclua introdução, desenvolvimento e conclusão. Máximo 300 palavras."

  datatype Message = Message(role: string, content: string)

  /** The arguments of one `chat.completions.create` call. */
  datatype Request = Request(model: string, messages: seq<Message>, maxTokens: nat, temperature: real)

  datatype Choice = Choice(message: Message)

  /** The kinds of exception the client library raises for a failed call. */
  datatype ApiError = AuthenticationError | RateLimitError | TimeoutError | UpstreamError

  /** What the service answers: the completion's choices, or a raised error. */
  datatype Reply = Completion(choices: seq<Choice>) | Raised(error: ApiError)

  /** Why `generate_content` raises: the client raised, or the completion had
      no choice to index (`choices[0]` on an empty list). */
  datatype GenError = Api(error: ApiError) | NoChoices

  /** The remote service, as seen by this program. */
  type Client = Request -> Reply

  /** The prompt f-string: fixed prefix, the topic verbatim, fixed suffix. */
  function Prompt(topic: string): (p: string)
    ensures |p| == |PromptPrefix| + |topic| + |PromptSuffix|
    ensures p[..|PromptPrefix|] == PromptPrefix
    ensures p[|PromptPrefix|..|PromptPrefix| + |topic|] == topic
    ensures p[|PromptPrefix| + |topic|..] == PromptSuffix
  {
    PromptPrefix + topic + PromptSuffix
  }

  /** Recovers the topic from a prompt, if the text fits the template. */
  function TopicOf(p: string): (t: Option<string>)
  {
    var n := |PromptPrefix| + |PromptSuffix|;
    if |p| >= n && p[..|PromptPrefix|] == PromptPrefix && p[|p| - |PromptSuffix|..] == PromptSuffix
    then Some(p[|PromptPrefix|..|p| - |PromptSuffix|])
    else None
  }

  /** The topic is carried into the prompt verbatim and can be read back. */
  lemma PromptRoundTrip(topic: string)
    ensures TopicOf(Prompt(topic)) == Some(topic)
  {
    var p := Prompt(topic);
    assert p[|p| - |PromptSuffix|..] == PromptSuffix;
    assert p[|PromptPrefix|..|p| - |PromptSuffix|] == topic;
  }

  /** Every text that fits the template is the prompt of its topic. */
  lemma TopicOfSound(p: string, topic: string)
    requires TopicOf(p) == Some(topic)
    ensures Prompt(topic) == p
  {
    assert p == p[..|PromptPrefix|] + p[|PromptPrefix|..|p| - |PromptSuffix|] + p[|p| - |PromptSuffix|..];
  }

  /** The request `generate_content` sends for a topic. */
  function ChatRequest(topic: string): Request {
    Request(ModelId, [Message("user", Prompt(topic))], MaxTokens, Temperature)
  }

  /** Every request uses the same model, token budget and temperature, and
      carries exactly one user message whose text is the topic's prompt;
      distinct topics give distinct requests. */
  lemma ChatRequestShape(a: string, b: string)
    ensures ChatRequest(a).model == "llama3-8b-8192"
    ensures ChatRequest(a).maxTokens == 500 && ChatRequest(a).temperature == 0.7
    ensures |ChatRequest(a).messages| == 1 && ChatRequest(a).messages[0].role == "user"
    ensures TopicOf(ChatRequest(a).messages[0].content) == Some(a)
    ensures ChatRequest(a) == ChatRequest(b) <==> a == b
  {
    PromptRoundTrip(a);
    PromptRoundTrip(b);
  }

  /** `generate_content(topic)`: send the request and return the first
      choice's message text, unmodified. */
  function GenerateContent(client: Client, topic: string): (r: Result<string, GenError>)
    ensures r.Ok? <==> client(ChatRequest(topic)).Completion? && |client(ChatRequest(topic)).choices| > 0
    ensures r.Ok? ==> r.value == client(ChatRequest(topic)).choices[0].message.content
    ensures client(ChatRequest(topic)).Raised? ==> r == Err(Api(client(ChatRequest(topic)).error))
    ensures client(ChatRequest(topic)) == Completion([]) ==> r == Err(NoChoices)
  {
    match client(ChatRequest(topic))
    case Raised(e) => Err(Api(e))
    case Completion(choices) =>
      if |choices| == 0 then Err(NoChoices) else Ok(choices[0].message.content)
  }
}
