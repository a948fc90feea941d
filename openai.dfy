/** The response extraction of `llm/services/openai.py` and the failure handling of
    its fetcher. The SDK call itself is a parameter. */
module OpenAI {
  import opened Wrappers

  /** One choice of a completion, reduced to `choice.message.content`, which the SDK
      types as optional. */
  datatype Choice = Choice(content: Option<string>)

  /** The object the SDK returns: a `ChatCompletion` with its choices, or an object on
      which reading `choices[0].message.content` raises. */
  datatype Response = ChatCompletion(choices: seq<Choice>) | Unreadable

  datatype ChatMessage = ChatMessage(role: string, content: string)

  /** The arguments passed to `chat.completions.create`. */
  datatype Request = Request(model: string, messages: seq<ChatMessage>)

  /** The content of the first choice; `""` when there is no choice or when reading the
      response raises. The content itself may be `None`. */
  function ExtractMessage(response: Response): (r: Option<string>)
    ensures response.Unreadable? ==> r == Some("")
    ensures response.ChatCompletion? && response.choices == [] ==> r == Some("")
    ensures response.ChatCompletion? && response.choices != [] ==> r == response.choices[0].content
  {
    match response
    case Unreadable => Some("")
    case ChatCompletion(choices) => if |choices| > 0 then choices[0].content else Some("")
  }

  /** Only the first choice is consulted: choices after it never change the result. */
  lemma ExtractMessageFirstChoiceOnly(first: Choice, rest1: seq<Choice>, rest2: seq<Choice>)
    ensures ExtractMessage(ChatCompletion([first] + rest1)) == ExtractMessage(ChatCompletion([first] + rest2))
    ensures ExtractMessage(ChatCompletion([first] + rest1)) == first.content
  {
  }

  /** Extraction never fails: the result is absent only when the first choice exists
      and has no content. */
  lemma ExtractMessageAbsent(response: Response)
    ensures ExtractMessage(response).None? <==>
      response.ChatCompletion? && response.choices != [] && response.choices[0].content.None?
  {
  }

  /** Sends `prompt` as the single user message and returns the extracted content.
      When `create` (the SDK call) raises, the error is reported and `None` is returned. */
  function FetchOpenAiResponse(prompt: string, model: string, create: Request -> Result<Response, Error>): (r: Option<string>)
    ensures create(Request(model, [ChatMessage("user", prompt)])).Failure? ==> r == None
    ensures create(Request(model, [ChatMessage("user", prompt)])).Success? ==>
      r == ExtractMessage(create(Request(model, [ChatMessage("user", prompt)])).value)
  {
    match create(Request(model, [ChatMessage("user", prompt)]))
    case Failure(_) => None
    case Success(response) => ExtractMessage(response)
  }

  /** The fetcher returns `None` exactly when the call raised or the first choice has
      no content; otherwise it returns the first choice's text, or `""`. */
  lemma FetchOpenAiResponseAbsent(prompt: string, model: string, create: Request -> Result<Response, Error>)
    ensures var reply := create(Request(model, [ChatMessage("user", prompt)]));
      FetchOpenAiResponse(prompt, model, create).None? <==>
        reply.Failure? || (reply.value.ChatCompletion? && reply.value.choices != [] && reply.value.choices[0].content.None?)
  {
    var reply := create(Request(model, [ChatMessage("user", prompt)]));
    if reply.Success? {
      ExtractMessageAbsent(reply.value);
    }
  }
}
