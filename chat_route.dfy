/**
 * The chat endpoint (`POST /api/chat`): checks the request, builds the
 * conversation history handed to the language model (two priming turns,
 * then every message but the last) and sends the last message.
 *
 * Reading the request body and the model are outside the model: they arrive
 * as an `Outcome` and as a function from history and message to reply.
 */
module ChatRoute {
  import opened JsText

  /** A message as the client sends it. */
  datatype ChatMessage = ChatMessage(role: string, content: string)

  /** A turn of the model's chat history: `{ role, parts: [{ text }] }`. */
  datatype Turn = Turn(role: string, text: string)

  /** The two fields the handler destructures from the request body. */
  datatype ChatRequest = ChatRequest(messages: Option<seq<ChatMessage>>, context: Option<string>)

  datatype Body = ErrorBody(error: string) | ReplyBody(reply: string)

  datatype Response = Response(status: int, body: Body)

  const MissingFields := Response(400, ErrorBody("Missing required fields"))

  /** The message V8 gives the `TypeError` of reading `content` of `messages[-1]`. */
  const NoLastMessage := "Cannot read properties of undefined (reading 'content')"

  /** The outer `catch`: the error's message, or a fixed text when it has none. */
  function Failure(message: string): (r: Response)
    ensures r.status == 500 && r.body.ErrorBody? && r.body.error != ""
    ensures message != "" ==> r.body.error == message
    ensures message == "" ==> r.body.error == "Error processing chat"
  {
    Response(500, ErrorBody(if message != "" then message else "Error processing chat"))
  }

  const PrimingHead: string :=
    "You are a concise, direct, and structured AI English coach. \n" +
    "          The user spoke the following text: \""
  const PrimingTail: string :=
    "\". \n" +
    "          \n" +
    "          Rules for your responses:\n" +
    "          1. Be extremely concise and to the point.\n" +
    "          2. Use bullet points or numbered lists if explaining multiple things.\n" +
    "          3. Avoid long introductions or conclusions.\n" +
    "          4. Focus on helping the user improve their communication."

  const Acknowledgement := "Understood. I will help the user discuss their spoken text."

  /** The first priming turn, which quotes the spoken text. */
  function Priming(context: string): (t: Turn)
    ensures t.role == "user" && Occurs(context, t.text)
  {
    var text := PrimingHead + context + PrimingTail;
    assert text[|PrimingHead|..|PrimingHead| + |context|] == context;
    assert OccursAt(context, text, |PrimingHead|);
    Turn("user", text)
  }

  /** `m.role === 'user' ? 'user' : 'model'`. */
  function RoleOf(role: string): (r: string)
    ensures r in {"user", "model"}
    ensures r == "user" <==> role == "user"
  {
    if role == "user" then "user" else "model"
  }

  function TurnOf(m: ChatMessage): Turn {
    Turn(RoleOf(m.role), m.content)
  }

  /** `messages.slice(0, -1)`: all but the last message, nothing for an empty list. */
  function AllButLast(messages: seq<ChatMessage>): seq<ChatMessage> {
    if messages == [] then [] else messages[..|messages| - 1]
  }

  function Turns(messages: seq<ChatMessage>): seq<Turn> {
    seq(|messages|, i requires 0 <= i < |messages| => TurnOf(messages[i]))
  }

  /** The history given to `startChat`. */
  function History(context: string, messages: seq<ChatMessage>): seq<Turn> {
    [Priming(context), Turn("model", Acknowledgement)] + Turns(AllButLast(messages))
  }

  /**
   * The history has the two priming turns and then one turn per message
   * except the last, in order, with the role mapped and the content copied.
   */
  lemma HistoryShape(context: string, messages: seq<ChatMessage>)
    requires messages != []
    ensures var h := History(context, messages);
      && |h| == |messages| + 1
      && h[0] == Priming(context) && h[1] == Turn("model", Acknowledgement)
      && forall i :: 0 <= i < |messages| - 1 ==>
           h[i + 2].role == RoleOf(messages[i].role) && h[i + 2].text == messages[i].content
  {
  }

  /** Without messages the history is the two priming turns alone. */
  lemma HistoryOfNoMessages(context: string)
    ensures History(context, []) == [Priming(context), Turn("model", Acknowledgement)]
  {
  }

  /**
   * The history is the same whatever the last message says: the last message
   * is sent on its own, not as part of the history.
   */
  lemma LastMessageNotInHistory(context: string, prior: seq<ChatMessage>, m1: ChatMessage, m2: ChatMessage)
    ensures History(context, prior + [m1]) == History(context, prior + [m2])
    ensures History(context, prior + [m1]) == [Priming(context), Turn("model", Acknowledgement)] + Turns(prior)
  {
    assert (prior + [m1])[..|prior|] == prior;
    assert (prior + [m2])[..|prior|] == prior;
  }

  /** What the handler does before the model answers: answer at once, or send a message with a history. */
  datatype Plan = Answer(response: Response) | Send(history: seq<Turn>, message: string)

  /** The checks in source order: missing fields, then an empty message list (which throws). */
  function PlanFor(req: ChatRequest): (plan: Plan)
    ensures req.messages.None? || !Truthy(req.context) ==> plan == Answer(MissingFields)
    ensures req.messages.Some? && Truthy(req.context) && req.messages.value == [] ==>
      plan == Answer(Failure(NoLastMessage))
    ensures plan.Send? <==> req.messages.Some? && Truthy(req.context) && req.messages.value != []
    ensures plan.Send? ==>
      plan.message == req.messages.value[|req.messages.value| - 1].content &&
      plan.history == History(req.context.value, req.messages.value)
  {
    if req.messages.None? || !Truthy(req.context) then Answer(MissingFields)
    else
      var messages := req.messages.value;
      if messages == [] then Answer(Failure(NoLastMessage))
      else Send(History(req.context.value, messages), messages[|messages| - 1].content)
  }

  /** The whole handler. `body` is what `request.json()` yields and `model` the chat session's answer. */
  function Post(body: Outcome<ChatRequest>, model: (seq<Turn>, string) -> Outcome<string>): (r: Response)
    ensures body.Threw? ==> r == Failure(body.message)
    ensures body.Returned? && PlanFor(body.value).Answer? ==> r == PlanFor(body.value).response
    ensures body.Returned? && PlanFor(body.value).Send? ==>
      var reply := model(PlanFor(body.value).history, PlanFor(body.value).message);
      r == (if reply.Returned? then Response(200, ReplyBody(reply.value)) else Failure(reply.message))
    ensures r.status == 200 <==> r.body.ReplyBody?
  {
    match body
    case Threw(message) => Failure(message)
    case Returned(req) =>
      match PlanFor(req)
      case Answer(response) => response
      case Send(history, message) =>
        match model(history, message)
        case Threw(message) => Failure(message)
        case Returned(reply) => Response(200, ReplyBody(reply))
  }

  /** An empty message list fails with a 500 carrying the `TypeError` message, before the model is asked. */
  lemma EmptyMessagesFail(context: string, model: (seq<Turn>, string) -> Outcome<string>)
    requires context != ""
    ensures Post(Returned(ChatRequest(Some([]), Some(context))), model) == Response(500, ErrorBody(NoLastMessage))
  {
  }

  /** A request missing a field answers 400 whatever the model would say. */
  lemma MissingFieldsSkipModel(req: ChatRequest, m1: (seq<Turn>, string) -> Outcome<string>,
                               m2: (seq<Turn>, string) -> Outcome<string>)
    requires req.messages.None? || !Truthy(req.context)
    ensures Post(Returned(req), m1) == MissingFields && Post(Returned(req), m2) == MissingFields
  {
  }
}
