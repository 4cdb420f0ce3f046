/**
 * The chat panel under a transcription (`ChatInterface`): a message log that
 * only grows, an input box, and a loading flag, updated by `handleSend`.
 *
 * The network exchange of one send is outside the model: it arrives as an
 * `Exchange`, either a thrown failure or the answer's `reply` and `error`
 * fields.
 */
module ChatPanel {
  import opened JsText
  import opened ChatRoute

  /** What `fetch` followed by `res.json()` gives `handleSend`. */
  datatype Exchange = Failed | Answered(reply: Option<string>, error: Option<string>)

  /** The JSON body posted to the chat endpoint. */
  datatype Payload = Payload(messages: seq<ChatMessage>, context: string)

  const Apology := "Sorry, I encountered an error. Please try again."

  /**
   * The messages appended after the user's own once the exchange is over: the
   * reply when it is truthy, else the error when it is truthy, else nothing; a
   * thrown failure appends the apology.
   */
  function Followup(exchange: Exchange): (r: seq<ChatMessage>)
    ensures |r| <= 1
    ensures r != [] ==> r[0].role == "assistant"
    ensures exchange.Failed? ==> r == [ChatMessage("assistant", Apology)]
    ensures exchange.Answered? && Truthy(exchange.reply) ==> r == [ChatMessage("assistant", exchange.reply.value)]
    ensures exchange.Answered? && !Truthy(exchange.reply) && Truthy(exchange.error) ==>
      r == [ChatMessage("assistant", "Error: " + exchange.error.value)]
    ensures r == [] <==> exchange.Answered? && !Truthy(exchange.reply) && !Truthy(exchange.error)
  {
    match exchange
    case Failed => [ChatMessage("assistant", Apology)]
    case Answered(reply, error) =>
      if Truthy(reply) then [ChatMessage("assistant", reply.value)]
      else if Truthy(error) then [ChatMessage("assistant", "Error: " + error.value)]
      else []
  }

  class ChatInterface {
    /** The spoken text the conversation is about. */
    const contextText: string
    var messages: seq<ChatMessage>
    var input: string
    var loading: bool

    constructor(contextText: string)
      ensures this.contextText == contextText
      ensures messages == [] && input == "" && !loading
    {
      this.contextText := contextText;
      messages := [];
      input := "";
      loading := false;
    }

    /** The input box's `onChange`. */
    method SetInput(value: string)
      modifies this
      ensures input == value
      ensures messages == old(messages) && loading == old(loading)
    {
      input := value;
    }

    /**
     * `handleSend`: a blank input does nothing. Otherwise the input, as typed,
     * is appended as a user message, the box is cleared, the prior messages
     * plus the new one are posted with the context, the outcome is appended,
     * and loading ends. Returns the posted payload, if any.
     */
    method HandleSend(exchange: Exchange) returns (sent: Option<Payload>)
      modifies this
      ensures IsBlank(old(input)) ==>
        sent.None? && messages == old(messages) && input == old(input) && loading == old(loading)
      ensures !IsBlank(old(input)) ==>
        && sent == Some(Payload(old(messages) + [ChatMessage("user", old(input))], contextText))
        && messages == old(messages) + [ChatMessage("user", old(input))] + Followup(exchange)
        && input == ""
        && !loading
      ensures old(messages) <= messages
      ensures |messages| <= |old(messages)| + 2
    {
      if IsBlank(input) {
        return None;
      }
      var prior := messages;
      var newMsg := ChatMessage("user", input);
      messages := messages + [newMsg];
      input := "";
      loading := true;
      var apiMessages := prior + [newMsg];
      sent := Some(Payload(apiMessages, contextText));
      match exchange {
        case Failed =>
          messages := messages + [ChatMessage("assistant", Apology)];
        case Answered(reply, error) =>
          if Truthy(reply) {
            messages := messages + [ChatMessage("assistant", reply.value)];
          } else if Truthy(error) {
            messages := messages + [ChatMessage("assistant", "Error: " + error.value)];
          }
      }
      loading := false;
    }
  }
}
