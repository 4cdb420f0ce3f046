/**
 * Properties that span the client components and the two endpoints: what a
 * saved session looks like when the history list reads it back, what the
 * analysis buttons can get from the endpoint, and what the chat panel's
 * payload becomes on the server.
 */
module Flows {
  import opened JsText
  import opened Analysis
  import opened Highlight
  import AnalyzeRoute
  import ChatRoute
  import ChatPanel
  import PrettyDate
  import History
  import Transcription

  /**
   * A row saved from the transcription screen, read back by the history list
   * as a cloud entry: the same transcript, the same tone texts in the report,
   * a grammar section exactly when a non-empty corrected text was saved (but
   * without its mistakes), and the raw timestamp instead of the pretty date.
   */
  lemma SavedRowReadsBack(view: Transcription.TranscriptionView, now: string, userId: string,
                          id: string, reading: PrettyDate.DateReading)
    requires view.originalText != ""
    ensures var row := Transcription.Row(now, Transcription.SavedFields(view.originalText,
                         view.grammarResult, view.improveResult, view.casualResult), userId);
      var item := History.Item(id, row.date, row.fields, History.NoVersions);
      var report := History.ItemReport(item);
      && History.Read(item, History.OriginalField) == Some(view.originalText)
      && report.originalText == view.Report(now, reading).originalText
      && report.professionalText == view.Report(now, reading).professionalText
      && report.casualText == view.Report(now, reading).casualText
      && (report.grammarResult.Some? <==>
            view.grammarResult.Some? && Truthy(view.grammarResult.value.correctedText))
      && (report.grammarResult.Some? ==>
            report.grammarResult.value.correctedText == view.grammarResult.value.correctedText &&
            report.grammarResult.value.mistakes == Some([]))
      && report.date == now
  {
  }

  /** What the client stores from an answer of the analysis endpoint: the object, or one with none of the read fields. */
  function ClientData(body: AnalyzeRoute.Body): (d: AnalysisData)
    ensures body.ErrorBody? ==> d == NoFields
    ensures body.DataBody? ==> d == body.data
  {
    match body
    case ErrorBody(_) => NoFields
    case DataBody(data) => data
  }

  /**
   * A request from an analysis button is never answered "Invalid mode": it is
   * refused only for an empty transcript or a missing key, and otherwise asks
   * the model with a prompt that quotes the transcript.
   */
  lemma ButtonRequestsAreValid(text: string, action: Transcription.Action, apiKey: Option<string>)
    ensures var plan := AnalyzeRoute.PlanFor(AnalyzeRoute.AnalyzeRequest(Some(text), Some(Transcription.ActionName(action))), apiKey);
      && plan != AnalyzeRoute.Answer(AnalyzeRoute.InvalidMode)
      && (plan.Answer? <==> text == "" || !Truthy(apiKey))
      && (plan.Ask? ==> Occurs(text, plan.prompt))
  {
    var req := AnalyzeRoute.AnalyzeRequest(Some(text), Some(Transcription.ActionName(action)));
    var plan := AnalyzeRoute.PlanFor(req, apiKey);
    if plan.Ask? {
      AnalyzeRoute.PromptEmbedsText(req.mode, text);
    }
  }

  /**
   * An empty transcript is refused before the model is asked, the refusal is
   * stored as a result with no mistakes, and the first highlight pass then
   * shows the transcript plain.
   */
  lemma EmptyTranscriptShowsPlain(action: Transcription.Action, apiKey: Option<string>,
                                  model: string -> Outcome<string>, parse: string -> Option<AnalysisData>)
    ensures var r := AnalyzeRoute.Post(Returned(AnalyzeRoute.AnalyzeRequest(Some(""), Some(Transcription.ActionName(action)))),
                                       apiKey, model, parse);
      && r == AnalyzeRoute.NoText
      && MistakesOf(ClientData(r.body)) == []
      && HasNeedles(MistakesOf(ClientData(r.body)), OriginalSide)
      && HighlightPass("", MistakesOf(ClientData(r.body)), OriginalSide) == [Run("", false)]
  {
    NoRealEditsPlain("", [], OriginalSide);
  }

  /** What the chat panel makes of an answer of the chat endpoint. */
  function ExchangeOf(r: ChatRoute.Response): (x: ChatPanel.Exchange)
    ensures r.body.ReplyBody? ==> x == ChatPanel.Answered(Some(r.body.reply), None)
    ensures r.body.ErrorBody? ==> x == ChatPanel.Answered(None, Some(r.body.error))
  {
    match r.body
    case ReplyBody(reply) => ChatPanel.Answered(Some(reply), None)
    case ErrorBody(error) => ChatPanel.Answered(None, Some(error))
  }

  /**
   * The panel's payload reaches the model as intended: the message sent is the
   * text just typed, and the history is the two priming turns followed by
   * every earlier message, the assistant's replies as model turns.
   */
  lemma PayloadReachesModel(prior: seq<ChatRoute.ChatMessage>, input: string, context: string)
    requires context != ""
    requires forall m :: m in prior ==> m.role in {"user", "assistant"}
    ensures var plan := ChatRoute.PlanFor(ChatRoute.ChatRequest(Some(prior + [ChatRoute.ChatMessage("user", input)]), Some(context)));
      && plan.Send?
      && plan.message == input
      && |plan.history| == |prior| + 2
      && plan.history[0] == ChatRoute.Priming(context)
      && forall i :: 0 <= i < |prior| ==>
           plan.history[i + 2] == ChatRoute.Turn(if prior[i].role == "assistant" then "model" else "user", prior[i].content)
  {
    var m := ChatRoute.ChatMessage("user", input);
    ChatRoute.LastMessageNotInHistory(context, prior, m, m);
    forall i | 0 <= i < |prior|
      ensures prior[i].role in {"user", "assistant"}
    {
      assert prior[i] in prior;
    }
  }

  /**
   * A panel opened on an empty transcript gets the endpoint's 400 for every
   * message, and shows it as an assistant message.
   */
  lemma EmptyContextAnswersMissingFields(messages: seq<ChatRoute.ChatMessage>,
                                         model: (seq<ChatRoute.Turn>, string) -> Outcome<string>)
    ensures var r := ChatRoute.Post(Returned(ChatRoute.ChatRequest(Some(messages), Some(""))), model);
      && r == ChatRoute.MissingFields
      && ChatPanel.Followup(ExchangeOf(r)) == [ChatRoute.ChatMessage("assistant", "Error: Missing required fields")]
  {
    var x := ChatPanel.Answered(None, Some("Missing required fields"));
    assert !Truthy(x.reply) && Truthy(x.error);
    assert "Error: " + "Missing required fields" == "Error: Missing required fields";
  }
}
