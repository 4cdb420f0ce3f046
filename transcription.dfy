/**
 * The transcription screen (`TranscriptionView`): runs the three analyses of
 * the spoken text, keeps their results, saves the session to the cloud
 * table and hands the results to the report generator.
 *
 * The session lookup, the insert, the clock and the analysis request are
 * outside the model: their outcomes arrive as parameters.
 */
module Transcription {
  import opened JsText
  import opened Analysis
  import AnalyzeRoute
  import PrettyDate
  import History

  /** Which result panel is showing. */
  datatype Mode = Idle | GrammarMode | ImproveMode | CasualMode | ChatMode

  /** The three analysis buttons. */
  datatype Action = Grammar | Improve | Casual

  /** The `mode` string sent to the analysis endpoint. */
  function ActionName(a: Action): (name: string)
    ensures name in {"grammar", "improve", "casual"}
  {
    match a
    case Grammar => "grammar"
    case Improve => "improve"
    case Casual => "casual"
  }

  function ModeOf(a: Action): Mode {
    match a
    case Grammar => GrammarMode
    case Improve => ImproveMode
    case Casual => CasualMode
  }

  /** Each button sends its own mode name. */
  lemma ActionNamesDistinct(a: Action, b: Action)
    ensures ActionName(a) == ActionName(b) <==> a == b
    ensures ModeOf(a) == ModeOf(b) <==> a == b
  {
  }

  /** The signed-in user, as far as saving needs it. */
  datatype Session = Session(userId: string)

  /** A row inserted into the cloud history table: the timestamp, the session texts under the snake_case columns, and the owner. */
  datatype Row = Row(date: string, fields: History.Versions, userId: string)

  /** What the user is told: nothing, the sign-in screen, or an alert. */
  datatype Notice = Silent | SignInRequested | Alert(message: string)

  const LoginPrompt := "Please log in to save your sessions to the cloud."
  const SavedMessage := "Success! Your Learning Journey has been updated. \U{2728}"
  const AnalysisFailed := "Error analyzing text"

  /**
   * The texts of the saved row: the transcript always, and each version only
   * when its analysis has run and produced that text (`result?.text`).
   */
  function SavedFields(originalText: string, grammarResult: Option<AnalysisData>,
                       improveResult: Option<AnalysisData>, casualResult: Option<AnalysisData>): (v: History.Versions)
    ensures v.originalText == Some(originalText)
    ensures v.grammar.Some? <==> grammarResult.Some? && grammarResult.value.correctedText.Some?
    ensures v.grammar.Some? ==> v.grammar == grammarResult.value.correctedText
    ensures v.professional.Some? <==> improveResult.Some? && improveResult.value.improvedText.Some?
    ensures v.professional.Some? ==> v.professional == improveResult.value.improvedText
    ensures v.casual.Some? <==> casualResult.Some? && casualResult.value.improvedText.Some?
    ensures v.casual.Some? ==> v.casual == casualResult.value.improvedText
  {
    History.Versions(
      Some(originalText),
      if grammarResult.Some? then grammarResult.value.correctedText else None,
      if improveResult.Some? then improveResult.value.improvedText else None,
      if casualResult.Some? then casualResult.value.improvedText else None)
  }

  class TranscriptionView {
    const originalText: string
    /** Whether the parent passed `onRequireAuth`. */
    const hasAuthCallback: bool
    var mode: Mode
    var loading: bool
    var grammarResult: Option<AnalysisData>
    var improveResult: Option<AnalysisData>
    var casualResult: Option<AnalysisData>
    var isSaved: bool

    constructor(originalText: string, hasAuthCallback: bool)
      ensures this.originalText == originalText && this.hasAuthCallback == hasAuthCallback
      ensures mode == Idle && !loading && !isSaved
      ensures grammarResult.None? && improveResult.None? && casualResult.None?
    {
      this.originalText := originalText;
      this.hasAuthCallback := hasAuthCallback;
      mode := Idle;
      loading := false;
      grammarResult := None;
      improveResult := None;
      casualResult := None;
      isSaved := false;
    }

    /** The stored result of an action. */
    function ResultOf(a: Action): Option<AnalysisData>
      reads this
    {
      match a
      case Grammar => grammarResult
      case Improve => improveResult
      case Casual => casualResult
    }

    /**
     * `saveSession`: without a session nothing is written and the user is
     * sent to sign in (or alerted); otherwise the row is inserted, and only
     * an insert without error marks the session saved.
     */
    method SaveSession(session: Option<Session>, now: string, insertError: Option<string>)
      returns (inserted: Option<Row>, notice: Notice)
      modifies this
      ensures session.None? ==> inserted.None? && notice == (if hasAuthCallback then SignInRequested else Alert(LoginPrompt))
      ensures session.Some? ==>
        inserted == Some(Row(now, SavedFields(originalText, grammarResult, improveResult, casualResult), session.value.userId))
      ensures session.Some? && insertError.Some? ==> notice == Alert("Error saving to cloud: " + insertError.value)
      ensures session.Some? && insertError.None? ==> notice == Alert(SavedMessage)
      ensures isSaved == (old(isSaved) || (session.Some? && insertError.None?))
      ensures mode == old(mode) && loading == old(loading)
      ensures grammarResult == old(grammarResult) && improveResult == old(improveResult) && casualResult == old(casualResult)
    {
      if session.None? {
        inserted := None;
        notice := if hasAuthCallback then SignInRequested else Alert(LoginPrompt);
        return;
      }
      var fields := SavedFields(originalText, grammarResult, improveResult, casualResult);
      inserted := Some(Row(now, fields, session.value.userId));
      if insertError.Some? {
        notice := Alert("Error saving to cloud: " + insertError.value);
        return;
      }
      isSaved := true;
      notice := Alert(SavedMessage);
    }

    /**
     * `handleAction`: shows the action's panel, asks the endpoint for that
     * mode with the transcript, and stores whatever object comes back (an
     * error answer included) as the action's result; a thrown failure keeps
     * the old result and alerts. Loading is over on every path.
     */
    method HandleAction(action: Action, reply: Outcome<AnalysisData>)
      returns (request: AnalyzeRoute.AnalyzeRequest, notice: Notice)
      modifies this
      ensures request == AnalyzeRoute.AnalyzeRequest(Some(originalText), Some(ActionName(action)))
      ensures mode == ModeOf(action) && !loading
      ensures reply.Returned? ==> ResultOf(action) == Some(reply.value) && notice == Silent
      ensures reply.Threw? ==> ResultOf(action) == old(ResultOf(action)) && notice == Alert(AnalysisFailed)
      ensures forall b :: b != action ==> ResultOf(b) == old(ResultOf(b))
      ensures isSaved == old(isSaved)
    {
      loading := true;
      mode := ModeOf(action);
      request := AnalyzeRoute.AnalyzeRequest(Some(originalText), Some(ActionName(action)));
      notice := Silent;
      match reply {
        case Returned(data) =>
          if action == Grammar { grammarResult := Some(data); }
          if action == Improve { improveResult := Some(data); }
          if action == Casual { casualResult := Some(data); }
        case Threw(_) =>
          notice := Alert(AnalysisFailed);
      }
      loading := false;
    }

    /** The chat button: opens the chat panel, or closes it when it is open. */
    method ToggleChat()
      modifies this
      ensures mode == if old(mode) == ChatMode then Idle else ChatMode
      ensures loading == old(loading) && isSaved == old(isSaved)
      ensures grammarResult == old(grammarResult) && improveResult == old(improveResult) && casualResult == old(casualResult)
    {
      mode := if mode == ChatMode then Idle else ChatMode;
    }

    /**
     * `handleDownloadPDF`'s argument: the transcript, the whole grammar
     * result, each tone text or null when it is missing or empty, and the
     * current time made pretty.
     */
    function Report(now: string, reading: PrettyDate.DateReading): (r: ReportInput)
      reads this
      ensures r.originalText == originalText && r.grammarResult == grammarResult
      ensures r.professionalText.Some? <==> improveResult.Some? && Truthy(improveResult.value.improvedText)
      ensures r.professionalText.Some? ==> r.professionalText == improveResult.value.improvedText
      ensures r.casualText.Some? <==> casualResult.Some? && Truthy(casualResult.value.improvedText)
      ensures r.casualText.Some? ==> r.casualText == casualResult.value.improvedText
      ensures r.date == PrettyDate.FormatPrettyDate(now, reading)
    {
      ReportInput(
        originalText,
        grammarResult,
        OrNull(if improveResult.Some? then improveResult.value.improvedText else None),
        OrNull(if casualResult.Some? then casualResult.value.improvedText else None),
        PrettyDate.FormatPrettyDate(now, reading))
    }
  }
}
