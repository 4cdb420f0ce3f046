/**
 * Values exchanged between the analysis endpoint, the transcription view,
 * the history list and the report generator.
 */
module Analysis {
  import opened JsText

  /** One claimed correction inside a larger text, as the language model reports it. */
  datatype Edit = Edit(original: string, correction: string, explanation: string)

  /**
   * The JSON object the analysis endpoint answers with, restricted to the
   * fields the client reads. Grammar mode fills `correctedText` and
   * `mistakes`, the two tone modes fill `improvedText` and `tips`; an error
   * answer fills none of them, and any field may be missing.
   */
  datatype AnalysisData = AnalysisData(
    correctedText: Option<string>,
    mistakes: Option<seq<Edit>>,
    improvedText: Option<string>,
    tips: Option<seq<string>>)

  /** The object an error answer (`{ error: ... }`) amounts to, seen through the fields above. */
  const NoFields := AnalysisData(None, None, None, None)

  /** `data.mistakes || []`. */
  function MistakesOf(data: AnalysisData): seq<Edit> {
    if data.mistakes.Some? then data.mistakes.value else []
  }

  /** The argument handed to the report generator. */
  datatype ReportInput = ReportInput(
    originalText: string,
    grammarResult: Option<AnalysisData>,
    professionalText: Option<string>,
    casualText: Option<string>,
    date: string)
}
