/**
 * The analysis endpoint (`POST /api/analyze`): checks the request in a fixed
 * order, picks the prompt for the requested mode, asks the language model,
 * strips Markdown code fences from its reply and parses what is left.
 *
 * Reading the request body, the model call and `JSON.parse` are outside the
 * model: they arrive as an `Outcome`, a function from prompt to reply, and a
 * function from text to parsed object (`None` when parsing throws).
 */
module AnalyzeRoute {
  import opened JsText
  import opened Analysis

  /** The two fields the handler destructures from the request body. */
  datatype AnalyzeRequest = AnalyzeRequest(text: Option<string>, mode: Option<string>)

  /** A JSON answer: `{ error: ... }` or the object the model produced. */
  datatype Body = ErrorBody(error: string) | DataBody(data: AnalysisData)

  datatype Response = Response(status: int, body: Body)

  const NoText := Response(400, ErrorBody("No text provided"))
  const MissingKey := Response(500, ErrorBody("Missing GOOGLE_API_KEY on server"))
  const InvalidMode := Response(400, ErrorBody("Invalid mode"))
  const Unparseable := Response(500, ErrorBody("Failed to parse JSON explanation from AI"))

  /** The outer `catch`: the error's message, or a fixed text when it has none. */
  function Failure(message: string): (r: Response)
    ensures r.status == 500 && r.body.ErrorBody? && r.body.error != ""
    ensures message != "" ==> r.body.error == message
    ensures message == "" ==> r.body.error == "Error processing text"
  {
    Response(500, ErrorBody(if message != "" then message else "Error processing text"))
  }

  // ---------------------------------------------------------------------------
  // Prompts. Each ends with the text in double quotes.

  const GrammarPromptHead: string :=
    "You are an expert English teacher focused ONLY on grammar. \n" +
    "      Analyze the following text strictly for CLEAR GRAMMATICAL errors (spelling, punctuation, tense, subject-verb agreement).\n" +
    "      If the sentence is grammatically correct but \"simple\", DO NOT change it.\n" +
    "      \n" +
    "      Return the response in this JSON structure:\n" +
    "      {\n" +
    "        \"correctedText\": \"The text with ONLY essential grammatical corrections applied\",\n" +
    "        \"mistakes\": [\n" +
    "           { \"original\": \"exact original snippet with error\", \"correction\": \"corrected snippet\", \"explanation\": \"Brief reason\" }\n" +
    "        ]\n" +
    "      }\n" +
    "      If there are no mistakes, \"mistakes\" should be an empty array.\n" +
    "      \n" +
    "      Text to analyze: \""
  const ImprovePromptHead: string :=
    "You are a communications coach.\n" +
    "      Rewrite the following text to be \"Professional but Natural\" (Business Casual).\n" +
    "      It should sound articulate and confident, but NOT robotic, overly formal, or using obscure words.\n" +
    "      \n" +
    "      CRITICAL INSTRUCTIONS:\n" +
    "      1. \"improvedText\": The improved business-casual version.\n" +
    "      2. \"tips\": Provide exactly 3 short tips. \n" +
    "         - **MUST cite specific examples** from the text.\n" +
    "         - Format: \"Changed 'x' to 'y' to [benefit]\".\n" +
    "         - MAX 12 words per tip.\n" +
    "\n" +
    "      Return the response in this JSON structure:\n" +
    "      {\n" +
    "        \"improvedText\": \"The improved version\",\n" +
    "        \"tips\": [\"Specific change 1\", \"Specific change 2\", \"Specific change 3\"]\n" +
    "      }\n" +
    "      \n" +
    "      Text to improve: \""
  const CasualPromptHead: string :=
    "You are a friendly conversation partner.\n" +
    "      Rewrite the following text to be \"Natural, Clear, and Friendly\".\n" +
    "      It should sound like easy, everyday conversational English.\n" +
    "      Avoid overly slangy or teenage-style casualness. Focus on simplicity and friendliness.\n" +
    "      \n" +
    "      CRITICAL INSTRUCTIONS:\n" +
    "      1. \"improvedText\": The natural and easy version.\n" +
    "      2. \"tips\": Provide exactly 3 short tips.\n" +
    "         - Format: \"Made it clearer by [action]\".\n" +
    "         - MAX 12 words per tip.\n" +
    "\n" +
    "      Return the response in this JSON structure:\n" +
    "      {\n" +
    "        \"improvedText\": \"The improved version\",\n" +
    "        \"tips\": [\"Tip 1\", \"Tip 2\", \"Tip 3\"]\n" +
    "      }\n" +
    "      \n" +
    "      Text to rewrite: \""

  /** The fixed text that precedes the quoted input, for each mode the handler knows. */
  function PromptHead(mode: Option<string>): (head: Option<string>)
    ensures head.Some? <==> mode.Some? && mode.value in {"grammar", "improve", "casual"}
  {
    if mode == Some("grammar") then Some(GrammarPromptHead)
    else if mode == Some("improve") then Some(ImprovePromptHead)
    else if mode == Some("casual") then Some(CasualPromptHead)
    else None
  }

  /** The prompt for a mode, or `None` for a mode outside grammar, improve and casual. */
  function PromptFor(mode: Option<string>, text: string): (p: Option<string>)
    ensures p.Some? <==> mode.Some? && mode.value in {"grammar", "improve", "casual"}
  {
    match PromptHead(mode)
    case None => None
    case Some(head) => Some(head + text + "\"")
  }

  /** Every prompt quotes the text verbatim as its last part. */
  lemma PromptEmbedsText(mode: Option<string>, text: string)
    requires PromptFor(mode, text).Some?
    ensures var p := PromptFor(mode, text).value;
      |text| + 1 <= |p| && p[|p| - |text| - 1..] == text + "\"" && Occurs(text, p)
  {
    var head := PromptHead(mode).value;
    var p := head + text + "\"";
    assert PromptFor(mode, text).value == p;
    assert p[|p| - |text| - 1..] == text + "\"";
    assert p[|head|..|head| + |text|] == text;
    assert OccursAt(text, p, |head|);
  }

  /** Different modes give different prompts for the same text. */
  lemma PromptsDiffer(text: string)
    ensures PromptFor(Some("grammar"), text) != PromptFor(Some("improve"), text)
    ensures PromptFor(Some("improve"), text) != PromptFor(Some("casual"), text)
    ensures PromptFor(Some("grammar"), text) != PromptFor(Some("casual"), text)
  {
    assert PromptFor(Some("grammar"), text) == Some(GrammarPromptHead + text + "\"");
    assert PromptFor(Some("improve"), text) == Some(ImprovePromptHead + text + "\"");
    assert PromptFor(Some("casual"), text) == Some(CasualPromptHead + text + "\"");
    assert |GrammarPromptHead| != |ImprovePromptHead|;
    assert |ImprovePromptHead| != |CasualPromptHead|;
    assert |GrammarPromptHead| != |CasualPromptHead|;
  }

  // ---------------------------------------------------------------------------
  // Before the model is asked.

  /** What the handler does before any model call: answer at once, or ask with a prompt. */
  datatype Plan = Answer(response: Response) | Ask(prompt: string)

  /**
   * The checks in source order: missing or empty text, then a missing API key,
   * then an unknown mode; otherwise the mode's prompt.
   */
  function PlanFor(req: AnalyzeRequest, apiKey: Option<string>): (plan: Plan)
    ensures !Truthy(req.text) ==> plan == Answer(NoText)
    ensures Truthy(req.text) && !Truthy(apiKey) ==> plan == Answer(MissingKey)
    ensures Truthy(req.text) && Truthy(apiKey) ==>
      (plan.Ask? <==> req.mode.Some? && req.mode.value in {"grammar", "improve", "casual"})
    ensures Truthy(req.text) && Truthy(apiKey) && plan.Answer? ==> plan == Answer(InvalidMode)
    ensures plan.Ask? ==> PromptFor(req.mode, req.text.value) == Some(plan.prompt)
  {
    if !Truthy(req.text) then Answer(NoText)
    else if !Truthy(apiKey) then Answer(MissingKey)
    else match PromptFor(req.mode, req.text.value)
      case None => Answer(InvalidMode)
      case Some(p) => Ask(p)
  }

  // ---------------------------------------------------------------------------
  // Cleaning the reply.

  const Fence := "```"
  const JsonFence := "```json"

  /** `textResult.replace(/```json/g, '').replace(/```/g, '').trim()`. */
  function Clean(reply: string): (r: string)
    ensures |r| <= |reply|
  {
    Trim(RemoveAll(RemoveAll(reply, JsonFence), Fence))
  }

  /** Removal keeps a first character that is not a backtick. */
  lemma FenceRemovalKeepsHead(t: string)
    requires t != [] && t[0] != '`'
    ensures RemoveAll(t, Fence) != [] && RemoveAll(t, Fence)[0] == t[0]
  {
    if |t| >= |Fence| {
      assert t[..3][0] != Fence[0];
    }
  }

  /** Past the first character of `[c] + t`, only an occurrence in `t` could occur. */
  lemma NoOccurrenceAfterHead(p: string, c: char, t: string, i: nat)
    requires 1 <= i && !Occurs(p, t)
    ensures !OccursAt(p, [c] + t, i)
  {
    if i + |p| <= |[c] + t| {
      assert ([c] + t)[i..i + |p|] == t[i - 1..i - 1 + |p|];
      assert !OccursAt(p, t, i - 1);
    }
  }

  /**
   * Removing every fence leaves no fence behind: the scan removes the first
   * three backticks of each run, so every run ends up shorter than three.
   */
  lemma {:induction false} FenceRemovalComplete(s: string)
    ensures !Occurs(Fence, RemoveAll(s, Fence))
    decreases |s|
  {
    var r := RemoveAll(s, Fence);
    if |s| < |Fence| {
      assert r == s;
    } else if s[..3] == Fence {
      FenceRemovalComplete(s[3..]);
    } else {
      var t := RemoveAll(s[1..], Fence);
      FenceRemovalComplete(s[1..]);
      assert r == [s[0]] + t;
      forall i: nat | i <= |r|
        ensures !OccursAt(Fence, r, i)
      {
        if i + |Fence| > |r| {
        } else if i > 0 {
          NoOccurrenceAfterHead(Fence, s[0], t, i);
        } else if s[0] != '`' {
          assert r[0] != Fence[0];
        } else if s[1] != '`' {
          FenceRemovalKeepsHead(s[1..]);
          assert r[1] != Fence[1];
        } else {
          assert s[2] != '`' by {
            assert s[..3] == [s[0], s[1], s[2]];
          }
          if |s| == 3 {
            assert t == s[1..];
          } else {
            assert s[1..][..3] != Fence by {
              assert s[1..][..3][1] == s[2];
            }
            var u := RemoveAll(s[2..], Fence);
            assert s[1..][1..] == s[2..];
            assert t == [s[1]] + u;
            FenceRemovalKeepsHead(s[2..]);
          }
          assert r[2] != Fence[2];
        }
      }
    }
  }

  /** A string without a fence has none in any slice. */
  lemma NoFenceInSlice(s: string, a: nat, b: nat)
    requires a <= b <= |s| && !Occurs(Fence, s)
    ensures !Occurs(Fence, s[a..b])
  {
    if Occurs(Fence, s[a..b]) {
      OccursInSlice(Fence, s, a, b);
    }
  }

  /** The cleaned reply contains no code fence at all. */
  lemma CleanHasNoFence(reply: string)
    ensures !Occurs(Fence, Clean(reply))
  {
    var r := RemoveAll(RemoveAll(reply, JsonFence), Fence);
    assert !Occurs(Fence, r) by {
      FenceRemovalComplete(RemoveAll(reply, JsonFence));
    }
    var t := TrimStart(r);
    assert !Occurs(Fence, t) by {
      NoFenceInSlice(r, |r| - |t|, |r|);
      assert r[|r| - |t|..|r|] == t;
    }
    assert !Occurs(Fence, TrimEnd(t)) by {
      NoFenceInSlice(t, 0, |TrimEnd(t)|);
    }
  }

  /** A reply without fences is only trimmed. */
  lemma CleanKeepsBareReply(reply: string)
    requires !Occurs(Fence, reply)
    ensures Clean(reply) == Trim(reply)
  {
    if Occurs(JsonFence, reply) {
      var i: nat :| i <= |reply| && OccursAt(JsonFence, reply, i);
      assert reply[i..i + 7][..3] == reply[i..i + 3];
      assert OccursAt(Fence, reply, i);
    }
    RemoveAllAbsent(reply, JsonFence);
    RemoveAllAbsent(reply, Fence);
  }

  /** Cleaning twice is cleaning once. */
  lemma CleanIdempotent(reply: string)
    ensures Clean(Clean(reply)) == Clean(reply)
  {
    CleanHasNoFence(reply);
    CleanKeepsBareReply(Clean(reply));
    TrimIdempotent(RemoveAll(RemoveAll(reply, JsonFence), Fence));
  }

  predicate NoBackticks(s: string) {
    forall i :: 0 <= i < |s| ==> s[i] != '`'
  }

  lemma {:induction false} FenceRemovalDropsClosingFence(json: string)
    requires NoBackticks(json)
    ensures RemoveAll(json + Fence, Fence) == json
    decreases |json|
  {
    if json == [] {
      assert json + Fence == Fence;
      assert Fence[3..] == [];
    } else {
      var s := json + Fence;
      assert s[..3][0] == json[0];
      assert s[1..] == json[1..] + Fence;
      FenceRemovalDropsClosingFence(json[1..]);
      assert json == [json[0]] + json[1..];
    }
  }

  /** A reply of the form "```json" + object + "```" cleans to the trimmed object. */
  lemma CleanUnwrapsFencedJson(json: string)
    requires NoBackticks(json)
    ensures Clean(JsonFence + json + Fence) == Trim(json)
  {
    var s := JsonFence + json + Fence;
    assert s[..7] == JsonFence;
    assert s[7..] == json + Fence;
    var rest := json + Fence;
    forall i: nat | i <= |rest|
      ensures !OccursAt(JsonFence, rest, i)
    {
      if i + |JsonFence| <= |rest| {
        assert rest[i..i + 7][0] == json[i];
      }
    }
    RemoveAllAbsent(rest, JsonFence);
    FenceRemovalDropsClosingFence(json);
  }

  // ---------------------------------------------------------------------------
  // After the model is asked.

  /**
   * The model's reply turned into the answer: a thrown error goes to the outer
   * `catch`; otherwise the cleaned reply is parsed, and a parse failure gives
   * the fixed 500 answer with no partial result.
   */
  function Finish(reply: Outcome<string>, parse: string -> Option<AnalysisData>): (r: Response)
    ensures r.status == 200 <==> reply.Returned? && parse(Clean(reply.value)).Some?
    ensures r.status == 200 ==> r.body == DataBody(parse(Clean(reply.value)).value)
    ensures reply.Returned? && parse(Clean(reply.value)).None? ==> r == Unparseable
    ensures reply.Threw? ==> r == Failure(reply.message)
  {
    match reply
    case Threw(message) => Failure(message)
    case Returned(textResult) =>
      match parse(Clean(textResult))
      case None => Unparseable
      case Some(json) => Response(200, DataBody(json))
  }

  /**
   * The whole handler. `body` is what `request.json()` yields, `apiKey` the
   * environment variable, `model` the model call and `parse` `JSON.parse`.
   */
  function Post(body: Outcome<AnalyzeRequest>, apiKey: Option<string>,
                model: string -> Outcome<string>, parse: string -> Option<AnalysisData>): (r: Response)
    ensures body.Threw? ==> r == Failure(body.message)
    ensures body.Returned? && PlanFor(body.value, apiKey).Answer? ==> r == PlanFor(body.value, apiKey).response
    ensures body.Returned? && PlanFor(body.value, apiKey).Ask? ==> r == Finish(model(PlanFor(body.value, apiKey).prompt), parse)
    ensures r.status in {200, 400, 500}
    ensures r.status != 200 <==> r.body.ErrorBody?
  {
    match body
    case Threw(message) => Failure(message)
    case Returned(req) =>
      match PlanFor(req, apiKey)
      case Answer(response) => response
      case Ask(prompt) => Finish(model(prompt), parse)
  }

  /** When the handler answers before the model call, the model plays no part in the answer. */
  lemma RejectionsSkipModel(body: Outcome<AnalyzeRequest>, apiKey: Option<string>,
                            m1: string -> Outcome<string>, m2: string -> Outcome<string>,
                            parse: string -> Option<AnalysisData>)
    requires body.Threw? || PlanFor(body.value, apiKey).Answer?
    ensures Post(body, apiKey, m1, parse) == Post(body, apiKey, m2, parse)
  {
  }

  /** The empty-text check comes first: it answers 400 whatever the key and the mode. */
  lemma NoTextBeforeKey(req: AnalyzeRequest, apiKey: Option<string>,
                        model: string -> Outcome<string>, parse: string -> Option<AnalysisData>)
    requires !Truthy(req.text)
    ensures Post(Returned(req), apiKey, model, parse) == NoText
  {
  }

  /** With text and key present, an unknown mode answers 400 "Invalid mode", whatever the model would say. */
  lemma UnknownModeRejected(text: string, mode: Option<string>, apiKey: Option<string>,
                            model: string -> Outcome<string>, parse: string -> Option<AnalysisData>)
    requires text != "" && Truthy(apiKey)
    requires mode.None? || mode.value !in {"grammar", "improve", "casual"}
    ensures Post(Returned(AnalyzeRequest(Some(text), mode)), apiKey, model, parse) == InvalidMode
  {
  }
}
