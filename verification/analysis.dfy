/** The request pipeline of `analyzeTextAction`: configuration check,
    validation, local metrics, the model call, normalisation of its reply and
    assembly of the result, with the action's error mapping. */
module Analysis {
  import opened Wrappers
  import opened Whitespace
  import opened Fence
  import opened Response

  /** Longest accepted text, counted after trimming. */
  const MaxTextLength: nat := 5000

  /** What the action resolves with. */
  datatype AnalysisResult = AnalysisResult(
    wordCount: nat,
    charCount: nat,
    sentiment: string,
    topics: string,
    summary: string,
    timestamp: string)

  /** The errors the action rejects with, one per `throw`. */
  datatype AnalysisError = MissingApiKey | TextRequired | TextTooLong | AnalysisFailed

  /** The generic message of every failure inside the action's outer try. */
  const GenericFailure: string := "Failed to analyze text. Please try again."

  /** The message of the `Error` each case throws. Only a failure after
      validation carries the generic message. */
  function Message(e: AnalysisError): (msg: string)
    ensures msg == GenericFailure <==> e == AnalysisFailed
  {
    match e
    case MissingApiKey => "GEMINI_API_KEY not found in environment variables"
    case TextRequired => "Text is required"
    case TextTooLong => "Text too long (max 5000 characters)"
    case AnalysisFailed => GenericFailure
  }

  /** Each error has its own message: no two errors read alike. */
  lemma MessageInjective(e1: AnalysisError, e2: AnalysisError)
    ensures Message(e1) == Message(e2) ==> e1 == e2
  {
  }

  /** The outcome of the model call: the reply's content, as `String(...)`
      renders it, or a rejection. */
  datatype ModelReply = Reply(content: string) | InvokeFailed

  /** `process.env.GEMINI_API_KEY` is set to a non-empty string. */
  predicate HasApiKey(apiKey: Option<string>)
  {
    apiKey.Some? && apiKey.value != ""
  }

  /** `inputText ?? ""` */
  function OrEmpty(inputText: Option<string>): string
  {
    if inputText.Some? then inputText.value else ""
  }

  /** The checks made before the model is called, in the order the action
      makes them: the credential first, whatever the input, then the trimmed
      text for emptiness and then for length. The accepted text is the trimmed
      input, which starts and ends with a non-whitespace character. */
  function Validate(apiKey: Option<string>, inputText: Option<string>): (r: Result<string, AnalysisError>)
    ensures !HasApiKey(apiKey) ==> r == Failure(MissingApiKey)
    ensures HasApiKey(apiKey) && AllWs(OrEmpty(inputText)) ==> r == Failure(TextRequired)
    ensures HasApiKey(apiKey) && |Trim(OrEmpty(inputText))| > MaxTextLength ==> r == Failure(TextTooLong)
    ensures r.Success? <==> HasApiKey(apiKey) && 0 < |Trim(OrEmpty(inputText))| <= MaxTextLength
    ensures r.Success? ==>
      && r.value == Trim(OrEmpty(inputText))
      && !IsWs(r.value[0]) && !IsWs(r.value[|r.value| - 1])
  {
    TrimEmptyIffAllWs(OrEmpty(inputText));
    if !HasApiKey(apiKey) then
      Failure(MissingApiKey)
    else
      var text := Trim(OrEmpty(inputText));
      if text == [] then Failure(TextRequired)
      else if |text| > MaxTextLength then Failure(TextTooLong)
      else Success(text)
  }

  /** The counts computed locally from the text. */
  datatype Metrics = Metrics(wordCount: nat, charCount: nat)

  /** Word count as `split(/\s+/).filter(Boolean).length` and character count
      as `length`: the number of maximal non-whitespace runs and the number of
      characters. A trimmed, non-empty text has at least one word and no more
      words than characters. */
  function LocalMetrics(text: string): (m: Metrics)
    ensures m.wordCount == RunCount(text)
    ensures m.charCount == |text|
    ensures text != [] && !IsWs(text[0]) ==> 1 <= m.wordCount <= m.charCount
  {
    WordCountIsRunCount(text);
    WordCountBounds(text);
    Metrics(WordCount(text), |text|)
  }

  /** `analyzeTextAction(inputText)` for a given configuration, model outcome,
      parser and completion time `now`.

      The configuration error wins over every input; then the validation
      errors, each with its own message. After validation the only error is
      the generic one, and it arises exactly when the model call fails: a
      reply that does not parse still yields a full result. The counts depend
      on the input alone, and the analysis fields on the reply alone. */
  function Analyze(
    apiKey: Option<string>,
    inputText: Option<string>,
    reply: ModelReply,
    parse: string -> Option<FieldMap>,
    now: string): (r: Result<AnalysisResult, AnalysisError>)
    ensures !HasApiKey(apiKey) ==> r == Failure(MissingApiKey)
    ensures HasApiKey(apiKey) && AllWs(OrEmpty(inputText)) ==> r == Failure(TextRequired)
    ensures HasApiKey(apiKey) && |Trim(OrEmpty(inputText))| > MaxTextLength ==> r == Failure(TextTooLong)
    ensures r.Success? <==>
      HasApiKey(apiKey) && 0 < |Trim(OrEmpty(inputText))| <= MaxTextLength && reply.Reply?
    ensures r == Failure(AnalysisFailed) <==>
      HasApiKey(apiKey) && 0 < |Trim(OrEmpty(inputText))| <= MaxTextLength && reply.InvokeFailed?
    ensures r.Success? ==>
      && r.value.charCount == |Trim(OrEmpty(inputText))|
      && r.value.wordCount == RunCount(Trim(OrEmpty(inputText)))
      && 1 <= r.value.wordCount <= r.value.charCount <= MaxTextLength
      && r.value.timestamp == now
    ensures r.Success? ==>
      Fields(r.value.sentiment, r.value.topics, r.value.summary) == Normalize(reply.content, parse)
  {
    match Validate(apiKey, inputText)
    case Failure(e) => Failure(e)
    case Success(text) =>
      var metrics := LocalMetrics(text);
      match reply
      case InvokeFailed => Failure(AnalysisFailed)
      case Reply(content) =>
        var f := Normalize(content, parse);
        Success(AnalysisResult(metrics.wordCount, metrics.charCount, f.sentiment, f.topics, f.summary, now))
  }

  /** Two runs on the same input report the same counts, whatever the model
      replied, however the reply parsed and whenever they completed. */
  lemma CountsIgnoreReply(
    apiKey: Option<string>, inputText: Option<string>,
    reply1: ModelReply, parse1: string -> Option<FieldMap>, now1: string,
    reply2: ModelReply, parse2: string -> Option<FieldMap>, now2: string)
    requires Analyze(apiKey, inputText, reply1, parse1, now1).Success?
    requires Analyze(apiKey, inputText, reply2, parse2, now2).Success?
    ensures Analyze(apiKey, inputText, reply1, parse1, now1).value.wordCount
         == Analyze(apiKey, inputText, reply2, parse2, now2).value.wordCount
    ensures Analyze(apiKey, inputText, reply1, parse1, now1).value.charCount
         == Analyze(apiKey, inputText, reply2, parse2, now2).value.charCount
  {
  }

  /** A reply that does not parse never fails the request: the result carries
      the default sentiment and topics and, as summary, the first
      min(120, length) characters of the raw reply. */
  lemma UnparsableReplyDegrades(
    apiKey: Option<string>, inputText: Option<string>, content: string,
    parse: string -> Option<FieldMap>, now: string)
    requires HasApiKey(apiKey) && 0 < |Trim(OrEmpty(inputText))| <= MaxTextLength
    requires parse(CleanReply(content)).None?
    ensures var r := Analyze(apiKey, inputText, Reply(content), parse, now);
      && r.Success?
      && r.value.sentiment == UnknownSentiment
      && r.value.topics == ""
      && |r.value.summary| == (if |content| <= FallbackSummaryLength then |content| else FallbackSummaryLength)
      && r.value.summary <= content
  {
  }
}
