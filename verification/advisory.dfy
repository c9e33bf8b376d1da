/** The decision logic of `GET /analyze-compliance/{ref_id}`: find the
    saved assessment for (ref_id, year), and either answer that there is
    nothing to analyse or ask the local text-generation service for an
    opinion and pass its answer, or its failure, back as a message. The
    service is a parameter `chat`: the outcome it gives for a prompt. */
module Advisory {
  import opened Wrappers
  import opened Records
  import opened Query
  import opened Assessments

  /** The year analysed when the request names none. */
  const DefaultYear: int := 2026

  const SaveFirstMessage: string :=
    "Please save your implementation statement first before asking for AI analysis."

  const PromptLead: string := "As a NIST auditor, review the following for "
  const PromptMid: string := ": '"
  const PromptTail: string := "'. Is this sufficient? Give a concise 2-sentence expert opinion."

  const ErrorLead: string := "AI Engine Error: Ensure Ollama is running. ("
  const ErrorTail: string := ")"

  /** What the text-generation service answers to a prompt: its reply text,
      or the message of the failure it raised. */
  type Chat = string -> Result<string, string>

  /** The outcome of one analysis request: the prompt sent to the service
      (None when the service was not called) and the `ai_analysis` text. */
  datatype Analysis = Analysis(prompt: Option<string>, aiAnalysis: string)

  function BuildPrompt(refId: string, statement: string): string {
    PromptLead + refId + PromptMid + statement + PromptTail
  }

  /** Reads the statement back out of a prompt built for `refId`. */
  function PromptStatement(refId: string, p: string): Option<string> {
    var head := PromptLead + refId + PromptMid;
    if |head| + |PromptTail| <= |p| && p[..|head|] == head && p[|p| - |PromptTail|..] == PromptTail
    then Some(p[|head|..|p| - |PromptTail|])
    else None
  }

  /** The prompt carries the control and the statement verbatim: the
      statement can be read back from it. */
  lemma PromptRoundTrip(refId: string, statement: string)
    ensures PromptStatement(refId, BuildPrompt(refId, statement)) == Some(statement)
  {
  }

  /** The `ai_analysis` text for the service's outcome: its reply unchanged,
      or a diagnostic that embeds the failure message. */
  function EngineReply(outcome: Result<string, string>): string {
    match outcome
    case Ok(text) => text
    case Err(msg) => ErrorLead + msg + ErrorTail
  }

  /** Reads the failure message back out of a diagnostic. */
  function ErrorDetail(text: string): Option<string> {
    if |ErrorLead| + |ErrorTail| <= |text| && text[..|ErrorLead|] == ErrorLead
       && text[|text| - |ErrorTail|..] == ErrorTail
    then Some(text[|ErrorLead|..|text| - |ErrorTail|])
    else None
  }

  /** A failure is reported with its whole message: the diagnostic gives it
      back unchanged. */
  lemma ErrorRoundTrip(msg: string)
    ensures ErrorDetail(EngineReply(Err(msg))) == Some(msg)
  {
  }

  /** The analysis request. `year` is None when the request leaves it out. */
  function AnalyzeCompliance(store: Store, refId: string, year: Option<int>, chat: Chat): (a: Analysis)
    // no saved statement: the fixed advice, and the service is not called
    ensures !HasKey(store, Key(refId, year.GetOr(DefaultYear))) <==> a.prompt.None?
    ensures a.prompt.None? ==> a.aiAnalysis == SaveFirstMessage
    // a saved statement: the prompt names the control and quotes the
    // statement of the record with exactly that control and year
    ensures a.prompt.Some? ==>
              exists i :: IsFirst(store, WithKey(Key(refId, year.GetOr(DefaultYear))), i) &&
                a.prompt.value == BuildPrompt(refId, store[i].implementationStatement)
    // the service's reply verbatim, or its failure turned into a message
    ensures a.prompt.Some? ==>
              match chat(a.prompt.value)
              case Ok(text) => a.aiAnalysis == text
              case Err(msg) => a.aiAnalysis == ErrorLead + msg + ErrorTail
  {
    var key := Key(refId, year.GetOr(DefaultYear));
    match FirstIndex(store, WithKey(key))
    case None => Analysis(None, SaveFirstMessage)
    case Some(i) =>
      var prompt := BuildPrompt(store[i].refId, store[i].implementationStatement);
      Analysis(Some(prompt), EngineReply(chat(prompt)))
  }

  /** Right after a submission, analysing the same control and year quotes
      the statement just submitted. */
  lemma AnalysisSeesLatestSubmission(store: Store, d: AssessmentCreate, now: Timestamp, chat: Chat)
    ensures AnalyzeCompliance(CreateAssessment(store, d, now), d.refId, Some(d.auditYear), chat).prompt
         == Some(BuildPrompt(d.refId, d.implementationStatement))
  {
  }
}
