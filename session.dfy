/**
 * The two session-state entries the sidebar reads and writes across reruns,
 * `analysis_result` and `pdf_name`, and the actions that change them.
 */
module Session {
  import opened Wrappers
  import opened Json
  import opened PdfText
  import opened Analyzer

  /**
   * Analyze stores a result only when the extracted text is non-empty
   * (`if pdf_text:`) and the analysis produced a truthy value (`if result:`).
   */
  predicate Stores(pdfText: Option<string>, outcome: Outcome) {
    pdfText.Some? && pdfText.value != [] && outcome.Analyzed? && Truthy(outcome.result)
  }

  class SessionState {
    var analysisResult: Option<Value>
    var pdfName: Option<string>

    /** A stored result is always one the view and the export act on. */
    ghost predicate Valid()
      reads this
    {
      analysisResult.Some? ==> Truthy(analysisResult.value)
    }

    /** `if st.session_state.analysis_result:`, which guards the export and the Clear button. */
    predicate HasResult()
      reads this
      ensures HasResult() ==> analysisResult.Some?
      ensures Valid() ==> (HasResult() <==> analysisResult.Some?)
    {
      analysisResult.Some? && Truthy(analysisResult.value)
    }

    /** First run: both entries are initialised to `None`. */
    constructor ()
      ensures Valid()
      ensures analysisResult == None && pdfName == None
    {
      analysisResult := None;
      pdfName := None;
    }

    /** A rerun with `uploaded` as the uploader's value: a file present sets `pdf_name`. */
    method Upload(uploaded: Option<string>)
      requires Valid()
      modifies this
      ensures Valid()
      ensures pdfName == (if uploaded.Some? then uploaded else old(pdfName))
      ensures analysisResult == old(analysisResult)
    {
      if uploaded.Some? {
        pdfName := uploaded;
      }
    }

    /**
     * The Analyze button, given what extraction returned and what the
     * analysis ended in; a failure at either step leaves the previous
     * result in place.
     */
    method Analyze(pdfText: Option<string>, outcome: Outcome)
      requires Valid()
      modifies this
      ensures Valid()
      ensures analysisResult == (if Stores(pdfText, outcome) then Some(outcome.result) else old(analysisResult))
      ensures pdfName == old(pdfName)
    {
      if pdfText.Some? && pdfText.value != [] {
        if outcome.Analyzed? && Truthy(outcome.result) {
          analysisResult := Some(outcome.result);
        }
      }
    }

    /**
     * The Clear Analysis button, which is shown only while a result is
     * stored; it resets both entries.
     */
    method Clear()
      requires Valid()
      modifies this
      ensures Valid()
      ensures old(HasResult()) ==> analysisResult == None && pdfName == None
      ensures !old(HasResult()) ==> analysisResult == old(analysisResult) && pdfName == old(pdfName)
    {
      if HasResult() {
        analysisResult := None;
        pdfName := None;
      }
    }
  }

  /**
   * Clicking Analyze with the uploaded document `doc` (see `ExtractPdfText`)
   * and the provider's `reply` (see `AnalyzeDocument`): the completion is
   * requested only for a non-empty text, and the stored result is replaced
   * only by a non-empty object decoded from the reply.
   */
  method AnalyzeClicked(session: SessionState, doc: Option<seq<Option<string>>>,
                        reply: Option<string>, parse: string -> Option<Value>)
    requires session.Valid()
    modifies session
    ensures session.Valid()
    ensures session.pdfName == old(session.pdfName)
    ensures session.analysisResult ==
      (if doc.Some? && Stores(Some(Strip(ConcatPages(doc.value))), AnalyzeDocument(reply, parse))
       then Some(AnalyzeDocument(reply, parse).result)
       else old(session.analysisResult))
    ensures doc.None? || reply.None? ==> session.analysisResult == old(session.analysisResult)
    ensures LoadsLike(parse) && reply.Some? && '{' !in reply.value ==>
      session.analysisResult == old(session.analysisResult)
    ensures LoadsLike(parse) && session.analysisResult != old(session.analysisResult) ==>
      && session.analysisResult.Some?
      && session.analysisResult.value.Obj?
      && session.analysisResult.value.fields != map[]
  {
    ghost var expected := AnalyzeDocument(reply, parse);
    assert reply.None? ==> !expected.Analyzed?;
    assert LoadsLike(parse) && reply.Some? && '{' !in reply.value ==> !expected.Analyzed?;
    assert LoadsLike(parse) && expected.Analyzed? && Truthy(expected.result) ==>
      expected.result.Obj? && expected.result.fields != map[];
    var pdfText := ExtractPdfText(doc);
    if pdfText.Some? && pdfText.value != [] {
      var outcome := AnalyzeDocument(reply, parse);
      session.Analyze(pdfText, outcome);
    }
  }
}
