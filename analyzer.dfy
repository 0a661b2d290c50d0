/**
 * `analyze_document` after the completion call: the reply text is cut with
 * the first-`{`/last-`}` heuristic and the slice is handed to `json.loads`.
 */
module Analyzer {
  import opened Wrappers
  import opened Json
  import opened Slicing

  /** What `analyze_document` ends in: a decoded result or one of its two error messages. */
  datatype Outcome =
    | Analyzed(result: Value)
    | ProviderError       // "Error analyzing document: ..."
    | MalformedResponse   // "Failed to parse response as JSON"

  /**
   * What the model relies on of `json.loads`, given here as `parse` (`None`
   * for a `JSONDecodeError`): the empty string and a lone `}` are not JSON,
   * and a text that opens with `{` can only decode to an object.
   */
  ghost predicate LoadsLike(parse: string -> Option<Value>) {
    && parse("").None?
    && parse("}").None?
    && forall s :: |s| > 0 && s[0] == '{' && parse(s).Some? ==> parse(s).value.Obj?
  }

  /**
   * `reply` is the completion's message content, or `None` when the call
   * raised or returned no content (both end in the outer `except`).
   */
  function AnalyzeDocument(reply: Option<string>, parse: string -> Option<Value>): (o: Outcome)
    ensures reply.None? <==> o == ProviderError
    ensures reply.Some? ==>
      (o == MalformedResponse <==> parse(JsonSlice(reply.value)).None?)
    ensures o.Analyzed? ==> Some(o.result) == parse(JsonSlice(reply.value))
    ensures LoadsLike(parse) && o.Analyzed? ==> o.result.Obj?
    ensures LoadsLike(parse) && reply.Some? && ('{' !in reply.value || '}' !in reply.value)
      ==> o == MalformedResponse
  {
    match reply
    case None => ProviderError
    case Some(text) =>
      var slice := JsonSlice(text);
      assert '{' !in text || '}' !in text ==> slice == [] || slice == "}";
      match parse(slice)
      case None => MalformedResponse
      case Some(v) => Analyzed(v)
  }

  /**
   * A reply that is an object wrapped in brace-free prose analyses to
   * exactly what `json.loads` makes of the object alone.
   */
  lemma WrappedReply(prefix: string, obj: string, suffix: string, parse: string -> Option<Value>)
    requires Braceless(prefix) && Braceless(suffix)
    requires |obj| >= 2 && obj[0] == '{' && obj[|obj| - 1] == '}'
    ensures AnalyzeDocument(Some(prefix + obj + suffix), parse)
         == (if parse(obj).Some? then Analyzed(parse(obj).value) else MalformedResponse)
  {
    RecoversWrapped(prefix, obj, suffix);
  }
}
