/**
 * The request handling of `main` (summarizer.py): given the already parsed
 * request, choose the response object and the exit status. Reading
 * standard input, JSON decoding and printing are left to the caller.
 */
module Entry {
  import opened PyStr
  import opened Summarizer

  /** Standard input after JSON decoding: either decoding failed, with the
      decoder's message, or it gave an object whose fields are strings. */
  datatype Request = Malformed(decodeError: string) | Parsed(fields: map<string, string>)

  /** The JSON object written to standard output. */
  datatype Response = Response(summary: string, model: string)

  /** What one run of the program produces. */
  datatype Outcome = Outcome(response: Response, exitStatus: nat)

  const MissingText := "No text provided for summarization"
  const InvalidJsonPrefix := "Error: Invalid JSON input - "
  const ProcessingErrorPrefix := "Error during processing: "

  /** `request_data.get(key, "")`. */
  function Field(fields: map<string, string>, key: string): (v: string)
    ensures key in fields ==> v == fields[key]
    ensures key !in fields ==> v == ""
  {
    if key in fields then fields[key] else ""
  }

  /** A request that can be summarized: it decoded and its `text` is not empty. */
  predicate Accepted(request: Request) {
    request.Parsed? && Field(request.fields, "text") != ""
  }

  /** The response and exit status of one run of `main`. A decoding failure
      and a missing or empty `text` are reported in the summary field with
      exit status 1; otherwise the summary (which may be the fallback
      message) is returned with exit status 0. */
  function HandleRequest(pipeline: Pipeline, request: Request): (o: Outcome)
    ensures o.response.model == ModelName
    ensures o.exitStatus == 0 <==> Accepted(request)
    ensures o.exitStatus == 0 || o.exitStatus == 1
    ensures Accepted(request) ==>
              o.response.summary == Summarize(pipeline, Field(request.fields, "text"), Field(request.fields, "title"))
  {
    match request
    case Malformed(e) =>
      Outcome(Response(InvalidJsonPrefix + e, ModelName), 1)
    case Parsed(fields) =>
      var text := Field(fields, "text");
      var title := Field(fields, "title");
      if text == "" then
        Outcome(Response(ProcessingErrorPrefix + MissingText, ModelName), 1)
      else
        Outcome(Response(Summarize(pipeline, text, title), ModelName), 0)
  }

  /** A request whose `text` is missing or empty gets the validation error. */
  lemma RejectsMissingText(pipeline: Pipeline, fields: map<string, string>)
    requires "text" !in fields || fields["text"] == ""
    ensures HandleRequest(pipeline, Parsed(fields))
         == Outcome(Response(ProcessingErrorPrefix + MissingText, "facebook/bart-large-cnn"), 1)
  {
  }

  /** Input that is not JSON gets an error naming the decoding failure. */
  lemma RejectsMalformed(pipeline: Pipeline, decodeError: string)
    ensures var o := HandleRequest(pipeline, Malformed(decodeError));
      && o.exitStatus == 1
      && o.response.model == "facebook/bart-large-cnn"
      && o.response.summary == InvalidJsonPrefix + decodeError
      && InvalidJsonPrefix <= o.response.summary
  {
  }

  /** An accepted request exits with status 0 and a summary of at most three
      sentences without surrounding whitespace, even when generation fails. */
  lemma AcceptedSucceeds(pipeline: Pipeline, request: Request)
    requires Accepted(request)
    ensures var o := HandleRequest(pipeline, request);
      && o.exitStatus == 0
      && o.response.model == "facebook/bart-large-cnn"
      && IsStripped(o.response.summary)
      && |Split(o.response.summary, SentenceSep)| <= MaxSentences
  {
  }

  /** When the pipeline fails on the preprocessed input, the run still
      succeeds and reports the fallback summary. */
  lemma GenerationFailureStillResponds(pipeline: Pipeline, request: Request)
    requires Accepted(request)
    requires GenerationFailed(pipeline(PreprocessText(Field(request.fields, "text"),
                                                      Field(request.fields, "title")), Generation))
    ensures HandleRequest(pipeline, request)
         == Outcome(Response("Summary generation failed.", "facebook/bart-large-cnn"), 0)
  {
  }
}
