/** The input router: an uploaded image wins, then the `text` of a JSON
    body, then a plain-text body; anything else is an error. */
module Parser {
  import opened Text
  import opened OcrService

  /** The content type `req.is` tests against. */
  datatype ContentType = ApplicationJson | TextPlain | OtherType

  /** `req.body` as the body parsers leave it: absent, a JSON object whose
      `text` key may hold a string, or a plain-text string. */
  datatype Body = NoBody | JsonBody(text: Option<string>) | TextBody(content: string)

  /** What the OCR engine reads from an uploaded image: its text and its
      confidence percentage. */
  datatype OcrScan = OcrScan(text: string, confidence: real)

  datatype Request = Request(file: Option<OcrScan>, contentType: ContentType, body: Body)

  const NoInputMessage: string := "Request must contain an image file or a valid text body."

  /** `if (req.body)`: an absent body and the empty string are falsy; any
      JSON object, even one without `text`, is truthy. */
  predicate BodyPresent(b: Body): (present: bool)
    ensures b.NoBody? ==> !present
    ensures b.JsonBody? ==> present
    ensures b.TextBody? ==> (present <==> Truthy(JsString(b.content)))
  {
    !b.NoBody? && b != TextBody("")
  }

  /** `req.is('application/json') && req.body.text`. */
  predicate JsonTextUsable(req: Request) {
    req.contentType == ApplicationJson && req.body.JsonBody? && req.body.text.Some? && req.body.text.value != []
  }

  /** `req.is('text/plain') && typeof req.body === 'string'`, with the body
      truthy. */
  predicate PlainTextUsable(req: Request) {
    req.contentType == TextPlain && req.body.TextBody? && req.body.content != []
  }

  /** The text the request carries: the JSON `text` when it is non-empty,
      else a plain-text body under `text/plain`, else nothing. */
  function RequestText(req: Request): (r: Option<string>)
    ensures r.Some? ==> r.value != [] && BodyPresent(req.body)
    ensures r.None? <==> !JsonTextUsable(req) && !PlainTextUsable(req)
    ensures JsonTextUsable(req) ==> r == req.body.text
    ensures PlainTextUsable(req) ==> r == Some(req.body.content)
  {
    if !BodyPresent(req.body) then None
    else
      var text :=
        if req.contentType == ApplicationJson && req.body.JsonBody? && req.body.text.Some? && req.body.text.value != [] then
          req.body.text
        else if req.contentType == TextPlain && req.body.TextBody? then
          Some(req.body.content)
        else None;
      if text.Some? && text.value != [] then text else None
  }

  /** `parseRequestInput`. */
  function ParseRequestInput(req: Request): (r: ParseResult)
    ensures req.file.Some? ==> r == ParseImage(req.file.value.text, req.file.value.confidence)
    ensures req.file.None? ==> (r.Error? <==> RequestText(req).None?)
    ensures r.Error? ==> r.message == NoInputMessage
  {
    match req.file
    case Some(scan) => ParseImage(scan.text, scan.confidence)
    case None =>
      match RequestText(req)
      case Some(text) => Assess(Normalize(text), None)
      case None => Error(NoInputMessage)
  }

  // ---------------------------------------------------------------------
  // Properties of the router
  // ---------------------------------------------------------------------

  /** An image wins whatever the body holds. */
  lemma FileWins(scan: OcrScan, contentType: ContentType, b1: Body, b2: Body)
    ensures ParseRequestInput(Request(Some(scan), contentType, b1))
         == ParseRequestInput(Request(Some(scan), contentType, b2))
  {
  }

  /** A JSON body's non-empty `text` is what gets parsed. */
  lemma JsonTextUsed(text: string)
    requires text != []
    ensures ParseRequestInput(Request(None, ApplicationJson, JsonBody(Some(text)))) == Assess(Normalize(text), None)
  {
  }

  /** A plain-text body is parsed only under `text/plain`. */
  lemma PlainTextNeedsContentType(contentType: ContentType, content: string)
    ensures ParseRequestInput(Request(None, contentType, TextBody(content))).Error?
        <==> contentType != TextPlain || content == []
  {
  }

  /** Without an image, the result is the error exactly when there is no
      usable text: no body, an empty or absent `text`, or the wrong content
      type. */
  lemma ErrorCases(req: Request)
    requires req.file.None?
    ensures ParseRequestInput(req) == Error(NoInputMessage) <==>
      || req.body.NoBody?
      || (req.body.JsonBody? && (req.contentType != ApplicationJson || req.body.text.None? || req.body.text.value == []))
      || (req.body.TextBody? && (req.contentType != TextPlain || req.body.content == []))
  {
  }

  /** A text-path result has no confidence; it is an incomplete profile with
      the fixed reason exactly when five or more fields are missing; an ok
      result carries the normaliser's answers unchanged and the expected
      fields it lacks, in order; `exercise` is always among them. */
  lemma TextPath(req: Request, text: string)
    requires req.file.None? && RequestText(req) == Some(text)
    ensures var r := ParseRequestInput(req);
      && !r.Error? && r.confidence.None?
      && (r.IncompleteProfile? <==> |MissingFields(Normalize(text))| >= 5)
      && (r.IncompleteProfile? ==> r.reason == IncompleteReason)
      && (r.Ok? ==> r.answers == Normalize(text))
      && r.missingFields == MissingFields(Normalize(text))
      && Exercise in r.missingFields
  {
    ExerciseAlwaysMissing(text);
  }
}
