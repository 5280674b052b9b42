/**
  The decision logic of services/geminiService.ts: how a file becomes an inline request part, how
  a content-generation response is classified into an image data URL, OBJ text or an error, and
  how an image-generation response becomes a PNG data URL. The responses are inputs; the calls
  that produce them are not modelled.
 */
module GeminiService {
  import opened Outcomes
  import opened JsText
  import opened Base64
  import opened Files
  import opened DataUrl

  // ---------------------------------------------------------------------------------------------
  // Response records; an absent property is None
  // ---------------------------------------------------------------------------------------------

  datatype InlineData = InlineData(mimeType: Option<string>, data: Option<string>)
  datatype Part = Part(inlineData: Option<InlineData>, text: Option<string>)
  datatype Content = Content(parts: Option<seq<Part>>)
  datatype Candidate = Candidate(content: Option<Content>, finishReason: Option<string>)
  datatype PromptFeedback = PromptFeedback(blockReason: Option<string>, blockReasonMessage: Option<string>)
  datatype Response = Response(
    promptFeedback: Option<PromptFeedback>,
    candidates: Option<seq<Candidate>>,
    text: Option<string>)

  datatype Image = Image(imageBytes: Option<string>)
  datatype GeneratedImage = GeneratedImage(image: Option<Image>)
  datatype ImagesResponse = ImagesResponse(generatedImages: Option<seq<GeneratedImage>>)

  /** A string property used as a condition: present and not empty. */
  predicate Truthy(o: Option<string>) {
    o.Some? && o.value != []
  }

  /** A string property inside a template literal: an absent one prints as "undefined". */
  function Interp(o: Option<string>): string {
    if o.Some? then o.value else "undefined"
  }

  /** `x || ''` for a string property. */
  function OrEmpty(o: Option<string>): string {
    if Truthy(o) then o.value else ""
  }

  // ---------------------------------------------------------------------------------------------
  // Reading a response
  // ---------------------------------------------------------------------------------------------

  /** `response.promptFeedback?.blockReason` is truthy. */
  predicate IsBlocked(r: Response) {
    r.promptFeedback.Some? && Truthy(r.promptFeedback.value.blockReason)
  }

  /** `response.candidates?.[0]`. */
  function FirstCandidate(r: Response): Option<Candidate> {
    if r.candidates.Some? && |r.candidates.value| > 0 then Some(r.candidates.value[0]) else None
  }

  /** `response.candidates?.[0]?.finishReason`. */
  function FinishReason(r: Response): Option<string> {
    if FirstCandidate(r).Some? then FirstCandidate(r).value.finishReason else None
  }

  /** Index of the first part that carries inline data (`parts.find(part => part.inlineData)`). */
  function FindInline(parts: seq<Part>): (i: Option<nat>)
    ensures i.Some? ==> i.value < |parts| && parts[i.value].inlineData.Some?
    ensures i.Some? ==> forall k | 0 <= k < i.value :: parts[k].inlineData.None?
    ensures i.None? ==> forall k | 0 <= k < |parts| :: parts[k].inlineData.None?
  {
    if parts == [] then None
    else if parts[0].inlineData.Some? then Some(0)
    else
      match FindInline(parts[1..])
      case None => None
      case Some(j) => Some(j + 1)
  }

  /** `response.candidates?.[0]?.content?.parts?.find(part => part.inlineData)?.inlineData`. */
  function FirstInline(r: Response): (d: Option<InlineData>)
    ensures d.Some? <==>
      FirstCandidate(r).Some? && FirstCandidate(r).value.content.Some? &&
      FirstCandidate(r).value.content.value.parts.Some? &&
      exists k | 0 <= k < |FirstCandidate(r).value.content.value.parts.value| ::
        FirstCandidate(r).value.content.value.parts.value[k].inlineData.Some?
    ensures d.Some? ==>
      var parts := FirstCandidate(r).value.content.value.parts.value;
      FindInline(parts).Some? && d == parts[FindInline(parts).value].inlineData
  {
    if FirstCandidate(r).Some? && FirstCandidate(r).value.content.Some? &&
       FirstCandidate(r).value.content.value.parts.Some?
    then
      var parts := FirstCandidate(r).value.content.value.parts.value;
      match FindInline(parts)
      case None => None
      case Some(i) => parts[i].inlineData
    else None
  }

  /** The finish reason is truthy and is not "STOP". */
  predicate StoppedEarly(r: Response) {
    Truthy(FinishReason(r)) && FinishReason(r).value != "STOP"
  }

  function BlockedMessage(r: Response): string
    requires IsBlocked(r)
  {
    var f := r.promptFeedback.value;
    "Request was blocked. Reason: " + f.blockReason.value + ". " + OrEmpty(f.blockReasonMessage)
  }

  // ---------------------------------------------------------------------------------------------
  // fileToPart
  // ---------------------------------------------------------------------------------------------

  /**
    `fileToPart`: the file's data URL split into its MIME type and base 64 body, failing as the
    shared header parser fails.
   */
  function FileToPart(f: Artifact): (r: Result<InlineData>)
    ensures r.Err? <==> ParseDataUrl(FileToDataUrl(f)).Err?
    ensures r.Err? ==> r.failure == ParseDataUrl(FileToDataUrl(f)).failure
    ensures r.Ok? ==>
      var p := ParseDataUrl(FileToDataUrl(f)).value;
      r.value == InlineData(Some(p.mimeType), Some(p.payload))
  {
    match ParseDataUrl(FileToDataUrl(f))
    case Err(e) => Err(e)
    case Ok(p) => Ok(InlineData(Some(p.mimeType), Some(p.payload)))
  }

  /** A file with a non-empty header-safe type is sent as its type and its padded encoding. */
  lemma FileToPartContents(f: Artifact)
    requires IsHeaderSafe(f.mimeType)
    ensures FileToPart(f) == Ok(InlineData(Some(f.mimeType), Some(Encode(f.bytes))))
  {
    EncodeAlphabet(f.bytes);
    ParseFormat(f.mimeType, Encode(f.bytes));
  }

  /** A file whose type is empty (what the File constructor leaves of an unusual type) cannot be sent. */
  lemma FileToPartNeedsType(f: Artifact)
    requires f.mimeType == []
    ensures FileToPart(f) == Err(Failure(NoMimeType, NoMimeTypeMessage))
  {
    EncodeAlphabet(f.bytes);
    ParseFormat(f.mimeType, Encode(f.bytes));
  }

  // ---------------------------------------------------------------------------------------------
  // handleApiResponse
  // ---------------------------------------------------------------------------------------------

  /**
    `handleApiResponse(response, context)`: a block reason wins; otherwise the first inline part of
    the first candidate becomes a data URL; otherwise a truthy finish reason other than "STOP"
    and then the absence of an image are reported, quoting any trimmed text the model gave.
   */
  function HandleApiResponse(r: Response, context: string): (res: Result<string>)
    ensures res.Ok? <==> !IsBlocked(r) && FirstInline(r).Some?
    ensures res.Ok? ==>
      res.value == FormatDataUrl(Interp(FirstInline(r).value.mimeType), Interp(FirstInline(r).value.data))
    ensures IsBlocked(r) ==> res == Err(Failure(Blocked, BlockedMessage(r)))
    ensures res.Err? && !IsBlocked(r) ==>
      res.failure.kind == (if StoppedEarly(r) then StoppedUnexpectedly else NoImage)
  {
    if IsBlocked(r) then
      Err(Failure(Blocked, BlockedMessage(r)))
    else if FirstInline(r).Some? then
      var d := FirstInline(r).value;
      Ok("data:" + Interp(d.mimeType) + ";base64," + Interp(d.data))
    else if StoppedEarly(r) then
      Err(Failure(StoppedUnexpectedly, ImageStoppedMessage(context, FinishReason(r).value)))
    else
      Err(Failure(NoImage, NoImageMessage(context, TrimmedText(r))))
  }

  /** `response.text?.trim()`. */
  function TrimmedText(r: Response): Option<string> {
    if r.text.Some? then Some(Trim(r.text.value)) else None
  }

  function ImageStoppedMessage(context: string, reason: string): string {
    "Image generation for " + context + " stopped unexpectedly. Reason: " + reason +
    ". This often relates to safety settings."
  }

  function NoImageMessage(context: string, feedback: Option<string>): string {
    "The AI model did not return an image for the " + context + ". " +
    (if Truthy(feedback) then "The model responded with text: \"" + feedback.value + "\""
     else "This can happen due to safety filters or if the request is too complex. Please try rephrasing your prompt to be more direct.")
  }

  /** A block reason decides the outcome even when the response also carries an image. */
  lemma BlockWinsOverImage(r: Response, context: string)
    requires IsBlocked(r) && FirstInline(r).Some?
    ensures HandleApiResponse(r, context).Err?
    ensures HandleApiResponse(r, context).failure.kind == Blocked
  {
  }

  /**
    Without an image part there is no result, whatever the finish reason: the finish reason only
    chooses between two errors, and "STOP" or none gives the same one as each other.
   */
  lemma NoImageNoResult(r: Response, r': Response, context: string)
    requires !IsBlocked(r) && FirstInline(r).None?
    requires !IsBlocked(r') && FirstInline(r').None? && r'.text == r.text
    requires !StoppedEarly(r) && !StoppedEarly(r')
    ensures HandleApiResponse(r, context).Err?
    ensures HandleApiResponse(r, context) == HandleApiResponse(r', context)
  {
  }

  /**
    The image a response carries comes back out of the data-URL parser: when its MIME type is
    non-empty and free of ';', ',' and line breaks and its data has no ',', parsing the returned
    data URL gives that type and that data.
   */
  lemma ApiResponseParsesBack(r: Response, context: string)
    requires !IsBlocked(r) && FirstInline(r).Some?
    requires FirstInline(r).value.mimeType.Some? && IsHeaderSafe(FirstInline(r).value.mimeType.value)
    requires FirstInline(r).value.data.Some? && ',' !in FirstInline(r).value.data.value
    ensures HandleApiResponse(r, context).Ok?
    ensures ParseDataUrl(HandleApiResponse(r, context).value) ==
      Ok(Parts(FirstInline(r).value.mimeType.value, FirstInline(r).value.data.value))
  {
    ParseFormat(FirstInline(r).value.mimeType.value, FirstInline(r).value.data.value);
  }

  /**
    A file sent with `fileToPart` and handed back unchanged as the response's first inline part
    is rebuilt by `dataURLtoFile` as the same file.
   */
  lemma EchoedFileRoundTrip(f: Artifact, r: Response, context: string)
    requires IsNormalType(f.mimeType) && IsHeaderSafe(f.mimeType)
    requires !IsBlocked(r) && FileToPart(f).Ok? && FirstInline(r) == Some(FileToPart(f).value)
    ensures HandleApiResponse(r, context) == Ok(FileToDataUrl(f))
    ensures FileFromDataUrl(HandleApiResponse(r, context).value, f.name) == Ok(f)
  {
    FileToPartContents(f);
    FileRoundTrip(f);
  }

  // ---------------------------------------------------------------------------------------------
  // handleTextApiResponse
  // ---------------------------------------------------------------------------------------------

  /** The start of a Wavefront OBJ file: a vertex line or a comment. */
  predicate LooksLikeObj(t: string) {
    StartsWith(t, "v ") || StartsWith(t, "#")
  }

  /**
    `handleTextApiResponse(response, context)`: a block reason wins; otherwise the trimmed text is
    returned when it is non-empty and looks like OBJ; otherwise an early stop and then the absence
    of text are reported.
   */
  function HandleTextApiResponse(r: Response, context: string): (res: Result<string>)
    ensures res.Ok? <==> !IsBlocked(r) && r.text.Some? && Trim(r.text.value) != [] && LooksLikeObj(Trim(r.text.value))
    ensures res.Ok? ==> res.value == Trim(r.text.value)
    ensures IsBlocked(r) ==> res == Err(Failure(Blocked, BlockedMessage(r)))
    ensures res.Err? && !IsBlocked(r) ==>
      res.failure.kind == (if StoppedEarly(r) then StoppedUnexpectedly else NoText)
  {
    if IsBlocked(r) then
      Err(Failure(Blocked, BlockedMessage(r)))
    else if r.text.Some? && Trim(r.text.value) != [] && LooksLikeObj(Trim(r.text.value)) then
      Ok(Trim(r.text.value))
    else if StoppedEarly(r) then
      Err(Failure(StoppedUnexpectedly, TextStoppedMessage(context, FinishReason(r).value)))
    else
      Err(Failure(NoText, NoTextMessage(context)))
  }

  function TextStoppedMessage(context: string, reason: string): string {
    "Text generation for " + context + " stopped unexpectedly. Reason: " + reason + "."
  }

  function NoTextMessage(context: string): string {
    "The AI model did not return valid text content for the " + context + ". " +
    "This can happen due to safety filters or if the request is too complex."
  }

  /**
    What the text handler returns is a substring of the model's text with no white space at either
    end, beginning with "v " or "#"; only white space around it was dropped.
   */
  lemma TextResultIsTrimmedObj(r: Response, context: string)
    requires HandleTextApiResponse(r, context).Ok?
    ensures var t := HandleTextApiResponse(r, context).value;
      t != [] && !IsJsWhitespace(t[0]) && !IsJsWhitespace(t[|t| - 1]) && LooksLikeObj(t) &&
      IsWhitespacePadded(r.text.value, t)
  {
    var s := r.text.value;
    var a := LeadingSpace(s);
    assert SliceIs(s, a, Trim(s));
  }

  /** `s` is `t` with white space added at either end. */
  ghost predicate IsWhitespacePadded(s: string, t: string) {
    exists a | 0 <= a <= |s| - |t| ::
      SliceIs(s, a, t) &&
      (forall i | 0 <= i < a :: IsJsWhitespace(s[i])) &&
      (forall i | a + |t| <= i < |s| :: IsJsWhitespace(s[i]))
  }

  predicate SliceIs(s: string, a: int, t: string) {
    0 <= a <= |s| - |t| && s[a..a + |t|] == t
  }

  /** Text that is only white space never counts as a model, whatever else the response holds. */
  lemma BlankTextRejected(r: Response, context: string)
    requires r.text.Some? && forall i | 0 <= i < |r.text.value| :: IsJsWhitespace(r.text.value[i])
    ensures HandleTextApiResponse(r, context).Err?
  {
  }

  // ---------------------------------------------------------------------------------------------
  // generateImageFromText
  // ---------------------------------------------------------------------------------------------

  const NoGeneratedImageMessage: string :=
    "The AI model did not return an image. This could be due to safety filters or an issue with the prompt."

  /**
    The result logic of `generateImageFromText`: the first generated image's bytes as a PNG data
    URL; no list, or an empty one, is an error; a first entry without an `image` property makes
    the property read throw.
   */
  function GenerateImageFromText(r: ImagesResponse): (res: Result<string>)
    ensures res.Ok? <==>
      r.generatedImages.Some? && |r.generatedImages.value| > 0 && r.generatedImages.value[0].image.Some?
    ensures res.Ok? ==>
      res.value == FormatDataUrl(PngType, Interp(r.generatedImages.value[0].image.value.imageBytes))
    ensures (r.generatedImages.None? || r.generatedImages.value == []) ==>
      res == Err(Failure(NoImage, NoGeneratedImageMessage))
  {
    if r.generatedImages.Some? && |r.generatedImages.value| > 0 then
      match r.generatedImages.value[0].image
      case None => Err(Failure(TypeError, "Cannot read properties of undefined (reading 'imageBytes')"))
      case Some(img) => Ok(FormatDataUrl(PngType, Interp(img.imageBytes)))
    else
      Err(Failure(NoImage, NoGeneratedImageMessage))
  }

  /** A generated image decodes as a PNG file holding the bytes the service sent. */
  lemma GeneratedImageFile(r: ImagesResponse, b: seq<byte>, name: string)
    requires r.generatedImages.Some? && |r.generatedImages.value| > 0
    requires r.generatedImages.value[0].image == Some(Image(Some(Encode(b))))
    ensures GenerateImageFromText(r).Ok?
    ensures FileFromDataUrl(GenerateImageFromText(r).value, name) == Ok(Artifact(name, PngType, b))
  {
    PngTypeSurvives();
    FileRoundTrip(Artifact(name, PngType, b));
  }

  const PngType: string := "image/png"

  /** "image/png" passes through the File constructor and a data-URL header unchanged. */
  lemma PngTypeSurvives()
    ensures IsNormalType(PngType) && IsHeaderSafe(PngType)
  {
    forall i | 0 <= i < |PngType|
      ensures IsPrintableAscii(PngType[i]) && !('A' <= PngType[i] <= 'Z')
      ensures PngType[i] != ';' && PngType[i] != ',' && !IsLineTerminator(PngType[i])
    {
    }
    NormalTypeChars(PngType);
  }
}
