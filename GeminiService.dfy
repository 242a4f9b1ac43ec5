/** The generation client of services/geminiService.ts with the SDK call taken
    out: what the remote service answered (or the exception it raised) is an
    input, and what remains is the decision logic that turns it into a
    GenerationResult, the data-URL header handling, and the fallbacks of the
    prompt optimizer. */
module GeminiService {

  import opened Base
  import opened Strings

  // ---------------------------------------------------------------------------
  // The shape of a generateContent response, as far as the client looks at it.
  // Every field the client tests for presence is optional.

  datatype InlineData = InlineData(data: Option<string>)
  datatype Part = Part(text: Option<string>, inlineData: Option<InlineData>)
  datatype Content = Content(parts: Option<seq<Part>>)
  datatype Candidate = Candidate(content: Option<Content>)
  datatype Response = Response(candidates: Option<seq<Candidate>>)

  /** A call to the image model either throws (with a possibly missing or empty
      `message`) or resolves to a response. */
  datatype CallOutcome = Threw(message: Option<string>) | Responded(response: Response)

  /** A call to the text model either throws or resolves to a response whose
      `text` may be missing. */
  datatype TextReply = Failed | Answered(text: Option<string>)

  /** `{ image?, error? }`. The `optimizedPrompt` field is never set by the
      client and is not modelled. */
  datatype GenerationResult = GenerationResult(image: Option<string>, error: Option<string>)

  function ImageResult(image: string): GenerationResult {
    GenerationResult(Some(image), None)
  }

  function ErrorResult(message: string): GenerationResult {
    GenerationResult(None, Some(message))
  }

  const NoCandidatesError := "未返回任何候选结果。"
  const NoContentError := "未找到内容部分。"
  const ModelTextPrefix := "生成失败: "
  const NoImageError := "响应中未找到图片数据。模型可能只返回了文本。"
  const TextToImageError := "图片生成失败。"
  const ImageToImageError := "图片重绘失败。"
  const DataUrlPrefix := "data:image/png;base64,"
  const DefaultMimeType := "image/png"

  /** A result carries exactly one of an image and an error, and that one is a
      non-empty (so truthy) string. */
  predicate WellFormed(r: GenerationResult) {
    (Truthy(r.image) && r.error.None?) || (Truthy(r.error) && r.image.None?)
  }

  /** What a template literal `${x}` writes for a possibly missing string. */
  function TemplateText(s: Option<string>): string {
    s.GetOr("undefined")
  }

  /** The `data:` URL the client builds around a base64 payload. */
  function DataUrl(payload: string): string {
    DataUrlPrefix + payload
  }

  // ---------------------------------------------------------------------------
  // processResponse

  predicate HasCandidates(resp: Response) {
    resp.candidates.Some? && |resp.candidates.value| > 0
  }

  /** The first candidate has content, and the content has a parts list
      (possibly an empty one, which JavaScript still treats as truthy). */
  predicate HasParts(resp: Response) {
    HasCandidates(resp) &&
    resp.candidates.value[0].content.Some? &&
    resp.candidates.value[0].content.value.parts.Some?
  }

  function PartsOf(resp: Response): seq<Part>
    requires HasParts(resp)
  {
    resp.candidates.value[0].content.value.parts.value
  }

  /** Index `i` is the first part that carries inline data. */
  predicate IsFirstInline(parts: seq<Part>, i: int) {
    0 <= i < |parts| && parts[i].inlineData.Some? &&
    forall k :: 0 <= k < i ==> parts[k].inlineData.None?
  }

  predicate HasInline(parts: seq<Part>) {
    exists k :: 0 <= k < |parts| && parts[k].inlineData.Some?
  }

  /** The loop over `content.parts` that returns at the first part with
      `inlineData`. */
  function FirstInlineIndex(parts: seq<Part>): (r: Option<nat>)
    ensures r.None? <==> !HasInline(parts)
    ensures r.Some? ==> IsFirstInline(parts, r.value)
  {
    if parts == [] then None
    else if parts[0].inlineData.Some? then Some(0)
    else
      var r := FirstInlineIndex(parts[1..]);
      if r.None? then
        assert forall k :: 1 <= k < |parts| ==> parts[k] == parts[1..][k - 1];
        None
      else
        assert forall k :: 1 <= k <= r.value ==> parts[k] == parts[1..][k - 1];
        Some(r.value + 1)
  }

  /** The error reported when no part carries an image: the model's own text
      when the first part has some, otherwise the fixed message. */
  function NoImageResult(parts: seq<Part>): (r: GenerationResult)
    ensures WellFormed(r) && r.image.None?
    ensures |parts| > 0 && Truthy(parts[0].text) ==> r.error == Some(ModelTextPrefix + parts[0].text.value)
    ensures !(|parts| > 0 && Truthy(parts[0].text)) ==> r.error == Some(NoImageError)
  {
    if |parts| > 0 && Truthy(parts[0].text) then ErrorResult(ModelTextPrefix + parts[0].text.value)
    else ErrorResult(NoImageError)
  }

  /** processResponse: no candidates, then no content parts, then the first
      part with inline data as a PNG data URL, then the model's text as an
      error, then the fixed fallback. */
  function ProcessResponse(resp: Response): (r: GenerationResult)
    ensures WellFormed(r)
    ensures !HasCandidates(resp) ==> r == ErrorResult(NoCandidatesError)
    ensures HasCandidates(resp) && !HasParts(resp) ==> r == ErrorResult(NoContentError)
    ensures HasParts(resp) ==> forall i :: IsFirstInline(PartsOf(resp), i) ==>
              r == ImageResult(DataUrl(TemplateText(PartsOf(resp)[i].inlineData.value.data)))
    ensures HasParts(resp) && !HasInline(PartsOf(resp)) ==> r == NoImageResult(PartsOf(resp))
    ensures r.image.Some? <==> HasParts(resp) && HasInline(PartsOf(resp))
  {
    if !HasCandidates(resp) then ErrorResult(NoCandidatesError)
    else if !HasParts(resp) then ErrorResult(NoContentError)
    else
      var parts := PartsOf(resp);
      match FirstInlineIndex(parts)
      case Some(i) =>
        assert forall j :: IsFirstInline(parts, j) ==> j == i;
        ImageResult(DataUrl(TemplateText(parts[i].inlineData.value.data)))
      case None => NoImageResult(parts)
  }

  /** A response with a single candidate holding `parts`. */
  function WithParts(parts: seq<Part>): Response {
    Response(Some([Candidate(Some(Content(Some(parts))))]))
  }

  /** Only the first candidate is looked at. */
  lemma OnlyFirstCandidate(first: Candidate, rest: seq<Candidate>)
    ensures ProcessResponse(Response(Some([first] + rest))) == ProcessResponse(Response(Some([first])))
  {
    var a, b := Response(Some([first] + rest)), Response(Some([first]));
    assert HasCandidates(a) && HasCandidates(b);
    assert a.candidates.value[0] == b.candidates.value[0];
  }

  lemma {:induction false} FirstInlineIndexPrefix(parts: seq<Part>, later: seq<Part>)
    requires HasInline(parts)
    ensures FirstInlineIndex(parts + later) == FirstInlineIndex(parts)
  {
    if parts[0].inlineData.None? {
      assert (parts + later)[1..] == parts[1..] + later;
      var k :| 0 <= k < |parts| && parts[k].inlineData.Some?;
      assert parts[1..][k - 1] == parts[k];
      FirstInlineIndexPrefix(parts[1..], later);
    }
  }

  /** Once some part carries an image, the parts after it change nothing. */
  lemma LaterPartsIgnored(parts: seq<Part>, later: seq<Part>)
    requires HasInline(parts)
    ensures ProcessResponse(WithParts(parts + later)) == ProcessResponse(WithParts(parts))
  {
    FirstInlineIndexPrefix(parts, later);
    var i := FirstInlineIndex(parts).value;
    assert IsFirstInline(parts + later, i);
    assert IsFirstInline(PartsOf(WithParts(parts + later)), i);
    assert IsFirstInline(PartsOf(WithParts(parts)), i);
  }

  // ---------------------------------------------------------------------------
  // The data-URL header strip of generateImageFromImage:
  // `base64Image.split(',')[1] || base64Image`.

  /** Keeps the segment between the first and the second comma when there is
      a first comma and that segment is not empty; otherwise keeps the input. */
  function StripHeader(s: string): (r: string)
    ensures ',' !in s ==> r == s
    ensures forall i :: 0 <= i < |s| && s[i] == ',' && ',' !in s[..i] ==>
              var rest := s[i + 1..];
              if rest == "" || rest[0] == ',' then r == s
              else r != "" && |r| <= |rest| && r == rest[..|r|] && ',' !in r && (|r| == |rest| || rest[|r|] == ',')
  {
    SplitAtFirst(s, ',');
    forall i | 0 <= i < |s| && s[i] == ',' && ',' !in s[..i] {
      SplitFirstSegment(s[i + 1..], ',');
    }
    var segments := Split(s, ',');
    if |segments| > 1 && segments[1] != "" then segments[1] else s
  }

  /** Stripping the header from a URL the client built gives back the payload,
      when the payload is non-empty and has no comma of its own. */
  lemma {:induction false} DataUrlRoundTrip(payload: string)
    requires payload != "" && ',' !in payload
    ensures StripHeader(DataUrl(payload)) == payload
  {
    var header := "data:image/png;base64";
    assert ',' !in header;
    assert DataUrl(payload) == Join([header, payload], ',');
    SplitUnique([header, payload], ',');
  }

  /** Feeding the image of a decoded response back into image-to-image sends
      the same bytes the model returned. */
  lemma ResponseImageRoundTrip(resp: Response, i: nat, payload: string)
    requires HasParts(resp) && IsFirstInline(PartsOf(resp), i)
    requires PartsOf(resp)[i].inlineData.value.data == Some(payload)
    requires payload != "" && ',' !in payload
    ensures StripHeader(ProcessResponse(resp).image.value) == payload
  {
    DataUrlRoundTrip(payload);
  }

  /** The request image-to-image sends: the prompt as a text part and the
      stripped base64 payload with its MIME type as an inline-data part. */
  datatype EditRequest = EditRequest(prompt: string, mimeType: string, data: string)

  function EditRequestFor(prompt: string, base64Image: string, mimeType: string): (r: EditRequest)
    ensures r.prompt == prompt && r.mimeType == mimeType
    ensures ',' !in base64Image ==> r.data == base64Image
    ensures r.data == base64Image || (r.data != "" && ',' !in r.data && |r.data| < |base64Image|)
  {
    var data := StripHeader(base64Image);
    assert ',' in base64Image ==>
             (data == base64Image || (data != "" && ',' !in data && |data| < |base64Image|)) by {
      if ',' in base64Image {
        var i := IndexOf(base64Image, ',').value;
        assert base64Image[i] == ',' && ',' !in base64Image[..i];
      }
    }
    EditRequest(prompt, mimeType, data)
  }

  // ---------------------------------------------------------------------------
  // The three client entry points.

  /** `response.text?.trim() || originalPrompt`, and the original prompt when
      the call throws. */
  function OptimizePrompt(original: string, reply: TextReply): (r: string)
    ensures reply.Failed? || reply.text.None? ==> r == original
    ensures reply.Answered? && reply.text.Some? && !IsBlank(reply.text.value) ==>
              r == Trim(reply.text.value)
    ensures reply.Answered? && reply.text.Some? && IsBlank(reply.text.value) ==> r == original
    ensures !IsBlank(original) ==> !IsBlank(r)
  {
    match reply
    case Failed => original
    case Answered(text) => OrElse(if text.Some? then Some(Trim(text.value)) else None, original)
  }

  /** The optimizer hands back either the original prompt or a non-empty text
      that trimming leaves as it is. */
  lemma OptimizedIsTrimmed(original: string, reply: TextReply)
    ensures var r := OptimizePrompt(original, reply);
            r == original || (r != "" && Trim(r) == r)
  {
    if reply.Answered? && reply.text.Some? {
      TrimIdempotent(reply.text.value);
    }
  }

  /** The try/catch shared by both generate calls: a thrown error becomes its
      message, or `fallback` when the message is missing or empty. */
  function FromOutcome(outcome: CallOutcome, fallback: string): GenerationResult {
    match outcome
    case Threw(message) => ErrorResult(OrElse(message, fallback))
    case Responded(resp) => ProcessResponse(resp)
  }

  function GenerateImageFromText(outcome: CallOutcome): (r: GenerationResult)
    ensures WellFormed(r)
    ensures outcome.Threw? ==>
              r.image.None? &&
              r.error == Some(if Truthy(outcome.message) then outcome.message.value else TextToImageError)
    ensures outcome.Responded? ==> r == ProcessResponse(outcome.response)
  {
    FromOutcome(outcome, TextToImageError)
  }

  function GenerateImageFromImage(outcome: CallOutcome): (r: GenerationResult)
    ensures WellFormed(r)
    ensures outcome.Threw? ==>
              r.image.None? &&
              r.error == Some(if Truthy(outcome.message) then outcome.message.value else ImageToImageError)
    ensures outcome.Responded? ==> r == ProcessResponse(outcome.response)
  {
    FromOutcome(outcome, ImageToImageError)
  }
}
