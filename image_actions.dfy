/** `generateImage` of the image generator: the request sent to Gemini and the
    reading of its answer. The SDK call is a function from the request parts to
    the reply; the latency field, taken from the clock, is not modelled. */
module ImageActions {

  datatype Option<T> = None | Some(value: T)

  // ---------------------------------------------------------------------------
  // The request

  /** A part of the request: the prompt text, or an inline image. */
  datatype RequestPart = Text(text: string) | Inline(data: string, mimeType: string)

  const ReferenceSentence: string := " Use all the provided images as reference."
  const Instruction: string :=
    "\n\nIMPORTANT: You must generate and return an actual image file, not a text description. Please create a new image that fulfills this request."

  /** The opening words: "image" or "images". */
  function Opening(count: nat): string {
    if count > 1 then "Based on the uploaded images, " else "Based on the uploaded image, "
  }

  /** What follows the opening words: the user's prompt, the instruction and,
      for several images, the reference sentence. */
  function Body(count: nat, prompt: string): string {
    if count > 1 then prompt + Instruction + ReferenceSentence else prompt + Instruction
  }

  /** The prompt text for `count` images. */
  function PromptText(count: nat, prompt: string): string {
    Opening(count) + Body(count, prompt)
  }

  /** The prompt names images in the plural exactly when several are sent. */
  lemma PluralWording(count: nat, prompt: string)
    ensures PromptText(count, prompt)[27] == (if count > 1 then 's' else ',')
  {
    var o := Opening(count);
    assert |o| >= 28 && o[27] == (if count > 1 then 's' else ',');
  }

  /** The prompt ends with the reference sentence exactly when several images
      are sent. */
  lemma ReferenceIffSeveral(count: nat, prompt: string)
    ensures EndsWith(PromptText(count, prompt), ReferenceSentence) <==> count > 1
  {
    var body := Body(count, prompt);
    if count > 1 {
      EndsWithAppend(Opening(count), prompt + Instruction, ReferenceSentence);
    } else {
      assert body[|body| - 2] == Instruction[|Instruction| - 2] == 't';
      assert ReferenceSentence[|ReferenceSentence| - 2] == 'e';
      EndsDiffer(Opening(count), body, ReferenceSentence);
    }
  }

  lemma EndsWithAppend(o: string, x: string, p: string)
    ensures EndsWith(o + (x + p), p)
  {
    assert (o + (x + p))[|o| + |x|..] == p;
  }

  /** A string whose last-but-one character differs from that of `p` does not
      end with `p`. */
  lemma EndsDiffer(front: string, tail: string, p: string)
    requires |tail| >= 2 && |p| >= 2 && tail[|tail| - 2] != p[|p| - 2]
    ensures !EndsWith(front + tail, p)
  {
    var t := front + tail;
    assert t[|t| - 2] == tail[|tail| - 2];
    if |p| <= |t| {
      assert t[|t| - |p|..][|p| - 2] == t[|t| - 2];
    }
  }

  predicate EndsWith(s: string, p: string) {
    |p| <= |s| && s[|s| - |p|..] == p
  }

  /** `imageDataArray.map(...)`: one PNG part per image, in order. */
  function ImageParts(images: seq<string>): (parts: seq<RequestPart>)
    ensures |parts| == |images|
    ensures forall i :: 0 <= i < |images| ==> parts[i] == Inline(images[i], "image/png")
  {
    if images == [] then []
    else [Inline(images[0], "image/png")] + ImageParts(images[1..])
  }

  /** The parts of the single user message: the prompt text, then the images. */
  function RequestParts(images: seq<string>, prompt: string): (parts: seq<RequestPart>)
    ensures |parts| == |images| + 1
    ensures parts[0] == Text(PromptText(|images|, prompt))
    ensures forall i :: 0 <= i < |images| ==> parts[i + 1] == Inline(images[i], "image/png")
  {
    Message(PromptText(|images|, prompt), images)
  }

  /** The text part followed by the image parts. */
  function Message(text: string, images: seq<string>): (parts: seq<RequestPart>)
    ensures |parts| == |images| + 1
    ensures parts[0] == Text(text)
    ensures forall i :: 0 <= i < |images| ==> parts[i + 1] == Inline(images[i], "image/png")
  {
    [Text(text)] + ImageParts(images)
  }

  // ---------------------------------------------------------------------------
  // The reply

  /** A part of the answer; an absent `inlineData.data` or `text` is the empty
      string, which the scan treats the same way. */
  datatype Part = Part(data: string, text: string)

  /** A candidate; `parts` is `None` when its content or its parts are missing. */
  datatype Candidate = Candidate(parts: Option<seq<Part>>)

  /** What the SDK call gives: a response, whose candidates may be missing, or a
      thrown value with the message of an `Error`, `None` for anything else. */
  datatype Reply = Response(candidates: Option<seq<Candidate>>) | Thrown(message: Option<string>)

  /** The field of a part the scan looks at: the image data or the text. */
  function Field(p: Part, image: bool): string {
    if image then p.data else p.text
  }

  /** The index of the last part whose field is non-empty, or -1. */
  function LastIndex(parts: seq<Part>, image: bool): (k: int)
    ensures -1 <= k < |parts|
    ensures k >= 0 ==> Field(parts[k], image) != ""
    ensures forall j :: k < j < |parts| ==> Field(parts[j], image) == ""
  {
    if parts == [] then -1
    else if Field(parts[|parts| - 1], image) != "" then |parts| - 1
    else
      var k := LastIndex(parts[..|parts| - 1], image);
      assert forall j :: k < j < |parts| - 1 ==> parts[..|parts| - 1][j] == parts[j];
      k
  }

  /** The last non-empty field among `parts`, or the empty string. */
  function LastFound(parts: seq<Part>, image: bool): (r: string)
    ensures r == "" <==> forall i :: 0 <= i < |parts| ==> Field(parts[i], image) == ""
    ensures r != "" ==>
      exists i :: 0 <= i < |parts| && Field(parts[i], image) == r
        && forall j :: i < j < |parts| ==> Field(parts[j], image) == ""
  {
    var k := LastIndex(parts, image);
    if k < 0 then "" else Field(parts[k], image)
  }

  /** One more part: its field wins when it is non-empty. */
  lemma LastFoundStep(parts: seq<Part>, i: int, image: bool)
    requires 0 <= i < |parts|
    ensures LastFound(parts[..i + 1], image) ==
      if Field(parts[i], image) != "" then Field(parts[i], image) else LastFound(parts[..i], image)
  {
    assert parts[..i + 1][..i] == parts[..i];
    assert parts[..i + 1][i] == parts[i];
  }

  /** The loop over `parts`: the last image data and the last text. */
  method ScanParts(parts: seq<Part>) returns (imageData: string, textResponse: string)
    ensures imageData == LastFound(parts, true)
    ensures textResponse == LastFound(parts, false)
  {
    imageData, textResponse := "", "";
    for i := 0 to |parts|
      invariant imageData == LastFound(parts[..i], true)
      invariant textResponse == LastFound(parts[..i], false)
    {
      LastFoundStep(parts, i, true);
      LastFoundStep(parts, i, false);
      if parts[i].data != "" {
        imageData := parts[i].data;
      }
      if parts[i].text != "" {
        textResponse := parts[i].text;
      }
    }
    assert parts[..|parts|] == parts;
  }

  // ---------------------------------------------------------------------------
  // The result

  /** `ImageGenerationResponse` without its latency. */
  datatype GenResult = GenResult(success: bool, imageData: Option<string>, textResponse: Option<string>,
                                 error: Option<string>)

  const MissingKey: string := "Google AI API Key not configured"
  const NoCandidates: string := "No response generated from Gemini API"
  const InvalidFormat: string := "Invalid response format from Gemini API"
  const NoContent: string := "No valid content found in API response"
  const UnknownError: string := "Unknown error occurred"

  /** The `catch` branch. */
  function Failure(message: string): (r: GenResult)
    ensures !r.success && r.imageData.None? && r.textResponse.None? && r.error == Some(message)
  {
    GenResult(false, None, None, Some(message))
  }

  /** The choice after the scan: the image with any text, else the text alone,
      else the failure. */
  function Choose(imageData: string, textResponse: string): (r: GenResult)
    ensures r.success <==> imageData != "" || textResponse != ""
    ensures imageData != "" ==> r.imageData == Some(imageData)
    ensures imageData == "" ==> r.imageData.None?
    ensures r.success ==> r.error.None? && (r.textResponse.Some? <==> textResponse != "")
    ensures r.textResponse.Some? ==> r.textResponse.value == textResponse
    ensures !r.success ==> r == Failure(NoContent)
  {
    var text := if textResponse != "" then Some(textResponse) else None;
    if imageData != "" then GenResult(true, Some(imageData), text, None)
    else if textResponse != "" then GenResult(true, None, text, None)
    else Failure(NoContent)
  }

  /** The response has a first candidate. */
  predicate HasCandidate(reply: Reply) {
    reply.Response? && reply.candidates.Some? && reply.candidates.value != []
  }

  /** The parts of the first candidate. */
  function FirstParts(reply: Reply): Option<seq<Part>>
    requires HasCandidate(reply)
  {
    reply.candidates.value[0].parts
  }

  /** The message `catch` records for a thrown value. */
  function ThrownText(message: Option<string>): string {
    if message.Some? then message.value else UnknownError
  }

  /** `generateImage(imageDataArray, prompt)`; `apiKey` is the environment
      variable, empty when unset, and `send` the SDK call. */
  method GenerateImage(apiKey: string, images: seq<string>, prompt: string,
                       send: seq<RequestPart> -> Reply) returns (r: GenResult)
    ensures apiKey == "" ==> r == Failure(MissingKey)
    ensures apiKey != "" && send(RequestParts(images, prompt)).Thrown? ==>
      r == Failure(ThrownText(send(RequestParts(images, prompt)).message))
    ensures apiKey != "" && send(RequestParts(images, prompt)).Response? ==>
      (!HasCandidate(send(RequestParts(images, prompt))) ==> r == Failure(NoCandidates))
    ensures apiKey != "" && HasCandidate(send(RequestParts(images, prompt))) ==>
      var parts := FirstParts(send(RequestParts(images, prompt)));
      (parts.None? ==> r == Failure(InvalidFormat))
      && (parts.Some? ==> r == Choose(LastFound(parts.value, true), LastFound(parts.value, false)))
    ensures !r.success ==> r.imageData.None? && r.error.Some?
    ensures r.success ==> r.error.None?
  {
    if apiKey == "" {
      return Failure(MissingKey);
    }
    var reply := send(RequestParts(images, prompt));
    match reply
    case Thrown(message) =>
      r := Failure(ThrownText(message));
    case Response(candidates) =>
      if candidates.None? || candidates.value == [] {
        return Failure(NoCandidates);
      }
      var candidate := candidates.value[0];
      if candidate.parts.None? {
        return Failure(InvalidFormat);
      }
      var imageData, textResponse := ScanParts(candidate.parts.value);
      r := Choose(imageData, textResponse);
  }
}
