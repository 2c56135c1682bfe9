/** The timetable-image route: it asks the generative model about the
    image, cuts the JSON object out of the model's free-text reply with
    the greedy pattern `/\{[\s\S]*\}/`, and turns every failure on the way
    into one fixed error payload with status 500. */
module Timetable {
  import opened Optional
  import opened Search

  /** A half-open index range `[start, end)` of the reply text. */
  datatype Span = Span(start: nat, end: nat)

  /** Positions `i < j` holding `{` and `}`: the pattern can match from
      `i` to `j` inclusive. */
  predicate IsCandidate(text: string, i: int, j: int) {
    0 <= i < j < |text| && text[i] == '{' && text[j] == '}'
  }

  /** The match of `/\{[\s\S]*\}/`: the leftmost `{` that has some `}`
      after it starts the match, and the greedy `[\s\S]*` extends it to the
      last `}` of the text. */
  function FindJsonSpan(text: string): (r: Option<Span>)
    ensures r.Some? <==> exists i, j :: IsCandidate(text, i, j)
    ensures r.Some? ==> IsCandidate(text, r.value.start, r.value.end - 1)
    ensures r.Some? ==> forall i, j :: IsCandidate(text, i, j) ==> r.value.start <= i && j < r.value.end
    ensures r.Some? ==> forall k :: 0 <= k < r.value.start ==> text[k] != '{'
    ensures r.Some? ==> forall k :: r.value.end <= k < |text| ==> text[k] != '}'
  {
    match (IndexOf(text, '{'), LastIndexOf(text, '}'))
    case (Some(i), Some(j)) =>
      if i < j then assert IsCandidate(text, i, j); Some(Span(i, j + 1)) else None
    case _ => None
  }

  /** `jsonMatch[0]`: the matched text, or `None` when `text.match` gives `null`. */
  function ExtractJson(text: string): (r: Option<string>)
    ensures r.Some? <==> exists i, j :: IsCandidate(text, i, j)
    ensures r.Some? ==> r.value == text[FindJsonSpan(text).value.start..FindJsonSpan(text).value.end]
    ensures r.Some? ==> |r.value| >= 2 && r.value[0] == '{' && r.value[|r.value| - 1] == '}'
  {
    match FindJsonSpan(text)
    case None => None
    case Some(span) => Some(text[span.start..span.end])
  }

  /** A JSON object wrapped in prose (a code fence, a greeting) is cut out
      whole, as long as no `{` comes before it and no `}` after it. */
  lemma ExtractWrapped(prefix: string, obj: string, suffix: string)
    requires |obj| >= 2 && obj[0] == '{' && obj[|obj| - 1] == '}'
    requires '{' !in prefix && '}' !in suffix
    ensures ExtractJson(prefix + obj + suffix) == Some(obj)
  {
    var text := prefix + obj + suffix;
    var i, j := |prefix|, |prefix| + |obj| - 1;
    assert IsCandidate(text, i, j);
    assert forall k :: 0 <= k < i ==> text[k] == prefix[k];
    assert forall k :: j < k < |text| ==> text[k] == suffix[k - j - 1];
    var span := FindJsonSpan(text).value;
    assert span.start == i && span.end == j + 1;
    assert text[i..j + 1] == obj;
  }

  /** The media type sent along with the image: `mimeType || 'image/jpeg'`. */
  function MediaType(mimeType: Option<string>): (r: string)
    ensures |r| > 0
    ensures mimeType.Some? && mimeType.value != "" ==> r == mimeType.value
    ensures mimeType.None? || mimeType == Some("") ==> r == "image/jpeg"
  {
    match mimeType
    case Some(t) => if t != "" then t else "image/jpeg"
    case None => "image/jpeg"
  }

  /** The request body's two fields, either of which may be missing. */
  datatype TimetableRequest = TimetableRequest(imageBase64: Option<string>, mimeType: Option<string>)

  /** The inline image part handed to the generative model. */
  datatype InlineData = InlineData(mimeType: string, data: Option<string>)

  function ImagePart(req: TimetableRequest): InlineData {
    InlineData(MediaType(req.mimeType), req.imageBase64)
  }

  datatype Body<J> = Payload(json: J) | ErrorPayload(error: string)

  datatype Response<J> = Response(status: nat, body: Body<J>)

  const FailureMessage: string := "시간표 분석에 실패했어요. 이미지를 다시 확인해주세요."

  /** The route's `POST`. `request` is the parsed request body (`None` when
      it does not parse), `generate` the model's text reply to the image
      (`None` when the call fails) and `parseJson` `JSON.parse` (`None` on a
      syntax error). A successful parse is answered with status 200; every
      failure is caught and answered with the fixed message and status 500. */
  function HandleParseTimetable<J>(request: Option<TimetableRequest>,
                                   generate: InlineData -> Option<string>,
                                   parseJson: string -> Option<J>): (r: Response<J>)
    ensures r.status == 200 || r == Response(500, ErrorPayload(FailureMessage))
    ensures r.status == 200 <==>
      && request.Some?
      && generate(ImagePart(request.value)).Some?
      && ExtractJson(generate(ImagePart(request.value)).value).Some?
      && parseJson(ExtractJson(generate(ImagePart(request.value)).value).value).Some?
    ensures r.status == 200 ==>
      r.body == Payload(parseJson(ExtractJson(generate(ImagePart(request.value)).value).value).value)
  {
    var outcome :=
      match request
      case None => None
      case Some(req) =>
        match generate(ImagePart(req))
        case None => None
        case Some(reply) =>
          match ExtractJson(reply)
          case None => None
          case Some(json) => parseJson(json);
    match outcome
    case Some(value) => Response(200, Payload(value))
    case None => Response(500, ErrorPayload(FailureMessage))
  }

  /** End to end: when the model wraps a parseable JSON object in prose
      without braces around it, the route answers 200 with that object. */
  lemma WrappedReplyAccepted<J>(req: TimetableRequest, generate: InlineData -> Option<string>,
                                parseJson: string -> Option<J>,
                                prefix: string, obj: string, suffix: string)
    requires generate(ImagePart(req)) == Some(prefix + obj + suffix)
    requires |obj| >= 2 && obj[0] == '{' && obj[|obj| - 1] == '}'
    requires '{' !in prefix && '}' !in suffix
    requires parseJson(obj).Some?
    ensures HandleParseTimetable(Some(req), generate, parseJson) == Response(200, Payload(parseJson(obj).value))
  {
    ExtractWrapped(prefix, obj, suffix);
  }
}
