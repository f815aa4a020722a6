/**
 * The request and response records of the `/generate` endpoint, and the
 * translation of a request into the provider's message and generation
 * settings: a text part, an optional JPEG part decoded from the image
 * field (after dropping a data-URI header), and an image size chosen by
 * the model name.
 */
module Translation {
  import opened Wrappers
  import opened Base64
  import opened Text
  import opened GenAiTypes

  const DefaultModel: string := "gemini-3-pro-image-preview"
  const DefaultNumberOfImages: int := 1

  /**
   * The body of a `/generate` request, with the record's defaults.
   * `aspectRatio` and `numberOfImages` are accepted and never read.
   */
  datatype GenerateImageRequest = GenerateImageRequest(
    prompt: string,
    imageBase64: Option<string> := None,
    model: string := DefaultModel,
    aspectRatio: Option<string> := None,
    numberOfImages: int := DefaultNumberOfImages)

  /** The body of a successful answer: encoded images and optional metadata (a string-keyed mapping). */
  datatype ImageResponse = ImageResponse(images: seq<string>, metadata: Option<map<string, string>>)

  /** The separator that ends a data-URI header such as `data:image/png;base64,`. */
  const DataUriMarker: string := "base64,"
  /** The media type every input image is tagged with. */
  const ImageMimeType: string := "image/jpeg"
  const UserRole: string := "user"
  const ImageModality: string := "IMAGE"
  /** Model names holding this text are sent a fixed image size. */
  const ProImageTag: string := "pro-image"
  const ProImageSize: string := "1K"

  /** The image field is present and non-empty (Python's truth test on an optional string). */
  predicate HasImage(req: GenerateImageRequest) {
    req.imageBase64.Some? && |req.imageBase64.value| > 0
  }

  /**
   * `image.split("base64,")[1]` when the marker occurs, else the whole
   * field: the text after the first marker, up to a second marker or the end.
   */
  function StripDataUriPrefix(image: string): (payload: string)
    ensures !Contains(image, DataUriMarker) ==> payload == image
    ensures Contains(image, DataUriMarker) ==>
      var start := IndexOf(image, DataUriMarker).value + |DataUriMarker|;
      && start + |payload| <= |image|
      && payload == image[start..start + |payload|]
      && !Contains(payload, DataUriMarker)
      && (start + |payload| == |image| || OccursAt(image, DataUriMarker, start + |payload|))
  {
    if Contains(image, DataUriMarker) then
      SplitSecond(image, DataUriMarker);
      Split(image, DataUriMarker)[1]
    else
      image
  }

  /** The image could not be decoded; the handler answers 500 without calling the provider. */
  datatype DecodeFailure = InvalidBase64(payload: string)

  /** The JPEG part for the image field, or the decoding failure. */
  function ImagePart(image: string): (r: Result<Part, DecodeFailure>)
    ensures r.Ok? <==> Decode(StripDataUriPrefix(image)).Some?
    ensures r.Ok? ==> r.value == PartFromBytes(Decode(StripDataUriPrefix(image)).value, ImageMimeType)
  {
    var payload := StripDataUriPrefix(image);
    match Decode(payload)
    case None => Err(InvalidBase64(payload))
    case Some(bytes) => Ok(PartFromBytes(bytes, ImageMimeType))
  }

  /** The ordered part list: the prompt, then the image when the field is non-empty. */
  function BuildParts(req: GenerateImageRequest): (r: Result<seq<Part>, DecodeFailure>)
    ensures r.Err? <==> HasImage(req) && ImagePart(req.imageBase64.value).Err?
    ensures r.Ok? ==> |r.value| == (if HasImage(req) then 2 else 1)
    ensures r.Ok? ==> r.value[0] == PartFromText(req.prompt)
    ensures r.Ok? && HasImage(req) ==> r.value[1] == ImagePart(req.imageBase64.value).value
  {
    var parts := [PartFromText(req.prompt)];
    if HasImage(req) then
      match ImagePart(req.imageBase64.value)
      case Err(e) => Err(e)
      case Ok(image) => Ok(parts + [image])
    else
      Ok(parts)
  }

  /** The single user message sent to the provider. */
  function BuildContents(req: GenerateImageRequest): (r: Result<seq<Content>, DecodeFailure>)
    ensures !HasImage(req) ==> r == Ok([Content(Some(UserRole), Some([PartFromText(req.prompt)]))])
    ensures r.Err? <==> HasImage(req) && Decode(StripDataUriPrefix(req.imageBase64.value)).None?
    ensures r.Err? ==> r.error == InvalidBase64(StripDataUriPrefix(req.imageBase64.value))
    ensures HasImage(req) && r.Ok? ==>
      var bytes := Decode(StripDataUriPrefix(req.imageBase64.value)).value;
      r.value == [Content(Some(UserRole), Some([PartFromText(req.prompt), PartFromBytes(bytes, ImageMimeType)]))]
  {
    match BuildParts(req)
    case Err(e) => Err(e)
    case Ok(parts) =>
      assert HasImage(req) ==> parts == [parts[0], parts[1]];
      Ok([Content(Some(UserRole), Some(parts))])
  }

  /** Image output only; an image size of "1K" exactly for model names containing "pro-image". */
  function BuildConfig(model: string): (config: GenerateContentConfig)
    ensures config.responseModalities == [ImageModality]
    ensures config.imageConfig.Some? <==> exists i :: OccursAt(model, ProImageTag, i)
    ensures config.imageConfig.Some? ==> config.imageConfig.value.imageSize == Some(ProImageSize)
  {
    ContainsIff(model, ProImageTag);
    GenerateContentConfig(
      [ImageModality],
      if Contains(model, ProImageTag) then Some(ImageConfig(Some(ProImageSize))) else None)
  }

  /**
   * A request that names only its prompt asks for the default model, sends
   * no image, and, the default model being a "pro-image" one, is sent the
   * fixed image size.
   */
  lemma DefaultRequest(prompt: string)
    ensures GenerateImageRequest(prompt).model == DefaultModel
    ensures BuildContents(GenerateImageRequest(prompt)) == Ok([Content(Some(UserRole), Some([PartFromText(prompt)]))])
    ensures BuildConfig(DefaultModel).imageConfig == Some(ImageConfig(Some(ProImageSize)))
  {
    assert OccursAt(DefaultModel, ProImageTag, 9);
  }

  /** An occurrence within the first `n` characters is an occurrence in that prefix. */
  lemma OccursInPrefix(t: string, pat: string, n: nat, j: int)
    requires n <= |t| && OccursAt(t, pat, j) && j + |pat| <= n
    ensures OccursAt(t[..n], pat, j)
  {
  }

  /** An occurrence at or after `a` is an occurrence in the suffix from `a`. */
  lemma OccursInSuffix(t: string, pat: string, a: nat, j: int)
    requires a <= j && OccursAt(t, pat, j)
    ensures OccursAt(t[a..], pat, j - a)
  {
  }

  /** The marker cannot overlap itself: no proper suffix of it starts it again. */
  lemma MarkerHasNoBorder(t: string, n: nat, j: int)
    requires n + |DataUriMarker| <= |t| && t[n..n + |DataUriMarker|] == DataUriMarker
    requires n - |DataUriMarker| < j < n
    ensures !OccursAt(t, DataUriMarker, j)
  {
    assert t[n] == 'b' by { assert t[n] == t[n..n + |DataUriMarker|][0]; }
  }

  /** In `header + marker + payload`, with no marker in the header, the first marker is the one after the header. */
  lemma FirstMarkerAfterHeader(header: string, payload: string)
    requires !Contains(header, DataUriMarker)
    ensures IndexOf(header + DataUriMarker + payload, DataUriMarker) == Some(|header|)
  {
    var t := header + DataUriMarker + payload;
    var n := |header|;
    assert t[..n] == header;
    assert t[n..n + |DataUriMarker|] == DataUriMarker;
    assert OccursAt(t, DataUriMarker, n);
    ContainsIff(header, DataUriMarker);
    forall j | 0 <= j < n ensures !OccursAt(t, DataUriMarker, j) {
      if j + |DataUriMarker| <= n {
        if OccursAt(t, DataUriMarker, j) {
          OccursInPrefix(t, DataUriMarker, n, j);
        }
      } else {
        MarkerHasNoBorder(t, n, j);
      }
    }
  }

  /**
   * A data-URI header does not change the payload: the field
   * `header + "base64," + payload` strips to `payload` whenever neither
   * part holds the marker, and so does the bare `payload`.
   */
  lemma StripDataUriHeader(header: string, payload: string)
    requires !Contains(header, DataUriMarker) && !Contains(payload, DataUriMarker)
    ensures StripDataUriPrefix(header + DataUriMarker + payload) == payload
    ensures StripDataUriPrefix(payload) == payload
  {
    var t := header + DataUriMarker + payload;
    var start := |header| + |DataUriMarker|;
    FirstMarkerAfterHeader(header, payload);
    var piece := StripDataUriPrefix(t);
    assert t[start..] == payload;
    if start + |piece| < |t| {
      OccursInSuffix(t, DataUriMarker, start, start + |piece|);
      ContainsIff(payload, DataUriMarker);
    }
    assert piece == t[start..];
  }

  /** Text produced by the encoder never holds the marker: its comma is outside the alphabet. */
  lemma EncodedHasNoMarker(b: seq<byte>)
    ensures !Contains(Encode(b), DataUriMarker)
  {
    var e := Encode(b);
    EncodeAlphabet(b);
    forall j ensures !OccursAt(e, DataUriMarker, j) {
      if 0 <= j && j + |DataUriMarker| <= |e| {
        assert IsLetter(e[j + 6]) || e[j + 6] == Padding;
      }
    }
    ContainsIff(e, DataUriMarker);
  }

  /** The image field as the part it becomes, for encoded bytes behind a data-URI header or bare. */
  lemma ImagePartOfEncoded(header: string, b: seq<byte>)
    requires !Contains(header, DataUriMarker)
    ensures ImagePart(header + DataUriMarker + Encode(b)) == Ok(PartFromBytes(b, ImageMimeType))
    ensures ImagePart(Encode(b)) == Ok(PartFromBytes(b, ImageMimeType))
  {
    EncodedHasNoMarker(b);
    StripDataUriHeader(header, Encode(b));
    DecodeEncode(b);
  }

  lemma BuildPartsWithImage(req: GenerateImageRequest, image: Part)
    requires HasImage(req) && ImagePart(req.imageBase64.value) == Ok(image)
    ensures BuildParts(req) == Ok([PartFromText(req.prompt), image])
  {
    assert [PartFromText(req.prompt)] + [image] == [PartFromText(req.prompt), image];
  }

  /**
   * An image sent as encoded bytes behind a data-URI header reaches the
   * provider as exactly those bytes, tagged as JPEG, after the prompt.
   */
  lemma ImageWithHeaderRoundTrip(req: GenerateImageRequest, header: string, b: seq<byte>)
    requires !Contains(header, DataUriMarker)
    requires req.imageBase64 == Some(header + DataUriMarker + Encode(b))
    ensures BuildParts(req) == Ok([PartFromText(req.prompt), PartFromBytes(b, ImageMimeType)])
  {
    var image := header + DataUriMarker + Encode(b);
    assert |image| > 0;
    ImagePartOfEncoded(header, b);
    BuildPartsWithImage(req, PartFromBytes(b, ImageMimeType));
  }

  /**
   * An image sent as bare encoded bytes reaches the provider as exactly
   * those bytes; an empty image field sends the prompt alone.
   */
  lemma ImageBareRoundTrip(req: GenerateImageRequest, b: seq<byte>)
    requires req.imageBase64 == Some(Encode(b))
    ensures |b| > 0 ==> BuildParts(req) == Ok([PartFromText(req.prompt), PartFromBytes(b, ImageMimeType)])
    ensures |b| == 0 ==> BuildParts(req) == Ok([PartFromText(req.prompt)])
  {
    if |b| > 0 {
      ImagePartOfEncoded([], b);
      BuildPartsWithImage(req, PartFromBytes(b, ImageMimeType));
    }
  }

  /**
   * The message for an image sent as encoded bytes behind a data-URI
   * header: one user content holding the prompt, then exactly those bytes
   * tagged as JPEG.
   */
  lemma ContentsWithHeaderImage(req: GenerateImageRequest, header: string, b: seq<byte>)
    requires !Contains(header, DataUriMarker)
    requires req.imageBase64 == Some(header + DataUriMarker + Encode(b))
    ensures BuildContents(req) ==
      Ok([Content(Some(UserRole), Some([PartFromText(req.prompt), PartFromBytes(b, ImageMimeType)]))])
  {
    ImageWithHeaderRoundTrip(req, header, b);
  }
}
