/**
 * The `/generate` handler: translate the request, run the provider's
 * stream under the deadline, collect the images, and classify the outcome.
 * An empty collection is a failure; a deadline that expires answers 504;
 * every other exception, the invalid image and the empty result among
 * them, answers 500.  Images collected before a failure are dropped.
 */
module Endpoint {
  import opened Wrappers
  import opened GenAiTypes
  import opened Translation
  import opened Aggregation

  /** How the provider's stream ended. */
  datatype StreamEnd =
    | Exhausted               // the stream ran to its end
    | DeadlineExceeded        // a TimeoutError reached the handler (normally the request deadline)
    | Raised(detail: string)  // any other exception while opening or reading it

  /** The chunks that arrived before the stream ended, and how it ended. */
  datatype StreamOutcome = StreamOutcome(received: seq<Chunk>, end: StreamEnd)

  /** The provider's streaming call, given the model name, the message and the settings. */
  type Provider = (string, seq<Content>, GenerateContentConfig) -> StreamOutcome

  /** The failures the handler reports. */
  datatype Failure =
    | Timeout                        // a TimeoutError, normally the request deadline
    | InvalidImage(payload: string)  // the image field did not decode
    | NoImages                       // the stream ended without any image
    | Upstream(detail: string)       // the provider call raised

  /** The handler's answer: 200 with a body, or an error status and its cause. */
  datatype Response = Success(body: ImageResponse) | HttpError(status: int, cause: Failure)

  const GatewayTimeout: int := 504
  const InternalServerError: int := 500

  /** The status each failure is answered with: 504 for the deadline, 500 for everything else. */
  function StatusFor(failure: Failure): (status: int)
    ensures status == GatewayTimeout <==> failure == Timeout
    ensures status == InternalServerError <==> failure != Timeout
  {
    match failure
    case Timeout => GatewayTimeout
    case _ => InternalServerError
  }

  /** A failure as the handler raises it. */
  function Fail(failure: Failure): Response {
    HttpError(StatusFor(failure), failure)
  }

  /**
   * The handler.  The provider is called only when the request translates;
   * the images are those of `Fragments` of the chunks received, returned
   * only when the stream was exhausted and at least one image was found.
   */
  method GenerateImage(body: GenerateImageRequest, provider: Provider) returns (response: Response)
    ensures response.Success? ==> |response.body.images| > 0 && response.body.metadata.None?
    ensures response.HttpError? ==> response.status == StatusFor(response.cause)
    ensures BuildContents(body).Err? ==>
      response == HttpError(InternalServerError, InvalidImage(BuildContents(body).error.payload))
    ensures BuildContents(body).Ok? ==>
      var outcome := provider(body.model, BuildContents(body).value, BuildConfig(body.model));
      var fragments := Fragments(outcome.received);
      match outcome.end
      case DeadlineExceeded => response == HttpError(GatewayTimeout, Timeout)
      case Raised(detail) => response == HttpError(InternalServerError, Upstream(detail))
      case Exhausted =>
        if |fragments| == 0 then response == HttpError(InternalServerError, NoImages)
        else response == Success(ImageResponse(EncodeAll(fragments), None))
  {
    var contents := BuildContents(body);
    if contents.Err? {
      return Fail(InvalidImage(contents.error.payload));
    }
    var config := BuildConfig(body.model);
    var outcome := provider(body.model, contents.value, config);
    var images := CollectImages(outcome.received);
    match outcome.end {
      case DeadlineExceeded =>
        response := Fail(Timeout);
      case Raised(detail) =>
        response := Fail(Upstream(detail));
      case Exhausted =>
        if |images| == 0 {
          response := Fail(NoImages);
        } else {
          response := Success(ImageResponse(images, None));
        }
    }
  }
}
