/**
 * The records of the model provider's client library that the relay reads
 * and builds.  Every field the relay tests for `None` is an `Option` here;
 * fields the relay never reads are left out.
 */
module GenAiTypes {
  import opened Wrappers
  import opened Base64

  /** Inline binary data with its media type. */
  datatype Blob = Blob(data: Option<seq<byte>>, mimeType: Option<string>)

  /** One part of a message: text, inline binary data, or (in a response) either. */
  datatype Part = Part(text: Option<string>, inlineData: Option<Blob>)

  /** A message: its role and its ordered parts. */
  datatype Content = Content(role: Option<string>, parts: Option<seq<Part>>)

  /** One candidate answer within a streamed chunk. */
  datatype Candidate = Candidate(content: Option<Content>)

  /** One chunk of the streamed answer: its candidates, if any. */
  datatype Chunk = Chunk(candidates: Option<seq<Candidate>>)

  datatype ImageConfig = ImageConfig(imageSize: Option<string>)

  datatype GenerateContentConfig = GenerateContentConfig(
    responseModalities: seq<string>,
    imageConfig: Option<ImageConfig>)

  /** The library's `Part.from_text`. */
  function PartFromText(text: string): Part {
    Part(Some(text), None)
  }

  /** The library's `Part.from_bytes`. */
  function PartFromBytes(data: seq<byte>, mimeType: string): Part {
    Part(None, Some(Blob(Some(data), Some(mimeType))))
  }
}
