# BananaService `/generate` relay — a Dafny model

BananaService is a small HTTP relay in front of a hosted image-generation model.
Its one interesting endpoint, `POST /generate`, does the following:
- takes a prompt and an optional Base64 image, which may carry a data-URI header such as `data:image/png;base64,`;
- builds the provider's request: a user message made of a text part and, when an image is given, a JPEG part, plus settings that ask for image output;
- streams the provider's answer and collects every inline image of each chunk's first candidate, Base64-encoded and in arrival order;
- answers in one of four ways:
  - 200 with the image list;
  - 504 when a `TimeoutError` reaches the handler (normally the request deadline);
  - 500 when nothing was generated;
  - 500 on any other failure, including an image field that does not decode.

The model is a set of modules:

| file | module | what it holds |
|---|---|---|
| `wrappers.dfy` | `Wrappers` | `Option` and `Result` |
| `base64.dfy` | `Base64` | the standard Base64 alphabet with padding (section 4 of RFC 4648): encoder, strict decoder, round trip, injectivity, alphabet of the output |
| `text.dfy` | `Text` | substring search and the string split the handler uses (`s.split(sep)`), with the join/split round trip and the shape of the second piece |
| `genai_types.dfy` | `GenAiTypes` | the provider's records: blob, part, content, candidate, stream chunk, generation settings |
| `translation.dfy` | `Translation` | the request and response records, stripping of the data-URI header, the part list, the message and the settings |
| `aggregation.dfy` | `Aggregation` | the chunk loop (an imperative method proved against the specification function `Fragments`) and what the collected list is |
| `endpoint.dfy` | `Endpoint` | the handler as a method; the provider call is a parameter; statuses |

The provider's streaming call is modelled as a function parameter `Provider`.
Given the model name, the message and the settings, it returns a `StreamOutcome`: the chunks received before the stream ended, and how it ended.
A stream can end in three ways:
- it runs out;
- a `TimeoutError` reaches the handler (normally the request deadline expired; a timeout raised inside the provider's library is answered the same way);
- some other exception is raised.

The handler walks the received chunks whatever the ending, as the source's loop does, and only then classifies the ending.
Images gathered before a failure are therefore dropped, and the contract of `Endpoint.GenerateImage` says so.

Two details of the handler that the model keeps:
- An image field that fails to decode raises inside the handler's `try` and is answered 500, like every other failure.
- The data-URI header is dropped with `split("base64,")[1]`. That keeps the text after the FIRST marker only up to a SECOND marker, if any. It does not keep everything after the first marker.

## Model

| member | source | states |
|---|---|---|
| Translation.StripDataUriPrefix | main.py:132-134 | without `base64,` the field is kept whole; otherwise the result is the text right after the first marker, holds no marker, and ends at the end of the field or where a further marker starts |
| Translation.StripDataUriHeader | main.py:133-134 | for a header and a payload that hold no marker, `header + "base64," + payload` and the bare `payload` both strip to `payload` |
| Translation.BuildParts | main.py:127-142 | fails exactly when the image field is non-empty and does not decode; otherwise the prompt's text part comes first, followed by the image part exactly when the field is non-empty (an absent or empty field sends the prompt alone) |
| Translation.BuildContents | main.py:127-149 | without an image the message is one `user` content holding only the prompt's text part; the request fails exactly when the image field is non-empty and its stripped payload does not decode, and the failure names that payload; otherwise the message is one `user` content holding the prompt's text part, then the decoded bytes tagged `image/jpeg` |
| Translation.ContentsWithHeaderImage | main.py:127-149 | a request whose image is a data-URI of bytes `b` sends the one `user` message `[prompt, b as image/jpeg]` |
| Translation.DefaultRequest | main.py:86-91 | a request naming only its prompt asks for the default model `gemini-3-pro-image-preview`, sends the prompt alone, and, that model containing `pro-image`, is sent the image size `1K` |
| Translation.BuildConfig | main.py:152-155 | output modality is image only; an image size is set exactly when the model name contains `pro-image`, and it is `1K` |
| Translation.EncodedHasNoMarker | main.py:133 | text produced by the Base64 encoder never contains `base64,`, so the strip leaves an encoded payload alone |
| Translation.ImagePartOfEncoded | main.py:132-141 | encoded bytes, behind a data-URI header or bare, become a JPEG part with exactly those bytes |
| Translation.ImageWithHeaderRoundTrip | main.py:127-142 | a request whose image is a data-URI of bytes `b` yields the parts `[prompt, bytes b as image/jpeg]` |
| Translation.ImageBareRoundTrip | main.py:127-142 | a request whose image is the bare encoding of `b` yields `[prompt, b as image/jpeg]`, or the prompt alone when `b` is empty |
| Base64.Encode | main.py:178 | the encoding of `n` bytes has `4 * ceil(n / 3)` characters |
| Base64.Decode | main.py:136 | a successful strict decode reads a text whose length is a multiple of four |
| Base64.DecodeEncode | main.py:136-178 | decoding the encoding of any byte string gives back that byte string |
| Base64.EncodeAlphabet | main.py:178 | every encoded character is one of the 64 alphabet letters or the padding `=` |
| Base64.EncodeInjective | main.py:178 | different byte strings have different encodings |
| Text.IndexFrom | main.py:133 | returns the first occurrence of the pattern at or after the start, or reports that there is none |
| Text.ContainsIff | main.py:133 | `pat in s` holds exactly when the pattern occurs at some position |
| Text.JoinSplit | main.py:134 | joining the pieces of a split with the separator restores the string |
| Text.SplitFromPiecesFree | main.py:134 | no piece of a split contains the separator |
| Text.SplitCount | main.py:133-134 | a split has a second piece exactly when the separator occurs, so `[1]` is defined exactly when the marker check passed |
| Text.SplitSecond | main.py:134 | the second piece starts right after the first separator, holds no separator, and ends at the end of the string or at the next separator |
| Aggregation.AppendPartImages | main.py:176-179 | the inner loop appends, in part order, the encodings of exactly the parts whose inline data is present and non-empty |
| Aggregation.CollectImages | main.py:157-179 | the loop returns one encoded image per fragment of `Fragments(stream)`, in order |
| Aggregation.FragmentsAppend | main.py:167 | later chunks append after earlier ones: the result keeps arrival order |
| Aggregation.PartFragmentsAppend | main.py:176 | within a chunk, later parts append after earlier ones |
| Aggregation.SkippedIff | main.py:168-174 | the loop's four-way skip test holds exactly when the chunk has no part list of a first candidate |
| Aggregation.SkippedChunkAddsNothing | main.py:168-174 | a chunk with no candidates, an empty candidate list, no content or no part list adds nothing, and later chunks are still collected |
| Aggregation.OnlyFirstCandidateRead | main.py:171-176 | candidates after the first never change the result |
| Aggregation.FragmentsNonEmpty | main.py:177 | no collected image comes from empty data |
| Aggregation.FragmentsCount | main.py:176-179 | the number of images equals the number of kept parts over all chunks: nothing dropped, nothing duplicated |
| Aggregation.FragmentsOrigin | main.py:167-179 | a byte string is collected exactly when some kept part of some chunk's first candidate carries it |
| Aggregation.ImagesDecode | main.py:178 | every returned image decodes back to the bytes of its part |
| Aggregation.EncodeAllInjective | main.py:178-179 | different fragment lists give different image lists |
| Aggregation.ImageChunkFragments | main.py:167-179 | a chunk whose one candidate carries one non-empty image yields exactly that image |
| Aggregation.TwoChunksInOrder | main.py:167-179 | two chunks carrying one image each give two images, in arrival order |
| Endpoint.StatusFor | main.py:188-193 | 504 exactly for a timeout, 500 for every other failure |
| Endpoint.GenerateImage | main.py:122-193 | an undecodable image answers 500 whatever the provider would do; otherwise a timeout answers 504, a provider exception 500, a finished stream without images 500, and a finished stream with images 200, holding the encodings of `Fragments` of the received chunks and no metadata; a success is never empty |

## Left out

- Rate limiting per client address, the shared client pool, the application lifespan, the health endpoint, logging, the entry point and the settings file are not part of this model.
- The deadline is not a clock. The provider's outcome says whether a timeout reached the handler, and when.
- The provider's network call is not modelled. It is a parameter, and any outcome it gives is accepted.
- The text of an error (`detail`) is not modelled. A failure is described by its status and a cause tag.
- Base64.Decode: decoding is strict RFC 4648. It takes full groups of four with only final padding and rejects everything else. Python's default decoder is more lenient: it silently drops characters outside the alphabet and accepts some malformed padding. For such inputs the model answers 500 where the service may pass bytes on.
- `aspect_ratio` and `number_of_images` are accepted by the request record and never read by the handler. They are carried in the record and unused here too.
- The `metadata` field of the response is a string-keyed mapping here. Values of other kinds are not modelled, and the handler never sets the field.
- The streaming protocol itself, and how chunks are parsed from the wire, are not part of this model.
