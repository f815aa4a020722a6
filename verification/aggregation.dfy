/**
 * Aggregation of the provider's streamed answer: the chunks are walked in
 * arrival order; a chunk without a first candidate, or whose first
 * candidate has no content or no part list, is passed over; in every other
 * chunk each part of the first candidate that carries non-empty inline
 * data adds the Base64 encoding of that data to the result.
 */
module Aggregation {
  import opened Wrappers
  import opened Base64
  import opened GenAiTypes

  /** The parts of a chunk's first candidate, or `None` when the chunk is passed over. */
  function FirstCandidateParts(chunk: Chunk): Option<seq<Part>> {
    match chunk.candidates
    case None => None
    case Some(candidates) =>
      if |candidates| == 0 then None
      else
        match candidates[0].content
        case None => None
        case Some(content) => content.parts
  }

  /** The condition under which the loop moves on to the next chunk. */
  predicate Skipped(chunk: Chunk) {
    || chunk.candidates.None?
    || |chunk.candidates.value| == 0
    || chunk.candidates.value[0].content.None?
    || chunk.candidates.value[0].content.value.parts.None?
  }

  /** The loop's skip test holds exactly when the chunk has no first-candidate part list. */
  lemma SkippedIff(chunk: Chunk)
    ensures Skipped(chunk) <==> FirstCandidateParts(chunk).None?
  {
  }

  /** The bytes a part contributes: its inline data, when present and non-empty. */
  function KeptData(part: Part): Option<seq<byte>> {
    match part.inlineData
    case None => None
    case Some(blob) =>
      match blob.data
      case None => None
      case Some(data) => if |data| == 0 then None else Some(data)
  }

  /** What one part adds: its data, or nothing. */
  function PartFragment(part: Part): seq<seq<byte>> {
    match KeptData(part)
    case None => []
    case Some(data) => [data]
  }

  /** The fragments of a part list, in order. */
  function PartFragments(parts: seq<Part>): seq<seq<byte>> {
    if parts == [] then [] else PartFragments(parts[..|parts| - 1]) + PartFragment(parts[|parts| - 1])
  }

  /** The fragments of one chunk. */
  function ChunkFragments(chunk: Chunk): seq<seq<byte>> {
    match FirstCandidateParts(chunk)
    case None => []
    case Some(parts) => PartFragments(parts)
  }

  /** The fragments of a stream: chunk by chunk in arrival order, part by part within a chunk. */
  function Fragments(stream: seq<Chunk>): seq<seq<byte>> {
    if stream == [] then [] else Fragments(stream[..|stream| - 1]) + ChunkFragments(stream[|stream| - 1])
  }

  /** Each fragment encoded, in the same order. */
  function EncodeAll(fragments: seq<seq<byte>>): seq<string> {
    seq(|fragments|, i requires 0 <= i < |fragments| => Encode(fragments[i]))
  }

  lemma FragmentsSnoc(stream: seq<Chunk>, i: nat)
    requires i < |stream|
    ensures Fragments(stream[..i + 1]) == Fragments(stream[..i]) + ChunkFragments(stream[i])
  {
    assert stream[..i + 1][..i] == stream[..i];
  }

  lemma PartFragmentsSnoc(parts: seq<Part>, j: nat)
    requires j < |parts|
    ensures PartFragments(parts[..j + 1]) == PartFragments(parts[..j]) + PartFragment(parts[j])
  {
    assert parts[..j + 1][..j] == parts[..j];
  }

  /** `images` holds the encodings of `fragments`, one for one and in order. */
  ghost predicate EncodesAll(images: seq<string>, fragments: seq<seq<byte>>) {
    |images| == |fragments| && forall k | 0 <= k < |images| :: images[k] == Encode(fragments[k])
  }

  /**
   * The inner loop of the handler: for each part with non-empty inline
   * data, in order, append the encoding of that data.
   */
  method AppendPartImages(images: seq<string>, ghost done: seq<seq<byte>>, parts: seq<Part>)
    returns (result: seq<string>)
    requires EncodesAll(images, done)
    ensures EncodesAll(result, done + PartFragments(parts))
  {
    result := images;
    assert PartFragments(parts[..0]) == [];
    assert done + [] == done;
    for j := 0 to |parts|
      invariant EncodesAll(result, done + PartFragments(parts[..j]))
    {
      var part := parts[j];
      PartFragmentsSnoc(parts, j);
      ghost var sofar := done + PartFragments(parts[..j]);
      if part.inlineData.Some? && part.inlineData.value.data.Some? && |part.inlineData.value.data.value| > 0 {
        var data := part.inlineData.value.data.value;
        assert PartFragment(part) == [data];
        assert done + PartFragments(parts[..j + 1]) == sofar + [data];
        result := result + [Encode(data)];
      } else {
        assert PartFragment(part) == [];
        assert done + PartFragments(parts[..j + 1]) == sofar;
      }
    }
    assert parts[..|parts|] == parts;
  }

  /**
   * The loop of the handler: for each chunk that is not passed over, the
   * encodings of the data its first candidate's parts carry.
   */
  method CollectImages(stream: seq<Chunk>) returns (images: seq<string>)
    ensures |images| == |Fragments(stream)|
    ensures forall i | 0 <= i < |images| :: images[i] == Encode(Fragments(stream)[i])
    ensures images == EncodeAll(Fragments(stream))
  {
    images := [];
    for i := 0 to |stream|
      invariant EncodesAll(images, Fragments(stream[..i]))
    {
      var chunk := stream[i];
      FragmentsSnoc(stream, i);
      if Skipped(chunk) {
        assert ChunkFragments(chunk) == [];
        assert Fragments(stream[..i + 1]) == Fragments(stream[..i]);
        continue;
      }
      var parts := chunk.candidates.value[0].content.value.parts.value;
      assert ChunkFragments(chunk) == PartFragments(parts);
      images := AppendPartImages(images, Fragments(stream[..i]), parts);
    }
    assert stream[..|stream|] == stream;
  }

  /** Appending chunks appends their fragments: the result keeps arrival order. */
  lemma {:induction false} FragmentsAppend(a: seq<Chunk>, b: seq<Chunk>)
    ensures Fragments(a + b) == Fragments(a) + Fragments(b)
    decreases |b|
  {
    if b == [] {
      assert a + b == a;
    } else {
      var init, last := b[..|b| - 1], b[|b| - 1];
      assert (a + b)[..|a + b| - 1] == a + init;
      assert (a + b)[|a + b| - 1] == last;
      calc {
        Fragments(a + b);
        Fragments(a + init) + ChunkFragments(last);
        { FragmentsAppend(a, init); }
        (Fragments(a) + Fragments(init)) + ChunkFragments(last);
        Fragments(a) + (Fragments(init) + ChunkFragments(last));
        Fragments(a) + Fragments(b);
      }
    }
  }

  /** Within a chunk, appending parts appends their fragments. */
  lemma {:induction false} PartFragmentsAppend(a: seq<Part>, b: seq<Part>)
    ensures PartFragments(a + b) == PartFragments(a) + PartFragments(b)
    decreases |b|
  {
    if b == [] {
      assert a + b == a;
    } else {
      var init := b[..|b| - 1];
      assert (a + b)[..|a + b| - 1] == a + init;
      assert (a + b)[|a + b| - 1] == b[|b| - 1];
      PartFragmentsAppend(a, init);
    }
  }

  /**
   * A chunk without candidates, with an empty candidate list, whose first
   * candidate has no content, or whose content has no part list adds
   * nothing, and the chunks after it are still collected.
   */
  lemma SkippedChunkAddsNothing(before: seq<Chunk>, chunk: Chunk, after: seq<Chunk>)
    requires Skipped(chunk)
    ensures Fragments(before + [chunk] + after) == Fragments(before) + Fragments(after)
  {
    assert FirstCandidateParts(chunk).None?;
    assert [chunk][..0] == [];
    assert Fragments([chunk]) == [];
    FragmentsAppend(before, [chunk]);
    assert Fragments(before + [chunk]) == Fragments(before);
    FragmentsAppend(before + [chunk], after);
  }

  /** Two chunks agree on whether they have a first candidate, and on that candidate. */
  predicate SameFirstCandidate(a: Chunk, b: Chunk) {
    var aHas := a.candidates.Some? && |a.candidates.value| > 0;
    var bHas := b.candidates.Some? && |b.candidates.value| > 0;
    aHas == bHas && (aHas ==> a.candidates.value[0] == b.candidates.value[0])
  }

  /** Only the first candidate of a chunk is read: the candidates after it never change the result. */
  lemma {:induction false} OnlyFirstCandidateRead(s: seq<Chunk>, t: seq<Chunk>)
    requires |s| == |t|
    requires forall i | 0 <= i < |s| :: SameFirstCandidate(s[i], t[i])
    ensures Fragments(s) == Fragments(t)
    decreases |s|
  {
    if s != [] {
      var n := |s| - 1;
      assert SameFirstCandidate(s[n], t[n]);
      assert ChunkFragments(s[n]) == ChunkFragments(t[n]);
      OnlyFirstCandidateRead(s[..n], t[..n]);
    }
  }

  /** Every fragment is non-empty: parts whose data is empty are passed over. */
  lemma {:induction false} FragmentsNonEmpty(stream: seq<Chunk>)
    ensures forall i | 0 <= i < |Fragments(stream)| :: |Fragments(stream)[i]| > 0
    decreases |stream|
  {
    if stream != [] {
      var init := stream[..|stream| - 1];
      FragmentsNonEmpty(init);
      match FirstCandidateParts(stream[|stream| - 1])
      case None =>
      case Some(parts) => PartFragmentsNonEmpty(parts);
    }
  }

  lemma {:induction false} PartFragmentsNonEmpty(parts: seq<Part>)
    ensures forall i | 0 <= i < |PartFragments(parts)| :: |PartFragments(parts)[i]| > 0
    decreases |parts|
  {
    if parts != [] {
      PartFragmentsNonEmpty(parts[..|parts| - 1]);
    }
  }

  /** The positions of the parts that carry non-empty inline data. */
  function KeptPositions(parts: seq<Part>): set<nat> {
    set j: nat | j < |parts| && KeptData(parts[j]).Some?
  }

  /** The number of parts with non-empty inline data over all chunks that are not passed over. */
  function KeptCount(stream: seq<Chunk>): nat {
    if stream == [] then 0
    else
      KeptCount(stream[..|stream| - 1]) +
      match FirstCandidateParts(stream[|stream| - 1])
      case None => 0
      case Some(parts) => |KeptPositions(parts)|
  }

  lemma {:induction false} PartFragmentsCount(parts: seq<Part>)
    ensures |PartFragments(parts)| == |KeptPositions(parts)|
    decreases |parts|
  {
    if parts != [] {
      var n := |parts| - 1;
      var init := parts[..n];
      PartFragmentsCount(init);
      assert forall j: nat | j < n :: parts[j] == init[j];
      if KeptData(parts[n]).Some? {
        assert KeptPositions(parts) == KeptPositions(init) + {n};
      } else {
        assert KeptPositions(parts) == KeptPositions(init);
      }
    }
  }

  /** One image per kept part: no part is dropped or duplicated. */
  lemma {:induction false} FragmentsCount(stream: seq<Chunk>)
    ensures |Fragments(stream)| == KeptCount(stream)
    decreases |stream|
  {
    if stream != [] {
      FragmentsCount(stream[..|stream| - 1]);
      match FirstCandidateParts(stream[|stream| - 1])
      case None =>
      case Some(parts) => PartFragmentsCount(parts);
    }
  }

  /** Part `j` of the first candidate of chunk `k` carries `data`, non-empty. */
  ghost predicate KeptAt(stream: seq<Chunk>, k: int, j: int, data: seq<byte>) {
    && 0 <= k < |stream|
    && FirstCandidateParts(stream[k]).Some?
    && 0 <= j < |FirstCandidateParts(stream[k]).value|
    && KeptData(FirstCandidateParts(stream[k]).value[j]) == Some(data)
  }

  lemma {:induction false} PartFragmentsOrigin(parts: seq<Part>, data: seq<byte>)
    ensures data in PartFragments(parts) <==> exists j | 0 <= j < |parts| :: KeptData(parts[j]) == Some(data)
    decreases |parts|
  {
    if parts != [] {
      var n := |parts| - 1;
      var init := parts[..n];
      PartFragmentsOrigin(init, data);
      if exists j | 0 <= j < n :: KeptData(init[j]) == Some(data) {
        var j :| 0 <= j < n && KeptData(init[j]) == Some(data);
        assert parts[j] == init[j];
      }
      if exists j | 0 <= j < |parts| :: KeptData(parts[j]) == Some(data) {
        var j :| 0 <= j < |parts| && KeptData(parts[j]) == Some(data);
        if j < n {
          assert init[j] == parts[j];
        }
      }
    }
  }

  /** A kept part of a chunk before `n` is the same kept part in the first `n` chunks. */
  lemma KeptAtPrefix(stream: seq<Chunk>, n: nat, k: int, j: int, data: seq<byte>)
    requires k < n <= |stream|
    ensures KeptAt(stream[..n], k, j, data) <==> KeptAt(stream, k, j, data)
  {
    if 0 <= k {
      assert stream[..n][k] == stream[k];
    }
  }

  /** Every image comes from a kept part of some chunk. */
  lemma {:induction false} FragmentsFromKept(stream: seq<Chunk>, data: seq<byte>)
    requires data in Fragments(stream)
    ensures exists k, j :: KeptAt(stream, k, j, data)
    decreases |stream|
  {
    var n := |stream| - 1;
    var init := stream[..n];
    if data in Fragments(init) {
      FragmentsFromKept(init, data);
      var k, j :| KeptAt(init, k, j, data);
      KeptAtPrefix(stream, n, k, j, data);
    } else {
      var parts := FirstCandidateParts(stream[n]).value;
      PartFragmentsOrigin(parts, data);
      var j :| 0 <= j < |parts| && KeptData(parts[j]) == Some(data);
      assert KeptAt(stream, n, j, data);
    }
  }

  /** Every kept part of every chunk yields an image. */
  lemma {:induction false} KeptInFragments(stream: seq<Chunk>, k: int, j: int, data: seq<byte>)
    requires KeptAt(stream, k, j, data)
    ensures data in Fragments(stream)
    decreases |stream|
  {
    var n := |stream| - 1;
    var init := stream[..n];
    assert Fragments(stream) == Fragments(init) + ChunkFragments(stream[n]);
    if k < n {
      KeptAtPrefix(stream, n, k, j, data);
      KeptInFragments(init, k, j, data);
    } else {
      var parts := FirstCandidateParts(stream[n]).value;
      PartFragmentsOrigin(parts, data);
    }
  }

  /** A byte string is collected exactly when some kept part of some chunk carries it. */
  lemma FragmentsOrigin(stream: seq<Chunk>, data: seq<byte>)
    ensures data in Fragments(stream) <==> exists k, j :: KeptAt(stream, k, j, data)
  {
    if data in Fragments(stream) {
      FragmentsFromKept(stream, data);
    }
    if exists k, j :: KeptAt(stream, k, j, data) {
      var k, j :| KeptAt(stream, k, j, data);
      KeptInFragments(stream, k, j, data);
    }
  }

  /** Every returned image decodes back to the bytes of the part it came from. */
  lemma ImagesDecode(fragments: seq<seq<byte>>)
    ensures forall k | 0 <= k < |fragments| :: Decode(EncodeAll(fragments)[k]) == Some(fragments[k])
  {
    forall k | 0 <= k < |fragments|
      ensures Decode(EncodeAll(fragments)[k]) == Some(fragments[k])
    {
      DecodeEncode(fragments[k]);
    }
  }

  /** Different fragment lists give different image lists. */
  lemma EncodeAllInjective(a: seq<seq<byte>>, b: seq<seq<byte>>)
    requires EncodeAll(a) == EncodeAll(b)
    ensures a == b
  {
    assert |a| == |b|;
    forall k | 0 <= k < |a|
      ensures a[k] == b[k]
    {
      assert EncodeAll(a)[k] == EncodeAll(b)[k];
      EncodeInjective(a[k], b[k]);
    }
  }

  /** A chunk whose single candidate holds a single part carrying `data`. */
  function ImageChunk(data: seq<byte>): Chunk {
    var part := Part(None, Some(Blob(Some(data), None)));
    Chunk(Some([Candidate(Some(Content(None, Some([part]))))]))
  }

  /** A chunk carrying one non-empty image yields exactly that image. */
  lemma ImageChunkFragments(data: seq<byte>)
    requires |data| > 0
    ensures ChunkFragments(ImageChunk(data)) == [data]
  {
    var part := Part(None, Some(Blob(Some(data), None)));
    assert FirstCandidateParts(ImageChunk(data)) == Some([part]);
    assert KeptData(part) == Some(data);
    assert [part][..0] == [];
    assert PartFragments([part]) == PartFragments([]) + PartFragment(part);
  }

  /** Two chunks carrying one image each give two images, in arrival order. */
  lemma TwoChunksInOrder(first: seq<byte>, second: seq<byte>)
    requires |first| > 0 && |second| > 0
    ensures Fragments([ImageChunk(first), ImageChunk(second)]) == [first, second]
  {
    var stream := [ImageChunk(first), ImageChunk(second)];
    ImageChunkFragments(first);
    ImageChunkFragments(second);
    assert stream[..1][..0] == [];
    assert stream[..1] == [ImageChunk(first)];
    assert Fragments(stream[..1]) == [] + [first];
  }
}
