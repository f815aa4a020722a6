/**
 * Base64 as defined in section 4 of RFC 4648: every group of three bytes
 * becomes four characters of the 64-letter alphabet, and a final group of
 * one or two bytes is completed with `=` padding.  This is the encoding the
 * relay applies to every image fragment, and the decoding it applies to the
 * optional input image.
 */
module Base64 {
  import opened Wrappers

  type byte = x: int | 0 <= x < 256

  const Padding: char := '='

  /** The letter of the alphabet (section 4 of RFC 4648, Table 1) for the 6-bit value `v`. */
  function Letter(v: int): (c: char)
    requires 0 <= v < 64
    ensures Sextet(c) == Some(v)
    ensures c != Padding
  {
    if v < 26 then ('A' as int + v) as char
    else if v < 52 then ('a' as int + (v - 26)) as char
    else if v < 62 then ('0' as int + (v - 52)) as char
    else if v == 62 then '+'
    else '/'
  }

  /** The 6-bit value a character of the alphabet stands for; `None` for any other character. */
  function Sextet(c: char): (r: Option<int>)
    ensures r.Some? ==> 0 <= r.value < 64
  {
    if 'A' <= c <= 'Z' then Some(c as int - 'A' as int)
    else if 'a' <= c <= 'z' then Some(c as int - 'a' as int + 26)
    else if '0' <= c <= '9' then Some(c as int - '0' as int + 52)
    else if c == '+' then Some(62)
    else if c == '/' then Some(63)
    else None
  }

  predicate IsLetter(c: char) {
    Sextet(c).Some?
  }

  /** Three bytes, 24 bits, as four letters. */
  function EncodeTriple(b0: byte, b1: byte, b2: byte): string {
    [Letter(b0 / 4), Letter((b0 % 4) * 16 + b1 / 16), Letter((b1 % 16) * 4 + b2 / 64), Letter(b2 % 64)]
  }

  /** A final group of two bytes: three letters and one pad character. */
  function EncodePair(b0: byte, b1: byte): string {
    [Letter(b0 / 4), Letter((b0 % 4) * 16 + b1 / 16), Letter((b1 % 16) * 4), Padding]
  }

  /** A final group of one byte: two letters and two pad characters. */
  function EncodeSingle(b0: byte): string {
    [Letter(b0 / 4), Letter((b0 % 4) * 16), Padding, Padding]
  }

  /** The encoding of section 4 of RFC 4648 (Python's `base64.b64encode`). */
  function Encode(b: seq<byte>): (s: string)
    ensures |s| == 4 * ((|b| + 2) / 3)
    decreases |b|
  {
    if |b| == 0 then []
    else if |b| == 1 then EncodeSingle(b[0])
    else if |b| == 2 then EncodePair(b[0], b[1])
    else EncodeTriple(b[0], b[1], b[2]) + Encode(b[3..])
  }

  /**
   * The last quantum of the text: four letters, three letters and one pad
   * character, or two letters and two pad characters.
   */
  function DecodeFinal(q: string): (r: Option<seq<byte>>)
    requires |q| == 4
    ensures r.Some? ==> 1 <= |r.value| <= 3
  {
    match (Sextet(q[0]), Sextet(q[1]), Sextet(q[2]), Sextet(q[3]))
    case (Some(c0), Some(c1), Some(c2), Some(c3)) =>
      Some([c0 * 4 + c1 / 16, (c1 % 16) * 16 + c2 / 4, (c2 % 4) * 64 + c3])
    case (Some(c0), Some(c1), Some(c2), None) =>
      if q[3] == Padding then Some([c0 * 4 + c1 / 16, (c1 % 16) * 16 + c2 / 4]) else None
    case (Some(c0), Some(c1), None, None) =>
      if q[2] == Padding && q[3] == Padding then Some([c0 * 4 + c1 / 16]) else None
    case _ => None
  }

  /** A quantum that is not the last one: four letters, three bytes. */
  function DecodeInner(q: string): (r: Option<seq<byte>>)
    requires |q| == 4
    ensures r.Some? ==> |r.value| == 3
  {
    match (Sextet(q[0]), Sextet(q[1]), Sextet(q[2]), Sextet(q[3]))
    case (Some(c0), Some(c1), Some(c2), Some(c3)) =>
      Some([c0 * 4 + c1 / 16, (c1 % 16) * 16 + c2 / 4, (c2 % 4) * 64 + c3])
    case _ => None
  }

  /**
   * Strict decoding: `None` for text whose length is not a multiple of four,
   * that holds a character outside the alphabet, or that pads anywhere but
   * at its end.
   */
  function Decode(s: string): (r: Option<seq<byte>>)
    ensures r.Some? ==> |s| % 4 == 0
    decreases |s|
  {
    if |s| == 0 then Some([])
    else if |s| < 4 then None
    else if |s| == 4 then DecodeFinal(s)
    else
      match DecodeInner(s[..4])
      case None => None
      case Some(head) =>
        match Decode(s[4..])
        case None => None
        case Some(tail) => Some(head + tail)
  }

  /** The four sextets of three bytes put back together give the three bytes. */
  lemma TripleSextets(b0: byte, b1: byte, b2: byte)
    ensures var c1 := (b0 % 4) * 16 + b1 / 16; b0 / 4 * 4 + c1 / 16 == b0
    ensures var c1, c2 := (b0 % 4) * 16 + b1 / 16, (b1 % 16) * 4 + b2 / 64; (c1 % 16) * 16 + c2 / 4 == b1
    ensures var c2 := (b1 % 16) * 4 + b2 / 64; (c2 % 4) * 64 + b2 % 64 == b2
  {
  }

  lemma TripleRoundTrip(b0: byte, b1: byte, b2: byte)
    ensures DecodeInner(EncodeTriple(b0, b1, b2)) == Some([b0, b1, b2])
    ensures DecodeFinal(EncodeTriple(b0, b1, b2)) == Some([b0, b1, b2])
  {
    var q := EncodeTriple(b0, b1, b2);
    var c0, c1, c2, c3 := b0 / 4, (b0 % 4) * 16 + b1 / 16, (b1 % 16) * 4 + b2 / 64, b2 % 64;
    assert Sextet(q[0]) == Some(c0) && Sextet(q[1]) == Some(c1);
    assert Sextet(q[2]) == Some(c2) && Sextet(q[3]) == Some(c3);
    TripleSextets(b0, b1, b2);
  }

  lemma DecodeEncodeThree(b: seq<byte>)
    requires |b| == 3
    ensures Decode(Encode(b)) == Some(b)
  {
    var q := EncodeTriple(b[0], b[1], b[2]);
    assert Encode(b) == q + Encode([]);
    assert q + [] == q;
    TripleRoundTrip(b[0], b[1], b[2]);
    assert Decode(q) == DecodeFinal(q);
    assert b == [b[0], b[1], b[2]];
  }

  lemma PairRoundTrip(b0: byte, b1: byte)
    ensures DecodeFinal(EncodePair(b0, b1)) == Some([b0, b1])
  {
    var q := EncodePair(b0, b1);
    var c0, c1, c2 := b0 / 4, (b0 % 4) * 16 + b1 / 16, (b1 % 16) * 4;
    assert Sextet(q[0]) == Some(c0) && Sextet(q[1]) == Some(c1) && Sextet(q[2]) == Some(c2);
    assert Sextet(q[3]) == None && q[3] == Padding;
    TripleSextets(b0, b1, 0);
  }

  lemma SingleRoundTrip(b0: byte)
    ensures DecodeFinal(EncodeSingle(b0)) == Some([b0])
  {
    var q := EncodeSingle(b0);
    var c0, c1 := b0 / 4, (b0 % 4) * 16;
    assert Sextet(q[0]) == Some(c0) && Sextet(q[1]) == Some(c1);
    assert Sextet(q[2]) == None && Sextet(q[3]) == None;
    assert q[2] == Padding && q[3] == Padding;
    TripleSextets(b0, 0, 0);
  }

  lemma DecodeEncodeTwo(b: seq<byte>)
    requires |b| == 2
    ensures Decode(Encode(b)) == Some(b)
  {
    var q := EncodePair(b[0], b[1]);
    PairRoundTrip(b[0], b[1]);
    assert Encode(b) == q;
    assert Decode(q) == DecodeFinal(q);
    assert b == [b[0], b[1]];
  }

  lemma DecodeEncodeOne(b: seq<byte>)
    requires |b| == 1
    ensures Decode(Encode(b)) == Some(b)
  {
    var q := EncodeSingle(b[0]);
    SingleRoundTrip(b[0]);
    assert Encode(b) == q;
    assert Decode(q) == DecodeFinal(q);
    assert b == [b[0]];
  }

  /** Decoding a non-final quantum followed by more text. */
  lemma DecodeConcat(q: string, rest: string, head: seq<byte>, tail: seq<byte>)
    requires |q| == 4 && |rest| > 0
    requires DecodeInner(q) == Some(head) && Decode(rest) == Some(tail)
    ensures Decode(q + rest) == Some(head + tail)
  {
    assert (q + rest)[..4] == q;
    assert (q + rest)[4..] == rest;
  }

  lemma EncodeUnfold(b: seq<byte>)
    requires |b| > 3
    ensures Encode(b) == EncodeTriple(b[0], b[1], b[2]) + Encode(b[3..])
  {
  }

  /** Decoding undoes encoding for every byte string. */
  lemma {:induction false} DecodeEncode(b: seq<byte>)
    ensures Decode(Encode(b)) == Some(b)
    decreases |b|
  {
    if |b| == 0 {
    } else if |b| == 1 {
      DecodeEncodeOne(b);
    } else if |b| == 2 {
      DecodeEncodeTwo(b);
    } else if |b| == 3 {
      DecodeEncodeThree(b);
    } else {
      DecodeEncode(b[3..]);
      DecodeEncodeStep(b);
    }
  }

  /** A byte string of more than three bytes is its first three bytes followed by the rest. */
  lemma SplitThree(b: seq<byte>)
    requires |b| > 3
    ensures b == [b[0], b[1], b[2]] + b[3..]
  {
  }

  /** The round trip for a leading group of three, given the round trip for the rest. */
  lemma DecodeEncodeStep(b: seq<byte>)
    requires |b| > 3 && Decode(Encode(b[3..])) == Some(b[3..])
    ensures Decode(Encode(b)) == Some(b)
  {
    var head, tail := [b[0], b[1], b[2]], b[3..];
    var q, e := EncodeTriple(b[0], b[1], b[2]), Encode(tail);
    calc {
      Decode(Encode(b));
      { EncodeUnfold(b); }
      Decode(q + e);
      { TripleRoundTrip(b[0], b[1], b[2]); DecodeConcat(q, e, head, tail); }
      Some(head + tail);
      { SplitThree(b); }
      Some(b);
    }
  }

  /** Encoded text uses only the 64 letters and the pad character. */
  lemma {:induction false} EncodeAlphabet(b: seq<byte>)
    ensures forall i | 0 <= i < |Encode(b)| :: IsLetter(Encode(b)[i]) || Encode(b)[i] == Padding
    decreases |b|
  {
    if |b| > 3 {
      EncodeAlphabet(b[3..]);
      EncodeUnfold(b);
      var head := EncodeTriple(b[0], b[1], b[2]);
      forall i | 0 <= i < |Encode(b)| ensures IsLetter(Encode(b)[i]) || Encode(b)[i] == Padding {
        if i >= 4 {
          assert Encode(b)[i] == Encode(b[3..])[i - 4];
        }
      }
    }
  }

  /** Encoding is injective: distinct fragments never share an encoding. */
  lemma EncodeInjective(a: seq<byte>, b: seq<byte>)
    requires Encode(a) == Encode(b)
    ensures a == b
  {
    DecodeEncode(a);
    DecodeEncode(b);
  }
}
