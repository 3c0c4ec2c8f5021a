/** `UnicodeBinaryEncode`: a `long` held in a string of four UTF-16 code
    units, the form Natural's encoded times take.

    A `long` is its 64-bit two's-complement pattern, `bv64`; a Java `char`
    is a UTF-16 code unit, `bv16`, since the encoder can produce lone
    surrogates. Unit `i` carries bits `16i` to `16i + 15`, raised by `0x100`
    to keep clear of the control characters. */
module Codec {
  import opened Results

  /** Bits `16 * pos` to `16 * pos + 15` of `x`. */
  function Chunk(x: bv64, pos: nat): bv16
    requires pos < 4
  {
    var shifted := if pos == 0 then x else if pos == 1 then x >> 16 else if pos == 2 then x >> 32 else x >> 48;
    (shifted & 0xFFFF) as bv16
  }

  /** `v` moved up to chunk `pos`. */
  function Placed(v: bv64, pos: nat): bv64
    requires pos < 4
  {
    if pos == 0 then v else if pos == 1 then v << 16 else if pos == 2 then v << 32 else v << 48
  }

  /** `Character.toChars(chunk + 0x100)[0]`: the code point itself while it
      fits one code unit, otherwise the high surrogate of its pair,
      `0xD800 + ((codePoint - 0x10000) >> 10)`, where `codePoint - 0x10000`
      is `chunk - 0xFF00`. */
  function Unit(chunk: bv16): bv16 {
    if chunk <= 0xFEFF then chunk + 0x100
    else 0xD800 + ((chunk - 0xFF00) >> 10)
  }

  /** A chunk that leaves room is raised by `0x100` and lands at or above
      it; every larger chunk gives the same lone high surrogate. */
  lemma UnitOffset(chunk: bv16)
    ensures chunk <= 0xFEFF ==> Unit(chunk) >= 0x100 && Unit(chunk) - 0x100 == chunk
    ensures chunk > 0xFEFF ==> Unit(chunk) == 0xD800
  {
  }

  /** `encodeLong`: always four units, unit `i` standing for chunk `i`. */
  function Encode(x: bv64): (s: seq<bv16>)
    ensures |s| == 4
    ensures forall i :: 0 <= i < 4 ==> s[i] == Unit(Chunk(x, i))
  {
    [Unit(Chunk(x, 0)), Unit(Chunk(x, 1)), Unit(Chunk(x, 2)), Unit(Chunk(x, 3))]
  }

  /** A unit less the offset, in 64-bit arithmetic: a unit below `0x100`
      gives a negative number, all ones above bit 15. */
  function Low(unit: bv16): bv64 {
    (unit as bv64) - 0x100
  }

  /** What unit `pos` contributes: the unit less the offset, moved up to its
      place. */
  function Contribution(unit: bv16, pos: nat): bv64
    requires pos < 4
  {
    Placed(Low(unit), pos)
  }

  /** `decodeLong`: text of any length but four throws; otherwise the
      contributions of the four units, or-ed together. */
  function Decode(text: seq<bv16>): (r: Result<bv64>)
    ensures r.Err? <==> |text| != 4
    ensures r.Err? ==> r.error == NaturalException(InvalidEncodedText)
  {
    if |text| != 4 then Err(NaturalException(InvalidEncodedText))
    else Ok(Join(text[0], text[1], text[2], text[3]))
  }

  function Join(a: bv16, b: bv16, c: bv16, d: bv16): bv64 {
    Contribution(a, 0) | Contribution(b, 1) | Contribution(c, 2) | Contribution(d, 3)
  }

  /** Every chunk leaves room for the offset. */
  predicate ChunksFit(x: bv64) {
    forall i :: 0 <= i < 4 ==> Chunk(x, i) <= 0xFEFF
  }

  /** Every unit is at least the offset. */
  predicate UnitsFit(text: seq<bv16>) {
    forall i :: 0 <= i < |text| ==> 0x100 <= text[i]
  }

  /** The encoded units of a value whose chunks fit all lie in
      `[0x100, 0xFFFF]` and are the chunks raised by `0x100`. */
  lemma EncodedUnitsFit(x: bv64)
    requires ChunksFit(x)
    ensures UnitsFit(Encode(x))
    ensures forall i :: 0 <= i < 4 ==> Encode(x)[i] - 0x100 == Chunk(x, i)
  {
    forall i | 0 <= i < 4 ensures 0x100 <= Encode(x)[i] && Encode(x)[i] - 0x100 == Chunk(x, i) {
      UnitOffset(Chunk(x, i));
    }
  }

  lemma UnitsRebuild(x: bv64)
    requires Chunk(x, 0) <= 0xFEFF && Chunk(x, 1) <= 0xFEFF && Chunk(x, 2) <= 0xFEFF && Chunk(x, 3) <= 0xFEFF
    ensures Join(Unit(Chunk(x, 0)), Unit(Chunk(x, 1)), Unit(Chunk(x, 2)), Unit(Chunk(x, 3))) == x
  {
  }

  /** Decoding what was encoded gives the value back when every chunk is at
      most `0xFEFF`. */
  lemma RoundTrip(x: bv64)
    requires ChunksFit(x)
    ensures Decode(Encode(x)) == Ok(x)
  {
    assert Chunk(x, 0) <= 0xFEFF && Chunk(x, 1) <= 0xFEFF && Chunk(x, 2) <= 0xFEFF && Chunk(x, 3) <= 0xFEFF;
    UnitsRebuild(x);
  }

  lemma ChunkOfDecoded(a: bv16, b: bv16, c: bv16, d: bv16)
    requires 0x100 <= a && 0x100 <= b && 0x100 <= c && 0x100 <= d
    ensures Unit(Chunk(Join(a, b, c, d), 0)) == a && Unit(Chunk(Join(a, b, c, d), 1)) == b
    ensures Unit(Chunk(Join(a, b, c, d), 2)) == c && Unit(Chunk(Join(a, b, c, d), 3)) == d
  {
    JoinChunk0(a, b, c, d);
    JoinChunk1(a, b, c, d);
    JoinChunk2(a, b, c, d);
    JoinChunk3(a, b, c, d);
    UnitOfChunk(a);
    UnitOfChunk(b);
    UnitOfChunk(c);
    UnitOfChunk(d);
  }

  /** Chunk `i` of a decoded value is unit `i` less the offset, when every
      unit is at least the offset. */
  lemma JoinChunk0(a: bv16, b: bv16, c: bv16, d: bv16)
    requires 0x100 <= a && 0x100 <= b && 0x100 <= c && 0x100 <= d
    ensures Chunk(Join(a, b, c, d), 0) == a - 0x100
  {
    Lowered(a);
    Lowered(b);
    Lowered(c);
    Lowered(d);
    JoinIsPlaced(a, b, c, d);
    Field0(Low(a), Low(b), Low(c), Low(d));
  }

  lemma JoinChunk1(a: bv16, b: bv16, c: bv16, d: bv16)
    requires 0x100 <= a && 0x100 <= b && 0x100 <= c && 0x100 <= d
    ensures Chunk(Join(a, b, c, d), 1) == b - 0x100
  {
    Lowered(a);
    Lowered(b);
    Lowered(c);
    Lowered(d);
    JoinIsPlaced(a, b, c, d);
    Field1(Low(a), Low(b), Low(c), Low(d));
  }

  lemma JoinChunk2(a: bv16, b: bv16, c: bv16, d: bv16)
    requires 0x100 <= a && 0x100 <= b && 0x100 <= c && 0x100 <= d
    ensures Chunk(Join(a, b, c, d), 2) == c - 0x100
  {
    Lowered(a);
    Lowered(b);
    Lowered(c);
    Lowered(d);
    JoinIsPlaced(a, b, c, d);
    Field2(Low(a), Low(b), Low(c), Low(d));
  }

  lemma JoinChunk3(a: bv16, b: bv16, c: bv16, d: bv16)
    requires 0x100 <= a && 0x100 <= b && 0x100 <= c && 0x100 <= d
    ensures Chunk(Join(a, b, c, d), 3) == d - 0x100
  {
    Lowered(a);
    Lowered(b);
    Lowered(c);
    Lowered(d);
    JoinIsPlaced(a, b, c, d);
    Field3(Low(a), Low(b), Low(c), Low(d));
  }

  lemma JoinIsPlaced(a: bv16, b: bv16, c: bv16, d: bv16)
    ensures Join(a, b, c, d) == Placed(Low(a), 0) | Placed(Low(b), 1) | Placed(Low(c), 2) | Placed(Low(d), 3)
  {
  }

  /** A unit at or above the offset, lowered in 64 bits, fits one chunk. */
  lemma Lowered(u: bv16)
    requires 0x100 <= u
    ensures Low(u) <= 0xFFFF && Low(u) as bv16 == u - 0x100
  {
  }

  /** Four chunk-sized values placed side by side are read back one by one;
      one lemma per position keeps each bit-vector query small enough for
      the solver. */
  lemma Field0(e0: bv64, e1: bv64, e2: bv64, e3: bv64)
    requires e0 <= 0xFFFF && e1 <= 0xFFFF && e2 <= 0xFFFF && e3 <= 0xFFFF
    ensures Chunk(Placed(e0, 0) | Placed(e1, 1) | Placed(e2, 2) | Placed(e3, 3), 0) == e0 as bv16
  {
  }

  lemma Field1(e0: bv64, e1: bv64, e2: bv64, e3: bv64)
    requires e0 <= 0xFFFF && e1 <= 0xFFFF && e2 <= 0xFFFF && e3 <= 0xFFFF
    ensures Chunk(Placed(e0, 0) | Placed(e1, 1) | Placed(e2, 2) | Placed(e3, 3), 1) == e1 as bv16
  {
  }

  lemma Field2(e0: bv64, e1: bv64, e2: bv64, e3: bv64)
    requires e0 <= 0xFFFF && e1 <= 0xFFFF && e2 <= 0xFFFF && e3 <= 0xFFFF
    ensures Chunk(Placed(e0, 0) | Placed(e1, 1) | Placed(e2, 2) | Placed(e3, 3), 2) == e2 as bv16
  {
  }

  lemma Field3(e0: bv64, e1: bv64, e2: bv64, e3: bv64)
    requires e0 <= 0xFFFF && e1 <= 0xFFFF && e2 <= 0xFFFF && e3 <= 0xFFFF
    ensures Chunk(Placed(e0, 0) | Placed(e1, 1) | Placed(e2, 2) | Placed(e3, 3), 3) == e3 as bv16
  {
  }

  lemma UnitOfChunk(u: bv16)
    requires 0x100 <= u
    ensures Unit(u - 0x100) == u
  {
  }

  /** Encoding what was decoded gives the text back when every unit is at
      least `0x100`. */
  lemma ReverseRoundTrip(text: seq<bv16>)
    requires |text| == 4 && UnitsFit(text)
    ensures Decode(text).Ok? && Encode(Decode(text).value) == text
  {
    assert 0x100 <= text[0] && 0x100 <= text[1] && 0x100 <= text[2] && 0x100 <= text[3];
    ChunkOfDecoded(text[0], text[1], text[2], text[3]);
    assert Encode(Decode(text).value) == [text[0], text[1], text[2], text[3]];
  }

  /** Only the high surrogate of a code point past `0xFFFF` is kept, so a
      chunk of `0xFF00` or more does not come back: `0xFF00` decodes as
      `0xD700`, and `-1` as a value with every chunk `0xD700`. */
  lemma HighChunkLost()
    ensures Encode(0xFF00) == [0xD800, 0x100, 0x100, 0x100]
    ensures Decode(Encode(0xFF00)) == Ok(0xD700)
    ensures Decode(Encode(0xFFFF_FFFF_FFFF_FFFF)) == Ok(0xD700_D700_D700_D700)
  {
  }

  /** A first unit below `0x100` contributes a negative number, which sets
      every bit above the first chunk whatever the other units are. */
  lemma LowUnitSetsHighBits(text: seq<bv16>)
    requires |text| == 4 && text[0] < 0x100
    ensures Decode(text).Ok? && Decode(text).value >> 16 == 0xFFFF_FFFF_FFFF
  {
  }
}
