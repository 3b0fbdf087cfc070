/**
 The WebP container walker (media_technical_validation.py) against the RIFF layout of
 section 2.3 of RFC 9649: little-endian sizes, chunks padded to even length.
 */
module Webp {
  import opened Wrappers
  import opened MediaBytes

  /** `pad` is the unconstrained padding byte of a chunk of odd size. */
  datatype Chunk = Chunk(kind: seq<Byte>, data: seq<Byte>, pad: seq<Byte>)

  function Allowed(): set<seq<Byte>>
  {
    { Ascii("VP8 "), Ascii("VP8L"), Ascii("VP8X"), Ascii("ALPH"), Ascii("ANIM"), Ascii("ANMF"), Ascii("ICCP"),
      Ascii("EXIF"), Ascii("XMP ") }
  }

  predicate Active(kind: seq<Byte>, data: seq<Byte>)
  {
    (kind == Ascii("EXIF") || kind == Ascii("XMP ")) && HasActiveMarker(data)
  }

  predicate Whole(c: Chunk)
  {
    && |c.kind| == 4 && |c.data| < TWO_32 && |c.pad| == |c.data| % 2
    && c.kind in Allowed() && !Active(c.kind, c.data)
  }

  predicate AllWhole(cs: seq<Chunk>) { forall i :: 0 <= i < |cs| ==> Whole(cs[i]) }

  function Encode(c: Chunk): seq<Byte>
    requires Whole(c)
  {
    c.kind + ToLE32(|c.data|) + c.data + c.pad
  }

  function EncodeAll(cs: seq<Chunk>): seq<Byte>
    requires AllWhole(cs)
  {
    if cs == [] then [] else Encode(cs[0]) + EncodeAll(cs[1..])
  }

  ghost predicate Accepts(rest: seq<Byte>)
  {
    exists cs: seq<Chunk> :: AllWhole(cs) && rest == EncodeAll(cs)
  }

  /** The RIFF size counts everything after it, and whole padded chunks fill the file after the form type. */
  ghost predicate Container(payload: seq<Byte>)
  {
    |payload| >= 20 && LE32(payload[4..8]) + 8 == |payload| && Accepts(payload[12..])
  }

  function Span(c: Chunk): nat { 8 + |c.data| + |c.pad| }

  predicate Reads(rest: seq<Byte>, c: Chunk)
  {
    && Whole(c) && |rest| >= Span(c)
    && rest[..4] == c.kind && LE32(rest[4..8]) == |c.data|
    && rest[8..8 + |c.data|] == c.data && rest[8 + |c.data|..Span(c)] == c.pad
  }

  lemma EncodedReads(c: Chunk, tail: seq<Byte>)
    requires Whole(c)
    ensures Reads(Encode(c) + tail, c) && (Encode(c) + tail)[Span(c)..] == tail
  {
    assert (Encode(c) + tail)[4..8] == ToLE32(|c.data|);
  }

  lemma ReadsEncoded(rest: seq<Byte>, c: Chunk)
    requires Reads(rest, c)
    ensures rest == Encode(c) + rest[Span(c)..]
  {
    LE32Injective(rest[4..8]);
    assert rest == rest[..4] + rest[4..8] + rest[8..8 + |c.data|] + rest[8 + |c.data|..Span(c)] + rest[Span(c)..];
  }

  lemma ReadIsUnique(rest: seq<Byte>, a: Chunk, b: Chunk)
    requires Reads(rest, a) && Reads(rest, b)
    ensures a == b
  {
  }

  /** A non-empty rest is accepted exactly when its first chunk is read and what follows is accepted. */
  lemma HeadDecides(rest: seq<Byte>, c: Chunk)
    requires Reads(rest, c)
    ensures Accepts(rest) <==> Accepts(rest[Span(c)..])
  {
    if Accepts(rest) {
      var d := AcceptedHead(rest);
      ReadIsUnique(rest, c, d);
    }
    if Accepts(rest[Span(c)..]) {
      var cs: seq<Chunk> :| AllWhole(cs) && rest[Span(c)..] == EncodeAll(cs);
      ReadsEncoded(rest, c);
      assert ([c] + cs)[1..] == cs;
      assert AllWhole([c] + cs) && rest == EncodeAll([c] + cs);
    }
  }

  lemma AcceptedHead(rest: seq<Byte>) returns (c: Chunk)
    requires Accepts(rest) && rest != []
    ensures Reads(rest, c) && Accepts(rest[Span(c)..])
  {
    var cs: seq<Chunk> :| AllWhole(cs) && rest == EncodeAll(cs);
    c := cs[0];
    EncodedReads(c, EncodeAll(cs[1..]));
  }

  datatype WebpError = InvalidRiffLength | TruncatedChunk | UnsupportedChunk | InvalidChunk | ActiveContent

  method ReadChunk(payload: seq<Byte>, offset: nat) returns (r: Result<Chunk, WebpError>)
    requires offset < |payload|
    ensures r.Ok? ==> Reads(payload[offset..], r.value)
    ensures r.Err? ==> forall c :: !Reads(payload[offset..], c)
  {
    ghost var rest := payload[offset..];
    if offset + 8 > |payload| {
      return Err(TruncatedChunk);
    }
    var kind := payload[offset..offset + 4];
    var size := LE32(payload[offset + 4..offset + 8]);
    assert rest[..4] == kind && rest[4..8] == payload[offset + 4..offset + 8];
    var end := offset + 8 + size + size % 2;
    if kind !in Allowed() {
      return Err(UnsupportedChunk);
    }
    if end > |payload| {
      return Err(InvalidChunk);
    }
    var data := payload[offset + 8..offset + 8 + size];
    assert rest[8..8 + size] == data;
    if Active(kind, data) {
      return Err(ActiveContent);
    }
    ghost var pad := payload[offset + 8 + size..end];
    assert rest[8 + size..8 + size + size % 2] == pad;
    return Ok(Chunk(kind, data, payload[offset + 8 + size..end]));
  }

  /**
   `_webp_metadata`: accepts exactly the containers.  The walk never stops short of or past the end,
   so the padding check after the loop cannot fire.
   */
  method Metadata(payload: seq<Byte>) returns (r: Result<(), WebpError>)
    ensures r.Ok? <==> Container(payload)
  {
    if |payload| < 20 || LE32(payload[4..8]) + 8 != |payload| {
      return Err(InvalidRiffLength);
    }
    var offset := 12;
    while offset < |payload|
      invariant 12 <= offset <= |payload|
      invariant Accepts(payload[12..]) <==> Accepts(payload[offset..])
      decreases |payload| - offset
    {
      var read := ReadChunk(payload, offset);
      if read.Err? {
        if Accepts(payload[offset..]) { var c := AcceptedHead(payload[offset..]); }
        return Err(read.error);
      }
      HeadDecides(payload[offset..], read.value);
      assert payload[offset..][Span(read.value)..] == payload[offset + Span(read.value)..];
      offset := offset + Span(read.value);
    }
    assert offset == |payload|;
    assert payload[offset..] == EncodeAll([]);
    return Ok(());
  }

  /** Round trip: a file of whole padded chunks with the right RIFF size is accepted. */
  lemma SerializedIsContainer(riff: seq<Byte>, form: seq<Byte>, cs: seq<Chunk>)
    requires |riff| == 4 && |form| == 4 && AllWhole(cs) && cs != [] && 4 + |EncodeAll(cs)| < TWO_32
    ensures Container(riff + ToLE32(4 + |EncodeAll(cs)|) + form + EncodeAll(cs))
  {
    var payload := riff + ToLE32(4 + |EncodeAll(cs)|) + form + EncodeAll(cs);
    assert payload[4..8] == ToLE32(4 + |EncodeAll(cs)|);
    assert payload[12..] == EncodeAll(cs);
    EncodedReads(cs[0], EncodeAll(cs[1..]));
  }

  /** Every chunk starts at an even distance from the first. */
  lemma {:induction false} ChunksAreEvenlyPlaced(cs: seq<Chunk>)
    requires AllWhole(cs)
    ensures |EncodeAll(cs)| % 2 == 0
  {
    if cs != [] {
      ChunksAreEvenlyPlaced(cs[1..]);
      assert |Encode(cs[0])| == 8 + |cs[0].data| + |cs[0].data| % 2;
    }
  }
}
