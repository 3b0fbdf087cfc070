/**
 The PNG container walker (media_technical_validation.py) against the chunk layout of
 section 3.2 of RFC 2083.  The CRC is an arbitrary function of the covered bytes.
 */
module Png {
  import opened Wrappers
  import opened MediaBytes

  type Crc = seq<Byte> -> nat

  datatype Chunk = Chunk(kind: seq<Byte>, data: seq<Byte>)

  function Supported(): set<seq<Byte>>
  {
    { Ascii("IHDR"), Ascii("PLTE"), Ascii("IDAT"), Ascii("IEND"), Ascii("tRNS"), Ascii("gAMA"), Ascii("cHRM"),
      Ascii("sRGB"), Ascii("iCCP"), Ascii("tEXt"), Ascii("zTXt"), Ascii("iTXt"), Ascii("pHYs"), Ascii("sBIT"),
      Ascii("bKGD"), Ascii("hIST"), Ascii("tIME"), Ascii("eXIf") }
  }

  function Textual(): set<seq<Byte>> { { Ascii("tEXt"), Ascii("iTXt"), Ascii("eXIf") } }

  predicate Active(kind: seq<Byte>, data: seq<Byte>) { kind in Textual() && HasActiveMarker(data) }

  // ----- The grammar -----------------------------------------------------------------------

  predicate Whole(c: Chunk)
  {
    |c.kind| == 4 && |c.data| < TWO_32 && c.kind in Supported() && !Active(c.kind, c.data)
  }

  function Check(kind: seq<Byte>, data: seq<Byte>, crc: Crc): nat { crc(kind + data) % TWO_32 }

  /** Length, type, data, CRC. */
  function Encode(c: Chunk, crc: Crc): seq<Byte>
    requires Whole(c)
  {
    ToBE32(|c.data|) + c.kind + c.data + ToBE32(Check(c.kind, c.data, crc))
  }

  predicate AllWhole(cs: seq<Chunk>) { forall i :: 0 <= i < |cs| ==> Whole(cs[i]) }

  function EncodeAll(cs: seq<Chunk>, crc: Crc): seq<Byte>
    requires AllWhole(cs)
  {
    if cs == [] then [] else Encode(cs[0], crc) + EncodeAll(cs[1..], crc)
  }

  /** What may follow: whole chunks, the first an IHDR of 13 bytes if `first`, ended by the only IEND, empty. */
  ghost predicate Body(cs: seq<Chunk>, first: bool)
  {
    && cs != [] && AllWhole(cs)
    && (first ==> cs[0].kind == Ascii("IHDR") && |cs[0].data| == 13)
    && (forall i :: 0 <= i < |cs| - 1 ==> cs[i].kind != Ascii("IEND"))
    && cs[|cs| - 1].kind == Ascii("IEND") && |cs[|cs| - 1].data| == 0
  }

  ghost predicate Accepts(rest: seq<Byte>, first: bool, crc: Crc)
  {
    exists cs: seq<Chunk> :: Body(cs, first) && rest == EncodeAll(cs, crc)
  }

  /** Eight leading bytes, then a tiling of the whole file by chunks. */
  ghost predicate Container(payload: seq<Byte>, crc: Crc)
  {
    |payload| >= 8 && Accepts(payload[8..], true, crc)
  }

  // ----- One chunk --------------------------------------------------------------------------

  /** The checks of one loop iteration up to the chunk's own contents. */
  predicate Reads(rest: seq<Byte>, c: Chunk, crc: Crc)
  {
    && Whole(c) && |rest| >= 12 + |c.data|
    && BE32(rest[..4]) == |c.data| && rest[4..8] == c.kind
    && rest[8..8 + |c.data|] == c.data
    && BE32(rest[8 + |c.data|..12 + |c.data|]) == Check(c.kind, c.data, crc)
  }

  lemma EncodedReads(c: Chunk, tail: seq<Byte>, crc: Crc)
    requires Whole(c)
    ensures Reads(Encode(c, crc) + tail, c, crc) && (Encode(c, crc) + tail)[12 + |c.data|..] == tail
  {
    var rest := Encode(c, crc) + tail;
    assert rest[..4] == ToBE32(|c.data|);
    assert rest[8 + |c.data|..12 + |c.data|] == ToBE32(Check(c.kind, c.data, crc));
  }

  lemma ReadsEncoded(rest: seq<Byte>, c: Chunk, crc: Crc)
    requires Reads(rest, c, crc)
    ensures rest == Encode(c, crc) + rest[12 + |c.data|..]
  {
    BE32Injective(rest[..4]);
    BE32Injective(rest[8 + |c.data|..12 + |c.data|]);
    assert rest == rest[..4] + rest[4..8] + rest[8..8 + |c.data|] + rest[8 + |c.data|..12 + |c.data|] + rest[12 + |c.data|..];
  }

  lemma ReadIsUnique(rest: seq<Byte>, a: Chunk, b: Chunk, crc: Crc)
    requires Reads(rest, a, crc) && Reads(rest, b, crc)
    ensures a == b
  {
  }

  lemma EncodedHead(cs: seq<Chunk>, crc: Crc)
    requires cs != [] && AllWhole(cs)
    ensures Reads(EncodeAll(cs, crc), cs[0], crc)
    ensures EncodeAll(cs, crc)[12 + |cs[0].data|..] == EncodeAll(cs[1..], crc)
  {
    EncodedReads(cs[0], EncodeAll(cs[1..], crc), crc);
  }

  lemma BodyTail(cs: seq<Chunk>, first: bool)
    requires Body(cs, first)
    ensures cs[0].kind == Ascii("IEND") <==> |cs| == 1
    ensures |cs| == 1 ==> |cs[0].data| == 0
    ensures |cs| > 1 ==> Body(cs[1..], false)
  {
  }

  /** Anything accepted starts with a readable chunk, and goes on as the grammar says. */
  lemma AcceptedHead(rest: seq<Byte>, first: bool, crc: Crc) returns (c: Chunk)
    requires Accepts(rest, first, crc)
    ensures Reads(rest, c, crc)
    ensures first ==> c.kind == Ascii("IHDR") && |c.data| == 13
    ensures c.kind == Ascii("IEND") ==> |c.data| == 0 && |rest| == 12
    ensures c.kind != Ascii("IEND") ==> Accepts(rest[12 + |c.data|..], false, crc)
  {
    var cs: seq<Chunk> :| Body(cs, first) && rest == EncodeAll(cs, crc);
    c := cs[0];
    EncodedHead(cs, crc);
    BodyTail(cs, first);
    if |cs| == 1 {
      assert EncodeAll(cs[1..], crc) == [];
    }
  }

  lemma AcceptedByHead(rest: seq<Byte>, c: Chunk, first: bool, crc: Crc)
    requires Reads(rest, c, crc)
    requires first ==> c.kind == Ascii("IHDR") && |c.data| == 13
    requires if c.kind == Ascii("IEND") then |c.data| == 0 && |rest| == 12
             else Accepts(rest[12 + |c.data|..], false, crc)
    ensures Accepts(rest, first, crc)
  {
    ReadsEncoded(rest, c, crc);
    if c.kind == Ascii("IEND") {
      assert rest[12..] == [];
      PrependEncodes(c, [], crc);
      assert Body([c], first) && rest == EncodeAll([c] + [], crc);
      assert [c] + [] == [c];
    } else {
      var cs: seq<Chunk> :| Body(cs, false) && rest[12 + |c.data|..] == EncodeAll(cs, crc);
      PrependBody(c, cs, first);
      PrependEncodes(c, cs, crc);
    }
  }

  lemma PrependEncodes(c: Chunk, cs: seq<Chunk>, crc: Crc)
    requires Whole(c) && AllWhole(cs)
    ensures AllWhole([c] + cs) && EncodeAll([c] + cs, crc) == Encode(c, crc) + EncodeAll(cs, crc)
  {
    assert ([c] + cs)[1..] == cs;
  }

  lemma PrependBody(c: Chunk, cs: seq<Chunk>, first: bool)
    requires Whole(c) && Body(cs, false) && c.kind != Ascii("IEND")
    requires first ==> c.kind == Ascii("IHDR") && |c.data| == 13
    ensures Body([c] + cs, first)
  {
  }

  // ----- The walker -----------------------------------------------------------------------------

  datatype PngError = TruncatedChunk | UnsupportedChunk | ActiveContent | InvalidCrc | InvalidIhdr | TrailingPayload | Incomplete

  /** The per-chunk checks, in the source's order. */
  method ReadChunk(payload: seq<Byte>, offset: nat, crc: Crc) returns (r: Result<Chunk, PngError>)
    requires offset < |payload|
    ensures r.Ok? ==> Reads(payload[offset..], r.value, crc)
    ensures r.Err? ==> forall c :: !Reads(payload[offset..], c, crc)
  {
    ghost var rest := payload[offset..];
    if offset + 12 > |payload| {
      return Err(TruncatedChunk);
    }
    var length := BE32(payload[offset..offset + 4]);
    var kind := payload[offset + 4..offset + 8];
    assert rest[..4] == payload[offset..offset + 4] && rest[4..8] == kind;
    if kind !in Supported() {
      return Err(UnsupportedChunk);
    }
    var end := offset + 12 + length;
    if end > |payload| {
      return Err(TruncatedChunk);
    }
    var data := payload[offset + 8..offset + 8 + length];
    assert rest[8..8 + length] == data;
    if Active(kind, data) {
      return Err(ActiveContent);
    }
    assert rest[8 + length..12 + length] == payload[offset + 8 + length..end];
    if Check(kind, data, crc) != BE32(payload[offset + 8 + length..end]) {
      return Err(InvalidCrc);
    }
    return Ok(Chunk(kind, data));
  }

  /**
   `_png_metadata`: accepts exactly the containers, and reports the first two integers of the first
   chunk's data.  Every read is within the payload and the walk ends.
   */
  method Metadata(payload: seq<Byte>, crc: Crc) returns (r: Result<(nat, nat), PngError>)
    ensures r.Ok? <==> Container(payload, crc)
    ensures r.Ok? ==> |payload| >= 24 && r.value == (BE32(payload[16..20]), BE32(payload[20..24]))
  {
    var offset := 8;
    var size: Option<(nat, nat)> := None;
    var sawIend := false;
    while offset < |payload|
      invariant 8 <= offset && (offset <= |payload| || offset == 8)
      invariant |payload| >= 8 && !sawIend ==> (Container(payload, crc) <==> Accepts(payload[offset..], offset == 8, crc))
      invariant offset > 8 ==> |payload| >= 24 && size == Some((BE32(payload[16..20]), BE32(payload[20..24])))
      invariant !sawIend
      decreases |payload| - offset
    {
      ghost var rest, first := payload[offset..], offset == 8;
      var read := ReadChunk(payload, offset, crc);
      if read.Err? {
        if Accepts(rest, first, crc) { var c := AcceptedHead(rest, first, crc); }
        return Err(read.error);
      }
      var chunk := read.value;
      var end := offset + 12 + |chunk.data|;
      HeadDecides(rest, chunk, first, crc);
      assert rest[12 + |chunk.data|..] == payload[end..];
      if offset == 8 {
        if chunk.kind != Ascii("IHDR") || |chunk.data| != 13 {
          return Err(InvalidIhdr);
        }
        SizeOfIhdr(payload, chunk, crc);
        size := Some((BE32(chunk.data[..4]), BE32(chunk.data[4..8])));
      }
      if chunk.kind == Ascii("IEND") {
        if |chunk.data| != 0 || end != |payload| {
          return Err(TrailingPayload);
        }
        sawIend := true;
        break;
      }
      offset := end;
    }
    if !sawIend || size.None? {
      NothingAcceptsNothing(crc);
      return Err(Incomplete);
    }
    return Ok(size.value);
  }

  /** The first two integers of the first chunk's data. */
  lemma SizeOfIhdr(payload: seq<Byte>, c: Chunk, crc: Crc)
    requires |payload| >= 8 && Reads(payload[8..], c, crc) && |c.data| == 13
    ensures |payload| >= 24 && c.data[..4] == payload[16..20] && c.data[4..8] == payload[20..24]
  {
    SubTail(payload, 8, 8, 21);
    SubSlice(payload, 16, 29, 0, 4);
    SubSlice(payload, 16, 29, 4, 8);
  }

  lemma SubTail(s: seq<Byte>, i: nat, a: nat, b: nat)
    requires i <= |s| && a <= b <= |s| - i
    ensures s[i..][a..b] == s[i + a..i + b]
  {
    assert forall k :: 0 <= k < b - a ==> s[i..][a..b][k] == s[i + a..i + b][k];
  }

  lemma SubSlice(s: seq<Byte>, i: nat, j: nat, a: nat, b: nat)
    requires i <= j <= |s| && a <= b <= j - i
    ensures s[i..j][a..b] == s[i + a..i + b]
  {
    assert forall k :: 0 <= k < b - a ==> s[i..j][a..b][k] == s[i + a..i + b][k];
  }

  /** Once its head is read, a rest is accepted exactly as the head and what follows say. */
  lemma HeadDecides(rest: seq<Byte>, c: Chunk, first: bool, crc: Crc)
    requires Reads(rest, c, crc)
    ensures Accepts(rest, first, crc) <==>
              && (first ==> c.kind == Ascii("IHDR") && |c.data| == 13)
              && if c.kind == Ascii("IEND") then |c.data| == 0 && |rest| == 12
                 else Accepts(rest[12 + |c.data|..], false, crc)
  {
    if Accepts(rest, first, crc) {
      var d := AcceptedHead(rest, first, crc);
      ReadIsUnique(rest, c, d, crc);
    } else if (first ==> c.kind == Ascii("IHDR") && |c.data| == 13) {
      if c.kind == Ascii("IEND") {
        if |c.data| == 0 && |rest| == 12 { AcceptedByHead(rest, c, first, crc); }
      } else if Accepts(rest[12 + |c.data|..], false, crc) {
        AcceptedByHead(rest, c, first, crc);
      }
    }
  }

  lemma NothingAcceptsNothing(crc: Crc)
    ensures forall first :: !Accepts([], first, crc)
  {
    forall first ensures !Accepts([], first, crc) {
      if Accepts([], first, crc) {
        var c := AcceptedHead([], first, crc);
        assert false;
      }
    }
  }

  lemma HeaderFields(payload: seq<Byte>, c: Chunk, crc: Crc, width: nat, height: nat)
    requires |payload| >= 8 && Reads(payload[8..], c, crc) && |c.data| == 13 && width < TWO_32 && height < TWO_32
    requires c.data[..8] == ToBE32(width) + ToBE32(height)
    ensures |payload| >= 24 && BE32(payload[16..20]) == width && BE32(payload[20..24]) == height
  {
    var rest, w, h := payload[8..], ToBE32(width), ToBE32(height);
    assert payload[16..20] == rest[8..21][..4] == c.data[..4] == c.data[..8][..4] == w;
    assert payload[20..24] == rest[12..16] == rest[8..21][4..8];
    assert rest[8..21] == c.data;
    assert c.data[4..8] == c.data[..8][4..8] == (w + h)[4..8] == h;
  }

  /** Round trip: what a serializer writes is accepted, and its header's size is what comes back. */
  lemma SerializedIsContainer(signature: seq<Byte>, cs: seq<Chunk>, crc: Crc, width: nat, height: nat)
    requires |signature| == 8 && Body(cs, true) && width < TWO_32 && height < TWO_32
    requires cs[0].data[..8] == ToBE32(width) + ToBE32(height)
    ensures var payload := signature + EncodeAll(cs, crc);
            && Container(payload, crc) && |payload| >= 24
            && BE32(payload[16..20]) == width && BE32(payload[20..24]) == height
  {
    var payload := signature + EncodeAll(cs, crc);
    assert payload[8..] == EncodeAll(cs, crc);
    EncodedHead(cs, crc);
    HeaderFields(payload, cs[0], crc, width, height);
  }

  /** A byte string is a container in at most one way. */
  lemma {:induction false} TilingIsUnique(a: seq<Chunk>, b: seq<Chunk>, first: bool, crc: Crc)
    requires Body(a, first) && Body(b, first) && EncodeAll(a, crc) == EncodeAll(b, crc)
    ensures a == b
  {
    var rest := EncodeAll(a, crc);
    EncodedHead(a, crc);
    EncodedHead(b, crc);
    ReadIsUnique(rest, a[0], b[0], crc);
    BodyTail(a, first);
    BodyTail(b, first);
    if |a| > 1 {
      TilingIsUnique(a[1..], b[1..], false, crc);
      assert a == [a[0]] + a[1..] && b == [b[0]] + b[1..];
    }
  }
}
