/**
 The JPEG marker scan (media_technical_validation.py): the size it returns is that of the
 first start-of-frame segment it reaches.
 */
module Jpeg {
  import opened Wrappers
  import opened MediaBytes

  predicate IsSof(m: Byte)
  {
    0xC0 <= m <= 0xCF && m != 0xC4 && m != 0xC8 && m != 0xCC
  }

  /** Markers without a segment: stuffed zero, TEM, RST0 to RST7, SOI and EOI. */
  predicate IsBare(m: Byte) { m == 0x00 || m == 0x01 || 0xD0 <= m <= 0xD9 }

  predicate Active(marker: Byte, data: seq<Byte>) { (marker == 0xFE || marker == 0xE1) && HasActiveMarker(data) }

  // ----- What the scan passes over ---------------------------------------------------------

  /** `fill` counts the 0xFF bytes before a marker. */
  datatype Piece =
    | Entropy(b: Byte)
    | Bare(fill: nat, marker: Byte)
    | Segment(fill: nat, marker: Byte, data: seq<Byte>)

  function Fill(n: nat): seq<Byte> { seq(n, _ => 0xFF) }

  /** The pieces a scan passes: no start of frame, no active content. */
  predicate Passed(p: Piece)
  {
    match p
    case Entropy(b) => b != 0xFF
    case Bare(n, m) => n > 0 && IsBare(m)
    case Segment(n, m, data) => n > 0 && m != 0xFF && !IsBare(m) && !IsSof(m) && |data| < 0xFFFE && !Active(m, data)
  }

  function Encode(p: Piece): seq<Byte>
    requires Passed(p)
  {
    match p
    case Entropy(b) => [b]
    case Bare(n, m) => Fill(n) + [m]
    case Segment(n, m, data) => Fill(n) + [m] + ToBE16(|data| + 2) + data
  }

  predicate AllPassed(ps: seq<Piece>) { forall i :: 0 <= i < |ps| ==> Passed(ps[i]) }

  function EncodeAll(ps: seq<Piece>): seq<Byte>
    requires AllPassed(ps)
  {
    if ps == [] then [] else Encode(ps[0]) + EncodeAll(ps[1..])
  }

  /** A start-of-frame segment: fill, marker, length, precision, height, width, and its remaining bytes. */
  datatype Frame = Frame(fill: nat, marker: Byte, precision: Byte, height: nat, width: nat, more: seq<Byte>)

  predicate GoodFrame(f: Frame)
  {
    f.fill > 0 && IsSof(f.marker) && f.height < 0x1_0000 && f.width < 0x1_0000 && |f.more| + 7 < 0x1_0000
  }

  function EncodeFrame(f: Frame): seq<Byte>
    requires GoodFrame(f)
  {
    Fill(f.fill) + [f.marker] + ToBE16(|f.more| + 7) + [f.precision] + ToBE16(f.height) + ToBE16(f.width) + f.more
  }

  /** The bytes after the first two are pieces to pass, then a frame of this size, then anything. */
  ghost predicate Shows(rest: seq<Byte>, width: nat, height: nat)
  {
    exists ps: seq<Piece>, f: Frame, tail: seq<Byte> ::
      AllPassed(ps) && GoodFrame(f) && rest == EncodeAll(ps) + EncodeFrame(f) + tail && f.width == width && f.height == height
  }

  // ----- The scan ------------------------------------------------------------------------------

  datatype JpegError = NoEoi | TruncatedSegment | InvalidSegment | InvalidSof | ActiveContent | NoDimensions

  /** The first byte that is not a fill byte. */
  function SkipFill(rest: seq<Byte>): (n: nat)
    ensures n <= |rest| && rest[..n] == Fill(n) && (n < |rest| ==> rest[n] != 0xFF)
  {
    if rest == [] || rest[0] != 0xFF then 0 else
    var k := SkipFill(rest[1..]);
    assert rest[..k + 1] == [rest[0]] + rest[1..][..k];
    assert Fill(k + 1) == [0xFF] + Fill(k);
    1 + k
  }

  /** What the scan reports from `rest` on. */
  function Scan(rest: seq<Byte>): Result<(nat, nat), JpegError>
    decreases |rest|, 1
  {
    if |rest| < 2 then Err(NoDimensions)
    else if rest[0] != 0xFF then Scan(rest[1..])
    else
      var n := SkipFill(rest);
      if n >= |rest| then Err(NoDimensions) else
      var marker, after := rest[n], rest[n + 1..];
      if IsBare(marker) then Scan(after) else ScanSegment(marker, after)
  }

  /** What the scan reports once it has read a marker that opens a segment. */
  function ScanSegment(marker: Byte, after: seq<Byte>): Result<(nat, nat), JpegError>
    decreases |after|, 2
  {
    if |after| < 2 then Err(TruncatedSegment) else
    var length := BE16(after[..2]);
    if length < 2 || length > |after| then Err(InvalidSegment)
    else if IsSof(marker) then
      if length < 7 then Err(InvalidSof) else Ok((BE16(after[5..7]), BE16(after[3..5])))
    else if Active(marker, after[2..length]) then Err(ActiveContent)
    else Scan(after[length..])
  }

  predicate EndsWithEoi(payload: seq<Byte>)
  {
    |payload| >= 2 && payload[|payload| - 2] == 0xFF && payload[|payload| - 1] == 0xD9
  }

  /** `_jpeg_metadata`; every access is within the payload and the offset always advances. */
  method Metadata(payload: seq<Byte>) returns (r: Result<(nat, nat), JpegError>)
    ensures r == if EndsWithEoi(payload) then Scan(payload[2..]) else Err(NoEoi)
  {
    if !EndsWithEoi(payload) {
      return Err(NoEoi);
    }
    var offset := 2;
    while offset + 1 < |payload|
      invariant 2 <= offset <= |payload|
      invariant Scan(payload[2..]) == Scan(payload[offset..])
      decreases |payload| - offset
    {
      Unfolds(payload, offset);
      if payload[offset] != 0xFF {
        offset := offset + 1;
        continue;
      }
      var next := SkipFillFrom(payload, offset);
      if next >= |payload| {
        break;
      }
      offset := next + 1;
      if IsBare(payload[next]) {
        continue;
      }
      var length, stop := ReadSegment(payload, offset, payload[next]);
      if stop.Some? {
        return stop.value;
      }
      offset := offset + length;
    }
    return Err(NoDimensions);
  }

  /** One iteration of the scan, by offsets into the payload. */
  lemma Unfolds(payload: seq<Byte>, offset: nat)
    requires offset + 1 < |payload|
    ensures offset + SkipFill(payload[offset..]) <= |payload|
    ensures var next := offset + SkipFill(payload[offset..]);
            Scan(payload[offset..]) ==
              if payload[offset] != 0xFF then Scan(payload[offset + 1..])
              else if next >= |payload| then Err(NoDimensions)
              else if IsBare(payload[next]) then Scan(payload[next + 1..])
              else ScanSegment(payload[next], payload[next + 1..])
  {
    var n := SkipFill(payload[offset..]);
    DropDrop(payload, offset, 1);
    if offset + n < |payload| {
      DropDrop(payload, offset, n + 1);
      assert payload[offset..][n] == payload[offset + n];
    }
  }

  lemma DropDrop(payload: seq<Byte>, i: nat, j: nat)
    requires i + j <= |payload|
    ensures payload[i..][j..] == payload[i + j..]
  {
  }

  /** The inner loop over fill bytes. */
  method SkipFillFrom(payload: seq<Byte>, offset: nat) returns (next: nat)
    requires offset <= |payload|
    ensures next == offset + SkipFill(payload[offset..]) <= |payload|
  {
    next := offset;
    while next < |payload| && payload[next] == 0xFF
      invariant offset <= next <= |payload|
      invariant SkipFill(payload[offset..]) == next - offset + SkipFill(payload[next..])
    {
      DropDrop(payload, next, 1);
      next := next + 1;
    }
  }

  /** The rest of one iteration, from the segment's length on: either the final answer or the segment's length. */
  method ReadSegment(payload: seq<Byte>, offset: nat, marker: Byte)
    returns (length: nat, stop: Option<Result<(nat, nat), JpegError>>)
    requires offset <= |payload|
    ensures stop.Some? ==> ScanSegment(marker, payload[offset..]) == stop.value
    ensures stop.None? ==>
              2 <= length <= |payload| - offset && ScanSegment(marker, payload[offset..]) == Scan(payload[offset + length..])
  {
    ghost var after := payload[offset..];
    length := 0;
    if offset + 2 > |payload| {
      return length, Some(Err(TruncatedSegment));
    }
    assert after[..2] == payload[offset..offset + 2];
    length := BE16(payload[offset..offset + 2]);
    if length < 2 || offset + length > |payload| {
      return length, Some(Err(InvalidSegment));
    }
    if IsSof(marker) {
      if length < 7 {
        return length, Some(Err(InvalidSof));
      }
      assert after[3..5] == payload[offset + 3..offset + 5] && after[5..7] == payload[offset + 5..offset + 7];
      return length, Some(Ok((BE16(payload[offset + 5..offset + 7]), BE16(payload[offset + 3..offset + 5]))));
    }
    assert after[2..length] == payload[offset + 2..offset + length];
    if Active(marker, payload[offset + 2..offset + length]) {
      return length, Some(Err(ActiveContent));
    }
    DropDrop(payload, offset, length);
    stop := None;
  }

  // ----- The scan finds exactly the first frame ----------------------------------------------------

  lemma {:induction false} SkipsExactly(n: nat, m: Byte, tail: seq<Byte>)
    requires m != 0xFF
    ensures SkipFill(Fill(n) + [m] + tail) == n
  {
    var rest := Fill(n) + [m] + tail;
    if n > 0 {
      assert rest[1..] == Fill(n - 1) + [m] + tail;
      SkipsExactly(n - 1, m, tail);
    }
  }

  /** After the fill bytes and a marker, the scan is left with what follows them. */
  lemma ReadsMarker(n: nat, m: Byte, after: seq<Byte>)
    requires n > 0 && m != 0xFF
    ensures Scan(Fill(n) + [m] + after) == if IsBare(m) then Scan(after) else ScanSegment(m, after)
  {
    SkipsExactly(n, m, after);
    assert (Fill(n) + [m] + after)[n + 1..] == after;
  }

  lemma PassOver(p: Piece, tail: seq<Byte>)
    requires Passed(p) && |tail| >= 2
    ensures Scan(Encode(p) + tail) == Scan(tail)
  {
    match p
    case Entropy(b) =>
      assert ([b] + tail)[1..] == tail;
    case Bare(n, m) =>
      ReadsMarker(n, m, tail);
    case Segment(n, m, data) =>
      PassSegment(n, m, data, tail);
  }

  lemma PassSegment(n: nat, m: Byte, data: seq<Byte>, tail: seq<Byte>)
    requires Passed(Segment(n, m, data)) && |tail| >= 2
    ensures Scan(Encode(Segment(n, m, data)) + tail) == Scan(tail)
  {
    var head := ToBE16(|data| + 2);
    Regroup(Fill(n) + [m], head, data, tail);
    ReadsMarker(n, m, head + data + tail);
    PassData(m, head, data, tail);
  }

  lemma PassData(m: Byte, head: seq<Byte>, data: seq<Byte>, tail: seq<Byte>)
    requires |head| == 2 && BE16(head) == |data| + 2 && !IsSof(m) && !Active(m, data)
    ensures ScanSegment(m, head + data + tail) == Scan(tail)
  {
    Parts(head, data, tail);
  }

  lemma Parts(head: seq<Byte>, data: seq<Byte>, tail: seq<Byte>)
    requires |head| == 2
    ensures (head + data + tail)[..2] == head && (head + data + tail)[2..|data| + 2] == data
    ensures (head + data + tail)[|data| + 2..] == tail
  {
  }

  lemma Regroup(a: seq<Byte>, b: seq<Byte>, c: seq<Byte>, d: seq<Byte>)
    ensures a + (b + c + d) == a + b + c + d
  {
  }

  lemma ReadsFrame(f: Frame, tail: seq<Byte>)
    requires GoodFrame(f)
    ensures Scan(EncodeFrame(f) + tail) == Ok((f.width, f.height))
  {
    var after := ToBE16(|f.more| + 7) + [f.precision] + ToBE16(f.height) + ToBE16(f.width) + f.more + tail;
    assert EncodeFrame(f) + tail == Fill(f.fill) + [f.marker] + after;
    ReadsMarker(f.fill, f.marker, after);
    assert after[..2] == ToBE16(|f.more| + 7);
    assert after[3..5] == ToBE16(f.height) && after[5..7] == ToBE16(f.width);
  }

  /** Completeness: whatever precedes the first frame, its size is reported. */
  lemma {:induction false} ShownIsScanned(ps: seq<Piece>, f: Frame, tail: seq<Byte>)
    requires AllPassed(ps) && GoodFrame(f)
    ensures Scan(EncodeAll(ps) + EncodeFrame(f) + tail) == Ok((f.width, f.height))
  {
    if ps == [] {
      ReadsFrame(f, tail);
      assert EncodeAll(ps) + EncodeFrame(f) == EncodeFrame(f);
    } else {
      var rest := EncodeAll(ps[1..]) + EncodeFrame(f) + tail;
      ShownIsScanned(ps[1..], f, tail);
      Regroup(Encode(ps[0]), EncodeAll(ps[1..]), EncodeFrame(f), tail);
      PassOver(ps[0], rest);
    }
  }

  lemma Prepend(p: Piece, rest: seq<Byte>, width: nat, height: nat)
    requires Passed(p) && Shows(rest, width, height)
    ensures Shows(Encode(p) + rest, width, height)
  {
    var ps: seq<Piece>, f: Frame, tail: seq<Byte> :|
      AllPassed(ps) && GoodFrame(f) && rest == EncodeAll(ps) + EncodeFrame(f) + tail && f.width == width && f.height == height;
    EncodePrepended(p, ps);
    Regroup(Encode(p), EncodeAll(ps), EncodeFrame(f), tail);
    assert AllPassed([p] + ps);
  }

  lemma EncodePrepended(p: Piece, ps: seq<Piece>)
    requires Passed(p) && AllPassed(ps)
    ensures AllPassed([p] + ps) && EncodeAll([p] + ps) == Encode(p) + EncodeAll(ps)
  {
    assert ([p] + ps)[1..] == ps;
  }

  /** Soundness: a reported size comes from a frame reached over pieces none of which is a frame. */
  lemma {:induction false} ScannedIsShown(rest: seq<Byte>)
    requires Scan(rest).Ok?
    ensures Shows(rest, Scan(rest).value.0, Scan(rest).value.1)
    decreases |rest|
  {
    var (w, h) := Scan(rest).value;
    if rest[0] != 0xFF {
      ScannedIsShown(rest[1..]);
      Prepend(Entropy(rest[0]), rest[1..], w, h);
      assert rest == Encode(Entropy(rest[0])) + rest[1..];
    } else {
      var n := SkipFill(rest);
      var marker, after := rest[n], rest[n + 1..];
      assert rest == Fill(n) + [marker] + after;
      if IsBare(marker) {
        ScannedIsShown(after);
        Prepend(Bare(n, marker), after, w, h);
      } else {
        SegmentIsShown(rest, n, marker, after);
      }
    }
  }

  lemma {:induction false} SegmentIsShown(rest: seq<Byte>, n: nat, marker: Byte, after: seq<Byte>)
    requires Scan(rest).Ok? && |rest| >= 2 && rest[0] == 0xFF && n == SkipFill(rest) < |rest|
    requires marker == rest[n] && after == rest[n + 1..] && !IsBare(marker)
    ensures Shows(rest, Scan(rest).value.0, Scan(rest).value.1)
    decreases |rest|, 0
  {
    var (w, h) := Scan(rest).value;
    var length := BE16(after[..2]);
    BE16Injective(after[..2]);
    assert rest == Fill(n) + [marker] + after;
    if IsSof(marker) {
      FrameIsShown(rest, n, marker, after, length);
    } else {
      ScannedIsShown(after[length..]);
      Prepend(Segment(n, marker, after[2..length]), after[length..], w, h);
      SegmentEncodes(rest, n, marker, after, length);
    }
  }

  lemma SegmentEncodes(rest: seq<Byte>, n: nat, marker: Byte, after: seq<Byte>, length: nat)
    requires rest == Fill(n) + [marker] + after && |after| >= 2 && length == BE16(after[..2]) && 2 <= length <= |after|
    requires Passed(Segment(n, marker, after[2..length]))
    ensures rest == Encode(Segment(n, marker, after[2..length])) + after[length..]
  {
    BE16Injective(after[..2]);
    assert after == after[..2] + after[2..length] + after[length..];
  }

  lemma FrameIsShown(rest: seq<Byte>, n: nat, marker: Byte, after: seq<Byte>, length: nat)
    requires rest == Fill(n) + [marker] + after && n > 0 && IsSof(marker)
    requires |after| >= 7 && length == BE16(after[..2]) && 7 <= length <= |after|
    ensures Shows(rest, BE16(after[5..7]), BE16(after[3..5]))
  {
    BE16Injective(after[..2]);
    BE16Injective(after[3..5]);
    BE16Injective(after[5..7]);
    var f := Frame(n, marker, after[2], BE16(after[3..5]), BE16(after[5..7]), after[7..length]);
    assert after == after[..2] + [after[2]] + after[3..5] + after[5..7] + after[7..length] + after[length..];
    assert rest == EncodeAll([]) + EncodeFrame(f) + after[length..];
  }

  /** The walker reports a size exactly when the file ends in EOI and shows a first frame of that size. */
  lemma ReportsExactlyTheFirstFrame(payload: seq<Byte>, width: nat, height: nat)
    requires EndsWithEoi(payload)
    ensures Scan(payload[2..]) == Ok((width, height)) <==> Shows(payload[2..], width, height)
  {
    if Scan(payload[2..]) == Ok((width, height)) {
      ScannedIsShown(payload[2..]);
    }
    if Shows(payload[2..], width, height) {
      var ps: seq<Piece>, f: Frame, tail: seq<Byte> :|
        AllPassed(ps) && GoodFrame(f) && payload[2..] == EncodeAll(ps) + EncodeFrame(f) + tail &&
        f.width == width && f.height == height;
      ShownIsScanned(ps, f, tail);
    }
  }
}
