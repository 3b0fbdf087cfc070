/**
 Bounded media decoding (media_technical_validation.py): the two encodings of a canonical media payload,
 in base16 and base64 (RFC 4648, sections 8 and 4), and the chunked reader of an upload.
 */
module BoundedDecoding {
  import opened Wrappers
  import opened MediaBytes

  // ----- Base16 ----------------------------------------------------------------------------------

  predicate IsLowerHex(c: char) { '0' <= c <= '9' || 'a' <= c <= 'f' }

  function HexValue(c: char): (v: nat)
    requires IsLowerHex(c)
    ensures v < 16
  {
    if c <= '9' then c as int - '0' as int else c as int - 'a' as int + 10
  }

  function HexChar(v: nat): (c: char)
    requires v < 16
    ensures IsLowerHex(c) && HexValue(c) == v
  {
    if v < 10 then ('0' as int + v) as char else ('a' as int + v - 10) as char
  }

  function ToHex(b: seq<Byte>): (s: string)
    ensures |s| == 2 * |b| && AllLowerHex(s)
  {
    if b == [] then "" else [HexChar(b[0] / 16), HexChar(b[0] % 16)] + ToHex(b[1..])
  }

  predicate AllLowerHex(s: string) { forall i :: 0 <= i < |s| ==> IsLowerHex(s[i]) }

  /** `bytes.fromhex` on an even number of lower-case digits. */
  function FromHex(s: string): (b: seq<Byte>)
    requires AllLowerHex(s) && |s| % 2 == 0
    ensures 2 * |b| == |s|
  {
    if s == "" then [] else [HexValue(s[0]) * 16 + HexValue(s[1])] + FromHex(s[2..])
  }

  // ----- Base64 ----------------------------------------------------------------------------------

  function Base64Char(v: nat): (c: char)
    requires v < 64
    ensures c != '=' && Base64Value(c) == Some(v)
  {
    if v < 26 then ('A' as int + v) as char
    else if v < 52 then ('a' as int + v - 26) as char
    else if v < 62 then ('0' as int + v - 52) as char
    else if v == 62 then '+' else '/'
  }

  function Base64Value(c: char): (v: Option<nat>)
    ensures v.Some? ==> v.value < 64
  {
    if 'A' <= c <= 'Z' then Some(c as int - 'A' as int)
    else if 'a' <= c <= 'z' then Some(c as int - 'a' as int + 26)
    else if '0' <= c <= '9' then Some(c as int - '0' as int + 52)
    else if c == '+' then Some(62)
    else if c == '/' then Some(63)
    else None
  }

  /** Three bytes as four characters. */
  function Quad(x: Byte, y: Byte, z: Byte): (s: string)
    ensures |s| == 4
  {
    [Base64Char(x / 4), Base64Char(x % 4 * 16 + y / 16), Base64Char(y % 16 * 4 + z / 64), Base64Char(z % 64)]
  }

  /** `base64.b64encode` */
  function ToBase64(b: seq<Byte>): string
  {
    if b == [] then ""
    else if |b| == 1 then Quad(b[0], 0, 0)[..2] + "=="
    else if |b| == 2 then Quad(b[0], b[1], 0)[..3] + "="
    else Quad(b[0], b[1], b[2]) + ToBase64(b[3..])
  }

  /** Four six-bit values as three bytes. */
  function Triple(a: nat, b: nat, c: nat, d: nat): (t: seq<Byte>)
    requires a < 64 && b < 64 && c < 64 && d < 64
    ensures |t| == 3
  {
    [a * 4 + b / 16, b % 16 * 16 + c / 4, c % 4 * 64 + d]
  }

  /** A group that ends in padding; its unused bits are dropped. */
  function PaddedGroup(s: string): Option<seq<Byte>>
    requires |s| == 4
  {
    var a, b, c := Base64Value(s[0]), Base64Value(s[1]), Base64Value(s[2]);
    if a.None? || b.None? then None
    else if s[2] == '=' then
      if s[3] == '=' then Some(Triple(a.value, b.value, 0, 0)[..1]) else None
    else if c.None? then None
    else Some(Triple(a.value, b.value, c.value, 0)[..2])
  }

  predicate FullGroup(s: string)
  {
    |s| >= 4 && forall i :: 0 <= i < 4 ==> Base64Value(s[i]).Some?
  }

  function Decoded(s: string): (t: seq<Byte>)
    requires FullGroup(s)
    ensures |t| == 3
  {
    Triple(Base64Value(s[0]).value, Base64Value(s[1]).value, Base64Value(s[2]).value, Base64Value(s[3]).value)
  }

  predicate OnlyPadding(s: string) { forall i :: 0 <= i < |s| ==> s[i] == '=' }

  /**
   The strict decoder behind `base64.b64decode(encoded, validate=True)`, after whole groups of four.
   Padding may also follow a whole group.
   */
  function Groups(s: string): Option<seq<Byte>>
  {
    if OnlyPadding(s) then Some([])
    else if FullGroup(s) then
      match Groups(s[4..])
      case None => None
      case Some(rest) => Some(Decoded(s) + rest)
    else if |s| == 4 && s[3] == '=' then PaddedGroup(s)
    else None
  }

  function FromBase64(s: string): Option<seq<Byte>>
  {
    if s != "" && s[0] == '=' then None else Groups(s)
  }

  // ----- The payload -------------------------------------------------------------------------------

  /** A JSON value, as far as the decoder looks. */
  datatype Json = Text(text: string) | Other

  datatype DecodingError = InvalidPayload | ExceedsByteLimit

  predicate IsText(payload: map<string, Json>, key: string, text: string)
  {
    key in payload && payload[key] == Text(text)
  }

  /** `decode_canonical_media_bounded`; `None` stands for a payload that is not a mapping. */
  function Decode(payload: Option<map<string, Json>>, limit: nat): (r: Result<seq<Byte>, DecodingError>)
    ensures r.Ok? ==> |r.value| <= limit
  {
    if payload.None? then Err(InvalidPayload)
    else
      var p := payload.value;
      if p.Keys == {"$type", "$encoding", "$value"} then
        if !IsText(p, "$type", "bytes") || !IsText(p, "$encoding", "hex") || p["$value"].Other? then Err(InvalidPayload)
        else Bounded(DecodeHex(p["$value"].text, limit), limit)
      else if p.Keys == {"encoding", "data"} then
        if !IsText(p, "encoding", "base64") || p["data"].Other? then Err(InvalidPayload)
        else Bounded(DecodeBase64(p["data"].text, limit), limit)
      else Err(InvalidPayload)
  }

  /** The check on the decoded bytes that ends both branches. */
  function Bounded(raw: Result<seq<Byte>, DecodingError>, limit: nat): Result<seq<Byte>, DecodingError>
  {
    if raw.Ok? && |raw.value| > limit then Err(ExceedsByteLimit) else raw
  }

  function DecodeHex(encoded: string, limit: nat): Result<seq<Byte>, DecodingError>
  {
    if |encoded| > limit * 2 then Err(ExceedsByteLimit)
    else if |encoded| % 2 != 0 || !AllLowerHex(encoded) then Err(InvalidPayload)
    else Ok(FromHex(encoded))
  }

  function DecodeBase64(encoded: string, limit: nat): Result<seq<Byte>, DecodingError>
  {
    if |encoded| > (limit + 2) / 3 * 4 then Err(ExceedsByteLimit)
    else match FromBase64(encoded)
      case None => Err(InvalidPayload)
      case Some(raw) => Ok(raw)
  }

  function HexPayload(b: seq<Byte>): Option<map<string, Json>>
  {
    Some(map["$type" := Text("bytes"), "$encoding" := Text("hex"), "$value" := Text(ToHex(b))])
  }

  function Base64Text(text: string): Option<map<string, Json>>
  {
    Some(map["encoding" := Text("base64"), "data" := Text(text)])
  }

  function Base64Payload(b: seq<Byte>): Option<map<string, Json>> { Base64Text(ToBase64(b)) }

  // ----- Round trips ----------------------------------------------------------------------------------

  lemma {:induction false} HexRoundTrip(b: seq<Byte>)
    ensures FromHex(ToHex(b)) == b
  {
    if b != [] {
      HexRoundTrip(b[1..]);
      assert ToHex(b)[2..] == ToHex(b[1..]);
    }
  }

  /** Base16 decoding loses nothing: an accepted text is the encoding of its bytes. */
  lemma {:induction false} HexIsCanonical(s: string)
    requires AllLowerHex(s) && |s| % 2 == 0
    ensures ToHex(FromHex(s)) == s
  {
    if s != "" {
      HexIsCanonical(s[2..]);
      HexPair(s[0], s[1]);
      assert FromHex(s)[1..] == FromHex(s[2..]);
      assert s == [s[0], s[1]] + s[2..];
    }
  }

  lemma HexPair(c: char, d: char)
    requires IsLowerHex(c) && IsLowerHex(d)
    ensures var v := HexValue(c) * 16 + HexValue(d); v < 256 && HexChar(v / 16) == c && HexChar(v % 16) == d
  {
    var v := HexValue(c) * 16 + HexValue(d);
    assert v / 16 == HexValue(c) && v % 16 == HexValue(d);
  }

  lemma {:induction false} Base64Length(b: seq<Byte>)
    ensures |ToBase64(b)| == (|b| + 2) / 3 * 4
    ensures b != [] ==> ToBase64(b) != "" && ToBase64(b)[0] != '='
  {
    if |b| >= 3 {
      Base64Length(b[3..]);
    }
  }

  lemma TripleOfQuad(x: Byte, y: Byte, z: Byte)
    ensures Triple(x / 4, x % 4 * 16 + y / 16, y % 16 * 4 + z / 64, z % 64) == [x, y, z]
  {
  }

  lemma DecodedQuad(x: Byte, y: Byte, z: Byte, rest: string)
    ensures FullGroup(Quad(x, y, z) + rest) && Decoded(Quad(x, y, z) + rest) == [x, y, z]
    ensures !OnlyPadding(Quad(x, y, z) + rest) && (Quad(x, y, z) + rest)[4..] == rest
  {
    var s := Quad(x, y, z) + rest;
    assert s[0] == Quad(x, y, z)[0] && s[1] == Quad(x, y, z)[1] && s[2] == Quad(x, y, z)[2] && s[3] == Quad(x, y, z)[3];
    TripleOfQuad(x, y, z);
  }

  lemma {:induction false} GroupsRoundTrip(b: seq<Byte>)
    ensures Groups(ToBase64(b)) == Some(b)
  {
    if |b| >= 3 {
      GroupsRoundTrip(b[3..]);
      QuadThenRest(b[0], b[1], b[2], b[3..]);
      assert b == [b[0], b[1], b[2]] + b[3..];
    } else if b != [] {
      PaddedRoundTrip(b);
    }
  }

  lemma QuadThenRest(x: Byte, y: Byte, z: Byte, rest: seq<Byte>)
    requires Groups(ToBase64(rest)) == Some(rest)
    ensures Groups(Quad(x, y, z) + ToBase64(rest)) == Some([x, y, z] + rest)
  {
    DecodedQuad(x, y, z, ToBase64(rest));
  }

  lemma PaddedRoundTrip(b: seq<Byte>)
    requires 0 < |b| < 3
    ensures Groups(ToBase64(b)) == Some(b)
  {
    if |b| == 1 {
      assert b == [b[0]];
      OneByteRoundTrip(b[0]);
    } else {
      assert b == [b[0], b[1]];
      TwoBytesRoundTrip(b[0], b[1]);
    }
  }

  lemma OneByteRoundTrip(x: Byte)
    ensures Groups(ToBase64([x])) == Some([x])
  {
    var s := [Base64Char(x / 4), Base64Char(x % 4 * 16), '=', '='];
    assert ToBase64([x]) == s;
    TripleOfQuad(x, 0, 0);
    assert s[0] != '=' && Base64Value(s[3]).None?;
    assert Triple(x / 4, x % 4 * 16, 0, 0)[..1] == [x];
    assert Groups(s) == PaddedGroup(s) == Some(Triple(x / 4, x % 4 * 16, 0, 0)[..1]);
  }

  lemma TwoBytesRoundTrip(x: Byte, y: Byte)
    ensures Groups(ToBase64([x, y])) == Some([x, y])
  {
    var s := [Base64Char(x / 4), Base64Char(x % 4 * 16 + y / 16), Base64Char(y % 16 * 4), '='];
    assert ToBase64([x, y]) == s;
    TripleOfQuad(x, y, 0);
    assert s[0] != '=' && s[2] != '=' && Base64Value(s[3]).None?;
    var t := Triple(x / 4, x % 4 * 16 + y / 16, y % 16 * 4, 0);
    assert t[..2] == [x, y];
    assert Groups(s) == PaddedGroup(s) == Some(t[..2]);
  }

  /** Bytes are accepted in either encoding exactly when they fit the limit, and decode to themselves. */
  lemma EncodedIsDecoded(b: seq<Byte>, limit: nat)
    ensures Decode(HexPayload(b), limit) == if |b| <= limit then Ok(b) else Err(ExceedsByteLimit)
    ensures Decode(Base64Payload(b), limit) == if |b| <= limit then Ok(b) else Err(ExceedsByteLimit)
  {
    HexIsDecoded(b, limit);
    Base64IsDecoded(b, limit);
  }

  lemma HexIsDecoded(b: seq<Byte>, limit: nat)
    ensures Decode(HexPayload(b), limit) == if |b| <= limit then Ok(b) else Err(ExceedsByteLimit)
  {
    HexRoundTrip(b);
    var p := HexPayload(b).value;
    assert p.Keys == {"$type", "$encoding", "$value"};
    assert p["$type"] == Text("bytes") && p["$encoding"] == Text("hex") && p["$value"] == Text(ToHex(b));
  }

  lemma Base64IsDecoded(b: seq<Byte>, limit: nat)
    ensures Decode(Base64Payload(b), limit) == if |b| <= limit then Ok(b) else Err(ExceedsByteLimit)
  {
    Base64Admits(b, limit);
    Base64TextIsDecoded(ToBase64(b), limit);
  }

  /** The length check on base64 admits bytes up to the next multiple of three. */
  lemma Base64Admits(b: seq<Byte>, limit: nat)
    ensures DecodeBase64(ToBase64(b), limit) == if |b| <= (limit + 2) / 3 * 3 then Ok(b) else Err(ExceedsByteLimit)
  {
    GroupsRoundTrip(b);
    Base64Length(b);
    ThirdsRoundUp(|b|, (limit + 2) / 3);
  }

  lemma ThirdsRoundUp(n: nat, q: nat)
    ensures (n + 2) / 3 * 4 <= q * 4 <==> n <= q * 3
  {
  }

  /** The text has whole groups, no padding group, and zeros in the unused bits of its last group. */
  predicate Exact(s: string) { |s| % 4 == 0 && (s != "" ==> ExactGroup(s[|s| - 4..])) }

  predicate ExactGroup(g: string)
    requires |g| == 4
  {
    && g[0] != '='
    && (g[2] == '=' && Base64Value(g[1]).Some? ==> Base64Value(g[1]).value % 16 == 0)
    && (g[3] == '=' && Base64Value(g[2]).Some? ==> Base64Value(g[2]).value % 4 == 0)
  }

  lemma CharOfValue(c: char)
    requires Base64Value(c).Some?
    ensures Base64Char(Base64Value(c).value) == c
  {
  }

  lemma Bits(a: nat, b: nat, c: nat, d: nat)
    requires a < 64 && b < 64 && c < 64 && d < 64
    ensures var x, y, z := a * 4 + b / 16, b % 16 * 16 + c / 4, c % 4 * 64 + d;
            && x / 4 == a && x % 4 == b / 16 && y / 16 == b % 16 && y % 16 == c / 4 && z / 64 == c % 4 && z % 64 == d
  {
  }

  lemma QuadOfTriple(a: nat, b: nat, c: nat, d: nat)
    requires a < 64 && b < 64 && c < 64 && d < 64
    ensures var t := Triple(a, b, c, d); Quad(t[0], t[1], t[2]) == [Base64Char(a), Base64Char(b), Base64Char(c), Base64Char(d)]
  {
    var t := Triple(a, b, c, d);
    Bits(a, b, c, d);
    assert t[0] % 4 * 16 + t[1] / 16 == b;
    assert t[1] % 16 * 4 + t[2] / 64 == c;
  }

  lemma CharsDiffer(v: nat, w: nat)
    requires v < 64 && w < 64
    ensures Base64Char(v) == Base64Char(w) <==> v == w
  {
  }

  /** An accepted base64 text is the encoding of its bytes exactly when it is exact. */
  lemma {:induction false} Base64IsCanonical(s: string)
    requires Groups(s).Some?
    ensures ToBase64(Groups(s).value) == s <==> Exact(s)
  {
    if OnlyPadding(s) {
      OnlyPaddingIsInexact(s);
    } else if FullGroup(s) {
      Base64IsCanonical(s[4..]);
      FullGroupIsKept(s);
    } else {
      PaddedIsCanonical(s);
    }
  }

  lemma OnlyPaddingIsInexact(s: string)
    requires OnlyPadding(s)
    ensures Exact(s) <==> s == ""
  {
  }

  lemma FullGroupIsKept(s: string)
    requires FullGroup(s) && Groups(s).Some?
    ensures Groups(s[4..]).Some?
    ensures ToBase64(Groups(s).value) == s <==> ToBase64(Groups(s[4..]).value) == s[4..]
    ensures Exact(s) <==> Exact(s[4..])
  {
    assert s[0] != '=';
    var rest := Groups(s[4..]).value;
    assert (Decoded(s) + rest)[3..] == rest;
    FullGroupEncodes(s);
    ExactTail(s);
    assert ToBase64(Decoded(s) + rest) == s[..4] + ToBase64(rest);
    SameTail(s[..4], ToBase64(rest), s[4..]);
    assert s == s[..4] + s[4..];
  }

  lemma SameTail(head: string, x: string, y: string)
    ensures head + x == head + y <==> x == y
  {
    if head + x == head + y {
      assert x == (head + x)[|head|..];
      assert y == (head + y)[|head|..];
    }
  }

  lemma ExactTail(s: string)
    requires FullGroup(s)
    ensures Exact(s) <==> Exact(s[4..])
  {
    if |s| == 4 {
      assert s[|s| - 4..] == s && s[4..] == "";
      FullIsExact(s);
    } else if |s| % 4 == 0 {
      SameLastGroup(s);
    }
  }

  lemma FullIsExact(g: string)
    requires |g| == 4 && FullGroup(g)
    ensures ExactGroup(g)
  {
    assert g[0] != '=' && g[2] != '=' && g[3] != '=';
  }

  lemma SameLastGroup(s: string)
    requires |s| >= 8
    ensures s[4..][|s[4..]| - 4..] == s[|s| - 4..]
  {
  }

  lemma FullGroupEncodes(s: string)
    requires FullGroup(s)
    ensures Quad(Decoded(s)[0], Decoded(s)[1], Decoded(s)[2]) == s[..4]
  {
    CharOfValue(s[0]);
    CharOfValue(s[1]);
    CharOfValue(s[2]);
    CharOfValue(s[3]);
    QuadOfTriple(Base64Value(s[0]).value, Base64Value(s[1]).value, Base64Value(s[2]).value, Base64Value(s[3]).value);
  }

  lemma PaddedIsCanonical(s: string)
    requires |s| == 4 && s[3] == '=' && PaddedGroup(s).Some?
    ensures ToBase64(PaddedGroup(s).value) == s <==> Exact(s)
  {
    CharOfValue(s[0]);
    CharOfValue(s[1]);
    assert s[|s| - 4..] == s && s[0] != '=';
    if s[2] == '=' {
      OneByte(s, Base64Value(s[0]).value, Base64Value(s[1]).value);
    } else {
      CharOfValue(s[2]);
      TwoBytes(s, Base64Value(s[0]).value, Base64Value(s[1]).value, Base64Value(s[2]).value);
      assert PaddedGroup(s).value == [PaddedGroup(s).value[0], PaddedGroup(s).value[1]];
    }
  }

  lemma OneByte(s: string, a: nat, b: nat)
    requires a < 64 && b < 64 && s == [Base64Char(a), Base64Char(b), '=', '=']
    ensures ToBase64(Triple(a, b, 0, 0)[..1]) == s <==> b % 16 == 0
  {
    var x := Triple(a, b, 0, 0)[0];
    assert x / 4 == a && x % 4 * 16 == b - b % 16;
    assert ToBase64([x]) == [Base64Char(a), Base64Char(b - b % 16), '=', '='];
    CharsDiffer(b, b - b % 16);
  }

  lemma TwoBytes(s: string, a: nat, b: nat, c: nat)
    requires a < 64 && b < 64 && c < 64 && s == [Base64Char(a), Base64Char(b), Base64Char(c), '=']
    ensures ToBase64([Triple(a, b, c, 0)[0], Triple(a, b, c, 0)[1]]) == s <==> c % 4 == 0
  {
    var t, kept := Triple(a, b, c, 0), c - c % 4;
    LastBitsDropped(c);
    QuadOfTriple(a, b, kept, 0);
    assert Triple(a, b, kept, 0) == [t[0], t[1], 0];
    PaddedTwo(t[0], t[1], a, b, kept);
    CharsDiffer(c, kept);
  }

  lemma PaddedTwo(x: Byte, y: Byte, a: nat, b: nat, c: nat)
    requires a < 64 && b < 64 && c < 64 && Quad(x, y, 0) == [Base64Char(a), Base64Char(b), Base64Char(c), 'A']
    ensures ToBase64([x, y]) == [Base64Char(a), Base64Char(b), Base64Char(c), '=']
  {
  }

  lemma LastBitsDropped(c: nat)
    ensures (c - c % 4) / 4 == c / 4 && (c - c % 4) % 4 == 0
  {
  }

  lemma Base64TextIsDecoded(text: string, limit: nat)
    ensures Decode(Base64Text(text), limit) == Bounded(DecodeBase64(text, limit), limit)
  {
    var p := Base64Text(text).value;
    assert p.Keys == {"encoding", "data"} && |p.Keys| == 2;
    assert p["encoding"] == Text("base64") && p["data"] == Text(text);
  }

  lemma OneByteText(s: string, a: nat, b: nat)
    requires a < 64 && b < 64 && s == [Base64Char(a), Base64Char(b), '=', '=']
    ensures FromBase64(s) == Some([Triple(a, b, 0, 0)[0]])
  {
    assert s[0] != '=' && Base64Value(s[3]).None?;
    assert Triple(a, b, 0, 0)[..1] == [Triple(a, b, 0, 0)[0]];
    assert Groups(s) == PaddedGroup(s) == Some(Triple(a, b, 0, 0)[..1]);
  }

  lemma SurplusBitsText()
    ensures FromBase64("AB==") == Some([0]) && ToBase64([0]) == "AA=="
  {
    OneByteText("AB==", 0, 1);
    assert ToBase64([0]) == [Base64Char(0), Base64Char(0), '=', '='];
  }

  lemma SurplusPaddingText()
    ensures FromBase64("AAAA=") == Some([0, 0, 0]) && ToBase64([0, 0, 0]) == "AAAA"
  {
    var s := "AAAA=";
    assert Base64Value('A') == Some(0);
    assert FullGroup(s) && s[4..] == "=";
    assert !OnlyPadding(s) by { assert s[0] == 'A'; }
    assert OnlyPadding("=");
    assert Decoded(s) == [0, 0, 0] && Decoded(s) + [] == [0, 0, 0];
    assert ToBase64([0, 0, 0]) == Quad(0, 0, 0) + ToBase64([0, 0, 0][3..]);
  }

  /** Two accepted texts that encode no bytes: one with a bit set beyond its byte, one with surplus padding. */
  lemma LooseTextsAreAccepted()
    ensures Decode(Base64Text("AB=="), 1) == Ok([0]) && ToBase64([0]) == "AA=="
    ensures Decode(Base64Text("AAAA="), 4) == Ok([0, 0, 0]) && ToBase64([0, 0, 0]) == "AAAA"
  {
    SurplusBitsText();
    Base64TextIsDecoded("AB==", 1);
    SurplusPaddingText();
    Base64TextIsDecoded("AAAA=", 4);
  }

  predicate ReadsAs(text: string, limit: nat, b: seq<Byte>)
  {
    |text| <= (limit + 2) / 3 * 4 && FromBase64(text) == Some(b)
  }

  /** A payload that is accepted has one of the two shapes. */
  lemma AcceptedShape(payload: Option<map<string, Json>>, limit: nat, b: seq<Byte>)
    requires Decode(payload, limit) == Ok(b)
    ensures payload == HexPayload(b) || exists text :: payload == Base64Text(text) && ReadsAs(text, limit, b)
  {
    var p := payload.value;
    if p.Keys == {"$type", "$encoding", "$value"} {
      HexIsCanonical(p["$value"].text);
      HexEntries(p, b);
    } else {
      Base64Entries(p);
      assert payload == Base64Text(p["data"].text) && ReadsAs(p["data"].text, limit, b);
    }
  }

  lemma HexEntries(p: map<string, Json>, b: seq<Byte>)
    requires p.Keys == {"$type", "$encoding", "$value"} && IsText(p, "$type", "bytes") && IsText(p, "$encoding", "hex")
    requires p["$value"] == Text(ToHex(b))
    ensures p == HexPayload(b).value
  {
    var q := HexPayload(b).value;
    assert q.Keys == p.Keys && forall k :: k in p ==> q[k] == p[k];
  }

  lemma Base64Entries(p: map<string, Json>)
    requires p.Keys == {"encoding", "data"} && IsText(p, "encoding", "base64") && p["data"].Text?
    ensures p == Base64Text(p["data"].text).value
  {
    var q := Base64Text(p["data"].text).value;
    assert q.Keys == p.Keys && forall k :: k in p ==> q[k] == p[k];
  }

  /**
   Exactly what is accepted, and as which bytes: a base16 payload is the encoding of its bytes; a base64 payload
   passes the length check and its text reads as the bytes; and the bytes fit the limit.
   */
  lemma AcceptedPayloads(payload: Option<map<string, Json>>, limit: nat, b: seq<Byte>)
    ensures Decode(payload, limit) == Ok(b) <==>
              && |b| <= limit
              && (payload == HexPayload(b) || exists text :: payload == Base64Text(text) && ReadsAs(text, limit, b))
  {
    HexIsDecoded(b, limit);
    if text :| payload == Base64Text(text) && ReadsAs(text, limit, b) {
      Base64TextIsDecoded(text, limit);
    }
    if Decode(payload, limit) == Ok(b) {
      AcceptedShape(payload, limit, b);
    }
  }

  // ----- The limit --------------------------------------------------------------------------------------

  lemma {:induction false} GroupsLength(s: string)
    requires Groups(s).Some?
    ensures 4 * |Groups(s).value| <= 3 * |s|
  {
    if !OnlyPadding(s) && FullGroup(s) {
      GroupsLength(s[4..]);
    }
  }

  /** A base16 text that passes the length check fits the limit, so the last check never refuses it. */
  lemma HexCheckSuffices(encoded: string, limit: nat)
    ensures Bounded(DecodeHex(encoded, limit), limit) == DecodeHex(encoded, limit)
  {
  }

  /** A base64 text that passes the length check decodes to at most two bytes too many. */
  lemma Base64CheckOvershoots(encoded: string, limit: nat)
    requires DecodeBase64(encoded, limit).Ok?
    ensures |DecodeBase64(encoded, limit).value| <= (limit + 2) / 3 * 3 <= limit + 2
  {
    GroupsLength(encoded);
    Overshoot(|DecodeBase64(encoded, limit).value|, |encoded|, (limit + 2) / 3);
  }

  lemma Overshoot(n: nat, length: nat, q: nat)
    requires 4 * n <= 3 * length && length <= q * 4
    ensures n <= q * 3
  {
  }

  // ----- The chunked reader --------------------------------------------------------------------------------

  /** An upload stream: each read takes some of what is left, nothing only at the end. */
  class Upload {
    const stream: seq<Byte>
    var position: nat

    ghost predicate Valid()
      reads this
    {
      position <= |stream|
    }

    constructor (stream: seq<Byte>)
      ensures Valid() && this.stream == stream && position == 0
    {
      this.stream := stream;
      position := 0;
    }

    /** `upload.read(size)`; how much it returns at once is not determined. */
    method Read(size: nat) returns (chunk: seq<Byte>)
      requires Valid() && size > 0
      modifies this
      ensures Valid() && position == old(position) + |chunk| && chunk == stream[old(position)..position]
      ensures |chunk| <= size && (chunk == [] <==> old(position) == |stream|)
    {
      if position == |stream| {
        return [];
      }
      var left := |stream| - position;
      var n: nat :| 1 <= n <= size && n <= left;
      chunk := stream[position..position + n];
      position := position + n;
    }
  }

  /**
   `read_upload_file_bounded`: the whole stream exactly when it fits the limit; at most one byte beyond the
   limit is ever taken from the upload, and `retained` never grows beyond the limit.
   */
  method ReadBounded(upload: Upload, limit: nat, chunkSize: nat) returns (r: Option<seq<Byte>>)
    requires upload.Valid() && upload.position == 0 && chunkSize > 0
    modifies upload
    ensures upload.Valid() && upload.position <= limit + 1
    ensures r == if |upload.stream| <= limit then Some(upload.stream) else None
  {
    var retained: seq<Byte> := [];
    while true
      invariant upload.Valid() && upload.position == |retained| <= limit
      invariant retained == upload.stream[..upload.position]
      decreases |upload.stream| - upload.position
    {
      var want := limit + 1 - |retained|;
      var chunk := upload.Read(if chunkSize < want then chunkSize else want);
      if chunk == [] {
        break;
      }
      if |retained| + |chunk| > limit {
        return None;
      }
      retained := retained + chunk;
    }
    assert retained == upload.stream;
    return Some(retained);
  }
}
