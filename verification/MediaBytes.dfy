/** Byte strings, their fixed-width integers, and the active-content markers of the media validator. */
module MediaBytes {
  type Byte = x: int | 0 <= x < 256 witness 0

  const TWO_32 := 0x1_0000_0000

  /** `struct.unpack(">I", b)` */
  function BE32(b: seq<Byte>): (n: nat)
    requires |b| == 4
    ensures n < TWO_32
  {
    b[0] as int * 0x100_0000 + b[1] as int * 0x1_0000 + b[2] as int * 0x100 + b[3] as int
  }

  function ToBE32(n: nat): (b: seq<Byte>)
    requires n < TWO_32
    ensures |b| == 4 && BE32(b) == n
  {
    [n / 0x100_0000, n / 0x1_0000 % 0x100, n / 0x100 % 0x100, n % 0x100]
  }

  lemma BE32Injective(b: seq<Byte>)
    requires |b| == 4
    ensures ToBE32(BE32(b)) == b
  {
    DigitsUnique(b[0], b[1], b[2], b[3], BE32(b));
  }

  lemma DigitsUnique(a: Byte, b: Byte, c: Byte, d: Byte, n: nat)
    requires n == a * 0x100_0000 + b * 0x1_0000 + c * 0x100 + d
    ensures n / 0x100_0000 == a && n / 0x1_0000 % 0x100 == b && n / 0x100 % 0x100 == c && n % 0x100 == d
  {
    assert n / 0x100_0000 == a;
    assert n / 0x1_0000 == a * 0x100 + b;
    assert n / 0x100 == (a * 0x100 + b) * 0x100 + c;
  }

  /** `struct.unpack("<I", b)` */
  function LE32(b: seq<Byte>): (n: nat)
    requires |b| == 4
    ensures n < TWO_32
  {
    BE32([b[3], b[2], b[1], b[0]])
  }

  function ToLE32(n: nat): (b: seq<Byte>)
    requires n < TWO_32
    ensures |b| == 4 && LE32(b) == n
  {
    var e := ToBE32(n);
    assert e == [e[0], e[1], e[2], e[3]];
    [e[3], e[2], e[1], e[0]]
  }

  lemma LE32Injective(b: seq<Byte>)
    requires |b| == 4
    ensures ToLE32(LE32(b)) == b
  {
    BE32Injective([b[3], b[2], b[1], b[0]]);
  }

  /** `struct.unpack(">H", b)` */
  function BE16(b: seq<Byte>): (n: nat)
    requires |b| == 2
    ensures n < 0x1_0000
  {
    b[0] as int * 0x100 + b[1] as int
  }

  function ToBE16(n: nat): (b: seq<Byte>)
    requires n < 0x1_0000
    ensures |b| == 2 && BE16(b) == n
  {
    [n / 0x100, n % 0x100]
  }

  lemma BE16Injective(b: seq<Byte>)
    requires |b| == 2
    ensures ToBE16(BE16(b)) == b
  {
  }

  function Ascii(s: string): (b: seq<Byte>)
    requires forall i :: 0 <= i < |s| ==> s[i] < '\U{80}'
    ensures |b| == |s|
  {
    seq(|s|, i requires 0 <= i < |s| => s[i] as int)
  }

  /** `bytes.lower` */
  function LowerBytes(b: seq<Byte>): (r: seq<Byte>)
  {
    seq(|b|, i requires 0 <= i < |b| => if 65 <= b[i] <= 90 then b[i] + 32 else b[i])
  }

  predicate At(data: seq<Byte>, i: nat, marker: seq<Byte>)
  {
    i + |marker| <= |data| && data[i..i + |marker|] == marker
  }

  /** `marker in data` */
  predicate Contains(data: seq<Byte>, marker: seq<Byte>)
  {
    exists i: nat :: i <= |data| && At(data, i, marker)
  }

  function ActiveMarkers(): seq<seq<Byte>>
  {
    [Ascii("<script"), Ascii("javascript:"), Ascii("<svg"), Ascii("<?php"), Ascii("#!/")]
  }

  predicate HasActiveMarker(data: seq<Byte>)
  {
    exists m :: m in ActiveMarkers() && Contains(LowerBytes(data), m)
  }
}
