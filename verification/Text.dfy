/** The parts of Python's `str` that the codecs and canonical forms of the node rely on. */
module Text {
  import opened Wrappers

  /** `str.isspace` for one character. */
  predicate IsSpace(c: char)
  {
    || '\U{9}' <= c <= '\U{d}' || '\U{1c}' <= c <= '\U{20}' || c == '\U{85}' || c == '\U{a0}'
    || c == '\U{1680}' || '\U{2000}' <= c <= '\U{200a}' || c == '\U{2028}' || c == '\U{2029}'
    || c == '\U{202f}' || c == '\U{205f}' || c == '\U{3000}'
  }

  /** The characters at which `str.splitlines` breaks. */
  predicate IsLineBoundary(c: char)
  {
    || '\U{a}' <= c <= '\U{d}' || '\U{1c}' <= c <= '\U{1e}' || c == '\U{85}' || c == '\U{2028}' || c == '\U{2029}'
  }

  /** `str.strip` */
  function Strip(s: string): (r: string)
    decreases |s|
  {
    if s == "" then ""
    else if IsSpace(s[0]) then Strip(s[1..])
    else if IsSpace(s[|s| - 1]) then Strip(s[..|s| - 1])
    else s
  }

  predicate Trimmed(s: string) { s == "" || (!IsSpace(s[0]) && !IsSpace(s[|s| - 1])) }

  lemma {:induction false} StripTrims(s: string)
    ensures Trimmed(Strip(s))
    ensures forall c :: c in Strip(s) ==> c in s
    decreases |s|
  {
    if s != "" {
      if IsSpace(s[0]) {
        StripTrims(s[1..]);
      } else if IsSpace(s[|s| - 1]) {
        StripTrims(s[..|s| - 1]);
      }
    }
  }

  lemma TrimmedIsStripped(s: string)
    requires Trimmed(s)
    ensures Strip(s) == s
  {
  }

  function LowerChar(c: char): char { if 'A' <= c <= 'Z' then (c as int + 32) as char else c }

  /** `str.lower` on ASCII, which is all that accepted wallets, signatures and hashes contain. */
  function Lower(s: string): (r: string)
    ensures |r| == |s|
  {
    seq(|s|, i requires 0 <= i < |s| => LowerChar(s[i]))
  }

  lemma LowerIdempotent(s: string)
    ensures Lower(Lower(s)) == Lower(s)
  {
  }

  predicate IsHexDigit(c: char) { '0' <= c <= '9' || 'a' <= c <= 'f' || 'A' <= c <= 'F' }

  /** `normalize_wallet_address` */
  function NormalizeWallet(raw: string): Option<string>
  {
    var candidate := Strip(raw);
    if |candidate| != 42 || candidate[..2] != "0x" then None
    else if exists i :: 2 <= i < 42 && !IsHexDigit(candidate[i]) then None
    else Some("0x" + Lower(candidate[2..]))
  }

  lemma {:induction false} StripOfLower(s: string)
    ensures Strip(Lower(s)) == Lower(Strip(s))
    decreases |s|
  {
    if s != "" {
      if IsSpace(s[0]) {
        assert Lower(s)[1..] == Lower(s[1..]);
        StripOfLower(s[1..]);
      } else if IsSpace(s[|s| - 1]) {
        assert Lower(s)[..|s| - 1] == Lower(s[..|s| - 1]);
        StripOfLower(s[..|s| - 1]);
      }
    }
  }
}
