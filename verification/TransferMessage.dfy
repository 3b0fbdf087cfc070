/**
 The legacy transfer signing message (native_transfer.py): validation of a transfer, the text that is
 signed, and the reading of that text.
 */
module TransferMessage {
  import opened Wrappers
  import opened Digits
  import opened Text
  import Amount

  const MAX_MEMO_LENGTH := 280

  datatype TransferError =
    | WrongAction
    | InvalidNetwork
    | InvalidFrom
    | InvalidTo
    | SelfTransfer
    | InvalidAmount(amount: Amount.AmountError)
    | InvalidNonce
    | InvalidTimestamp
    | MemoTooLong
    | InvalidStatus
    | InvalidScheme
    | MessageRequired
    | NotATransferMessage

  /** The fields of a payload; an absent text field is empty, an absent fee is "0". */
  datatype Payload = Payload(
    action: string,
    network: string,
    sender: string,
    recipient: string,
    amount: string,
    fee: string,
    nonce: string,
    timestamp: string,
    memo: Option<string>,
    signature: string,
    scheme: string,
    messageHash: string,
    status: string)

  datatype Message = Message(
    action: string,
    network: string,
    sender: string,
    recipient: string,
    amount: string,
    fee: string,
    nonce: string,
    timestamp: string,
    memo: Option<string>,
    signature: Option<string>,
    scheme: Option<string>,
    messageHash: Option<string>,
    status: string)

  /** `datetime.fromisoformat(...).astimezone(utc).isoformat()` on a trimmed text. */
  type Iso = string -> Option<string>

  // ----- Validation -----------------------------------------------------------------------------

  predicate IsAlphanumeric(c: char) { '0' <= c <= '9' || 'a' <= c <= 'z' || 'A' <= c <= 'Z' }

  /** `NETWORK_NAME_PATTERN` */
  predicate ValidNetwork(s: string)
  {
    && 3 <= |s| <= 64 && IsAlphanumeric(s[0])
    && forall i :: 0 <= i < |s| ==> IsAlphanumeric(s[i]) || s[i] in "_.-"
  }

  /** `parse_transfer_nonce` for a string: the digits are kept as written. */
  function ParseNonce(value: string): Option<string>
  {
    var candidate := Strip(value);
    if candidate == "" || !AllDigits(candidate) || Value(candidate) < 1 then None else Some(candidate)
  }

  function ParseTimestamp(value: string, iso: Iso): Option<string>
  {
    var candidate := Strip(value);
    if candidate == "" then None else iso(candidate)
  }

  function NormalizeMemo(memo: Option<string>): Result<Option<string>, TransferError>
  {
    if memo.None? || Strip(memo.value) == "" then Ok(None)
    else if |Strip(memo.value)| > MAX_MEMO_LENGTH then Err(MemoTooLong)
    else Ok(Some(Strip(memo.value)))
  }

  function NonEmpty(s: string): Option<string> { if Strip(s) == "" then None else Some(Strip(s)) }

  predicate KnownStatus(s: string)
  {
    s in ["draft", "signed", "signed_pending", "pending", "rejected", "included", "failed"]
  }

  function NormalizeStatus(s: string): string { Lower(Strip(if s == "" then "draft" else s)) }

  /** `validate_native_transfer_message` */
  function Validate(p: Payload, network: string, iso: Iso): Result<Message, TransferError>
  {
    if Strip(p.action) != "transfer_zoid" then Err(WrongAction)
    else if !ValidNetwork(Strip(p.network)) || Strip(p.network) != network then Err(InvalidNetwork)
    else if NormalizeWallet(p.sender).None? then Err(InvalidFrom)
    else if NormalizeWallet(p.recipient).None? then Err(InvalidTo)
    else if NormalizeWallet(p.sender) == NormalizeWallet(p.recipient) then Err(SelfTransfer)
    else Assemble(p, NormalizeWallet(p.sender).value, NormalizeWallet(p.recipient).value,
                  Amount.Parse(p.amount, false, Amount.MAX_DECIMAL_PLACES), Amount.Parse(p.fee, true, Amount.MAX_DECIMAL_PLACES),
                  ParseNonce(p.nonce), ParseTimestamp(p.timestamp, iso))
  }

  /** The checks on the parsed values, in their order, and the message. */
  function Assemble(p: Payload, sender: string, recipient: string, amount: Result<string, Amount.AmountError>,
                    fee: Result<string, Amount.AmountError>, nonce: Option<string>, timestamp: Option<string>)
    : Result<Message, TransferError>
  {
    if amount.Err? then Err(InvalidAmount(amount.error))
    else if fee.Err? then Err(InvalidAmount(fee.error))
    else if nonce.None? then Err(InvalidNonce)
    else if timestamp.None? then Err(InvalidTimestamp)
    else match NormalizeMemo(p.memo)
      case Err(e) => Err(e)
      case Ok(memo) =>
        if !KnownStatus(NormalizeStatus(p.status)) then Err(InvalidStatus)
        else if NonEmpty(p.scheme).Some? && NonEmpty(p.scheme).value != "personal_sign" then Err(InvalidScheme)
        else Ok(Message("transfer_zoid", Strip(p.network), sender, recipient, amount.value, fee.value, nonce.value,
                        timestamp.value, memo, NonEmpty(p.signature), NonEmpty(p.scheme), NonEmpty(p.messageHash),
                        NormalizeStatus(p.status)))
  }

  // ----- Lines ------------------------------------------------------------------------------------

  predicate Clean(s: string) { forall i :: 0 <= i < |s| ==> !IsLineBoundary(s[i]) }

  function FirstBoundary(s: string): (n: nat)
    ensures n <= |s| && Clean(s[..n]) && (n < |s| ==> IsLineBoundary(s[n]))
  {
    if s == "" || IsLineBoundary(s[0]) then 0 else
    var n := FirstBoundary(s[1..]);
    assert forall i :: 0 <= i < n ==> s[i + 1] == s[1..][..n][i];
    1 + n
  }

  /** `str.splitlines`: a carriage return and line feed are one boundary, and no line follows the last one. */
  function SplitLines(s: string): seq<string>
    decreases |s|
  {
    if s == "" then [] else
    var n := FirstBoundary(s);
    if n == |s| then [s]
    else [s[..n]] + SplitLines(if s[n] == '\r' && n + 1 < |s| && s[n + 1] == '\n' then s[n + 2..] else s[n + 1..])
  }

  /** `"\n".join(lines)` */
  function Join(lines: seq<string>): string
  {
    if lines == [] then "" else if |lines| == 1 then lines[0] else lines[0] + "\n" + Join(lines[1..])
  }

  // ----- The signing message ------------------------------------------------------------------------

  const TITLE := "ZoidbergChain Native Transfer"
  const AUTHORIZATION := "This " + "authorizes a native ZOID " + "transfer on ZoidbergChain."
  const DISCLAIMER := "This " + "is not an Ethereum/ERC-20 transfer."

  function Labels(): (ls: seq<string>)
    ensures |ls| == 9
  {
    ["Action: ", "Network: ", "From: ", "To: ", "Amount: ", "Fee: ", "Nonce: ", "Timestamp: ", "Memo: "]
  }

  /** The lines of the message; the memo line is there only for a memo. */
  function Lines(m: Message): seq<string>
  {
    [TITLE, ""] + FieldLines(m) + MemoLines(m) + ClosingLines()
  }

  function FieldLines(m: Message): seq<string>
  {
    ["Action: " + m.action, "Network: " + m.network, "From: " + m.sender, "To: " + m.recipient,
     "Amount: " + m.amount, "Fee: " + m.fee, "Nonce: " + m.nonce, "Timestamp: " + m.timestamp]
  }

  function MemoLines(m: Message): seq<string>
  {
    if m.memo.Some? && m.memo.value != "" then ["Memo: " + m.memo.value] else []
  }

  function ClosingLines(): seq<string>
  {
    ["", AUTHORIZATION, DISCLAIMER]
  }

  /** The text after the label on the last line that bears it. */
  function LastLabelled(lines: seq<string>, tag: string): Option<string>
  {
    if lines == [] then None
    else if tag <= lines[|lines| - 1] then Some(lines[|lines| - 1][|tag|..])
    else LastLabelled(lines[..|lines| - 1], tag)
  }

  /** The payload read from the lines. */
  function Collected(lines: seq<string>): Payload
  {
    Payload(LastLabelled(lines, "Action: ").GetOr(""), LastLabelled(lines, "Network: ").GetOr(""),
            LastLabelled(lines, "From: ").GetOr(""), LastLabelled(lines, "To: ").GetOr(""),
            LastLabelled(lines, "Amount: ").GetOr(""), LastLabelled(lines, "Fee: ").GetOr(""),
            LastLabelled(lines, "Nonce: ").GetOr(""), LastLabelled(lines, "Timestamp: ").GetOr(""),
            LastLabelled(lines, "Memo: "), "", "", "", "draft")
  }

  /** What `parse_transfer_signing_message` returns. */
  function Parsed(text: string, network: string, iso: Iso): Result<Message, TransferError>
  {
    if Strip(text) == "" then Err(MessageRequired)
    else
      var lines := SplitLines(text);
      if |lines| < 12 || Strip(lines[0]) != TITLE then Err(NotATransferMessage)
      else Validate(Collected(lines), network, iso)
  }

  /** The chain of prefix tests, one label after the other. */
  function LabelOf(line: string, i: nat): (r: Option<nat>)
    requires i <= 9
    ensures r.Some? ==> i <= r.value < 9 && Labels()[r.value] <= line
    ensures r.None? ==> forall j :: i <= j < 9 ==> !(Labels()[j] <= line)
    decreases 9 - i
  {
    if i == 9 then None else if Labels()[i] <= line then Some(i) else LabelOf(line, i + 1)
  }

  lemma HeadsDiffer(i: nat, j: nat)
    requires i < 9 && j < 9 && i != j
    ensures |Labels()[i]| >= 2 && |Labels()[j]| >= 2 && Labels()[i][..2] != Labels()[j][..2]
  {
    var a, b := Labels()[i], Labels()[j];
    assert a[0] != b[0] || a[1] != b[1];
    assert a[..2][0] == a[0] && a[..2][1] == a[1] && b[..2][0] == b[0] && b[..2][1] == b[1];
  }

  /** A line bears at most one label, so the order of the tests does not matter. */
  lemma LabelOfMeaning(line: string, i: nat)
    requires i < 9
    ensures Labels()[i] <= line <==> LabelOf(line, 0) == Some(i)
  {
    if Labels()[i] <= line {
      var j := LabelOf(line, 0).value;
      if j != i {
        HeadsDiffer(i, j);
      }
    }
  }

  /** `parse_transfer_signing_message` */
  method Parse(text: string, network: string, iso: Iso) returns (r: Result<Message, TransferError>)
    ensures r == Parsed(text, network, iso)
  {
    if Strip(text) == "" {
      return Err(MessageRequired);
    }
    var lines := SplitLines(text);
    if |lines| < 12 || Strip(lines[0]) != TITLE {
      return Err(NotATransferMessage);
    }
    var fields := CollectFields(lines);
    return Validate(Payload(Get(fields, 0).GetOr(""), Get(fields, 1).GetOr(""), Get(fields, 2).GetOr(""),
                            Get(fields, 3).GetOr(""), Get(fields, 4).GetOr(""), Get(fields, 5).GetOr(""),
                            Get(fields, 6).GetOr(""), Get(fields, 7).GetOr(""), Get(fields, 8), "", "", "", "draft"),
                    network, iso);
  }

  function Get(fields: map<string, string>, i: nat): Option<string>
    requires i < 9
  {
    if Labels()[i] in fields then Some(fields[Labels()[i]]) else None
  }

  /** The loop over the lines: a later line with the same label replaces the value. */
  method CollectFields(lines: seq<string>) returns (fields: map<string, string>)
    ensures forall i: nat :: i < 9 ==> Get(fields, i) == LastLabelled(lines, Labels()[i])
  {
    fields := map[];
    for n := 0 to |lines|
      invariant forall i: nat :: i < 9 ==> Get(fields, i) == LastLabelled(lines[..n], Labels()[i])
    {
      var line := lines[n];
      var found := LabelOf(line, 0);
      ghost var before := fields;
      if found.Some? {
        fields := fields[Labels()[found.value] := line[|Labels()[found.value]|..]];
      }
      forall i: nat | i < 9
        ensures Get(fields, i) == LastLabelled(lines[..n + 1], Labels()[i])
      {
        LabelOfMeaning(line, i);
        LastLabelledSnoc(lines, n, Labels()[i]);
        assert Get(before, i) == LastLabelled(lines[..n], Labels()[i]);
      }
    }
    assert lines[..|lines|] == lines;
  }

  lemma LastLabelledSnoc(lines: seq<string>, n: nat, tag: string)
    requires n < |lines|
    ensures LastLabelled(lines[..n + 1], tag) ==
              if tag <= lines[n] then Some(lines[n][|tag|..]) else LastLabelled(lines[..n], tag)
  {
    assert lines[..n + 1][..n] == lines[..n];
  }
}
