/**
 Reading a signing message gives back the transfer it was built from, exactly when its memo stays on
 one line.
 */
module TransferTheorems {
  import opened Wrappers
  import opened Digits
  import opened Text
  import opened TransferMessage
  import Amount
  import AmountTheorems

  /** What the clock functions promise: a canonical time is one trimmed line, and stays as it is. */
  ghost predicate Clock(iso: Iso)
  {
    forall s: string :: iso(s).Some? ==>
      var t := iso(s).value; t != "" && Trimmed(t) && Clean(t) && iso(t) == Some(t)
  }

  // ----- What validation establishes -----------------------------------------------------------------

  predicate OneLine(s: string) { s != "" && Trimmed(s) && Clean(s) }

  predicate ValidParties(m: Message, network: string)
  {
    && m.action == "transfer_zoid" && ValidNetwork(m.network) && m.network == network && Strip(m.network) == m.network
    && NormalizeWallet(m.sender) == Some(m.sender) && NormalizeWallet(m.recipient) == Some(m.recipient)
    && m.sender != m.recipient
  }

  predicate ValidValues(m: Message, iso: Iso)
  {
    && Amount.Parse(m.amount, false, Amount.MAX_DECIMAL_PLACES) == Ok(m.amount)
    && Amount.Parse(m.fee, true, Amount.MAX_DECIMAL_PLACES) == Ok(m.fee)
    && ParseNonce(m.nonce) == Some(m.nonce)
    && ParseTimestamp(m.timestamp, iso) == Some(m.timestamp) && OneLine(m.timestamp)
  }

  predicate ValidMemo(memo: Option<string>) { NormalizeMemo(memo) == Ok(memo) }

  /** A wallet that needs no normalising. */
  predicate PlainWallet(w: string)
  {
    |w| == 42 && w[0] == '0' && w[1] == 'x' && forall i :: 2 <= i < 42 ==> IsHexDigit(w[i])
  }

  lemma PlainWalletIsOneLine(w: string)
    requires PlainWallet(w)
    ensures OneLine(w) && Strip(w) == w
  {
    TrimmedIsStripped(w);
  }

  lemma LoweredWallet(hex: string)
    requires |hex| == 40 && forall i :: 0 <= i < 40 ==> IsHexDigit(hex[i])
    ensures PlainWallet("0x" + Lower(hex)) && ("0x" + Lower(hex))[..2] == "0x"
    ensures "0x" + Lower(("0x" + Lower(hex))[2..]) == "0x" + Lower(hex)
  {
    var w := "0x" + Lower(hex);
    forall i | 2 <= i < 42
      ensures IsHexDigit(w[i])
    {
      assert w[i] == LowerChar(hex[i - 2]);
    }
    LowerIdempotent(hex);
    assert w[2..] == Lower(hex);
  }

  lemma WalletIsStable(raw: string)
    requires NormalizeWallet(raw).Some?
    ensures NormalizeWallet(NormalizeWallet(raw).value) == NormalizeWallet(raw)
    ensures OneLine(NormalizeWallet(raw).value)
  {
    LoweredWallet(Strip(raw)[2..]);
    PlainWalletIsOneLine(NormalizeWallet(raw).value);
  }

  lemma NonceIsStable(raw: string)
    requires ParseNonce(raw).Some?
    ensures ParseNonce(ParseNonce(raw).value) == ParseNonce(raw) && OneLine(ParseNonce(raw).value)
  {
    StripTrims(raw);
    TrimmedIsStripped(Strip(raw));
  }

  lemma TimestampIsStable(raw: string, iso: Iso)
    requires Clock(iso) && ParseTimestamp(raw, iso).Some?
    ensures ParseTimestamp(ParseTimestamp(raw, iso).value, iso) == ParseTimestamp(raw, iso)
    ensures OneLine(ParseTimestamp(raw, iso).value)
  {
    var t := ParseTimestamp(raw, iso).value;
    TrimmedIsStripped(t);
  }

  lemma MemoIsStable(raw: Option<string>)
    requires NormalizeMemo(raw).Ok?
    ensures ValidMemo(NormalizeMemo(raw).value)
  {
    if raw.Some? {
      StripTrims(raw.value);
      TrimmedIsStripped(Strip(raw.value));
    }
  }

  lemma ValidationMeaning(p: Payload, network: string, iso: Iso)
    requires Clock(iso) && Validate(p, network, iso).Ok?
    ensures var m := Validate(p, network, iso).value;
            ValidParties(m, network) && ValidValues(m, iso) && ValidMemo(m.memo)
  {
    PartiesAreStable(p, network, iso);
    var amount := Amount.Parse(p.amount, false, Amount.MAX_DECIMAL_PLACES);
    var fee := Amount.Parse(p.fee, true, Amount.MAX_DECIMAL_PLACES);
    Assembled(p, NormalizeWallet(p.sender).value, NormalizeWallet(p.recipient).value, amount, fee,
              ParseNonce(p.nonce), ParseTimestamp(p.timestamp, iso));
    AmountTheorems.ParseIsIdempotent(p.amount, false, Amount.MAX_DECIMAL_PLACES);
    AmountTheorems.ParseIsIdempotent(p.fee, true, Amount.MAX_DECIMAL_PLACES);
    NonceIsStable(p.nonce);
    TimestampIsStable(p.timestamp, iso);
  }

  lemma PartiesAreStable(p: Payload, network: string, iso: Iso)
    requires Validate(p, network, iso).Ok?
    ensures NormalizeWallet(p.sender).Some? && NormalizeWallet(p.recipient).Some?
    ensures var sender, recipient := NormalizeWallet(p.sender).value, NormalizeWallet(p.recipient).value;
            sender != recipient && NormalizeWallet(sender) == Some(sender) && NormalizeWallet(recipient) == Some(recipient)
    ensures ValidNetwork(Strip(p.network)) && Strip(p.network) == network && Strip(network) == network
  {
    StripTrims(p.network);
    TrimmedIsStripped(Strip(p.network));
    WalletIsStable(p.sender);
    WalletIsStable(p.recipient);
  }

  lemma Assembled(p: Payload, sender: string, recipient: string, amount: Result<string, Amount.AmountError>,
                  fee: Result<string, Amount.AmountError>, nonce: Option<string>, timestamp: Option<string>)
    requires Assemble(p, sender, recipient, amount, fee, nonce, timestamp).Ok?
    ensures amount.Ok? && fee.Ok? && nonce.Some? && timestamp.Some?
    ensures var m := Assemble(p, sender, recipient, amount, fee, nonce, timestamp).value;
            && m.action == "transfer_zoid" && m.network == Strip(p.network) && m.sender == sender && m.recipient == recipient
            && m.amount == amount.value && m.fee == fee.value && m.nonce == nonce.value && m.timestamp == timestamp.value
            && NormalizeMemo(p.memo) == Ok(m.memo) && ValidMemo(m.memo)
  {
    MemoIsStable(p.memo);
  }

  /** The payload that a reader collects from a message's own fields. */
  function Fields(m: Message): Payload
  {
    Payload(m.action, m.network, m.sender, m.recipient, m.amount, m.fee, m.nonce, m.timestamp, m.memo, "", "", "", "draft")
  }

  /** The unsigned draft of a message. */
  function Draft(m: Message): Message { m.(signature := None, scheme := None, messageHash := None, status := "draft") }

  lemma ValidIsAccepted(m: Message, network: string, iso: Iso)
    requires ValidParties(m, network) && ValidValues(m, iso) && ValidMemo(m.memo)
    ensures Validate(Fields(m), network, iso) == Ok(Draft(m))
  {
    TrimmedIsStripped("transfer_zoid");
    DraftIsAssembled(m);
  }

  lemma DraftIsAssembled(m: Message)
    requires ValidMemo(m.memo) && m.action == "transfer_zoid" && Strip(m.network) == m.network
    ensures Assemble(Fields(m), m.sender, m.recipient, Ok(m.amount), Ok(m.fee), Some(m.nonce), Some(m.timestamp)) == Ok(Draft(m))
  {
    TrimmedIsStripped("draft");
    assert Lower("draft") == "draft";
  }

  // ----- Lines ------------------------------------------------------------------------------------

  lemma {:induction false} FirstBoundaryAt(line: string, rest: string)
    requires Clean(line)
    ensures FirstBoundary(line + "\n" + rest) == |line| && FirstBoundary(line) == |line|
  {
    var s := line + "\n" + rest;
    if line == "" {
      assert s[0] == '\n';
    } else {
      FirstBoundaryAt(line[1..], rest);
      assert s[1..] == line[1..] + "\n" + rest;
    }
  }

  predicate AllClean(lines: seq<string>) { forall i :: 0 <= i < |lines| ==> Clean(lines[i]) }

  /** Splitting undoes joining, for lines without a boundary of which the last is not empty. */
  lemma {:induction false} SplitJoin(lines: seq<string>)
    requires lines != [] && AllClean(lines) && lines[|lines| - 1] != ""
    ensures Join(lines) != "" && SplitLines(Join(lines)) == lines
  {
    if |lines| == 1 {
      FirstBoundaryAt(lines[0], "");
    } else {
      var rest := Join(lines[1..]);
      assert AllClean(lines[1..]) && lines[1..][|lines| - 2] == lines[|lines| - 1];
      SplitJoin(lines[1..]);
      SplitFirst(lines[0], rest);
      assert lines == [lines[0]] + lines[1..];
    }
  }

  lemma SplitFirst(line: string, rest: string)
    requires Clean(line)
    ensures SplitLines(line + "\n" + rest) == [line] + SplitLines(rest)
  {
    var s := line + "\n" + rest;
    FirstBoundaryAt(line, rest);
    assert s[..|line|] == line && s[|line| + 1..] == rest;
  }

  lemma {:induction false} SplitIsClean(s: string)
    ensures AllClean(SplitLines(s))
    decreases |s|
  {
    if s != "" {
      var n := FirstBoundary(s);
      if n < |s| {
        SplitIsClean(if s[n] == '\r' && n + 1 < |s| && s[n + 1] == '\n' then s[n + 2..] else s[n + 1..]);
      } else {
        assert s[..n] == s;
      }
    }
  }

  lemma {:induction false} LabelledIsClean(lines: seq<string>, tag: string)
    requires AllClean(lines) && LastLabelled(lines, tag).Some?
    ensures Clean(LastLabelled(lines, tag).value)
  {
    var n := |lines| - 1;
    if tag <= lines[n] {
      assert forall i :: 0 <= i < |lines[n][|tag|..]| ==> lines[n][|tag|..][i] == lines[n][|tag| + i];
    } else {
      LabelledIsClean(lines[..n], tag);
    }
  }

  predicate CleanMemo(memo: Option<string>) { memo.None? || Clean(memo.value) }

  lemma CleanMemoStays(memo: Option<string>)
    requires CleanMemo(memo) && NormalizeMemo(memo).Ok?
    ensures CleanMemo(NormalizeMemo(memo).value)
  {
    if memo.Some? {
      StripTrims(memo.value);
      var t := Strip(memo.value);
      forall i | 0 <= i < |t|
        ensures !IsLineBoundary(t[i])
      {
        assert t[i] in memo.value;
      }
    }
  }

  lemma CollectedMemoIsClean(lines: seq<string>)
    requires AllClean(lines)
    ensures CleanMemo(Collected(lines).memo)
  {
    if LastLabelled(lines, "Memo: ").Some? {
      LabelledIsClean(lines, "Memo: ");
    }
  }

  /** Whatever is read, its memo stands on one line. */
  lemma ParsedMemoIsClean(text: string, network: string, iso: Iso)
    requires Parsed(text, network, iso).Ok?
    ensures CleanMemo(Parsed(text, network, iso).value.memo)
  {
    SplitIsClean(text);
    CollectedMemoIsClean(SplitLines(text));
    ReadMemoIsClean(Collected(SplitLines(text)), network, iso);
  }

  lemma ReadMemoIsClean(p: Payload, network: string, iso: Iso)
    requires CleanMemo(p.memo) && Validate(p, network, iso).Ok?
    ensures CleanMemo(Validate(p, network, iso).value.memo)
  {
    ValidatedMemo(p, network, iso);
    CleanMemoStays(p.memo);
  }

  lemma ValidatedMemo(p: Payload, network: string, iso: Iso)
    requires Validate(p, network, iso).Ok?
    ensures NormalizeMemo(p.memo) == Ok(Validate(p, network, iso).value.memo)
  {
    var amount := Amount.Parse(p.amount, false, Amount.MAX_DECIMAL_PLACES);
    var fee := Amount.Parse(p.fee, true, Amount.MAX_DECIMAL_PLACES);
    Assembled(p, NormalizeWallet(p.sender).value, NormalizeWallet(p.recipient).value, amount, fee,
              ParseNonce(p.nonce), ParseTimestamp(p.timestamp, iso));
  }

  // ----- Finding the fields ------------------------------------------------------------------------------

  lemma {:induction false} FoundAt(lines: seq<string>, i: nat, tag: string)
    requires i < |lines| && tag <= lines[i]
    requires forall j :: i < j < |lines| ==> !(tag <= lines[j])
    ensures LastLabelled(lines, tag) == Some(lines[i][|tag|..])
  {
    if i < |lines| - 1 {
      FoundAt(lines[..|lines| - 1], i, tag);
    }
  }

  lemma {:induction false} NotFound(lines: seq<string>, tag: string)
    requires forall j :: 0 <= j < |lines| ==> !(tag <= lines[j])
    ensures LastLabelled(lines, tag) == None
  {
    if lines != [] {
      NotFound(lines[..|lines| - 1], tag);
    }
  }

  lemma OneLabel(line: string, i: nat, k: nat)
    requires i < 9 && k < 9 && i != k && Labels()[i] <= line
    ensures !(Labels()[k] <= line)
  {
    LabelOfMeaning(line, i);
    LabelOfMeaning(line, k);
  }

  /** The first and the closing lines bear no label. */
  lemma NoLabel(k: nat)
    requires k < 9
    ensures !(Labels()[k] <= TITLE) && !(Labels()[k] <= "")
    ensures forall i :: 0 <= i < 3 ==> !(Labels()[k] <= ClosingLines()[i])
  {
    var l := Labels()[k];
    assert l[0] != 'Z' && (l[0] == 'T' ==> l[1] != 'h');
    assert AUTHORIZATION[0] == 'T' && AUTHORIZATION[1] == 'h';
    assert DISCLAIMER[0] == 'T' && DISCLAIMER[1] == 'h';
  }

  /** The value after each label. */
  function FieldValue(m: Message, k: nat): string
    requires k < 8
  {
    [m.action, m.network, m.sender, m.recipient, m.amount, m.fee, m.nonce, m.timestamp][k]
  }

  lemma FieldLine(m: Message, k: nat)
    requires k < 8
    ensures Lines(m)[2 + k] == Labels()[k] + FieldValue(m, k)
  {
  }

  lemma FieldIsFound(m: Message, k: nat)
    requires k < 8
    ensures LastLabelled(Lines(m), Labels()[k]) == Some(FieldValue(m, k))
  {
    var lines := Lines(m);
    FieldLine(m, k);
    forall j | 2 + k < j < |lines|
      ensures !(Labels()[k] <= lines[j])
    {
      NoLabel(k);
      if j < 10 {
        FieldLine(m, j - 2);
        OneLabel(lines[j], j - 2, k);
      } else if j < 10 + |MemoLines(m)| {
        OneLabel(lines[j], 8, k);
      } else {
        assert lines[j] == ClosingLines()[j - 10 - |MemoLines(m)|];
      }
    }
    FoundAt(lines, 2 + k, Labels()[k]);
  }

  lemma TitleIsClean()
    ensures Clean(TITLE) && Strip(TITLE) == TITLE
  {
    TrimmedIsStripped(TITLE);
  }

  lemma AuthorizationIsClean()
    ensures Clean(AUTHORIZATION)
  {
  }

  lemma DisclaimerIsClean()
    ensures Clean(DISCLAIMER) && DISCLAIMER != ""
  {
  }

  lemma MemoIsFound(m: Message)
    requires ValidMemo(m.memo)
    ensures LastLabelled(Lines(m), "Memo: ") == m.memo
  {
    var lines := Lines(m);
    forall j | 0 <= j < |lines| && (j != 10 || m.memo.None?)
      ensures !(Labels()[8] <= lines[j])
    {
      NoLabel(8);
      if 2 <= j < 10 {
        FieldLine(m, j - 2);
        OneLabel(lines[j], j - 2, 8);
      } else if j >= 10 {
        assert lines[j] == ClosingLines()[j - 10 - |MemoLines(m)|];
      }
    }
    if m.memo.Some? {
      assert lines[10] == "Memo: " + m.memo.value;
      FoundAt(lines, 10, "Memo: ");
    } else {
      NotFound(lines, "Memo: ");
    }
  }

  /** Each field is read from its own line. */
  lemma FieldsAreFound(m: Message)
    requires ValidMemo(m.memo)
    ensures Collected(Lines(m)) == Fields(m)
  {
    MemoIsFound(m);
    forall k | 0 <= k < 8
      ensures LastLabelled(Lines(m), Labels()[k]) == Some(FieldValue(m, k))
    {
      FieldIsFound(m, k);
    }
    assert Labels()[0] == "Action: " && Labels()[1] == "Network: " && Labels()[2] == "From: " && Labels()[3] == "To: ";
    assert Labels()[4] == "Amount: " && Labels()[5] == "Fee: " && Labels()[6] == "Nonce: " && Labels()[7] == "Timestamp: ";
  }

  // ----- The lines of a valid message stand alone --------------------------------------------------------

  lemma AmountIsClean(s: string, allowZero: bool, places: nat)
    requires Amount.Parse(s, allowZero, places) == Ok(s)
    ensures Clean(s)
  {
    AmountTheorems.ResultIsCanonical(s, allowZero, places);
  }

  lemma PartiesAreClean(m: Message, network: string)
    requires ValidParties(m, network)
    ensures Clean(m.action) && Clean(m.network) && Clean(m.sender) && Clean(m.recipient)
  {
    WalletIsStable(m.sender);
    WalletIsStable(m.recipient);
  }

  lemma ValuesAreClean(m: Message, iso: Iso)
    requires ValidValues(m, iso)
    ensures Clean(m.amount) && Clean(m.fee) && Clean(m.nonce) && Clean(m.timestamp)
  {
    AmountIsClean(m.amount, false, Amount.MAX_DECIMAL_PLACES);
    AmountIsClean(m.fee, true, Amount.MAX_DECIMAL_PLACES);
    NonceIsStable(m.nonce);
  }

  lemma LabelsAreClean(k: nat)
    requires k < 9
    ensures Clean(Labels()[k])
  {
  }

  lemma CleanAppend(a: string, b: string)
    requires Clean(a) && Clean(b)
    ensures Clean(a + b)
  {
  }

  lemma LinesAreClean(m: Message, network: string, iso: Iso)
    requires ValidParties(m, network) && ValidValues(m, iso) && CleanMemo(m.memo)
    ensures AllClean(Lines(m))
  {
    PartiesAreClean(m, network);
    ValuesAreClean(m, iso);
    CleanLines(m);
  }

  predicate CleanFields(m: Message)
  {
    && Clean(m.action) && Clean(m.network) && Clean(m.sender) && Clean(m.recipient)
    && Clean(m.amount) && Clean(m.fee) && Clean(m.nonce) && Clean(m.timestamp)
  }

  lemma CleanLines(m: Message)
    requires CleanMemo(m.memo) && CleanFields(m)
    ensures AllClean(Lines(m))
  {
    var lines := Lines(m);
    TitleIsClean();
    AuthorizationIsClean();
    DisclaimerIsClean();
    forall j | 0 <= j < |lines|
      ensures Clean(lines[j])
    {
      if 2 <= j < 10 {
        FieldLine(m, j - 2);
        LabelsAreClean(j - 2);
        CleanAppend(Labels()[j - 2], FieldValue(m, j - 2));
      } else if 10 <= j < 10 + |MemoLines(m)| {
        LabelsAreClean(8);
        CleanAppend(Labels()[8], m.memo.value);
      } else if j >= 10 {
        assert lines[j] == ClosingLines()[j - 10 - |MemoLines(m)|];
      }
    }
  }

  lemma {:induction false} StripKeepsFirst(s: string)
    requires s != "" && !IsSpace(s[0])
    ensures Strip(s) != ""
    decreases |s|
  {
    if IsSpace(s[|s| - 1]) {
      StripKeepsFirst(s[..|s| - 1]);
    }
  }

  /** A built message with a one-line memo is read as its lines. */
  lemma BuiltIsSplit(m: Message, network: string, iso: Iso)
    requires ValidParties(m, network) && ValidValues(m, iso) && ValidMemo(m.memo) && CleanMemo(m.memo)
    ensures Parsed(Join(Lines(m)), network, iso) == Validate(Collected(Lines(m)), network, iso)
  {
    var lines := Lines(m);
    LinesAreClean(m, network, iso);
    TitleIsClean();
    DisclaimerIsClean();
    assert lines[|lines| - 1] == DISCLAIMER;
    SplitJoin(lines);
    assert Join(lines) == TITLE + "\n" + Join(lines[1..]);
    StripKeepsFirst(Join(lines));
  }

  /**
   Building and reading a signing message: for every transfer that validates, reading the message it signs
   gives back its unsigned draft exactly when it has no memo or its memo has no line boundary.
   */
  lemma RoundTrip(p: Payload, network: string, iso: Iso)
    requires Clock(iso) && Validate(p, network, iso).Ok?
    ensures var m := Validate(p, network, iso).value;
            Parsed(Join(Lines(m)), network, iso) == Ok(Draft(m)) <==> CleanMemo(m.memo)
  {
    ValidationMeaning(p, network, iso);
    MessageRoundTrip(Validate(p, network, iso).value, network, iso);
  }

  lemma MessageRoundTrip(m: Message, network: string, iso: Iso)
    requires ValidParties(m, network) && ValidValues(m, iso) && ValidMemo(m.memo)
    ensures Parsed(Join(Lines(m)), network, iso) == Ok(Draft(m)) <==> CleanMemo(m.memo)
  {
    if CleanMemo(m.memo) {
      BuiltIsSplit(m, network, iso);
      FieldsAreFound(m);
      ValidIsAccepted(m, network, iso);
    }
    if Parsed(Join(Lines(m)), network, iso) == Ok(Draft(m)) {
      ParsedMemoIsClean(Join(Lines(m)), network, iso);
    }
  }

  /**
   `build_transfer_signing_message` for a legacy message.  Any node of the message's network reads its draft back
   from the text, unless the memo breaks a line.
   */
  method Build(m: Message) returns (text: string)
    ensures forall network: string, iso: Iso ::
              ValidParties(m, network) && ValidValues(m, iso) && ValidMemo(m.memo) ==>
                (Parsed(text, network, iso) == Ok(Draft(m)) <==> CleanMemo(m.memo))
    ensures text == Join(Lines(m))
  {
    var lines := [TITLE, ""] + FieldLines(m);
    if m.memo.Some? && m.memo.value != "" {
      lines := lines + ["Memo: " + m.memo.value];
    }
    lines := lines + ClosingLines();
    assert lines == Lines(m);
    text := Join(lines);
    forall network: string, iso: Iso | ValidParties(m, network) && ValidValues(m, iso) && ValidMemo(m.memo)
      ensures Parsed(text, network, iso) == Ok(Draft(m)) <==> CleanMemo(m.memo)
    {
      MessageRoundTrip(m, network, iso);
    }
  }

  /** A memo of two lines passes validation as it is, so the signed message does not carry it. */
  lemma TwoLineMemo(p: Payload, network: string, iso: Iso)
    requires Clock(iso) && Validate(p, network, iso).Ok?
    ensures var q := p.(memo := Some("a\nb"));
            && Validate(q, network, iso).Ok? && Validate(q, network, iso).value.memo == Some("a\nb")
            && Parsed(Join(Lines(Validate(q, network, iso).value)), network, iso) != Ok(Draft(Validate(q, network, iso).value))
  {
    var q := p.(memo := Some("a\nb"));
    TrimmedIsStripped("a\nb");
    assert NormalizeMemo(q.memo) == Ok(Some("a\nb"));
    assert Validate(q, network, iso).Ok?;
    ValidatedMemo(q, network, iso);
    assert IsLineBoundary("a\nb"[1]);
    RoundTrip(q, network, iso);
  }
}
