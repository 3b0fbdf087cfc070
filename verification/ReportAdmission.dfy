/**
 `record_community_report_operation`: what one delivered report does to the durable
 document (blockchain.py).  The recomputed identity and the rest of `verify_report`
 are the verifier's parameters.
 */
module ReportAdmission {
  import opened Ordering
  import opened Wrappers
  import opened CommunityReport
  import opened Documents

  /** `digest` is the record hash, `identify` the hash of payload and signature, `signed` the rest of the check. */
  datatype Verifier = Verifier(digest: Digest, identify: (Payload, string) -> string, signed: Report -> bool)

  datatype Action = Accepted | ConflictRecorded | Duplicate

  datatype Refusal =
    | UnknownSubmission | PostMintFlowRequired | NotAttested | ReviewClosed | QuarantinedOtherwise
    | CreatorReport | WrongMedia | InvalidReport | IdentityTaken | TallyRaised | StatusInconsistent

  /** `verify_report` for one submission and its media. */
  predicate Verified(r: Report, id: string, contentHash: string, v: Verifier)
  {
    && r.payload.submissionId == id && r.payload.contentHash == contentHash
    && r.identity == v.identify(r.payload, r.signature)
    && v.signed(r)
  }

  /** The consistency that `report_status` demands between a submission and its tally. */
  predicate Reconciled(sub: Submission, result: TallyResult)
  {
    && result.Counted?
    && (result.tally.met && sub.status != Minted ==>
          && sub.status == Quarantined && sub.quarantineReason == Some(REPORT_THRESHOLD)
          && sub.evidence == Some(result.tally))
  }

  predicate AllVerified(reports: seq<Report>, id: string, contentHash: string, v: Verifier)
  {
    forall r :: r in reports ==> Verified(r, id, contentHash, v)
  }

  /** `report_status` returns instead of raising. */
  predicate StatusConsistent(sub: Submission, id: string, v: Verifier)
  {
    AllVerified(sub.reports, id, sub.contentHash, v) && Reconciled(sub, TallyOf(sub.reports, v.digest))
  }

  datatype Scan = Fresh | Seen | Taken

  /** The loop over the stored reports, in stored order. */
  function ScanExisting(existing: seq<Report>, r: Report): Scan
  {
    if existing == [] then Fresh
    else if existing[0] == r then Seen
    else if existing[0].identity == r.identity && existing[0].Wallet() != r.Wallet() then Taken
    else ScanExisting(existing[1..], r)
  }

  /** The effect of a tally on its submission: quarantine once the threshold is met. */
  function Settle(sub: Submission, reports: seq<Report>, t: Tally): Submission
  {
    if t.met then sub.(reports := reports, status := Quarantined,
                       quarantineReason := Some(REPORT_THRESHOLD), evidence := Some(t))
    else sub.(reports := reports)
  }

  /** The entry checks, in the source's order. */
  function Entry(doc: Document, r: Report, v: Verifier): Option<Refusal>
  {
    var id := r.payload.submissionId;
    if id !in doc.submissions then Some(UnknownSubmission) else
    var sub := doc.submissions[id];
    if sub.status == Minted || OnChain(doc.chain, id) then Some(PostMintFlowRequired)
    else if !sub.attested then Some(NotAttested)
    else if sub.status == Rejected || sub.status == HardRejected then Some(ReviewClosed)
    else if sub.status == Quarantined && sub.quarantineReason != Some(REPORT_THRESHOLD) then Some(QuarantinedOtherwise)
    else if r.Wallet() == sub.submitter then Some(CreatorReport)
    else if r.payload.contentHash != sub.contentHash then Some(WrongMedia)
    else if !Verified(r, id, sub.contentHash, v) then Some(InvalidReport)
    else None
  }

  /**
   The replacement the operation proposes.  It is the serialised facade state, which has no
   `peers` section, so storage fills that section with its default.
   */
  function AdmitReport(doc: Document, r: Report, v: Verifier): Result<(Document, Action), Refusal>
  {
    var refusal := Entry(doc, r, v);
    if refusal.Some? then Err(refusal.value) else
    var id := r.payload.submissionId;
    var sub := doc.submissions[id];
    match ScanExisting(sub.reports, r)
    case Taken => Err(IdentityTaken)
    case Seen => if StatusConsistent(sub, id, v) then Ok((doc, Duplicate)) else Err(StatusInconsistent)
    case Fresh =>
      var reports := Sort(sub.reports + [r], OrderKey(v.digest));
      Conclude(doc, id, r, reports, TallyOf(reports, v.digest), v)
  }

  /** The end of the operation, once the extended list has been tallied. */
  function Conclude(doc: Document, id: string, r: Report, reports: seq<Report>, result: TallyResult, v: Verifier)
    : Result<(Document, Action), Refusal>
    requires id in doc.submissions
  {
    var sub := doc.submissions[id];
    if !result.Counted? then Err(TallyRaised) else
    var settled := Settle(sub, reports, result.tally);
    if !(AllVerified(reports, id, sub.contentHash, v) && Reconciled(settled, result)) then Err(StatusInconsistent) else
    Ok((doc.(submissions := doc.submissions[id := settled],
             queue := if result.tally.met then Without(doc.queue, id) else doc.queue,
             peers := []),
        if HasWallet(sub.reports, r.Wallet()) then ConflictRecorded else Accepted))
  }

  method Scanning(existing: seq<Report>, r: Report) returns (scan: Scan)
    ensures scan == ScanExisting(existing, r)
  {
    for i := 0 to |existing|
      invariant ScanExisting(existing, r) == ScanExisting(existing[i..], r)
    {
      if existing[i] == r {
        return Seen;
      }
      if existing[i].identity == r.identity && existing[i].Wallet() != r.Wallet() {
        return Taken;
      }
      assert existing[i..][1..] == existing[i + 1..];
    }
    return Fresh;
  }

  lemma {:induction false} ScanMeaning(existing: seq<Report>, r: Report)
    requires forall x :: x in existing && x.identity == r.identity ==> x.Wallet() == r.Wallet()
    ensures ScanExisting(existing, r) == if r in existing then Seen else Fresh
  {
    if existing != [] && existing[0] != r {
      ScanMeaning(existing[1..], r);
      assert existing == [existing[0]] + existing[1..];
    }
  }
}
