/**
 The other writers of the durable document: whole-state saves, certified commits,
 stale-queue quarantine and dispute admission (blockchain.py).  Each is a function
 of the locked document; the class in Facade.dfy performs them.
 */
module NodeSteps {
  import opened Ordering
  import opened Wrappers
  import opened CommunityReport
  import opened Documents
  import opened Finality
  import opened ReportAdmission

  // ----- save_blockchain ------------------------------------------------------------------

  function Find(doc: Document, id: string): Option<Submission>
  {
    if id in doc.submissions then Some(doc.submissions[id]) else None
  }

  predicate HasReports(s: Option<Submission>) { s.Some? && s.value.reports != [] }

  predicate ThresholdReason(s: Option<Submission>) { s.Some? && s.value.quarantineReason == Some(REPORT_THRESHOLD) }

  function EvidenceOf(s: Option<Submission>): Option<Tally> { if s.Some? then s.value.evidence else None }

  function ReasonOf(s: Option<Submission>): Option<string> { if s.Some? then s.value.quarantineReason else None }

  /** The refusal condition of `reject_stale_reports` for one submission id. */
  predicate StaleFor(local: Option<Submission>, committed: Option<Submission>, queued: bool)
  {
    && (HasReports(local) || HasReports(committed) || ThresholdReason(local) || ThresholdReason(committed))
    && (|| (local.Some? != committed.Some?)
        || (local.Some? && committed.Some? && local.value.reports != committed.value.reports)
        || EvidenceOf(local) != EvidenceOf(committed)
        || (ThresholdReason(committed) &&
              (|| (local.Some? && committed.Some? && local.value.status != committed.value.status)
               || ReasonOf(local) != ReasonOf(committed)
               || queued)))
  }

  predicate SaveGuard(durable: Document, local: Document)
  {
    forall id :: id in local.submissions.Keys + durable.submissions.Keys ==>
      !StaleFor(Find(local, id), Find(durable, id), id in local.queue)
  }

  /** `{**durable, **local_state, disputes from durable}`; peers are a section no facade serialises. */
  function SaveReplacement(durable: Document, local: Document): Document
  {
    local.(disputes := durable.disputes, peers := durable.peers)
  }

  function Save(durable: Document, local: Document): Option<Document>
  {
    if SaveGuard(durable, local) then Write(durable, SaveReplacement(durable, local), false) else None
  }

  // ----- commit_certified_submission --------------------------------------------------------

  datatype Request = Request(submissionId: string, certificateId: string, contentHash: string,
                             contentId: Option<string>, creatorWallet: string, miner: string)

  datatype Head = Head(height: Option<int>, hash: Option<string>)

  function CurrentHead(chain: seq<Block>): Head
  {
    if chain == [] then Head(None, None)
    else Head(Some(chain[|chain| - 1].body.index), Some(chain[|chain| - 1].hash))
  }

  predicate Touches(b: Block, q: Request)
  {
    b.body.submissionId == q.submissionId || b.body.certificateId == q.certificateId
  }

  /** `_committed_certified_blocks` */
  function Matches(chain: seq<Block>, q: Request): seq<Block>
  {
    if chain == [] then [] else
    var b := chain[|chain| - 1];
    Matches(chain[..|chain| - 1], q) + if Touches(b, q) then [b] else []
  }

  predicate Carries(b: Block, q: Request)
  {
    && b.body.submissionId == q.submissionId && b.body.certificateId == q.certificateId
    && b.body.contentHash == q.contentHash && b.body.creatorWallet == q.creatorWallet
    && b.body.miner == q.miner
    && (q.contentId.Some? ==> b.body.contentId == q.contentId)
  }

  datatype Replay = Unseen | Replayed(block: Block) | Conflicting

  function ResolveReplay(chain: seq<Block>, q: Request): Replay
  {
    var matches := Matches(chain, q);
    if matches == [] then Unseen
    else if |matches| != 1 then Conflicting
    else if Carries(matches[0], q) then Replayed(matches[0]) else Conflicting
  }

  /**
   One locked attempt.  `certificateValid` and `requestUnchanged` are the admission certificate checks
   made under the lock, `candidate` the block that production and validation agree on, if any.
   */
  datatype Attempt = Attempt(request: Request, expectedHead: Head, certificateValid: bool, requestUnchanged: bool,
                             candidate: Option<Block>, verifier: Verifier)

  datatype CommitOutcome =
    | AlreadyCommitted | ConflictingReplay | StaleHead | Refused(staleAdmission: bool) | Committed(document: Document)

  /** The candidate extends the tip and certifies the request. */
  predicate Extends(chain: seq<Block>, b: Block, q: Request)
  {
    && chain != []
    && b.body.previousHash == chain[|chain| - 1].hash
    && b.body.index == chain[|chain| - 1].body.index + 1
    && Carries(b, q)
  }

  function Minting(durable: Document, id: string, b: Block): Document
    requires id in durable.submissions
  {
    durable.(chain := durable.chain + [b],
             submissions := durable.submissions[id := durable.submissions[id].(status := Minted)],
             queue := Without(durable.queue, id),
             peers := [])
  }

  predicate ReportsBlockMint(sub: Submission, id: string, v: Verifier)
  {
    sub.attested && !(StatusConsistent(sub, id, v) && !TallyOf(sub.reports, v.digest).tally.met)
  }

  function Commit(durable: Document, a: Attempt): CommitOutcome
  {
    match ResolveReplay(durable.chain, a.request)
    case Conflicting => ConflictingReplay
    case Replayed(_) => AlreadyCommitted
    case Unseen =>
      if CurrentHead(durable.chain) != a.expectedHead then StaleHead else
      var id := a.request.submissionId;
      if id !in durable.submissions then Refused(false) else
      var sub := durable.submissions[id];
      if ReportsBlockMint(sub, id, a.verifier) || !a.certificateValid then Refused(sub.attested)
      else if !a.requestUnchanged || sub.status != Queued || a.candidate.None? then Refused(false)
      else if !Extends(durable.chain, a.candidate.value, a.request) then Refused(false)
      else match Write(durable, Minting(durable, id, a.candidate.value), false)
        case None => Refused(false)
        case Some(doc) => Committed(doc)
  }

  function AfterCommit(durable: Document, a: Attempt): Document
  {
    var outcome := Commit(durable, a);
    if outcome.Committed? then outcome.document else durable
  }

  // ----- _quarantine_stale_current_queue_record ------------------------------------------------

  function QuarantineStale(doc: Document, id: string, reason: string): Document
  {
    if id in doc.submissions && doc.submissions[id].attested && doc.submissions[id].status != Minted then
      doc.(submissions := doc.submissions[id := doc.submissions[id].(status := Quarantined, quarantineReason := Some(reason))],
           queue := Without(doc.queue, id))
    else doc
  }

  function Stored(durable: Document, replacement: Document): Document
  {
    var written := Write(durable, replacement, false);
    if written.Some? then written.value else durable
  }

  // ----- record_post_mint_dispute_operation ---------------------------------------------------------

  /** Disputes share the record shape of reports. */
  function DisputesOf(doc: Document, id: string): seq<Report>
  {
    if id in doc.disputes then doc.disputes[id] else []
  }

  function ScanDisputes(existing: seq<Report>, r: Report): Scan
  {
    if existing == [] then Fresh
    else if existing[0] == r then Seen
    else if existing[0].identity == r.identity then Taken
    else ScanDisputes(existing[1..], r)
  }

  /**
   `admissible` stands for the finalized-block, binding, creator and signature checks, `statusHolds` for
   `dispute_status` over the extended list.
   */
  function AdmitDispute(doc: Document, id: string, r: Report, digest: Digest, admissible: bool, statusHolds: bool)
    : Option<Document>
  {
    if !admissible then None else
    match ScanDisputes(DisputesOf(doc, id), r)
    case Taken => None
    case Seen => if statusHolds then Some(doc) else None
    case Fresh =>
      if !statusHolds then None else
      Some(doc.(disputes := doc.disputes[id := Sort(DisputesOf(doc, id) + [r], OrderKey(digest))]))
  }

  function AfterDispute(doc: Document, id: string, r: Report, digest: Digest, admissible: bool, statusHolds: bool): Document
  {
    var replacement := AdmitDispute(doc, id, r, digest, admissible, statusHolds);
    if replacement.Some? then Stored(doc, replacement.value) else doc
  }
}
