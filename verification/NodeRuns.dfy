/**
 Whole runs of one durable document and any number of facades, each holding a snapshot
 of its own.  Steps interleave arbitrarily; every durable step happens under the lock.
 */
module NodeRuns {
  import opened Ordering
  import opened Wrappers
  import opened CommunityReport
  import opened Documents
  import opened Finality
  import opened FinalityTheorems
  import opened ReportAdmission
  import opened ReportConvergence
  import opened NodeSteps
  import opened SaveTheorems
  import opened CommitTheorems
  import opened Adoption
  import opened AdoptionTheorems

  datatype System = System(durable: Document, locals: map<nat, Document>)

  datatype Step =
    | Load(facade: nat)
    | Edit(facade: nat, document: Document)
    | Report(facade: nat, record: CommunityReport.Report, verifier: Verifier)
    | Dispute(facade: nat, id: string, record: CommunityReport.Report, admissible: bool, statusHolds: bool)
    | SaveState(facade: nat)
    | CommitOne(facade: nat, attempt: Attempt)
    | QuarantineQueued(facade: nat, id: string, reason: string)
    | Finalize(facade: nat, proofs: seq<Proof>, votes: seq<Vote>)
    | AdoptBranch(facade: nat, branch: Branch)

  ghost predicate Met(reports: seq<CommunityReport.Report>, digest: Digest)
  {
    TallyOf(reports, digest).Counted? && TallyOf(reports, digest).tally.met
  }

  /**
   What a facade may do to its own state between durable operations.  Reports have no other writer;
   QUARANTINED has no outgoing transition, only APPROVED submissions are queued and only queued ones minted.
   */
  ghost predicate LocalEdit(before: Document, after: Document)
  {
    && (forall id :: id in before.submissions ==>
          && id in after.submissions
          && after.submissions[id].reports == before.submissions[id].reports
          && (before.submissions[id].attested ==> after.submissions[id].attested)
          && (before.submissions[id].status == Quarantined && !OnChain(before.chain, id) ==>
                && after.submissions[id].status == Quarantined && !OnChain(after.chain, id)
                && (id in after.queue ==> id in before.queue)))
    && (forall id :: id in after.submissions && id !in before.submissions ==> after.submissions[id].reports == [])
  }

  /** One step.  With `disciplined` false a facade may turn its snapshot into any document at all. */
  ghost predicate Takes(s: System, step: Step, t: System, digest: Digest, disciplined: bool)
  {
    match step
    case Load(f) => t == s.(locals := s.locals[f := s.durable])
    case Edit(f, doc) =>
      && f in s.locals && (disciplined ==> LocalEdit(s.locals[f], doc))
      && t == s.(locals := s.locals[f := doc])
    case Report(f, r, v) =>
      && v.digest == digest
      && var after := Deliver(s.durable, r, v); t == System(after, s.locals[f := after])
    case Dispute(f, id, r, admissible, statusHolds) =>
      var after := AfterDispute(s.durable, id, r, digest, admissible, statusHolds);
      t == System(after, s.locals[f := after])
    case SaveState(f) =>
      && f in s.locals
      && t == s.(durable := if Save(s.durable, s.locals[f]).Some? then Save(s.durable, s.locals[f]).value else s.durable)
    case CommitOne(f, a) =>
      && a.verifier.digest == digest
      && t == System(AfterCommit(s.durable, a),
                     if Commit(s.durable, a).Committed? || Commit(s.durable, a).AlreadyCommitted?
                     then s.locals[f := AfterCommit(s.durable, a)] else s.locals)
    case QuarantineQueued(f, id, reason) =>
      var after := Stored(s.durable, QuarantineStale(s.durable, id, reason));
      t == System(after, s.locals[f := after])
    case Finalize(f, proofs, votes) =>
      var after := Stored(s.durable, s.durable.(proofs := s.durable.proofs + proofs, votes := s.durable.votes + votes));
      t == System(after, s.locals[f := after])
    case AdoptBranch(f, branch) =>
      && f in s.locals
      && t == if Adopt(s.durable, s.locals[f], branch).Some?
              then System(Adopt(s.durable, s.locals[f], branch).value,
                          s.locals[f := Adopt(s.durable, s.locals[f], branch).value])
              else s
  }

  /** A facade that holds this submission holds its durable reports; one that does not has not queued it. */
  predicate HoldsReports(durable: Document, local: Document, id: string)
  {
    if id in local.submissions then local.submissions[id].reports == ReportsIn(durable, id) else id !in local.queue
  }

  /** An adoption is by a facade that has seen the durable reports of this submission. */
  predicate SawReports(s: System, step: Step, id: string)
  {
    step.AdoptBranch? && step.facade in s.locals ==> HoldsReports(s.durable, s.locals[step.facade], id)
  }

  /** An adopted branch does not mint a submission that its durable reports have put over the threshold. */
  ghost predicate RespectsReports(s: System, step: Step, id: string, digest: Digest)
  {
    step.AdoptBranch? && Met(ReportsIn(s.durable, id), digest) ==> !OnChain(step.branch.chain, id)
  }

  predicate AdoptionsSawReports(states: seq<System>, steps: seq<Step>, id: string)
    requires |states| == |steps| + 1
  {
    forall k {:trigger steps[k]} :: 0 <= k < |steps| ==> SawReports(states[k], steps[k], id)
  }

  ghost predicate AdoptionsRespectReports(states: seq<System>, steps: seq<Step>, id: string, digest: Digest)
    requires |states| == |steps| + 1
  {
    forall k {:trigger steps[k]} :: 0 <= k < |steps| ==> RespectsReports(states[k], steps[k], id, digest)
  }

  ghost predicate Run(states: seq<System>, steps: seq<Step>, digest: Digest, disciplined: bool)
  {
    && |states| == |steps| + 1
    && forall i {:trigger steps[i]} :: 0 <= i < |steps| ==> Takes(states[i], steps[i], states[i + 1], digest, disciplined)
  }

  // ----- Safety of the report threshold ------------------------------------------------------------

  /** A submission over the threshold is quarantined, unqueued and unminted; only attested ones carry reports. */
  predicate RespectsThreshold(sub: Submission, queued: bool, onChain: bool, met: bool)
  {
    && (sub.reports != [] ==> sub.attested)
    && (sub.reports != [] && met ==> sub.status == Quarantined && !queued && !onChain)
  }

  ghost predicate SafeFor(doc: Document, id: string, digest: Digest)
  {
    id in doc.submissions ==>
      RespectsThreshold(doc.submissions[id], id in doc.queue, OnChain(doc.chain, id), Met(doc.submissions[id].reports, digest))
  }

  ghost predicate Safe(s: System, id: string, digest: Digest)
  {
    SafeFor(s.durable, id, digest) && forall f :: f in s.locals ==> SafeFor(s.locals[f], id, digest)
  }

  /** Finality bookkeeping is invisible to the report protocol. */
  lemma WriteIsSafe(durable: Document, replacement: Document, reorg: bool, id: string, digest: Digest)
    requires Write(durable, replacement, reorg).Some? && SafeFor(replacement, id, digest)
    ensures SafeFor(Write(durable, replacement, reorg).value, id, digest)
  {
    WriteChangesFinalityOnly(durable, replacement, reorg);
  }

  lemma ReportIsSafe(doc: Document, r: CommunityReport.Report, v: Verifier, id: string)
    requires SafeFor(doc, id, v.digest)
    ensures SafeFor(Deliver(doc, r, v), id, v.digest)
  {
    if r.payload.submissionId != id {
      UnrelatedDelivery(doc, id, r, v);
    } else if AdmitReport(doc, r, v).Ok? {
      var replacement := AdmitReport(doc, r, v).value.0;
      AdmissionIsSafe(doc, r, v);
      if Write(doc, replacement, false).Some? {
        WriteIsSafe(doc, replacement, false, id, v.digest);
      }
    }
  }

  lemma AdmissionIsSafe(doc: Document, r: CommunityReport.Report, v: Verifier)
    requires AdmitReport(doc, r, v).Ok? && SafeFor(doc, r.payload.submissionId, v.digest)
    ensures SafeFor(AdmitReport(doc, r, v).value.0, r.payload.submissionId, v.digest)
  {
    var id := r.payload.submissionId;
    if ScanExisting(doc.submissions[id].reports, r) == Fresh {
      var next := Sort(doc.submissions[id].reports + [r], OrderKey(v.digest));
      ConclusionIsSafe(doc, r, next, TallyOf(next, v.digest), v);
    }
  }

  lemma ConclusionIsSafe(doc: Document, r: CommunityReport.Report, next: seq<CommunityReport.Report>, result: TallyResult, v: Verifier)
    requires Entry(doc, r, v).None? && result == TallyOf(next, v.digest)
    requires Conclude(doc, r.payload.submissionId, r, next, result, v).Ok?
    ensures SafeFor(Conclude(doc, r.payload.submissionId, r, next, result, v).value.0, r.payload.submissionId, v.digest)
  {
  }

  lemma CommitIsSafe(durable: Document, a: Attempt, id: string)
    requires SafeFor(durable, id, a.verifier.digest)
    ensures SafeFor(AfterCommit(durable, a), id, a.verifier.digest)
  {
    if Commit(durable, a).Committed? {
      CommitMintsExactlyOne(durable, a);
      var after := AfterCommit(durable, a);
      var b :| after.chain == durable.chain + [b] && Carries(b, a.request);
      if id in after.submissions && id != a.request.submissionId && OnChain(after.chain, id) {
        assert OnChain(durable.chain, id);
      }
    }
  }

  lemma QuarantineIsSafe(durable: Document, other: string, reason: string, id: string, digest: Digest)
    requires SafeFor(durable, id, digest)
    ensures SafeFor(Stored(durable, QuarantineStale(durable, other, reason)), id, digest)
  {
    var replacement := QuarantineStale(durable, other, reason);
    if Write(durable, replacement, false).Some? {
      WriteIsSafe(durable, replacement, false, id, digest);
    }
  }

  lemma EditIsSafe(before: Document, after: Document, id: string, digest: Digest)
    requires SafeFor(before, id, digest) && LocalEdit(before, after)
    ensures SafeFor(after, id, digest)
  {
  }

  lemma SaveIsSafe(durable: Document, local: Document, id: string, digest: Digest)
    requires Save(durable, local).Some? && SafeFor(local, id, digest)
    ensures SafeFor(Save(durable, local).value, id, digest)
  {
    WriteIsSafe(durable, SaveReplacement(durable, local), false, id, digest);
  }

  lemma StoredIsSafe(durable: Document, replacement: Document, id: string, digest: Digest)
    requires SafeFor(durable, id, digest) && SafeFor(replacement, id, digest)
    ensures SafeFor(Stored(durable, replacement), id, digest)
  {
    if Write(durable, replacement, false).Some? {
      WriteIsSafe(durable, replacement, false, id, digest);
    }
  }

  lemma DisputeIsSafe(durable: Document, other: string, r: CommunityReport.Report, digest: Digest, admissible: bool,
                      statusHolds: bool, id: string)
    requires SafeFor(durable, id, digest)
    ensures SafeFor(AfterDispute(durable, other, r, digest, admissible, statusHolds), id, digest)
  {
    var replacement := AdmitDispute(durable, other, r, digest, admissible, statusHolds);
    if replacement.Some? {
      StoredIsSafe(durable, replacement.value, id, digest);
    }
  }

  lemma AdoptionIsSafe(durable: Document, local: Document, branch: Branch, id: string, digest: Digest)
    requires Adopt(durable, local, branch).Some? && SafeFor(durable, id, digest) && SafeFor(local, id, digest)
    requires HoldsReports(durable, local, id)
    requires Met(ReportsIn(durable, id), digest) ==> !OnChain(branch.chain, id)
    ensures SafeFor(Adopt(durable, local, branch).value, id, digest)
  {
    AdoptedIsSafe(durable, local, branch, id, digest);
    WriteIsSafe(durable, Replacement(durable, local, branch).value, true, id, digest);
  }

  /** The merge by a facade that has seen the reports leaves a submission over the threshold where it was. */
  lemma MergeIsSafe(durable: Document, local: Document, other: string, id: string, digest: Digest)
    requires SafeFor(durable, id, digest) && SafeFor(local, id, digest) && HoldsReports(durable, local, id)
    ensures SafeFor(Merge(durable, local, other), id, digest)
    ensures id in Merge(durable, local, other).submissions ==>
              Merge(durable, local, other).submissions[id].reports == ReportsIn(durable, id)
  {
    var merged := Merge(durable, local, other);
    assert id in merged.queue <==> id in durable.queue || id in local.queue;
    if id in local.submissions {
      assert merged.submissions[id] == local.submissions[id];
    } else if id in durable.submissions {
      assert merged.submissions[id] == durable.submissions[id];
    }
  }

  lemma ReconcileIsSafe(sub: Submission, id: string, queued: bool, stillQueued: bool, branch: Branch, was: bool, met: bool)
    requires RespectsThreshold(sub, queued, was, met) && (met ==> !OnChain(branch.chain, id)) && (stillQueued ==> queued)
    ensures RespectsThreshold(Reconcile(sub, id, queued, branch), stillQueued, OnChain(branch.chain, id), met)
  {
    if Mints(branch, id) {
      MintedIsOnChain(branch, id);
    }
  }

  lemma MintedIsOnChain(branch: Branch, id: string)
    requires Mints(branch, id)
    ensures OnChain(branch.chain, id)
  {
    var b :| b in branch.chain && branch.versionOne(b) && b.body.submissionId == id;
    var i :| 0 <= i < |branch.chain| && branch.chain[i] == b;
  }

  lemma RebuiltStands(merged: Document, branch: Branch, id: string, met: bool)
    requires id in merged.submissions && (met ==> !OnChain(branch.chain, id))
    requires RespectsThreshold(merged.submissions[id], id in merged.queue, OnChain(merged.chain, id), met)
    ensures var rebuilt := Rebuild(merged, branch);
            && id in rebuilt.submissions && rebuilt.submissions[id].reports == merged.submissions[id].reports
            && RespectsThreshold(rebuilt.submissions[id], id in rebuilt.queue, OnChain(rebuilt.chain, id), met)
  {
    ReconcileIsSafe(merged.submissions[id], id, id in merged.queue, id in Rebuild(merged, branch).queue, branch,
                    OnChain(merged.chain, id), met);
  }

  lemma RebuildIsSafe(merged: Document, branch: Branch, id: string, digest: Digest)
    requires SafeFor(merged, id, digest)
    requires id in merged.submissions && Met(merged.submissions[id].reports, digest) ==> !OnChain(branch.chain, id)
    ensures SafeFor(Rebuild(merged, branch), id, digest)
  {
    if id in merged.submissions {
      RebuiltStands(merged, branch, id, Met(merged.submissions[id].reports, digest));
    }
  }

  lemma AdoptedIsSafe(durable: Document, local: Document, branch: Branch, id: string, digest: Digest)
    requires Replacement(durable, local, branch).Some? && SafeFor(durable, id, digest) && SafeFor(local, id, digest)
    requires HoldsReports(durable, local, id)
    requires Met(ReportsIn(durable, id), digest) ==> !OnChain(branch.chain, id)
    ensures SafeFor(Replacement(durable, local, branch).value, id, digest)
  {
    MergeIsSafe(durable, local, branch.merged, id, digest);
    RebuildIsSafe(Merge(durable, local, branch.merged), branch, id, digest);
  }

  /** Every step of every facade keeps the report threshold safe, in the document and in all snapshots. */
  lemma StepIsSafe(s: System, step: Step, t: System, id: string, digest: Digest)
    requires Takes(s, step, t, digest, true) && Safe(s, id, digest)
    requires SawReports(s, step, id) && RespectsReports(s, step, id, digest)
    ensures Safe(t, id, digest)
  {
    match step
    case Load(f) =>
    case Edit(f, doc) => EditIsSafe(s.locals[f], doc, id, digest);
    case Report(f, r, v) => ReportIsSafe(s.durable, r, v, id);
    case Dispute(f, other, r, admissible, statusHolds) =>
      DisputeIsSafe(s.durable, other, r, digest, admissible, statusHolds, id);
    case SaveState(f) =>
      if Save(s.durable, s.locals[f]).Some? { SaveIsSafe(s.durable, s.locals[f], id, digest); }
    case CommitOne(f, a) => CommitIsSafe(s.durable, a, id);
    case QuarantineQueued(f, other, reason) => QuarantineIsSafe(s.durable, other, reason, id, digest);
    case Finalize(f, proofs, votes) =>
      StoredIsSafe(s.durable, s.durable.(proofs := s.durable.proofs + proofs, votes := s.durable.votes + votes), id, digest);
    case AdoptBranch(f, branch) =>
      if Adopt(s.durable, s.locals[f], branch).Some? { AdoptionIsSafe(s.durable, s.locals[f], branch, id, digest); }
  }

  /**
   Over every run of reports, disputes, saves, certified commits, queue quarantines, finalizations and
   local work by any number of facades with stale snapshots, and of adoptions by facades that have seen the
   reports: a submission whose stored reports meet the threshold is QUARANTINED, is not in the mint queue and
   has no block on the chain.
   */
  lemma {:induction false} ThresholdIsSafeInEveryRun(states: seq<System>, steps: seq<Step>, digest: Digest, id: string, i: nat)
    requires Run(states, steps, digest, true) && Safe(states[0], id, digest) && i < |states|
    requires AdoptionsSawReports(states, steps, id) && AdoptionsRespectReports(states, steps, id, digest)
    ensures Safe(states[i], id, digest)
  {
    if i > 0 {
      ThresholdIsSafeInEveryRun(states, steps, digest, id, i - 1);
      StepIsSafe(states[i - 1], steps[i - 1], states[i], id, digest);
    }
  }

  // ----- Evidence only grows ----------------------------------------------------------------------------

  ghost predicate EvidenceKept(before: Document, after: Document, id: string)
  {
    && (forall r :: r in ReportsIn(before, id) ==> r in ReportsIn(after, id))
    && (forall r :: r in DisputesOf(before, id) ==> r in DisputesOf(after, id))
  }

  lemma StoredKeepsEvidence(durable: Document, replacement: Document, id: string)
    requires EvidenceKept(durable, replacement, id)
    ensures EvidenceKept(durable, Stored(durable, replacement), id)
  {
    if Write(durable, replacement, false).Some? {
      WriteChangesFinalityOnly(durable, replacement, false);
    }
  }

  lemma SortAddsOne(rs: seq<CommunityReport.Report>, r: CommunityReport.Report, digest: Digest)
    ensures forall x :: x in rs ==> x in Sort(rs + [r], OrderKey(digest))
  {
    SortSorts(rs + [r], OrderKey(digest));
    assert forall x :: x in rs ==> x in rs + [r];
  }

  lemma ConclusionKeepsEvidence(doc: Document, r: CommunityReport.Report, next: seq<CommunityReport.Report>,
                                result: TallyResult, v: Verifier, id: string)
    requires r.payload.submissionId in doc.submissions
    requires forall x :: x in doc.submissions[r.payload.submissionId].reports ==> x in next
    requires Conclude(doc, r.payload.submissionId, r, next, result, v).Ok?
    ensures EvidenceKept(doc, Conclude(doc, r.payload.submissionId, r, next, result, v).value.0, id)
  {
  }

  lemma AdmissionKeepsEvidence(doc: Document, r: CommunityReport.Report, v: Verifier, id: string)
    requires AdmitReport(doc, r, v).Ok?
    ensures EvidenceKept(doc, AdmitReport(doc, r, v).value.0, id)
  {
    var reports := doc.submissions[r.payload.submissionId].reports;
    if ScanExisting(reports, r) == Fresh {
      SortAddsOne(reports, r, v.digest);
      var next := Sort(reports + [r], OrderKey(v.digest));
      ConclusionKeepsEvidence(doc, r, next, TallyOf(next, v.digest), v, id);
    }
  }

  lemma ReportKeepsEvidence(doc: Document, r: CommunityReport.Report, v: Verifier, id: string)
    ensures EvidenceKept(doc, Deliver(doc, r, v), id)
  {
    if AdmitReport(doc, r, v).Ok? {
      AdmissionKeepsEvidence(doc, r, v, id);
      StoredKeepsEvidence(doc, AdmitReport(doc, r, v).value.0, id);
    }
  }

  lemma AdmitDisputeKeepsEvidence(doc: Document, other: string, r: CommunityReport.Report, digest: Digest,
                                  admissible: bool, statusHolds: bool, id: string)
    requires AdmitDispute(doc, other, r, digest, admissible, statusHolds).Some?
    ensures EvidenceKept(doc, AdmitDispute(doc, other, r, digest, admissible, statusHolds).value, id)
  {
    SortAddsOne(DisputesOf(doc, other), r, digest);
  }

  lemma DisputeKeepsEvidence(doc: Document, other: string, r: CommunityReport.Report, digest: Digest, admissible: bool,
                             statusHolds: bool, id: string)
    ensures EvidenceKept(doc, AfterDispute(doc, other, r, digest, admissible, statusHolds), id)
  {
    if AdmitDispute(doc, other, r, digest, admissible, statusHolds).Some? {
      AdmitDisputeKeepsEvidence(doc, other, r, digest, admissible, statusHolds, id);
      StoredKeepsEvidence(doc, AdmitDispute(doc, other, r, digest, admissible, statusHolds).value, id);
    }
  }

  lemma CommitKeepsEvidence(durable: Document, a: Attempt, id: string)
    ensures EvidenceKept(durable, AfterCommit(durable, a), id)
  {
    if Commit(durable, a).Committed? {
      WriteChangesFinalityOnly(durable, Minting(durable, a.request.submissionId, a.candidate.value), false);
    }
  }

  lemma RebuildKeepsReports(merged: Document, branch: Branch, id: string)
    ensures ReportsIn(Rebuild(merged, branch), id) == ReportsIn(merged, id)
    ensures DisputesOf(Rebuild(merged, branch), id) == DisputesOf(merged, id)
  {
  }

  lemma MergeKeepsEvidence(durable: Document, local: Document, other: string, id: string)
    requires HoldsReports(durable, local, id)
    ensures ReportsIn(Merge(durable, local, other), id) == ReportsIn(durable, id)
    ensures DisputesOf(Merge(durable, local, other), id) == DisputesOf(durable, id)
  {
  }

  lemma AdoptionKeepsEvidence(durable: Document, local: Document, branch: Branch, id: string)
    requires Adopt(durable, local, branch).Some? && HoldsReports(durable, local, id)
    ensures EvidenceKept(durable, Adopt(durable, local, branch).value, id)
  {
    MergeKeepsEvidence(durable, local, branch.merged, id);
    RebuildKeepsReports(Merge(durable, local, branch.merged), branch, id);
    WriteChangesFinalityOnly(durable, Replacement(durable, local, branch).value, true);
  }

  lemma StepKeepsEvidence(s: System, step: Step, t: System, digest: Digest, id: string)
    requires Takes(s, step, t, digest, false)
    requires SawReports(s, step, id)
    ensures EvidenceKept(s.durable, t.durable, id)
  {
    match step
    case Load(f) =>
    case Edit(f, doc) =>
    case Report(f, r, v) => ReportKeepsEvidence(s.durable, r, v, id);
    case Dispute(f, other, r, admissible, statusHolds) =>
      DisputeKeepsEvidence(s.durable, other, r, digest, admissible, statusHolds, id);
    case SaveState(f) =>
      if Save(s.durable, s.locals[f]).Some? {
        SaveKeepsEvidence(s.durable, s.locals[f]);
        assert ReportsIn(t.durable, id) == ReportsIn(s.durable, id);
      }
    case CommitOne(f, a) => CommitKeepsEvidence(s.durable, a, id);
    case QuarantineQueued(f, other, reason) =>
      StoredKeepsEvidence(s.durable, QuarantineStale(s.durable, other, reason), id);
    case Finalize(f, proofs, votes) =>
      StoredKeepsEvidence(s.durable, s.durable.(proofs := s.durable.proofs + proofs, votes := s.durable.votes + votes), id);
    case AdoptBranch(f, branch) =>
      if Adopt(s.durable, s.locals[f], branch).Some? { AdoptionKeepsEvidence(s.durable, s.locals[f], branch, id); }
  }

  lemma EvidenceKeptAt(states: seq<System>, steps: seq<Step>, digest: Digest, id: string, k: nat)
    requires Run(states, steps, digest, false) && k < |steps| && AdoptionsSawReports(states, steps, id)
    ensures EvidenceKept(states[k].durable, states[k + 1].durable, id)
  {
    StepKeepsEvidence(states[k], steps[k], states[k + 1], digest, id);
  }

  lemma EvidenceTransitive(a: Document, b: Document, c: Document, id: string)
    requires EvidenceKept(a, b, id) && EvidenceKept(b, c, id)
    ensures EvidenceKept(a, c, id)
  {
  }

  /**
   In every interleaving, even of facades whose snapshots are arbitrary, both evidence sets only grow, as long
   as adoptions are by facades that have seen the reports.
   */
  lemma {:induction false} EvidenceOnlyGrows(states: seq<System>, steps: seq<Step>, digest: Digest, id: string, i: nat, j: nat)
    requires Run(states, steps, digest, false) && i <= j < |states| && AdoptionsSawReports(states, steps, id)
    ensures EvidenceKept(states[i].durable, states[j].durable, id)
    decreases j - i
  {
    if i < j {
      EvidenceOnlyGrows(states, steps, digest, id, i, j - 1);
      EvidenceKeptAt(states, steps, digest, id, j - 1);
      EvidenceTransitive(states[i].durable, states[j - 1].durable, states[j].durable, id);
    }
  }

  // ----- Claims and finality in the same runs ----------------------------------------------------------------

  lemma StoredFollows(durable: Document, replacement: Document)
    ensures Follows(durable, Stored(durable, replacement))
  {
  }

  /** Each durable step of a run is a guarded write, so the finality theorems apply to it. */
  lemma StepFollows(s: System, step: Step, t: System, digest: Digest, disciplined: bool)
    requires Takes(s, step, t, digest, disciplined)
    ensures Follows(s.durable, t.durable)
  {
    match step
    case Load(f) =>
    case Edit(f, doc) =>
    case Report(f, r, v) =>
      if AdmitReport(s.durable, r, v).Ok? { StoredFollows(s.durable, AdmitReport(s.durable, r, v).value.0); }
    case Dispute(f, id, r, admissible, statusHolds) =>
      var replacement := AdmitDispute(s.durable, id, r, digest, admissible, statusHolds);
      if replacement.Some? { StoredFollows(s.durable, replacement.value); }
    case SaveState(f) => StoredFollows(s.durable, SaveReplacement(s.durable, s.locals[f]));
    case CommitOne(f, a) =>
      if Commit(s.durable, a).Committed? {
        StoredFollows(s.durable, Minting(s.durable, a.request.submissionId, a.candidate.value));
      }
    case QuarantineQueued(f, id, reason) => StoredFollows(s.durable, QuarantineStale(s.durable, id, reason));
    case Finalize(f, proofs, votes) =>
      StoredFollows(s.durable, s.durable.(proofs := s.durable.proofs + proofs, votes := s.durable.votes + votes));
    case AdoptBranch(f, branch) =>
      if Adopt(s.durable, s.locals[f], branch).Some? {
        assert Write(s.durable, Replacement(s.durable, s.locals[f], branch).value, true) == Some(t.durable);
      }
  }

  ghost function DurableOf(states: seq<System>): seq<Document>
  {
    seq(|states|, i requires 0 <= i < |states| => states[i].durable)
  }

  lemma RunIsHistory(states: seq<System>, steps: seq<Step>, digest: Digest, disciplined: bool)
    requires Run(states, steps, digest, disciplined) && Sound(states[0].durable)
    ensures History(DurableOf(states))
  {
    forall i | 0 <= i < |states| - 1 ensures Follows(DurableOf(states)[i], DurableOf(states)[i + 1]) {
      StepFollows(states[i], steps[i], states[i + 1], digest, disciplined);
    }
  }

  /** In every run, and in each of its states, no two blocks of the durable chain share a submission or a certificate. */
  lemma RunsKeepClaimsUnique(states: seq<System>, steps: seq<Step>, digest: Digest, disciplined: bool, j: nat)
    requires Run(states, steps, digest, disciplined) && Sound(states[0].durable) && j < |states|
    ensures UniqueClaims(states[j].durable.chain)
  {
    RunIsHistory(states, steps, digest, disciplined);
    HistoryIsSound(DurableOf(states), j);
  }

  /** In every run whatever has been finalized stays finalized, with its ancestry. */
  lemma RunsKeepFinality(states: seq<System>, steps: seq<Step>, digest: Digest, disciplined: bool,
                         i: nat, j: nat, p: Proof)
    requires Run(states, steps, digest, disciplined) && Sound(states[0].durable)
    requires i <= j < |states| && p in states[i].durable.proofs
    ensures p in states[j].durable.proofs
    ensures SameSummary(states[i].durable.chain, states[j].durable.chain, p.height)
  {
    RunIsHistory(states, steps, digest, disciplined);
    FinalityIsMonotone(DurableOf(states), i, j, p);
  }
}
