/**
 What a stale facade can and cannot undo, over runs.  Each result gives the exact condition for the snapshots
 that runs produce, and a run that reaches the failure where the condition does not hold.
 */
module StaleRuns {
  import opened Ordering
  import opened Wrappers
  import opened CommunityReport
  import opened Documents
  import opened Finality
  import opened FinalityTheorems
  import opened ReportAdmission
  import opened ReportConvergence
  import opened NodeSteps
  import opened SaveTheorems
  import opened CommitTheorems
  import opened Adoption
  import opened AdoptionTheorems
  import opened NodeRuns

  ghost predicate OverThreshold(doc: Document, id: string, digest: Digest)
  {
    id in doc.submissions && doc.submissions[id].reports != [] && Met(doc.submissions[id].reports, digest)
  }

  // ----- Adoption -------------------------------------------------------------------------------

  /** The reports are these, and the submission stands in quarantine, out of the queue and off the chain. */
  predicate StandsOver(doc: Document, id: string, reports: seq<CommunityReport.Report>)
  {
    && id in doc.submissions && doc.submissions[id].reports == reports && doc.submissions[id].status == Quarantined
    && id !in doc.queue && !OnChain(doc.chain, id)
  }

  lemma AdoptedReports(durable: Document, local: Document, branch: Branch, id: string)
    requires Replacement(durable, local, branch).Some? && id in durable.submissions
    ensures var next := Replacement(durable, local, branch).value;
            && id in next.submissions
            && next.submissions[id].reports ==
                 if id in local.submissions then local.submissions[id].reports else durable.submissions[id].reports
  {
  }

  lemma OverThresholdStands(doc: Document, id: string, digest: Digest)
    requires SafeFor(doc, id, digest) && OverThreshold(doc, id, digest)
    ensures StandsOver(doc, id, doc.submissions[id].reports)
  {
  }

  lemma MergeStands(durable: Document, local: Document, other: string, id: string, digest: Digest)
    requires SafeFor(durable, id, digest) && SafeFor(local, id, digest) && HoldsReports(durable, local, id)
    requires OverThreshold(durable, id, digest)
    ensures StandsOver(Merge(durable, local, other), id, durable.submissions[id].reports)
  {
    MergeIsSafe(durable, local, other, id, digest);
    OverThresholdStands(Merge(durable, local, other), id, digest);
  }

  lemma RebuildStands(merged: Document, branch: Branch, id: string, reports: seq<CommunityReport.Report>)
    requires StandsOver(merged, id, reports) && !OnChain(branch.chain, id)
    ensures StandsOver(Rebuild(merged, branch), id, reports)
  {
    if Mints(branch, id) {
      MintedIsOnChain(branch, id);
    }
  }

  /**
   Adoption by a facade whose snapshot respects the threshold keeps a submission over it exactly where it
   was if and only if the facade has seen all durable reports of the submission and the branch in force
   afterwards does not contain it.
   */
  lemma AdoptionKeepsReportsExactly(durable: Document, local: Document, branch: Branch, id: string, digest: Digest)
    requires Adopt(durable, local, branch).Some? && SafeFor(durable, id, digest) && SafeFor(local, id, digest)
    requires OverThreshold(durable, id, digest) && (id !in local.submissions ==> id !in local.queue)
    ensures var adopted := Adopt(durable, local, branch).value;
            StandsOver(adopted, id, durable.submissions[id].reports) <==>
              HoldsReports(durable, local, id) && !OnChain(adopted.chain, id)
  {
    WriteChangesFinalityOnly(durable, Replacement(durable, local, branch).value, true);
    AdoptedReports(durable, local, branch, id);
    var adopted := Adopt(durable, local, branch).value;
    if HoldsReports(durable, local, id) && !OnChain(adopted.chain, id) {
      var merged := Merge(durable, local, branch.merged);
      MergeStands(durable, local, branch.merged, id, digest);
      if Hashes(durable.chain) != Hashes(branch.chain) {
        RebuildStands(merged, branch, id, durable.submissions[id].reports);
      }
    }
  }

  /** The system once facade 0 has loaded `start` and facade 1 has delivered the first `k` reports. */
  ghost function Delivered(start: Document, rs: seq<CommunityReport.Report>, v: Verifier, k: nat): System
    requires k <= |rs|
  {
    if k == 0 then System(start, map[0 := start])
    else System(DeliverAll(start, rs[..k], v), map[0 := start, 1 := DeliverAll(start, rs[..k], v)])
  }

  ghost function DeliveryStates(start: Document, rs: seq<CommunityReport.Report>, v: Verifier): seq<System>
  {
    seq(|rs| + 1, k requires 0 <= k <= |rs| => Delivered(start, rs, v, k))
  }

  ghost function DeliverySteps(rs: seq<CommunityReport.Report>, v: Verifier): seq<Step>
  {
    seq(|rs|, k requires 0 <= k < |rs| => Step.Report(1, rs[k], v))
  }

  lemma DeliveryTakes(start: Document, rs: seq<CommunityReport.Report>, v: Verifier, k: nat)
    requires k < |rs|
    ensures Takes(Delivered(start, rs, v, k), Step.Report(1, rs[k], v), Delivered(start, rs, v, k + 1), v.digest, true)
  {
    assert rs[..k + 1][..k] == rs[..k];
    assert DeliverAll(start, rs[..k + 1], v) == Deliver(DeliverAll(start, rs[..k], v), rs[k], v);
    assert k == 0 ==> rs[..k] == [];
  }

  lemma DeliveryRun(start: Document, rs: seq<CommunityReport.Report>, v: Verifier)
    ensures Run(DeliveryStates(start, rs, v), DeliverySteps(rs, v), v.digest, true)
  {
    forall k | 0 <= k < |rs|
      ensures Takes(DeliveryStates(start, rs, v)[k], DeliverySteps(rs, v)[k], DeliveryStates(start, rs, v)[k + 1], v.digest, true)
    {
      DeliveryTakes(start, rs, v, k);
    }
  }

  /** A run goes on with one more step. */
  lemma RunSnoc(states: seq<System>, steps: seq<Step>, step: Step, last: System, digest: Digest, disciplined: bool)
    requires Run(states, steps, digest, disciplined) && Takes(states[|steps|], step, last, digest, disciplined)
    ensures Run(states + [last], steps + [step], digest, disciplined)
  {
    var more, all := states + [last], steps + [step];
    forall k | 0 <= k < |all|
      ensures Takes(more[k], all[k], more[k + 1], digest, disciplined)
    {
      assert k < |steps| ==> all[k] == steps[k] && more[k] == states[k] && more[k + 1] == states[k + 1];
    }
  }

  /** A run may be preceded by one step. */
  lemma RunCons(states: seq<System>, steps: seq<Step>, step: Step, first: System, digest: Digest, disciplined: bool)
    requires Run(states, steps, digest, disciplined) && Takes(first, step, states[0], digest, disciplined)
    ensures Run([first] + states, [step] + steps, digest, disciplined)
  {
    var more, all := [first] + states, [step] + steps;
    forall k | 0 <= k < |all|
      ensures Takes(more[k], all[k], more[k + 1], digest, disciplined)
    {
      assert k > 0 ==> all[k] == steps[k - 1] && more[k] == states[k - 1] && more[k + 1] == states[k];
    }
  }

  /** A branch that extends the chain by one fresh block and that every comparison prefers. */
  ghost predicate FreshBranch(start: Document, branch: Branch, id: string)
  {
    && branch.preferred && branch.wins && |branch.chain| == |start.chain| + 1
    && branch.chain[..|start.chain|] == start.chain && branch.chain[|start.chain|].body.index == |start.chain|
    && UniqueClaims(branch.chain) && !OnChain(branch.chain, id) && id !in branch.invalidated
  }

  lemma FreshBranchKeepsProofs(durable: Document, branch: Branch, id: string)
    requires Sound(durable) && FreshBranch(durable, branch, id)
    ensures var m := Collected(durable.proofs, durable.proofs);
            m.Some? && AncestryKept(durable, branch.chain, m.value) && CandidatePreserves(branch.chain, durable.proofs)
  {
    var b := branch.chain[|durable.chain|];
    assert branch.chain == durable.chain + [b];
    IncreasingProofsCollect(durable.proofs);
    var m := Collected(durable.proofs, durable.proofs).value;
    AppendKeepsAncestry(durable, branch.chain, b, m);
    forall p | p in durable.proofs
      ensures (p.height as int) in Targets(branch.chain) && Targets(branch.chain)[p.height] == p.hash
    {
      assert p.height in m && m[p.height] == p;
    }
  }

  lemma OwnVotesMerge(votes: seq<Vote>, kept: seq<Vote>, targets: map<int, string>)
    requires forall i, j :: 0 <= i < j < |votes| ==> votes[i].message != votes[j].message
    requires forall v :: v in kept ==> v in votes
    ensures MergedVotes(votes + kept, targets, true).Some?
  {
    forall a, b | a in votes + kept && b in votes + kept && a.message == b.message
      ensures a.(signature := b.signature) == b
    {
      var i :| 0 <= i < |votes| && votes[i] == a;
      var j :| 0 <= j < |votes| && votes[j] == b;
    }
    ReorgVotesMerge(votes + kept, targets);
  }

  /** Storage lets such a branch through, whatever the facade merges into it. */
  lemma FreshBranchIsAdopted(durable: Document, local: Document, branch: Branch, id: string)
    requires Sound(durable) && VotesCanonical(durable) && FreshBranch(durable, branch, id)
    ensures Hashes(durable.chain) != Hashes(branch.chain)
    ensures Replacement(durable, local, branch) == Some(Rebuild(Merge(durable, local, branch.merged), branch))
    ensures Adopt(durable, local, branch).Some?
  {
    assert |Hashes(durable.chain)| != |Hashes(branch.chain)|;
    FreshBranchKeepsProofs(durable, branch, id);
    OwnVotesMerge(durable.votes, VotesOn(durable.votes, branch.chain), Targets(branch.chain));
    WrittenWhenKept(durable, Rebuild(Merge(durable, local, branch.merged), branch));
  }

  lemma WrittenWhenKept(durable: Document, replacement: Document)
    requires Collected(durable.proofs, replacement.proofs).Some? && UniqueClaims(replacement.chain)
    requires AncestryKept(durable, replacement.chain, Collected(durable.proofs, replacement.proofs).value)
    requires MergedVotes(durable.votes + replacement.votes, Targets(replacement.chain), true).Some?
    ensures Write(durable, replacement, true).Some?
  {
  }

  lemma RebuiltFromStale(durable: Document, start: Document, branch: Branch, id: string)
    requires FreshBranch(start, branch, id) && id in start.submissions && id in start.queue
    requires start.submissions[id].status == Queued && start.submissions[id].reports == []
    ensures var rebuilt := Rebuild(Merge(durable, start, branch.merged), branch);
            && id in rebuilt.submissions && rebuilt.submissions[id].reports == []
            && rebuilt.submissions[id].status == Queued && id in rebuilt.queue
  {
    var merged := Merge(durable, start, branch.merged);
    assert id in merged.queue;
    if Mints(branch, id) {
      MintedIsOnChain(branch, id);
    }
  }

  /** What a facade that still holds `start` makes of a later document on the same chain. */
  lemma StaleAdoptionEnds(durable: Document, start: Document, branch: Branch, id: string)
    requires Sound(durable) && VotesCanonical(durable) && durable.chain == start.chain && FreshBranch(start, branch, id)
    requires id in start.submissions && id in start.queue
    requires start.submissions[id].status == Queued && start.submissions[id].reports == []
    ensures Adopt(durable, start, branch).Some? && BackInQueue(Adopt(durable, start, branch).value, id)
  {
    FreshBranchIsAdopted(durable, start, branch, id);
    RebuiltFromStale(durable, start, branch, id);
    WriteChangesFinalityOnly(durable, Rebuild(Merge(durable, start, branch.merged), branch), true);
  }

  /** Unreported, QUEUED, and in the mint queue. */
  predicate BackInQueue(doc: Document, id: string)
  {
    id in doc.submissions && doc.submissions[id].reports == [] && doc.submissions[id].status == Queued && id in doc.queue
  }

  /** A run from `start` that ends with this adoption, taken on a document the deliveries have reached. */
  ghost predicate EndsInAdoption(states: seq<System>, steps: seq<Step>, start: Document, reached: Document, branch: Branch,
                                 digest: Digest)
  {
    && Run(states, steps, digest, true) && |steps| > 0 && states[0] == System(start, map[])
    && states[|steps| - 1].durable == reached && steps[|steps| - 1] == AdoptBranch(0, branch)
  }

  lemma AdoptionRun(start: Document, rs: seq<CommunityReport.Report>, v: Verifier, branch: Branch)
      returns (states: seq<System>, steps: seq<Step>)
    requires Adopt(DeliverAll(start, rs, v), start, branch).Some?
    ensures EndsInAdoption(states, steps, start, DeliverAll(start, rs, v), branch, v.digest)
    ensures states[|steps|].durable == Adopt(DeliverAll(start, rs, v), start, branch).value
  {
    var before := Delivered(start, rs, v, |rs|);
    assert rs[..|rs|] == rs;
    assert before.durable == DeliverAll(start, rs, v) && 0 in before.locals && before.locals[0] == start;
    var end := Adopt(DeliverAll(start, rs, v), start, branch).value;
    var last := System(end, before.locals[0 := end]);
    DeliveryRun(start, rs, v);
    states, steps := DeliveryStates(start, rs, v), DeliverySteps(rs, v);
    RunSnoc(states, steps, AdoptBranch(0, branch), last, v.digest, true);
    states, steps := states + [last], steps + [AdoptBranch(0, branch)];
    RunCons(states, steps, Load(0), System(start, map[]), v.digest, true);
    states, steps := [System(start, map[])] + states, [Load(0)] + steps;
  }

  /**
   From any sound document with a queued, unreported submission: one facade loads it, another delivers reports
   that reach the threshold, and the first adopts a winning branch.  In the end the submission has no reports,
   is QUEUED, and is in the mint queue again.
   */
  lemma StaleAdoptionUndoesQuarantine(start: Document, id: string, rs: seq<CommunityReport.Report>, v: Verifier, branch: Branch)
    requires Faithful(v) && Sound(start) && VotesCanonical(start) && Reviewable(start, id)
    requires start.submissions[id].status == Queued && id in start.queue && FreshBranch(start, branch, id)
    requires var accepted := AcceptableIn(start.submissions[id], id, rs, v);
             |set r | r in accepted :: r.Wallet()| >= 3 && exists r :: r in accepted && IsEstablished(r)
    ensures var reached := DeliverAll(start, rs, v);
            && id in reached.submissions && reached.submissions[id].status == Quarantined && id !in reached.queue
            && exists states: seq<System>, steps: seq<Step> ::
                 EndsInAdoption(states, steps, start, reached, branch, v.digest) && BackInQueue(states[|steps|].durable, id)
  {
    QuarantineIsDecidedByTheSet(start, id, rs, v);
    var t := StandingAfterAll(start, id, rs, v);
    StaleAdoptionEnds(DeliverAll(start, rs, v), start, branch, id);
    var states, steps := AdoptionRun(start, rs, v, branch);
  }

  // ----- Saves -----------------------------------------------------------------------------------

  /** No save of a snapshot that respects the threshold takes `id` out of quarantine or puts it in the queue. */
  ghost predicate StaysQuarantinedInRuns(durable: Document, id: string, digest: Digest)
  {
    forall local :: SafeFor(local, id, digest) && Save(durable, local).Some? ==>
      var saved := Save(durable, local).value;
      id in saved.submissions && saved.submissions[id].status == Quarantined && id !in saved.queue
  }

  lemma SaveKeepsOverThreshold(durable: Document, local: Document, id: string, digest: Digest)
    requires Save(durable, local).Some? && SafeFor(local, id, digest) && OverThreshold(durable, id, digest)
    ensures var saved := Save(durable, local).value;
            id in saved.submissions && saved.submissions[id].status == Quarantined && id !in saved.queue
  {
    WriteChangesFinalityOnly(durable, SaveReplacement(durable, local), false);
    assert id in local.submissions.Keys + durable.submissions.Keys;
    assert !StaleFor(Find(local, id), Find(durable, id), id in local.queue);
    OverThresholdStands(local, id, digest);
  }

  /**
   Of the snapshots that runs produce, none can end a quarantine by a save if and only if the quarantine is
   recorded under the threshold reason or the stored reports meet the threshold.
   */
  lemma SavesKeepQuarantineExactly(durable: Document, id: string, digest: Digest)
    requires Sound(durable) && VotesCanonical(durable) && QuarantinedUnqueued(durable) && SafeFor(durable, id, digest)
    requires id in durable.submissions && durable.submissions[id].status == Quarantined
    ensures StaysQuarantinedInRuns(durable, id, digest) <==>
              ThresholdReason(Find(durable, id)) || OverThreshold(durable, id, digest)
  {
    if ThresholdReason(Find(durable, id)) || OverThreshold(durable, id, digest) {
      forall local | SafeFor(local, id, digest) && Save(durable, local).Some?
        ensures var saved := Save(durable, local).value;
                id in saved.submissions && saved.submissions[id].status == Quarantined && id !in saved.queue
      {
        if ThresholdReason(Find(durable, id)) {
          SaveKeepsThresholdQuarantine(durable, local, id);
        } else {
          SaveKeepsOverThreshold(durable, local, id, digest);
        }
      }
    } else {
      OtherReasonCanBeRequeued(durable, id);
      assert SafeFor(Requeued(durable, id), id, digest);
      assert Save(durable, Requeued(durable, id)).Some?;
    }
  }

  lemma SaveOfStart(start: Document, id: string, reason: string)
    requires Sound(start) && VotesCanonical(start) && QuarantinedUnqueued(start)
    requires id in start.submissions && start.submissions[id].attested && start.submissions[id].status == Queued
    requires reason != REPORT_THRESHOLD
    ensures Stored(start, QuarantineStale(start, id, reason)) == QuarantineStale(start, id, reason)
    ensures Save(QuarantineStale(start, id, reason), start) == Some(start)
  {
    var after := QuarantineStale(start, id, reason);
    UntouchedChainIsStored(start, after);
    forall other | other in start.submissions.Keys + after.submissions.Keys
      ensures !StaleFor(Find(start, other), Find(after, other), other in start.queue)
    {
      assert other != id ==> Find(after, other) == Find(start, other);
    }
    UntouchedChainIsStored(after, start);
    assert SaveReplacement(after, start) == start;
  }

  /**
   A quarantine for another reason is not protected: one facade loads a document with a queued submission,
   another quarantines the submission, and a save by the first restores the document it had loaded.
   */
  lemma StaleSaveUndoesOtherQuarantine(start: Document, id: string, reason: string, digest: Digest)
    requires Sound(start) && VotesCanonical(start) && QuarantinedUnqueued(start)
    requires id in start.submissions && start.submissions[id].attested && start.submissions[id].status == Queued
    requires reason != REPORT_THRESHOLD
    ensures var after := QuarantineStale(start, id, reason);
            var states := [System(start, map[]), System(start, map[0 := start]), System(after, map[0 := start, 1 := after]),
                           System(start, map[0 := start, 1 := after])];
            && Run(states, [Load(0), QuarantineQueued(1, id, reason), SaveState(0)], digest, true)
            && after.submissions[id].status == Quarantined && id !in after.queue
  {
    SaveOfStart(start, id, reason);
    var after := QuarantineStale(start, id, reason);
    var steps := [Load(0), QuarantineQueued(1, id, reason), SaveState(0)];
    assert map[0 := start][1 := after] == map[0 := start, 1 := after];
    LoadTakes(start, map[], 0, digest, true);
    assert map[][0 := start] == map[0 := start];
    QuarantineTakes(start, map[0 := start], 1, id, reason, digest, true);
    SaveTakes(after, map[0 := start, 1 := after], 0, start, digest, true);
  }

  // ----- Minting twice ------------------------------------------------------------------------------

  /** Only a save and an adoption can take a block off the durable chain. */
  lemma StepKeepsBlocks(s: System, step: Step, t: System, digest: Digest, disciplined: bool, b: Block)
    requires Takes(s, step, t, digest, disciplined) && !step.SaveState? && !step.AdoptBranch? && b in s.durable.chain
    ensures b in t.durable.chain
  {
    match step
    case Load(f) =>
    case Edit(f, doc) =>
    case Report(f, r, v) => DeliveryKeepsChain(s.durable, r, v);
    case Dispute(f, id, r, admissible, statusHolds) =>
      var next := AdmitDispute(s.durable, id, r, digest, admissible, statusHolds);
      if next.Some? { StoredKeepsChain(s.durable, next.value); }
    case CommitOne(f, a) =>
      if Commit(s.durable, a).Committed? { CommitMintsExactlyOne(s.durable, a); }
    case QuarantineQueued(f, id, reason) => StoredKeepsChain(s.durable, QuarantineStale(s.durable, id, reason));
    case Finalize(f, proofs, votes) =>
      StoredKeepsChain(s.durable, s.durable.(proofs := s.durable.proofs + proofs, votes := s.durable.votes + votes));
  }

  lemma StoredKeepsChain(durable: Document, replacement: Document)
    requires replacement.chain == durable.chain
    ensures Stored(durable, replacement).chain == durable.chain
  {
    if Write(durable, replacement, false).Some? {
      WriteChangesFinalityOnly(durable, replacement, false);
    }
  }

  lemma DeliveryKeepsChain(doc: Document, r: CommunityReport.Report, v: Verifier)
    ensures Deliver(doc, r, v).chain == doc.chain
  {
    if AdmitReport(doc, r, v).Ok? {
      AdmissionKeepsChain(doc, r, v);
      StoredKeepsChain(doc, AdmitReport(doc, r, v).value.0);
    }
  }

  lemma AdmissionKeepsChain(doc: Document, r: CommunityReport.Report, v: Verifier)
    requires AdmitReport(doc, r, v).Ok?
    ensures AdmitReport(doc, r, v).value.0.chain == doc.chain
  {
    var reports := doc.submissions[r.payload.submissionId].reports;
    if ScanExisting(reports, r) == Fresh {
      var next := Sort(reports + [r], OrderKey(v.digest));
      ConclusionKeepsChain(doc, r, next, TallyOf(next, v.digest), v);
    }
  }

  lemma ConclusionKeepsChain(doc: Document, r: CommunityReport.Report, next: seq<CommunityReport.Report>, result: TallyResult,
                             v: Verifier)
    requires r.payload.submissionId in doc.submissions
    requires Conclude(doc, r.payload.submissionId, r, next, result, v).Ok?
    ensures Conclude(doc, r.payload.submissionId, r, next, result, v).value.0.chain == doc.chain
  {
  }

  /** The saves and adoptions of these steps kept every block of the durable chain. */
  predicate ChainsKept(states: seq<System>, steps: seq<Step>, from: nat, to: nat)
    requires |states| == |steps| + 1 && to <= |steps|
  {
    forall k {:trigger steps[k]} :: from <= k < to && (steps[k].SaveState? || steps[k].AdoptBranch?) ==>
      states[k].durable.chain <= states[k + 1].durable.chain
  }

  lemma {:induction false} BlocksStay(states: seq<System>, steps: seq<Step>, digest: Digest, disciplined: bool,
                                      i: nat, j: nat, b: Block)
    requires Run(states, steps, digest, disciplined) && i <= j <= |steps| && ChainsKept(states, steps, i, j)
    requires b in states[i].durable.chain
    ensures b in states[j].durable.chain
    decreases j - i
  {
    if i < j {
      BlocksStay(states, steps, digest, disciplined, i, j - 1, b);
      var step := steps[j - 1];
      if step.SaveState? || step.AdoptBranch? {
        var n :| 0 <= n < |states[j - 1].durable.chain| && states[j - 1].durable.chain[n] == b;
        assert states[j].durable.chain[n] == b;
      } else {
        StepKeepsBlocks(states[j - 1], step, states[j], digest, disciplined, b);
      }
    }
  }

  /**
   Over every run, two commits never mint one submission or one certificate, whichever facades make them and
   however stale their heads are, unless a save or an adoption between them took blocks off the chain.
   */
  lemma NothingIsMintedTwice(states: seq<System>, steps: seq<Step>, digest: Digest, disciplined: bool, i: nat, j: nat)
    requires Run(states, steps, digest, disciplined) && i < j < |steps|
    requires steps[i].CommitOne? && Commit(states[i].durable, steps[i].attempt).Committed?
    requires steps[j].CommitOne? && Commit(states[j].durable, steps[j].attempt).Committed?
    requires ChainsKept(states, steps, i + 1, j)
    ensures steps[i].attempt.request.submissionId != steps[j].attempt.request.submissionId
    ensures steps[i].attempt.request.certificateId != steps[j].attempt.request.certificateId
  {
    var first, second := steps[i].attempt, steps[j].attempt;
    assert Takes(states[i], steps[i], states[i + 1], digest, disciplined);
    CommitMintsExactlyOne(states[i].durable, first);
    var b :| AfterCommit(states[i].durable, first).chain == states[i].durable.chain + [b] && Carries(b, first.request);
    assert b in states[i + 1].durable.chain;
    BlocksStay(states, steps, digest, disciplined, i + 1, j, b);
    if Touches(b, second.request) {
      NoSecondMint(states[j].durable, second, b);
    }
  }

  /** Storage lets a save drop a block above every finalized height. */
  lemma DroppedBlockIsStored(durable: Document, replacement: Document, b: Block)
    requires Sound(replacement) && VotesCanonical(replacement) && durable.chain == replacement.chain + [b]
    requires replacement.proofs == durable.proofs && replacement.votes == durable.votes
    ensures Write(durable, replacement, false) == Some(replacement)
  {
    UntouchedChainIsStored(replacement, replacement);
    forall p | p in durable.proofs ensures SameSummary(durable.chain, replacement.chain, p.height) {
      assert Ancestry(replacement.chain, p.height);
      assert durable.chain[..p.height + 1] == replacement.chain[..p.height + 1];
      SameBlocksSameSummary(durable.chain, replacement.chain, p.height);
    }
  }

  /** A commit on a chain indexed by position, whose block is new. */
  ghost predicate OrdinaryCommit(start: Document, a: Attempt)
  {
    && Sound(start) && VotesCanonical(start) && Commit(start, a).Committed?
    && (forall i :: 0 <= i < |start.chain| ==> start.chain[i].body.index == i)
    && a.request.submissionId != "" && a.request.certificateId != ""
    && (forall i :: 0 <= i < |start.chain| ==> start.chain[i].hash != a.candidate.value.hash)
  }

  lemma OrdinaryCommitMints(start: Document, a: Attempt)
    requires OrdinaryCommit(start, a)
    ensures AfterCommit(start, a) == Minting(start, a.request.submissionId, a.candidate.value)
  {
    var b := a.candidate.value;
    FreshBlockKeepsClaims(start.chain, b, a.request);
    AppendPreservesFinality(start, Minting(start, a.request.submissionId, b), b);
  }

  lemma SaveDropsBlock(start: Document, a: Attempt)
    requires OrdinaryCommit(start, a) && QuarantinedUnqueued(start) && !ThresholdReason(Find(start, a.request.submissionId))
    ensures Save(AfterCommit(start, a), start) == Some(start.(peers := []))
  {
    var id, after, back := a.request.submissionId, AfterCommit(start, a), start.(peers := []);
    OrdinaryCommitMints(start, a);
    forall other | other in start.submissions.Keys + after.submissions.Keys
      ensures !StaleFor(Find(start, other), Find(after, other), other in start.queue)
    {
      assert other != id ==> Find(after, other) == Find(start, other);
    }
    assert SaveReplacement(after, start) == back;
    DroppedBlockIsStored(after, back, a.candidate.value);
  }

  lemma WriteIgnoresPeers(durable: Document, replacement: Document)
    ensures Write(durable.(peers := []), replacement, false) == Write(durable, replacement, false)
  {
  }

  lemma CommitAgain(start: Document, a: Attempt)
    requires Commit(start, a).Committed?
    ensures Commit(start.(peers := []), a) == Commit(start, a)
  {
    var replacement := Minting(start, a.request.submissionId, a.candidate.value);
    assert Minting(start.(peers := []), a.request.submissionId, a.candidate.value) == replacement;
    WriteIgnoresPeers(start, replacement);
  }

  lemma CommitTakes(durable: Document, locals: map<nat, Document>, f: nat, a: Attempt, doc: Document, disciplined: bool)
    requires Commit(durable, a) == Committed(doc)
    ensures Takes(System(durable, locals), CommitOne(f, a), System(doc, locals[f := doc]), a.verifier.digest, disciplined)
  {
  }

  lemma SaveTakes(durable: Document, locals: map<nat, Document>, f: nat, doc: Document, digest: Digest, disciplined: bool)
    requires f in locals && Save(durable, locals[f]) == Some(doc)
    ensures Takes(System(durable, locals), SaveState(f), System(doc, locals), digest, disciplined)
  {
  }

  lemma QuarantineTakes(durable: Document, locals: map<nat, Document>, f: nat, id: string, reason: string, digest: Digest,
                        disciplined: bool)
    ensures var after := Stored(durable, QuarantineStale(durable, id, reason));
            Takes(System(durable, locals), QuarantineQueued(f, id, reason), System(after, locals[f := after]), digest, disciplined)
  {
  }

  lemma LoadTakes(durable: Document, locals: map<nat, Document>, f: nat, digest: Digest, disciplined: bool)
    ensures Takes(System(durable, locals), Load(f), System(durable, locals[f := durable]), digest, disciplined)
  {
  }

  lemma CommitAfterLoad(start: Document, after: Document, a: Attempt) returns (states: seq<System>, steps: seq<Step>)
    requires Commit(start, a) == Committed(after)
    ensures Run(states, steps, a.verifier.digest, true) && |steps| == 2 && states[0] == System(start, map[])
    ensures steps[1] == CommitOne(1, a) && states[1].durable == start
    ensures states[2] == System(after, map[0 := start][1 := after])
  {
    LoadTakes(start, map[], 0, a.verifier.digest, true);
    states, steps := [System(start, map[])], [];
    RunSnoc(states, steps, Load(0), System(start, map[0 := start]), a.verifier.digest, true);
    states, steps := states + [System(start, map[0 := start])], steps + [Load(0)];
    CommitTakes(start, map[0 := start], 1, a, after, true);
    RunSnoc(states, steps, CommitOne(1, a), System(after, map[0 := start][1 := after]), a.verifier.digest, true);
    states, steps := states + [System(after, map[0 := start][1 := after])], steps + [CommitOne(1, a)];
  }

  lemma SaveNext(states: seq<System>, steps: seq<Step>, f: nat, back: Document, digest: Digest)
      returns (more: seq<System>, all: seq<Step>)
    requires Run(states, steps, digest, true) && f in states[|steps|].locals
    requires Save(states[|steps|].durable, states[|steps|].locals[f]) == Some(back)
    ensures Run(more, all, digest, true) && states <= more && steps <= all && |all| == |steps| + 1
    ensures more[|all|] == System(back, states[|steps|].locals)
  {
    var s := states[|steps|];
    SaveTakes(s.durable, s.locals, f, back, digest, true);
    RunSnoc(states, steps, SaveState(f), System(back, s.locals), digest, true);
    more, all := states + [System(back, s.locals)], steps + [SaveState(f)];
  }

  lemma CommitNext(states: seq<System>, steps: seq<Step>, a: Attempt, doc: Document)
      returns (more: seq<System>, all: seq<Step>)
    requires Run(states, steps, a.verifier.digest, true) && Commit(states[|steps|].durable, a) == Committed(doc)
    ensures Run(more, all, a.verifier.digest, true) && states <= more && steps <= all && |all| == |steps| + 1
    ensures all[|steps|] == CommitOne(1, a)
  {
    var s := states[|steps|];
    CommitTakes(s.durable, s.locals, 1, a, doc, true);
    RunSnoc(states, steps, CommitOne(1, a), System(doc, s.locals[1 := doc]), a.verifier.digest, true);
    more, all := states + [System(doc, s.locals[1 := doc])], steps + [CommitOne(1, a)];
  }

  /** A run in which facade 0 loads, facade 1 commits, facade 0 saves, and facade 1 commits again. */
  lemma CommitTwiceRun(start: Document, after: Document, back: Document, a: Attempt)
      returns (states: seq<System>, steps: seq<Step>)
    requires Commit(start, a) == Committed(after) && Save(after, start) == Some(back) && Commit(back, a) == Committed(after)
    ensures Run(states, steps, a.verifier.digest, true) && |steps| == 4 && states[0] == System(start, map[])
    ensures steps[1] == CommitOne(1, a) && states[1].durable == start
    ensures steps[3] == CommitOne(1, a) && states[3].durable == back
  {
    var first, one := CommitAfterLoad(start, after, a);
    var second, two := SaveNext(first, one, 0, back, a.verifier.digest);
    states, steps := CommitNext(second, two, a, after);
    assert states[0] == first[0] && states[1] == first[1] && steps[1] == one[1] && states[3] == second[3];
  }

  /**
   The condition is needed: a facade loads, another commits, a save by the first takes the unfinalized block off
   the chain again, and the same submission and certificate are committed a second time.
   */
  lemma StaleSaveLetsACommitRepeat(start: Document, a: Attempt) returns (states: seq<System>, steps: seq<Step>)
    requires OrdinaryCommit(start, a) && QuarantinedUnqueued(start) && !ThresholdReason(Find(start, a.request.submissionId))
    ensures Run(states, steps, a.verifier.digest, true) && |steps| == 4 && states[0] == System(start, map[])
    ensures steps[1] == CommitOne(1, a) && Commit(states[1].durable, a).Committed?
    ensures steps[3] == CommitOne(1, a) && Commit(states[3].durable, a).Committed?
  {
    SaveDropsBlock(start, a);
    CommitAgain(start, a);
    states, steps := CommitTwiceRun(start, AfterCommit(start, a), start.(peers := []), a);
  }
}
