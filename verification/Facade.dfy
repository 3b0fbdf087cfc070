/**
 The facade object: one node process's view of the chain, with the operations that
 read and replace the durable document under its lock (blockchain.py).
 */
module Facade {
  import opened Ordering
  import opened Wrappers
  import opened CommunityReport
  import opened Documents
  import opened Finality
  import opened FinalityTheorems
  import opened FinalityCache
  import opened ReportAdmission
  import opened ReportConvergence
  import opened NodeSteps
  import opened Adoption

  /** A restored document, with the cached votes a same-chain refresh does not erase. */
  function Refreshed(doc: Document, cachedVotes: seq<Vote>): Document
  {
    doc.(votes := PublishedVotes(doc.votes, cachedVotes, Targets(doc.chain)))
  }

  /** A facade holds the document, up to later votes and the peer section it never sees. */
  predicate Mirrors(state: Document, doc: Document)
  {
    state == doc.(votes := state.votes, peers := [])
  }

  /** The votes a facade on `chain` publishes from a document. */
  function CacheVotes(chain: seq<Block>, cached: seq<Vote>, doc: Document): seq<Vote>
  {
    if Targets(chain) == Targets(doc.chain) then PublishedVotes(doc.votes, cached, Targets(doc.chain)) else doc.votes
  }

  /** What one report operation stores; None is any refusal. */
  function DeliverVia(doc: Document, cachedVotes: seq<Vote>, r: Report, v: Verifier): Option<Document>
  {
    match AdmitReport(Refreshed(doc, cachedVotes), r, v)
    case Err(_) => None
    case Ok((replacement, action)) => Write(doc, if action == Duplicate then doc else replacement, false)
  }

  class Blockchain {
    const storage: Storage
    const validProof: Proof -> bool
    var chain: seq<Block>
    var submissions: map<string, Submission>
    var queue: seq<string>
    var proofs: seq<Proof>
    var votes: seq<Vote>
    var disputes: map<string, seq<Report>>
    var other: string

    constructor (storage: Storage, validProof: Proof -> bool)
      ensures this.storage == storage && this.validProof == validProof
      ensures State() == Document([], map[], [], [], [], map[], [], "")
    {
      this.storage, this.validProof := storage, validProof;
      chain, submissions, queue, proofs, votes, disputes, other := [], map[], [], [], [], map[], "";
    }

    /** `_serialize_blockchain_state`, completed by storage with an empty peer section. */
    function State(): Document
      reads this
    {
      Document(chain, submissions, queue, proofs, votes, disputes, [], other)
    }

    // ----- Finality cache -----------------------------------------------------------------

    method Index(ps: seq<Proof>) returns (m: map<nat, Proof>)
      ensures m == ByHeight(ps)
    {
      m := map[];
      for i := 0 to |ps|
        invariant m == ByHeight(ps[..i])
      {
        assert ps[..i + 1][..i] == ps[..i];
        m := m[ps[i].height := ps[i]];
      }
      assert ps[..|ps|] == ps;
    }

    /** The three refusals, in the source's order: duplicates, untrusted or off-chain records, regression. */
    method CheckFinalityTransition(doc: Document) returns (ok: bool)
      ensures ok == TransitionOk(proofs, doc, validProof)
    {
      var incoming := Index(doc.proofs);
      DistinctByCount(doc.proofs);
      if |incoming| != |doc.proofs| {
        return false;
      }
      var targets := BuildTargets(doc.chain);
      var known := Index(proofs);
      for i := 0 to |doc.proofs|
        invariant forall k :: 0 <= k < i ==> Trusted(doc.proofs[k], known, validProof) && OnTarget(doc.proofs[k], targets)
      {
        var p := doc.proofs[i];
        if !Trusted(p, known, validProof) || !OnTarget(p, targets) {
          assert p in doc.proofs;
          return false;
        }
      }
      for i := 0 to |proofs|
        invariant forall k :: 0 <= k < i ==>
                    proofs[k].height in incoming && incoming[proofs[k].height].hash == proofs[k].hash
      {
        if proofs[i].height !in incoming || incoming[proofs[i].height].hash != proofs[i].hash {
          assert proofs[i] in proofs;
          return false;
        }
      }
      return true;
    }

    /** `_publish_finality_cache`: a refusal leaves the cache as it was. */
    method Publish(doc: Document) returns (ok: bool)
      modifies this`proofs, this`votes
      ensures ok == TransitionOk(old(proofs), doc, validProof)
      ensures proofs == if ok then doc.proofs else old(proofs)
      ensures votes == if ok then CacheVotes(chain, old(votes), doc) else old(votes)
    {
      ok := CheckFinalityTransition(doc);
      if !ok {
        return;
      }
      var current := BuildTargets(chain);
      var targets := BuildTargets(doc.chain);
      var incoming := doc.votes;
      if current == targets {
        for i := 0 to |votes|
          invariant incoming == PublishedVotes(doc.votes, votes[..i], targets)
          invariant votes == old(votes) && proofs == old(proofs)
        {
          var v := votes[i];
          assert votes[..i + 1][..i] == votes[..i];
          if Targeted(v, targets) && !Recorded(incoming, v) {
            incoming := incoming + [v];
          }
        }
        assert votes[..|votes|] == votes;
      }
      votes := incoming;
      proofs := doc.proofs;
    }

    /** `_restore_blockchain_state_document`: install a durable document, or refuse it and change nothing. */
    method Restore(doc: Document) returns (ok: bool)
      modifies this
      ensures ok == TransitionOk(old(proofs), doc, validProof)
      ensures State() == if ok then Refreshed(doc, old(votes)).(peers := []) else old(State())
    {
      ok := CheckFinalityTransition(doc);
      if ok {
        chain, submissions, queue := doc.chain, doc.submissions, doc.queue;
        var _ := Publish(doc);
        disputes, other := doc.disputes, doc.other;
      }
    }

    // ----- Reports ----------------------------------------------------------------------------

    /** `report_status` of a restored submission: true when it returns. */
    method StatusReturns(id: string, v: Verifier) returns (ok: bool)
      requires id in submissions
      ensures ok == StatusConsistent(submissions[id], id, v)
    {
      var sub := submissions[id];
      for i := 0 to |sub.reports|
        invariant forall k :: 0 <= k < i ==> Verified(sub.reports[k], id, sub.contentHash, v)
      {
        if !Verified(sub.reports[i], id, sub.contentHash, v) {
          assert sub.reports[i] in sub.reports;
          return false;
        }
      }
      assert AllVerified(sub.reports, id, sub.contentHash, v);
      var result := ReportTally(sub.reports, v.digest);
      ok := Reconciled(sub, result);
    }

    method QuarantineSubmission(id: string, reason: string)
      requires id in submissions
      modifies this`submissions, this`queue
      ensures submissions == old(submissions)[id := old(submissions)[id].(status := Quarantined, quarantineReason := Some(reason))]
      ensures queue == Without(old(queue), id)
    {
      submissions := submissions[id := submissions[id].(status := Quarantined, quarantineReason := Some(reason))];
      queue := Without(queue, id);
    }

    /** Install a tallied list: quarantine on the threshold, with its evidence. */
    method InstallReports(id: string, reports: seq<Report>, t: Tally)
      requires id in submissions
      modifies this`submissions, this`queue
      ensures submissions == old(submissions)[id := Settle(old(submissions)[id], reports, t)]
      ensures queue == if t.met then Without(old(queue), id) else old(queue)
    {
      submissions := submissions[id := submissions[id].(reports := reports)];
      if t.met {
        QuarantineSubmission(id, REPORT_THRESHOLD);
        submissions := submissions[id := submissions[id].(evidence := Some(t))];
      }
    }

    /** The end of the closure, once the extended list has been tallied. */
    method ConcludeReport(id: string, r: Report, reports: seq<Report>, result: TallyResult, v: Verifier)
      returns (action: Result<Action, Refusal>)
      requires id in submissions && result == TallyOf(reports, v.digest)
      modifies this`submissions, this`queue
      ensures var concluded := Conclude(old(State()), id, r, reports, result, v);
              && (concluded.Ok? <==> action.Ok?)
              && (action.Ok? ==> concluded.value == (State(), action.value))
    {
      if !result.Counted? {
        return Err(TallyRaised);
      }
      var conflicting := HasWallet(submissions[id].reports, r.Wallet());
      InstallReports(id, reports, result.tally);
      var consistent := StatusReturns(id, v);
      if !consistent {
        return Err(StatusInconsistent);
      }
      return Ok(if conflicting then ConflictRecorded else Accepted);
    }

    /** The closure run on the restored state: amend it in place, or refuse. */
    method AmendWithReport(r: Report, v: Verifier) returns (action: Result<Action, Refusal>)
      modifies this`submissions, this`queue
      ensures var admitted := AdmitReport(old(State()), r, v);
              && (admitted.Ok? <==> action.Ok?)
              && (action.Ok? ==> admitted.value == (State(), action.value))
    {
      var refusal := Entry(State(), r, v);
      if refusal.Some? {
        return Err(refusal.value);
      }
      var id := r.payload.submissionId;
      var scan := Scanning(submissions[id].reports, r);
      if scan == Taken {
        return Err(IdentityTaken);
      }
      if scan == Seen {
        var held := StatusReturns(id, v);
        return if held then Ok(Duplicate) else Err(StatusInconsistent);
      }
      var reports := Sort(submissions[id].reports + [r], OrderKey(v.digest));
      var result := ReportTally(reports, v.digest);
      action := ConcludeReport(id, r, reports, result, v);
    }

    /**
     `record_community_report_operation`.  Either the document becomes what the admission proposes and
     the facade holds it, or the document is untouched and the facade reloads it.
     */
    method RecordCommunityReport(r: Report, v: Verifier) returns (outcome: Option<Action>)
      modifies this, storage
      ensures outcome.Some? <==> TransitionOk(old(proofs), old(storage.document), validProof) &&
                                 DeliverVia(old(storage.document), old(votes), r, v).Some?
      ensures storage.document == if outcome.Some? then DeliverVia(old(storage.document), old(votes), r, v).value
                                  else old(storage.document)
      ensures outcome.Some? ==> outcome.value == AdmitReport(Refreshed(old(storage.document), old(votes)), r, v).value.1
      ensures !TransitionOk(old(proofs), old(storage.document), validProof) ==> State() == old(State())
      ensures TransitionOk(old(proofs), old(storage.document), validProof) && Sound(old(storage.document)) ==>
                Mirrors(State(), storage.document)
    {
      var durable := storage.document;
      var restored := Restore(durable);
      if !restored {
        return None;
      }
      SectionsAreInvisible(Refreshed(durable, old(votes)), Refreshed(durable, old(votes)).votes, [], r, v);
      var action := AmendWithReport(r, v);
      if action.Err? {
        if Sound(durable) { OwnDocumentIsAccepted(durable, validProof); }
        var _ := Restore(durable);
        return None;
      }
      var replacement := if action.value == Duplicate then durable else State();
      AdmissionKeepsFinality(Refreshed(durable, old(votes)), r, v);
      var stored := storage.Replace(replacement, false);
      if Sound(durable) {
        if stored { OwnWriteIsAccepted(durable, replacement, validProof); }
        OwnDocumentIsAccepted(durable, validProof);
      }
      var _ := Restore(storage.document);
      return if stored then Some(action.value) else None;
    }

    // ----- Saves ---------------------------------------------------------------------------------

    /** `reject_stale_reports` over every known submission id. */
    method RejectStale(local: Document, durable: Document) returns (ok: bool)
      ensures ok == SaveGuard(durable, local)
    {
      var left := local.submissions.Keys + durable.submissions.Keys;
      while left != {}
        invariant left <= local.submissions.Keys + durable.submissions.Keys
        invariant forall id :: id in local.submissions.Keys + durable.submissions.Keys ==>
                    id in left || !StaleFor(Find(local, id), Find(durable, id), id in local.queue)
        decreases |left|
      {
        var id :| id in left;
        if StaleFor(Find(local, id), Find(durable, id), id in local.queue) {
          return false;
        }
        left := left - {id};
      }
      return true;
    }

    /** `save_blockchain`: the stored outcome is exactly `Save` of the durable and the local state. */
    method SaveBlockchain() returns (ok: bool)
      modifies this`proofs, this`votes, storage
      ensures ok == Save(old(storage.document), old(State())).Some?
      ensures storage.document == if ok then Save(old(storage.document), old(State())).value else old(storage.document)
      ensures var published := ok && TransitionOk(old(proofs), storage.document, validProof);
              && proofs == (if published then storage.document.proofs else old(proofs))
              && votes == if published then CacheVotes(chain, old(votes), storage.document) else old(votes)
    {
      var durable := storage.document;
      ok := RejectStale(State(), durable);
      if ok {
        ok := storage.Replace(State().(disputes := durable.disputes, peers := durable.peers), false);
        if ok {
          var _ := Publish(storage.document);
        }
      }
    }

    // ----- Certified commits ------------------------------------------------------------------------

    /** `_committed_certified_blocks` and the verdict on them. */
    method ResolveCertifiedReplay(blocks: seq<Block>, q: Request) returns (replay: Replay)
      ensures replay == ResolveReplay(blocks, q)
    {
      var matches: seq<Block> := [];
      for i := 0 to |blocks|
        invariant matches == Matches(blocks[..i], q)
      {
        assert blocks[..i + 1][..i] == blocks[..i];
        if Touches(blocks[i], q) {
          matches := matches + [blocks[i]];
        }
      }
      assert blocks[..|blocks|] == blocks;
      if matches == [] {
        return Unseen;
      }
      return if |matches| == 1 && Carries(matches[0], q) then Replayed(matches[0]) else Conflicting;
    }

    /** `_apply_certified_candidate_in_commit`: append the block, mint its submission, leave the queue. */
    method ApplyCandidate(id: string, b: Block)
      requires id in submissions && submissions[id].status == Queued
      modifies this`chain, this`submissions, this`queue
      ensures State() == Minting(old(State()), id, b)
    {
      chain := chain + [b];
      submissions := submissions[id := submissions[id].(status := Minted)];
      queue := Without(queue, id);
    }

    /** The locked part of `commit_certified_submission`, on the restored state. */
    method AmendWithCommit(a: Attempt) returns (outcome: CommitOutcome)
      modifies this`chain, this`submissions, this`queue
      ensures outcome == MintOutcome(old(State()), a)
      ensures State() == if outcome.Committed? then outcome.document else old(State())
    {
      var id := a.request.submissionId;
      if id !in submissions {
        return Refused(false);
      }
      var sub := submissions[id];
      if sub.attested {
        var returns_ := StatusReturns(id, a.verifier);
        if !returns_ {
          return Refused(true);
        }
        var result := ReportTally(sub.reports, a.verifier.digest);
        if result.tally.met {
          return Refused(true);
        }
      }
      if !a.certificateValid {
        return Refused(sub.attested);
      }
      if !a.requestUnchanged || sub.status != Queued || a.candidate.None? || !Extends(chain, a.candidate.value, a.request) {
        return Refused(false);
      }
      ApplyCandidate(id, a.candidate.value);
      return Committed(State());
    }

    /**
     The compare-and-swap of `commit_certified_submission`, up to the handler of a failure.  `reached` tells
     whether the facade took the durable document; `stored` whether the attempt succeeded.
     */
    method AttemptCommit(a: Attempt) returns (outcome: CommitOutcome, stored: bool)
      modifies this, storage
      ensures var admitted := TransitionOk(old(proofs), old(storage.document), validProof);
              && outcome == (if admitted || !Reaches(old(storage.document).chain, a)
                             then CommitVia(old(storage.document), old(votes), a) else Refused(false))
              && stored == (outcome.Committed? || (outcome.AlreadyCommitted? && admitted))
      ensures storage.document == if outcome.Committed? then outcome.document else old(storage.document)
      ensures outcome.AlreadyCommitted? && stored ==> Mirrors(State(), storage.document)
      ensures var reached := TransitionOk(old(proofs), old(storage.document), validProof) &&
                             Reaches(old(storage.document).chain, a);
              && (!reached && !stored ==> State() == old(State()))
              && (reached ==> Reached(State(), old(storage.document), old(votes), a))
    {
      var durable := storage.document;
      var replay := ResolveCertifiedReplay(durable.chain, a.request);
      if replay == Conflicting {
        return ConflictingReplay, false;
      }
      if replay.Replayed? {
        var restored := Restore(durable);
        return AlreadyCommitted, restored;
      }
      if CurrentHead(durable.chain) != a.expectedHead {
        return StaleHead, false;
      }
      var restored := Restore(durable);
      if !restored {
        return Refused(false), false;
      }
      MintingIgnoresPeers(Refreshed(durable, old(votes)), a);
      outcome := AmendWithCommit(a);
      stored := false;
      if outcome.Committed? {
        stored := storage.Replace(outcome.document, false);
        outcome := if stored then Committed(storage.document) else Refused(false);
      }
    }

    /**
     `commit_certified_submission`.  A failure puts the facade's own snapshot back, unless the certificates the
     attempt has just published refuse it; then the facade keeps what the attempt made of the durable document.
     A failure for a stale admission takes the submission out of the queue.
     */
    method CommitCertified(a: Attempt) returns (outcome: CommitOutcome, stored: bool)
      modifies this, storage
      ensures var admitted := TransitionOk(old(proofs), old(storage.document), validProof);
              && outcome == (if admitted || !Reaches(old(storage.document).chain, a)
                             then CommitVia(old(storage.document), old(votes), a) else Refused(false))
              && stored == (outcome.Committed? || (outcome.AlreadyCommitted? && admitted))
      ensures storage.document == if outcome.Committed? then outcome.document
                                  else if outcome == Refused(true) then
                                    Stored(old(storage.document),
                                           QuarantineStale(old(storage.document), a.request.submissionId, STALE_ADMISSION))
                                  else old(storage.document)
      ensures outcome.Committed? && Sound(old(storage.document)) ==> Mirrors(State(), storage.document)
      ensures outcome.AlreadyCommitted? && stored ==> Mirrors(State(), storage.document)
      ensures !stored && outcome != Refused(true) ==>
                var reached := TransitionOk(old(proofs), old(storage.document), validProof) &&
                               Reaches(old(storage.document).chain, a);
                var certificates := if reached then old(storage.document).proofs else old(proofs);
                if TransitionOk(certificates, old(State()), validProof) then Mirrors(State(), old(State()))
                else if reached then Reached(State(), old(storage.document), old(votes), a)
                else State() == old(State())
    {
      var memory, durable := State(), storage.document;
      outcome, stored := AttemptCommit(a);
      if outcome.Committed? && Sound(durable) {
        CommittedKeepsProofs(durable, old(votes), a);
      }
      if !stored {
        var _ := Restore(memory);
        if outcome == Refused(true) {
          QuarantineStaleQueueRecord(a.request.submissionId, STALE_ADMISSION);
        }
      }
    }

    /** `_quarantine_stale_current_queue_record` */
    method QuarantineStaleQueueRecord(id: string, reason: string)
      modifies this, storage
      ensures storage.document == Stored(old(storage.document), QuarantineStale(old(storage.document), id, reason))
      ensures State() == old(State()) || Mirrors(State(), storage.document)
    {
      var replacement := storage.document;
      var left := replacement.submissions.Keys;
      while left != {}
        invariant left <= storage.document.submissions.Keys && replacement == storage.document
        invariant id in storage.document.submissions ==> id in left
        decreases |left|
      {
        var item :| item in left;
        left := left - {item};
        var sub := replacement.submissions[item];
        if item == id && sub.attested && sub.status != Minted {
          replacement := replacement.(
            submissions := replacement.submissions[item := sub.(status := Quarantined, quarantineReason := Some(reason))],
            queue := Without(replacement.queue, id));
          break;
        }
        if item == id {
          break;
        }
      }
      var stored := storage.Replace(replacement, false);
      if stored {
        var _ := Restore(storage.document);
      }
    }

    // ----- Adopting a branch ----------------------------------------------------------------------

    method UniteQueues(items: seq<string>) returns (queue: seq<string>)
      ensures queue == Dedup(items)
    {
      queue := [];
      for i := 0 to |items|
        invariant queue == Dedup(items[..i])
      {
        assert items[..i + 1][..i] == items[..i];
        if items[i] !in queue {
          queue := queue + [items[i]];
        }
      }
      assert items[..|items|] == items;
    }

    /** The submission loop of `_merge_local_noncanonical_reorg_state`. */
    method MergeSubmissions(durable: map<string, Submission>, local: map<string, Submission>)
        returns (merged: map<string, Submission>)
      ensures merged == durable + local
    {
      merged := durable;
      var left := local.Keys;
      while left != {}
        invariant left <= local.Keys && merged == durable + (local - left)
        decreases |left|
      {
        var id :| id in left;
        left := left - {id};
        merged := merged[id := local[id]];
      }
    }

    method MergeLocal(durable: Document, local: Document, other: string) returns (merged: Document)
      ensures merged == Merge(durable, local, other)
    {
      var submissions := MergeSubmissions(durable.submissions, local.submissions);
      var queue := UniteQueues(durable.queue + local.queue);
      merged := durable.(submissions := submissions, queue := queue, other := other);
    }

    /** `_candidate_preserves_finality_records` */
    method PreservesRecords(candidate: seq<Block>, records: seq<Proof>) returns (ok: bool)
      ensures ok == CandidatePreserves(candidate, records)
    {
      var targets := BuildTargets(candidate);
      for i := 0 to |records|
        invariant forall k :: 0 <= k < i ==>
                    (records[k].height as int) in targets && targets[records[k].height] == records[k].hash
      {
        if (records[i].height as int) !in targets || targets[records[i].height] != records[i].hash {
          assert records[i] in records;
          return false;
        }
      }
      return true;
    }

    method ReconcileAll(merged: Document, branch: Branch) returns (submissions: map<string, Submission>)
      ensures submissions == map id | id in merged.submissions ::
                               Reconcile(merged.submissions[id], id, id in merged.queue, branch)
    {
      submissions := map[];
      var left := merged.submissions.Keys;
      while left != {}
        invariant left <= merged.submissions.Keys && submissions.Keys == merged.submissions.Keys - left
        invariant forall id :: id in submissions ==>
                    submissions[id] == Reconcile(merged.submissions[id], id, id in merged.queue, branch)
        decreases |left|
      {
        var id :| id in left;
        left := left - {id};
        submissions := submissions[id := Reconcile(merged.submissions[id], id, id in merged.queue, branch)];
      }
    }

    method RequeueAll(queue: seq<string>, branch: Branch) returns (kept: seq<string>)
      ensures kept == Requeue(queue, branch)
    {
      kept := [];
      for i := 0 to |queue|
        invariant Requeue(queue, branch) == kept + Requeue(queue[i..], branch)
      {
        assert queue[i..][1..] == queue[i + 1..];
        RequeueStep(queue[i..], branch, kept);
        if !Mints(branch, queue[i]) && queue[i] !in branch.invalidated {
          kept := kept + [queue[i]];
        }
      }
    }

    method KeepVotesOn(all: seq<Vote>, candidate: seq<Block>) returns (kept: seq<Vote>)
      ensures kept == VotesOn(all, candidate)
    {
      kept := [];
      for i := 0 to |all|
        invariant VotesOn(all, candidate) == kept + VotesOn(all[i..], candidate)
      {
        assert all[i..][1..] == all[i + 1..];
        if OnBranch(all[i], candidate) {
          kept := kept + [all[i]];
        }
      }
    }

    /** `adopt_canonical_chain`: true when a document was stored. */
    method AdoptCanonicalChain(branch: Branch) returns (stored: bool)
      modifies this, storage
      ensures stored == Adopt(old(storage.document), old(State()), branch).Some?
      ensures storage.document == if stored then Adopt(old(storage.document), old(State()), branch).value
                                  else old(storage.document)
      ensures State() == if stored && TransitionOk(old(proofs), storage.document, validProof)
                         then Refreshed(storage.document, old(votes)).(peers := []) else old(State())
    {
      if !branch.preferred {
        return false;
      }
      var durable := storage.document;
      var replacement := MergeLocal(durable, State(), branch.merged);
      if Hashes(durable.chain) != Hashes(branch.chain) {
        if !branch.wins {
          return false;
        }
        var preserved := PreservesRecords(branch.chain, durable.proofs);
        if !preserved {
          return false;
        }
        var submissions' := ReconcileAll(replacement, branch);
        var queue' := RequeueAll(replacement.queue, branch);
        var votes' := KeepVotesOn(replacement.votes, branch.chain);
        replacement := replacement.(chain := branch.chain, submissions := submissions', queue := queue', votes := votes',
                                    other := branch.rebuilt);
      }
      stored := storage.Replace(replacement, true);
      if stored {
        var _ := Restore(storage.document);
      }
    }
  }

  lemma RequeueStep(queue: seq<string>, branch: Branch, kept: seq<string>)
    requires queue != []
    ensures kept + Requeue(queue, branch) ==
            (if Mints(branch, queue[0]) || queue[0] in branch.invalidated then kept else kept + [queue[0]])
              + Requeue(queue[1..], branch)
  {
    var rest := Requeue(queue[1..], branch);
    assert kept + ([queue[0]] + rest) == (kept + [queue[0]]) + rest;
    assert kept + ([] + rest) == kept + rest;
  }

  const STALE_ADMISSION := "invalid_admission_during_commit"

  /** The attempt is no replay and its head is current, so the facade restores the durable document. */
  predicate Reaches(chain: seq<Block>, a: Attempt)
  {
    ResolveReplay(chain, a.request) == Unseen && CurrentHead(chain) == a.expectedHead
  }

  /** What an attempt that restored the durable document leaves in the facade. */
  predicate Reached(state: Document, durable: Document, cachedVotes: seq<Vote>, a: Attempt)
  {
    var minted := MintOutcome(Refreshed(durable, cachedVotes), a);
    state == if minted.Committed? then minted.document else Refreshed(durable, cachedVotes).(peers := [])
  }

  /** The verdict on a restored state, before storage has its say. */
  function MintOutcome(doc: Document, a: Attempt): CommitOutcome
  {
    var id := a.request.submissionId;
    if id !in doc.submissions then Refused(false) else
    var sub := doc.submissions[id];
    if ReportsBlockMint(sub, id, a.verifier) || !a.certificateValid then Refused(sub.attested)
    else if !a.requestUnchanged || sub.status != Queued || a.candidate.None? then Refused(false)
    else if !Extends(doc.chain, a.candidate.value, a.request) then Refused(false)
    else Committed(Minting(doc, id, a.candidate.value))
  }

  /** `Commit` by a facade that holds `cachedVotes`. */
  function CommitVia(durable: Document, cachedVotes: seq<Vote>, a: Attempt): CommitOutcome
  {
    match ResolveReplay(durable.chain, a.request)
    case Conflicting => ConflictingReplay
    case Replayed(_) => AlreadyCommitted
    case Unseen =>
      if CurrentHead(durable.chain) != a.expectedHead then StaleHead else
      match MintOutcome(Refreshed(durable, cachedVotes), a)
      case Committed(replacement) =>
        (match Write(durable, replacement, false)
         case None => Refused(false)
         case Some(doc) => Committed(doc))
      case refused => refused
  }

  lemma MintingIgnoresPeers(doc: Document, a: Attempt)
    ensures MintOutcome(doc.(peers := []), a) == MintOutcome(doc, a)
  {
  }

  /** A facade that has just committed holds what storage holds. */
  lemma CommittedKeepsProofs(durable: Document, cachedVotes: seq<Vote>, a: Attempt)
    requires Sound(durable) && CommitVia(durable, cachedVotes, a).Committed?
    ensures var minted := MintOutcome(Refreshed(durable, cachedVotes), a);
            minted.Committed? && Mirrors(minted.document, CommitVia(durable, cachedVotes, a).document)
  {
    var minted := MintOutcome(Refreshed(durable, cachedVotes), a);
    assert minted.document.proofs == durable.proofs;
    WriteChangesFinalityOnly(durable, minted.document, false);
    SameProofsAreStored(durable, minted.document, false);
  }

  lemma SameProofsAreStored(durable: Document, replacement: Document, reorg: bool)
    requires HeightsIncrease(durable.proofs) && replacement.proofs == durable.proofs
    requires Write(durable, replacement, reorg).Some?
    ensures Write(durable, replacement, reorg).value.proofs == durable.proofs
  {
    var ps := durable.proofs;
    IncreasingProofsCollect(ps);
    forall p | p in ps ensures p.height < |replacement.chain| {
      assert Ancestry(replacement.chain, p.height);
    }
    OwnProofsAreSorted(ps, Collected(ps, ps).value, |replacement.chain|);
  }

  /** Chain, certificates and votes are no concern of an admission. */
  predicate SameFinality(a: Document, b: Document) { a.chain == b.chain && a.proofs == b.proofs && a.votes == b.votes }

  lemma ConclusionKeepsFinality(doc: Document, r: Report, next: seq<Report>, result: TallyResult, v: Verifier)
    requires r.payload.submissionId in doc.submissions
    requires Conclude(doc, r.payload.submissionId, r, next, result, v).Ok?
    ensures SameFinality(Conclude(doc, r.payload.submissionId, r, next, result, v).value.0, doc)
  {
  }

  lemma AdmissionKeepsFinality(doc: Document, r: Report, v: Verifier)
    ensures AdmitReport(doc, r, v).Ok? ==> SameFinality(AdmitReport(doc, r, v).value.0, doc)
  {
    if AdmitReport(doc, r, v).Ok? {
      var reports := doc.submissions[r.payload.submissionId].reports;
      if ScanExisting(reports, r) == Fresh {
        var next := Sort(reports + [r], OrderKey(v.digest));
        ConclusionKeepsFinality(doc, r, next, TallyOf(next, v.digest), v);
      }
    }
  }

  /** A cache that holds a document's certificates accepts the document. */
  lemma OwnDocumentIsAccepted(doc: Document, valid: Proof -> bool)
    requires Sound(doc)
    ensures TransitionOk(doc.proofs, doc, valid)
  {
    ByHeightHolds(doc.proofs);
    UniqueIndices(doc.chain);
    forall p | p in doc.proofs ensures OnTarget(p, Targets(doc.chain)) {
      assert Ancestry(doc.chain, p.height);
      TargetOfPosition(doc.chain, p.height);
    }
  }

  /** A facade never refuses to reload what it has just written. */
  lemma OwnWriteIsAccepted(durable: Document, replacement: Document, valid: Proof -> bool)
    requires Sound(durable) && replacement.proofs == durable.proofs && Write(durable, replacement, false).Some?
    ensures TransitionOk(durable.proofs, Write(durable, replacement, false).value, valid)
  {
    var doc := Write(durable, replacement, false).value;
    WriteIsSound(durable, replacement, false);
    ByHeightHolds(durable.proofs);
    ByHeightHolds(doc.proofs);
    UniqueIndices(doc.chain);
    forall p | p in doc.proofs ensures Trusted(p, ByHeight(durable.proofs), valid) && OnTarget(p, Targets(doc.chain)) {
      CollectedHolds(durable.proofs, replacement.proofs);
      AscendingHolds(Collected(durable.proofs, replacement.proofs).value, |replacement.chain|);
      assert p in durable.proofs;
      TargetOfPosition(doc.chain, p.height);
    }
    forall r | r in durable.proofs
      ensures r.height in ByHeight(doc.proofs) && ByHeight(doc.proofs)[r.height].hash == r.hash
    {
      WriteKeepsFinality(durable, replacement, false, r);
    }
  }

  /** `b` is the verdict `a`, on a document whose votes are `votes`; a duplicate hands back the document it got. */
  ghost predicate SameVerdict(a: Result<(Document, Action), Refusal>, b: Result<(Document, Action), Refusal>,
                              votes: seq<Vote>)
  {
    && (a.Ok? <==> b.Ok?)
    && (a.Ok? ==> a.value.1 == b.value.1)
    && (a.Ok? && a.value.1 != Duplicate ==> b.value.0 == a.value.0.(votes := votes))
  }

  lemma InvisibleToConclusion(doc: Document, votes: seq<Vote>, peers: seq<string>, r: Report, next: seq<Report>,
                              result: TallyResult, v: Verifier)
    requires r.payload.submissionId in doc.submissions
    ensures SameVerdict(Conclude(doc, r.payload.submissionId, r, next, result, v),
                        Conclude(doc.(votes := votes, peers := peers), r.payload.submissionId, r, next, result, v), votes)
  {
  }

  lemma InvisibleToEntry(doc: Document, votes: seq<Vote>, peers: seq<string>, r: Report, v: Verifier)
    ensures Entry(doc, r, v) == Entry(doc.(votes := votes, peers := peers), r, v)
  {
  }

  lemma FreshConcludes(doc: Document, r: Report, next: seq<Report>, result: TallyResult, v: Verifier)
    requires Entry(doc, r, v).None?
    requires ScanExisting(doc.submissions[r.payload.submissionId].reports, r) == Fresh
    requires next == Sort(doc.submissions[r.payload.submissionId].reports + [r], OrderKey(v.digest))
    requires result == TallyOf(next, v.digest)
    ensures AdmitReport(doc, r, v) == Conclude(doc, r.payload.submissionId, r, next, result, v)
  {
  }

  lemma FreshVerdict(doc: Document, votes: seq<Vote>, peers: seq<string>, r: Report, next: seq<Report>, v: Verifier)
    requires Entry(doc, r, v).None? && Entry(doc.(votes := votes, peers := peers), r, v).None?
    requires ScanExisting(doc.submissions[r.payload.submissionId].reports, r) == Fresh
    requires next == Sort(doc.submissions[r.payload.submissionId].reports + [r], OrderKey(v.digest))
    ensures SameVerdict(AdmitReport(doc, r, v), AdmitReport(doc.(votes := votes, peers := peers), r, v), votes)
  {
    var result := TallyOf(next, v.digest);
    FreshConcludes(doc, r, next, result, v);
    FreshConcludes(doc.(votes := votes, peers := peers), r, next, result, v);
    InvisibleToConclusion(doc, votes, peers, r, next, result, v);
  }

  /** Admission never reads the peer section or the finality votes. */
  lemma SectionsAreInvisible(doc: Document, votes: seq<Vote>, peers: seq<string>, r: Report, v: Verifier)
    ensures SameVerdict(AdmitReport(doc, r, v), AdmitReport(doc.(votes := votes, peers := peers), r, v), votes)
  {
    InvisibleToEntry(doc, votes, peers, r, v);
    if Entry(doc, r, v).None? {
      var reports := doc.submissions[r.payload.submissionId].reports;
      if ScanExisting(reports, r) == Fresh {
        FreshVerdict(doc, votes, peers, r, Sort(reports + [r], OrderKey(v.digest)), v);
      }
    }
  }
}
