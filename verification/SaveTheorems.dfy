/**
 What a whole-state save can and cannot do.  The saving facade's snapshot is arbitrary:
 stale, edited, or invented.
 */
module SaveTheorems {
  import opened Ordering
  import opened Wrappers
  import opened CommunityReport
  import opened Documents
  import opened Finality
  import opened FinalityTheorems
  import opened ReportAdmission
  import opened ReportConvergence
  import opened NodeSteps

  function ReportsIn(doc: Document, id: string): seq<Report>
  {
    if id in doc.submissions then doc.submissions[id].reports else []
  }

  /** No save changes the stored reports of any submission, forges reports, or touches a dispute or a peer record. */
  lemma SaveKeepsEvidence(durable: Document, local: Document)
    requires Save(durable, local).Some?
    ensures var saved := Save(durable, local).value;
            && saved.disputes == durable.disputes && saved.peers == durable.peers
            && (forall id :: ReportsIn(saved, id) == ReportsIn(durable, id))
            && (forall id :: id in durable.submissions && durable.submissions[id].reports != [] ==>
                  id in saved.submissions && saved.submissions[id].evidence == durable.submissions[id].evidence)
  {
    var saved := Save(durable, local).value;
    WriteChangesFinalityOnly(durable, SaveReplacement(durable, local), false);
    forall id ensures ReportsIn(saved, id) == ReportsIn(durable, id) {
      if id in local.submissions.Keys + durable.submissions.Keys {
        assert !StaleFor(Find(local, id), Find(durable, id), id in local.queue);
      }
    }
    forall id | id in durable.submissions && durable.submissions[id].reports != []
      ensures id in saved.submissions && saved.submissions[id].evidence == durable.submissions[id].evidence
    {
      assert id in local.submissions.Keys + durable.submissions.Keys;
      assert !StaleFor(Find(local, id), Find(durable, id), id in local.queue);
    }
  }

  /** A submission standing under the threshold reason keeps its status and reason and stays out of the queue. */
  lemma SaveKeepsThresholdQuarantine(durable: Document, local: Document, id: string)
    requires Save(durable, local).Some? && ThresholdReason(Find(durable, id))
    ensures var saved := Save(durable, local).value;
            && id in saved.submissions && id !in saved.queue
            && saved.submissions[id].status == durable.submissions[id].status
            && saved.submissions[id].quarantineReason == durable.submissions[id].quarantineReason
  {
    WriteChangesFinalityOnly(durable, SaveReplacement(durable, local), false);
    assert id in local.submissions.Keys + durable.submissions.Keys;
    assert !StaleFor(Find(local, id), Find(durable, id), id in local.queue);
  }

  /** Nothing under the threshold reason is queued: kept by every writer of the protocol. */
  ghost predicate QuarantinedUnqueued(doc: Document)
  {
    forall id :: id in doc.submissions && ThresholdReason(Find(doc, id)) ==> id !in doc.queue
  }

  ghost predicate StaysQuarantined(durable: Document, id: string)
  {
    forall local :: Save(durable, local).Some? ==>
      var saved := Save(durable, local).value;
      id in saved.submissions && saved.submissions[id].status == Quarantined && id !in saved.queue
  }

  /** A snapshot that differs from the durable document only in having `id` queued again. */
  ghost function Requeued(durable: Document, id: string): Document
    requires id in durable.submissions
  {
    durable.(submissions := durable.submissions[id := durable.submissions[id].(status := Queued)],
             queue := durable.queue + [id])
  }

  /** Once another reason has replaced the threshold reason, that snapshot is saved. */
  lemma OtherReasonCanBeRequeued(durable: Document, id: string)
    requires Sound(durable) && VotesCanonical(durable) && QuarantinedUnqueued(durable)
    requires id in durable.submissions && !ThresholdReason(Find(durable, id))
    ensures Save(durable, Requeued(durable, id)) == Some(Requeued(durable, id))
  {
    var local := Requeued(durable, id);
    forall other | other in local.submissions.Keys + durable.submissions.Keys
      ensures !StaleFor(Find(local, other), Find(durable, other), other in local.queue)
    {
      if other != id {
        assert other in local.queue <==> other in durable.queue;
      }
    }
    UntouchedChainIsStored(durable, local);
    assert SaveReplacement(durable, local) == local;
  }

  /**
   Exactly when does the save guard hold a quarantined submission in quarantine against every snapshot?
   Exactly when its recorded reason is still the report threshold.
   */
  lemma GuardHoldsExactlyUnderThresholdReason(durable: Document, id: string)
    requires Sound(durable) && VotesCanonical(durable) && QuarantinedUnqueued(durable)
    requires id in durable.submissions && durable.submissions[id].status == Quarantined
    ensures StaysQuarantined(durable, id) <==> durable.submissions[id].quarantineReason == Some(REPORT_THRESHOLD)
  {
    if ThresholdReason(Find(durable, id)) {
      forall local | Save(durable, local).Some?
        ensures var saved := Save(durable, local).value;
                id in saved.submissions && saved.submissions[id].status == Quarantined && id !in saved.queue
      {
        SaveKeepsThresholdQuarantine(durable, local, id);
      }
    } else {
      OtherReasonCanBeRequeued(durable, id);
      assert Save(durable, Requeued(durable, id)).Some?;
    }
  }

  lemma StaleSubmission(doc: Document, id: string, reason: string)
    requires id in doc.submissions && doc.submissions[id].attested && doc.submissions[id].status != Minted
    ensures var after := QuarantineStale(doc, id, reason);
            && id in after.submissions && after.chain == doc.chain
            && after.submissions[id] == doc.submissions[id].(status := Quarantined, quarantineReason := Some(reason))
  {
  }

  lemma OtherQuarantineRefuses(doc: Document, id: string, r: Report, v: Verifier)
    requires id in doc.submissions && doc.submissions[id].attested && doc.submissions[id].status == Quarantined
    requires !ThresholdReason(Find(doc, id)) && !OnChain(doc.chain, id) && r.payload.submissionId == id
    ensures AdmitReport(doc, r, v) == Err(QuarantinedOtherwise) && Deliver(doc, r, v) == doc
  {
  }

  lemma OtherQuarantineReconciles(sub: Submission, reason: string, id: string, v: Verifier, result: TallyResult)
    requires reason != REPORT_THRESHOLD && sub.status != Minted && result == TallyOf(sub.reports, v.digest)
    ensures StatusConsistent(sub.(status := Quarantined, quarantineReason := Some(reason)), id, v) <==>
              AllVerified(sub.reports, id, sub.contentHash, v) && result.Counted? && !result.tally.met
  {
  }

  /**
   What the stale-queue step does to a submission that reports have put over the threshold.  Its reason is no
   longer theirs: no further report is admitted, and the status of the reports cannot be read any more.
   */
  lemma StaleQueueStepClosesReports(doc: Document, id: string, reason: string, r: Report, v: Verifier)
    requires id in doc.submissions && doc.submissions[id].attested && doc.submissions[id].status != Minted
    requires !OnChain(doc.chain, id) && reason != REPORT_THRESHOLD && r.payload.submissionId == id
    ensures var after := QuarantineStale(doc, id, reason);
            && AdmitReport(after, r, v) == Err(QuarantinedOtherwise) && Deliver(after, r, v) == after
            && (StatusConsistent(after.submissions[id], id, v) <==>
                  AllVerified(doc.submissions[id].reports, id, doc.submissions[id].contentHash, v) &&
                  TallyOf(doc.submissions[id].reports, v.digest).Counted? &&
                  !TallyOf(doc.submissions[id].reports, v.digest).tally.met)
  {
    var sub, after := doc.submissions[id], QuarantineStale(doc, id, reason);
    StaleSubmission(doc, id, reason);
    OtherQuarantineRefuses(after, id, r, v);
    OtherQuarantineReconciles(sub, reason, id, v, TallyOf(sub.reports, v.digest));
  }
}
