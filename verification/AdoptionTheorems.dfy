/**
 What adopting a branch does to a submission that stands in quarantine.  The merge runs no stale-report
 guard, so everything depends on what the adopting facade happens to hold.
 */
module AdoptionTheorems {
  import opened Wrappers
  import opened CommunityReport
  import opened Documents
  import opened Finality
  import opened FinalityTheorems
  import opened ReportConvergence
  import opened CommitTheorems
  import opened Adoption

  /** `sub` stands in quarantine with the reports, evidence and reason of `was`. */
  predicate SameStanding(sub: Submission, was: Submission)
  {
    && sub.status == Quarantined && sub.reports == was.reports && sub.evidence == was.evidence
    && sub.quarantineReason == was.quarantineReason
  }

  predicate Held(doc: Document, id: string, was: Submission)
  {
    id in doc.submissions && SameStanding(doc.submissions[id], was) && id !in doc.queue
  }

  lemma ReconcileKeepsStanding(sub: Submission, was: Submission, id: string, queued: bool, branch: Branch)
    ensures SameStanding(Reconcile(sub, id, queued, branch), was) <==> SameStanding(sub, was) && !Mints(branch, id)
  {
  }

  /**
   An adoption keeps a quarantined submission, its reports and its evidence exactly when the adopting facade
   does not hold the submission or holds it in the same standing, and would not put it in the queue or mint it.
   The snapshot is arbitrary.
   */
  lemma AdoptionKeepsQuarantineExactly(durable: Document, local: Document, branch: Branch, id: string)
    requires Adopt(durable, local, branch).Some?
    requires id in durable.submissions && durable.submissions[id].status == Quarantined && id !in durable.queue
    ensures Held(Adopt(durable, local, branch).value, id, durable.submissions[id]) <==>
              && (id in local.submissions ==> SameStanding(local.submissions[id], durable.submissions[id]))
              && (if Hashes(durable.chain) == Hashes(branch.chain) then id !in local.queue
                  else !Mints(branch, id) && (id in local.queue ==> id in branch.invalidated))
  {
    var merged := Merge(durable, local, branch.merged);
    var replacement := Replacement(durable, local, branch).value;
    WriteChangesFinalityOnly(durable, replacement, true);
    assert id in merged.queue <==> id in local.queue;
    if Hashes(durable.chain) != Hashes(branch.chain) {
      ReconcileKeepsStanding(merged.submissions[id], durable.submissions[id], id, id in merged.queue, branch);
    }
  }
}
