/**
 Adopting a winning branch (blockchain.py, `adopt_canonical_chain`): the adopting facade's state is merged
 over the durable document, the document is rebuilt on the branch, and the result is written under the lock.
 */
module Adoption {
  import opened Wrappers
  import opened Documents
  import opened Finality
  import opened FinalityTheorems

  /** `list(dict.fromkeys(items))`: the first occurrence of each. */
  function Dedup(items: seq<string>): (r: seq<string>)
    ensures forall x :: x in r <==> x in items
  {
    if items == [] then [] else
    var front, last := Dedup(items[..|items| - 1]), items[|items| - 1];
    assert items == items[..|items| - 1] + [last];
    if last in front then front else front + [last]
  }

  /**
   `_merge_local_noncanonical_reorg_state`: a submission of the local state replaces the durable one with its
   id, and the mint queues are united.  `other` is the merge of the sections left implicit.
   */
  function Merge(durable: Document, local: Document, other: string): Document
  {
    durable.(submissions := durable.submissions + local.submissions, queue := Dedup(durable.queue + local.queue),
             other := other)
  }

  /**
   A candidate branch, and what fork choice and the certificate records say about it: whether the facade
   prefers it to its own chain and whether it beats the durable one; which of its blocks are of version 1;
   which submissions have a certificate record, which have one the branch invalidates, and how the rest of
   such a submission changes; and the implicit sections after the merge and after the rebuild.
   */
  datatype Branch = Branch(chain: seq<Block>, preferred: bool, wins: bool, versionOne: Block -> bool, certified: set<string>,
                           invalidated: set<string>, uncertify: string -> string, merged: string, rebuilt: string)

  function Hashes(chain: seq<Block>): (hs: seq<string>)
    ensures |hs| == |chain|
  {
    seq(|chain|, i requires 0 <= i < |chain| => chain[i].hash)
  }

  /** The submissions that the branch mints, as `_reconcile_submissions` counts them. */
  predicate Mints(branch: Branch, id: string)
  {
    id != "" && exists b :: b in branch.chain && branch.versionOne(b) && b.body.submissionId == id
  }

  /** `_reconcile_submissions` and then `_invalidate_stale_originality_evidence` on one submission. */
  function Reconcile(sub: Submission, id: string, queued: bool, branch: Branch): Submission
  {
    var settled :=
      if Mints(branch, id) then sub.(status := Minted)
      else if sub.status == Minted && id in branch.certified then sub.(status := if queued then Queued else Approved)
      else sub;
    if id in branch.invalidated && settled.status != Minted then
      settled.(rest := branch.uncertify(settled.rest),
               status := if settled.status == Approved || settled.status == Queued then Pending else settled.status)
    else settled
  }

  function Requeue(queue: seq<string>, branch: Branch): (r: seq<string>)
    ensures forall x :: x in r <==> x in queue && !Mints(branch, x) && x !in branch.invalidated
  {
    if queue == [] then [] else
    (if Mints(branch, queue[0]) || queue[0] in branch.invalidated then [] else [queue[0]]) + Requeue(queue[1..], branch)
  }

  predicate OnBranch(v: Vote, chain: seq<Block>) { exists b :: b in chain && b.body.index == v.height && b.hash == v.hash }

  function VotesOn(votes: seq<Vote>, chain: seq<Block>): (r: seq<Vote>)
    ensures forall v :: v in r ==> v in votes
  {
    if votes == [] then [] else (if OnBranch(votes[0], chain) then [votes[0]] else []) + VotesOn(votes[1..], chain)
  }

  /** `rebuild_document` on the merged document. */
  function Rebuild(merged: Document, branch: Branch): Document
  {
    merged.(chain := branch.chain,
            submissions := map id | id in merged.submissions ::
                             Reconcile(merged.submissions[id], id, id in merged.queue, branch),
            queue := Requeue(merged.queue, branch),
            votes := VotesOn(merged.votes, branch.chain),
            other := branch.rebuilt)
  }

  /** The closure run under the lock; None is any refusal. */
  function Replacement(durable: Document, local: Document, branch: Branch): Option<Document>
  {
    var merged := Merge(durable, local, branch.merged);
    if Hashes(durable.chain) == Hashes(branch.chain) then Some(merged)
    else if !branch.wins || !CandidatePreserves(branch.chain, durable.proofs) then None
    else Some(Rebuild(merged, branch))
  }

  /** What an adoption stores; None when nothing is stored. */
  function Adopt(durable: Document, local: Document, branch: Branch): Option<Document>
  {
    if !branch.preferred then None else
    match Replacement(durable, local, branch)
    case None => None
    case Some(replacement) => Write(durable, replacement, true)
  }
}
