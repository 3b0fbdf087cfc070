/**
 Certified commits: compare-and-swap on the head, at most one block per submission and
 per certificate, idempotent replay.
 */
module CommitTheorems {
  import opened Ordering
  import opened Wrappers
  import opened CommunityReport
  import opened Documents
  import opened Finality
  import opened FinalityTheorems
  import opened ReportAdmission
  import opened ReportConvergence
  import opened NodeSteps

  lemma {:induction false} MatchesMeaning(chain: seq<Block>, q: Request)
    ensures forall b :: b in Matches(chain, q) <==> b in chain && Touches(b, q)
  {
    if chain != [] {
      SplitLast(chain);
      MatchesMeaning(chain[..|chain| - 1], q);
    }
  }

  lemma DistinctClaims(chain: seq<Block>, i: nat, j: nat, q: Request)
    requires UniqueClaims(chain) && i < |chain| && j < |chain| && i != j
    requires Carries(chain[i], q) && q.submissionId != "" && q.certificateId != ""
    ensures !Touches(chain[j], q)
  {
    assert if i < j then !Clash(chain[i], chain[j]) else !Clash(chain[j], chain[i]);
  }

  lemma {:induction false} NoMatches(chain: seq<Block>, q: Request)
    requires forall b :: b in chain ==> !Touches(b, q)
    ensures Matches(chain, q) == []
  {
    if chain != [] {
      NoMatches(chain[..|chain| - 1], q);
    }
  }

  /** With unique claims a block that carries the request is its only match. */
  lemma {:induction false} CarryingBlockIsOnlyMatch(chain: seq<Block>, q: Request, i: nat)
    requires UniqueClaims(chain) && i < |chain| && Carries(chain[i], q) && q.submissionId != "" && q.certificateId != ""
    ensures Matches(chain, q) == [chain[i]]
  {
    var front, n := chain[..|chain| - 1], |chain| - 1;
    if i < n {
      DistinctClaims(chain, i, n, q);
      CarryingBlockIsOnlyMatch(front, q, i);
    } else {
      forall x | x in front ensures !Touches(x, q) {
        var j :| 0 <= j < n && front[j] == x;
        DistinctClaims(chain, i, j, q);
      }
      NoMatches(front, q);
    }
  }

  /**
   A success appends exactly one block, which carries the request, and moves exactly its submission
   from QUEUED to MINTED and out of the queue.
   */
  lemma CommitMintsExactlyOne(durable: Document, a: Attempt)
    requires Commit(durable, a).Committed?
    ensures var after, id := AfterCommit(durable, a), a.request.submissionId;
            && (exists b :: after.chain == durable.chain + [b] && Carries(b, a.request))
            && id in durable.submissions && durable.submissions[id].status == Queued
            && after.submissions == durable.submissions[id := durable.submissions[id].(status := Minted)]
            && (forall x :: x in after.queue <==> x in durable.queue && x != id)
            && CurrentHead(durable.chain) == a.expectedHead
            && Sound(after)
  {
    var replacement := Minting(durable, a.request.submissionId, a.candidate.value);
    WriteChangesFinalityOnly(durable, replacement, false);
    WriteIsSound(durable, replacement, false);
    assert AfterCommit(durable, a).chain == durable.chain + [a.candidate.value];
  }

  /**
   Idempotence: wherever the committed block still stands, the same request resolves to it, whatever
   head the caller expects, and leaves the document alone.
   */
  lemma CommitIsIdempotent(durable: Document, a: Attempt, later: Document, again: Attempt)
    requires Commit(durable, a).Committed? && a.request.submissionId != "" && a.request.certificateId != ""
    requires Sound(later) && a.candidate.value in later.chain && again.request == a.request
    ensures ResolveReplay(later.chain, a.request) == Replayed(a.candidate.value)
    ensures Commit(later, again) == AlreadyCommitted && AfterCommit(later, again) == later
  {
    var i :| 0 <= i < |later.chain| && later.chain[i] == a.candidate.value;
    CarryingBlockIsOnlyMatch(later.chain, a.request, i);
  }

  /** Whoever asks, a submission or certificate already on the chain is never committed again. */
  lemma NoSecondMint(durable: Document, a: Attempt, b: Block)
    requires b in durable.chain && Touches(b, a.request)
    ensures !Commit(durable, a).Committed? && AfterCommit(durable, a) == durable
  {
    MatchesMeaning(durable.chain, a.request);
    assert b in Matches(durable.chain, a.request);
  }

  /** A caller with a stale head that is not a replay changes nothing. */
  lemma StaleHeadChangesNothing(durable: Document, a: Attempt)
    requires CurrentHead(durable.chain) != a.expectedHead
    ensures !Commit(durable, a).Committed? && AfterCommit(durable, a) == durable
  {
  }

  /** Of two attempts prepared on one head, at most the first to take the lock appends a block. */
  lemma OneWinnerPerHead(durable: Document, first: Attempt, second: Attempt)
    requires Commit(durable, first).Committed? && second.expectedHead == first.expectedHead
    ensures AfterCommit(AfterCommit(durable, first), second) == AfterCommit(durable, first)
  {
    var after := AfterCommit(durable, first);
    CommitMintsExactlyOne(durable, first);
    assert CurrentHead(after.chain).height != CurrentHead(durable.chain).height;
    StaleHeadChangesNothing(after, second);
  }

  // ----- The replay rule alone keeps the claims unique --------------------------------------------

  lemma FreshBlockKeepsClaims(chain: seq<Block>, b: Block, q: Request)
    requires UniqueClaims(chain) && ResolveReplay(chain, q) == Unseen && Extends(chain, b, q)
    requires q.submissionId != "" && q.certificateId != ""
    requires forall i :: 0 <= i < |chain| ==> chain[i].body.index == i
    requires forall i :: 0 <= i < |chain| ==> chain[i].hash != b.hash
    ensures UniqueClaims(chain + [b])
  {
    MatchesMeaning(chain, q);
    forall i | 0 <= i < |chain| ensures !Clash(chain[i], b) {
      assert chain[i] !in Matches(chain, q);
    }
    var all := chain + [b];
    forall i, j | 0 <= i < j < |all| ensures !Clash(all[i], all[j]) {
      if j < |chain| { assert !Clash(chain[i], chain[j]); }
    }
  }

  lemma {:induction false} TargetsOfExtension(chain: seq<Block>, b: Block)
    ensures Targets(chain + [b]) == Targets(chain)[b.body.index := b.hash]
  {
    assert (chain + [b])[..|chain|] == chain;
  }

  lemma AppendKeepsAncestry(durable: Document, next: seq<Block>, b: Block, m: map<nat, Proof>)
    requires Sound(durable) && next == durable.chain + [b] && b.body.index == |durable.chain|
    requires forall h :: h in m ==> m[h].height == h && m[h] in durable.proofs
    ensures AncestryKept(durable, next, m)
  {
    var chain := durable.chain;
    TargetsOfExtension(chain, b);
    UniqueIndices(chain);
    forall p | p in durable.proofs ensures Ancestry(next, p.height) && SameSummary(chain, next, p.height) {
      assert Ancestry(chain, p.height);
      assert next[..p.height + 1] == chain[..p.height + 1];
      SameBlocksSameSummary(chain, next, p.height);
    }
    AppendKeepsTargets(durable, next, b, m);
  }

  lemma AppendKeepsTargets(durable: Document, next: seq<Block>, b: Block, m: map<nat, Proof>)
    requires Sound(durable) && next == durable.chain + [b] && b.body.index == |durable.chain|
    requires forall h :: h in m ==> m[h].height == h && m[h] in durable.proofs
    ensures forall h :: h in m ==> (h as int) in Targets(next) && Targets(next)[h] == m[h].hash
  {
    TargetsOfExtension(durable.chain, b);
    UniqueIndices(durable.chain);
    forall h | h in m ensures (h as int) in Targets(next) && Targets(next)[h] == m[h].hash {
      assert Ancestry(durable.chain, h);
      TargetOfPosition(durable.chain, h);
    }
  }

  lemma AppendKeepsVotes(durable: Document, next: seq<Block>, b: Block)
    requires VotesCanonical(durable) && next == durable.chain + [b] && b.body.index == |durable.chain|
    requires forall i :: 0 <= i < |durable.chain| ==> durable.chain[i].body.index == i
    ensures MergedVotes(durable.votes + durable.votes, Targets(next), false) == Some(durable.votes)
  {
    TargetsOfExtension(durable.chain, b);
    forall v | v in durable.votes ensures Targeted(v, Targets(next)) {
      TargetsHavePositions(durable.chain, v.height);
    }
    RepeatedVotesMerge(durable.votes, durable.votes, Targets(next));
  }

  /** Appending past every certified height disturbs no certificate. */
  lemma AppendPreservesFinality(durable: Document, replacement: Document, b: Block)
    requires Sound(durable) && VotesCanonical(durable)
    requires replacement.chain == durable.chain + [b] && replacement.proofs == durable.proofs
    requires replacement.votes == durable.votes
    requires forall i :: 0 <= i < |durable.chain| ==> durable.chain[i].body.index == i
    requires b.body.index == |durable.chain| && UniqueClaims(replacement.chain)
    ensures Write(durable, replacement, false) == Some(replacement)
  {
    var ps, next := durable.proofs, replacement.chain;
    IncreasingProofsCollect(ps);
    var m := Collected(ps, ps).value;
    AppendKeepsAncestry(durable, next, b, m);
    AppendKeepsVotes(durable, next, b);
    SoundProofsAreBelowTip(durable);
    OwnProofsAreSorted(ps, m, |next|);
  }

  /**
   The storage guards never fire on a certified commit: a queued submission with valid admission, no
   report threshold, and a fresh candidate on the expected head is committed, exactly.
   */
  lemma CommitSucceedsExactly(durable: Document, a: Attempt)
    requires Sound(durable) && VotesCanonical(durable)
    requires forall i :: 0 <= i < |durable.chain| ==> durable.chain[i].body.index == i
    requires a.request.submissionId != "" && a.request.certificateId != ""
    requires a.candidate.Some? ==> forall i :: 0 <= i < |durable.chain| ==> durable.chain[i].hash != a.candidate.value.hash
    ensures Commit(durable, a).Committed? <==>
              && (forall b :: b in durable.chain ==> !Touches(b, a.request))
              && CurrentHead(durable.chain) == a.expectedHead
              && a.request.submissionId in durable.submissions
              && durable.submissions[a.request.submissionId].status == Queued
              && !ReportsBlockMint(durable.submissions[a.request.submissionId], a.request.submissionId, a.verifier)
              && a.certificateValid && a.requestUnchanged
              && a.candidate.Some? && Extends(durable.chain, a.candidate.value, a.request)
  {
    UnseenExactlyWhenUntouched(durable.chain, a.request);
    if Ready(durable, a) {
      var b := a.candidate.value;
      FreshBlockKeepsClaims(durable.chain, b, a.request);
      AppendPreservesFinality(durable, Minting(durable, a.request.submissionId, b), b);
    }
  }

  ghost predicate Ready(durable: Document, a: Attempt)
  {
    && ResolveReplay(durable.chain, a.request) == Unseen
    && a.request.submissionId in durable.submissions
    && a.candidate.Some? && Extends(durable.chain, a.candidate.value, a.request)
  }

  lemma UnseenExactlyWhenUntouched(chain: seq<Block>, q: Request)
    ensures ResolveReplay(chain, q) == Unseen <==> forall b :: b in chain ==> !Touches(b, q)
  {
    MatchesMeaning(chain, q);
    if Matches(chain, q) != [] {
      assert Matches(chain, q)[0] in Matches(chain, q);
    }
  }
}
