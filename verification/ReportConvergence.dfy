/**
 Report convergence: a reviewable submission ends in the same state whatever the order
 and repetition in which the same set of reports is delivered to it.
 */
module ReportConvergence {
  import opened Ordering
  import opened Wrappers
  import opened CommunityReport
  import opened ReportTallyTheorems
  import opened Documents
  import opened Finality
  import opened FinalityTheorems
  import opened ReportAdmission

  /** The two hashes are collision free, so a signed identity belongs to one payload. */
  ghost predicate Faithful(v: Verifier)
  {
    && CollisionFree(v.digest)
    && forall p, s, q, t :: v.identify(p, s) == v.identify(q, t) ==> p == q && s == t
  }

  /** The guarded write of an admission verdict; a refusal changes nothing. */
  function StoreVerdict(doc: Document, verdict: Result<(Document, Action), Refusal>): Document
  {
    if verdict.Err? then doc else
    var written := Write(doc, verdict.value.0, false);
    if written.Some? then written.value else doc
  }

  /** One delivery under the document lock. */
  function Deliver(doc: Document, r: Report, v: Verifier): Document
  {
    StoreVerdict(doc, AdmitReport(doc, r, v))
  }

  function DeliverAll(doc: Document, rs: seq<Report>, v: Verifier): Document
  {
    if rs == [] then doc else Deliver(DeliverAll(doc, rs[..|rs| - 1], v), rs[|rs| - 1], v)
  }

  /** A current, attested, unminted submission that nobody has reported yet. */
  ghost predicate Reviewable(doc: Document, id: string)
  {
    && id in doc.submissions && !OnChain(doc.chain, id)
    && var sub := doc.submissions[id];
       && sub.attested && sub.reports == []
       && (sub.status == Pending || sub.status == Approved || sub.status == Queued)
  }

  /** The records this submission must accept, by properties no delivery changes. */
  ghost predicate Acceptable(sub: Submission, id: string, r: Report, v: Verifier)
  {
    Verified(r, id, sub.contentHash, v) && r.Wallet() != sub.submitter
  }

  ghost function AcceptableIn(sub: Submission, id: string, rs: seq<Report>, v: Verifier): set<Report>
  {
    set r | r in rs && Acceptable(sub, id, r, v)
  }

  /** Where `id` stands once exactly the records of `seen` have been accepted, `t` being their tally. */
  ghost predicate Shape(start: Document, doc: Document, id: string, seen: set<Report>, t: Tally, digest: Digest)
    requires id in start.submissions
  {
    && id in doc.submissions && doc.chain == start.chain
    && var sub := doc.submissions[id];
       && StrictlySorted(sub.reports, OrderKey(digest))
       && (forall r :: r in sub.reports <==> r in seen)
       && sub == Settle(start.submissions[id], sub.reports, t)
       && (id in doc.queue <==> id in start.queue && !t.met)
  }

  ghost predicate Standing(start: Document, doc: Document, id: string, seen: set<Report>, t: Tally, v: Verifier)
    requires id in start.submissions
  {
    && Shape(start, doc, id, seen, t, v.digest)
    && TallyOf(doc.submissions[id].reports, v.digest) == Counted(t)
  }

  // ----- The guarded write lets every admission through --------------------------------

  ghost predicate CanonicalVotes(vs: seq<Vote>, targets: map<int, string>)
  {
    && (forall i, j :: 0 <= i < j < |vs| ==> vs[i].message != vs[j].message)
    && (forall v :: v in vs ==> Targeted(v, targets))
  }

  ghost predicate VotesCanonical(doc: Document) { CanonicalVotes(doc.votes, Targets(doc.chain)) }

  lemma {:induction false} RepeatedVotesMerge(vs: seq<Vote>, more: seq<Vote>, targets: map<int, string>)
    requires forall i, j :: 0 <= i < j < |vs| ==> vs[i].message != vs[j].message
    requires forall v :: v in vs ==> Targeted(v, targets)
    requires forall v :: v in more ==> v in vs
    ensures MergedVotes(vs + more, targets, false) == Some(vs)
    decreases |vs| + |more|
  {
    if more != [] {
      var front, last := more[..|more| - 1], more[|more| - 1];
      SplitLast(more);
      Reassociate(vs, front, last);
      RepeatedVotesMerge(vs, front, targets);
      RepeatIsRecorded(vs, vs + front, last, targets);
    } else if vs != [] {
      var front, last := vs[..|vs| - 1], vs[|vs| - 1];
      SplitLast(vs);
      assert vs + more == vs && front + [] == front;
      RepeatedVotesMerge(front, [], targets);
      assert forall k :: k in front ==> k.message != last.message;
    }
  }

  lemma Reassociate(vs: seq<Vote>, front: seq<Vote>, last: Vote)
    ensures vs + (front + [last]) == (vs + front) + [last]
  {
  }

  lemma RepeatIsRecorded(vs: seq<Vote>, merged: seq<Vote>, last: Vote, targets: map<int, string>)
    requires forall i, j :: 0 <= i < j < |vs| ==> vs[i].message != vs[j].message
    requires last in vs && Targeted(last, targets) && MergedVotes(merged, targets, false) == Some(vs)
    ensures MergedVotes(merged + [last], targets, false) == Some(vs)
  {
    assert (merged + [last])[..|merged|] == merged;
    var i :| 0 <= i < |vs| && vs[i] == last;
  }

  lemma {:induction false} MergedVotesCanonical(vs: seq<Vote>, targets: map<int, string>, reorg: bool)
    requires MergedVotes(vs, targets, reorg).Some?
    ensures var kept := MergedVotes(vs, targets, reorg).value;
            && (forall i, j :: 0 <= i < j < |kept| ==> kept[i].message != kept[j].message)
            && (forall v :: v in kept ==> Targeted(v, targets))
  {
    if vs != [] {
      MergedVotesCanonical(vs[..|vs| - 1], targets, reorg);
    }
  }

  lemma WriteKeepsVotesCanonical(durable: Document, replacement: Document, reorg: bool)
    requires Write(durable, replacement, reorg).Some?
    ensures VotesCanonical(Write(durable, replacement, reorg).value)
  {
    MergedVotesCanonical(durable.votes + replacement.votes, Targets(replacement.chain), reorg);
  }

  lemma {:induction false} IncreasingProofsCollect(ps: seq<Proof>)
    requires HeightsIncrease(ps)
    ensures Collected(ps, ps).Some?
    ensures forall p :: p in ps ==> p.height in Collected(ps, ps).value && Collected(ps, ps).value[p.height] == p
    ensures forall h :: h in Collected(ps, ps).value ==> Collected(ps, ps).value[h].height == h && Collected(ps, ps).value[h] in ps
  {
    IncreasingCollects(ps);
    DurableProofsHolds(ps);
    IncomingAgrees(DurableProofs(ps).value, ps);
  }

  lemma {:induction false} IncreasingUnique(a: seq<Proof>, b: seq<Proof>)
    requires HeightsIncrease(a) && HeightsIncrease(b) && |a| == |b|
    requires forall p :: p in a <==> p in b
    ensures a == b
  {
    if a != [] {
      LastIncreasing(a, b);
      var fa, fb := a[..|a| - 1], b[..|b| - 1];
      forall p ensures p in fa <==> p in fb { FrontMembers(a, p); FrontMembers(b, p); }
      IncreasingUnique(fa, fb);
      Rejoin(a, b);
    }
  }

  lemma LastIncreasing(a: seq<Proof>, b: seq<Proof>)
    requires HeightsIncrease(a) && HeightsIncrease(b) && |a| == |b| > 0
    requires forall p :: p in a <==> p in b
    ensures a[|a| - 1] == b[|b| - 1]
  {
    assert a[|a| - 1] in b && b[|b| - 1] in a;
  }

  lemma SameIncreasing(a: seq<Proof>, b: seq<Proof>)
    requires HeightsIncrease(a) && HeightsIncrease(b)
    requires forall p :: p in a <==> p in b
    ensures a == b
  {
    DistinctSameMembers(a, b);
    assert |multiset(a)| == |a| && |multiset(b)| == |b|;
    IncreasingUnique(a, b);
  }

  lemma FrontMembers(a: seq<Proof>, p: Proof)
    requires HeightsIncrease(a) && a != []
    ensures p in a[..|a| - 1] <==> p in a && p != a[|a| - 1]
  {
    if p in a && p != a[|a| - 1] {
      var i :| 0 <= i < |a| && a[i] == p;
      assert a[..|a| - 1][i] == p;
    }
  }

  /** A replacement that leaves chain, certificates and votes alone is stored exactly as proposed. */
  lemma UntouchedChainIsStored(durable: Document, replacement: Document)
    requires Sound(durable) && VotesCanonical(durable)
    requires replacement.chain == durable.chain && replacement.proofs == durable.proofs
    requires replacement.votes == durable.votes
    ensures Write(durable, replacement, false) == Some(replacement)
  {
    RepeatedVotesMerge(durable.votes, durable.votes, Targets(durable.chain));
    KeptChainIsStored(durable, replacement);
  }

  lemma OwnAncestryIsKept(doc: Document, m: map<nat, Proof>)
    requires Sound(doc) && forall h :: h in m ==> m[h].height == h && m[h] in doc.proofs
    ensures AncestryKept(doc, doc.chain, m)
  {
    UniqueIndices(doc.chain);
    forall p | p in doc.proofs ensures SameSummary(doc.chain, doc.chain, p.height) {
      assert Ancestry(doc.chain, p.height);
    }
    forall h | h in m
      ensures Ancestry(doc.chain, h) && (h as int) in Targets(doc.chain) && Targets(doc.chain)[h] == m[h].hash
    {
      assert m[h] in doc.proofs;
      TargetOfPosition(doc.chain, h);
    }
  }

  lemma OwnProofsAreSorted(ps: seq<Proof>, m: map<nat, Proof>, n: nat)
    requires HeightsIncrease(ps) && Collected(ps, ps) == Some(m) && forall p :: p in ps ==> p.height < n
    ensures Ascending(m, n) == ps
  {
    IncreasingProofsCollect(ps);
    AscendingHolds(m, n);
    forall p ensures p in Ascending(m, n) <==> p in ps {}
    SameIncreasing(Ascending(m, n), ps);
  }

  lemma SoundProofsAreBelowTip(doc: Document)
    requires Sound(doc)
    ensures forall p :: p in doc.proofs ==> p.height < |doc.chain|
  {
    forall p | p in doc.proofs ensures p.height < |doc.chain| {
      assert Ancestry(doc.chain, p.height);
    }
  }

  /** So is one whose votes are what the merge makes of them. */
  lemma KeptChainIsStored(durable: Document, replacement: Document)
    requires Sound(durable)
    requires replacement.chain == durable.chain && replacement.proofs == durable.proofs
    requires MergedVotes(durable.votes + replacement.votes, Targets(durable.chain), false) == Some(replacement.votes)
    ensures Write(durable, replacement, false) == Some(replacement)
  {
    IncreasingProofsCollect(durable.proofs);
    var m := Collected(durable.proofs, durable.proofs).value;
    OwnAncestryIsKept(durable, m);
    SoundProofsAreBelowTip(durable);
    OwnProofsAreSorted(durable.proofs, m, |durable.chain|);
  }

  // ----- One delivery ------------------------------------------------------------------------

  lemma DistinctRecordsDistinctFingerprints(rs: seq<Report>, digest: Digest)
    requires CollisionFree(digest) && forall i, j :: 0 <= i < j < |rs| ==> rs[i] != rs[j]
    ensures DistinctFingerprints(rs, digest)
  {
  }

  lemma SortedDistinctIsStrict(rs: seq<Report>, digest: Digest)
    requires Sorted(rs, OrderKey(digest)) && DistinctFingerprints(rs, digest)
    ensures StrictlySorted(rs, OrderKey(digest))
  {
    var key := OrderKey(digest);
    forall i, j | 0 <= i < j < |rs| ensures KeyLess(key(rs[i]), key(rs[j])) {
      assert key(rs[i])[2] == digest(rs[i]) && key(rs[j])[2] == digest(rs[j]);
    }
  }

  lemma FreshListIsStrict(reports: seq<Report>, r: Report, digest: Digest)
    requires CollisionFree(digest) && StrictlySorted(reports, OrderKey(digest)) && r !in reports
    ensures var next := Sort(reports + [r], OrderKey(digest));
            && StrictlySorted(next, OrderKey(digest))
            && (forall x :: x in next <==> x in reports || x == r)
            && TallyOf(next, digest).Counted?
  {
    var all := reports + [r];
    var next := Sort(all, OrderKey(digest));
    StrictIsSorted(reports, OrderKey(digest));
    SortSorts(all, OrderKey(digest));
    DistinctRecordsDistinctFingerprints(all, digest);
    DistinctnessIsOrderFree(all, next, digest);
    SortedDistinctIsStrict(next, digest);
    TallyRaisesExactlyOnDuplicates(next, digest);
  }

  lemma EntryPasses(start: Document, doc: Document, id: string, seen: set<Report>, t: Tally, r: Report, v: Verifier)
    requires Reviewable(start, id) && Shape(start, doc, id, seen, t, v.digest)
    requires r.payload.submissionId == id
    ensures Entry(doc, r, v).None? <==> Acceptable(start.submissions[id], id, r, v)
  {
  }

  lemma VerdictIsStored(doc: Document, replacement: Document, action: Action)
    requires Sound(doc) && VotesCanonical(doc)
    requires replacement.chain == doc.chain && replacement.proofs == doc.proofs && replacement.votes == doc.votes
    ensures StoreVerdict(doc, Ok((replacement, action))) == replacement
  {
    UntouchedChainIsStored(doc, replacement);
  }

  lemma SeenAgain(doc: Document, r: Report, v: Verifier)
    requires Sound(doc) && VotesCanonical(doc) && Entry(doc, r, v).None?
    requires ScanExisting(doc.submissions[r.payload.submissionId].reports, r) == Seen
    ensures Deliver(doc, r, v) == doc
  {
    VerdictIsStored(doc, doc, Duplicate);
  }

  lemma FreshAdmission(doc: Document, id: string, r: Report, next: seq<Report>, t: Tally, v: Verifier)
    requires Entry(doc, r, v).None? && id == r.payload.submissionId
    requires ScanExisting(doc.submissions[id].reports, r) == Fresh
    requires next == Sort(doc.submissions[id].reports + [r], OrderKey(v.digest))
    requires TallyOf(next, v.digest) == Counted(t)
    ensures AdmitReport(doc, r, v) == Conclude(doc, id, r, next, Counted(t), v)
  {
  }

  lemma ConclusionIsStored(doc: Document, id: string, r: Report, next: seq<Report>, result: TallyResult, v: Verifier)
    requires Sound(doc) && VotesCanonical(doc) && id in doc.submissions
    requires Conclude(doc, id, r, next, result, v).Ok?
    ensures StoreVerdict(doc, Conclude(doc, id, r, next, result, v)) == Conclude(doc, id, r, next, result, v).value.0
  {
    var verdict := Conclude(doc, id, r, next, result, v).value;
    VerdictIsStored(doc, verdict.0, verdict.1);
  }

  lemma FreshDelivered(doc: Document, id: string, r: Report, next: seq<Report>, t: Tally, v: Verifier, after: Document)
    requires Sound(doc) && VotesCanonical(doc) && Entry(doc, r, v).None? && id == r.payload.submissionId
    requires ScanExisting(doc.submissions[id].reports, r) == Fresh
    requires next == Sort(doc.submissions[id].reports + [r], OrderKey(v.digest)) && TallyOf(next, v.digest) == Counted(t)
    requires Conclude(doc, id, r, next, Counted(t), v).Ok? && Conclude(doc, id, r, next, Counted(t), v).value.0 == after
    ensures Deliver(doc, r, v) == after
  {
    FreshAdmission(doc, id, r, next, t, v);
    ConclusionIsStored(doc, id, r, next, Counted(t), v);
  }

  lemma ConcludedShape(start: Document, doc: Document, id: string, seen: set<Report>, t: Tally,
                       r: Report, next: seq<Report>, u: Tally, v: Verifier) returns (after: Document)
    requires Reviewable(start, id) && Shape(start, doc, id, seen, t, v.digest)
    requires forall x :: x in seen + {r} ==> Acceptable(start.submissions[id], id, x, v)
    requires StrictlySorted(next, OrderKey(v.digest)) && forall x :: x in next <==> x in seen + {r}
    requires t.met ==> u.met
    ensures Conclude(doc, id, r, next, Counted(u), v).Ok? && Conclude(doc, id, r, next, Counted(u), v).value.0 == after
    ensures Shape(start, after, id, seen + {r}, u, v.digest)
    ensures after.submissions[id].reports == next
  {
    after := Conclude(doc, id, r, next, Counted(u), v).value.0;
  }

  lemma NextTally(reports: seq<Report>, r: Report, t: Tally, digest: Digest) returns (next: seq<Report>, u: Tally)
    requires CollisionFree(digest) && StrictlySorted(reports, OrderKey(digest)) && r !in reports
    requires TallyOf(reports, digest) == Counted(t)
    ensures next == Sort(reports + [r], OrderKey(digest)) && TallyOf(next, digest) == Counted(u)
    ensures StrictlySorted(next, OrderKey(digest)) && (forall x :: x in next <==> x in reports || x == r)
    ensures t.met ==> u.met
  {
    next := Sort(reports + [r], OrderKey(digest));
    FreshListIsStrict(reports, r, digest);
    u := TallyOf(next, digest).tally;
    EvidenceOnlyAccumulates(reports, next, digest, t, u);
  }

  lemma ScanOfAcceptable(initial: Submission, id: string, reports: seq<Report>, r: Report, v: Verifier)
    requires Faithful(v) && Acceptable(initial, id, r, v)
    requires forall x :: x in reports ==> Acceptable(initial, id, x, v)
    ensures ScanExisting(reports, r) == if r in reports then Seen else Fresh
  {
    ScanMeaning(reports, r);
  }

  lemma EntersAs(start: Document, doc: Document, id: string, seen: set<Report>, t: Tally, r: Report, v: Verifier)
    requires Faithful(v) && Reviewable(start, id) && Shape(start, doc, id, seen, t, v.digest)
    requires forall x :: x in seen ==> Acceptable(start.submissions[id], id, x, v)
    requires Acceptable(start.submissions[id], id, r, v)
    ensures Entry(doc, r, v).None?
    ensures ScanExisting(doc.submissions[id].reports, r) == if r in seen then Seen else Fresh
    ensures id == r.payload.submissionId
  {
    EntryPasses(start, doc, id, seen, t, r, v);
    ScanOfAcceptable(start.submissions[id], id, doc.submissions[id].reports, r, v);
  }

  lemma FreshConclusion(start: Document, doc: Document, id: string, seen: set<Report>, t: Tally, r: Report,
                        next: seq<Report>, u: Tally, v: Verifier) returns (after: Document)
    requires Reviewable(start, id) && Shape(start, doc, id, seen, t, v.digest)
    requires Sound(doc) && VotesCanonical(doc)
    requires Entry(doc, r, v).None? && id == r.payload.submissionId
    requires ScanExisting(doc.submissions[id].reports, r) == Fresh
    requires forall x :: x in seen + {r} ==> Acceptable(start.submissions[id], id, x, v)
    requires next == Sort(doc.submissions[id].reports + [r], OrderKey(v.digest)) && TallyOf(next, v.digest) == Counted(u)
    requires StrictlySorted(next, OrderKey(v.digest)) && forall x :: x in next <==> x in seen + {r}
    requires t.met ==> u.met
    ensures Deliver(doc, r, v) == after
    ensures Shape(start, after, id, seen + {r}, u, v.digest) && after.submissions[id].reports == next
  {
    after := ConcludedShape(start, doc, id, seen, t, r, next, u, v);
    FreshDelivered(doc, id, r, next, u, v, after);
  }

  lemma FreshDelivery(start: Document, doc: Document, id: string, seen: set<Report>, t: Tally, r: Report, v: Verifier)
      returns (u: Tally)
    requires Faithful(v) && Reviewable(start, id) && Standing(start, doc, id, seen, t, v)
    requires Sound(doc) && VotesCanonical(doc)
    requires forall x :: x in seen ==> Acceptable(start.submissions[id], id, x, v)
    requires Acceptable(start.submissions[id], id, r, v) && r !in seen
    ensures Standing(start, Deliver(doc, r, v), id, seen + {r}, u, v)
  {
    EntersAs(start, doc, id, seen, t, r, v);
    u := FreshStanding(start, doc, id, seen, t, r, v);
  }

  lemma FreshStanding(start: Document, doc: Document, id: string, seen: set<Report>, t: Tally, r: Report, v: Verifier)
      returns (u: Tally)
    requires CollisionFree(v.digest) && Reviewable(start, id) && Standing(start, doc, id, seen, t, v)
    requires Sound(doc) && VotesCanonical(doc)
    requires Entry(doc, r, v).None? && id == r.payload.submissionId && r !in seen
    requires ScanExisting(doc.submissions[id].reports, r) == Fresh
    requires forall x :: x in seen || x == r ==> Acceptable(start.submissions[id], id, x, v)
    ensures Standing(start, Deliver(doc, r, v), id, seen + {r}, u, v)
  {
    var next;
    next, u := NextTally(doc.submissions[id].reports, r, t, v.digest);
    var _ := FreshConclusion(start, doc, id, seen, t, r, next, u, v);
  }

  lemma RepeatDelivery(start: Document, doc: Document, id: string, seen: set<Report>, t: Tally, r: Report, v: Verifier)
    requires Faithful(v) && Reviewable(start, id) && Shape(start, doc, id, seen, t, v.digest)
    requires Sound(doc) && VotesCanonical(doc)
    requires forall x :: x in seen ==> Acceptable(start.submissions[id], id, x, v)
    requires r in seen
    ensures Deliver(doc, r, v) == doc && seen + {r} == seen
  {
    EntersAs(start, doc, id, seen, t, r, v);
    SeenAgain(doc, r, v);
  }

  /** The heart of convergence: an acceptable record moves the standing by exactly itself. */
  lemma AcceptableDelivery(start: Document, doc: Document, id: string, seen: set<Report>, t: Tally, r: Report, v: Verifier)
      returns (u: Tally)
    requires Faithful(v) && Reviewable(start, id) && Standing(start, doc, id, seen, t, v)
    requires Sound(doc) && VotesCanonical(doc)
    requires forall x :: x in seen ==> Acceptable(start.submissions[id], id, x, v)
    requires Acceptable(start.submissions[id], id, r, v)
    ensures Standing(start, Deliver(doc, r, v), id, seen + {r}, u, v)
  {
    if r in seen {
      RepeatDelivery(start, doc, id, seen, t, r, v);
      u := t;
    } else {
      u := FreshDelivery(start, doc, id, seen, t, r, v);
    }
  }

  /** A record for another submission, or one that must be refused, leaves the standing alone. */
  lemma OtherDelivery(start: Document, doc: Document, id: string, seen: set<Report>, t: Tally, r: Report, v: Verifier)
    requires Reviewable(start, id) && Standing(start, doc, id, seen, t, v)
    requires !Acceptable(start.submissions[id], id, r, v)
    ensures Standing(start, Deliver(doc, r, v), id, seen, t, v)
  {
    if r.payload.submissionId == id {
      EntryPasses(start, doc, id, seen, t, r, v);
    } else {
      UnrelatedDelivery(doc, id, r, v);
    }
  }

  /** Two documents agree on everything a report for `id` can see or change. */
  ghost predicate SameFor(a: Document, b: Document, id: string)
  {
    && a.chain == b.chain
    && (id in a.submissions <==> id in b.submissions)
    && (id in a.submissions ==> a.submissions[id] == b.submissions[id])
    && (id in a.queue <==> id in b.queue)
  }

  lemma UnrelatedAdmission(doc: Document, id: string, r: Report, v: Verifier)
    requires r.payload.submissionId != id && AdmitReport(doc, r, v).Ok?
    ensures SameFor(AdmitReport(doc, r, v).value.0, doc, id)
  {
    var reports := doc.submissions[r.payload.submissionId].reports;
    if ScanExisting(reports, r) == Fresh {
      var next := Sort(reports + [r], OrderKey(v.digest));
      UnrelatedConclusion(doc, id, r, next, TallyOf(next, v.digest), v);
    }
  }

  lemma UnrelatedConclusion(doc: Document, id: string, r: Report, next: seq<Report>, result: TallyResult, v: Verifier)
    requires r.payload.submissionId != id && r.payload.submissionId in doc.submissions
    requires Conclude(doc, r.payload.submissionId, r, next, result, v).Ok?
    ensures SameFor(Conclude(doc, r.payload.submissionId, r, next, result, v).value.0, doc, id)
  {
  }

  lemma WriteChangesFinalityOnly(durable: Document, replacement: Document, reorg: bool)
    requires Write(durable, replacement, reorg).Some?
    ensures var doc := Write(durable, replacement, reorg).value;
            doc == replacement.(proofs := doc.proofs, votes := doc.votes)
  {
  }

  /** A report touches no submission but its own. */
  lemma UnrelatedDelivery(doc: Document, id: string, r: Report, v: Verifier)
    requires r.payload.submissionId != id
    ensures SameFor(Deliver(doc, r, v), doc, id)
  {
    if AdmitReport(doc, r, v).Ok? {
      UnrelatedAdmission(doc, id, r, v);
      var replacement := AdmitReport(doc, r, v).value.0;
      if Write(doc, replacement, false).Some? {
        WriteChangesFinalityOnly(doc, replacement, false);
      }
    }
  }

  lemma DeliveryIsSound(doc: Document, r: Report, v: Verifier)
    requires Sound(doc) && VotesCanonical(doc)
    ensures Sound(Deliver(doc, r, v)) && VotesCanonical(Deliver(doc, r, v))
  {
    if AdmitReport(doc, r, v).Ok? {
      var replacement := AdmitReport(doc, r, v).value.0;
      if Write(doc, replacement, false).Some? {
        WriteIsSound(doc, replacement, false);
        WriteKeepsVotesCanonical(doc, replacement, false);
      }
    }
  }

  lemma AcceptableSnoc(initial: Submission, id: string, front: seq<Report>, last: Report, v: Verifier)
    ensures AcceptableIn(initial, id, front + [last], v) ==
            AcceptableIn(initial, id, front, v) + if Acceptable(initial, id, last, v) then {last} else {}
  {
  }

  lemma DeliveryMovesStanding(start: Document, doc: Document, id: string, seen: set<Report>, t0: Tally, r: Report, v: Verifier)
      returns (t: Tally)
    requires Faithful(v) && Reviewable(start, id) && Standing(start, doc, id, seen, t0, v)
    requires Sound(doc) && VotesCanonical(doc)
    requires forall x :: x in seen ==> Acceptable(start.submissions[id], id, x, v)
    ensures Standing(start, Deliver(doc, r, v), id,
                     seen + if Acceptable(start.submissions[id], id, r, v) then {r} else {}, t, v)
  {
    if Acceptable(start.submissions[id], id, r, v) {
      t := AcceptableDelivery(start, doc, id, seen, t0, r, v);
    } else {
      OtherDelivery(start, doc, id, seen, t0, r, v);
      assert seen + {} == seen;
      t := t0;
    }
  }

  lemma StandingStep(start: Document, doc: Document, id: string, front: seq<Report>, last: Report, t0: Tally, v: Verifier)
      returns (t: Tally)
    requires Faithful(v) && Reviewable(start, id) && Sound(doc) && VotesCanonical(doc)
    requires Standing(start, doc, id, AcceptableIn(start.submissions[id], id, front, v), t0, v)
    ensures Standing(start, Deliver(doc, last, v), id, AcceptableIn(start.submissions[id], id, front + [last], v), t, v)
  {
    AcceptableSnoc(start.submissions[id], id, front, last, v);
    t := DeliveryMovesStanding(start, doc, id, AcceptableIn(start.submissions[id], id, front, v), t0, last, v);
  }

  lemma {:induction false} StandingAfterAll(start: Document, id: string, rs: seq<Report>, v: Verifier) returns (t: Tally)
    requires Faithful(v) && Reviewable(start, id) && Sound(start) && VotesCanonical(start)
    ensures var end := DeliverAll(start, rs, v);
            && Sound(end) && VotesCanonical(end)
            && Standing(start, end, id, AcceptableIn(start.submissions[id], id, rs, v), t, v)
  {
    if rs == [] {
      t := EmptyTally(v.digest);
    } else {
      var front, last := rs[..|rs| - 1], rs[|rs| - 1];
      var t0 := StandingAfterAll(start, id, front, v);
      var doc := DeliverAll(start, front, v);
      DeliveryIsSound(doc, last, v);
      t := StandingStep(start, doc, id, front, last, t0, v);
      SplitLast(rs);
    }
  }

  lemma EmptyTally(digest: Digest) returns (t: Tally)
    ensures TallyOf([], digest) == Counted(t) && !t.met
  {
    TallyRaisesExactlyOnDuplicates([], digest);
    t := TallyOf([], digest).tally;
    TallyMeaning([], digest, t);
    assert WalletsOf([], Any) == {};
  }

  /**
   Convergence: two deliveries whose acceptable records for a submission are the same set, in any
   order, with any repeats and any other traffic between them, leave the same record of it: report
   list, status, quarantine reason and evidence, and the same place in or out of the mint queue.
   */
  lemma ReportsConverge(start: Document, id: string, a: seq<Report>, b: seq<Report>, v: Verifier)
    requires Faithful(v) && Reviewable(start, id) && Sound(start) && VotesCanonical(start)
    requires AcceptableIn(start.submissions[id], id, a, v) == AcceptableIn(start.submissions[id], id, b, v)
    ensures var da, db := DeliverAll(start, a, v), DeliverAll(start, b, v);
            && id in da.submissions && id in db.submissions
            && da.submissions[id] == db.submissions[id]
            && (id in da.queue <==> id in db.queue)
  {
    var ta := StandingAfterAll(start, id, a, v);
    var tb := StandingAfterAll(start, id, b, v);
    var da, db := DeliverAll(start, a, v), DeliverAll(start, b, v);
    StrictFormIsUnique(da.submissions[id].reports, db.submissions[id].reports, OrderKey(v.digest));
  }

  /** The threshold depends on the set of the tallied records only. */
  lemma MetByTheSet(reports: seq<Report>, accepted: set<Report>, t: Tally, digest: Digest)
    requires TallyOf(reports, digest) == Counted(t) && forall r :: r in reports <==> r in accepted
    ensures t.met <==> |set r | r in accepted :: r.Wallet()| >= 3 && exists r :: r in accepted && IsEstablished(r)
  {
    TallyMeaning(reports, digest, t);
    assert WalletsOf(reports, Any) == set r | r in accepted :: r.Wallet();
    if WalletsOf(reports, IsEstablished) != {} {
      var w :| w in WalletsOf(reports, IsEstablished);
    }
    if r :| r in accepted && IsEstablished(r) {
      assert r.Wallet() in WalletsOf(reports, IsEstablished);
    }
  }

  lemma StandingStatus(start: Document, doc: Document, id: string, seen: set<Report>, t: Tally, digest: Digest)
    requires Reviewable(start, id) && Shape(start, doc, id, seen, t, digest)
    ensures doc.submissions[id].status == Quarantined <==> t.met
  {
  }

  /** The end of a delivery, in terms of the delivered set alone: three wallets, one established, quarantine. */
  lemma QuarantineIsDecidedByTheSet(start: Document, id: string, rs: seq<Report>, v: Verifier)
    requires Faithful(v) && Reviewable(start, id) && Sound(start) && VotesCanonical(start)
    ensures id in DeliverAll(start, rs, v).submissions
    ensures var accepted := AcceptableIn(start.submissions[id], id, rs, v);
            DeliverAll(start, rs, v).submissions[id].status == Quarantined <==>
              |set r | r in accepted :: r.Wallet()| >= 3 && exists r :: r in accepted && IsEstablished(r)
  {
    var t := StandingAfterAll(start, id, rs, v);
    var accepted, end := AcceptableIn(start.submissions[id], id, rs, v), DeliverAll(start, rs, v);
    MetByTheSet(end.submissions[id].reports, accepted, t, v.digest);
    StandingStatus(start, end, id, accepted, t, v.digest);
  }
}
