/**
 The facade object against the steps of the run theorems.  A facade brings votes of its own to a document;
 they can only add to its vote section, so each operation is the plain step followed by a publication of votes.
 */
module FacadeTheorems {
  import opened Ordering
  import opened Wrappers
  import opened CommunityReport
  import opened Documents
  import opened Finality
  import opened FinalityTheorems
  import opened FinalityCache
  import opened ReportAdmission
  import opened ReportConvergence
  import opened NodeSteps
  import CommitTheorems
  import opened NodeRuns
  import opened Facade

  // ----- Votes a facade brings ------------------------------------------------------------------

  function Brought(doc: Document, cachedVotes: seq<Vote>): seq<Vote>
  {
    PublishedVotes(doc.votes, cachedVotes, Targets(doc.chain))
  }

  lemma {:induction false} PublishedExtends(vs: seq<Vote>, cached: seq<Vote>, targets: map<int, string>)
    requires CanonicalVotes(vs, targets)
    ensures CanonicalVotes(PublishedVotes(vs, cached, targets), targets) && vs <= PublishedVotes(vs, cached, targets)
  {
    if cached != [] {
      PublishedExtends(vs, cached[..|cached| - 1], targets);
    }
  }

  lemma MergeOne(done: seq<Vote>, kept: seq<Vote>, last: Vote, targets: map<int, string>)
    requires MergedVotes(done, targets, false) == Some(kept) && Targeted(last, targets)
    requires forall k :: k in kept ==> k.message != last.message
    ensures MergedVotes(done + [last], targets, false) == Some(kept + [last])
  {
    assert (done + [last])[..|done|] == done;
  }

  lemma {:induction false} ExtensionMerges(vs: seq<Vote>, more: seq<Vote>, targets: map<int, string>)
    requires vs <= more && CanonicalVotes(more, targets)
    ensures MergedVotes(vs + more, targets, false) == Some(more)
    decreases |more|
  {
    if |more| == |vs| {
      assert vs == more;
      RepeatedVotesMerge(vs, more, targets);
    } else {
      var front, last := more[..|more| - 1], more[|more| - 1];
      ExtensionMerges(vs, front, targets);
      SplitLast(more);
      Reassociate(vs, front, last);
      MergeOne(vs + front, front, last, targets);
    }
  }

  lemma BroughtMerges(doc: Document, cachedVotes: seq<Vote>)
    requires VotesCanonical(doc)
    ensures MergedVotes(doc.votes + Brought(doc, cachedVotes), Targets(doc.chain), false) == Some(Brought(doc, cachedVotes))
  {
    PublishedExtends(doc.votes, cachedVotes, Targets(doc.chain));
    ExtensionMerges(doc.votes, Brought(doc, cachedVotes), Targets(doc.chain));
  }

  lemma WriteUpToVotes(durable: Document, replacement: Document, votes: seq<Vote>)
    requires MergedVotes(durable.votes + replacement.votes, Targets(replacement.chain), false) == Some(replacement.votes)
    requires MergedVotes(durable.votes + votes, Targets(replacement.chain), false) == Some(votes)
    ensures var plain, other := Write(durable, replacement, false), Write(durable, replacement.(votes := votes), false);
            && (plain.Some? <==> other.Some?)
            && (plain.Some? ==> plain.value.votes == replacement.votes && other.value == plain.value.(votes := votes))
  {
  }

  // ----- Reports --------------------------------------------------------------------------------------

  /** Delivery does not depend on the votes of the document. */
  lemma DeliveryIgnoresVotes(doc: Document, votes: seq<Vote>, r: Report, v: Verifier)
    requires Sound(doc) && VotesCanonical(doc) && CanonicalVotes(votes, Targets(doc.chain))
    ensures Deliver(doc.(votes := votes), r, v) == Deliver(doc, r, v).(votes := votes)
    ensures Deliver(doc, r, v).votes == doc.votes && Deliver(doc, r, v).chain == doc.chain
  {
    var other := doc.(votes := votes);
    SectionsAreInvisible(doc, votes, doc.peers, r, v);
    if AdmitReport(doc, r, v).Ok? {
      AdmissionKeepsFinality(doc, r, v);
      AdmissionKeepsFinality(other, r, v);
      UntouchedChainIsStored(doc, AdmitReport(doc, r, v).value.0);
      UntouchedChainIsStored(other, AdmitReport(other, r, v).value.0);
      if AdmitReport(doc, r, v).value.1 == Duplicate {
        DuplicateIsNoChange(doc, r, v);
        DuplicateIsNoChange(other, r, v);
      }
    }
  }

  lemma DuplicateIsNoChange(doc: Document, r: Report, v: Verifier)
    requires AdmitReport(doc, r, v).Ok? && AdmitReport(doc, r, v).value.1 == Duplicate
    ensures AdmitReport(doc, r, v).value.0 == doc
  {
  }

  /** The votes a delivery through a facade leaves. */
  function VotesAfter(doc: Document, cachedVotes: seq<Vote>, r: Report, v: Verifier): seq<Vote>
  {
    if AdmitReport(doc, r, v).Ok? && AdmitReport(doc, r, v).value.1 == Duplicate then doc.votes
    else Brought(doc, cachedVotes)
  }

  /**
   Whatever votes the facade has cached, it admits a report exactly when the plain delivery does, with the same
   action, and stores the same document up to those votes that are new and fit the chain.
   */
  lemma FacadeDeliversUpToVotes(doc: Document, cachedVotes: seq<Vote>, r: Report, v: Verifier)
    requires Sound(doc) && VotesCanonical(doc)
    ensures var plain, via := AdmitReport(doc, r, v), DeliverVia(doc, cachedVotes, r, v);
            && (via.Some? <==> plain.Ok?)
            && (via.None? ==> Deliver(doc, r, v) == doc)
            && (via.Some? ==>
                  && AdmitReport(Refreshed(doc, cachedVotes), r, v).value.1 == plain.value.1
                  && via.value == Deliver(doc, r, v).(votes := VotesAfter(doc, cachedVotes, r, v)))
  {
    var plain := AdmitReport(doc, r, v);
    SectionsAreInvisible(doc, Brought(doc, cachedVotes), doc.peers, r, v);
    if plain.Ok? {
      AdmissionKeepsFinality(doc, r, v);
      UntouchedChainIsStored(doc, plain.value.0);
      if plain.value.1 == Duplicate {
        DuplicateIsNoChange(doc, r, v);
      } else {
        BroughtMerges(doc, cachedVotes);
        KeptChainIsStored(doc, plain.value.0.(votes := Brought(doc, cachedVotes)));
      }
    }
  }

  lemma VotesAfterExtend(doc: Document, cachedVotes: seq<Vote>, r: Report, v: Verifier)
    requires VotesCanonical(doc)
    ensures CanonicalVotes(VotesAfter(doc, cachedVotes, r, v), Targets(doc.chain))
    ensures doc.votes <= VotesAfter(doc, cachedVotes, r, v)
  {
    PublishedExtends(doc.votes, cachedVotes, Targets(doc.chain));
  }

  /** Publishing votes that extend a document's own is a step of the runs. */
  lemma PublicationTakes(doc: Document, votes: seq<Vote>, locals: map<nat, Document>, f: nat, digest: Digest)
    requires Sound(doc) && CanonicalVotes(votes, Targets(doc.chain)) && doc.votes <= votes
    ensures Takes(System(doc, locals), Finalize(f, [], votes[|doc.votes|..]),
                  System(doc.(votes := votes), locals[f := doc.(votes := votes)]), digest, true)
  {
    assert doc.votes + votes[|doc.votes|..] == votes;
    assert doc.proofs + [] == doc.proofs;
    ExtensionMerges(doc.votes, votes, Targets(doc.chain));
    KeptChainIsStored(doc, doc.(votes := votes));
  }

  lemma HoldingTakes(doc: Document, held: Document, locals: map<nat, Document>, f: nat, digest: Digest)
    requires Mirrors(held, doc) && f in locals && locals[f] == doc
    ensures Takes(System(doc, locals), Edit(f, held), System(doc, locals[f := held]), digest, true)
  {
  }

  lemma RunOfThree(a: System, b: System, c: System, d: System, x: Step, y: Step, z: Step, digest: Digest)
    requires Takes(a, x, b, digest, true) && Takes(b, y, c, digest, true) && Takes(c, z, d, digest, true)
    ensures Run([a, b, c, d], [x, y, z], digest, true)
  {
  }

  /** The run of one operation of a facade object: the plain step, its votes, and its own view of the result. */
  function Publishing(s: System, f: nat, plain: Document, stored: Document, held: Document): (states: seq<System>)
    ensures |states| == 4
  {
    [s, System(plain, s.locals[f := plain]), System(stored, s.locals[f := stored]), System(stored, s.locals[f := held])]
  }

  lemma MapTwice(m: map<nat, Document>, f: nat, a: Document, b: Document)
    ensures m[f := a][f := b] == m[f := b]
  {
  }

  lemma PublishThenHold(plain: Document, stored: Document, held: Document, locals: map<nat, Document>, f: nat, digest: Digest)
    requires Sound(plain) && stored == plain.(votes := stored.votes) && plain.votes <= stored.votes
    requires CanonicalVotes(stored.votes, Targets(plain.chain)) && Mirrors(held, stored)
    ensures Takes(System(plain, locals[f := plain]), Finalize(f, [], stored.votes[|plain.votes|..]),
                  System(stored, locals[f := stored]), digest, true)
    ensures Takes(System(stored, locals[f := stored]), Edit(f, held), System(stored, locals[f := held]), digest, true)
  {
    PublicationTakes(plain, stored.votes, locals[f := plain], f, digest);
    MapTwice(locals, f, plain, stored);
    HoldingTakes(stored, held, locals[f := stored], f, digest);
    MapTwice(locals, f, stored, held);
  }

  lemma PublishingIsARun(s: System, f: nat, step: Step, plain: Document, stored: Document, held: Document, digest: Digest)
    requires Takes(s, step, System(plain, s.locals[f := plain]), digest, true)
    requires plain.votes <= stored.votes
    requires Takes(System(plain, s.locals[f := plain]), Finalize(f, [], stored.votes[|plain.votes|..]),
                   System(stored, s.locals[f := stored]), digest, true)
    requires Takes(System(stored, s.locals[f := stored]), Edit(f, held), System(stored, s.locals[f := held]), digest, true)
    ensures Run(Publishing(s, f, plain, stored, held),
                [step, Finalize(f, [], stored.votes[|plain.votes|..]), Edit(f, held)], digest, true)
  {
    RunOfThree(s, System(plain, s.locals[f := plain]), System(stored, s.locals[f := stored]),
               System(stored, s.locals[f := held]),
               step, Finalize(f, [], stored.votes[|plain.votes|..]), Edit(f, held), digest);
  }

  lemma DeliveryTakes(s: System, f: nat, r: Report, v: Verifier, plain: Document)
    requires plain == Deliver(s.durable, r, v)
    ensures Takes(s, Step.Report(f, r, v), System(plain, s.locals[f := plain]), v.digest, true)
  {
  }

  lemma DeliveredThrough(doc: Document, cachedVotes: seq<Vote>, r: Report, v: Verifier) returns (plain: Document, stored: Document)
    requires Sound(doc) && VotesCanonical(doc) && DeliverVia(doc, cachedVotes, r, v).Some?
    ensures plain == Deliver(doc, r, v) && Some(stored) == DeliverVia(doc, cachedVotes, r, v)
    ensures Sound(plain) && stored == plain.(votes := stored.votes) && plain.votes <= stored.votes
    ensures CanonicalVotes(stored.votes, Targets(plain.chain))
  {
    plain, stored := Deliver(doc, r, v), DeliverVia(doc, cachedVotes, r, v).value;
    FacadeDeliversUpToVotes(doc, cachedVotes, r, v);
    DeliveryIgnoresVotes(doc, doc.votes, r, v);
    VotesAfterExtend(doc, cachedVotes, r, v);
    DeliveryIsSound(doc, r, v);
  }

  /**
   A report through the facade object is a run: the plain delivery, a publication of the votes the facade
   brings, and the facade's own view of the result.
   */
  lemma FacadeDeliveryIsARun(s: System, f: nat, cachedVotes: seq<Vote>, r: Report, v: Verifier, held: Document)
    requires Sound(s.durable) && VotesCanonical(s.durable)
    requires DeliverVia(s.durable, cachedVotes, r, v).Some?
    requires Mirrors(held, DeliverVia(s.durable, cachedVotes, r, v).value)
    ensures var plain, stored := Deliver(s.durable, r, v), DeliverVia(s.durable, cachedVotes, r, v).value;
            && plain.votes <= stored.votes
            && Run(Publishing(s, f, plain, stored, held),
                   [Step.Report(f, r, v), Finalize(f, [], stored.votes[|plain.votes|..]), Edit(f, held)], v.digest, true)
  {
    var plain, stored := DeliveredThrough(s.durable, cachedVotes, r, v);
    DeliveryTakes(s, f, r, v, plain);
    PublishThenHold(plain, stored, held, s.locals, f, v.digest);
    PublishingIsARun(s, f, Step.Report(f, r, v), plain, stored, held, v.digest);
  }

  // ----- Convergence through facades ----------------------------------------------------------------------

  /** A report, and the votes cached by the facade it is handed to. */
  datatype Call = Call(record: Report, cachedVotes: seq<Vote>)

  function Records(calls: seq<Call>): (rs: seq<Report>)
    ensures |rs| == |calls|
  {
    seq(|calls|, i requires 0 <= i < |calls| => calls[i].record)
  }

  function DeliverAllVia(doc: Document, calls: seq<Call>, v: Verifier): Document
  {
    if calls == [] then doc else
    var before, last := DeliverAllVia(doc, calls[..|calls| - 1], v), calls[|calls| - 1];
    DeliverVia(before, last.cachedVotes, last.record, v).GetOr(before)
  }

  /** Deliveries through any facades leave what the plain deliveries leave, up to votes. */
  lemma {:induction false} CallsDeliverUpToVotes(start: Document, calls: seq<Call>, v: Verifier)
    requires Sound(start) && VotesCanonical(start)
    ensures var plain, via := DeliverAll(start, Records(calls), v), DeliverAllVia(start, calls, v);
            && Sound(plain) && VotesCanonical(plain) && VotesCanonical(via)
            && via == plain.(votes := via.votes)
  {
    if calls != [] {
      var front, last := calls[..|calls| - 1], calls[|calls| - 1];
      CallsDeliverUpToVotes(start, front, v);
      var plain, via := DeliverAll(start, Records(front), v), DeliverAllVia(start, front, v);
      assert Records(calls)[..|calls| - 1] == Records(front);
      DeliveryIsSound(plain, last.record, v);
      CallDeliversUpToVotes(plain, via, last, v);
    }
  }

  lemma CallDeliversUpToVotes(plain: Document, via: Document, call: Call, v: Verifier)
    requires Sound(plain) && VotesCanonical(plain) && VotesCanonical(via) && via == plain.(votes := via.votes)
    ensures var next := DeliverVia(via, call.cachedVotes, call.record, v).GetOr(via);
            VotesCanonical(next) && next == Deliver(plain, call.record, v).(votes := next.votes)
  {
    DeliveryIgnoresVotes(plain, via.votes, call.record, v);
    FacadeDeliversUpToVotes(via, call.cachedVotes, call.record, v);
    VotesAfterExtend(via, call.cachedVotes, call.record, v);
  }

  /** Convergence of the reports holds of the facade objects, whatever votes each of them has cached. */
  lemma FacadesConverge(start: Document, id: string, a: seq<Call>, b: seq<Call>, v: Verifier)
    requires Faithful(v) && Reviewable(start, id) && Sound(start) && VotesCanonical(start)
    requires AcceptableIn(start.submissions[id], id, Records(a), v) == AcceptableIn(start.submissions[id], id, Records(b), v)
    ensures var da, db := DeliverAllVia(start, a, v), DeliverAllVia(start, b, v);
            && id in da.submissions && id in db.submissions
            && da.submissions[id] == db.submissions[id]
            && (id in da.queue <==> id in db.queue)
  {
    CallsDeliverUpToVotes(start, a, v);
    CallsDeliverUpToVotes(start, b, v);
    ReportsConverge(start, id, Records(a), Records(b), v);
  }

  // ----- Commits --------------------------------------------------------------------------------------

  /** Appending a block of a new height takes no vote off the chain. */
  lemma AppendKeepsTargeted(chain: seq<Block>, b: Block, votes: seq<Vote>)
    requires UniqueClaims(chain + [b]) && CanonicalVotes(votes, Targets(chain))
    ensures CanonicalVotes(votes, Targets(chain + [b]))
  {
    CommitTheorems.TargetsOfExtension(chain, b);
    forall v | v in votes ensures Targeted(v, Targets(chain + [b])) {
      TargetHasBlock(chain, v.height);
      var i :| 0 <= i < |chain| && chain[i].body.index == v.height && chain[i].hash == Targets(chain)[v.height];
      var all := chain + [b];
      assert all[i] == chain[i] && all[|chain|] == b;
      assert !Clash(all[i], all[|chain|]);
    }
  }

  lemma MintingIsStoredUpToVotes(doc: Document, cachedVotes: seq<Vote>, id: string, b: Block)
    requires Sound(doc) && VotesCanonical(doc) && id in doc.submissions
    ensures var plain, via := Write(doc, Minting(doc, id, b), false),
                              Write(doc, Minting(Refreshed(doc, cachedVotes), id, b), false);
            && (plain.Some? <==> via.Some?)
            && (plain.Some? ==> plain.value.votes == doc.votes && via.value == plain.value.(votes := Brought(doc, cachedVotes)))
            && (plain.Some? ==> CanonicalVotes(Brought(doc, cachedVotes), Targets(plain.value.chain)))
            && doc.votes <= Brought(doc, cachedVotes)
  {
    var replacement, brought := Minting(doc, id, b), Brought(doc, cachedVotes);
    PublishedExtends(doc.votes, cachedVotes, Targets(doc.chain));
    assert Minting(Refreshed(doc, cachedVotes), id, b) == replacement.(votes := brought);
    if UniqueClaims(replacement.chain) {
      AppendKeepsTargeted(doc.chain, b, brought);
      AppendKeepsTargeted(doc.chain, b, doc.votes);
      ExtensionMerges(doc.votes, brought, Targets(replacement.chain));
      ExtensionMerges(doc.votes, doc.votes, Targets(replacement.chain));
      WriteUpToVotes(doc, replacement, brought);
    }
  }

  /** Minting does not look at votes. */
  lemma MintOutcomeIgnoresVotes(doc: Document, votes: seq<Vote>, a: Attempt)
    ensures var plain, via := MintOutcome(doc, a), MintOutcome(doc.(votes := votes), a);
            && (plain.Committed? <==> via.Committed?)
            && (!plain.Committed? ==> via == plain)
            && (plain.Committed? ==>
                  && a.request.submissionId in doc.submissions && a.candidate.Some?
                  && plain.document == Minting(doc, a.request.submissionId, a.candidate.value)
                  && via.document == Minting(doc.(votes := votes), a.request.submissionId, a.candidate.value))
  {
  }

  lemma CommitIsMint(durable: Document, a: Attempt)
    requires Reaches(durable.chain, a)
    ensures var minted := MintOutcome(durable, a);
            Commit(durable, a) == if !minted.Committed? then minted else
                                  var written := Write(durable, minted.document, false);
                                  if written.Some? then Committed(written.value) else Refused(false)
  {
  }

  /** A commit through a facade has the outcome of the plain commit, and stores the same document up to votes. */
  lemma FacadeCommitsUpToVotes(doc: Document, cachedVotes: seq<Vote>, a: Attempt)
    requires Sound(doc) && VotesCanonical(doc)
    ensures var plain, via := Commit(doc, a), CommitVia(doc, cachedVotes, a);
            && (via.Committed? <==> plain.Committed?)
            && (!via.Committed? ==> via == plain)
            && (via.Committed? ==> via.document == plain.document.(votes := Brought(doc, cachedVotes)))
            && (via.Committed? ==> plain.document.votes == doc.votes <= via.document.votes)
            && (via.Committed? ==> CanonicalVotes(via.document.votes, Targets(via.document.chain)))
  {
    if Reaches(doc.chain, a) {
      CommitIsMint(doc, a);
      MintOutcomeIgnoresVotes(doc, Brought(doc, cachedVotes), a);
      if MintOutcome(doc, a).Committed? {
        MintingIsStoredUpToVotes(doc, cachedVotes, a.request.submissionId, a.candidate.value);
      }
    }
  }

  lemma CommitTakes(s: System, f: nat, a: Attempt, plain: Document)
    requires Commit(s.durable, a) == Committed(plain)
    ensures Takes(s, CommitOne(f, a), System(plain, s.locals[f := plain]), a.verifier.digest, true)
  {
  }

  lemma CommitIsSound(durable: Document, a: Attempt)
    requires Commit(durable, a).Committed?
    ensures Sound(AfterCommit(durable, a))
  {
    WriteIsSound(durable, Minting(durable, a.request.submissionId, a.candidate.value), false);
  }

  lemma CommittedThrough(doc: Document, cachedVotes: seq<Vote>, a: Attempt) returns (plain: Document, stored: Document)
    requires Sound(doc) && VotesCanonical(doc) && CommitVia(doc, cachedVotes, a).Committed?
    ensures Commit(doc, a) == Committed(plain) && CommitVia(doc, cachedVotes, a) == Committed(stored)
    ensures Sound(plain) && stored == plain.(votes := stored.votes) && plain.votes <= stored.votes
    ensures CanonicalVotes(stored.votes, Targets(plain.chain))
  {
    FacadeCommitsUpToVotes(doc, cachedVotes, a);
    plain, stored := Commit(doc, a).document, CommitVia(doc, cachedVotes, a).document;
    CommitIsSound(doc, a);
  }

  /** So a certified commit through the facade object is a run as well. */
  lemma FacadeCommitIsARun(s: System, f: nat, cachedVotes: seq<Vote>, a: Attempt, held: Document)
    requires Sound(s.durable) && VotesCanonical(s.durable)
    requires CommitVia(s.durable, cachedVotes, a).Committed?
    requires Mirrors(held, CommitVia(s.durable, cachedVotes, a).document)
    ensures Commit(s.durable, a).Committed?
    ensures var plain, stored := Commit(s.durable, a).document, CommitVia(s.durable, cachedVotes, a).document;
            && plain.votes <= stored.votes
            && Run(Publishing(s, f, plain, stored, held),
                   [CommitOne(f, a), Finalize(f, [], stored.votes[|plain.votes|..]), Edit(f, held)], a.verifier.digest, true)
  {
    var plain, stored := CommittedThrough(s.durable, cachedVotes, a);
    CommitTakes(s, f, a, plain);
    PublishThenHold(plain, stored, held, s.locals, f, a.verifier.digest);
    PublishingIsARun(s, f, CommitOne(f, a), plain, stored, held, a.verifier.digest);
  }
}
