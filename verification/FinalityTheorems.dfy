/**
 Finality over whole histories of the durable document.  The writers are arbitrary:
 any replacement whatever may be offered, by any facade, at any time.
 */
module FinalityTheorems {
  import opened Wrappers
  import opened Documents
  import opened Finality

  /** The durable document is finality-consistent. */
  ghost predicate Sound(doc: Document)
  {
    && HeightsIncrease(doc.proofs)
    && UniqueClaims(doc.chain)
    && forall p :: p in doc.proofs ==> Ancestry(doc.chain, p.height) && doc.chain[p.height].hash == p.hash
  }

  lemma {:induction false} TargetOfPosition(chain: seq<Block>, i: nat)
    requires i < |chain|
    requires forall a, b :: 0 <= a < b < |chain| ==> chain[a].body.index != chain[b].body.index
    ensures chain[i].body.index in Targets(chain) && Targets(chain)[chain[i].body.index] == chain[i].hash
  {
    if i < |chain| - 1 {
      assert chain[..|chain| - 1][i] == chain[i];
      TargetOfPosition(chain[..|chain| - 1], i);
    }
  }

  lemma UniqueIndices(chain: seq<Block>)
    requires UniqueClaims(chain)
    ensures forall a, b :: 0 <= a < b < |chain| ==> chain[a].body.index != chain[b].body.index
  {
    forall a, b | 0 <= a < b < |chain| ensures chain[a].body.index != chain[b].body.index {
      assert !Clash(chain[a], chain[b]);
    }
  }

  /** A write that is let through leaves a sound document, whatever was offered and whatever was there. */
  lemma WriteIsSound(durable: Document, replacement: Document, reorg: bool)
    requires Write(durable, replacement, reorg).Some?
    ensures Sound(Write(durable, replacement, reorg).value)
  {
    var doc := Write(durable, replacement, reorg).value;
    var proofs := Collected(durable.proofs, replacement.proofs).value;
    CollectedHolds(durable.proofs, replacement.proofs);
    AscendingHolds(proofs, |replacement.chain|);
    UniqueIndices(doc.chain);
    forall p | p in doc.proofs ensures Ancestry(doc.chain, p.height) && doc.chain[p.height].hash == p.hash {
      TargetOfPosition(doc.chain, p.height);
    }
  }

  /** It keeps every certificate as the same record and every block at or below a certified height. */
  lemma WriteKeepsFinality(durable: Document, replacement: Document, reorg: bool, p: Proof)
    requires Write(durable, replacement, reorg).Some? && p in durable.proofs
    ensures var doc := Write(durable, replacement, reorg).value;
            p in doc.proofs && SameSummary(durable.chain, doc.chain, p.height)
  {
    var proofs := Collected(durable.proofs, replacement.proofs).value;
    CollectedHolds(durable.proofs, replacement.proofs);
    AscendingHolds(proofs, |replacement.chain|);
    assert Ancestry(replacement.chain, p.height);
  }

  /** A history of the durable document under any writers: each state is kept or replaced by a guarded write. */
  ghost predicate History(states: seq<Document>)
  {
    && states != [] && Sound(states[0])
    && forall i :: 0 <= i < |states| - 1 ==> Follows(states[i], states[i + 1])
  }

  ghost predicate Follows(before: Document, after: Document)
  {
    after == before || exists replacement, reorg :: Write(before, replacement, reorg) == Some(after)
  }

  lemma {:induction false} HistoryIsSound(states: seq<Document>, i: nat)
    requires History(states) && i < |states|
    ensures Sound(states[i])
  {
    if i > 0 {
      HistoryIsSound(states, i - 1);
      assert Follows(states[i - 1], states[i]);
      if states[i] != states[i - 1] {
        var replacement, reorg :| Write(states[i - 1], replacement, reorg) == Some(states[i]);
        WriteIsSound(states[i - 1], replacement, reorg);
      }
    }
  }

  lemma StepKeepsFinality(before: Document, after: Document, p: Proof)
    requires Follows(before, after) && Sound(before) && p in before.proofs
    ensures p in after.proofs && SameSummary(before.chain, after.chain, p.height)
  {
    if after != before {
      var replacement, reorg :| Write(before, replacement, reorg) == Some(after);
      WriteKeepsFinality(before, replacement, reorg, p);
    }
  }

  lemma LaterStepKeepsFinality(states: seq<Document>, i: nat, p: Proof)
    requires History(states) && i < |states| - 1 && p in states[i].proofs
    ensures p in states[i + 1].proofs && SameSummary(states[i].chain, states[i + 1].chain, p.height)
  {
    HistoryIsSound(states, i);
    StepKeepsFinality(states[i], states[i + 1], p);
  }

  lemma SummaryTransitive(a: seq<Block>, b: seq<Block>, c: seq<Block>, n: nat)
    requires SameSummary(a, b, n) && SameSummary(b, c, n)
    ensures SameSummary(a, c, n)
  {
  }

  /**
   Durable finality is monotone: once a block is finalized its certificate is in every later
   state, and so is the whole ancestry of that block, at the same positions.
   */
  lemma {:induction false} FinalityIsMonotone(states: seq<Document>, i: nat, j: nat, p: Proof)
    requires History(states) && i <= j < |states| && p in states[i].proofs
    ensures p in states[j].proofs && SameSummary(states[i].chain, states[j].chain, p.height)
    decreases j - i
  {
    HistoryIsSound(states, i);
    if i < j {
      FinalityIsMonotone(states, i, j - 1, p);
      LaterStepKeepsFinality(states, j - 1, p);
      SummaryTransitive(states[i].chain, states[j - 1].chain, states[j].chain, p.height);
    }
  }

  /** No height is ever finalized twice, not even at different times of one history. */
  lemma NoHeightFinalizedTwice(states: seq<Document>, i: nat, j: nat, p: Proof, q: Proof)
    requires History(states) && i < |states| && j < |states|
    requires p in states[i].proofs && q in states[j].proofs && p.height == q.height
    ensures p == q
  {
    var last := |states| - 1;
    FinalityIsMonotone(states, i, last, p);
    FinalityIsMonotone(states, j, last, q);
    HistoryIsSound(states, last);
    var a :| 0 <= a < |states[last].proofs| && states[last].proofs[a] == p;
    var b :| 0 <= b < |states[last].proofs| && states[last].proofs[b] == q;
  }

  // ----- Adopting a winning branch ------------------------------------------------------

  /** `_candidate_preserves_finality_records`: every certified block is in the candidate, by height and hash. */
  predicate CandidatePreserves(candidate: seq<Block>, proofs: seq<Proof>)
  {
    forall p :: p in proofs ==> (p.height as int) in Targets(candidate) && Targets(candidate)[p.height] == p.hash
  }

  /** A chain that full validation let through: indexed from genesis and hash linked. */
  ghost predicate WellFormedChain(chain: seq<Block>, hash: Hash)
  {
    HashLinked(chain, hash) && UniqueClaims(chain) && forall i :: 0 <= i < |chain| ==> chain[i].body.index == i
  }

  lemma {:induction false} TargetsHavePositions(chain: seq<Block>, h: int)
    requires forall i :: 0 <= i < |chain| ==> chain[i].body.index == i
    ensures h in Targets(chain) <==> 0 <= h < |chain|
  {
    if chain != [] {
      TargetsHavePositions(chain[..|chain| - 1], h);
    }
  }

  /** Equal hash at a certified height already means equal finalized ancestry. */
  lemma CandidateSharesAncestry(durable: Document, candidate: seq<Block>, hash: Hash, p: Proof)
    requires HashCollisionFree(hash) && WellFormedChain(durable.chain, hash) && WellFormedChain(candidate, hash)
    requires Sound(durable) && p in durable.proofs && CandidatePreserves(candidate, durable.proofs)
    ensures p.height < |candidate| && candidate[p.height].hash == p.hash
    ensures durable.chain[..p.height + 1] == candidate[..p.height + 1]
  {
    TargetsHavePositions(candidate, p.height);
    UniqueIndices(candidate);
    TargetOfPosition(candidate, p.height);
    SameHashSamePrefix(durable.chain, candidate, p.height, hash);
  }

  /** `rebuild_document` installs the candidate, keeps the certificates and drops votes off the new chain. */
  ghost predicate Rebuilt(durable: Document, candidate: seq<Block>, replacement: Document)
  {
    && replacement.chain == candidate && replacement.proofs == durable.proofs
    && (forall v :: v in replacement.votes ==> v in durable.votes)
  }

  lemma {:induction false} IncomingAgrees(m: map<nat, Proof>, ps: seq<Proof>)
    requires forall p :: p in ps ==> p.height in m && m[p.height] == p
    ensures AddIncoming(m, ps) == Some(m)
  {
    if ps != [] {
      assert ps == ps[..|ps| - 1] + [ps[|ps| - 1]];
      IncomingAgrees(m, ps[..|ps| - 1]);
    }
  }

  lemma {:induction false} IncreasingCollects(ps: seq<Proof>)
    requires HeightsIncrease(ps)
    ensures DurableProofs(ps).Some?
  {
    if ps != [] {
      var front, last := ps[..|ps| - 1], ps[|ps| - 1];
      IncreasingCollects(front);
      DurableProofsHolds(front);
    }
  }

  lemma SameBlocksSameSummary(a: seq<Block>, b: seq<Block>, n: nat)
    requires n < |a| && n < |b| && a[..n + 1] == b[..n + 1]
    ensures SameSummary(a, b, n)
  {
    assert Summary(a)[..n + 1] == Summary(a[..n + 1]);
    assert Summary(b)[..n + 1] == Summary(b[..n + 1]);
  }

  /**
   The adoption check and the storage guard agree: for hash-linked chains a branch that contains
   every certified block is never refused for its ancestry, and one that misses a certified block
   is never written.
   */
  lemma AdoptionGuardsAgree(durable: Document, candidate: seq<Block>, hash: Hash)
    requires HashCollisionFree(hash) && WellFormedChain(durable.chain, hash) && WellFormedChain(candidate, hash)
    requires Sound(durable)
    ensures CandidatePreserves(candidate, durable.proofs) <==>
            (Collected(durable.proofs, durable.proofs).Some? &&
             AncestryKept(durable, candidate, Collected(durable.proofs, durable.proofs).value))
  {
    IncreasingCollects(durable.proofs);
    DurableProofsHolds(durable.proofs);
    var m := DurableProofs(durable.proofs).value;
    IncomingAgrees(m, durable.proofs);
    if CandidatePreserves(candidate, durable.proofs) {
      forall p | p in durable.proofs
        ensures Ancestry(candidate, p.height) && SameSummary(durable.chain, candidate, p.height)
      {
        CandidateSharesAncestry(durable, candidate, hash, p);
        SameBlocksSameSummary(durable.chain, candidate, p.height);
      }
    }
  }

  lemma {:induction false} ReorgVotesMerge(vs: seq<Vote>, targets: map<int, string>)
    requires forall a, b :: a in vs && b in vs && a.message == b.message ==> a.(signature := b.signature) == b
    ensures MergedVotes(vs, targets, true).Some?
    ensures forall v :: v in MergedVotes(vs, targets, true).value ==> v in vs
  {
    if vs != [] {
      assert vs == vs[..|vs| - 1] + [vs[|vs| - 1]];
      ReorgVotesMerge(vs[..|vs| - 1], targets);
    }
  }

  /** Messages fix their content: the signed text contains every field but the signature. */
  ghost predicate MessagesFixContent(vs: seq<Vote>)
  {
    forall a, b :: a in vs && b in vs && a.message == b.message ==> a.(signature := b.signature) == b
  }

  /**
   Adoption under the lock: a rebuilt document is written exactly when its branch contains every
   certified block, and then every certified block is still where it was.
   */
  lemma AdoptionNeverReplacesFinalized(durable: Document, candidate: seq<Block>, replacement: Document, hash: Hash)
    requires HashCollisionFree(hash) && WellFormedChain(durable.chain, hash) && WellFormedChain(candidate, hash)
    requires Sound(durable) && Rebuilt(durable, candidate, replacement) && MessagesFixContent(durable.votes)
    ensures Write(durable, replacement, true).Some? <==> CandidatePreserves(candidate, durable.proofs)
    ensures Write(durable, replacement, true).Some? ==>
              forall p :: p in durable.proofs ==>
                durable.chain[..p.height + 1] == Write(durable, replacement, true).value.chain[..p.height + 1]
  {
    AdoptionGuardsAgree(durable, candidate, hash);
    ReorgVotesMerge(durable.votes + replacement.votes, Targets(candidate));
    if CandidatePreserves(candidate, durable.proofs) {
      forall p | p in durable.proofs
        ensures p.height < |candidate| && durable.chain[..p.height + 1] == candidate[..p.height + 1]
      {
        CandidateSharesAncestry(durable, candidate, hash, p);
      }
    }
  }
}
