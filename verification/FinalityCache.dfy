/**
 The in-memory finality a facade publishes from the documents it is handed
 (blockchain.py).  The documents are arbitrary; the cache decides what to accept.
 */
module FinalityCache {
  import opened Wrappers
  import opened Documents
  import opened Finality
  import opened FinalityTheorems

  /** `{r["block_height"]: r for r in records}` */
  function ByHeight(ps: seq<Proof>): map<nat, Proof>
  {
    if ps == [] then map[] else
    ByHeight(ps[..|ps| - 1])[ps[|ps| - 1].height := ps[|ps| - 1]]
  }

  predicate DistinctHeights(ps: seq<Proof>)
  {
    forall i, j :: 0 <= i < j < |ps| ==> ps[i].height != ps[j].height
  }

  /** `valid` is quorum validation of a certificate; a record equal to the cached one is not validated again. */
  predicate Trusted(p: Proof, known: map<nat, Proof>, valid: Proof -> bool)
  {
    (p.height in known && known[p.height] == p) || valid(p)
  }

  predicate OnTarget(p: Proof, targets: map<int, string>)
  {
    (p.height as int) in targets && targets[p.height] == p.hash
  }

  /** `_check_finality_cache_transition` returns instead of raising. */
  predicate TransitionOk(cached: seq<Proof>, doc: Document, valid: Proof -> bool)
  {
    && DistinctHeights(doc.proofs)
    && (forall p :: p in doc.proofs ==> Trusted(p, ByHeight(cached), valid) && OnTarget(p, Targets(doc.chain)))
    && (forall r :: r in cached ==> r.height in ByHeight(doc.proofs) && ByHeight(doc.proofs)[r.height].hash == r.hash)
  }

  lemma {:induction false} ByHeightHolds(ps: seq<Proof>)
    ensures forall h :: h in ByHeight(ps) ==> ByHeight(ps)[h] in ps && ByHeight(ps)[h].height == h
    ensures forall p :: p in ps ==> p.height in ByHeight(ps)
    ensures DistinctHeights(ps) ==> forall p :: p in ps ==> ByHeight(ps)[p.height] == p
  {
    if ps != [] {
      assert ps == ps[..|ps| - 1] + [ps[|ps| - 1]];
      ByHeightHolds(ps[..|ps| - 1]);
    }
  }

  lemma {:induction false} DistinctByCount(ps: seq<Proof>)
    ensures |ByHeight(ps)| <= |ps|
    ensures |ByHeight(ps)| == |ps| <==> DistinctHeights(ps)
  {
    if ps != [] {
      var front, last := ps[..|ps| - 1], ps[|ps| - 1];
      assert ps == front + [last];
      DistinctByCount(front);
      ByHeightHolds(front);
      var m := ByHeight(front);
      if last.height in m {
        assert m[last.height := last].Keys == m.Keys;
        assert m[last.height] in front;
        assert |m[last.height := last]| == |m[last.height := last].Keys| == |m.Keys| == |m|;
      } else {
        assert m[last.height := last].Keys == m.Keys + {last.height};
        assert |m[last.height := last]| == |m[last.height := last].Keys| == |m.Keys| + 1 == |m| + 1;
      }
    }
  }

  /** `by_message` over the incoming votes, then `setdefault` over the cached ones that fit the chain. */
  function PublishedVotes(incoming: seq<Vote>, cached: seq<Vote>, targets: map<int, string>): seq<Vote>
  {
    if cached == [] then incoming else
    var v := cached[|cached| - 1];
    var kept := PublishedVotes(incoming, cached[..|cached| - 1], targets);
    if Targeted(v, targets) && !Recorded(kept, v)
    then kept + [v] else kept
  }

  /** A late refresh of the selected chain never erases a newer vote that fits it. */
  lemma {:induction false} RefreshKeepsVotes(incoming: seq<Vote>, cached: seq<Vote>, targets: map<int, string>, v: Vote)
    requires v in cached && Targeted(v, targets)
    ensures Recorded(PublishedVotes(incoming, cached, targets), v)
  {
    var front, last := cached[..|cached| - 1], cached[|cached| - 1];
    assert cached == front + [last];
    var kept := PublishedVotes(incoming, front, targets);
    if v in front {
      RefreshKeepsVotes(incoming, front, targets, v);
      var k :| k in kept && k.message == v.message;
      assert k in PublishedVotes(incoming, cached, targets);
    } else {
      assert v == last;
      assert !Recorded(kept, v) ==> v in PublishedVotes(incoming, cached, targets);
    }
  }

  // ----- Sequences of arbitrary documents ---------------------------------------------------

  /** The cache after each document of a sequence was offered in turn. */
  ghost predicate Offers(caches: seq<seq<Proof>>, docs: seq<Document>, valid: Proof -> bool)
  {
    && |caches| == |docs| + 1 && DistinctHeights(caches[0])
    && forall i :: 0 <= i < |docs| ==>
         caches[i + 1] == if TransitionOk(caches[i], docs[i], valid) then docs[i].proofs else caches[i]
  }

  ghost predicate Decides(ps: seq<Proof>, height: nat, hash: string)
  {
    exists p :: p in ps && p.height == height && p.hash == hash
  }

  lemma TransitionKeeps(cached: seq<Proof>, doc: Document, valid: Proof -> bool, height: nat, hash: string)
    requires TransitionOk(cached, doc, valid) && Decides(cached, height, hash)
    ensures Decides(doc.proofs, height, hash)
  {
    ByHeightHolds(doc.proofs);
    var r :| r in cached && r.height == height && r.hash == hash;
    assert ByHeight(doc.proofs)[height] in doc.proofs;
  }

  lemma {:induction false} CachesStayDistinct(caches: seq<seq<Proof>>, docs: seq<Document>, valid: Proof -> bool, i: nat)
    requires Offers(caches, docs, valid) && i < |caches|
    ensures DistinctHeights(caches[i])
  {
    if i > 0 {
      CachesStayDistinct(caches, docs, valid, i - 1);
      assert caches[i] == if TransitionOk(caches[i - 1], docs[i - 1], valid) then docs[i - 1].proofs else caches[i - 1];
    }
  }

  /** Whatever documents are offered, a published decision stays published. */
  lemma {:induction false} DecisionsPersist(caches: seq<seq<Proof>>, docs: seq<Document>, valid: Proof -> bool,
                                            i: nat, j: nat, height: nat, hash: string)
    requires Offers(caches, docs, valid) && i <= j < |caches| && Decides(caches[i], height, hash)
    ensures Decides(caches[j], height, hash)
    decreases j - i
  {
    if i < j {
      DecisionsPersist(caches, docs, valid, i, j - 1, height, hash);
      assert caches[j] == if TransitionOk(caches[j - 1], docs[j - 1], valid) then docs[j - 1].proofs else caches[j - 1];
      if TransitionOk(caches[j - 1], docs[j - 1], valid) {
        TransitionKeeps(caches[j - 1], docs[j - 1], valid, height, hash);
      }
    }
  }

  /** No height is ever decided twice in the life of one cache, and every accepted record is on its document's chain. */
  lemma OneDecisionPerHeight(caches: seq<seq<Proof>>, docs: seq<Document>, valid: Proof -> bool,
                             i: nat, j: nat, height: nat, a: string, b: string)
    requires Offers(caches, docs, valid) && i < |caches| && j < |caches|
    requires Decides(caches[i], height, a) && Decides(caches[j], height, b)
    ensures a == b
  {
    var last := |caches| - 1;
    DecisionsPersist(caches, docs, valid, i, last, height, a);
    DecisionsPersist(caches, docs, valid, j, last, height, b);
    CachesStayDistinct(caches, docs, valid, last);
    var p :| p in caches[last] && p.height == height && p.hash == a;
    var q :| q in caches[last] && q.height == height && q.hash == b;
    var x :| 0 <= x < |caches[last]| && caches[last][x] == p;
    var y :| 0 <= y < |caches[last]| && caches[last][y] == q;
  }

  /** Every published record sits on the chain of the document it came with. */
  lemma PublishedIsOnSelectedChain(cached: seq<Proof>, doc: Document, valid: Proof -> bool, p: Proof)
    requires TransitionOk(cached, doc, valid) && p in doc.proofs
    ensures exists i :: 0 <= i < |doc.chain| && doc.chain[i].body.index == p.height && doc.chain[i].hash == p.hash
  {
    assert OnTarget(p, Targets(doc.chain));
    TargetHasBlock(doc.chain, p.height);
  }

  lemma {:induction false} TargetHasBlock(chain: seq<Block>, h: int)
    requires h in Targets(chain)
    ensures exists i :: 0 <= i < |chain| && chain[i].body.index == h && chain[i].hash == Targets(chain)[h]
  {
    var front, n := chain[..|chain| - 1], |chain| - 1;
    if chain[n].body.index == h {
      assert chain[n].hash == Targets(chain)[h];
    } else {
      TargetHasBlock(front, h);
      var i :| 0 <= i < |front| && front[i].body.index == h && front[i].hash == Targets(front)[h];
      assert chain[i] == front[i];
    }
  }

  /** Durable histories never stall a cache: a later state of the history is accepted by a cache of an earlier one. */
  lemma LaterStateIsAccepted(states: seq<Document>, i: nat, j: nat, valid: Proof -> bool)
    requires History(states) && i <= j < |states| && forall p :: p in states[j].proofs ==> valid(p)
    ensures TransitionOk(states[i].proofs, states[j], valid)
  {
    var now, later := states[i].proofs, states[j];
    HistoryIsSound(states, j);
    ByHeightHolds(later.proofs);
    UniqueIndices(later.chain);
    forall p | p in later.proofs ensures OnTarget(p, Targets(later.chain)) {
      assert Ancestry(later.chain, p.height);
      TargetOfPosition(later.chain, p.height);
    }
    forall r | r in now
      ensures r.height in ByHeight(later.proofs) && ByHeight(later.proofs)[r.height].hash == r.hash
    {
      FinalityIsMonotone(states, i, j, r);
    }
  }

  /** A document from before a decision is refused by a cache that knows it. */
  lemma StaleRefreshIsRefused(cached: seq<Proof>, doc: Document, valid: Proof -> bool, r: Proof)
    requires r in cached && !Decides(doc.proofs, r.height, r.hash)
    ensures !TransitionOk(cached, doc, valid)
  {
    if TransitionOk(cached, doc, valid) {
      assert Decides(cached, r.height, r.hash);
      TransitionKeeps(cached, doc, valid, r.height, r.hash);
    }
  }
}
