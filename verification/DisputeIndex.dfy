/**
 The incremental indexes behind post-mint disputes (blockchain.py): submission to block
 height, and membership of the finalized set.
 */
module DisputeIndex {
  import opened Ordering
  import opened Wrappers
  import opened Documents
  import opened Finality
  import opened FinalityTheorems
  import opened Text

  /** The slow form: the height of the last media block of each submission. */
  function FullScan(chain: seq<Block>): map<string, int>
  {
    if chain == [] then map[] else
    var b := chain[|chain| - 1];
    var front := FullScan(chain[..|chain| - 1]);
    if b.body.submissionId != "" && b.body.media.Some? then front[b.body.submissionId := b.body.index] else front
  }

  predicate MediaOf(b: Block, id: string) { b.body.submissionId == id && b.body.media.Some? }

  /** The last media block of a submission stands at position `i`. */
  ghost predicate LastMedia(chain: seq<Block>, id: string, i: nat)
  {
    i < |chain| && MediaOf(chain[i], id) && forall j :: i < j < |chain| ==> !MediaOf(chain[j], id)
  }

  /** What the scan is for: a submission is indexed exactly when it has a media block, at the last such block. */
  lemma {:induction false} FullScanMeaning(chain: seq<Block>, id: string)
    requires id != ""
    ensures id in FullScan(chain) <==> exists i: nat :: LastMedia(chain, id, i)
    ensures forall i: nat :: LastMedia(chain, id, i) ==> id in FullScan(chain) && FullScan(chain)[id] == chain[i].body.index
  {
    if chain != [] {
      var front, n := chain[..|chain| - 1], |chain| - 1;
      FullScanMeaning(front, id);
      if MediaOf(chain[n], id) {
        assert LastMedia(chain, id, n);
      } else {
        forall i: nat ensures LastMedia(chain, id, i) <==> LastMedia(front, id, i) {
          assert i < n ==> front[i] == chain[i];
          assert forall j :: i < j < n ==> front[j] == chain[j];
        }
      }
    }
  }

  /** The index, its length and its marker describe this chain. */
  ghost predicate Indexed(c: seq<Block>, hash: Hash, index: map<string, int>, length: nat, lastHash: Option<string>)
  {
    && HashLinked(c, hash) && |c| == length && index == FullScan(c)
    && lastHash == if c == [] then None else Some(c[|c| - 1].hash)
  }

  class BlockIndex {
    const hash: Hash
    var chain: seq<Block>
    var index: map<string, int>
    var length: nat
    var lastHash: Option<string>

    constructor (hash: Hash)
      requires HashCollisionFree(hash)
      ensures this.hash == hash && chain == [] && Describes()
    {
      this.hash := hash;
      chain, index, length, lastHash := [], map[], 0, None;
      assert Indexed([], hash, map[], 0, None);
    }

    /** The index is the scan of some hash-linked chain of `length` blocks ending in `lastHash`. */
    ghost predicate Describes()
      reads this`index, this`length, this`lastHash
    {
      HashCollisionFree(hash) && exists c: seq<Block> :: Indexed(c, hash, index, length, lastHash)
    }

    /**
     The lookup of `_finalized_dispute_block`.  The chain may have been extended or replaced by any
     hash-linked chain since the last call; the index is nevertheless the full scan of it.
     */
    method Lookup(id: string) returns (height: Option<int>)
      requires Describes() && HashLinked(chain, hash)
      modifies this`index, this`length, this`lastHash
      ensures index == FullScan(chain) && length == |chain| && Describes()
      ensures height == if id in FullScan(chain) then Some(FullScan(chain)[id]) else None
    {
      ghost var c: seq<Block> :| Indexed(c, hash, index, length, lastHash);
      var indexed, indexedLength := index, length;
      if indexedLength > |chain| || (indexedLength > 0 && Some(chain[indexedLength - 1].hash) != lastHash) {
        indexed, indexedLength := map[], 0;
      } else {
        SurvivorIsPrefix(chain, c, hash);
      }
      indexed := Extend(indexed, indexedLength);
      index := indexed;
      length := |chain|;
      lastHash := if chain == [] then None else Some(chain[|chain| - 1].hash);
      assert Indexed(chain, hash, index, length, lastHash);
      return if id in indexed then Some(indexed[id]) else None;
    }

    /** The loop over the blocks not yet indexed. */
    method Extend(start: map<string, int>, from: nat) returns (indexed: map<string, int>)
      requires from <= |chain| && start == FullScan(chain[..from])
      ensures indexed == FullScan(chain)
    {
      indexed := start;
      for i := from to |chain|
        invariant indexed == FullScan(chain[..i])
      {
        var b := chain[i];
        assert chain[..i + 1][..i] == chain[..i];
        if b.body.submissionId != "" && b.body.media.Some? {
          indexed := indexed[b.body.submissionId := b.body.index];
        }
      }
      assert chain[..|chain|] == chain;
    }
  }

  /** An index that survives the marker check indexed a prefix of the present chain. */
  lemma SurvivorIsPrefix(chain: seq<Block>, c: seq<Block>, hash: Hash)
    requires HashCollisionFree(hash) && HashLinked(chain, hash) && HashLinked(c, hash) && |c| <= |chain|
    requires c != [] ==> chain[|c| - 1].hash == c[|c| - 1].hash
    ensures chain[..|c|] == c
  {
    if c != [] {
      SameHashSamePrefix(chain, c, |c| - 1, hash);
      assert c[..|c|] == c;
    }
  }

  // ----- Finality membership ---------------------------------------------------------------

  function Reference(p: Proof): (nat, string) { (p.height, Lower(p.hash)) }

  ghost function Members(ps: seq<Proof>): set<(nat, string)> { set p | p in ps :: Reference(p) }

  /** No two records of the list have one reference. */
  ghost predicate DistinctReferences(ps: seq<Proof>) { DistinctImages(ps, Reference) }

  /** The marker check passes: the record that ended the old list stands where it stood. */
  predicate MarkerInPlace(before: seq<Proof>, after: seq<Proof>)
  {
    before == [] ||
    (&& |before| <= |after| && after[|before| - 1].height == before[|before| - 1].height
     && after[|before| - 1].hash == before[|before| - 1].hash)
  }

  /** What one call makes of the exact set of the old list, now that the list is another one. */
  ghost function Incremental(before: seq<Proof>, after: seq<Proof>): set<(nat, string)>
  {
    if MarkerInPlace(before, after) then Members(before) + Members(after[|before|..]) else Members(after)
  }

  /** If the marker is in place then so is everything before it, in some order. */
  ghost predicate Aligned(before: seq<Proof>, after: seq<Proof>)
  {
    MarkerInPlace(before, after) ==> Members(after[..|before|]) == Members(before)
  }

  class FinalityIndex {
    var chain: seq<Block>
    var records: seq<Proof>
    var known: set<(nat, string)>
    var length: nat
    var last: Option<(nat, string)>
    ghost var source: seq<Proof>

    constructor ()
      ensures chain == [] && records == [] && source == [] && known == Members(source) && Marks()
    {
      chain, records, known, length, last, source := [], [], {}, 0, None, [];
    }

    /** The marker fields describe the list indexed last. */
    ghost predicate Marks()
      reads this`length, this`last, this`source
    {
      && length == |source|
      && last == if source == [] then None else Some((source[length - 1].height, source[length - 1].hash))
    }

    /** `_is_finalized_dispute_reference`: the lists may have been replaced by any others since the last call. */
    method Contains(height: nat, hash: string) returns (member: bool)
      requires Marks()
      modifies this`known, this`length, this`last, this`source
      ensures Marks() && source == records
      ensures member <==> height < |chain| && Lower(chain[height].hash) == Lower(hash) && (height, Lower(hash)) in known
      ensures old(known) <= Members(old(source)) ==> known <= Members(old(source)) + Members(records)
      ensures old(known) == Members(old(source)) ==> known == Incremental(old(source), records)
    {
      var from := length;
      var index := known;
      if from > |records| || (from > 0 && Some((records[from - 1].height, records[from - 1].hash)) != last) {
        index, from := {}, 0;
      }
      index := Absorb(index, from);
      MembersSplit(records, from);
      known := index;
      length := |records|;
      last := if records == [] then None else Some((records[|records| - 1].height, records[|records| - 1].hash));
      source := records;
      return height < |chain| && Lower(chain[height].hash) == Lower(hash) && (height, Lower(hash)) in index;
    }

    /** The loop over the records not yet indexed. */
    method Absorb(base: set<(nat, string)>, from: nat) returns (index: set<(nat, string)>)
      requires from <= |records|
      ensures index == base + Members(records[from..])
    {
      index := base;
      for i := from to |records|
        invariant index == base + Members(records[from..i])
      {
        assert records[from..i + 1] == records[from..i] + [records[i]];
        index := index + {Reference(records[i])};
      }
      assert records[from..|records|] == records[from..];
    }
  }

  lemma MembersSplit(ps: seq<Proof>, n: nat)
    requires n <= |ps|
    ensures Members(ps) == Members(ps[..n]) + Members(ps[n..])
  {
    assert ps == ps[..n] + ps[n..];
  }

  lemma SameSizeSubset<T>(a: set<T>, b: set<T>)
    requires a <= b && |a| == |b|
    ensures a == b
  {
    assert |b - a| == |b| - |a|;
  }

  /** The records of a stretch before `n` and of the rest have no reference in common. */
  lemma PartsAreDisjoint(ps: seq<Proof>, n: nat)
    requires DistinctReferences(ps) && n <= |ps|
    ensures Members(ps[..n]) !! Members(ps[n..])
    ensures DistinctReferences(ps[..n])
  {
    forall p, q | p in ps[..n] && q in ps[n..] ensures Reference(p) != Reference(q) {
      var i :| 0 <= i < n && ps[..n][i] == p;
      var j :| 0 <= j < |ps| - n && ps[n..][j] == q;
      assert ps[i] == p && ps[n + j] == q;
    }
  }

  /**
   Exactly when is the incremental set the full one?  For lists of distinct records: exactly when a marker
   found in place has the old records, in some order, in all the places before it.
   */
  lemma IncrementalIsExact(before: seq<Proof>, after: seq<Proof>)
    requires DistinctReferences(before) && DistinctReferences(after)
    ensures Incremental(before, after) == Members(after) <==> Aligned(before, after)
  {
    if MarkerInPlace(before, after) {
      var n := |before|;
      MembersSplit(after, n);
      PartsAreDisjoint(after, n);
      DistinctImageCount(before, Reference, Members(before));
      DistinctImageCount(after[..n], Reference, Members(after[..n]));
      if Incremental(before, after) == Members(after) {
        assert Members(after[..n]) <= Members(before);
        SameSizeSubset(Members(after[..n]), Members(before));
      }
    }
  }

  /** Appending keeps the set exact, whatever is appended. */
  lemma AppendIsExact(before: seq<Proof>, more: seq<Proof>)
    ensures Incremental(before, before + more) == Members(before + more)
  {
    assert (before + more)[..|before|] == before && (before + more)[|before|..] == more;
    MembersSplit(before + more, |before|);
  }

  /** So does every list in strictly increasing height that keeps the old records. */
  lemma SortedGrowthIsExact(before: seq<Proof>, after: seq<Proof>)
    requires HeightsIncrease(before) && HeightsIncrease(after)
    requires forall p :: p in before ==> p in after
    ensures Incremental(before, after) == Members(after)
  {
    if before != [] && MarkerInPlace(before, after) {
      PrefixByCount(before, after);
      MembersSplit(after, |before|);
    }
  }

  /** Guarded writes leave such lists, so an index fed by the durable document is exact over its whole history. */
  lemma HistoryKeepsIndexExact(states: seq<Document>, i: nat, j: nat)
    requires History(states) && i <= j < |states|
    ensures Incremental(states[i].proofs, states[j].proofs) == Members(states[j].proofs)
  {
    HistoryIsSound(states, i);
    HistoryIsSound(states, j);
    forall p | p in states[i].proofs ensures p in states[j].proofs {
      FinalityIsMonotone(states, i, j, p);
    }
    SortedGrowthIsExact(states[i].proofs, states[j].proofs);
  }

  lemma {:induction false} PrefixByCount(before: seq<Proof>, after: seq<Proof>)
    requires HeightsIncrease(before) && HeightsIncrease(after) && |before| > 0 && |before| <= |after|
    requires forall p :: p in before ==> p in after
    requires after[|before| - 1].height == before[|before| - 1].height
    ensures after[..|before|] == before
  {
    var n := |before| - 1;
    assert before[n] in after;
    var k :| 0 <= k < |after| && after[k] == before[n];
    assert k == n;
    if n > 0 {
      PredecessorInPlace(before, after, n);
      var front := before[..n];
      assert front[n - 1] == before[n - 1];
      forall p | p in front ensures p in after { assert p in before; }
      PrefixByCount(front, after);
    }
    assert after[..n + 1] == after[..n] + [after[n]] && before == before[..n] + [before[n]];
  }

  /** Heights below a record are at most as many as its position, and all of `before` must fit. */
  lemma {:induction false} PredecessorInPlace(before: seq<Proof>, after: seq<Proof>, n: nat)
    requires HeightsIncrease(before) && HeightsIncrease(after) && 0 < n < |before| && n < |after|
    requires forall p :: p in before ==> p in after
    requires after[n] == before[n]
    ensures after[n - 1].height == before[n - 1].height
  {
    var i := PositionAtLeast(before, after, n - 1);
    assert after[i] == before[n - 1] && i >= n - 1;
    assert i < n;
  }

  lemma {:induction false} PositionAtLeast(before: seq<Proof>, after: seq<Proof>, k: nat) returns (i: nat)
    requires HeightsIncrease(before) && HeightsIncrease(after) && k < |before|
    requires forall p :: p in before ==> p in after
    ensures k <= i < |after| && after[i] == before[k]
  {
    assert before[k] in after;
    i :| 0 <= i < |after| && after[i] == before[k];
    if k > 0 {
      var j := PositionAtLeast(before, after, k - 1);
      assert after[j].height < after[i].height;
    }
  }

  /**
   A list in another order can hide a record from the set although every record was kept and the marker did
   not move.  By HistoryKeepsIndexExact this list is none a guarded write leaves.
   */
  lemma UnsortedGrowthMisses()
    ensures var a, b, c := Proof(1, "a", ""), Proof(2, "b", ""), Proof(3, "c", "");
            var before, after := [a, b], [c, b, a];
            && Members(before) <= Members(after) && MarkerInPlace(before, after)
            && DistinctReferences(before) && DistinctReferences(after)
            && Reference(c) in Members(after) && Reference(c) !in Incremental(before, after)
  {
    var a, b, c := Proof(1, "a", ""), Proof(2, "b", ""), Proof(3, "c", "");
    var before, after := [a, b], [c, b, a];
    assert after[2..] == [a] && c in after;
    assert Reference(c).0 != Reference(a).0 && Reference(c).0 != Reference(b).0;
  }
}
