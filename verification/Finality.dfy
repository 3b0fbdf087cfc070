/**
 The guard every durable write passes (storage.py): quorum certificates are never
 dropped or replaced, the finalized ancestry never changes, and the immutable
 claims of the chain stay unique.
 */
module Finality {
  import opened Wrappers
  import opened Documents

  // ----- Collecting certificates ----------------------------------------------

  /** The first durable pass; None on a duplicate height. */
  function DurableProofs(ps: seq<Proof>): Option<map<nat, Proof>>
  {
    if ps == [] then Some(map[]) else
    var p := ps[|ps| - 1];
    match DurableProofs(ps[..|ps| - 1])
    case None => None
    case Some(m) => if p.height in m then None else Some(m[p.height := p])
  }

  /** The second pass: an equal-height certificate for another block is a conflict, otherwise the first stays. */
  function AddIncoming(m: map<nat, Proof>, ps: seq<Proof>): Option<map<nat, Proof>>
  {
    if ps == [] then Some(m) else
    var p := ps[|ps| - 1];
    match AddIncoming(m, ps[..|ps| - 1])
    case None => None
    case Some(k) =>
      if p.height in k then (if k[p.height].hash == p.hash then Some(k) else None)
      else Some(k[p.height := p])
  }

  function Collected(durable: seq<Proof>, incoming: seq<Proof>): Option<map<nat, Proof>>
  {
    match DurableProofs(durable)
    case None => None
    case Some(m) => AddIncoming(m, incoming)
  }

  method CollectProofs(durable: seq<Proof>, incoming: seq<Proof>) returns (r: Option<map<nat, Proof>>)
    ensures r == Collected(durable, incoming)
  {
    var proofs: map<nat, Proof> := map[];
    for i := 0 to |durable|
      invariant DurableProofs(durable[..i]) == Some(proofs)
    {
      assert durable[..i + 1][..i] == durable[..i];
      if durable[i].height in proofs {
        DurableFailurePersists(durable, i + 1);
        return None;
      }
      proofs := proofs[durable[i].height := durable[i]];
    }
    assert durable[..|durable|] == durable;
    ghost var first := proofs;
    for i := 0 to |incoming|
      invariant AddIncoming(first, incoming[..i]) == Some(proofs)
    {
      var p := incoming[i];
      assert incoming[..i + 1][..i] == incoming[..i];
      if p.height in proofs {
        if proofs[p.height].hash != p.hash {
          IncomingFailurePersists(first, incoming, i + 1);
          return None;
        }
      } else {
        proofs := proofs[p.height := p];
      }
    }
    assert incoming[..|incoming|] == incoming;
    return Some(proofs);
  }

  lemma {:induction false} DurableFailurePersists(ps: seq<Proof>, n: nat)
    requires n <= |ps| && DurableProofs(ps[..n]).None?
    ensures DurableProofs(ps).None?
    decreases |ps|
  {
    if n < |ps| {
      assert ps[..|ps| - 1][..n] == ps[..n];
      DurableFailurePersists(ps[..|ps| - 1], n);
    } else {
      assert ps[..n] == ps;
    }
  }

  lemma {:induction false} IncomingFailurePersists(m: map<nat, Proof>, ps: seq<Proof>, n: nat)
    requires n <= |ps| && AddIncoming(m, ps[..n]).None?
    ensures AddIncoming(m, ps).None?
    decreases |ps|
  {
    if n < |ps| {
      assert ps[..|ps| - 1][..n] == ps[..n];
      IncomingFailurePersists(m, ps[..|ps| - 1], n);
    } else {
      assert ps[..n] == ps;
    }
  }

  lemma {:induction false} DurableProofsHolds(ps: seq<Proof>)
    requires DurableProofs(ps).Some?
    ensures var m := DurableProofs(ps).value;
            && (forall p :: p in ps ==> p.height in m && m[p.height] == p)
            && (forall h :: h in m ==> m[h].height == h && m[h] in ps)
  {
    if ps != [] {
      assert ps == ps[..|ps| - 1] + [ps[|ps| - 1]];
      DurableProofsHolds(ps[..|ps| - 1]);
    }
  }

  lemma {:induction false} AddIncomingHolds(m: map<nat, Proof>, ps: seq<Proof>)
    requires forall h :: h in m ==> m[h].height == h
    requires AddIncoming(m, ps).Some?
    ensures var k := AddIncoming(m, ps).value;
            && (forall h :: h in m ==> h in k && k[h] == m[h])
            && (forall p :: p in ps ==> p.height in k && k[p.height].hash == p.hash)
            && (forall h :: h in k ==> k[h].height == h && (h in m || k[h] in ps))
  {
    if ps != [] {
      var front, last := ps[..|ps| - 1], ps[|ps| - 1];
      AddIncomingHolds(m, front);
      assert forall p :: p in ps <==> p in front || p == last by { assert ps == front + [last]; }
      AddOneHolds(m, AddIncoming(m, front).value, AddIncoming(m, ps).value, front, last);
    }
  }

  lemma AddOneHolds(m: map<nat, Proof>, before: map<nat, Proof>, after: map<nat, Proof>, front: seq<Proof>, last: Proof)
    requires forall h :: h in m ==> h in before && before[h] == m[h]
    requires forall p :: p in front ==> p.height in before && before[p.height].hash == p.hash
    requires forall h :: h in before ==> before[h].height == h && (h in m || before[h] in front)
    requires if last.height in before then before[last.height].hash == last.hash && after == before
             else after == before[last.height := last]
    ensures forall h :: h in m ==> h in after && after[h] == m[h]
    ensures forall p :: p in front || p == last ==> p.height in after && after[p.height].hash == p.hash
    ensures forall h :: h in after ==> after[h].height == h && (h in m || after[h] in front || after[h] == last)
  {
  }

  /** Every durable certificate survives as the same record; every incoming one agrees with what is kept. */
  lemma CollectedHolds(durable: seq<Proof>, incoming: seq<Proof>)
    requires Collected(durable, incoming).Some?
    ensures var m := Collected(durable, incoming).value;
            && (forall p :: p in durable ==> p.height in m && m[p.height] == p)
            && (forall p :: p in incoming ==> p.height in m && m[p.height].hash == p.hash)
            && (forall h :: h in m ==> m[h].height == h && (m[h] in durable || m[h] in incoming))
  {
    DurableProofsHolds(durable);
    AddIncomingHolds(DurableProofs(durable).value, incoming);
  }

  // ----- Finalized ancestry ----------------------------------------------------

  /** `{block.index: block.hash for block in chain}` */
  function Targets(chain: seq<Block>): map<int, string>
  {
    if chain == [] then map[] else
    var b := chain[|chain| - 1];
    Targets(chain[..|chain| - 1])[b.body.index := b.hash]
  }

  /** The chain is indexed and linked from genesis up to and including height `n`. */
  predicate Ancestry(chain: seq<Block>, n: nat)
  {
    && n < |chain|
    && forall i :: 0 <= i <= n ==>
         && chain[i].body.index == i
         && (i > 0 ==> chain[i].body.previousHash == chain[i - 1].hash)
  }

  /** The triples (index, hash, previous hash) that finality fixes. */
  function Summary(chain: seq<Block>): (r: seq<(int, string, string)>)
  {
    seq(|chain|, i requires 0 <= i < |chain| => (chain[i].body.index, chain[i].hash, chain[i].body.previousHash))
  }

  predicate SameSummary(a: seq<Block>, b: seq<Block>, n: nat)
  {
    n < |a| && n < |b| && Summary(a)[..n + 1] == Summary(b)[..n + 1]
  }

  predicate AncestryKept(durable: Document, chain: seq<Block>, proofs: map<nat, Proof>)
  {
    && (forall h :: h in proofs ==> Ancestry(chain, h))
    && (forall h :: h in proofs ==> (h as int) in Targets(chain) && Targets(chain)[h] == proofs[h].hash)
    && (forall p :: p in durable.proofs ==> SameSummary(durable.chain, chain, p.height))
  }

  method Boundary(proofs: map<nat, Proof>) returns (boundary: nat)
    requires proofs != map[]
    ensures boundary in proofs && forall h :: h in proofs ==> h <= boundary
  {
    var left := proofs.Keys;
    boundary :| boundary in left;
    left := left - {boundary};
    while left != {}
      invariant boundary in proofs && left <= proofs.Keys
      invariant forall h :: h in proofs ==> h in left || h <= boundary
      decreases |left|
    {
      var h :| h in left;
      left := left - {h};
      if h > boundary { boundary := h; }
    }
  }

  method CheckAncestry(chain: seq<Block>, boundary: nat) returns (ok: bool)
    ensures ok == Ancestry(chain, boundary)
  {
    if |chain| <= boundary {
      return false;
    }
    for i := 0 to boundary + 1
      invariant forall k :: 0 <= k < i ==> chain[k].body.index == k
      invariant forall k :: 0 < k < i ==> chain[k].body.previousHash == chain[k - 1].hash
    {
      if chain[i].body.index != i || (i > 0 && chain[i].body.previousHash != chain[i - 1].hash) {
        return false;
      }
    }
    return true;
  }

  method BuildTargets(chain: seq<Block>) returns (targets: map<int, string>)
    ensures targets == Targets(chain)
  {
    targets := map[];
    for i := 0 to |chain|
      invariant targets == Targets(chain[..i])
    {
      assert chain[..i + 1][..i] == chain[..i];
      targets := targets[chain[i].body.index := chain[i].hash];
    }
    assert chain[..|chain|] == chain;
  }

  lemma AncestryDownward(chain: seq<Block>, n: nat, k: nat)
    requires Ancestry(chain, n) && k <= n
    ensures Ancestry(chain, k)
  {
  }

  lemma SummaryDownward(a: seq<Block>, b: seq<Block>, n: nat, k: nat)
    requires SameSummary(a, b, n) && k <= n
    ensures SameSummary(a, b, k)
  {
    assert Summary(a)[..k + 1] == Summary(a)[..n + 1][..k + 1];
    assert Summary(b)[..k + 1] == Summary(b)[..n + 1][..k + 1];
  }

  method CheckTargets(targets: map<int, string>, proofs: map<nat, Proof>) returns (ok: bool)
    ensures ok == forall h :: h in proofs ==> (h as int) in targets && targets[h] == proofs[h].hash
  {
    var left := proofs.Keys;
    while left != {}
      invariant left <= proofs.Keys
      invariant forall h :: h in proofs ==> h in left || ((h as int) in targets && targets[h] == proofs[h].hash)
      decreases |left|
    {
      var h :| h in left;
      if (h as int) !in targets || targets[h] != proofs[h].hash {
        return false;
      }
      left := left - {h};
    }
    return true;
  }

  /** The largest certified height of a non-empty list. */
  method OldBoundary(ps: seq<Proof>) returns (boundary: nat)
    requires ps != []
    ensures (exists p :: p in ps && p.height == boundary) && forall p :: p in ps ==> p.height <= boundary
  {
    boundary := ps[0].height;
    for i := 0 to |ps|
      invariant (exists p :: p in ps && p.height == boundary) && forall k :: 0 <= k < i ==> ps[k].height <= boundary
    {
      if ps[i].height > boundary { boundary := ps[i].height; }
    }
  }

  /** The four ancestry refusals of `_preserve_finality`, in one verdict. */
  method CheckKept(durable: Document, chain: seq<Block>, proofs: map<nat, Proof>) returns (ok: bool)
    requires forall p :: p in durable.proofs ==> p.height in proofs
    ensures ok == AncestryKept(durable, chain, proofs)
  {
    if proofs == map[] {
      return true;
    }
    var boundary := Boundary(proofs);
    var linked := CheckAncestry(chain, boundary);
    if !linked {
      return false;
    }
    forall h | h in proofs ensures Ancestry(chain, h) { AncestryDownward(chain, boundary, h); }
    var targets := BuildTargets(chain);
    var matching := CheckTargets(targets, proofs);
    if !matching {
      return false;
    }
    if durable.proofs == [] {
      return true;
    }
    var was := OldBoundary(durable.proofs);
    ok := SameSummary(durable.chain, chain, was);
    if ok {
      forall p | p in durable.proofs ensures SameSummary(durable.chain, chain, p.height) {
        SummaryDownward(durable.chain, chain, was, p.height);
      }
    }
  }

  // ----- Votes ------------------------------------------------------------------

  predicate Recorded(kept: seq<Vote>, v: Vote) { exists k :: k in kept && k.message == v.message }

  predicate Contradicted(kept: seq<Vote>, v: Vote)
  {
    exists k :: k in kept && k.message == v.message && k.(signature := v.signature) != v
  }

  predicate Targeted(v: Vote, targets: map<int, string>)
  {
    (v.height as int) in targets && targets[v.height] == v.hash
  }

  /** Votes are a union by signed message; None is a refusal. */
  function MergedVotes(vs: seq<Vote>, targets: map<int, string>, reorg: bool): Option<seq<Vote>>
  {
    if vs == [] then Some([]) else
    var v := vs[|vs| - 1];
    match MergedVotes(vs[..|vs| - 1], targets, reorg)
    case None => None
    case Some(kept) =>
      if !Targeted(v, targets) then (if reorg then Some(kept) else None)
      else if Contradicted(kept, v) then None
      else if Recorded(kept, v) then Some(kept)
      else Some(kept + [v])
  }

  /** Outside a guarded reorganisation no vote is lost. */
  lemma {:induction false} NoVoteIsLost(vs: seq<Vote>, targets: map<int, string>, reorg: bool, v: Vote)
    requires MergedVotes(vs, targets, reorg).Some? && v in vs
    requires !reorg || Targeted(v, targets)
    ensures exists k :: k in MergedVotes(vs, targets, reorg).value && k.(signature := v.signature) == v
  {
    var front, last := vs[..|vs| - 1], vs[|vs| - 1];
    assert vs == front + [last];
    var kept := MergedVotes(front, targets, reorg).value;
    if v in front {
      NoVoteIsLost(front, targets, reorg, v);
      var k :| k in kept && k.(signature := v.signature) == v;
      assert k in MergedVotes(vs, targets, reorg).value;
    } else {
      assert v == last;
      if Recorded(kept, v) {
        var k :| k in kept && k.message == v.message;
        assert k.(signature := v.signature) == v;
      } else {
        assert v in MergedVotes(vs, targets, reorg).value;
      }
    }
  }

  // ----- Canonical claims ---------------------------------------------------------

  predicate Certified(b: Block) { b.body.submissionId != "" || b.body.certificateId != "" }

  /** Two blocks of one chain that claim something only one of them may. */
  predicate Clash(a: Block, b: Block)
  {
    || a.body.index == b.body.index
    || (a.hash == b.hash && a.hash != "")
    || (Certified(a) && Certified(b) &&
        (a.body.submissionId == b.body.submissionId || a.body.certificateId == b.body.certificateId))
  }

  predicate UniqueClaims(chain: seq<Block>)
  {
    && (forall i :: 0 <= i < |chain| && Certified(chain[i]) ==>
          chain[i].body.submissionId != "" && chain[i].body.certificateId != "")
    && (forall i, j :: 0 <= i < j < |chain| ==> !Clash(chain[i], chain[j]))
  }

  /** `canonical_document_claims`, for the claims a block makes by its place and its certificate. */
  method CheckClaims(chain: seq<Block>) returns (ok: bool)
    ensures ok == UniqueClaims(chain)
  {
    var heights: set<int>, hashes: set<string>, submissions: set<string>, certificates: set<string> := {}, {}, {}, {};
    for i := 0 to |chain|
      invariant UniqueClaims(chain[..i])
      invariant forall x :: x in heights <==> exists k :: 0 <= k < i && chain[k].body.index == x
      invariant forall x :: x in hashes <==> exists k :: 0 <= k < i && chain[k].hash == x && x != ""
      invariant forall x :: x in submissions <==>
                  exists k :: 0 <= k < i && Certified(chain[k]) && chain[k].body.submissionId == x
      invariant forall x :: x in certificates <==>
                  exists k :: 0 <= k < i && Certified(chain[k]) && chain[k].body.certificateId == x
    {
      var b := chain[i];
      if b.body.index in heights || (b.hash != "" && b.hash in hashes) {
        return false;
      }
      heights := heights + {b.body.index};
      if b.hash != "" {
        hashes := hashes + {b.hash};
      }
      if Certified(b) {
        if b.body.submissionId == "" || b.body.certificateId == "" {
          return false;
        }
        if b.body.submissionId in submissions || b.body.certificateId in certificates {
          return false;
        }
        submissions := submissions + {b.body.submissionId};
        certificates := certificates + {b.body.certificateId};
      }
    }
    assert chain[..|chain|] == chain;
    return true;
  }

  // ----- The guarded write ---------------------------------------------------------

  /** `[proofs[h] for h in sorted(proofs)]`, for heights below `n`. */
  function Ascending(proofs: map<nat, Proof>, n: nat): seq<Proof>
  {
    if n == 0 then [] else
    Ascending(proofs, n - 1) + if n - 1 in proofs then [proofs[n - 1]] else []
  }

  ghost predicate HeightsIncrease(ps: seq<Proof>)
  {
    forall i, j :: 0 <= i < j < |ps| ==> ps[i].height < ps[j].height
  }

  lemma {:induction false} AscendingHolds(proofs: map<nat, Proof>, n: nat)
    requires forall h :: h in proofs ==> proofs[h].height == h
    ensures HeightsIncrease(Ascending(proofs, n))
    ensures forall p :: p in Ascending(proofs, n) <==> p.height < n && p.height in proofs && proofs[p.height] == p
  {
    if n > 0 {
      AscendingHolds(proofs, n - 1);
      var front := Ascending(proofs, n - 1);
      assert forall i :: 0 <= i < |front| ==> front[i] in front;
    }
  }

  /** `_preserve_finality`; None is a refusal. */
  function Preserve(durable: Document, replacement: Document, reorg: bool): Option<Document>
  {
    match Collected(durable.proofs, replacement.proofs)
    case None => None
    case Some(proofs) =>
      if !AncestryKept(durable, replacement.chain, proofs) then None else
      match MergedVotes(durable.votes + replacement.votes, Targets(replacement.chain), reorg)
      case None => None
      case Some(votes) => Some(replacement.(proofs := Ascending(proofs, |replacement.chain|), votes := votes))
  }

  /** What a backend stores for a proposed replacement of the durable document; None stores nothing. */
  function Write(durable: Document, replacement: Document, reorg: bool): Option<Document>
  {
    match Preserve(durable, replacement, reorg)
    case None => None
    case Some(doc) => if UniqueClaims(doc.chain) then Some(doc) else None
  }

  method MergeVotes(vs: seq<Vote>, targets: map<int, string>, reorg: bool) returns (r: Option<seq<Vote>>)
    ensures r == MergedVotes(vs, targets, reorg)
  {
    var kept: seq<Vote> := [];
    for i := 0 to |vs|
      invariant MergedVotes(vs[..i], targets, reorg) == Some(kept)
    {
      var v := vs[i];
      assert vs[..i + 1][..i] == vs[..i];
      if !Targeted(v, targets) {
        if !reorg {
          VoteFailurePersists(vs, i + 1, targets, reorg);
          return None;
        }
      } else if Contradicted(kept, v) {
        VoteFailurePersists(vs, i + 1, targets, reorg);
        return None;
      } else if !Recorded(kept, v) {
        kept := kept + [v];
      }
    }
    assert vs[..|vs|] == vs;
    return Some(kept);
  }

  lemma {:induction false} VoteFailurePersists(vs: seq<Vote>, n: nat, targets: map<int, string>, reorg: bool)
    requires n <= |vs| && MergedVotes(vs[..n], targets, reorg).None?
    ensures MergedVotes(vs, targets, reorg).None?
    decreases |vs|
  {
    if n < |vs| {
      assert vs[..|vs| - 1][..n] == vs[..n];
      VoteFailurePersists(vs[..|vs| - 1], n, targets, reorg);
    } else {
      assert vs[..n] == vs;
    }
  }

  method SortProofs(proofs: map<nat, Proof>, n: nat) returns (ps: seq<Proof>)
    ensures ps == Ascending(proofs, n)
  {
    ps := [];
    for h := 0 to n
      invariant ps == Ascending(proofs, h)
    {
      if h in proofs { ps := ps + [proofs[h]]; }
    }
  }

  /** The backends' locked replacement of the durable document. */
  class Storage {
    var document: Document

    constructor (initial: Document)
      ensures document == initial
    {
      document := initial;
    }

    method Replace(replacement: Document, reorg: bool) returns (ok: bool)
      modifies this
      ensures ok == Write(old(document), replacement, reorg).Some?
      ensures document == if ok then Write(old(document), replacement, reorg).value else old(document)
    {
      var collected := CollectProofs(document.proofs, replacement.proofs);
      if collected.None? {
        return false;
      }
      CollectedHolds(document.proofs, replacement.proofs);
      var kept := CheckKept(document, replacement.chain, collected.value);
      if !kept {
        return false;
      }
      var targets := BuildTargets(replacement.chain);
      var votes := MergeVotes(document.votes + replacement.votes, targets, reorg);
      if votes.None? {
        return false;
      }
      var unique := CheckClaims(replacement.chain);
      if !unique {
        return false;
      }
      var proofs := SortProofs(collected.value, |replacement.chain|);
      document := replacement.(proofs := proofs, votes := votes.value);
      return true;
    }
  }
}
