/**
 The cache of validated chain prefixes (blockchain.py): a restored chain is validated in
 full only where it differs from what was validated before.
 */
module ValidatedPrefix {
  import opened Wrappers
  import opened Documents

  /** Consensus rules: block hashing, the frozen genesis, and block validity over the prior chain. */
  datatype Rules = Rules(hash: Hash, genesis: Body, blockValid: (Block, seq<Block>) -> bool)

  predicate BlockOk(chain: seq<Block>, i: nat, rules: Rules)
    requires i < |chain|
  {
    if i == 0 then chain[0] == Block(rules.genesis, rules.hash(rules.genesis))
    else
      && chain[i].hash == rules.hash(chain[i].body)
      && chain[i].body.previousHash == chain[i - 1].hash
      && rules.blockValid(chain[i], chain[..i])
  }

  /** The slow form: `validate_chain`. */
  predicate FullyValid(chain: seq<Block>, rules: Rules)
  {
    chain != [] && forall i :: 0 <= i < |chain| ==> BlockOk(chain, i, rules)
  }

  function Hashes(chain: seq<Block>): (hs: seq<string>)
  {
    seq(|chain|, i requires 0 <= i < |chain| => chain[i].hash)
  }

  lemma ValidPrefix(chain: seq<Block>, n: nat, rules: Rules)
    requires FullyValid(chain, rules) && 0 < n <= |chain|
    ensures FullyValid(chain[..n], rules)
  {
    forall i | 0 <= i < n ensures BlockOk(chain[..n], i, rules) {
      assert BlockOk(chain, i, rules);
      assert chain[..n][..i] == chain[..i];
    }
  }

  lemma ValidExtension(chain: seq<Block>, n: nat, rules: Rules)
    requires 0 < n <= |chain| && FullyValid(chain[..n], rules)
    requires forall i :: n <= i < |chain| ==> BlockOk(chain, i, rules)
    ensures FullyValid(chain, rules)
  {
    forall i | 0 <= i < n ensures BlockOk(chain, i, rules) {
      assert BlockOk(chain[..n], i, rules);
      assert chain[..n][..i] == chain[..i];
    }
  }

  /** Rehashing against the cached hashes identifies the very blocks that were validated. */
  lemma RehashedPrefixWasValidated(chain: seq<Block>, validated: seq<Block>, rules: Rules)
    requires HashCollisionFree(rules.hash) && FullyValid(validated, rules) && |validated| <= |chain|
    requires Hashes(chain)[..|validated|] == Hashes(validated)
    requires forall i :: 0 <= i < |validated| ==> chain[i].hash == rules.hash(chain[i].body)
    ensures chain[..|validated|] == validated
  {
    forall i | 0 <= i < |validated| ensures chain[i] == validated[i] {
      assert Hashes(chain)[..|validated|][i] == chain[i].hash && Hashes(validated)[i] == validated[i].hash;
      assert BlockOk(validated, i, rules);
    }
  }

  class Validator {
    const rules: Rules
    /** Whether the admission activation record permits a chain other than the local one. */
    var activationOk: bool
    var chain: seq<Block>
    /** `_validated_chain_prefix_hashes`; the empty tuple stands for its initial None. */
    var cached: seq<string>

    constructor (rules: Rules)
      requires HashCollisionFree(rules.hash)
      ensures this.rules == rules && chain == [] && cached == [] && CacheIsTruthful()
    {
      this.rules := rules;
      activationOk, chain, cached := false, [], [];
    }

    /** The cached hashes are those of some fully valid chain; nothing here depends on `chain`. */
    ghost predicate CacheIsTruthful()
      reads this`cached
    {
      && HashCollisionFree(rules.hash)
      && (cached == [] || exists c :: FullyValid(c, rules) && Hashes(c) == cached)
    }

    method ValidateChain(candidate: seq<Block>) returns (ok: bool)
      ensures ok == FullyValid(candidate, rules)
    {
      if candidate == [] || candidate[0] != Block(rules.genesis, rules.hash(rules.genesis)) {
        assert candidate != [] ==> !BlockOk(candidate, 0, rules);
        return false;
      }
      for index := 1 to |candidate|
        invariant forall i :: 0 <= i < index ==> BlockOk(candidate, i, rules)
      {
        var b := candidate[index];
        if b.hash != rules.hash(b.body) || b.body.previousHash != candidate[index - 1].hash
           || !rules.blockValid(b, candidate[..index]) {
          assert !BlockOk(candidate, index, rules);
          return false;
        }
      }
      return true;
    }

    /** `is_chain_valid` */
    method IsChainValid(candidate: seq<Block>) returns (ok: bool)
      requires CacheIsTruthful()
      modifies this`cached
      ensures ok == (FullyValid(candidate, rules) && (activationOk || Hashes(candidate) == Hashes(chain)))
      ensures cached == if ok && Hashes(candidate) == Hashes(chain) then Hashes(candidate) else old(cached)
      ensures CacheIsTruthful()
    {
      if Hashes(candidate) != Hashes(chain) && !activationOk {
        return false;
      }
      ok := ValidateChain(candidate);
      if ok && Hashes(candidate) == Hashes(chain) {
        cached := Hashes(candidate);
      }
    }

    /** Recalculate every cached hash and link from the given blocks. */
    method Reusable(candidate: seq<Block>, n: nat) returns (ok: bool)
      requires n <= |candidate|
      ensures ok <==>
                && Hashes(candidate)[..n] == cached
                && (forall i :: 0 <= i < n ==> candidate[i].hash == rules.hash(candidate[i].body))
                && (forall i :: 0 < i < n ==> candidate[i].body.previousHash == candidate[i - 1].hash)
    {
      if Hashes(candidate)[..n] != cached {
        return false;
      }
      for i := 0 to n
        invariant forall k :: 0 <= k < i ==> candidate[k].hash == rules.hash(candidate[k].body)
        invariant forall k :: 0 < k < i ==> candidate[k].body.previousHash == candidate[k - 1].hash
      {
        if candidate[i].hash != rules.hash(candidate[i].body) {
          return false;
        }
        if i > 0 && candidate[i].body.previousHash != candidate[i - 1].hash {
          return false;
        }
      }
      return true;
    }

    /**
     `_ensure_validated_chain_prefix` returns normally.  A truthful cache never lets an invalid chain
     through, and never stops a valid one that the local node may validate at all.
     */
    method EnsureValidatedPrefix(candidate: seq<Block>) returns (ok: bool)
      requires CacheIsTruthful()
      modifies this`cached
      ensures ok ==> FullyValid(candidate, rules)
      ensures FullyValid(candidate, rules) && (activationOk || Hashes(candidate) == Hashes(chain)) ==> ok
      ensures CacheIsTruthful()
      ensures ok && Hashes(candidate) == Hashes(chain) ==> cached == Hashes(candidate)
    {
      if cached == [] || |cached| > |candidate| {
        ok := IsChainValid(candidate);
        return;
      }
      var n := |cached|;
      var reusable := Reusable(candidate, n);
      if !reusable {
        ok := IsChainValid(candidate);
        return;
      }
      ghost var validated :| FullyValid(validated, rules) && Hashes(validated) == cached;
      RehashedPrefixWasValidated(candidate, validated, rules);
      for index := n to |candidate|
        invariant forall i :: n <= i < index ==> BlockOk(candidate, i, rules)
      {
        var b := candidate[index];
        if b.hash != rules.hash(b.body) || b.body.previousHash != candidate[index - 1].hash
           || !rules.blockValid(b, candidate[..index]) {
          assert !BlockOk(candidate, index, rules);
          return false;
        }
      }
      ValidExtension(candidate, n, rules);
      cached := Hashes(candidate);
      return true;
    }

    /**
     `validate_candidate_block_for_local_acceptance` on the local chain.  An accepted candidate gives a fully
     valid longer chain, which the cache then names; a later failure to commit it leaves the cache truthful,
     since the cache speaks of some valid chain and not of the local one.  `transactionsOk` is the check of the
     candidate's own transactions against this node's balances, which no other block undergoes: it can refuse a
     block of a fully valid chain.
     */
    method AcceptCandidate(b: Block, transactionsOk: Block -> bool) returns (ok: bool)
      requires CacheIsTruthful()
      modifies this`cached
      ensures ok <==> activationOk && chain != [] && FullyValid(chain + [b], rules) &&
                      b.body.index == chain[|chain| - 1].body.index + 1 && transactionsOk(b)
      ensures ok ==> cached == Hashes(chain + [b])
      ensures CacheIsTruthful()
    {
      ghost var longer := chain + [b];
      if !activationOk {
        return false;
      }
      var prefix := EnsureValidatedPrefix(chain);
      assert longer[..|chain|] == chain;
      if !prefix {
        if FullyValid(longer, rules) && chain != [] { ValidPrefix(longer, |chain|, rules); }
        return false;
      }
      var latest := chain[|chain| - 1];
      if b.body.previousHash != latest.hash || b.body.index != latest.body.index + 1
         || b.hash != rules.hash(b.body) || !transactionsOk(b) || !rules.blockValid(b, chain) {
        assert BlockOk(longer, |chain|, rules) ==> b.body.index != latest.body.index + 1 || !transactionsOk(b);
        return false;
      }
      assert BlockOk(longer, |chain|, rules);
      ValidExtension(longer, |chain|, rules);
      assert Hashes(longer) == Hashes(chain) + [b.hash];
      cached := cached + [b.hash];
      return true;
    }
  }
}
