/**
 The named sections of the stored document (storage.py), and what becomes of the ones a facade does not
 serialize.  A document is a dictionary; `default` gives the value of a missing section.
 */
module Sections {

  /** The section names; the last is the optional activation record. */
  datatype Section =
    | Chain | Wallets | Submissions | ContentObjects | MintQueue | Votes | TransferIntents | NativeTransactions
    | OriginalityCertificates | OriginalityEvidence | AccessRequests | AccessAccounts | WalletBindings
    | AllowlistEntries | OverrideRequests | FeedbackRecords | AuditLogs | FinalityAttestations | FinalizedBlocks
    | ReportReviewerIndex | PostMintDisputes | Peers | AdmissionActivation

  const STORAGE_SECTIONS := [
    Chain, Wallets, Submissions, ContentObjects, MintQueue, Votes, TransferIntents, NativeTransactions,
    OriginalityCertificates, OriginalityEvidence, AccessRequests, AccessAccounts, WalletBindings,
    AllowlistEntries, OverrideRequests, FeedbackRecords, AuditLogs, FinalityAttestations, FinalizedBlocks,
    ReportReviewerIndex, PostMintDisputes, Peers]

  /** The keys of `_serialize_blockchain_state`, less the optional activation record. */
  const SERIALIZED := {
    Chain, Submissions, ContentObjects, MintQueue, Votes, TransferIntents, NativeTransactions,
    OriginalityCertificates, OriginalityEvidence, AccessRequests, AccessAccounts, WalletBindings,
    AllowlistEntries, OverrideRequests, FeedbackRecords, AuditLogs, FinalityAttestations, FinalizedBlocks,
    PostMintDisputes, ReportReviewerIndex, Wallets}

  type Sectioned<V> = map<Section, V>

  ghost function Filled<V>(document: Sectioned<V>, names: seq<Section>, default: Section -> V): Sectioned<V>
  {
    map name | name in document.Keys + (set n | n in names) :: if name in document then document[name] else default(name)
  }

  method SetDefaults<V>(document: Sectioned<V>, names: seq<Section>, default: Section -> V)
      returns (filled: Sectioned<V>)
    ensures filled == Filled(document, names, default)
  {
    filled := document;
    for i := 0 to |names|
      invariant filled == Filled(document, names[..i], default)
    {
      assert names[..i + 1] == names[..i] + [names[i]];
      if names[i] !in filled {
        filled := filled[names[i] := default(names[i])];
      }
    }
    assert names[..|names|] == names;
  }

  /** `_normalize_blockchain_document`: `setdefault` over the storage sections. */
  method Normalize<V>(document: Sectioned<V>, default: Section -> V) returns (normalized: Sectioned<V>)
    ensures normalized == Filled(document, STORAGE_SECTIONS, default)
  {
    normalized := SetDefaults(document, STORAGE_SECTIONS, default);
  }

  /** The state of a facade that restored `durable` and then changed only the sections of `changed`. */
  ghost predicate Serializes<V>(state: Sectioned<V>, durable: Sectioned<V>, changed: set<Section>)
  {
    && (state.Keys == SERIALIZED || state.Keys == SERIALIZED + {AdmissionActivation})
    && (forall name :: name in SERIALIZED && name !in changed ==> name in durable && state[name] == durable[name])
  }

  /** A stored section has the value it had. */
  ghost predicate Kept<V>(before: Sectioned<V>, after: Sectioned<V>, name: Section)
  {
    name in before && name in after && after[name] == before[name]
  }

  lemma OnlyPeersAreNotSerialized(name: Section)
    ensures name in STORAGE_SECTIONS <==> name in SERIALIZED || name == Peers
    ensures Peers !in SERIALIZED
  {
  }

  /**
   An operation that stores the serialized state itself keeps every section it did not change if and only if no
   peer was stored: of all sections, the peers alone are not serialized, and normalization replaces them.
   */
  lemma StateKeepsTheRestExactlyWithoutPeers<V>(state: Sectioned<V>, durable: Sectioned<V>, changed: set<Section>,
                                                default: Section -> V)
    requires Serializes(state, durable, changed) && changed <= SERIALIZED
    requires forall name :: name in STORAGE_SECTIONS ==> name in durable
    ensures var stored := Filled(state, STORAGE_SECTIONS, default);
            (forall name :: name in STORAGE_SECTIONS && name !in changed ==> Kept(durable, stored, name)) <==>
              durable[Peers] == default(Peers)
  {
    var stored := Filled(state, STORAGE_SECTIONS, default);
    OnlyPeersAreNotSerialized(Peers);
    assert Peers !in state && Peers in stored && stored[Peers] == default(Peers);
    forall name | name in STORAGE_SECTIONS && name !in changed && name != Peers ensures Kept(durable, stored, name) {
      OnlyPeersAreNotSerialized(name);
    }
  }

  /** A whole-state save, which lays the serialized state over the durable document, keeps the peers as well. */
  lemma SaveKeepsTheRest<V>(state: Sectioned<V>, durable: Sectioned<V>, changed: set<Section>, default: Section -> V)
    requires Serializes(state, durable, changed)
    requires forall name :: name in STORAGE_SECTIONS ==> name in durable
    ensures forall name :: name in STORAGE_SECTIONS && name !in changed ==>
              Kept(durable, Filled(durable + state, STORAGE_SECTIONS, default), name)
  {
    forall name | name in STORAGE_SECTIONS && name !in changed
      ensures Kept(durable, Filled(durable + state, STORAGE_SECTIONS, default), name)
    {
      OnlyPeersAreNotSerialized(name);
    }
  }
}
