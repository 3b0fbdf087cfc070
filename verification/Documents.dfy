/**
 The one locked durable document of a node, as every facade and storage backend
 sees it.  Sections the model never inspects are folded into `other`.
 */
module Documents {
  import opened Wrappers
  import opened CommunityReport

  /** Everything of a block that its hash covers; `rest` is the part never inspected here. */
  datatype Body = Body(index: int, previousHash: string, submissionId: string, certificateId: string,
                       contentHash: string, contentId: Option<string>, creatorWallet: string, miner: string,
                       media: Option<string>, rest: string)

  /** Absent string fields read as "", as in `str(block.get(field) or "")`. */
  datatype Block = Block(body: Body, hash: string)

  type Hash = Body -> string

  ghost predicate HashCollisionFree(hash: Hash)
  {
    forall a, b :: hash(a) == hash(b) ==> a == b
  }

  /** Every stored hash is the hash of its body and every block links to the one before. */
  predicate HashLinked(chain: seq<Block>, hash: Hash)
  {
    forall i :: 0 <= i < |chain| ==>
      && chain[i].hash == hash(chain[i].body)
      && (i > 0 ==> chain[i].body.previousHash == chain[i - 1].hash)
  }

  /** Equal hash at one position means an equal prefix: the fact behind every cache of the node. */
  lemma {:induction false} SameHashSamePrefix(a: seq<Block>, b: seq<Block>, n: nat, hash: Hash)
    requires HashCollisionFree(hash) && HashLinked(a, hash) && HashLinked(b, hash)
    requires n < |a| && n < |b| && a[n].hash == b[n].hash
    ensures a[..n + 1] == b[..n + 1]
  {
    assert a[n] == b[n];
    if n > 0 {
      SameHashSamePrefix(a, b, n - 1, hash);
    }
    assert a[..n + 1] == a[..n] + [a[n]] && b[..n + 1] == b[..n] + [b[n]];
  }

  datatype Status = Pending | Approved | Queued | Rejected | HardRejected | Minted | Quarantined

  const REPORT_THRESHOLD := "community_report_threshold"

  datatype Submission = Submission(submitter: string, contentHash: string, status: Status, attested: bool,
                                   quarantineReason: Option<string>, reports: seq<Report>,
                                   evidence: Option<Tally>, rest: string)

  /** A quorum certificate for the block `hash` at `height`. */
  datatype Proof = Proof(height: nat, hash: string, certificate: string)

  /** One validator's signed finality message; `content` is what the message fixes besides the target. */
  datatype Vote = Vote(height: nat, hash: string, message: string, content: string, signature: string)

  datatype Document = Document(chain: seq<Block>, submissions: map<string, Submission>, queue: seq<string>,
                               proofs: seq<Proof>, votes: seq<Vote>, disputes: map<string, seq<Report>>,
                               peers: seq<string>, other: string)

  predicate OnChain(chain: seq<Block>, submissionId: string)
  {
    exists i :: 0 <= i < |chain| && chain[i].body.submissionId == submissionId
  }

  /** `[item for item in queue if item != id]` */
  function Without(queue: seq<string>, id: string): (r: seq<string>)
    ensures forall x :: x in r <==> x in queue && x != id
  {
    if queue == [] then [] else
    if queue[0] == id then Without(queue[1..], id) else [queue[0]] + Without(queue[1..], id)
  }
}
