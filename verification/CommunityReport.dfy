/**
 Signed pre-mint community reports and their one-wallet-one-report tally
 (community_report.py).  `canonical_hash` is the parameter `digest`; collision
 freedom is an explicit hypothesis of the lemmas that need it.
 */
module CommunityReport {
  import opened Ordering
  import opened Wrappers

  const MINIMUM_VALID_REPORTS := 3
  const MINIMUM_ESTABLISHED_REPORTERS := 1

  datatype Reason =
    | PotentiallyIllegal | NonconsensualOrPrivate | ExploitationOrAbuse
    | DangerousOrHarmful | ImpersonationOrDeception | OtherPolicyConcern

  datatype ReviewerStatus = New | Probationary | Established | Cooldown | Suspended

  datatype Reference = Reference(height: nat, blockHash: string, status: ReviewerStatus)

  /** The signed payload; the policy constants it also carries are the same in every report. */
  datatype Payload = Payload(wallet: string, submissionId: string, contentHash: string, reason: Reason,
                             nonce: string, issuedAt: string, expiresAt: string)

  /** A canonical record: transport fields stripped, signature and reference hash normalised. */
  datatype Report = Report(payload: Payload, signature: string, identity: string, reference: Reference)
  {
    function Wallet(): string { payload.wallet }
  }

  type Digest = Report -> string

  ghost predicate CollisionFree(digest: Digest)
  {
    forall a, b :: digest(a) == digest(b) ==> a == b
  }

  /** The durable and the tally order: wallet, then signed identity, then record digest. */
  function OrderKey(digest: Digest): Report -> seq<string>
  {
    (r: Report) => [r.Wallet(), r.identity, digest(r)]
  }

  function WalletKey(): Report -> seq<string> { (r: Report) => [r.Wallet()] }

  // ----- The tally -----------------------------------------------------------

  datatype Evidence = Evidence(identity: string, reference: Reference)

  datatype Item = Item(wallet: string, reason: Reason, identity: string, reference: Reference,
                       established: Option<Evidence>)

  /** The digests of the source hash exactly these fields, so they are left implicit. */
  datatype Tally = Tally(items: seq<Item>, observed: seq<string>, established: nat, met: bool, trigger: seq<Item>)

  datatype TallyResult = Counted(tally: Tally) | DuplicateObservation | SearchExhausted

  predicate HasWallet(rs: seq<Report>, w: string) { exists r :: r in rs && r.Wallet() == w }

  predicate Any(r: Report) { true }

  predicate IsEstablished(r: Report) { r.reference.status == Established }

  /** The values of a dictionary filled by `setdefault(wallet, record)`, in insertion order. */
  function Firsts(rs: seq<Report>, p: Report -> bool): seq<Report>
  {
    if rs == [] then [] else
    var known, r := Firsts(rs[..|rs| - 1], p), rs[|rs| - 1];
    if p(r) && !HasWallet(known, r.Wallet()) then known + [r] else known
  }

  function Lookup(rs: seq<Report>, w: string): Option<Evidence>
  {
    if rs == [] then None
    else if rs[0].Wallet() == w then Some(Evidence(rs[0].identity, rs[0].reference))
    else Lookup(rs[1..], w)
  }

  function ItemOf(r: Report, established: seq<Report>): Item
  {
    Item(r.Wallet(), r.payload.reason, r.identity, r.reference, Lookup(established, r.Wallet()))
  }

  function ItemsOf(counted: seq<Report>, established: seq<Report>): (items: seq<Item>)
  {
    seq(|counted|, i requires 0 <= i < |counted| => ItemOf(counted[i], established))
  }

  predicate AnyEstablished(items: seq<Item>) { exists i :: 0 <= i < |items| && items[i].established.Some? }

  /** `next(item for item in items[from:] if item is established)`; None is its StopIteration. */
  function NextEstablished(items: seq<Item>, from: nat): Option<nat>
    decreases |items| - from
  {
    if from >= |items| then None
    else if items[from].established.Some? then Some(from)
    else NextEstablished(items, from + 1)
  }

  function ItemKey(): Item -> seq<string> { (i: Item) => [i.wallet, i.identity] }

  function TriggerOf(items: seq<Item>): Option<seq<Item>>
    requires |items| >= 3
  {
    if AnyEstablished(items[..3]) then Some(items[..3]) else
    match NextEstablished(items, 3)
    case None => None
    case Some(k) => if k < |items| then Some(Sort(items[..2] + [items[k]], ItemKey())) else None
  }

  function Finish(items: seq<Item>, observed: seq<string>, established: nat): TallyResult
  {
    if |items| >= MINIMUM_VALID_REPORTS && established >= MINIMUM_ESTABLISHED_REPORTERS then
      match TriggerOf(items)
      case None => SearchExhausted
      case Some(trigger) => Counted(Tally(items, observed, established, true, trigger))
    else Counted(Tally(items, observed, established, false, []))
  }

  function Fingerprints(rs: seq<Report>, digest: Digest): (fs: seq<string>)
  {
    seq(|rs|, i requires 0 <= i < |rs| => digest(rs[i]))
  }

  predicate DistinctFingerprints(rs: seq<Report>, digest: Digest)
  {
    forall i, j :: 0 <= i < j < |rs| ==> digest(rs[i]) != digest(rs[j])
  }

  function TallyOf(rs: seq<Report>, digest: Digest): TallyResult
  {
    var ordered := Sort(rs, OrderKey(digest));
    if !DistinctFingerprints(ordered, digest) then DuplicateObservation else
    var established := Firsts(ordered, IsEstablished);
    var counted := Sort(Firsts(ordered, Any), WalletKey());
    Finish(ItemsOf(counted, established), Fingerprints(ordered, digest), |established|)
  }

  function Seen(rs: seq<Report>, digest: Digest): set<string> { set r | r in rs :: digest(r) }

  lemma SeenStep(rs: seq<Report>, i: nat, digest: Digest)
    requires i < |rs|
    ensures Seen(rs[..i + 1], digest) == Seen(rs[..i], digest) + {digest(rs[i])}
  {
    SplitLast(rs[..i + 1]);
    assert rs[..i + 1][..i] == rs[..i];
  }

  lemma DistinctStep(rs: seq<Report>, i: nat, digest: Digest)
    requires i < |rs| && DistinctFingerprints(rs[..i], digest)
    ensures DistinctFingerprints(rs[..i + 1], digest) <==> digest(rs[i]) !in Seen(rs[..i], digest)
  {
    var prefix := rs[..i + 1];
    assert forall k :: 0 <= k < i ==> rs[..i][k] == prefix[k] == rs[k];
    assert prefix[i] == rs[i];
    if digest(rs[i]) in Seen(rs[..i], digest) {
      var r :| r in rs[..i] && digest(r) == digest(rs[i]);
      var k :| 0 <= k < i && rs[..i][k] == r;
      assert digest(prefix[k]) == digest(prefix[i]);
    }
    forall k | 0 <= k < i
      ensures digest(prefix[k]) in Seen(rs[..i], digest)
    {
      assert rs[..i][k] in rs[..i];
    }
  }

  lemma RepeatSpoilsAll(rs: seq<Report>, i: nat, digest: Digest)
    requires i <= |rs| && !DistinctFingerprints(rs[..i], digest)
    ensures !DistinctFingerprints(rs, digest)
  {
    assert forall k :: 0 <= k < i ==> rs[..i][k] == rs[k];
  }

  lemma FirstsStep(rs: seq<Report>, i: nat, p: Report -> bool)
    requires i < |rs|
    ensures var known := Firsts(rs[..i], p);
            Firsts(rs[..i + 1], p) == if p(rs[i]) && !HasWallet(known, rs[i].Wallet()) then known + [rs[i]] else known
  {
    assert rs[..i + 1][..i] == rs[..i];
  }

  /** The pass of `report_tally` over the ordered records; None is its duplicate error. */
  method FoldOrdered(ordered: seq<Report>, digest: Digest) returns (folded: Option<(seq<Report>, seq<Report>)>)
    ensures folded == if DistinctFingerprints(ordered, digest)
                      then Some((Firsts(ordered, Any), Firsts(ordered, IsEstablished))) else None
  {
    var representatives: seq<Report>, established: seq<Report>, seen: set<string> := [], [], {};
    var i := 0;
    while i < |ordered|
      invariant 0 <= i <= |ordered|
      invariant DistinctFingerprints(ordered[..i], digest)
      invariant seen == Seen(ordered[..i], digest)
      invariant representatives == Firsts(ordered[..i], Any)
      invariant established == Firsts(ordered[..i], IsEstablished)
    {
      var r := ordered[i];
      DistinctStep(ordered, i, digest);
      if digest(r) in seen {
        RepeatSpoilsAll(ordered, i + 1, digest);
        return None;
      }
      seen := seen + {digest(r)};
      SeenStep(ordered, i, digest);
      FirstsStep(ordered, i, Any);
      FirstsStep(ordered, i, IsEstablished);
      if !HasWallet(representatives, r.Wallet()) {
        representatives := representatives + [r];
      }
      if IsEstablished(r) && !HasWallet(established, r.Wallet()) {
        established := established + [r];
      }
      i := i + 1;
    }
    assert ordered[..i] == ordered;
    return Some((representatives, established));
  }

  /** The search for the canonical three-report trigger; None is its StopIteration. */
  method FindTrigger(items: seq<Item>) returns (trigger: Option<seq<Item>>)
    requires |items| >= 3
    ensures trigger == TriggerOf(items)
  {
    if AnyEstablished(items[..3]) {
      return Some(items[..3]);
    }
    var k := 3;
    while k < |items| && items[k].established.None?
      invariant 3 <= k <= |items|
      invariant NextEstablished(items, 3) == NextEstablished(items, k)
    {
      k := k + 1;
    }
    if k == |items| {
      return None;
    }
    return Some(Sort(items[..2] + [items[k]], ItemKey()));
  }

  /** `report_tally`. */
  method ReportTally(rs: seq<Report>, digest: Digest) returns (result: TallyResult)
    ensures result == TallyOf(rs, digest)
  {
    var ordered := Sort(rs, OrderKey(digest));
    var folded := FoldOrdered(ordered, digest);
    if folded.None? {
      return DuplicateObservation;
    }
    var (representatives, established) := folded.value;
    var items := ItemsOf(Sort(representatives, WalletKey()), established);
    var observed := Fingerprints(ordered, digest);
    if |items| < MINIMUM_VALID_REPORTS || |established| < MINIMUM_ESTABLISHED_REPORTERS {
      return Counted(Tally(items, observed, |established|, false, []));
    }
    var trigger := FindTrigger(items);
    result := if trigger.None? then SearchExhausted
              else Counted(Tally(items, observed, |established|, true, trigger.value));
  }

  // ----- What the fold selects -----------------------------------------------

  ghost function WalletsOf(rs: seq<Report>, p: Report -> bool): set<string>
  {
    set r | r in rs && p(r) :: r.Wallet()
  }

  ghost predicate DistinctWallets(rs: seq<Report>)
  {
    forall i, j :: 0 <= i < j < |rs| ==> rs[i].Wallet() != rs[j].Wallet()
  }

  /** One record per wallet, drawn from the input, and no wallet is lost. */
  lemma {:induction false} FirstsAreOnePerWallet(rs: seq<Report>, p: Report -> bool)
    ensures DistinctWallets(Firsts(rs, p))
    ensures forall r :: r in Firsts(rs, p) ==> r in rs && p(r)
    ensures forall x :: x in rs && p(x) ==> HasWallet(Firsts(rs, p), x.Wallet())
  {
    if rs != [] {
      var front, last := rs[..|rs| - 1], rs[|rs| - 1];
      FirstsAreOnePerWallet(front, p);
      assert rs == front + [last];
      var known, all := Firsts(front, p), Firsts(rs, p);
      assert p(last) ==> last in all || HasWallet(known, last.Wallet());
      forall x | x in rs && p(x) ensures HasWallet(all, x.Wallet()) {
        if x in front {
          var r :| r in known && r.Wallet() == x.Wallet();
          assert r in all;
        }
      }
    }
  }

  /** On an ordered list the record kept for a wallet is the least one of that wallet. */
  lemma {:induction false} FirstsAreLeast(rs: seq<Report>, p: Report -> bool, digest: Digest, r: Report, x: Report)
    requires Sorted(rs, OrderKey(digest))
    requires r in Firsts(rs, p) && x in rs && p(x) && x.Wallet() == r.Wallet()
    ensures KeyLeq(OrderKey(digest)(r), OrderKey(digest)(x))
  {
    var key := OrderKey(digest);
    var front, last := rs[..|rs| - 1], rs[|rs| - 1];
    assert rs == front + [last];
    FirstsAreOnePerWallet(front, p);
    KeyTotal(key(last), key(last));
    if r in Firsts(front, p) {
      if x in front {
        FirstsAreLeast(front, p, digest, r, x);
      } else {
        assert x == last && r in front;
      }
    } else {
      assert r == last;
      if x in front {
        assert false;
      }
    }
  }

  lemma OrderedByWallet(a: Report, b: Report, digest: Digest)
    requires KeyLeq(OrderKey(digest)(a), OrderKey(digest)(b))
    ensures KeyLeq(WalletKey()(a), WalletKey()(b))
  {
    StrTotal(a.Wallet(), b.Wallet());
  }

  /** The dictionary values come out in wallet order already, so the second sort is the identity. */
  lemma {:induction false} FirstsAreWalletSorted(rs: seq<Report>, p: Report -> bool, digest: Digest)
    requires Sorted(rs, OrderKey(digest))
    ensures StrictlySorted(Firsts(rs, p), WalletKey())
  {
    if rs != [] {
      var front, last := rs[..|rs| - 1], rs[|rs| - 1];
      assert rs == front + [last];
      FirstsAreWalletSorted(front, p, digest);
      FirstsAreOnePerWallet(front, p);
      var known := Firsts(front, p);
      if Firsts(rs, p) != known {
        AppendInWalletOrder(rs, known, last, digest);
      }
    }
  }

  lemma AppendInWalletOrder(rs: seq<Report>, known: seq<Report>, last: Report, digest: Digest)
    requires rs != [] && last == rs[|rs| - 1] && Sorted(rs, OrderKey(digest))
    requires StrictlySorted(known, WalletKey()) && !HasWallet(known, last.Wallet())
    requires forall r :: r in known ==> r in rs[..|rs| - 1]
    ensures StrictlySorted(known + [last], WalletKey())
  {
    forall i | 0 <= i < |known| ensures KeyLess(WalletKey()(known[i]), WalletKey()(last)) {
      assert known[i] in known;
      var j :| 0 <= j < |rs| - 1 && rs[..|rs| - 1][j] == known[i];
      OrderedByWallet(rs[j], last, digest);
      assert WalletKey()(known[i])[0] != WalletKey()(last)[0];
    }
  }

  lemma CountIsWallets(rs: seq<Report>, p: Report -> bool)
    ensures |Firsts(rs, p)| == |WalletsOf(rs, p)|
  {
    FirstsAreOnePerWallet(rs, p);
    var f := Firsts(rs, p);
    assert WalletsOf(rs, p) == WalletsOf(f, Any);
    var wallet := (r: Report) => r.Wallet();
    DistinctImageCount(f, wallet, WalletsOf(f, Any));
  }

  lemma {:induction false} LookupFinds(rs: seq<Report>, w: string)
    ensures Lookup(rs, w).Some? <==> HasWallet(rs, w)
    ensures Lookup(rs, w).Some? ==>
              exists r :: r in rs && r.Wallet() == w && Lookup(rs, w) == Some(Evidence(r.identity, r.reference))
  {
    if rs != [] {
      LookupFinds(rs[1..], w);
      assert rs == [rs[0]] + rs[1..];
    }
  }
}
