/**
 The frozen-vote review of one submission in its two dimensions (dual_review.py), and
 the certificate quorum it must agree with (milestone5_policy.py).
 */
module DualReview {
  import opened Ordering
  import opened Wrappers
  import opened Text
  import opened CommunityReport

  const REVIEW_VOTE_VERSION := 2
  const MIN_VALID_VOTES := 5
  const MIN_ESTABLISHED_VOTES := 1
  const APPROVAL_THRESHOLD_BPS := 7000
  const ORIGINALITY := "originality"
  const ADMISSIBILITY := "admissibility"

  predicate KnownDimension(d: string) { d == ORIGINALITY || d == ADMISSIBILITY }

  function PositiveChoice(d: string): string { if d == ORIGINALITY then "original" else "admissible" }

  function NegativeChoice(d: string): string { if d == ORIGINALITY then "not_original" else "not_admissible" }

  predicate ValidChoice(d: string, choice: string)
  {
    choice == PositiveChoice(d) || choice == NegativeChoice(d) || choice == "unsure"
  }

  /** A stored vote; `wallet` is `voter_wallet_address or voter`, `rest` the fields neither rule looks into. */
  datatype ReviewVote = ReviewVote(dimension: string, version: int, wallet: string, choice: string, identity: string,
                                   eligible: bool, status: ReviewerStatus, signature: Option<string>,
                                   referenceHash: Option<string>, rest: string)

  /** What the tally reads of a vote: its sort key, its normalised wallet, and its say. */
  datatype Ballot = Ballot(order: string, identity: string, wallet: Option<string>, choice: string, eligible: bool,
                           status: ReviewerStatus)

  function BallotOf(v: ReviewVote): Ballot
  {
    Ballot(Lower(v.wallet), v.identity, NormalizeWallet(v.wallet), v.choice, v.eligible, v.status)
  }

  function Selected(votes: seq<ReviewVote>, d: string): seq<Ballot>
  {
    if votes == [] then [] else
    var v := votes[|votes| - 1];
    Selected(votes[..|votes| - 1], d) +
    if v.dimension == d && v.version == REVIEW_VOTE_VERSION then [BallotOf(v)] else []
  }

  function BallotKey(): Ballot -> seq<string> { (b: Ballot) => [b.order, b.identity] }

  function BallotWallet(): Ballot -> seq<string> { (b: Ballot) => [b.wallet.GetOr("")] }

  datatype ReviewError = UnknownDimension | InvalidChoice | ConflictingVotes

  predicate Counts(b: Ballot) { b.wallet.Some? && b.eligible }

  predicate Cast(bs: seq<Ballot>, w: Option<string>) { exists b :: b in bs && b.wallet == w }

  predicate Contradicts(bs: seq<Ballot>, b: Ballot)
  {
    exists e :: e in bs && e.wallet == b.wallet && e.choice != b.choice
  }

  /** The `unique` dictionary after the ordered ballots, in insertion order. */
  function Unique(bs: seq<Ballot>, d: string): Result<seq<Ballot>, ReviewError>
  {
    if bs == [] then Ok([]) else
    var b := bs[|bs| - 1];
    match Unique(bs[..|bs| - 1], d)
    case Err(e) => Err(e)
    case Ok(unique) =>
      if !ValidChoice(d, b.choice) then Err(InvalidChoice)
      else if !Counts(b) then Ok(unique)
      else if Contradicts(unique, b) then Err(ConflictingVotes)
      else if Cast(unique, b.wallet) then Ok(unique)
      else Ok(unique + [b])
  }

  function CountIf(bs: seq<Ballot>, p: Ballot -> bool): nat
  {
    if bs == [] then 0 else CountIf(bs[..|bs| - 1], p) + if p(bs[|bs| - 1]) then 1 else 0
  }

  function Chose(choice: string): Ballot -> bool { (b: Ballot) => b.choice == choice }

  function EstablishedBallot(): Ballot -> bool { (b: Ballot) => b.status == Established }

  datatype ReviewTally = ReviewTally(dimension: string, voters: seq<Ballot>, established: nat, positive: nat,
                                     negative: nat, unsure: nat, quorum: bool, resolved: bool, outcome: string)

  function Summarise(d: string, ordered: seq<Ballot>): ReviewTally
  {
    var positive := CountIf(ordered, Chose(PositiveChoice(d)));
    var negative := CountIf(ordered, Chose(NegativeChoice(d)));
    var unsure := CountIf(ordered, Chose("unsure"));
    var established := CountIf(ordered, EstablishedBallot());
    var denominator := positive + negative;
    var quorum := |ordered| >= MIN_VALID_VOTES && established >= MIN_ESTABLISHED_VOTES;
    var approved := quorum && denominator > 0 && positive * 10_000 >= denominator * APPROVAL_THRESHOLD_BPS;
    var rejected := quorum && denominator > 0 && !approved;
    ReviewTally(d, ordered, established, positive, negative, unsure, quorum, approved || rejected,
                if approved then PositiveChoice(d) else if rejected then NegativeChoice(d) else "unresolved")
  }

  function TallyReview(votes: seq<ReviewVote>, d: string): Result<ReviewTally, ReviewError>
  {
    if !KnownDimension(d) then Err(UnknownDimension) else
    match Unique(Sort(Selected(votes, d), BallotKey()), d)
    case Err(e) => Err(e)
    case Ok(unique) => Ok(Summarise(d, Sort(unique, BallotWallet())))
  }

  /** The loop of `tally` that fills `unique`. */
  method FillUnique(bs: seq<Ballot>, d: string) returns (r: Result<seq<Ballot>, ReviewError>)
    ensures r == Unique(bs, d)
  {
    var unique: seq<Ballot> := [];
    for i := 0 to |bs|
      invariant Unique(bs[..i], d) == Ok(unique)
    {
      var b := bs[i];
      assert bs[..i + 1][..i] == bs[..i];
      if !ValidChoice(d, b.choice) {
        ErrorPersists(bs, i + 1, d);
        return Err(InvalidChoice);
      }
      if Counts(b) {
        if Contradicts(unique, b) {
          ErrorPersists(bs, i + 1, d);
          return Err(ConflictingVotes);
        }
        if !Cast(unique, b.wallet) {
          unique := unique + [b];
        }
      }
    }
    assert bs[..|bs|] == bs;
    return Ok(unique);
  }

  lemma {:induction false} ErrorPersists(bs: seq<Ballot>, n: nat, d: string)
    requires n <= |bs| && Unique(bs[..n], d).Err?
    ensures Unique(bs, d) == Unique(bs[..n], d)
    decreases |bs|
  {
    if n < |bs| {
      assert bs[..|bs| - 1][..n] == bs[..n];
      ErrorPersists(bs[..|bs| - 1], n, d);
    } else {
      assert bs[..n] == bs;
    }
  }

  /** `tally` */
  method TallyVotes(votes: seq<ReviewVote>, d: string) returns (r: Result<ReviewTally, ReviewError>)
    ensures r == TallyReview(votes, d)
  {
    if !KnownDimension(d) {
      return Err(UnknownDimension);
    }
    var ballots: seq<Ballot> := [];
    for i := 0 to |votes|
      invariant ballots == Selected(votes[..i], d)
    {
      assert votes[..i + 1][..i] == votes[..i];
      if votes[i].dimension == d && votes[i].version == REVIEW_VOTE_VERSION {
        ballots := ballots + [BallotOf(votes[i])];
      }
    }
    assert votes[..|votes|] == votes;
    var unique := FillUnique(Sort(ballots, BallotKey()), d);
    return if unique.Err? then Err(unique.error) else Ok(Summarise(d, Sort(unique.value, BallotWallet())));
  }

  datatype Review = Review(originality: ReviewTally, admissibility: ReviewTally, complete: bool, qualified: bool)

  /** `combined_review` */
  function CombinedReview(votes: seq<ReviewVote>): Result<Review, ReviewError>
  {
    match TallyReview(votes, ORIGINALITY)
    case Err(e) => Err(e)
    case Ok(o) =>
      match TallyReview(votes, ADMISSIBILITY)
      case Err(e) => Err(e)
      case Ok(a) => Ok(Review(o, a, o.resolved && a.resolved, o.outcome == "original" && a.outcome == "admissible"))
  }

  // ----- The certificate's own quorum rule ------------------------------------------------

  /** `certificate_v3_approval_passes` */
  predicate ApprovalPasses(positive: nat, negative: nat)
  {
    var decisive := positive + negative;
    decisive > 0 && positive * 10_000 >= decisive * APPROVAL_THRESHOLD_BPS
  }

  /** `certificate_v3_quorum_satisfied` */
  predicate CertificateQuorum(total: nat, established: nat, positive: nat, negative: nat)
  {
    total >= MIN_VALID_VOTES && established >= MIN_ESTABLISHED_VOTES && ApprovalPasses(positive, negative)
  }

  // ----- What the fold keeps -----------------------------------------------------------------

  ghost predicate Agree(bs: seq<Ballot>)
  {
    forall a, b :: a in bs && b in bs && Counts(a) && Counts(b) && a.wallet == b.wallet ==> a.choice == b.choice
  }

  ghost predicate AllValid(bs: seq<Ballot>, d: string) { forall b :: b in bs ==> ValidChoice(d, b.choice) }

  ghost predicate Represented(unique: seq<Ballot>, b: Ballot)
  {
    exists u :: u in unique && u.wallet == b.wallet && KeyLeq(BallotKey()(u), BallotKey()(b))
  }

  /** `unique` holds one counting ballot for every wallet that counts, the first of it in the list. */
  ghost predicate FirstOfEach(unique: seq<Ballot>, bs: seq<Ballot>)
  {
    && (forall i, j :: 0 <= i < j < |unique| ==> unique[i].wallet != unique[j].wallet)
    && (forall u :: u in unique ==> u in bs && Counts(u))
    && (forall b {:trigger Represented(unique, b)} :: b in bs && Counts(b) ==> Represented(unique, b))
  }

  lemma {:induction false} UniqueMeaning(bs: seq<Ballot>, d: string)
    requires Sorted(bs, BallotKey())
    ensures Unique(bs, d).Ok? <==> AllValid(bs, d) && Agree(bs)
    ensures Unique(bs, d).Ok? ==> FirstOfEach(Unique(bs, d).value, bs)
  {
    if bs != [] {
      var front, last := bs[..|bs| - 1], bs[|bs| - 1];
      UniqueMeaning(front, d);
      SplitLast(bs);
      UniqueSnoc(front, last, d);
    }
  }

  lemma UniqueSnoc(front: seq<Ballot>, last: Ballot, d: string)
    requires Sorted(front + [last], BallotKey())
    requires Unique(front, d).Ok? <==> AllValid(front, d) && Agree(front)
    requires Unique(front, d).Ok? ==> FirstOfEach(Unique(front, d).value, front)
    ensures Unique(front + [last], d).Ok? <==> AllValid(front + [last], d) && Agree(front + [last])
    ensures Unique(front + [last], d).Ok? ==> FirstOfEach(Unique(front + [last], d).value, front + [last])
  {
    assert (front + [last])[..|front|] == front;
    AgreePrefix(front, last);
    assert AllValid(front + [last], d) <==> AllValid(front, d) && ValidChoice(d, last.choice) by {
      assert last in front + [last];
    }
    if Unique(front, d).Ok? {
      UniqueStep(front, last, Unique(front, d).value, d);
    }
  }

  lemma AgreePrefix(front: seq<Ballot>, last: Ballot)
    ensures forall b :: b in front + [last] <==> b in front || b == last
    ensures Agree(front + [last]) ==> Agree(front)
  {
  }

  lemma UniqueStep(front: seq<Ballot>, last: Ballot, unique: seq<Ballot>, d: string)
    requires Sorted(front + [last], BallotKey()) && FirstOfEach(unique, front)
    requires Agree(front)
    ensures Counts(last) ==> (Contradicts(unique, last) <==> !Agree(front + [last]))
    ensures !Counts(last) ==> Agree(front + [last])
    ensures !Counts(last) || Cast(unique, last.wallet) ==> FirstOfEach(unique, front + [last])
    ensures Counts(last) && !Cast(unique, last.wallet) ==> FirstOfEach(unique + [last], front + [last])
  {
    BallotsBefore(front, last);
    if Counts(last) {
      ContradictionMeaning(front, last, unique);
      if Cast(unique, last.wallet) {
        KeepFirst(front, last, unique);
      } else {
        AddFirst(front, last, unique);
      }
    } else {
      AgreePrefix(front, last);
      KeepFirst(front, last, unique);
    }
  }

  lemma KeepFirst(front: seq<Ballot>, last: Ballot, unique: seq<Ballot>)
    requires FirstOfEach(unique, front) && (Counts(last) ==> Cast(unique, last.wallet))
    requires forall b :: b in front ==> KeyLeq(BallotKey()(b), BallotKey()(last))
    ensures FirstOfEach(unique, front + [last])
  {
    forall b | b in front + [last] && Counts(b) ensures Represented(unique, b) {
      if b in front {
        assert Represented(unique, b);
      } else {
        var u :| u in unique && u.wallet == last.wallet;
        assert u in front;
      }
    }
  }

  lemma BallotsBefore(front: seq<Ballot>, last: Ballot)
    requires Sorted(front + [last], BallotKey())
    ensures forall b :: b in front ==> KeyLeq(BallotKey()(b), BallotKey()(last))
    ensures KeyLeq(BallotKey()(last), BallotKey()(last))
  {
    KeyTotal(BallotKey()(last), BallotKey()(last));
    var all := front + [last];
    forall b | b in front ensures KeyLeq(BallotKey()(b), BallotKey()(last)) {
      var i :| 0 <= i < |front| && front[i] == b;
      assert all[i] == b && all[|front|] == last;
    }
  }

  lemma ContradictionMeaning(front: seq<Ballot>, last: Ballot, unique: seq<Ballot>)
    requires FirstOfEach(unique, front) && Agree(front) && Counts(last)
    ensures Contradicts(unique, last) <==> !Agree(front + [last])
  {
    if Contradicts(unique, last) {
      var e :| e in unique && e.wallet == last.wallet && e.choice != last.choice;
      assert e in front + [last] && last in front + [last];
    } else {
      forall b | b in front && Counts(b) && b.wallet == last.wallet ensures b.choice == last.choice {
        FirstSpeaks(front, unique, b);
      }
      AgreeWithLast(front, last);
    }
  }

  lemma FirstSpeaks(front: seq<Ballot>, unique: seq<Ballot>, b: Ballot)
    requires FirstOfEach(unique, front) && Agree(front) && b in front && Counts(b)
    ensures exists u :: u in unique && u.wallet == b.wallet && u.choice == b.choice
  {
    assert Represented(unique, b);
    var u :| u in unique && u.wallet == b.wallet && KeyLeq(BallotKey()(u), BallotKey()(b));
  }

  lemma AgreeWithLast(front: seq<Ballot>, last: Ballot)
    requires Agree(front)
    requires forall b :: b in front && Counts(b) && b.wallet == last.wallet ==> b.choice == last.choice
    ensures Agree(front + [last])
  {
    AgreePrefix(front, last);
  }

  lemma AddFirst(front: seq<Ballot>, last: Ballot, unique: seq<Ballot>)
    requires FirstOfEach(unique, front) && Counts(last) && !Cast(unique, last.wallet)
    requires KeyLeq(BallotKey()(last), BallotKey()(last))
    ensures FirstOfEach(unique + [last], front + [last])
  {
    var more := unique + [last];
    assert forall u :: u in more <==> u in unique || u == last;
    assert forall b :: b in front + [last] <==> b in front || b == last;
    forall b | b in front + [last] && Counts(b) ensures Represented(more, b) {
      if b in front {
        assert Represented(unique, b);
        var u :| u in unique && u.wallet == b.wallet && KeyLeq(BallotKey()(u), BallotKey()(b));
        assert u in more;
      } else {
        assert last in more;
      }
    }
    forall i, j | 0 <= i < j < |more| ensures more[i].wallet != more[j].wallet {
      assert more[i] in unique;
    }
  }
}
