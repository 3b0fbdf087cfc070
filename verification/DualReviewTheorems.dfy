/** When a review tally raises, what it counts, and why order and repetition do not matter. */
module DualReviewTheorems {
  import opened Ordering
  import opened Wrappers
  import opened Text
  import opened CommunityReport
  import opened DualReview

  lemma SortedSelection(votes: seq<ReviewVote>, d: string)
    ensures var ballots, ordered := Selected(votes, d), Sort(Selected(votes, d), BallotKey());
            && Sorted(ordered, BallotKey())
            && (forall b :: b in ordered <==> b in ballots)
            && (AllValid(ordered, d) <==> AllValid(ballots, d))
            && (Agree(ordered) <==> Agree(ballots))
  {
    SortSorts(Selected(votes, d), BallotKey());
  }

  lemma {:induction false} SelectedMeaning(votes: seq<ReviewVote>, d: string)
    ensures forall b :: b in Selected(votes, d) <==>
              exists v :: v in votes && v.dimension == d && v.version == REVIEW_VOTE_VERSION && b == BallotOf(v)
  {
    if votes != [] {
      var front, last := votes[..|votes| - 1], votes[|votes| - 1];
      SelectedMeaning(front, d);
      SplitLast(votes);
    }
  }

  /** A vote whose choice is foreign to the dimension, or two counted votes of one wallet that disagree. */
  ghost predicate Broken(votes: seq<ReviewVote>, d: string)
  {
    || (exists b :: b in Selected(votes, d) && !ValidChoice(d, b.choice))
    || (exists a, b :: a in Selected(votes, d) && b in Selected(votes, d) && Counts(a) && Counts(b) &&
          a.wallet == b.wallet && a.choice != b.choice)
  }

  /** The tally raises exactly on an unknown dimension, an invalid choice, or a wallet that disagrees with itself. */
  lemma TallyRaisesExactly(votes: seq<ReviewVote>, d: string)
    ensures TallyReview(votes, d).Err? <==> !KnownDimension(d) || Broken(votes, d)
  {
    SortedSelection(votes, d);
    UniqueMeaning(Sort(Selected(votes, d), BallotKey()), d);
    if !Agree(Selected(votes, d)) {
      assert Broken(votes, d);
    }
  }

  ghost function Voters(votes: seq<ReviewVote>, d: string): set<string>
  {
    set b | b in Selected(votes, d) && Counts(b) :: b.wallet.value
  }

  ghost function WalletSet(bs: seq<Ballot>): set<Option<string>> { set b | b in bs :: b.wallet }

  function BallotVoter(): Ballot -> Option<string> { (b: Ballot) => b.wallet }

  lemma WalletsOfDistinct(bs: seq<Ballot>)
    requires forall i, j :: 0 <= i < j < |bs| ==> bs[i].wallet != bs[j].wallet
    ensures |WalletSet(bs)| == |bs|
  {
    DistinctImageCount(bs, BallotVoter(), WalletSet(bs));
  }

  lemma {:induction false} SameSize(a: set<string>, b: set<Option<string>>)
    requires b == set w | w in a :: Some(w)
    ensures |a| == |b|
  {
    if a != {} {
      var w :| w in a;
      assert b - {Some(w)} == set x | x in a - {w} :: Some(x);
      SameSize(a - {w}, b - {Some(w)});
    }
  }

  lemma {:induction false} ChoicesPartition(bs: seq<Ballot>, d: string)
    requires KnownDimension(d) && AllValid(bs, d)
    ensures CountIf(bs, Chose(PositiveChoice(d))) + CountIf(bs, Chose(NegativeChoice(d))) + CountIf(bs, Chose("unsure")) == |bs|
  {
    if bs != [] {
      SplitLast(bs);
      ChoicesPartition(bs[..|bs| - 1], d);
    }
  }

  /** The voters of a tally: one ballot per counted wallet, in wallet order. */
  lemma VotersOfTally(votes: seq<ReviewVote>, d: string, t: ReviewTally)
    requires TallyReview(votes, d) == Ok(t)
    ensures KnownDimension(d) && t == Summarise(d, t.voters)
    ensures FirstOfEach(t.voters, Selected(votes, d)) && Sorted(t.voters, BallotWallet())
  {
    SortedSelection(votes, d);
    var ordered := Sort(Selected(votes, d), BallotKey());
    UniqueMeaning(ordered, d);
    var unique := Unique(ordered, d).value;
    SortSorts(unique, BallotWallet());
    FirstOfEachReordered(unique, t.voters, ordered, Selected(votes, d));
  }

  lemma FirstOfEachReordered(a: seq<Ballot>, b: seq<Ballot>, bs: seq<Ballot>, cs: seq<Ballot>)
    requires FirstOfEach(a, bs) && multiset(a) == multiset(b)
    requires forall x :: x in bs <==> x in cs
    ensures FirstOfEach(b, cs)
  {
    assert forall x :: x in b <==> x in multiset(a);
    forall x | x in cs && Counts(x) ensures Represented(b, x) {
      assert Represented(a, x);
    }
    DistinctAfterReorder(a, b, BallotVoter());
    forall i, j | 0 <= i < j < |b| ensures b[i].wallet != b[j].wallet {
      assert BallotVoter()(b[i]) != BallotVoter()(b[j]);
    }
  }

  /**
   The count of votes is the number of distinct eligible wallets, each counted under exactly one of
   the three choices.
   */
  lemma EveryVoterCountsOnce(votes: seq<ReviewVote>, d: string, t: ReviewTally)
    requires TallyReview(votes, d) == Ok(t)
    ensures t.positive + t.negative + t.unsure == |Voters(votes, d)| == |t.voters|
    ensures t.established <= |t.voters|
  {
    VotersOfTally(votes, d, t);
    TallyRaisesExactly(votes, d);
    assert AllValid(t.voters, d);
    ChoicesPartition(t.voters, d);
    WalletsOfDistinct(t.voters);
    VotersAreRepresented(votes, d, t.voters);
    SameSize(Voters(votes, d), WalletSet(t.voters));
    CountIfBound(t.voters, EstablishedBallot());
  }

  lemma {:induction false} CountIfBound(bs: seq<Ballot>, p: Ballot -> bool)
    ensures CountIf(bs, p) <= |bs|
  {
    if bs != [] { CountIfBound(bs[..|bs| - 1], p); }
  }

  lemma VotersAreRepresented(votes: seq<ReviewVote>, d: string, voters: seq<Ballot>)
    requires FirstOfEach(voters, Selected(votes, d))
    ensures WalletSet(voters) == set w | w in Voters(votes, d) :: Some(w)
  {
    forall b | b in Selected(votes, d) && Counts(b) ensures b.wallet in WalletSet(voters) {
      assert Represented(voters, b);
    }
    forall u | u in voters ensures u.wallet.Some? && u.wallet.value in Voters(votes, d) {
    }
  }

  /** The community outcome is positive exactly when the separately written certificate quorum holds. */
  lemma PositiveExactlyOnCertificateQuorum(votes: seq<ReviewVote>, d: string, t: ReviewTally)
    requires TallyReview(votes, d) == Ok(t)
    ensures t.outcome == PositiveChoice(d) <==>
              CertificateQuorum(|Voters(votes, d)|, t.established, t.positive, t.negative)
    ensures t.positive + t.negative == 0 ==> !t.resolved && t.outcome == "unresolved"
  {
    VotersOfTally(votes, d, t);
    EveryVoterCountsOnce(votes, d, t);
  }

  // ----- Order and repetition --------------------------------------------------------------

  /** Wallet and identity tell the counting ballots apart. */
  ghost predicate KeyTellsApart(bs: seq<Ballot>)
  {
    forall a, b :: a in bs && b in bs && Counts(a) && Counts(b) && BallotKey()(a) == BallotKey()(b) ==> a == b
  }

  ghost predicate SameCounting(bs: seq<Ballot>, cs: seq<Ballot>)
  {
    forall b :: Counts(b) ==> (b in bs <==> b in cs)
  }

  lemma RepresentativesCoincide(u: seq<Ballot>, w: seq<Ballot>, bs: seq<Ballot>, cs: seq<Ballot>, x: Ballot)
    requires FirstOfEach(u, bs) && FirstOfEach(w, cs) && KeyTellsApart(bs) && SameCounting(bs, cs)
    requires x in u
    ensures x in w
  {
    assert Represented(w, x);
    var y :| y in w && y.wallet == x.wallet && KeyLeq(BallotKey()(y), BallotKey()(x));
    assert Represented(u, y);
    var z :| z in u && z.wallet == y.wallet && KeyLeq(BallotKey()(z), BallotKey()(y));
    assert z == x;
    KeyTotal(BallotKey()(x), BallotKey()(y));
  }

  lemma SameVoters(u: seq<Ballot>, w: seq<Ballot>, bs: seq<Ballot>, cs: seq<Ballot>)
    requires FirstOfEach(u, bs) && FirstOfEach(w, cs) && KeyTellsApart(bs) && SameCounting(bs, cs)
    requires Sorted(u, BallotWallet()) && Sorted(w, BallotWallet())
    ensures u == w
  {
    forall x ensures x in u <==> x in w {
      if x in u { RepresentativesCoincide(u, w, bs, cs, x); }
      if x in w { RepresentativesCoincide(w, u, cs, bs, x); }
    }
    WalletStrict(u);
    WalletStrict(w);
    StrictFormIsUnique(u, w, BallotWallet());
  }

  lemma WalletStrict(u: seq<Ballot>)
    requires Sorted(u, BallotWallet())
    requires forall i, j :: 0 <= i < j < |u| ==> u[i].wallet != u[j].wallet
    requires forall b :: b in u ==> b.wallet.Some?
    ensures StrictlySorted(u, BallotWallet())
  {
    forall i, j | 0 <= i < j < |u| ensures KeyLess(BallotWallet()(u[i]), BallotWallet()(u[j])) {
      assert u[i] in u && u[j] in u;
      assert BallotWallet()(u[i])[0] == u[i].wallet.value && BallotWallet()(u[j])[0] == u[j].wallet.value;
    }
  }

  /**
   A tally is a function of the set of counting ballots: any order and any repetition of the votes raises in
   the same cases and otherwise counts the same, as long as wallet and identity tell ballots apart.
   */
  lemma TallyDependsOnTheSet(a: seq<ReviewVote>, b: seq<ReviewVote>, d: string)
    requires SameCounting(Selected(a, d), Selected(b, d)) && (AllValid(Selected(a, d), d) <==> AllValid(Selected(b, d), d))
    requires KeyTellsApart(Selected(a, d))
    ensures TallyReview(a, d).Ok? <==> TallyReview(b, d).Ok?
    ensures TallyReview(a, d).Ok? ==> TallyReview(a, d) == TallyReview(b, d)
  {
    TallyRaisesExactly(a, d);
    TallyRaisesExactly(b, d);
    if TallyReview(a, d).Ok? {
      VotersOfTally(a, d, TallyReview(a, d).value);
      VotersOfTally(b, d, TallyReview(b, d).value);
      SameVoters(TallyReview(a, d).value.voters, TallyReview(b, d).value.voters, Selected(a, d), Selected(b, d));
    }
  }
}
