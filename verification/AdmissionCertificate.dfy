/**
 Freezing votes into an admission certificate, and the checks a peer repeats on it
 (admission_certificate.py).
 */
module AdmissionCertificate {
  import opened Ordering
  import opened Wrappers
  import opened Text
  import opened DualReview
  import opened DualReviewTheorems

  function RemovePrefix0x(s: string): string { if |s| >= 2 && s[..2] == "0x" then s[2..] else s }

  function NormalSignature(s: string): string { "0x" + RemovePrefix0x(Lower(s)) }

  /** The field normalisation of one vote. */
  function Normalise(v: ReviewVote): ReviewVote
  {
    v.(wallet := Lower(v.wallet),
       signature := if v.signature.Some? then Some(NormalSignature(v.signature.value)) else None,
       referenceHash := if v.referenceHash.Some? then Some(Lower(v.referenceHash.value)) else None)
  }

  predicate Freezable(v: ReviewVote) { v.version == REVIEW_VOTE_VERSION && KnownDimension(v.dimension) }

  /** The list comprehension and the normalising loop of `_frozen_votes`. */
  function Kept(votes: seq<ReviewVote>): seq<ReviewVote>
  {
    if votes == [] then [] else
    var v := votes[|votes| - 1];
    Kept(votes[..|votes| - 1]) + if Freezable(v) then [Normalise(v)] else []
  }

  function FreezeKey(): ReviewVote -> seq<string> { (v: ReviewVote) => [v.dimension, Lower(v.wallet), v.identity] }

  predicate SamePlace(a: ReviewVote, b: ReviewVote) { a.dimension == b.dimension && a.wallet == b.wallet }

  /** The `unique` loop: None is the conflict error. */
  function Deduped(vs: seq<ReviewVote>): Option<seq<ReviewVote>>
  {
    if vs == [] then Some([]) else
    var v := vs[|vs| - 1];
    match Deduped(vs[..|vs| - 1])
    case None => None
    case Some(unique) =>
      if exists e :: e in unique && SamePlace(e, v) && e != v then None
      else if v in unique then Some(unique)
      else Some(unique + [v])
  }

  function Freeze(votes: seq<ReviewVote>): Option<seq<ReviewVote>>
  {
    Deduped(Sort(Kept(votes), FreezeKey()))
  }

  /** `_frozen_votes` */
  method FrozenVotes(votes: seq<ReviewVote>) returns (r: Option<seq<ReviewVote>>)
    ensures r == Freeze(votes)
  {
    var frozen: seq<ReviewVote> := [];
    for i := 0 to |votes|
      invariant frozen == Kept(votes[..i])
    {
      assert votes[..i + 1][..i] == votes[..i];
      if Freezable(votes[i]) {
        frozen := frozen + [Normalise(votes[i])];
      }
    }
    assert votes[..|votes|] == votes;
    frozen := Sort(frozen, FreezeKey());
    var unique: seq<ReviewVote> := [];
    for i := 0 to |frozen|
      invariant Deduped(frozen[..i]) == Some(unique)
    {
      var v := frozen[i];
      assert frozen[..i + 1][..i] == frozen[..i];
      if exists e :: e in unique && SamePlace(e, v) && e != v {
        ConflictPersists(frozen, i + 1);
        return None;
      }
      if v !in unique {
        unique := unique + [v];
      }
    }
    assert frozen[..|frozen|] == frozen;
    return Some(unique);
  }

  lemma {:induction false} ConflictPersists(vs: seq<ReviewVote>, n: nat)
    requires n <= |vs| && Deduped(vs[..n]).None?
    ensures Deduped(vs).None?
    decreases |vs|
  {
    if n < |vs| {
      assert vs[..|vs| - 1][..n] == vs[..n];
      ConflictPersists(vs[..|vs| - 1], n);
    } else {
      assert vs[..n] == vs;
    }
  }

  // ----- When freezing raises, and what it returns ----------------------------------------------

  ghost predicate OneVotePerPlace(vs: seq<ReviewVote>)
  {
    forall a, b :: a in vs && b in vs && SamePlace(a, b) ==> a == b
  }

  lemma {:induction false} DedupedMeaning(vs: seq<ReviewVote>)
    ensures Deduped(vs).Some? <==> OneVotePerPlace(vs)
    ensures Deduped(vs).Some? ==>
              var unique := Deduped(vs).value;
              && (forall v :: v in unique <==> v in vs)
              && (forall i, j :: 0 <= i < j < |unique| ==> !SamePlace(unique[i], unique[j]))
  {
    if vs != [] {
      var front, last := vs[..|vs| - 1], vs[|vs| - 1];
      DedupedMeaning(front);
      SplitLast(vs);
      assert forall v :: v in vs <==> v in front || v == last;
      if Deduped(front).Some? {
        var unique := Deduped(front).value;
        assert forall i :: 0 <= i < |unique| ==> unique[i] in unique;
      }
    }
  }

  lemma {:induction false} KeptMeaning(votes: seq<ReviewVote>)
    ensures forall x :: x in Kept(votes) <==> exists v :: v in votes && Freezable(v) && x == Normalise(v)
  {
    if votes != [] {
      KeptMeaning(votes[..|votes| - 1]);
      SplitLast(votes);
    }
  }

  lemma {:induction false} DedupedKeepsOrder(vs: seq<ReviewVote>)
    requires Sorted(vs, FreezeKey()) && Deduped(vs).Some?
    ensures Sorted(Deduped(vs).value, FreezeKey())
  {
    if vs != [] {
      var front, last := vs[..|vs| - 1], vs[|vs| - 1];
      SplitLast(vs);
      DedupedKeepsOrder(front);
      DedupedMeaning(front);
      var unique := Deduped(front).value;
      forall i | 0 <= i < |unique| ensures KeyLeq(FreezeKey()(unique[i]), FreezeKey()(last)) {
        assert unique[i] in front;
      }
    }
  }

  /** A canonical vote list: frozen fields, strict order, one vote for each dimension and wallet. */
  ghost predicate Canonical(vs: seq<ReviewVote>)
  {
    && StrictlySorted(vs, FreezeKey())
    && (forall v :: v in vs ==> Freezable(v) && Normalise(v) == v)
    && (forall i, j :: 0 <= i < j < |vs| ==> !SamePlace(vs[i], vs[j]))
  }

  lemma NormaliseIdempotent(v: ReviewVote)
    ensures Normalise(Normalise(v)) == Normalise(v)
  {
    LowerIdempotent(v.wallet);
    if v.referenceHash.Some? { LowerIdempotent(v.referenceHash.value); }
    if v.signature.Some? { SignatureIdempotent(v.signature.value); }
  }

  lemma SignatureIdempotent(s: string)
    ensures NormalSignature(NormalSignature(s)) == NormalSignature(s)
  {
    var t := RemovePrefix0x(Lower(s));
    LowerIdempotent(s);
    assert Lower(t) == t;
    assert Lower("0x" + t) == "0x" + t;
    assert ("0x" + t)[..2] == "0x" && ("0x" + t)[2..] == t;
  }

  /**
   Freezing raises exactly when two votes of one dimension and wallet differ after normalisation; otherwise
   it returns the canonical list of the normalised votes.
   */
  lemma FreezeMeaning(votes: seq<ReviewVote>)
    ensures Freeze(votes).Some? <==> OneVotePerPlace(Kept(votes))
    ensures Freeze(votes).Some? ==>
              Canonical(Freeze(votes).value) && forall v :: v in Freeze(votes).value <==> v in Kept(votes)
  {
    var sorted := Sort(Kept(votes), FreezeKey());
    SortSorts(Kept(votes), FreezeKey());
    DedupedMeaning(sorted);
    assert OneVotePerPlace(sorted) <==> OneVotePerPlace(Kept(votes));
    if Freeze(votes).Some? {
      DedupedKeepsOrder(sorted);
      FrozenIsCanonical(votes, Freeze(votes).value);
    }
  }

  lemma FrozenIsCanonical(votes: seq<ReviewVote>, frozen: seq<ReviewVote>)
    requires Sorted(frozen, FreezeKey()) && forall v :: v in frozen ==> v in Kept(votes)
    requires forall i, j :: 0 <= i < j < |frozen| ==> !SamePlace(frozen[i], frozen[j])
    ensures Canonical(frozen)
  {
    KeptMeaning(votes);
    forall v | v in frozen ensures Freezable(v) && Normalise(v) == v {
      var w :| w in votes && Freezable(w) && v == Normalise(w);
      NormaliseIdempotent(w);
    }
    forall i, j | 0 <= i < j < |frozen| ensures KeyLess(FreezeKey()(frozen[i]), FreezeKey()(frozen[j])) {
      assert frozen[i] in frozen && frozen[j] in frozen;
      assert Lower(frozen[i].wallet) == frozen[i].wallet && Lower(frozen[j].wallet) == frozen[j].wallet;
      var a, b := FreezeKey()(frozen[i]), FreezeKey()(frozen[j]);
      assert a[0] == frozen[i].dimension && b[0] == frozen[j].dimension;
      assert a[1] == frozen[i].wallet && b[1] == frozen[j].wallet;
    }
  }

  /** The order, repetition and letter case in which votes arrive do not matter: only the normalised set does. */
  lemma FreezeDependsOnTheSet(a: seq<ReviewVote>, b: seq<ReviewVote>)
    requires forall v :: v in Kept(a) <==> v in Kept(b)
    ensures Freeze(a) == Freeze(b)
  {
    FreezeMeaning(a);
    FreezeMeaning(b);
    if Freeze(a).Some? {
      StrictFormIsUnique(Freeze(a).value, Freeze(b).value, FreezeKey());
    }
  }

  lemma {:induction false} KeptOfNormal(vs: seq<ReviewVote>)
    requires forall v :: v in vs ==> Freezable(v) && Normalise(v) == v
    ensures Kept(vs) == vs
  {
    if vs != [] {
      SplitLast(vs);
      KeptOfNormal(vs[..|vs| - 1]);
    }
  }

  /** Freezing a frozen list changes nothing: the validator's canonical-vote comparison accepts what was built. */
  lemma FreezeIdempotent(votes: seq<ReviewVote>)
    requires Freeze(votes).Some?
    ensures Freeze(Freeze(votes).value) == Freeze(votes)
  {
    FreezeMeaning(votes);
    KeptOfNormal(Freeze(votes).value);
    FreezeDependsOnTheSet(votes, Freeze(votes).value);
  }

  // ----- The certificate ------------------------------------------------------------------------------

  /** `body` stands for the evidence fields that do not come from the votes. */
  datatype Certificate = Certificate(votes: seq<ReviewVote>, originality: ReviewTally, admissibility: ReviewTally, body: string)

  /** The checks, given what freezing the votes and reviewing them yield. */
  predicate EvidenceMatches(c: Certificate, frozen: Option<seq<ReviewVote>>, review: Result<Review, ReviewError>,
                            verified: ReviewVote -> bool)
  {
    && frozen == Some(c.votes) && (forall v :: v in c.votes ==> verified(v))
    && review.Ok? && review.value.originality == c.originality && review.value.admissibility == c.admissibility
    && review.value.qualified
  }

  /** The vote and review checks of `validate_admission_certificate`. */
  predicate VoteEvidenceValid(c: Certificate, verified: ReviewVote -> bool)
  {
    EvidenceMatches(c, Freeze(c.votes), CombinedReview(c.votes), verified)
  }

  /** The vote part of `build_admission_certificate`, before its closing validation. */
  function Assemble(votes: seq<ReviewVote>, body: string): Option<Certificate>
  {
    match Freeze(votes)
    case None => None
    case Some(frozen) =>
      match CombinedReview(frozen)
      case Err(_) => None
      case Ok(review) => Some(Certificate(frozen, review.originality, review.admissibility, body))
  }

  /** An assembled certificate fails validation for its votes only through a bad vote or an unqualified review. */
  lemma AssembledVotesAlwaysMatch(votes: seq<ReviewVote>, body: string, verified: ReviewVote -> bool)
    requires Assemble(votes, body).Some?
    ensures var c := Assemble(votes, body).value;
            VoteEvidenceValid(c, verified) <==>
              (forall v :: v in c.votes ==> verified(v)) &&
              c.originality.outcome == "original" && c.admissibility.outcome == "admissible"
  {
    FreezeIdempotent(votes);
    var c := Assemble(votes, body).value;
    QualifiedMeaning(c.votes, CombinedReview(c.votes));
    MatchingEvidence(c, CombinedReview(c.votes), verified);
  }

  lemma QualifiedMeaning(votes: seq<ReviewVote>, review: Result<Review, ReviewError>)
    requires review == CombinedReview(votes) && review.Ok?
    ensures review.value.qualified <==>
              review.value.originality.outcome == "original" && review.value.admissibility.outcome == "admissible"
  {
  }

  lemma MatchingEvidence(c: Certificate, review: Result<Review, ReviewError>, verified: ReviewVote -> bool)
    requires review.Ok? && review.value.originality == c.originality && review.value.admissibility == c.admissibility
    ensures EvidenceMatches(c, Some(c.votes), review, verified) <==>
              (forall v :: v in c.votes ==> verified(v)) && review.value.qualified
  {
  }

  // ----- When freezing preserves the review ---------------------------------------------------------------

  /** A vote whose wallet is one before freezing says the same afterwards. */
  lemma BallotOfNormalised(v: ReviewVote)
    requires NormalizeWallet(v.wallet).Some?
    ensures BallotOf(Normalise(v)) == BallotOf(v)
  {
    LowerIdempotent(v.wallet);
    StripOfLower(v.wallet);
    var c := Strip(v.wallet);
    assert Lower(c)[2..] == Lower(c[2..]);
    LowerIdempotent(c[2..]);
    assert c[0] == c[..2][0] && c[1] == c[..2][1];
    assert Lower(c)[0] == LowerChar(c[0]) && Lower(c)[1] == LowerChar(c[1]);
    assert Lower(c)[..2] == "0x";
    forall i | 2 <= i < 42 ensures IsHexDigit(Lower(c)[i]) {
      assert IsHexDigit(c[i]) && Lower(c)[i] == LowerChar(c[i]);
    }
  }

  predicate InDimension(v: ReviewVote, d: string) { v.dimension == d && v.version == REVIEW_VOTE_VERSION }

  /** An earlier counting vote of the wallet that `v` gets by freezing makes the same choice. */
  ghost predicate AlreadySaid(votes: seq<ReviewVote>, v: ReviewVote, d: string)
  {
    exists c :: c in Selected(votes, d) && Counts(c) && c.wallet == NormalizeWallet(Lower(v.wallet)) && c.choice == v.choice &&
      KeyLeq(BallotKey()(c), BallotKey()(BallotOf(Normalise(v))))
  }

  predicate BecomesWallet(w: string) { NormalizeWallet(w).None? && NormalizeWallet(Lower(w)).Some? }

  /**
   Every eligible vote whose wallet only lower-casing turns into a wallet, which takes an upper-case prefix,
   repeats what an earlier vote of that wallet says.
   */
  ghost predicate NoNewVoice(votes: seq<ReviewVote>, d: string)
  {
    forall v :: v in votes && InDimension(v, d) && v.eligible && BecomesWallet(v.wallet) ==> AlreadySaid(votes, v, d)
  }

  /**
   The review of the frozen votes is the review of the votes as cast exactly when freezing adds no new voice:
   otherwise it drops repetitions and letter case and no one's say.
   */
  lemma FreezingPreservesTally(votes: seq<ReviewVote>, d: string)
    requires Freeze(votes).Some? && TallyReview(votes, d).Ok?
    ensures TallyReview(Freeze(votes).value, d) == TallyReview(votes, d) <==> NoNewVoice(votes, d)
  {
    var frozen := Freeze(votes).value;
    FreezeMeaning(votes);
    TallyRaisesExactly(votes, d);
    if NoNewVoice(votes, d) {
      SameTally(votes, frozen, d);
    }
    if TallyReview(frozen, d) == TallyReview(votes, d) {
      SameTallyAddsNoVoice(votes, frozen, d);
    }
  }

  function Verified(votes: seq<ReviewVote>, verify: ReviewVote -> bool): (r: seq<ReviewVote>)
    ensures forall v :: v in r <==> v in votes && verify(v)
  {
    if votes == [] then [] else (if verify(votes[0]) then [votes[0]] else []) + Verified(votes[1..], verify)
  }

  /** Among other things `verify_vote_record` demands the version, eligibility and a wallet that normalises. */
  ghost predicate DemandsWallet(verify: ReviewVote -> bool)
  {
    forall v :: verify(v) ==> v.version == REVIEW_VOTE_VERSION && v.eligible && NormalizeWallet(v.wallet).Some?
  }

  /** Both callers in the node review and freeze verified votes only, and of those no say is ever added or lost. */
  lemma VerifiedVotesKeepTheirTally(votes: seq<ReviewVote>, verify: ReviewVote -> bool, d: string)
    requires DemandsWallet(verify)
    requires Freeze(Verified(votes, verify)).Some? && TallyReview(Verified(votes, verify), d).Ok?
    ensures TallyReview(Freeze(Verified(votes, verify)).value, d) == TallyReview(Verified(votes, verify), d)
  {
    FreezingPreservesTally(Verified(votes, verify), d);
  }

  /** The ballots of frozen votes are those of the normalised votes. */
  lemma FrozenBallots(votes: seq<ReviewVote>, frozen: seq<ReviewVote>, d: string)
    requires KnownDimension(d) && forall v :: v in frozen <==> v in Kept(votes)
    ensures forall v :: v in votes && InDimension(v, d) ==> BallotOf(Normalise(v)) in Selected(frozen, d)
    ensures forall b :: b in Selected(frozen, d) ==> exists v :: v in votes && InDimension(v, d) && b == BallotOf(Normalise(v))
  {
    SelectedMeaning(frozen, d);
    KeptMeaning(votes);
    forall v | v in votes && InDimension(v, d)
      ensures BallotOf(Normalise(v)) in Selected(frozen, d)
    {
      assert Normalise(v) in frozen;
    }
  }

  lemma CountingSurvives(votes: seq<ReviewVote>, frozen: seq<ReviewVote>, d: string, b: Ballot)
    requires KnownDimension(d) && forall v :: v in frozen <==> v in Kept(votes)
    requires b in Selected(votes, d) && Counts(b)
    ensures b in Selected(frozen, d)
  {
    SelectedMeaning(votes, d);
    FrozenBallots(votes, frozen, d);
    var v :| v in votes && InDimension(v, d) && b == BallotOf(v);
    BallotOfNormalised(v);
  }

  lemma ValidityIsKept(votes: seq<ReviewVote>, frozen: seq<ReviewVote>, d: string)
    requires KnownDimension(d) && forall v :: v in frozen <==> v in Kept(votes)
    ensures AllValid(Selected(votes, d), d) <==> AllValid(Selected(frozen, d), d)
  {
    SelectedMeaning(votes, d);
    FrozenBallots(votes, frozen, d);
    forall b | b in Selected(votes, d)
      ensures exists c :: c in Selected(frozen, d) && c.choice == b.choice
    {
      var v :| v in votes && InDimension(v, d) && b == BallotOf(v);
      assert BallotOf(Normalise(v)) in Selected(frozen, d);
    }
    forall b | b in Selected(frozen, d)
      ensures exists c :: c in Selected(votes, d) && c.choice == b.choice
    {
      var v :| v in votes && InDimension(v, d) && b == BallotOf(Normalise(v));
      assert BallotOf(v) in Selected(votes, d);
    }
  }

  /** Without a new voice every counting ballot of the frozen votes is backed by an earlier one as cast. */
  lemma BackedAsCast(votes: seq<ReviewVote>, frozen: seq<ReviewVote>, d: string, b: Ballot) returns (c: Ballot)
    requires KnownDimension(d) && forall v :: v in frozen <==> v in Kept(votes)
    requires NoNewVoice(votes, d) && b in Selected(frozen, d) && Counts(b)
    ensures c in Selected(votes, d) && Counts(c) && c.wallet == b.wallet && c.choice == b.choice
    ensures KeyLeq(BallotKey()(c), BallotKey()(b))
  {
    SelectedMeaning(votes, d);
    FrozenBallots(votes, frozen, d);
    var v :| v in votes && InDimension(v, d) && b == BallotOf(Normalise(v));
    if NormalizeWallet(v.wallet).Some? {
      BallotOfNormalised(v);
      c := b;
      KeyTotal(BallotKey()(b), BallotKey()(b));
    } else {
      assert AlreadySaid(votes, v, d);
      c :| c in Selected(votes, d) && Counts(c) && c.wallet == NormalizeWallet(Lower(v.wallet)) && c.choice == v.choice &&
        KeyLeq(BallotKey()(c), BallotKey()(BallotOf(Normalise(v))));
    }
  }

  lemma FrozenToldApart(votes: seq<ReviewVote>, frozen: seq<ReviewVote>, d: string)
    requires KnownDimension(d) && (forall v :: v in frozen <==> v in Kept(votes)) && OneVotePerPlace(Kept(votes))
    ensures KeyTellsApart(Selected(frozen, d))
  {
    FrozenBallots(votes, frozen, d);
    KeptMeaning(votes);
    forall a, b | a in Selected(frozen, d) && b in Selected(frozen, d) && BallotKey()(a) == BallotKey()(b) ensures a == b {
      var v :| v in votes && InDimension(v, d) && a == BallotOf(Normalise(v));
      var w :| w in votes && InDimension(w, d) && b == BallotOf(Normalise(w));
      assert BallotKey()(a)[0] == BallotKey()(b)[0];
      LowerIdempotent(v.wallet);
      LowerIdempotent(w.wallet);
      assert Normalise(v) in Kept(votes) && Normalise(w) in Kept(votes);
      assert SamePlace(Normalise(v), Normalise(w));
    }
  }

  lemma FrozenVotersAgree(votes: seq<ReviewVote>, frozen: seq<ReviewVote>, d: string)
    requires KnownDimension(d) && (forall v :: v in frozen <==> v in Kept(votes))
    requires NoNewVoice(votes, d) && TallyReview(votes, d).Ok?
    ensures TallyReview(frozen, d).Ok?
  {
    TallyRaisesExactly(votes, d);
    TallyRaisesExactly(frozen, d);
    ValidityIsKept(votes, frozen, d);
    forall a, b | a in Selected(frozen, d) && b in Selected(frozen, d) && Counts(a) && Counts(b) && a.wallet == b.wallet
      ensures a.choice == b.choice
    {
      var x := BackedAsCast(votes, frozen, d, a);
      var y := BackedAsCast(votes, frozen, d, b);
    }
  }

  /** The voters as cast are the first of each wallet among the frozen votes too. */
  lemma VotersStillFirst(votes: seq<ReviewVote>, frozen: seq<ReviewVote>, d: string, voters: seq<Ballot>)
    requires KnownDimension(d) && (forall v :: v in frozen <==> v in Kept(votes)) && NoNewVoice(votes, d)
    requires FirstOfEach(voters, Selected(votes, d))
    ensures FirstOfEach(voters, Selected(frozen, d))
  {
    forall u | u in voters
      ensures u in Selected(frozen, d) && Counts(u)
    {
      CountingSurvives(votes, frozen, d, u);
    }
    forall b | b in Selected(frozen, d) && Counts(b)
      ensures Represented(voters, b)
    {
      var c := BackedAsCast(votes, frozen, d, b);
      assert Represented(voters, c);
      var u :| u in voters && u.wallet == c.wallet && KeyLeq(BallotKey()(u), BallotKey()(c));
      KeyTransitive(BallotKey()(u), BallotKey()(c), BallotKey()(b));
    }
  }

  lemma SameTally(votes: seq<ReviewVote>, frozen: seq<ReviewVote>, d: string)
    requires KnownDimension(d) && (forall v :: v in frozen <==> v in Kept(votes)) && OneVotePerPlace(Kept(votes))
    requires NoNewVoice(votes, d) && TallyReview(votes, d).Ok?
    ensures TallyReview(frozen, d) == TallyReview(votes, d)
  {
    FrozenVotersAgree(votes, frozen, d);
    var t, u := TallyReview(votes, d).value, TallyReview(frozen, d).value;
    VotersOfTally(votes, d, t);
    VotersOfTally(frozen, d, u);
    VotersStillFirst(votes, frozen, d, t.voters);
    FrozenToldApart(votes, frozen, d);
    SameVoters(t.voters, u.voters, Selected(frozen, d), Selected(frozen, d));
  }

  lemma SameTallyAddsNoVoice(votes: seq<ReviewVote>, frozen: seq<ReviewVote>, d: string)
    requires KnownDimension(d) && (forall v :: v in frozen <==> v in Kept(votes))
    requires TallyReview(votes, d).Ok? && TallyReview(frozen, d) == TallyReview(votes, d)
    ensures NoNewVoice(votes, d)
  {
    var t := TallyReview(votes, d).value;
    VotersOfTally(votes, d, t);
    VotersOfTally(frozen, d, t);
    TallyRaisesExactly(frozen, d);
    FrozenBallots(votes, frozen, d);
    forall v | v in votes && InDimension(v, d) && v.eligible && NormalizeWallet(Lower(v.wallet)).Some?
      ensures AlreadySaid(votes, v, d)
    {
      var b := BallotOf(Normalise(v));
      assert b in Selected(frozen, d) && Counts(b) && Represented(t.voters, b);
      var u :| u in t.voters && u.wallet == b.wallet && KeyLeq(BallotKey()(u), BallotKey()(b));
      assert u in Selected(votes, d) && u in Selected(frozen, d);
    }
  }

  /** `normalize_wallet_address` knows the lower-case prefix only. */
  lemma UpperCasePrefixIsNoWallet(hex: string)
    requires |hex| == 40 && forall i :: 0 <= i < 40 ==> hex[i] == 'a'
    ensures NormalizeWallet("0X" + hex).None?
  {
    var w := "0X" + hex;
    TrimmedIsStripped(w);
    assert w[..2][1] == 'X';
  }

  lemma LowerCasePrefixIsAWallet(hex: string)
    requires |hex| == 40 && forall i :: 0 <= i < 40 ==> hex[i] == 'a'
    ensures NormalizeWallet("0x" + hex) == Some("0x" + hex)
  {
    var w := "0x" + hex;
    TrimmedIsStripped(w);
    assert w[..2] == "0x" && w[2..] == hex && Lower(hex) == hex;
  }

  /** The condition is needed: an upper-case prefix makes a frozen vote count that the raw tally ignores. */
  lemma UpperCasePrefixIsFrozenIntoAVoter(v: ReviewVote)
    requires v.wallet == "0X" + seq(40, _ => 'a')
    ensures NormalizeWallet(v.wallet).None? && NormalizeWallet(Normalise(v).wallet) == Some("0x" + seq(40, _ => 'a'))
  {
    var hex := seq(40, _ => 'a');
    UpperCasePrefixIsNoWallet(hex);
    LowerCasePrefixIsAWallet(hex);
    assert Lower("0X" + hex) == "0x" + hex;
  }

  lemma SoleVote(v: ReviewVote, d: string)
    requires InDimension(v, d) && KnownDimension(d)
    ensures Kept([v]) == [Normalise(v)] && Selected([v], d) == [BallotOf(v)]
  {
    assert [v][..0] == [];
  }

  /** Such a vote alone is no vote as cast, and one vote once frozen. */
  lemma UpperCasePrefixAddsAVoice(v: ReviewVote, d: string)
    requires v.wallet == "0X" + seq(40, _ => 'a') && v.eligible && KnownDimension(d) && InDimension(v, d)
    requires ValidChoice(d, v.choice)
    ensures Freeze([v]).Some? && TallyReview([v], d).Ok? && TallyReview(Freeze([v]).value, d) != TallyReview([v], d)
  {
    UpperCasePrefixIsFrozenIntoAVoter(v);
    FreezeMeaning([v]);
    SoleVote(v, d);
    TallyRaisesExactly([v], d);
    assert v in [v] && BecomesWallet(v.wallet) && !AlreadySaid([v], v, d);
    FreezingPreservesTally([v], d);
  }
}
