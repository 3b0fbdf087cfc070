/**
 What the report tally promises: it counts wallets, its representatives and its
 trigger are canonical, and neither delivery order nor further evidence can undo
 a threshold (docs/milestone-6-task-6.7-community-reporting.md).
 */
module ReportTallyTheorems {
  import opened Ordering
  import opened Wrappers
  import opened CommunityReport

  /** `r` is the record that speaks for its wallet among those satisfying `p`. */
  ghost predicate SpeaksFor(r: Report, rs: seq<Report>, p: Report -> bool, digest: Digest)
  {
    && r in rs && p(r)
    && forall x :: x in rs && p(x) && x.Wallet() == r.Wallet() ==>
         KeyLeq([r.identity, digest(r)], [x.identity, digest(x)])
  }

  /** The sorted order of a wallet's records is the order of identity, then digest. */
  lemma SameWalletOrder(a: Report, b: Report, digest: Digest)
    requires a.Wallet() == b.Wallet() && KeyLeq(OrderKey(digest)(a), OrderKey(digest)(b))
    ensures KeyLeq([a.identity, digest(a)], [b.identity, digest(b)])
  {
    assert OrderKey(digest)(a)[1..] == [a.identity, digest(a)];
    assert OrderKey(digest)(b)[1..] == [b.identity, digest(b)];
  }

  lemma FirstsSpeak(rs: seq<Report>, ordered: seq<Report>, p: Report -> bool, digest: Digest, r: Report)
    requires ordered == Sort(rs, OrderKey(digest)) && r in Firsts(ordered, p)
    ensures SpeaksFor(r, rs, p, digest)
  {
    SortSorts(rs, OrderKey(digest));
    FirstsAreOnePerWallet(ordered, p);
    forall x | x in rs && p(x) && x.Wallet() == r.Wallet()
      ensures KeyLeq([r.identity, digest(r)], [x.identity, digest(x)])
    {
      FirstsAreLeast(ordered, p, digest, r, x);
      SameWalletOrder(r, x, digest);
    }
  }

  /** Sorting the representatives again changes nothing. */
  lemma CountedAreFirsts(rs: seq<Report>, digest: Digest)
    ensures var ordered := Sort(rs, OrderKey(digest));
            Sort(Firsts(ordered, Any), WalletKey()) == Firsts(ordered, Any)
    ensures StrictlySorted(Firsts(Sort(rs, OrderKey(digest)), Any), WalletKey())
  {
    SortSorts(rs, OrderKey(digest));
    var ordered := Sort(rs, OrderKey(digest));
    FirstsAreWalletSorted(ordered, Any, digest);
    StrictIsSorted(Firsts(ordered, Any), WalletKey());
    SortOfSorted(Firsts(ordered, Any), WalletKey());
  }

  lemma CountsAreWallets(rs: seq<Report>, p: Report -> bool, digest: Digest)
    ensures |Firsts(Sort(rs, OrderKey(digest)), p)| == |WalletsOf(rs, p)|
  {
    SortSorts(rs, OrderKey(digest));
    CountIsWallets(Sort(rs, OrderKey(digest)), p);
    assert WalletsOf(Sort(rs, OrderKey(digest)), p) == WalletsOf(rs, p);
  }

  ghost predicate WalletSorted(items: seq<Item>)
  {
    forall i, j :: 0 <= i < j < |items| ==> KeyLess([items[i].wallet], [items[j].wallet])
  }

  /** An item is the canonical statement of what one wallet reported. */
  ghost predicate CanonicalItem(item: Item, rs: seq<Report>, digest: Digest)
  {
    && (exists r :: SpeaksFor(r, rs, Any, digest) &&
          item == Item(r.Wallet(), r.payload.reason, r.identity, r.reference, item.established))
    && (item.established.None? ==> item.wallet !in WalletsOf(rs, IsEstablished))
    && (item.established.Some? ==>
          exists e :: SpeaksFor(e, rs, IsEstablished, digest) && e.Wallet() == item.wallet &&
            item.established == Some(Evidence(e.identity, e.reference)))
  }

  lemma ItemIsCanonical(rs: seq<Report>, digest: Digest, r: Report)
    requires r in Firsts(Sort(rs, OrderKey(digest)), Any)
    ensures CanonicalItem(ItemOf(r, Firsts(Sort(rs, OrderKey(digest)), IsEstablished)), rs, digest)
  {
    var ordered := Sort(rs, OrderKey(digest));
    var established := Firsts(ordered, IsEstablished);
    SortSorts(rs, OrderKey(digest));
    FirstsSpeak(rs, ordered, Any, digest, r);
    FirstsAreOnePerWallet(ordered, IsEstablished);
    LookupFinds(established, r.Wallet());
    if Lookup(established, r.Wallet()).Some? {
      var e :| e in established && e.Wallet() == r.Wallet() &&
               Lookup(established, r.Wallet()) == Some(Evidence(e.identity, e.reference));
      FirstsSpeak(rs, ordered, IsEstablished, digest, e);
    }
  }

  /** The items of a tally, before the threshold is applied. */
  ghost function CountedItems(rs: seq<Report>, digest: Digest): seq<Item>
  {
    var ordered := Sort(rs, OrderKey(digest));
    ItemsOf(Firsts(ordered, Any), Firsts(ordered, IsEstablished))
  }

  lemma ItemsAreCanonical(rs: seq<Report>, digest: Digest)
    ensures forall item :: item in CountedItems(rs, digest) ==> CanonicalItem(item, rs, digest)
  {
    var firsts, items := Firsts(Sort(rs, OrderKey(digest)), Any), CountedItems(rs, digest);
    forall item | item in items ensures CanonicalItem(item, rs, digest) {
      var i :| 0 <= i < |items| && items[i] == item;
      ItemIsCanonical(rs, digest, firsts[i]);
    }
  }

  lemma CountedShape(rs: seq<Report>, digest: Digest)
    ensures |CountedItems(rs, digest)| == |WalletsOf(rs, Any)|
    ensures WalletSorted(CountedItems(rs, digest))
  {
    CountedAreFirsts(rs, digest);
    CountsAreWallets(rs, Any, digest);
    var firsts, items := Firsts(Sort(rs, OrderKey(digest)), Any), CountedItems(rs, digest);
    forall i, j | 0 <= i < j < |items| ensures KeyLess([items[i].wallet], [items[j].wallet]) {
      assert KeyLess(WalletKey()(firsts[i]), WalletKey()(firsts[j]));
    }
  }

  lemma TallyShape(rs: seq<Report>, digest: Digest)
    ensures TallyOf(rs, digest) ==
            if !DistinctFingerprints(Sort(rs, OrderKey(digest)), digest) then DuplicateObservation else
            Finish(CountedItems(rs, digest), Fingerprints(Sort(rs, OrderKey(digest)), digest),
                   |WalletsOf(rs, IsEstablished)|)
  {
    CountedAreFirsts(rs, digest);
    CountsAreWallets(rs, IsEstablished, digest);
  }

  /** Some counted item is established exactly when some wallet proved that status. */
  lemma EstablishedItemExists(rs: seq<Report>, digest: Digest)
    requires WalletsOf(rs, IsEstablished) != {}
    ensures AnyEstablished(CountedItems(rs, digest))
  {
    var ordered := Sort(rs, OrderKey(digest));
    SortSorts(rs, OrderKey(digest));
    var w :| w in WalletsOf(rs, IsEstablished);
    var x :| x in rs && IsEstablished(x) && x.Wallet() == w;
    FirstsAreOnePerWallet(ordered, Any);
    FirstsAreOnePerWallet(ordered, IsEstablished);
    assert HasWallet(Firsts(ordered, Any), w);
    var r :| r in Firsts(ordered, Any) && r.Wallet() == w;
    var i :| 0 <= i < |Firsts(ordered, Any)| && Firsts(ordered, Any)[i] == r;
    LookupFinds(Firsts(ordered, IsEstablished), w);
    assert CountedItems(rs, digest)[i].established.Some?;
  }

  lemma {:induction false} NextEstablishedFinds(items: seq<Item>, from: nat, k: nat)
    requires from <= k < |items| && items[k].established.Some?
    ensures NextEstablished(items, from).Some?
    ensures var m := NextEstablished(items, from).value;
            from <= m <= k && items[m].established.Some?
    decreases k - from
  {
    if items[from].established.None? {
      NextEstablishedFinds(items, from + 1, k);
    }
  }

  lemma WalletSortedIsItemSorted(items: seq<Item>)
    requires WalletSorted(items)
    ensures Sorted(items, ItemKey())
  {
    forall i, j | 0 <= i < j < |items| ensures KeyLeq(ItemKey()(items[i]), ItemKey()(items[j])) {
      assert KeyLess([items[i].wallet], [items[j].wallet]);
    }
  }

  /** One of the first two items is established, so any third will do. */
  ghost predicate Early(items: seq<Item>)
    requires |items| >= 2
  {
    items[0].established.Some? || items[1].established.Some?
  }

  /** The third member of the canonical trigger sits at index `m`; the first two come free. */
  ghost predicate IsThird(items: seq<Item>, m: nat)
    requires |items| >= 3
  {
    && 2 <= m < |items|
    && (Early(items) || items[m].established.Some?)
    && forall k :: 2 <= k < |items| && (Early(items) || items[k].established.Some?) ==> m <= k
  }

  lemma LateSearch(items: seq<Item>) returns (m: nat)
    requires |items| >= 3 && AnyEstablished(items) && !AnyEstablished(items[..3])
    ensures NextEstablished(items, 3) == Some(m) && IsThird(items, m)
  {
    assert forall i :: 0 <= i < 3 ==> items[..3][i] == items[i];
    assert forall i :: 0 <= i < 3 ==> items[i].established.None?;
    var e :| 0 <= e < |items| && items[e].established.Some?;
    NextEstablishedFinds(items, 3, e);
    m := NextEstablished(items, 3).value;
    forall k | 2 <= k < |items| && items[k].established.Some? ensures m <= k {
      NextEstablishedFinds(items, 3, k);
    }
  }

  lemma TriggerShape(items: seq<Item>) returns (m: nat)
    requires |items| >= 3 && WalletSorted(items) && AnyEstablished(items)
    ensures IsThird(items, m) && TriggerOf(items) == Some([items[0], items[1], items[m]])
  {
    if AnyEstablished(items[..3]) {
      m := 2;
      assert forall i :: 0 <= i < 3 ==> items[..3][i] == items[i];
      assert items[..3] == [items[0], items[1], items[2]];
    } else {
      m := LateSearch(items);
      var picked := [items[0], items[1], items[m]];
      assert items[..2] + [items[m]] == picked;
      assert WalletSorted(picked);
      WalletSortedIsItemSorted(picked);
      SortOfSorted(picked, ItemKey());
    }
  }

  /** The tally always finishes: it raises exactly on a repeated fingerprint. */
  lemma TallyRaisesExactlyOnDuplicates(rs: seq<Report>, digest: Digest)
    ensures TallyOf(rs, digest).DuplicateObservation? <==> !DistinctFingerprints(rs, digest)
    ensures !TallyOf(rs, digest).SearchExhausted?
  {
    var ordered := Sort(rs, OrderKey(digest));
    TallyShape(rs, digest);
    CountedShape(rs, digest);
    if DistinctFingerprints(rs, digest) { DistinctnessIsOrderFree(rs, ordered, digest); }
    if DistinctFingerprints(ordered, digest) { DistinctnessIsOrderFree(ordered, rs, digest); }
    if |WalletsOf(rs, IsEstablished)| >= 1 && |CountedItems(rs, digest)| >= 3 {
      EstablishedItemExists(rs, digest);
      var _ := TriggerShape(CountedItems(rs, digest));
    }
  }

  lemma DistinctnessIsOrderFree(a: seq<Report>, b: seq<Report>, digest: Digest)
    requires multiset(a) == multiset(b) && DistinctFingerprints(a, digest)
    ensures DistinctFingerprints(b, digest)
  {
    DistinctAfterReorder(a, b, digest);
  }

  lemma CountedTally(rs: seq<Report>, digest: Digest, t: Tally)
    requires TallyOf(rs, digest) == Counted(t)
    ensures t.items == CountedItems(rs, digest) && t.established == |WalletsOf(rs, IsEstablished)|
    ensures t.met <==> |t.items| >= 3 && t.established >= 1
  {
    TallyShape(rs, digest);
  }

  /**
   The counts are of wallets, the items are canonical and in wallet order, and the
   threshold is three wallets with one established among them.
   */
  lemma TallyMeaning(rs: seq<Report>, digest: Digest, t: Tally)
    requires TallyOf(rs, digest) == Counted(t)
    ensures |t.items| == |WalletsOf(rs, Any)| && t.established == |WalletsOf(rs, IsEstablished)|
    ensures WalletSorted(t.items)
    ensures forall item :: item in t.items ==> CanonicalItem(item, rs, digest)
    ensures t.met <==> |WalletsOf(rs, Any)| >= 3 && WalletsOf(rs, IsEstablished) != {}
  {
    CountedTally(rs, digest, t);
    CountedShape(rs, digest);
    ItemsAreCanonical(rs, digest);
  }

  /** Three counted wallets in wallet order, one of them established. */
  ghost predicate EstablishedTriple(triple: seq<Item>, items: seq<Item>)
  {
    && |triple| == 3 && WalletSorted(triple) && AnyEstablished(triple)
    && forall item :: item in triple ==> item in items
  }

  /** `a` does not come after `b` at any position. */
  ghost predicate Precedes(a: seq<Item>, b: seq<Item>)
  {
    |a| == |b| && forall p :: 0 <= p < |a| ==> KeyLeq([a[p].wallet], [b[p].wallet])
  }

  lemma TriplePositions(items: seq<Item>, triple: seq<Item>) returns (i: nat, j: nat, k: nat)
    requires WalletSorted(items) && EstablishedTriple(triple, items)
    ensures i < j < k < |items| && triple == [items[i], items[j], items[k]]
  {
    assert triple == [triple[0], triple[1], triple[2]];
    assert forall p :: 0 <= p < 3 ==> triple[p] in items;
    i :| 0 <= i < |items| && items[i] == triple[0];
    j :| 0 <= j < |items| && items[j] == triple[1];
    k :| 0 <= k < |items| && items[k] == triple[2];
    StrictOrder(items, i, j);
    StrictOrder(items, j, k);
  }

  lemma StrictOrder(items: seq<Item>, i: nat, j: nat)
    requires WalletSorted(items) && i < |items| && j < |items|
    requires KeyLess([items[i].wallet], [items[j].wallet])
    ensures i < j
  {
    if j < i {
      KeyTotal([items[i].wallet], [items[j].wallet]);
    }
  }

  /**
   The trigger is a triple of distinct counted wallets, in order, with an established one
   among them, and it precedes every other such triple at every position.
   */
  lemma TriggerIsLeastEstablishedTriple(rs: seq<Report>, digest: Digest, t: Tally)
    requires TallyOf(rs, digest) == Counted(t) && t.met
    ensures EstablishedTriple(t.trigger, t.items)
    ensures forall triple :: EstablishedTriple(triple, t.items) ==> Precedes(t.trigger, triple)
  {
    var m := MetTally(rs, digest, t);
    EarlyOrThird(t.items, m);
    assert WalletSorted(t.trigger);
    forall triple | EstablishedTriple(triple, t.items) ensures Precedes(t.trigger, triple) {
      LeastAtEveryPosition(t.items, m, triple);
    }
  }

  lemma MetTally(rs: seq<Report>, digest: Digest, t: Tally) returns (m: nat)
    requires TallyOf(rs, digest) == Counted(t) && t.met
    ensures |t.items| >= 3 && WalletSorted(t.items) && IsThird(t.items, m)
    ensures t.trigger == [t.items[0], t.items[1], t.items[m]]
  {
    TallyShape(rs, digest);
    CountedShape(rs, digest);
    EstablishedItemExists(rs, digest);
    m := TriggerShape(CountedItems(rs, digest));
  }

  lemma LeastAtEveryPosition(items: seq<Item>, m: nat, triple: seq<Item>)
    requires |items| >= 3 && WalletSorted(items) && IsThird(items, m) && EstablishedTriple(triple, items)
    ensures Precedes([items[0], items[1], items[m]], triple)
  {
    var i, j, k := TriplePositions(items, triple);
    ThirdIsLeast(items, m, i, j, k);
    SortedAt(items, 0, i);
    SortedAt(items, 1, j);
    SortedAt(items, m, k);
  }

  lemma EarlyOrThird(items: seq<Item>, m: nat)
    requires |items| >= 3 && IsThird(items, m)
    ensures AnyEstablished([items[0], items[1], items[m]])
  {
    var triple := [items[0], items[1], items[m]];
    assert triple[0] == items[0] && triple[1] == items[1] && triple[2] == items[m];
  }

  lemma SortedAt(items: seq<Item>, i: nat, j: nat)
    requires WalletSorted(items) && i <= j < |items|
    ensures KeyLeq([items[i].wallet], [items[j].wallet])
  {
    KeyTotal([items[i].wallet], [items[i].wallet]);
  }

  lemma ThirdIsLeast(items: seq<Item>, m: nat, i: nat, j: nat, k: nat)
    requires |items| >= 3 && IsThird(items, m)
    requires i < j < k < |items| && AnyEstablished([items[i], items[j], items[k]])
    ensures m <= k
  {
    var triple := [items[i], items[j], items[k]];
    var e :| 0 <= e < 3 && triple[e].established.Some?;
    var p := [i, j, k][e];
    assert items[p] == triple[e] && p <= k;
    assert p < 2 ==> Early(items);
  }

  lemma MoreWallets(a: seq<Report>, b: seq<Report>, p: Report -> bool)
    requires forall r :: r in a ==> r in b
    ensures WalletsOf(a, p) <= WalletsOf(b, p) && |WalletsOf(a, p)| <= |WalletsOf(b, p)|
  {
    SubsetCount(WalletsOf(a, p), WalletsOf(b, p));
  }

  lemma {:induction false} SubsetCount<T>(a: set<T>, b: set<T>)
    requires a <= b
    ensures |a| <= |b|
  {
    assert b == a + (b - a);
  }

  /** Further evidence, even conflicting evidence, never lowers a count or undoes the threshold. */
  lemma EvidenceOnlyAccumulates(a: seq<Report>, b: seq<Report>, digest: Digest, ta: Tally, tb: Tally)
    requires forall r :: r in a ==> r in b
    requires TallyOf(a, digest) == Counted(ta) && TallyOf(b, digest) == Counted(tb)
    ensures |ta.items| <= |tb.items| && ta.established <= tb.established
    ensures ta.met ==> tb.met
  {
    TallyMeaning(a, digest, ta);
    TallyMeaning(b, digest, tb);
    MoreWallets(a, b, Any);
    MoreWallets(a, b, IsEstablished);
  }

  lemma OrderKeyDetermines(rs: seq<Report>, digest: Digest)
    requires CollisionFree(digest)
    ensures KeyDetermines(multiset(rs), OrderKey(digest))
  {
    forall x, y | x in multiset(rs) && y in multiset(rs) && OrderKey(digest)(x) == OrderKey(digest)(y) ensures x == y {
      assert OrderKey(digest)(x)[2] == OrderKey(digest)(y)[2];
    }
  }

  /** The tally of a collection of records does not depend on the order they arrived in. */
  lemma TallyIsOrderIndependent(a: seq<Report>, b: seq<Report>, digest: Digest)
    requires CollisionFree(digest) && multiset(a) == multiset(b)
    ensures TallyOf(a, digest) == TallyOf(b, digest)
  {
    OrderKeyDetermines(a, digest);
    SortIsPermutationInvariant(a, b, OrderKey(digest));
  }
}
