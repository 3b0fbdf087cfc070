/**
 Python's ordering of `str` and of tuples of `str`, and its stable `sort(key=...)`.
 Every canonical list of the node (reports, disputes, review votes, frozen votes)
 is made by one such sort, so their convergence rests on the lemmas here.
 */
module Ordering {

  /** Code-point lexicographic order, as Python compares `str`. */
  predicate StrLeq(a: string, b: string)
  {
    a == [] || (b != [] && (a[0] < b[0] || (a[0] == b[0] && StrLeq(a[1..], b[1..]))))
  }

  /** Lexicographic order on tuples of strings, the sort keys of the source. */
  predicate KeyLeq(a: seq<string>, b: seq<string>)
  {
    a == [] || (b != [] && if a[0] == b[0] then KeyLeq(a[1..], b[1..]) else StrLeq(a[0], b[0]))
  }

  predicate KeyLess(a: seq<string>, b: seq<string>) { KeyLeq(a, b) && a != b }

  lemma {:induction false} StrTotal(a: string, b: string)
    ensures StrLeq(a, a)
    ensures StrLeq(a, b) || StrLeq(b, a)
    ensures StrLeq(a, b) && StrLeq(b, a) ==> a == b
  {
    if a != [] {
      StrTotal(a[1..], if b == [] then [] else b[1..]);
      if b != [] && a[1..] == b[1..] && a[0] == b[0] {
        assert a == [a[0]] + a[1..] == b;
      }
    }
  }

  lemma {:induction false} StrTransitive(a: string, b: string, c: string)
    requires StrLeq(a, b) && StrLeq(b, c)
    ensures StrLeq(a, c)
  {
    if a != [] && a[0] == b[0] == c[0] {
      StrTransitive(a[1..], b[1..], c[1..]);
    }
  }

  lemma {:induction false} KeyTotal(a: seq<string>, b: seq<string>)
    ensures KeyLeq(a, a)
    ensures KeyLeq(a, b) || KeyLeq(b, a)
    ensures KeyLeq(a, b) && KeyLeq(b, a) ==> a == b
  {
    if a != [] {
      KeyTotal(a[1..], if b == [] then [] else b[1..]);
      if b != [] {
        StrTotal(a[0], b[0]);
        if a[0] == b[0] && a[1..] == b[1..] {
          assert a == [a[0]] + a[1..] == b;
        }
      }
    }
  }

  lemma {:induction false} KeyTransitive(a: seq<string>, b: seq<string>, c: seq<string>)
    requires KeyLeq(a, b) && KeyLeq(b, c)
    ensures KeyLeq(a, c)
  {
    if a != [] {
      if a[0] == b[0] == c[0] {
        KeyTransitive(a[1..], b[1..], c[1..]);
      } else if a[0] != b[0] && b[0] != c[0] {
        StrTransitive(a[0], b[0], c[0]);
        if a[0] == c[0] { StrTotal(a[0], b[0]); }
      }
    }
  }

  /** A weakly sorted list. */
  ghost predicate Sorted<T>(s: seq<T>, key: T -> seq<string>)
  {
    forall i, j :: 0 <= i < j < |s| ==> KeyLeq(key(s[i]), key(s[j]))
  }

  /** A sorted list no two of whose elements share a key. */
  ghost predicate StrictlySorted<T>(s: seq<T>, key: T -> seq<string>)
  {
    forall i, j :: 0 <= i < j < |s| ==> KeyLess(key(s[i]), key(s[j]))
  }

  /** The key tells the members of `s` apart. */
  ghost predicate KeyDetermines<T(!new)>(s: multiset<T>, key: T -> seq<string>)
  {
    forall x, y :: x in s && y in s && key(x) == key(y) ==> x == y
  }

  /** Places `x` after every element whose key is not greater: the stable position. */
  function Insert<T>(s: seq<T>, x: T, key: T -> seq<string>): (r: seq<T>)
    ensures multiset(r) == multiset(s) + multiset{x}
  {
    if s == [] then [x] else
    var last := s[|s| - 1];
    assert s == s[..|s| - 1] + [last];
    if KeyLeq(key(last), key(x)) then s + [x]
    else Insert(s[..|s| - 1], x, key) + [last]
  }

  lemma {:induction false} InsertSorted<T>(s: seq<T>, x: T, key: T -> seq<string>)
    requires Sorted(s, key)
    ensures Sorted(Insert(s, x, key), key)
  {
    if s != [] {
      var front, last := s[..|s| - 1], s[|s| - 1];
      assert s == front + [last];
      if KeyLeq(key(last), key(x)) {
        forall i | 0 <= i < |s| ensures KeyLeq(key(s[i]), key(x)) {
          if i < |s| - 1 { KeyTransitive(key(s[i]), key(last), key(x)); }
        }
      } else {
        InsertSorted(front, x, key);
        var r := Insert(front, x, key);
        KeyTotal(key(last), key(x));
        forall i | 0 <= i < |r| ensures KeyLeq(key(r[i]), key(last)) {
          assert r[i] in multiset(r);
          assert r[i] == x || r[i] in front;
        }
      }
    }
  }

  /** `sorted(s, key=key)`. */
  function Sort<T>(s: seq<T>, key: T -> seq<string>): (r: seq<T>)
    ensures multiset(r) == multiset(s)
  {
    if s == [] then [] else
    assert s == s[..|s| - 1] + [s[|s| - 1]];
    Insert(Sort(s[..|s| - 1], key), s[|s| - 1], key)
  }

  lemma {:induction false} SortSorts<T>(s: seq<T>, key: T -> seq<string>)
    ensures Sorted(Sort(s, key), key)
    ensures |Sort(s, key)| == |s|
    ensures forall x :: x in Sort(s, key) <==> x in s
  {
    if s != [] {
      SortSorts(s[..|s| - 1], key);
      InsertSorted(Sort(s[..|s| - 1], key), s[|s| - 1], key);
    }
    assert |multiset(Sort(s, key))| == |multiset(s)|;
    assert forall x :: x in Sort(s, key) <==> x in multiset(s);
  }

  lemma LastsAgree<T(!new)>(a: seq<T>, b: seq<T>, key: T -> seq<string>)
    requires Sorted(a, key) && Sorted(b, key) && a != [] && |a| == |b|
    requires multiset(a) == multiset(b) && KeyDetermines(multiset(a), key)
    ensures a[|a| - 1] == b[|b| - 1]
  {
    var n := |a| - 1;
    assert a[n] in multiset(b) && b[n] in multiset(a);
    var i :| 0 <= i <= n && b[i] == a[n];
    var j :| 0 <= j <= n && a[j] == b[n];
    KeyTotal(key(a[n]), key(b[n]));
    KeyTotal(key(b[n]), key(a[n]));
  }

  lemma DropLast<T(!new)>(a: seq<T>, key: T -> seq<string>)
    requires a != []
    ensures multiset(a[..|a| - 1]) == multiset(a) - multiset{a[|a| - 1]}
    ensures Sorted(a, key) ==> Sorted(a[..|a| - 1], key)
    ensures KeyDetermines(multiset(a), key) ==> KeyDetermines(multiset(a[..|a| - 1]), key)
  {
    assert a == a[..|a| - 1] + [a[|a| - 1]];
  }

  /** Sorted forms are unique where the key tells elements apart. */
  lemma {:induction false} SortedFormIsUnique<T(!new)>(a: seq<T>, b: seq<T>, key: T -> seq<string>)
    requires Sorted(a, key) && Sorted(b, key)
    requires multiset(a) == multiset(b) && KeyDetermines(multiset(a), key)
    ensures a == b
  {
    assert |a| == |multiset(a)| == |multiset(b)| == |b|;
    if a != [] {
      LastsAgree(a, b, key);
      DropLast(a, key);
      DropLast(b, key);
      SortedFormIsUnique(a[..|a| - 1], b[..|a| - 1], key);
      Rejoin(a, b);
    }
  }

  lemma SplitLast<T>(a: seq<T>)
    requires a != []
    ensures a == a[..|a| - 1] + [a[|a| - 1]]
  {
  }

  lemma Rejoin<T>(a: seq<T>, b: seq<T>)
    requires |a| == |b| > 0 && a[..|a| - 1] == b[..|b| - 1] && a[|a| - 1] == b[|b| - 1]
    ensures a == b
  {
    assert a == a[..|a| - 1] + [a[|a| - 1]];
    assert b == b[..|b| - 1] + [b[|b| - 1]];
  }

  /** Delivery order does not matter to a sort whose key tells elements apart. */
  lemma SortIsPermutationInvariant<T(!new)>(a: seq<T>, b: seq<T>, key: T -> seq<string>)
    requires multiset(a) == multiset(b) && KeyDetermines(multiset(a), key)
    ensures Sort(a, key) == Sort(b, key)
  {
    SortSorts(a, key);
    SortSorts(b, key);
    SortedFormIsUnique(Sort(a, key), Sort(b, key), key);
  }

  /** A sorted list is a fixed point of the sort: re-sorting stored evidence changes nothing. */
  lemma {:induction false} SortOfSorted<T>(s: seq<T>, key: T -> seq<string>)
    requires Sorted(s, key)
    ensures Sort(s, key) == s
  {
    if s != [] {
      var front, last := s[..|s| - 1], s[|s| - 1];
      assert s == front + [last];
      SortOfSorted(front, key);
      if front != [] { assert front[|front| - 1] == s[|s| - 2]; }
    }
  }

  lemma StrictIsSorted<T>(s: seq<T>, key: T -> seq<string>)
    requires StrictlySorted(s, key)
    ensures Sorted(s, key)
    ensures forall i, j :: 0 <= i < j < |s| ==> s[i] != s[j]
  {
  }

  /** Strictly sorted lists with the same members are the same list. */
  lemma {:induction false} StrictFormIsUnique<T(!new)>(a: seq<T>, b: seq<T>, key: T -> seq<string>)
    requires StrictlySorted(a, key) && StrictlySorted(b, key)
    requires forall x :: x in a <==> x in b
    ensures a == b
  {
    StrictIsSorted(a, key);
    StrictIsSorted(b, key);
    DistinctSameMembers(a, b);
    forall x, y | x in multiset(a) && y in multiset(a) && key(x) == key(y) ensures x == y {
      var i :| 0 <= i < |a| && a[i] == x;
      var j :| 0 <= j < |a| && a[j] == y;
    }
    SortedFormIsUnique(a, b, key);
  }

  lemma {:induction false} DistinctSameMembers<T(!new)>(a: seq<T>, b: seq<T>)
    requires forall i, j :: 0 <= i < j < |a| ==> a[i] != a[j]
    requires forall i, j :: 0 <= i < j < |b| ==> b[i] != b[j]
    requires forall x :: x in a <==> x in b
    ensures multiset(a) == multiset(b)
  {
    forall x ensures multiset(a)[x] == multiset(b)[x] {
      DistinctCount(a, x);
      DistinctCount(b, x);
    }
  }

  lemma {:induction false} DistinctCount<T>(a: seq<T>, x: T)
    requires forall i, j :: 0 <= i < j < |a| ==> a[i] != a[j]
    ensures multiset(a)[x] == if x in a then 1 else 0
  {
    if a != [] {
      var n := |a| - 1;
      assert a == a[..n] + [a[n]];
      DistinctCount(a[..n], x);
    }
  }

  ghost predicate DistinctImages<T, K>(s: seq<T>, f: T -> K)
  {
    forall i, j :: 0 <= i < j < |s| ==> f(s[i]) != f(s[j])
  }

  /** Distinct images stay distinct in any order. */
  lemma DistinctAfterReorder<T, K>(a: seq<T>, b: seq<T>, f: T -> K)
    requires multiset(a) == multiset(b) && DistinctImages(a, f)
    ensures DistinctImages(b, f)
  {
    forall i, j | 0 <= i < j < |b| ensures f(b[i]) != f(b[j]) {
      assert b[i] in multiset(a) && b[j] in multiset(a);
      if b[i] == b[j] {
        assert b == b[..i] + [b[i]] + b[i + 1..j] + [b[j]] + b[j + 1..];
        assert multiset(b)[b[i]] >= 2;
        DistinctCount(a, b[i]);
        assert false;
      }
    }
  }

  /** Distinct images are as many as the elements. */
  lemma {:induction false} DistinctImageCount<T, K>(s: seq<T>, f: T -> K, images: set<K>)
    requires DistinctImages(s, f)
    requires forall x :: x in s ==> f(x) in images
    requires forall k :: k in images ==> exists x :: x in s && f(x) == k
    ensures |images| == |s|
  {
    if s == [] {
      assert images == {};
    } else {
      var front, last := s[..|s| - 1], s[|s| - 1];
      SplitLast(s);
      forall x | x in front ensures f(x) in images - {f(last)} {
        assert x in s;
        var i :| 0 <= i < |front| && s[i] == x;
      }
      DistinctImageCount(front, f, images - {f(last)});
    }
  }
}
