/** The stable sort of the source's standard library, and the order on text. */
module Sorting {

  /** Every sort in the source is by a total order on a key. */
  ghost predicate TotalOrder<T(!new)>(le: (T, T) -> bool) {
    && (forall x, y :: le(x, y) || le(y, x))
    && (forall x, y, z :: le(x, y) && le(y, z) ==> le(x, z))
  }

  ghost predicate Sorted<T>(xs: seq<T>, le: (T, T) -> bool) {
    forall i, j :: 0 <= i < j < |xs| ==> le(xs[i], xs[j])
  }

  ghost predicate StrictlySorted<T>(xs: seq<T>, le: (T, T) -> bool) {
    forall i, j :: 0 <= i < j < |xs| ==> le(xs[i], xs[j]) && !le(xs[j], xs[i])
  }

  /** Puts `x` behind every element that does not come after it. */
  function Place<T>(xs: seq<T>, x: T, le: (T, T) -> bool): (r: seq<T>)
    ensures multiset(r) == multiset(xs) + multiset{x}
    ensures |r| == |xs| + 1
  {
    if xs == [] then [x]
    else
      var n := |xs| - 1;
      assert xs == xs[..n] + [xs[n]];
      if le(xs[n], x) then xs + [x] else Place(xs[..n], x, le) + [xs[n]]
  }

  function Sort<T>(xs: seq<T>, le: (T, T) -> bool): (r: seq<T>)
    ensures multiset(r) == multiset(xs)
    ensures |r| == |xs|
  {
    if xs == [] then []
    else
      var n := |xs| - 1;
      assert xs == xs[..n] + [xs[n]];
      Place(Sort(xs[..n], le), xs[n], le)
  }

  lemma {:induction false} PlaceSorts<T(!new)>(xs: seq<T>, x: T, le: (T, T) -> bool)
    requires TotalOrder(le) && Sorted(xs, le)
    ensures Sorted(Place(xs, x, le), le)
  {
    if xs != [] {
      var n := |xs| - 1;
      if !le(xs[n], x) {
        var front := Place(xs[..n], x, le);
        PlaceSorts(xs[..n], x, le);
        forall i | 0 <= i < |front| ensures le(front[i], xs[n]) {
          assert front[i] in multiset(front);
          assert front[i] in multiset(xs[..n]) + multiset{x};
        }
      } else {
        forall i | 0 <= i < n ensures le(xs[i], x) {
          assert le(xs[i], xs[n]);
        }
      }
    }
  }

  lemma {:induction false} SortSorts<T(!new)>(xs: seq<T>, le: (T, T) -> bool)
    requires TotalOrder(le)
    ensures Sorted(Sort(xs, le), le)
  {
    if xs != [] {
      var n := |xs| - 1;
      SortSorts(xs[..n], le);
      PlaceSorts(Sort(xs[..n], le), xs[n], le);
    }
  }

  lemma LastAgrees<T>(a: seq<T>, b: seq<T>, n: nat, le: (T, T) -> bool)
    requires Sorted(a, le) && StrictlySorted(b, le)
    requires |a| == |b| == n + 1
    requires a[n] in b && b[n] in a
    ensures a[n] == b[n]
  {
    var k :| 0 <= k <= n && b[k] == a[n];
    var m :| 0 <= m <= n && a[m] == b[n];
    assert m == n || le(b[n], a[n]);
  }

  lemma SameLength<T>(a: seq<T>, b: seq<T>)
    requires multiset(a) == multiset(b)
    ensures |a| == |b|
  {
    assert |a| == |multiset(a)| && |b| == |multiset(b)|;
  }

  lemma SplitLast<T>(a: seq<T>, n: nat)
    requires |a| == n + 1
    ensures multiset(a) == multiset(a[..n]) + multiset{a[n]}
  {
    assert a == a[..n] + [a[n]];
  }

  lemma MembersAgree<T>(a: seq<T>, b: seq<T>, x: T)
    requires multiset(a) == multiset(b) && x in a
    ensures x in b
  {
    assert x in multiset(b);
  }

  lemma CancelOne<T>(a: multiset<T>, b: multiset<T>, x: T)
    requires a + multiset{x} == b + multiset{x}
    ensures a == b
  {
    assert a == a + multiset{x} - multiset{x};
  }

  lemma SortedPrefix<T>(a: seq<T>, n: nat, le: (T, T) -> bool)
    requires n <= |a|
    ensures Sorted(a, le) ==> Sorted(a[..n], le)
    ensures StrictlySorted(a, le) ==> StrictlySorted(a[..n], le)
  {
  }

  /** A strictly sorted list is the only sorted arrangement of its elements. */
  lemma {:induction false} SortedUnique<T>(a: seq<T>, b: seq<T>, le: (T, T) -> bool)
    requires Sorted(a, le) && StrictlySorted(b, le)
    requires multiset(a) == multiset(b)
    ensures a == b
  {
    hide Sorted, StrictlySorted;
    SameLength(a, b);
    if a != [] {
      var n := |a| - 1;
      MembersAgree(a, b, a[n]);
      MembersAgree(b, a, b[n]);
      LastAgrees(a, b, n, le);
      SplitLast(a, n);
      SplitLast(b, n);
      CancelOne(multiset(a[..n]), multiset(b[..n]), a[n]);
      SortedPrefix(a, n, le);
      SortedPrefix(b, n, le);
      SortedUnique(a[..n], b[..n], le);
      assert a == a[..n] + [a[n]] && b == b[..n] + [b[n]];
    }
  }

  /** Sorting any arrangement of a strictly sorted list gives that list. */
  lemma SortIs<T(!new)>(xs: seq<T>, expected: seq<T>, le: (T, T) -> bool)
    requires TotalOrder(le) && StrictlySorted(expected, le)
    requires multiset(xs) == multiset(expected)
    ensures Sort(xs, le) == expected
  {
    SortSorts(xs, le);
    SortedUnique(Sort(xs, le), expected, le);
  }

  // ---- Text ----

  /** The source compares text by octets, which for UTF-8 is the order of the characters. */
  predicate TextLe(a: string, b: string) {
    a == "" || (b != "" && (a[0] < b[0] || (a[0] == b[0] && TextLe(a[1..], b[1..]))))
  }

  lemma {:induction false} TextTotal(a: string, b: string)
    ensures TextLe(a, b) || TextLe(b, a)
    ensures TextLe(a, b) && TextLe(b, a) ==> a == b
  {
    if a != "" && b != "" && a[0] == b[0] {
      TextTotal(a[1..], b[1..]);
      assert a == [a[0]] + a[1..] && b == [b[0]] + b[1..];
    }
  }

  lemma {:induction false} TextTransitive(a: string, b: string, c: string)
    requires TextLe(a, b) && TextLe(b, c)
    ensures TextLe(a, c)
  {
    if a != "" && a[0] == b[0] == c[0] {
      TextTransitive(a[1..], b[1..], c[1..]);
    }
  }

  lemma TextIsTotalOrder()
    ensures TotalOrder(TextLe)
  {
    forall a, b ensures TextLe(a, b) || TextLe(b, a) {
      TextTotal(a, b);
    }
    forall a, b, c | TextLe(a, b) && TextLe(b, c) ensures TextLe(a, c) {
      TextTransitive(a, b, c);
    }
  }

  predicate Distinct<T(==)>(xs: seq<T>) {
    forall i, j :: 0 <= i < j < |xs| ==> xs[i] != xs[j]
  }

  lemma SortedTextsAreStrict(xs: seq<string>)
    requires Sorted(xs, TextLe)
    ensures Distinct(xs) <==> StrictlySorted(xs, TextLe)
  {
    forall i, j | 0 <= i < j < |xs| ensures xs[i] != xs[j] <==> !TextLe(xs[j], xs[i]) {
      assert TextLe(xs[i], xs[j]);
      TextTotal(xs[i], xs[j]);
    }
  }

  lemma {:induction false} DistinctIffCounts<T>(xs: seq<T>)
    ensures Distinct(xs) <==> forall x :: multiset(xs)[x] <= 1
  {
    if xs != [] {
      var n := |xs| - 1;
      assert xs == xs[..n] + [xs[n]];
      DistinctIffCounts(xs[..n]);
      if Distinct(xs) {
        assert xs[n] !in xs[..n];
        assert multiset(xs[..n])[xs[n]] == 0;
      } else {
        if i, j :| 0 <= i < j < |xs| && xs[i] == xs[j] {
          if j == n {
            assert xs[n] in xs[..n];
            assert multiset(xs)[xs[n]] >= 2;
          } else {
            assert xs[..n][i] == xs[..n][j];
            var x :| multiset(xs[..n])[x] > 1;
            assert multiset(xs)[x] > 1;
          }
        }
      }
    }
  }

  /** Whether a list repeats an element does not depend on its order. */
  lemma DistinctPermutes<T>(xs: seq<T>, ys: seq<T>)
    requires multiset(xs) == multiset(ys)
    ensures Distinct(xs) == Distinct(ys)
  {
    DistinctIffCounts(xs);
    DistinctIffCounts(ys);
  }

  // ---- Mapping ----

  function Map<S, T>(f: S -> T, xs: seq<S>): (r: seq<T>)
    ensures |r| == |xs|
    ensures forall i :: 0 <= i < |xs| ==> r[i] == f(xs[i])
  {
    seq(|xs|, i requires 0 <= i < |xs| => f(xs[i]))
  }

  lemma RemoveAt<T>(b: seq<T>, k: nat)
    requires k < |b|
    ensures multiset(b) == multiset(b[..k] + b[k + 1..]) + multiset{b[k]}
  {
    assert b == b[..k] + [b[k]] + b[k + 1..];
  }

  /** Mapping an arrangement of the same elements gives an arrangement of the same results. */
  lemma {:induction false} MapPermutes<S, T>(f: S -> T, a: seq<S>, b: seq<S>)
    requires multiset(a) == multiset(b)
    ensures multiset(Map(f, a)) == multiset(Map(f, b))
  {
    SameLength(a, b);
    if a != [] {
      var n := |a| - 1;
      MembersAgree(a, b, a[n]);
      var k :| 0 <= k <= n && b[k] == a[n];
      var rest := b[..k] + b[k + 1..];
      SplitLast(a, n);
      RemoveAt(b, k);
      CancelOne(multiset(a[..n]), multiset(rest), a[n]);
      MapPermutes(f, a[..n], rest);
      SplitLast(Map(f, a), n);
      RemoveAt(Map(f, b), k);
      assert Map(f, a)[..n] == Map(f, a[..n]);
      assert Map(f, b)[..k] + Map(f, b)[k + 1..] == Map(f, rest);
    }
  }

  /** Sorting commutes with a map that keeps the key the sort is by. */
  lemma {:induction false} PlaceCommutes<S, T>(f: S -> T, xs: seq<S>, x: S, le: (S, S) -> bool, le2: (T, T) -> bool)
    requires forall a, b :: le(a, b) == le2(f(a), f(b))
    ensures Map(f, Place(xs, x, le)) == Place(Map(f, xs), f(x), le2)
  {
    if xs != [] {
      var n := |xs| - 1;
      assert Map(f, xs)[..n] == Map(f, xs[..n]);
      PlaceCommutes(f, xs[..n], x, le, le2);
    }
  }

  lemma {:induction false} SortCommutes<S, T>(f: S -> T, xs: seq<S>, le: (S, S) -> bool, le2: (T, T) -> bool)
    requires forall a, b :: le(a, b) == le2(f(a), f(b))
    ensures Map(f, Sort(xs, le)) == Sort(Map(f, xs), le2)
  {
    if xs != [] {
      var n := |xs| - 1;
      SortCommutes(f, xs[..n], le, le2);
      PlaceCommutes(f, Sort(xs[..n], le), xs[n], le, le2);
      assert Map(f, xs)[..n] == Map(f, xs[..n]);
    }
  }

  /** Two lists without repetition and with the same members are arrangements of each other. */
  lemma SameMembers<T>(a: seq<T>, b: seq<T>)
    requires Distinct(a) && Distinct(b)
    requires forall x :: x in a <==> x in b
    ensures multiset(a) == multiset(b)
  {
    DistinctIffCounts(a);
    DistinctIffCounts(b);
    forall x ensures multiset(a)[x] == multiset(b)[x] {
      assert x in a <==> x in multiset(a);
      assert x in b <==> x in multiset(b);
    }
  }
}
