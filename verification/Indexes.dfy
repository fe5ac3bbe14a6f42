/** Index lists over the message vector: which slots are disclosed, which are not, and how a
    sum over all slots splits over the two. */
module Indexes {
  import opened Wrappers
  import opened Curves

  /** The positions at which `mask` holds: `(0..n).filter(..)`. */
  function Where(mask: seq<bool>): (r: seq<nat>) {
    if mask == [] then []
    else
      var n := |mask| - 1;
      Where(mask[..n]) + if mask[n] then [n] else []
  }

  function Pick<T>(xs: seq<T>, indexes: seq<nat>): (r: seq<T>)
    requires forall i :: 0 <= i < |indexes| ==> indexes[i] < |xs|
    ensures |r| == |indexes|
    ensures forall i :: 0 <= i < |indexes| ==> r[i] == xs[indexes[i]]
  {
    seq(|indexes|, i requires 0 <= i < |indexes| => xs[indexes[i]])
  }

  function Not(mask: seq<bool>): (r: seq<bool>)
    ensures |r| == |mask|
    ensures forall i :: 0 <= i < |mask| ==> r[i] == !mask[i]
  {
    seq(|mask|, i requires 0 <= i < |mask| => !mask[i])
  }

  function Repeat<T>(x: T, n: nat): (r: seq<T>)
    ensures |r| == n
    ensures forall i :: 0 <= i < n ==> r[i] == x
  {
    seq(n, _ => x)
  }

  /** `from, from + 1, .. , from + n - 1` */
  function Range(from: nat, n: nat): (r: seq<nat>)
    ensures |r| == n
    ensures forall i :: 0 <= i < n ==> r[i] == from + i
  {
    seq(n, i requires 0 <= i => from + i)
  }

  function Shifted(indexes: seq<nat>, offset: nat): (r: seq<nat>)
    ensures |r| == |indexes|
    ensures forall i :: 0 <= i < |indexes| ==> r[i] == indexes[i] + offset
  {
    seq(|indexes|, i requires 0 <= i < |indexes| => indexes[i] + offset)
  }

  /** `(0..n).filter(|i| !indexes.contains(i))` */
  function Complement(n: nat, indexes: seq<nat>): seq<nat> {
    Where(seq(n, i requires 0 <= i => i !in indexes))
  }

  predicate Increasing(s: seq<nat>) {
    forall i, j :: 0 <= i < j < |s| ==> s[i] < s[j]
  }

  predicate Below(s: seq<nat>, n: nat) {
    forall i :: 0 <= i < |s| ==> s[i] < n
  }

  lemma {:induction false} WhereIs(mask: seq<bool>)
    ensures Increasing(Where(mask)) && Below(Where(mask), |mask|)
    ensures forall i :: i in Where(mask) <==> 0 <= i < |mask| && mask[i]
    ensures |Where(mask)| <= |mask|
  {
    hide Increasing, Below;
    NothingIsIncreasing();
    if mask != [] {
      var n := |mask| - 1;
      WhereIs(mask[..n]);
      assert Where(mask) == Where(mask[..n]) + (if mask[n] then [n] else []);
      OneMore(Where(mask[..n]), n, mask[n]);
    }
  }

  lemma NothingIsIncreasing()
    ensures Increasing([]) && Below([], 0)
  {
  }

  lemma OneMore(front: seq<nat>, n: nat, last: bool)
    requires Increasing(front) && Below(front, n)
    ensures var r := front + (if last then [n] else []);
            Increasing(r) && Below(r, n + 1) && forall i :: i in r <==> i in front || (last && i == n)
  {
  }

  lemma {:induction false} WhereConcat(a: seq<bool>, b: seq<bool>)
    ensures Where(a + b) == Where(a) + Shifted(Where(b), |a|)
  {
    if b == [] {
      assert a + b == a;
    } else {
      var n := |b| - 1;
      assert (a + b)[..|a| + n] == a + b[..n];
      WhereConcat(a, b[..n]);
    }
  }

  lemma {:induction false} WhereAll(k: nat)
    ensures Where(Repeat(true, k)) == Range(0, k)
  {
    if k > 0 {
      assert Repeat(true, k)[..k - 1] == Repeat(true, k - 1);
      WhereAll(k - 1);
    }
  }

  lemma {:induction false} WhereNone(k: nat)
    ensures Where(Repeat(false, k)) == []
  {
    if k > 0 {
      assert Repeat(false, k)[..k - 1] == Repeat(false, k - 1);
      WhereNone(k - 1);
    }
  }

  lemma {:induction false} WhereCount(mask: seq<bool>)
    ensures |Where(mask)| + |Where(Not(mask))| == |mask|
  {
    if mask != [] {
      var n := |mask| - 1;
      assert Not(mask)[..n] == Not(mask[..n]);
      WhereCount(mask[..n]);
    }
  }

  lemma ComplementOfWhere(mask: seq<bool>)
    ensures Complement(|mask|, Where(mask)) == Where(Not(mask))
  {
    hide Where;
    WhereIs(mask);
    assert seq(|mask|, i requires 0 <= i => i !in Where(mask)) == Not(mask);
  }

  lemma BelowZero(s: seq<nat>)
    ensures Below(s, 0) ==> s == []
  {
    if s != [] {
      assert s[0] >= 0;
    }
  }

  lemma BelowMember(s: seq<nat>, n: nat, i: nat)
    ensures Below(s, n) && i in s ==> i < n
  {
    if i in s {
      var j :| 0 <= j < |s| && s[j] == i;
      assert Below(s, n) ==> s[j] < n;
    }
  }

  /** A strictly increasing list of slots is the list of slots it contains. */
  lemma {:induction false} IncreasingIsWhere(s: seq<nat>, n: nat)
    requires Increasing(s) && Below(s, n)
    ensures s == Where(seq(n, i requires 0 <= i => i in s))
  {
    var mask := seq(n, i requires 0 <= i => i in s);
    if n == 0 {
      assert mask == [];
      BelowZero(s);
    } else if s != [] && s[|s| - 1] == n - 1 {
      var front := s[..|s| - 1];
      assert s == front + [n - 1];
      IncreasingIsWhere(front, n - 1);
      assert mask[..n - 1] == seq(n - 1, i requires 0 <= i => i in front);
    } else {
      IncreasingIsWhere(s, n - 1);
      assert mask[..n - 1] == seq(n - 1, i requires 0 <= i => i in s);
    }
  }

  /** `check_indexes` followed by the disjointness test. */
  function CheckIndexes(indexes: seq<nat>, len: nat): Result<()> {
    if !(forall i :: 0 <= i < |indexes| - 1 ==> indexes[i] < indexes[i + 1]) then Err(Unsupported)
    else if !Below(indexes, len) then Err(IndexOutOfRange)
    else Ok(())
  }

  /** `check_indexes`: neighbours first, then the range. */
  method CheckIndexesLoop(indexes: seq<nat>, len: nat) returns (r: Result<()>)
    ensures r == CheckIndexes(indexes, len)
  {
    var w := 0;
    while w + 1 < |indexes|
      invariant forall j :: 0 <= j < w && j + 1 < |indexes| ==> indexes[j] < indexes[j + 1]
    {
      if indexes[w] >= indexes[w + 1] {
        return Err(Unsupported);
      }
      w := w + 1;
    }
    for i := 0 to |indexes|
      invariant forall j :: 0 <= j < i ==> indexes[j] < len
    {
      if indexes[i] >= len {
        return Err(IndexOutOfRange);
      }
    }
    r := Ok(());
  }

  lemma {:induction false} AdjacentIsIncreasing(s: seq<nat>)
    requires forall i :: 0 <= i < |s| - 1 ==> s[i] < s[i + 1]
    ensures Increasing(s)
  {
    if |s| > 1 {
      var front := s[..|s| - 1];
      AdjacentIsIncreasing(front);
      assert forall i :: 0 <= i < |front| ==> s[i] == front[i];
      assert s[|s| - 2] < s[|s| - 2 + 1];
    }
  }

  lemma CheckIndexesIff(indexes: seq<nat>, len: nat)
    ensures CheckIndexes(indexes, len).Ok? <==> Increasing(indexes) && Below(indexes, len)
  {
    if CheckIndexes(indexes, len).Ok? {
      AdjacentIsIncreasing(indexes);
    }
  }

  function IndexIn(xs: seq<nat>, x: nat): (r: Option<nat>)
    ensures r.Some? <==> x in xs
    ensures r.Some? ==> r.value < |xs| && xs[r.value] == x
  {
    if xs == [] then None
    else if xs[0] == x then Some(0)
    else match IndexIn(xs[1..], x)
         case Some(i) => Some(i + 1)
         case None => None
  }

  /** Appending to the list does not move what is already in it. */
  lemma {:induction false} IndexInPrefix(xs: seq<nat>, ys: seq<nat>, x: nat)
    requires x in xs
    ensures IndexIn(xs + ys, x) == IndexIn(xs, x)
  {
    if xs[0] != x {
      assert (xs + ys)[1..] == xs[1..] + ys;
      IndexInPrefix(xs[1..], ys, x);
    }
  }

  // ---- Sums over a partition ----

  lemma {:induction false} PickConcat<T>(xs: seq<T>, a: seq<nat>, b: seq<nat>)
    requires Below(a, |xs|) && Below(b, |xs|)
    ensures Pick(xs, a + b) == Pick(xs, a) + Pick(xs, b)
  {
  }

  lemma PickPrefix<T>(xs: seq<T>, n: nat, a: seq<nat>)
    requires n <= |xs| && Below(a, n)
    ensures Pick(xs, a) == Pick(xs[..n], a)
  {
  }

  /** The sum over all slots is the sum over the marked slots plus the sum over the others. */
  lemma {:induction false} SumSplits(c: Curve, points: seq<Point>, scalars: seq<Scalar>, mask: seq<bool>)
    requires c.Laws()
    requires |points| == |scalars| == |mask|
    ensures Below(Where(mask), |mask|) && Below(Where(Not(mask)), |mask|)
    ensures c.SumProd(points, scalars) ==
            c.Add(c.SumProd(Pick(points, Where(mask)), Pick(scalars, Where(mask))),
                  c.SumProd(Pick(points, Where(Not(mask))), Pick(scalars, Where(Not(mask)))))
  {
    hide Where, c.SumProd;
    WhereIs(mask);
    WhereIs(Not(mask));
    if mask == [] {
      SumsOfNothing(c, points, scalars, mask);
    } else {
      var n := |mask| - 1;
      var inside, outside := Where(mask[..n]), Where(Not(mask[..n]));
      SumSplits(c, points[..n], scalars[..n], mask[..n]);
      WhereSnoc(mask, n);
      WhereSnoc(Not(mask), n);
      assert Not(mask)[..n] == Not(mask[..n]);
      WhereIs(mask[..n]);
      WhereIs(Not(mask[..n]));
      SumProdPickFront(c, points, scalars, inside, n);
      SumProdPickFront(c, points, scalars, outside, n);
      SumSplitsStep(c, c.SumProd(Pick(points, inside), Pick(scalars, inside)),
                    c.SumProd(Pick(points, outside), Pick(scalars, outside)), c.Mul(points[n], scalars[n]));
      SumProdLast(c, points, scalars, n);
      if mask[n] {
        SumProdPickSnoc(c, points, scalars, inside, n);
      } else {
        SumProdPickSnoc(c, points, scalars, outside, n);
      }
    }
  }

  lemma WhereSnoc(mask: seq<bool>, n: nat)
    requires |mask| == n + 1
    ensures Where(mask) == if mask[n] then Where(mask[..n]) + [n] else Where(mask[..n])
  {
  }

  lemma SumProdLast(c: Curve, points: seq<Point>, scalars: seq<Scalar>, n: nat)
    requires |points| == |scalars| == n + 1
    ensures c.SumProd(points, scalars) == c.Add(c.SumProd(points[..n], scalars[..n]), c.Mul(points[n], scalars[n]))
  {
  }

  lemma SumsOfNothing(c: Curve, points: seq<Point>, scalars: seq<Scalar>, mask: seq<bool>)
    requires c.Laws() && points == [] && scalars == [] && mask == []
    ensures Where(mask) == [] && Where(Not(mask)) == []
    ensures c.SumProd(points, scalars)
         == c.Add(c.SumProd(Pick(points, []), Pick(scalars, [])), c.SumProd(Pick(points, []), Pick(scalars, [])))
  {
    assert c.Add(c.identity, c.identity) == c.identity by { c.AddAC(); }
  }

  lemma SumProdPickFront(c: Curve, points: seq<Point>, scalars: seq<Scalar>, indexes: seq<nat>, n: nat)
    requires |points| == |scalars| && n <= |points| && Below(indexes, n)
    ensures c.SumProd(Pick(points, indexes), Pick(scalars, indexes)) ==
            c.SumProd(Pick(points[..n], indexes), Pick(scalars[..n], indexes))
  {
    PickPrefix(points, n, indexes);
    PickPrefix(scalars, n, indexes);
  }

  lemma SumSplitsStep(c: Curve, a: Point, b: Point, last: Point)
    requires c.Laws()
    ensures c.Add(c.Add(a, b), last) == c.Add(c.Add(a, last), b)
    ensures c.Add(c.Add(a, b), last) == c.Add(a, c.Add(b, last))
  {
    c.AddAC();
  }

  lemma SumProdPickSnoc(c: Curve, points: seq<Point>, scalars: seq<Scalar>, indexes: seq<nat>, n: nat)
    requires |points| == |scalars| && n < |points| && Below(indexes, |points|)
    ensures c.SumProd(Pick(points, indexes + [n]), Pick(scalars, indexes + [n])) ==
            c.Add(c.SumProd(Pick(points, indexes), Pick(scalars, indexes)), c.Mul(points[n], scalars[n]))
  {
    PickConcat(points, indexes, [n]);
    PickConcat(scalars, indexes, [n]);
    assert Pick(points, indexes + [n])[..|indexes|] == Pick(points, indexes);
    assert Pick(scalars, indexes + [n])[..|indexes|] == Pick(scalars, indexes);
  }
}
