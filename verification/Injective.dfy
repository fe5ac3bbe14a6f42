/** Serialized input arrays of one shape never collide. */
module Injective {
  import opened Octets
  import opened Curves
  import opened Serialize

  predicate SameKind(x: Ser, y: Ser) {
    match x
    case U64(m) => y.U64? && m < U64_LIMIT && y.n < U64_LIMIT
    case Scl(_) => y.Scl?
    case G1(_) => y.G1?
  }

  predicate SameShape(a: seq<Ser>, b: seq<Ser>) {
    |a| == |b| && forall i :: 0 <= i < |a| ==> SameKind(a[i], b[i])
  }

  lemma ItemInjective(c: Curve, x: Ser, y: Ser)
    requires c.Laws()
    requires SameKind(x, y)
    ensures |ItemOctets(c, x)| == |ItemOctets(c, y)|
    ensures ItemOctets(c, x) == ItemOctets(c, y) ==> x == y
  {
    match x {
      case U64(m) =>
        if ItemOctets(c, x) == ItemOctets(c, y) {
          Pow256Values();
          I2ospInjective(m, y.n, 8);
        }
      case Scl(s) =>
        c.ScalarFromBeIff([], s);
        c.ScalarFromBeIff([], y.s);
        if ItemOctets(c, x) == ItemOctets(c, y) {
          c.ScalarOctetsInjective(s, y.s);
        }
      case G1(p) =>
        c.PointFromOctetsIff([], p);
        c.PointFromOctetsIff([], y.p);
        if ItemOctets(c, x) == ItemOctets(c, y) {
          c.PointOctetsInjective(p, y.p);
        }
    }
  }

  lemma {:induction false} SameShapeLength(c: Curve, a: seq<Ser>, b: seq<Ser>)
    requires c.Laws()
    requires SameShape(a, b)
    ensures |SerOctets(c, a)| == |SerOctets(c, b)|
  {
    if a != [] {
      var n := |a| - 1;
      SameShapeLength(c, a[..n], b[..n]);
      ItemInjective(c, a[n], b[n]);
    }
  }

  lemma {:induction false} SerInjective(c: Curve, a: seq<Ser>, b: seq<Ser>)
    requires c.Laws()
    requires SameShape(a, b)
    requires SerOctets(c, a) == SerOctets(c, b)
    ensures a == b
  {
    if a != [] {
      var n := |a| - 1;
      SameShapeLength(c, a[..n], b[..n]);
      SplitEqual(SerOctets(c, a[..n]), ItemOctets(c, a[n]), SerOctets(c, b[..n]), ItemOctets(c, b[n]));
      SerInjective(c, a[..n], b[..n]);
      ItemInjective(c, a[n], b[n]);
      assert a == a[..n] + [a[n]] && b == b[..n] + [b[n]];
    }
  }

  /** Two strings that start with arrays of one shape agree only if the arrays and the rests do. */
  lemma SerPrefixInjective(c: Curve, a: seq<Ser>, b: seq<Ser>, x: Octets, y: Octets)
    requires c.Laws()
    requires SameShape(a, b)
    requires SerOctets(c, a) + x == SerOctets(c, b) + y
    ensures a == b && x == y
  {
    SameShapeLength(c, a, b);
    SplitEqual(SerOctets(c, a), x, SerOctets(c, b), y);
    SerInjective(c, a, b);
  }

  lemma PointItemsInjective(a: seq<Point>, b: seq<Point>)
    requires PointItems(a) == PointItems(b)
    ensures a == b
  {
    assert |PointItems(a)| == |a| && |PointItems(b)| == |b|;
    forall i | 0 <= i < |a| ensures a[i] == b[i] {
      assert PointItems(a)[i] == PointItems(b)[i];
    }
  }

  lemma ScalarItemsInjective(a: seq<Scalar>, b: seq<Scalar>)
    requires ScalarItems(a) == ScalarItems(b)
    ensures a == b
  {
    assert |ScalarItems(a)| == |a| && |ScalarItems(b)| == |b|;
    forall i | 0 <= i < |a| ensures a[i] == b[i] {
      assert ScalarItems(a)[i] == ScalarItems(b)[i];
    }
  }

  /** A length prefix makes a trailing blob unambiguous. */
  lemma BlobInjective(x: Octets, y: Octets)
    requires |x| < U64_LIMIT && |y| < U64_LIMIT
    requires I2osp(|x|, 8) + x == I2osp(|y|, 8) + y
    ensures x == y
  {
    SplitEqual(I2osp(|x|, 8), x, I2osp(|y|, 8), y);
  }
}
