/** The library code under the repository: a prime field of scalars, the group G1, the hash
    functions and the octet encodings, as a record of uninterpreted operations and the laws
    they obey. `CurveInstance.dfy` shows that the laws can be met. */
module Curves {
  import opened Wrappers
  import opened Octets

  type Scalar(==, !new)
  type Point(==, !new)
  type Curve = CurveOps<Scalar, Point>

  const SCALAR_LENGTH: nat := 32
  const POINT_LENGTH: nat := 48

  datatype CurveOps<!S(==, !new), !P(==, !new)> = CurveOps(
    order: nat,
    toInt: S -> nat,
    ofInt: nat -> S,
    zero: S,
    one: S,
    addS: (S, S) -> S,
    negS: S -> S,
    mulS: (S, S) -> S,
    invS: S -> Option<S>,
    identity: P,
    generator: P,
    addP: (P, P) -> P,
    negP: P -> P,
    mulP: (P, S) -> P,
    compressed: P -> Octets,
    fromCompressed: Octets -> Option<P>,
    uncompressed: P -> Octets,
    toBeBytes: S -> Octets,
    fromBeBytes: Octets -> Option<S>,
    // A public key is x * G2; the pairing only ever exposes x through its action on G1.
    keyExponent: Octets -> Option<S>,
    sha256: Octets -> Octets,
    hashToCurve: (Octets, Octets) -> P)
  {
    function SAdd(a: S, b: S): S { addS(a, b) }
    function SNeg(a: S): S { negS(a) }
    function SSub(a: S, b: S): S { SAdd(a, SNeg(b)) }
    function SMul(a: S, b: S): S { mulS(a, b) }
    function Add(p: P, q: P): P { addP(p, q) }
    function Neg(p: P): P { negP(p) }
    function Sub(p: P, q: P): P { Add(p, Neg(q)) }
    function Mul(p: P, s: S): P { mulP(p, s) }

    ghost predicate ScalarLaws(a: S, b: S, c: S) {
      && SAdd(a, b) == SAdd(b, a)
      && SAdd(SAdd(a, b), c) == SAdd(a, SAdd(b, c))
      && SAdd(a, zero) == a
      && SAdd(a, SNeg(a)) == zero
      && SMul(a, b) == SMul(b, a)
      && SMul(SMul(a, b), c) == SMul(a, SMul(b, c))
      && SMul(a, one) == a
      && SMul(SAdd(a, b), c) == SAdd(SMul(a, c), SMul(b, c))
      && (invS(a).Some? <==> a != zero)
      && (invS(a).Some? ==> SMul(a, invS(a).value) == one)
    }

    ghost predicate PointLaws(p: P, q: P, r: P, s: S, t: S) {
      && Add(p, q) == Add(q, p)
      && Add(Add(p, q), r) == Add(p, Add(q, r))
      && Add(p, identity) == p
      && Add(p, Neg(p)) == identity
      && Mul(Add(p, q), s) == Add(Mul(p, s), Mul(q, s))
      && Mul(p, SAdd(s, t)) == Add(Mul(p, s), Mul(p, t))
      && Mul(Mul(p, s), t) == Mul(p, SMul(s, t))
      && Mul(p, one) == p
      && (uncompressed(p) == uncompressed(q) ==> p == q)
    }

    ghost predicate PointCodecLaws(p: P, o: Octets) {
      && |compressed(p)| == POINT_LENGTH
      && |uncompressed(p)| == 96
      && fromCompressed(compressed(p)) == Some(p)
      && (fromCompressed(o) == Some(p) ==> o == compressed(p))
    }

    /** Scalars are the residues `0 .. order - 1`, written on 32 octets; `ofInt` reduces. */
    ghost predicate ScalarCodecLaws(s: S, n: nat, o: Octets) {
      && toInt(s) < order
      && ofInt(toInt(s)) == s
      && toInt(ofInt(n)) == n % order
      && toBeBytes(s) == I2osp(toInt(s), SCALAR_LENGTH)
      && (|o| == SCALAR_LENGTH ==>
            fromBeBytes(o) == if Os2ip(o) < order then Some(ofInt(Os2ip(o))) else None)
    }

    ghost predicate HashLaws(o: Octets) {
      |sha256(o)| == 32
    }

    ghost predicate Laws() {
      && 1 < order <= Pow256(SCALAR_LENGTH)
      && zero != one
      && toInt(zero) == 0
      && (forall a, b, c :: ScalarLaws(a, b, c))
      && (forall p, q, r, s, t :: PointLaws(p, q, r, s, t))
      && (forall p, o :: PointCodecLaws(p, o))
      && (forall s, n, o :: ScalarCodecLaws(s, n, o))
      && (forall o :: HashLaws(o))
    }

    // ---- Consequences of the scalar laws ----

    lemma SAddAC()
      requires Laws()
      ensures forall a, b :: SAdd(a, b) == SAdd(b, a)
      ensures forall a, b, c :: SAdd(SAdd(a, b), c) == SAdd(a, SAdd(b, c))
      ensures forall a :: SAdd(a, zero) == a
      ensures forall a :: SAdd(a, SNeg(a)) == zero
    {
      forall a, b ensures SAdd(a, b) == SAdd(b, a) { assert ScalarLaws(a, b, b); }
      forall a, b, c ensures SAdd(SAdd(a, b), c) == SAdd(a, SAdd(b, c)) { assert ScalarLaws(a, b, c); }
      forall a ensures SAdd(a, zero) == a { assert ScalarLaws(a, a, a); }
      forall a ensures SAdd(a, SNeg(a)) == zero { assert ScalarLaws(a, a, a); }
    }

    lemma SNegUnique(a: S, b: S)
      requires Laws()
      requires SAdd(a, b) == zero
      ensures b == SNeg(a)
    {
      calc {
        b;
      == { SAddAC(); }
        SAdd(SAdd(SNeg(a), a), b);
      == { SAddAC(); }
        SAdd(SNeg(a), SAdd(a, b));
      == { SAddAC(); }
        SNeg(a);
      }
    }

    lemma SMulZero(a: S)
      requires Laws()
      ensures SMul(a, zero) == zero && SMul(zero, a) == zero
    {
      var z := SMul(zero, a);
      assert SAdd(z, z) == z by {
        assert ScalarLaws(zero, zero, a);
      }
      assert z == zero by {
        assert ScalarLaws(z, z, SNeg(z));
        assert ScalarLaws(z, zero, zero);
      }
      assert ScalarLaws(zero, a, a);
    }

    lemma SMulNeg(a: S, b: S)
      requires Laws()
      ensures SMul(SNeg(a), b) == SNeg(SMul(a, b))
    {
      assert ScalarLaws(a, SNeg(a), b);
      SMulZero(b);
      SNegUnique(SMul(a, b), SMul(SNeg(a), b));
    }

    lemma SSubZero(a: S, b: S)
      requires Laws()
      ensures SSub(a, b) == zero <==> a == b
    {
      SAddAC();
      if SSub(a, b) == zero {
        assert SAdd(SNeg(b), a) == zero;
        SNegUnique(SNeg(b), a);
        SNegUnique(SNeg(b), b);
      }
    }

    lemma SMulNonZero(a: S, b: S)
      requires Laws()
      requires a != zero && b != zero
      ensures SMul(a, b) != zero
    {
      assert ScalarLaws(a, b, invS(b).value) && ScalarLaws(b, b, b) && ScalarLaws(a, a, a);
      if SMul(a, b) == zero {
        SMulZero(invS(b).value);
      }
    }

    // ---- Consequences of the group laws ----

    lemma AddAC()
      requires Laws()
      ensures forall p, q :: Add(p, q) == Add(q, p)
      ensures forall p, q, r :: Add(Add(p, q), r) == Add(p, Add(q, r))
      ensures forall p :: Add(p, identity) == p
      ensures forall p :: Add(p, Neg(p)) == identity
    {
      forall p, q ensures Add(p, q) == Add(q, p) { assert PointLaws(p, q, q, zero, zero); }
      forall p, q, r ensures Add(Add(p, q), r) == Add(p, Add(q, r)) { assert PointLaws(p, q, r, zero, zero); }
      forall p ensures Add(p, identity) == p { assert PointLaws(p, p, p, zero, zero); }
      forall p ensures Add(p, Neg(p)) == identity { assert PointLaws(p, p, p, zero, zero); }
    }

    lemma NegUnique(p: P, q: P)
      requires Laws()
      requires Add(p, q) == identity
      ensures q == Neg(p)
    {
      calc {
        q;
      == { AddAC(); }
        Add(Add(Neg(p), p), q);
      == { AddAC(); }
        Add(Neg(p), Add(p, q));
      == { AddAC(); }
        Neg(p);
      }
    }

    lemma NegOfSum(p: P, q: P)
      requires Laws()
      ensures Neg(Add(p, q)) == Add(Neg(p), Neg(q))
      ensures Neg(identity) == identity
      ensures Neg(Neg(p)) == p
    {
      assert Add(Add(p, q), Add(Neg(p), Neg(q))) == identity by { AddAC(); }
      NegUnique(Add(p, q), Add(Neg(p), Neg(q)));
      assert Add(identity, identity) == identity && Add(Neg(p), p) == identity by { AddAC(); }
      NegUnique(identity, identity);
      NegUnique(Neg(p), p);
    }

    lemma SubIsIdentity(p: P, q: P)
      requires Laws()
      ensures Sub(p, q) == identity <==> p == q
    {
      if Sub(p, q) == identity {
        assert Add(Neg(q), p) == identity by { AddAC(); }
        NegUnique(Neg(q), p);
        NegOfSum(q, q);
      }
      if p == q {
        AddAC();
      }
    }

    lemma AddCancels(p: P, q: P, r: P)
      requires Laws()
      requires Add(p, q) == Add(p, r)
      ensures q == r
    {
      calc {
        q;
      == { AddAC(); }
        Add(Neg(p), Add(p, q));
      ==
        Add(Neg(p), Add(p, r));
      == { AddAC(); }
        r;
      }
    }

    lemma SubAfterAdd(p: P, q: P)
      requires Laws()
      ensures Sub(Add(p, q), q) == p
    {
      AddAC();
    }

    lemma MulZero(p: P, s: S)
      requires Laws()
      ensures Mul(p, zero) == identity
      ensures Mul(identity, s) == identity
    {
      var y, z := Mul(p, zero), Mul(identity, s);
      assert Add(y, y) == Add(y, identity) by {
        assert PointLaws(p, p, p, zero, zero) && ScalarLaws(zero, zero, zero) && PointLaws(y, y, y, zero, zero);
      }
      AddCancels(y, y, identity);
      assert Add(z, z) == Add(z, identity) by {
        assert PointLaws(identity, identity, identity, s, s) && PointLaws(z, z, z, s, s);
      }
      AddCancels(z, z, identity);
    }

    lemma MulNeg(p: P, s: S)
      requires Laws()
      ensures Mul(p, SNeg(s)) == Neg(Mul(p, s))
      ensures Mul(Neg(p), s) == Neg(Mul(p, s))
    {
      MulZero(p, s);
      assert Add(Mul(p, s), Mul(p, SNeg(s))) == identity by {
        assert PointLaws(p, p, p, s, SNeg(s)) && ScalarLaws(s, s, s);
      }
      NegUnique(Mul(p, s), Mul(p, SNeg(s)));
      assert Add(Mul(p, s), Mul(Neg(p), s)) == identity by {
        assert PointLaws(p, Neg(p), p, s, s);
      }
      NegUnique(Mul(p, s), Mul(Neg(p), s));
    }

    lemma MulAdd(p: P, s: S, t: S)
      requires Laws()
      ensures Mul(p, SAdd(s, t)) == Add(Mul(p, s), Mul(p, t))
      ensures Mul(p, SSub(s, t)) == Sub(Mul(p, s), Mul(p, t))
    {
      assert PointLaws(p, p, p, s, t) && PointLaws(p, p, p, s, SNeg(t));
      MulNeg(p, t);
    }

    lemma AddMul(p: P, q: P, s: S)
      requires Laws()
      ensures Mul(Add(p, q), s) == Add(Mul(p, s), Mul(q, s))
      ensures Mul(Sub(p, q), s) == Sub(Mul(p, s), Mul(q, s))
    {
      assert PointLaws(p, q, p, s, s) && PointLaws(p, Neg(q), p, s, s);
      MulNeg(q, s);
    }

    lemma MulMul(p: P, s: S, t: S)
      requires Laws()
      ensures Mul(Mul(p, s), t) == Mul(p, SMul(s, t))
      ensures Mul(Mul(p, s), t) == Mul(Mul(p, t), s)
    {
      assert PointLaws(p, p, p, s, t) && PointLaws(p, p, p, t, s) && ScalarLaws(s, t, t);
    }

    /** Multiplying by `s` and then by its inverse changes nothing, so only zero kills a point. */
    lemma MulInverse(p: P, s: S)
      requires Laws()
      requires s != zero
      ensures invS(s).Some?
      ensures Mul(Mul(p, s), invS(s).value) == p
      ensures Mul(Mul(p, invS(s).value), s) == p
      ensures invS(s).value != zero
      ensures p != identity ==> Mul(p, s) != identity
    {
      assert ScalarLaws(s, s, s);
      var t := invS(s).value;
      MulMul(p, s, t);
      MulMul(p, t, s);
      assert PointLaws(p, p, p, s, s);
      MulZero(p, t);
      SMulZero(s);
    }

    // ---- Scalar and point octets ----

    /** `Scalar::to_be_bytes`. */
    function ScalarOctets(s: S): Octets {
      toBeBytes(s)
    }

    /** `scalar_from_be`: exactly 32 octets, below the group order. */
    function ScalarFromBe(o: Octets): Result<S> {
      if |o| != SCALAR_LENGTH then Err(InvalidLength)
      else match fromBeBytes(o)
           case Some(s) => Ok(s)
           case None => Err(InvalidScalar)
    }

    lemma ScalarFromBeIff(o: Octets, s: S)
      requires Laws()
      ensures ScalarFromBe(o) == Ok(s) <==> o == ScalarOctets(s)
      ensures |ScalarOctets(s)| == SCALAR_LENGTH
    {
      var n := Os2ip(o);
      assert ScalarCodecLaws(s, n, o);
      if ScalarFromBe(o) == Ok(s) {
        assert n % order == n by { SmallMod(n, order); }
        I2ospOfOs2ip(o);
      }
      if o == ScalarOctets(s) {
        Os2ipOfI2osp(toInt(s), SCALAR_LENGTH);
      }
    }

    lemma SmallMod(n: nat, m: nat)
      requires n < m
      ensures n % m == n
    {
    }

    /** `octets_to_point_E1`: exactly 48 octets of a point of the prime-order subgroup. */
    function PointFromOctets(o: Octets): Result<P> {
      if |o| != POINT_LENGTH then Err(InvalidLength)
      else match fromCompressed(o)
           case Some(p) => Ok(p)
           case None => Err(InvalidPoint)
    }

    lemma PointFromOctetsIff(o: Octets, p: P)
      requires Laws()
      ensures PointFromOctets(o) == Ok(p) <==> o == compressed(p)
      ensures |compressed(p)| == POINT_LENGTH
    {
      assert PointCodecLaws(p, o);
    }

    lemma PointOctetsInjective(p: P, q: P)
      requires Laws()
      requires compressed(p) == compressed(q)
      ensures p == q
    {
      PointFromOctetsIff(compressed(p), p);
      PointFromOctetsIff(compressed(p), q);
    }

    lemma ScalarOctetsInjective(s: S, t: S)
      requires Laws()
      requires ScalarOctets(s) == ScalarOctets(t)
      ensures s == t
    {
      ScalarFromBeIff(ScalarOctets(s), s);
      ScalarFromBeIff(ScalarOctets(s), t);
    }

    /** `octets_to_pubkey`: 96 octets of a G2 point other than the identity. */
    function PublicKeyExponent(pk: Octets): (r: Result<S>) {
      if |pk| != 96 then Err(InvalidLength)
      else match keyExponent(pk)
           case Some(x) => if x == zero then Err(InvalidPoint) else Ok(x)
           case None => Err(InvalidPoint)
    }

    // ---- Sums ----

    /** `sumprod`: the fold from the left of `points[i] * scalars[i]`. */
    function SumProd(points: seq<P>, scalars: seq<S>): P
      requires |points| == |scalars|
    {
      if points == [] then identity
      else
        var n := |points| - 1;
        Add(SumProd(points[..n], scalars[..n]), Mul(points[n], scalars[n]))
    }

    function SumPoints(points: seq<P>): P {
      if points == [] then identity
      else Add(SumPoints(points[..|points| - 1]), points[|points| - 1])
    }

    lemma {:induction false} SumProdConcat(p: seq<P>, s: seq<S>, q: seq<P>, t: seq<S>)
      requires Laws()
      requires |p| == |s| && |q| == |t|
      ensures SumProd(p + q, s + t) == Add(SumProd(p, s), SumProd(q, t))
    {
      if q == [] {
        assert p + q == p && s + t == s;
        assert PointLaws(SumProd(p, s), identity, identity, zero, zero);
      } else {
        var n := |q| - 1;
        assert (p + q)[..|p| + n] == p + q[..n] && (s + t)[..|p| + n] == s + t[..n];
        SumProdConcat(p, s, q[..n], t[..n]);
        assert PointLaws(SumProd(p, s), SumProd(q[..n], t[..n]), Mul(q[n], t[n]), zero, zero);
      }
    }

    lemma SumProdOne(p: P, s: S)
      requires Laws()
      ensures SumProd([p], [s]) == Mul(p, s)
    {
      assert SumProd([], []) == identity;
      AddAC();
    }

    /** `a[i] + b[i] * c` */
    function Blend(a: seq<S>, b: seq<S>, c: S): (r: seq<S>)
      requires |a| == |b|
      ensures |r| == |a|
      ensures forall i :: 0 <= i < |a| ==> r[i] == SAdd(a[i], SMul(b[i], c))
    {
      seq(|a|, i requires 0 <= i < |a| => SAdd(a[i], SMul(b[i], c)))
    }

    /** `a[i] + c * b[i]` */
    function BlendLeft(a: seq<S>, b: seq<S>, c: S): (r: seq<S>)
      requires |a| == |b|
      ensures |r| == |a|
      ensures forall i :: 0 <= i < |a| ==> r[i] == SAdd(a[i], SMul(c, b[i]))
    {
      seq(|a|, i requires 0 <= i < |a| => SAdd(a[i], SMul(c, b[i])))
    }

    function Negated(a: seq<S>): (r: seq<S>)
      ensures |r| == |a|
      ensures forall i :: 0 <= i < |a| ==> r[i] == SNeg(a[i])
    {
      seq(|a|, i requires 0 <= i < |a| => SNeg(a[i]))
    }

    lemma {:induction false} SumProdOfBlend(p: seq<P>, a: seq<S>, b: seq<S>, c: S)
      requires Laws()
      requires |p| == |a| == |b|
      ensures SumProd(p, Blend(a, b, c)) == Add(SumProd(p, a), Mul(SumProd(p, b), c))
    {
      if p == [] {
        MulZero(identity, c);
        AddAC();
      } else {
        var n := |p| - 1;
        assert Blend(a, b, c)[..n] == Blend(a[..n], b[..n], c);
        SumProdOfBlend(p[..n], a[..n], b[..n], c);
        MulAdd(p[n], a[n], SMul(b[n], c));
        MulMul(p[n], b[n], c);
        AddMul(SumProd(p[..n], b[..n]), Mul(p[n], b[n]), c);
        Interleave(SumProd(p[..n], a[..n]), Mul(SumProd(p[..n], b[..n]), c), Mul(p[n], a[n]), Mul(Mul(p[n], b[n]), c));
      }
    }

    lemma Interleave(p: P, q: P, r: P, t: P)
      requires Laws()
      ensures Add(Add(p, q), Add(r, t)) == Add(Add(p, r), Add(q, t))
    {
      AddAC();
    }

    lemma {:induction false} SumProdOfNegated(p: seq<P>, a: seq<S>)
      requires Laws()
      requires |p| == |a|
      ensures SumProd(p, Negated(a)) == Neg(SumProd(p, a))
    {
      if p == [] {
        NegOfSum(identity, identity);
      } else {
        var n := |p| - 1;
        assert Negated(a)[..n] == Negated(a[..n]);
        SumProdOfNegated(p[..n], a[..n]);
        MulNeg(p[n], a[n]);
        NegOfSum(SumProd(p[..n], a[..n]), Mul(p[n], a[n]));
      }
    }

    lemma {:induction false} SumProdOfZeros(p: seq<P>, a: seq<S>)
      requires Laws()
      requires |p| == |a|
      requires forall i :: 0 <= i < |a| ==> a[i] == zero
      ensures SumProd(p, a) == identity
    {
      if p != [] {
        var n := |p| - 1;
        SumProdOfZeros(p[..n], a[..n]);
        MulZero(p[n], zero);
        assert PointLaws(identity, identity, identity, zero, zero);
      }
    }

    /** `p[i] + g[i] * r[i]` */
    function Randomized(p: seq<P>, g: seq<P>, r: seq<S>): (q: seq<P>)
      requires |p| == |g| == |r|
      ensures |q| == |p|
      ensures forall i :: 0 <= i < |p| ==> q[i] == Add(p[i], Mul(g[i], r[i]))
    {
      seq(|p|, i requires 0 <= i < |p| => Add(p[i], Mul(g[i], r[i])))
    }

    lemma {:induction false} SumPointsOfRandomized(p: seq<P>, g: seq<P>, r: seq<S>)
      requires Laws()
      requires |p| == |g| == |r|
      ensures SumPoints(Randomized(p, g, r)) == Add(SumPoints(p), SumProd(g, r))
    {
      if p == [] {
        AddAC();
      } else {
        var n := |p| - 1;
        assert Randomized(p, g, r)[..n] == Randomized(p[..n], g[..n], r[..n]);
        SumPointsOfRandomized(p[..n], g[..n], r[..n]);
        Interleave(SumPoints(p[..n]), SumProd(g[..n], r[..n]), p[n], Mul(g[n], r[n]));
      }
    }

    // ---- Extraction from two answers ----

    /** `(a[i] - b[i]) / d` for `inv = 1 / d` */
    function Quotients(a: seq<S>, b: seq<S>, inv: S): (r: seq<S>)
      requires |a| == |b|
      ensures |r| == |a|
      ensures forall i :: 0 <= i < |a| ==> r[i] == SMul(SSub(a[i], b[i]), inv)
    {
      seq(|a|, i requires 0 <= i < |a| => SMul(SSub(a[i], b[i]), inv))
    }

    /** `1 / (c - d)`, the factor of every extraction; zero stands in when `c == d`. */
    function PerDifference(c: S, d: S): S {
      match invS(SSub(c, d))
      case Some(inv) => inv
      case None => zero
    }

    lemma QuotientBlends(a: S, b: S, d: S)
      requires Laws()
      requires d != zero
      ensures invS(d).Some?
      ensures SAdd(b, SMul(SMul(SSub(a, b), invS(d).value), d)) == a
    {
      assert ScalarLaws(d, d, d);
      var inv := invS(d).value;
      assert ScalarLaws(SSub(a, b), inv, d) && ScalarLaws(inv, d, d) && ScalarLaws(SSub(a, b), d, d);
      assert SMul(SMul(SSub(a, b), inv), d) == SSub(a, b);
      assert SAdd(b, SSub(a, b)) == a by {
        assert ScalarLaws(b, SSub(a, b), a) && ScalarLaws(a, SNeg(b), b) && ScalarLaws(b, SNeg(b), b);
        assert ScalarLaws(SNeg(b), b, b) && ScalarLaws(a, a, a);
      }
    }

    /** If two answers to different challenges leave the same remainder over `q`, their quotient opens `q`. */
    lemma SumProdExtracts(p: seq<P>, a: seq<S>, b: seq<S>, q: P, c: S, d: S)
      requires Laws()
      requires |p| == |a| == |b|
      requires c != d
      requires Sub(SumProd(p, a), Mul(q, c)) == Sub(SumProd(p, b), Mul(q, d))
      ensures SumProd(p, Quotients(a, b, PerDifference(c, d))) == q
    {
      SSubZero(c, d);
      var e := SSub(c, d);
      MulInverse(q, e);
      var w := Quotients(a, b, PerDifference(c, d));
      forall i | 0 <= i < |a| ensures a[i] == SAdd(b[i], SMul(w[i], e)) {
        QuotientBlends(a[i], b[i], e);
      }
      assert a == Blend(b, w, e);
      SumProdOfBlend(p, b, w, e);
      var x, y := SumProd(p, b), Mul(SumProd(p, w), e);
      MulAdd(q, c, d);
      RemainderMoves(x, y, Mul(q, c), Mul(q, d));
      assert y == Mul(q, e);
      MulInverse(SumProd(p, w), e);
    }

    /** The quotients of two answers made from one randomness are what was answered for. */
    lemma QuotientsOfBlends(r: seq<S>, m: seq<S>, c: S, d: S)
      requires Laws()
      requires |r| == |m|
      requires c != d
      ensures Quotients(Blend(r, m, c), Blend(r, m, d), PerDifference(c, d)) == m
    {
      SSubZero(c, d);
      forall i | 0 <= i < |m|
        ensures SMul(SSub(SAdd(r[i], SMul(m[i], c)), SAdd(r[i], SMul(m[i], d))), PerDifference(c, d)) == m[i]
      {
        QuotientOfBlend(r[i], m[i], c, d);
      }
    }

    lemma QuotientOfBlend(r: S, m: S, c: S, d: S)
      requires Laws()
      requires SSub(c, d) != zero
      ensures SMul(SSub(SAdd(r, SMul(m, c)), SAdd(r, SMul(m, d))), PerDifference(c, d)) == m
    {
      var e := SSub(c, d);
      assert ScalarLaws(e, e, e) && ScalarLaws(m, e, invS(e).value) && ScalarLaws(m, m, m) && ScalarLaws(invS(e).value, e, e);
      SSubShared(r, SMul(m, c), SMul(m, d));
      SMulSub(m, c, d);
    }

    lemma SSubShared(r: S, u: S, v: S)
      requires Laws()
      ensures SSub(SAdd(r, u), SAdd(r, v)) == SSub(u, v)
    {
      var n := SAdd(SNeg(r), SNeg(v));
      assert SAdd(SAdd(r, v), n) == zero by { SAddAC(); }
      SNegUnique(SAdd(r, v), n);
      assert SAdd(SAdd(r, u), n) == SAdd(SAdd(r, SNeg(r)), SAdd(u, SNeg(v))) by { SAddAC(); }
      assert SAdd(SAdd(r, SNeg(r)), SAdd(u, SNeg(v))) == SSub(u, v) by { SAddAC(); }
    }

    lemma SMulSub(m: S, c: S, d: S)
      requires Laws()
      ensures SMul(m, SSub(c, d)) == SSub(SMul(m, c), SMul(m, d))
    {
      assert ScalarLaws(m, d, SNeg(d)) && ScalarLaws(d, SNeg(d), m) && ScalarLaws(m, c, SNeg(d)) && ScalarLaws(c, SNeg(d), m);
      assert ScalarLaws(d, d, d) && ScalarLaws(SSub(c, d), m, m) && ScalarLaws(c, m, m) && ScalarLaws(d, m, m);
      SMulZero(m);
      assert ScalarLaws(SNeg(d), m, m) && ScalarLaws(m, SSub(c, d), m);
      SNegUnique(SMul(m, d), SMul(m, SNeg(d)));
    }

    lemma RemainderMoves(x: P, y: P, u: P, v: P)
      requires Laws()
      requires Sub(Add(x, y), u) == Sub(x, v)
      ensures y == Sub(u, v)
    {
      assert Add(x, Sub(y, u)) == Add(x, Neg(v)) by { AddAC(); }
      AddCancels(x, Sub(y, u), Neg(v));
      assert Add(Sub(y, u), u) == y && Add(Neg(v), u) == Sub(u, v) by { AddAC(); }
    }
  }
}
