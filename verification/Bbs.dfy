/** Base BBS (`src/bbs.rs`): signatures, proofs, their octets, and the algebra behind them. */
module Bbs {
  import opened Wrappers
  import opened Octets
  import opened Curves
  import opened Serialize
  import opened Suites
  import opened Indexes

  // ---- Signatures ----

  datatype Signature = Signature(a: Point, e: Scalar)

  function SignatureOctets(c: Curve, sig: Signature): Octets {
    SerOctets(c, [G1(sig.a), Scl(sig.e)])
  }

  function SignatureFromOctets(c: Curve, o: Octets): Result<Signature> {
    if |o| != POINT_LENGTH + SCALAR_LENGTH then Err(InvalidLength)
    else
      var a :- PointAt(c, o, 0);
      var e :- ScalarAt(c, o, POINT_LENGTH, true);
      Ok(Signature(a, e))
  }

  lemma SerTwo(c: Curve, x: Ser, y: Ser)
    ensures SerOctets(c, [x, y]) == ItemOctets(c, x) + ItemOctets(c, y)
  {
    SerOne(c, x);
    SerOne(c, y);
    SerConcat(c, [x], [y]);
    assert [x] + [y] == [x, y];
  }

  /** A signature is read back exactly from its own octets, and only when neither part is trivial. */
  lemma SignatureFromOctetsIff(c: Curve, o: Octets, sig: Signature)
    requires c.Laws()
    ensures SignatureFromOctets(c, o) == Ok(sig) <==>
            sig.a != c.identity && sig.e != c.zero && o == SignatureOctets(c, sig)
  {
    SerTwo(c, G1(sig.a), Scl(sig.e));
    c.PointFromOctetsIff([], sig.a);
    c.ScalarFromBeIff([], sig.e);
    if |o| == POINT_LENGTH + SCALAR_LENGTH {
      PointAtIff(c, o, 0, sig.a);
      ScalarAtIff(c, o, POINT_LENGTH, true, sig.e);
      CutIff(o, 0, POINT_LENGTH, |o|, c.compressed(sig.a), c.ScalarOctets(sig.e));
      assert o[0..|o|] == o;
    }
  }

  // ---- Proofs ----

  datatype Proof = Proof(abar: Point, bbar: Point, d: Point, ehat: Scalar, r1hat: Scalar, r3hat: Scalar,
                         commitments: seq<Scalar>, challenge: Scalar)

  const PROOF_FLOOR: nat := 3 * POINT_LENGTH + 4 * SCALAR_LENGTH

  function ProofPoints(p: Proof): seq<Point> { [p.abar, p.bbar, p.d] }

  function ProofScalars(p: Proof): (r: seq<Scalar>)
    ensures |r| == |p.commitments| + 4
  {
    [p.ehat, p.r1hat, p.r3hat] + p.commitments + [p.challenge]
  }

  function ProofOctets(c: Curve, p: Proof): Octets {
    SerOctets(c, [G1(p.abar), G1(p.bbar), G1(p.d), Scl(p.ehat), Scl(p.r1hat), Scl(p.r3hat)]
                 + ScalarItems(p.commitments) + [Scl(p.challenge)])
  }

  function ProofOf(points: seq<Point>, scalars: seq<Scalar>): Proof
    requires |points| == 3 && |scalars| >= 4
  {
    var n := |scalars|;
    Proof(points[0], points[1], points[2], scalars[0], scalars[1], scalars[2], scalars[3..n - 1], scalars[n - 1])
  }

  function ProofFromOctets(c: Curve, o: Octets): Result<Proof> {
    if |o| < PROOF_FLOOR || (|o| - PROOF_FLOOR) % SCALAR_LENGTH != 0 then Err(InvalidLength)
    else
      var n := (|o| - 3 * POINT_LENGTH) / SCALAR_LENGTH;
      var points :- PointsAt(c, o, 0, 3);
      var scalars :- ScalarsAt(c, o, 3 * POINT_LENGTH, n, false);
      Ok(ProofOf(points, scalars))
  }

  /** `Proof::from_octets`: three points, then every remaining scalar. */
  method ParseProof(c: Curve, o: Octets) returns (r: Result<Proof>)
    requires c.Laws()
    ensures r == ProofFromOctets(c, o)
  {
    hide PointsAt, ScalarsAt;
    if |o| < PROOF_FLOOR || (|o| - PROOF_FLOOR) % SCALAR_LENGTH != 0 {
      return Err(InvalidLength);
    }
    var points, off := ReadPoints(c, o, 0, 3);
    if points.Err? {
      return Err(points.error);
    }
    var n := (|o| - 3 * POINT_LENGTH) / SCALAR_LENGTH;
    var scalars, end := ReadScalars(c, o, off, n, false);
    if scalars.Err? {
      return Err(scalars.error);
    }
    r := Ok(ProofOf(points.value, scalars.value));
  }

  predicate GoodProof(c: Curve, p: Proof) {
    p.abar != c.identity && p.bbar != c.identity && p.d != c.identity
  }

  lemma ProofOctetsLayout(c: Curve, p: Proof)
    requires c.Laws()
    ensures ProofOctets(c, p) == PointsOctets(c, ProofPoints(p)) + ScalarsOctets(c, ProofScalars(p))
    ensures |ProofOctets(c, p)| == PROOF_FLOOR + SCALAR_LENGTH * |p.commitments|
  {
    hide SerOctets, ScalarsOctets, PointsOctets;
    SerConcat(c, PointItems(ProofPoints(p)), ScalarItems(ProofScalars(p)));
    SerPoints(c, ProofPoints(p));
    SerScalars(c, ProofScalars(p));
    assert [G1(p.abar), G1(p.bbar), G1(p.d), Scl(p.ehat), Scl(p.r1hat), Scl(p.r3hat)]
           + ScalarItems(p.commitments) + [Scl(p.challenge)]
           == PointItems(ProofPoints(p)) + ScalarItems(ProofScalars(p));
    PointsOctetsLength(c, ProofPoints(p));
    ScalarsOctetsLength(c, ProofScalars(p));
  }

  /** A proof is read back exactly from its own octets, and only when none of its points is the
      identity: the codec is a bijection between those proofs and the octet strings it accepts. */
  lemma ProofFromOctetsIff(c: Curve, o: Octets, p: Proof)
    requires c.Laws()
    ensures ProofFromOctets(c, o) == Ok(p) <==> GoodProof(c, p) && o == ProofOctets(c, p)
  {
    if GoodProof(c, p) && o == ProofOctets(c, p) {
      ProofReads(c, p);
    }
    if ProofFromOctets(c, o) == Ok(p) {
      ProofAccepts(c, o);
    }
  }

  /** A run of points followed by a run of scalars. */
  lemma RunsRead(c: Curve, o: Octets, ps: seq<Point>, ss: seq<Scalar>)
    requires c.Laws()
    requires NoIdentity(c, ps)
    requires o == PointsOctets(c, ps) + ScalarsOctets(c, ss)
    ensures |o| == POINT_LENGTH * |ps| + SCALAR_LENGTH * |ss|
    ensures PointsAt(c, o, 0, |ps|) == Ok(ps)
    ensures ScalarsAt(c, o, POINT_LENGTH * |ps|, |ss|, false) == Ok(ss)
  {
    hide ScalarsOctets, PointsOctets, PointsAt, ScalarsAt;
    PointsOctetsLength(c, ps);
    ScalarsOctetsLength(c, ss);
    var mid := POINT_LENGTH * |ps|;
    assert o[0..|o|] == o;
    CutIff(o, 0, mid, |o|, PointsOctets(c, ps), ScalarsOctets(c, ss));
    PointsAtReads(c, o, 0, ps);
    ScalarsAtReads(c, o, mid, ss, false);
  }

  lemma RunsAccept(c: Curve, o: Octets, j: nat, n: nat)
    requires c.Laws()
    requires |o| == POINT_LENGTH * j + SCALAR_LENGTH * n
    requires PointsAt(c, o, 0, j).Ok? && ScalarsAt(c, o, POINT_LENGTH * j, n, false).Ok?
    ensures NoIdentity(c, PointsAt(c, o, 0, j).value)
    ensures o == PointsOctets(c, PointsAt(c, o, 0, j).value)
                 + ScalarsOctets(c, ScalarsAt(c, o, POINT_LENGTH * j, n, false).value)
  {
    hide ScalarsOctets, PointsOctets, PointsAt, ScalarsAt;
    var mid := POINT_LENGTH * j;
    PointsAtAccepts(c, o, 0, j);
    ScalarsAtAccepts(c, o, mid, n, false);
    assert o == o[0..mid] + o[mid..mid + SCALAR_LENGTH * n];
  }

  lemma ProofReads(c: Curve, p: Proof)
    requires c.Laws()
    requires GoodProof(c, p)
    ensures ProofFromOctets(c, ProofOctets(c, p)) == Ok(p)
  {
    hide SerOctets, ScalarsOctets, PointsOctets, PointsAt, ScalarsAt;
    var o, ps, ss := ProofOctets(c, p), ProofPoints(p), ProofScalars(p);
    ProofOctetsLayout(c, p);
    RunsRead(c, o, ps, ss);
    ProofPartsRejoin(p);
    CountScalars(|o|, |p.commitments|);
  }

  lemma CountScalars(len: nat, m: nat)
    requires len == PROOF_FLOOR + SCALAR_LENGTH * m
    ensures (len - PROOF_FLOOR) % SCALAR_LENGTH == 0
    ensures (len - PROOF_FLOOR) / SCALAR_LENGTH == m
    ensures (len - 3 * POINT_LENGTH) / SCALAR_LENGTH == m + 4
  {
  }

  lemma ProofPartsRejoin(p: Proof)
    ensures ProofOf(ProofPoints(p), ProofScalars(p)) == p
  {
    assert ProofScalars(p)[3..|ProofScalars(p)| - 1] == p.commitments;
  }

  lemma ProofPartsSplit(ps: seq<Point>, ss: seq<Scalar>)
    requires |ps| == 3 && |ss| >= 4
    ensures ProofPoints(ProofOf(ps, ss)) == ps && ProofScalars(ProofOf(ps, ss)) == ss
  {
  }

  lemma ProofAccepts(c: Curve, o: Octets)
    requires c.Laws()
    requires ProofFromOctets(c, o).Ok?
    ensures GoodProof(c, ProofFromOctets(c, o).value) && o == ProofOctets(c, ProofFromOctets(c, o).value)
  {
    hide SerOctets, ScalarsOctets, PointsOctets, PointsAt, ScalarsAt;
    var n := (|o| - 3 * POINT_LENGTH) / SCALAR_LENGTH;
    var ps, ss := PointsAt(c, o, 0, 3).value, ScalarsAt(c, o, 3 * POINT_LENGTH, n, false).value;
    RunsAccept(c, o, 3, n);
    ProofPartsSplit(ps, ss);
    assert ps[0] != c.identity && ps[1] != c.identity && ps[2] != c.identity;
    ProofOctetsLayout(c, ProofOf(ps, ss));
  }

  // ---- Domain ----

  function DomainOctets(s: Suite, pk: Octets, q1: Point, hs: seq<Point>, header: Octets): Octets {
    pk + SerOctets(s.curve, [U64(|hs|), G1(q1)] + PointItems(hs)) + s.apiId + I2osp(|header|, 8) + header
  }

  function CalculateDomain(s: Suite, pk: Octets, q1: Point, hs: seq<Point>, header: Octets): Result<Scalar> {
    HashToScalar(s, DomainOctets(s, pk, q1, hs, header), H2S)
  }

  /** `B = P1 + Q_1 * domain + sum(H_i * msg_i)` */
  function ComputeB(s: Suite, q1: Point, hs: seq<Point>, messages: seq<Scalar>, domain: Scalar): Point
    requires |hs| == |messages|
  {
    var c := s.curve;
    c.Add(c.Add(s.p1, c.Mul(q1, domain)), c.SumProd(hs, messages))
  }

  // ---- Core signature operations ----

  function CoreSign(s: Suite, sk: Scalar, pk: Octets, generators: seq<Point>, header: Octets, messages: seq<Scalar>)
    : Result<Signature>
  {
    var c := s.curve;
    if |generators| != |messages| + 1 then Err(MismatchedLengths)
    else
      var domain :- CalculateDomain(s, pk, generators[0], generators[1..], header);
      var e :- HashToScalar(s, SerOctets(c, [Scl(sk)] + ScalarItems(messages) + [Scl(domain)]), H2S);
      var b := ComputeB(s, generators[0], generators[1..], messages, domain);
      match c.invS(c.SAdd(sk, e))
      case Some(inv) => Ok(Signature(c.Mul(b, inv), e))
      case None => Err(InvalidScalar)
  }

  /** `e(A, W + G2 * e) * e(B, -G2) == 1` for `W = x * G2`. */
  function CoreVerify(s: Suite, pk: Octets, sig: Signature, generators: seq<Point>, header: Octets,
                      messages: seq<Scalar>): Result<()>
  {
    var c := s.curve;
    var x :- c.PublicKeyExponent(pk);
    if |generators| != |messages| + 1 then Err(MismatchedLengths)
    else
      var domain :- CalculateDomain(s, pk, generators[0], generators[1..], header);
      var b := ComputeB(s, generators[0], generators[1..], messages, domain);
      Need(c.Mul(sig.a, c.SAdd(x, sig.e)) == b, VerificationFailed)
  }

  /** The scalar of a base signature is hashed from the key, every message and the domain. */
  lemma SignedScalar(s: Suite, sk: Scalar, pk: Octets, generators: seq<Point>, header: Octets, messages: seq<Scalar>)
    requires CoreSign(s, sk, pk, generators, header, messages).Ok?
    ensures CalculateDomain(s, pk, generators[0], generators[1..], header).Ok?
    ensures var domain := CalculateDomain(s, pk, generators[0], generators[1..], header).value;
            CoreSign(s, sk, pk, generators, header, messages).value.e
            == Hashed(s.curve, s.curve.ScalarOctets(sk) + ScalarsOctets(s.curve, messages) + s.curve.ScalarOctets(domain),
                      s.apiId + Ascii("H2S_"))
  {
    hide DomainOctets, Uniform, ComputeB;
    var c, domain := s.curve, CalculateDomain(s, pk, generators[0], generators[1..], header).value;
    SerConcat(c, [Scl(sk)], ScalarItems(messages));
    SerConcat(c, [Scl(sk)] + ScalarItems(messages), [Scl(domain)]);
    SerOne(c, Scl(sk));
    SerOne(c, Scl(domain));
    SerScalars(c, messages);
  }

  /** Every base signature the signer returns verifies, and the verifier accepts it for no other
      message sum: changing what is added up under the same domain makes it reject. */
  lemma SignThenVerify(s: Suite, sk: Scalar, pk: Octets, generators: seq<Point>, header: Octets,
                       messages: seq<Scalar>, others: seq<Scalar>)
    requires s.Valid()
    requires s.curve.PublicKeyExponent(pk) == Ok(sk)
    requires |others| == |messages|
    requires CoreSign(s, sk, pk, generators, header, messages).Ok?
    ensures var sig := CoreSign(s, sk, pk, generators, header, messages).value;
            CoreVerify(s, pk, sig, generators, header, others).Ok? <==>
            s.curve.SumProd(generators[1..], others) == s.curve.SumProd(generators[1..], messages)
  {
    var c := s.curve;
    var sig := CoreSign(s, sk, pk, generators, header, messages).value;
    var domain := CalculateDomain(s, pk, generators[0], generators[1..], header).value;
    var b := ComputeB(s, generators[0], generators[1..], messages, domain);
    var t := c.SAdd(sk, sig.e);
    assert c.ScalarLaws(t, t, t);
    c.MulInverse(b, t);
    assert c.Mul(sig.a, t) == b;
    var base := c.Add(s.p1, c.Mul(generators[0], domain));
    if ComputeB(s, generators[0], generators[1..], others, domain) == b {
      c.AddCancels(base, c.SumProd(generators[1..], others), c.SumProd(generators[1..], messages));
    }
  }

  // ---- Proof generation ----

  datatype InitResult = InitResult(abar: Point, bbar: Point, d: Point, t1: Point, t2: Point, domain: Scalar)

  function ProofInit(s: Suite, pk: Octets, sig: Signature, generators: seq<Point>, randoms: seq<Scalar>,
                     header: Octets, messages: seq<Scalar>, undisclosed: seq<nat>): (r: Result<InitResult>)
    ensures r.Ok? ==> |generators| == |messages| + 1 && |randoms| == |undisclosed| + 5
  {
    var c := s.curve;
    var l := |messages|;
    if |randoms| != |undisclosed| + 5 then Err(MismatchedLengths)
    else if |generators| != l + 1 then Err(MismatchedLengths)
    else if !Below(undisclosed, l) then Err(IndexOutOfRange)
    else
      var (q1, hs) := (generators[0], generators[1..]);
      var domain :- CalculateDomain(s, pk, q1, hs, header);
      var b := ComputeB(s, q1, hs, messages, domain);
      var d := c.Mul(b, randoms[1]);
      var abar := c.Mul(sig.a, c.SMul(randoms[0], randoms[1]));
      var bbar := c.Sub(c.Mul(d, randoms[0]), c.Mul(abar, sig.e));
      var t1 := c.Add(c.Mul(abar, randoms[2]), c.Mul(d, randoms[3]));
      var t2 := c.Add(c.Mul(d, randoms[4]), c.SumProd(Pick(hs, undisclosed), randoms[5..]));
      Ok(InitResult(abar, bbar, d, t1, t2, domain))
  }

  function ProofFinalize(c: Curve, init: InitResult, challenge: Scalar, e: Scalar, randoms: seq<Scalar>,
                         undisclosed: seq<Scalar>): Result<Proof>
  {
    if |randoms| != |undisclosed| + 5 then Err(MismatchedLengths)
    else match c.invS(randoms[1])
         case None => Err(InvalidScalar)
         case Some(r3) =>
           Ok(Proof(init.abar, init.bbar, init.d,
                    c.SAdd(randoms[2], c.SMul(e, challenge)),
                    c.SSub(randoms[3], c.SMul(randoms[0], challenge)),
                    c.SSub(randoms[4], c.SMul(r3, challenge)),
                    c.Blend(randoms[5..], undisclosed, challenge),
                    challenge))
  }

  /** `Bv = P1 + Q_1 * domain + sum of the disclosed messages` */
  function DisclosedB(s: Suite, q1: Point, hs: seq<Point>, domain: Scalar, disclosed: seq<Scalar>, indexes: seq<nat>): Point
    requires |disclosed| == |indexes| && Below(indexes, |hs|)
  {
    var c := s.curve;
    c.Add(c.Add(s.p1, c.Mul(q1, domain)), c.SumProd(Pick(hs, indexes), disclosed))
  }

  function VerifierT1(c: Curve, p: Proof): Point {
    c.Add(c.Add(c.Mul(p.bbar, p.challenge), c.Mul(p.abar, p.ehat)), c.Mul(p.d, p.r1hat))
  }

  function VerifierT2(c: Curve, p: Proof, bv: Point, hj: seq<Point>): Point
    requires |hj| == |p.commitments|
  {
    c.Add(c.Add(c.Mul(bv, p.challenge), c.Mul(p.d, p.r3hat)), c.SumProd(hj, p.commitments))
  }

  function ProofVerifyInit(s: Suite, pk: Octets, p: Proof, generators: seq<Point>, header: Octets,
                           disclosed: seq<Scalar>, indexes: seq<nat>): (r: Result<InitResult>)
    ensures r.Ok? ==> |Complement(|indexes| + |p.commitments|, indexes)| == |p.commitments|
  {
    var c := s.curve;
    var l := |indexes| + |p.commitments|;
    if |disclosed| != |indexes| then Err(MismatchedLengths)
    else if !Below(indexes, l) then Err(IndexOutOfRange)
    else if |generators| != l + 1 then Err(MismatchedLengths)
    else
      var (q1, hs) := (generators[0], generators[1..]);
      var undisclosed := Complement(l, indexes);
      ComplementIsBelow(l, indexes);
      var domain :- CalculateDomain(s, pk, q1, hs, header);
      // With a repeated index the two lists would not cover the vector, and the sum below fails.
      if |undisclosed| != |p.commitments| then Err(MismatchedLengths)
      else
        var bv := DisclosedB(s, q1, hs, domain, disclosed, indexes);
        Ok(InitResult(p.abar, p.bbar, p.d, VerifierT1(c, p), VerifierT2(c, p, bv, Pick(hs, undisclosed)), domain))
  }

  lemma ComplementIsBelow(l: nat, indexes: seq<nat>)
    ensures Below(Complement(l, indexes), l)
  {
    WhereIs(seq(l, i requires 0 <= i => i !in indexes));
  }

  // ---- The algebra of one proof ----

  lemma T1Rearranged(c: Curve, x: Point, y: Point, u: Point, v: Point)
    requires c.Laws()
    ensures c.Add(c.Add(c.Sub(x, y), c.Add(u, y)), c.Sub(v, x)) == c.Add(u, v)
  {
    c.AddAC();
  }

  lemma T2Rearranged(c: Curve, b: Point, u: Point, k: Point, kr: Point, x: Point, y: Point)
    requires c.Laws()
    ensures c.Add(c.Add(c.Add(b, c.Sub(x, c.Add(c.Add(b, u), k))), c.Add(y, c.Sub(u, kr))), c.Add(k, kr)) == c.Add(x, y)
  {
    c.AddAC();
  }

  /** The verifier's `T1` is the prover's, for any `D` and the `Bbar` built from it. */
  lemma T1Agrees(c: Curve, p: Proof, e: Scalar, r1: Scalar, etil: Scalar, r1til: Scalar)
    requires c.Laws()
    requires p.bbar == c.Sub(c.Mul(p.d, r1), c.Mul(p.abar, e))
    requires p.ehat == c.SAdd(etil, c.SMul(e, p.challenge))
    requires p.r1hat == c.SSub(r1til, c.SMul(r1, p.challenge))
    ensures VerifierT1(c, p) == c.Add(c.Mul(p.abar, etil), c.Mul(p.d, r1til))
  {
    var cp := p.challenge;
    c.AddMul(c.Mul(p.d, r1), c.Mul(p.abar, e), cp);
    c.MulMul(p.d, r1, cp);
    c.MulMul(p.abar, e, cp);
    c.MulAdd(p.abar, etil, c.SMul(e, cp));
    c.MulAdd(p.d, r1til, c.SMul(r1, cp));
    T1Rearranged(c, c.Mul(p.d, c.SMul(r1, cp)), c.Mul(p.abar, c.SMul(e, cp)), c.Mul(p.abar, etil), c.Mul(p.d, r1til));
  }

  /** The verifier's `T2`, with the key correction, is the prover's. `known` is the sum of the
      hidden messages, `keys` the sum of the device keys and `shift` the sum their randomizers add. */
  lemma T2Agrees(c: Curve, p: Proof, bv: Point, hj: seq<Point>, mtil: seq<Scalar>, hidden: seq<Scalar>,
                 known: Point, keys: Point, shift: Point, r2: Scalar, r3: Scalar, r3til: Scalar)
    requires c.Laws()
    requires |hj| == |mtil| == |hidden|
    requires p.commitments == c.Blend(mtil, hidden, p.challenge)
    requires c.SumProd(hj, hidden) == c.Sub(known, shift)
    requires p.d == c.Mul(c.Add(c.Add(bv, known), keys), r2)
    requires c.invS(r2) == Some(r3)
    requires p.r3hat == c.SSub(r3til, c.SMul(r3, p.challenge))
    ensures c.Add(VerifierT2(c, p, bv, hj), c.Mul(c.Add(keys, shift), p.challenge))
         == c.Add(c.Mul(p.d, r3til), c.SumProd(hj, mtil))
  {
    var cp, b := p.challenge, c.Add(c.Add(bv, known), keys);
    assert c.ScalarLaws(r2, r2, r2);
    assert c.Mul(p.d, c.SMul(r3, cp)) == c.Mul(b, cp) by {
      c.MulInverse(b, r2);
      c.MulMul(p.d, r3, cp);
    }
    c.MulAdd(p.d, r3til, c.SMul(r3, cp));
    c.AddMul(c.Add(bv, known), keys, cp);
    c.AddMul(bv, known, cp);
    c.SumProdOfBlend(hj, mtil, hidden, cp);
    c.AddMul(known, shift, cp);
    c.AddMul(keys, shift, cp);
    T2Rearranged(c, c.Mul(bv, cp), c.Mul(known, cp), c.Mul(keys, cp), c.Mul(shift, cp), c.Mul(p.d, r3til), c.SumProd(hj, mtil));
  }
}
