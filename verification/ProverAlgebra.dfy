/** The points an honest prover publishes, in terms of the signed point. */
module ProverAlgebra {
  import opened Wrappers
  import opened Octets
  import opened Curves
  import opened Suites
  import opened Indexes
  import opened Bbs
  import opened Issuance
  import opened Presentation
  import opened Layout

  /** Key slots carry the message zero, so they add nothing. */
  lemma KeySlotsAddNothing(s: Suite, q1: Point, hs: seq<Point>, messages: seq<Scalar>, k: nat, domain: Scalar)
    requires s.curve.Laws()
    requires |hs| == |messages| + k
    ensures ComputeB(s, q1, hs, messages + Repeat(s.curve.zero, k), domain) == ComputeB(s, q1, hs[..|messages|], messages, domain)
  {
    hide s.curve.SumProd;
    var c, l := s.curve, |messages|;
    assert hs == hs[..l] + hs[l..];
    c.SumProdConcat(hs[..l], messages, hs[l..], Repeat(c.zero, k));
    c.SumProdOfZeros(hs[l..], Repeat(c.zero, k));
    var x := c.SumProd(hs[..l], messages);
    assert c.PointLaws(x, x, x, c.zero, c.zero);
  }

  lemma ScaleJoins(c: Curve, b: Point, keys: Point, r2: Scalar, t: Scalar)
    requires c.Laws()
    ensures c.Add(c.Mul(c.Mul(b, r2), t), c.Mul(c.Mul(keys, r2), t)) == c.Mul(c.Mul(c.Add(b, keys), r2), t)
  {
    c.AddMul(b, keys, r2);
    c.AddMul(c.Mul(b, r2), c.Mul(keys, r2), t);
  }

  lemma MoveLast(c: Curve, x: Point, y: Point, z: Point)
    requires c.Laws()
    ensures c.Add(c.Sub(x, y), z) == c.Sub(c.Add(x, z), y)
    ensures c.Add(c.Add(x, y), z) == c.Add(x, c.Add(y, z))
    ensures c.Add(c.Add(x, y), z) == c.Add(c.Add(x, z), y)
  {
    c.AddAC();
  }

  /** With the key part added, every published point is the base formula over `B + sum of keys`. */
  lemma WithKeysForm(c: Curve, init: InitResult, b: Point, keys: Point, e: Scalar, randoms: seq<Scalar>, blinding: Point)
    requires c.Laws()
    requires |randoms| >= 5
    requires init.d == c.Mul(b, randoms[1])
    requires init.bbar == c.Sub(c.Mul(init.d, randoms[0]), c.Mul(init.abar, e))
    requires init.t1 == c.Add(c.Mul(init.abar, randoms[2]), c.Mul(init.d, randoms[3]))
    requires init.t2 == c.Add(c.Mul(init.d, randoms[4]), blinding)
    ensures var r := WithKeys(c, init, c.Mul(keys, randoms[1]), randoms);
            && r.abar == init.abar && r.domain == init.domain
            && r.d == c.Mul(c.Add(b, keys), randoms[1])
            && r.bbar == c.Sub(c.Mul(r.d, randoms[0]), c.Mul(r.abar, e))
            && r.t1 == c.Add(c.Mul(r.abar, randoms[2]), c.Mul(r.d, randoms[3]))
            && r.t2 == c.Add(c.Mul(r.d, randoms[4]), blinding)
  {
    var dAdd := c.Mul(keys, randoms[1]);
    c.AddMul(b, keys, randoms[1]);
    ScaleJoins(c, b, keys, randoms[1], randoms[0]);
    ScaleJoins(c, b, keys, randoms[1], randoms[3]);
    ScaleJoins(c, b, keys, randoms[1], randoms[4]);
    MoveLast(c, c.Mul(init.d, randoms[0]), c.Mul(init.abar, e), c.Mul(dAdd, randoms[0]));
    MoveLast(c, c.Mul(init.abar, randoms[2]), c.Mul(init.d, randoms[3]), c.Mul(dAdd, randoms[3]));
    MoveLast(c, c.Mul(init.d, randoms[4]), blinding, c.Mul(dAdd, randoms[4]));
  }

  /** Everything the rest of the argument needs to know about a run of the prover. */
  ghost predicate RunFacts(s: Suite, gens: seq<Point>, messages: seq<Scalar>, disclosedIndexes: seq<nat>,
                           commitIndexes: seq<nat>, keys: seq<Point>, domain: Scalar, y: (Point, Point), v: ProverRun)
  {
    var c, l, k := s.curve, |messages|, |keys|;
    && |gens| == l + 1 + k && |v.randoms| == 5 + |v.ji| + k && |v.rKey| == k
    && Increasing(disclosedIndexes) && Below(disclosedIndexes, l)
    && Increasing(commitIndexes) && Below(commitIndexes, l) && Disjoint(commitIndexes, disclosedIndexes)
    && v.ji == Complement(l, disclosedIndexes) && Below(v.ji, l)
    && v.mTilde == v.randoms[5..5 + |v.ji|]
    && v.randomized == c.Randomized(keys, gens[l + 1..], v.rKey)
    && |v.blinds| == |v.sTilde| == |commitIndexes|
    && v.commitments == Commitments(c, y, v.blinds, Pick(messages, commitIndexes))
    && Positions(v.ji, commitIndexes).Ok?
    && v.proofs == Commitments(c, y, v.sTilde, Pick(v.mTilde, Positions(v.ji, commitIndexes).value))
    && v.sHat == c.BlendLeft(v.sTilde, v.blinds, v.challenge)
    && v.init.domain == domain
    && v.init.abar == c.Mul(v.sig.a, c.SMul(v.randoms[0], v.randoms[1]))
    && v.init.d == c.Mul(SignedPoint(s, gens[0], gens[1..l + 1], messages, domain, keys), v.randoms[1])
    && v.init.bbar == c.Sub(c.Mul(v.init.d, v.randoms[0]), c.Mul(v.init.abar, v.sig.e))
    && v.init.t1 == c.Add(c.Mul(v.init.abar, v.randoms[2]), c.Mul(v.init.d, v.randoms[3]))
    && v.init.t2 == c.Add(c.Mul(v.init.d, v.randoms[4]), c.SumProd(Pick(gens[1..], v.ji + Range(l, k)), v.randoms[5..]))
    && ProofFinalize(c, v.init, v.challenge, v.sig.e, v.randoms, Pick(messages, v.ji) + c.Negated(v.rKey)) == Ok(v.proof)
  }

  lemma PickIsBelow(l: nat, k: nat, ji: seq<nat>)
    requires Below(ji, l)
    ensures Below(ji + Range(l, k), l + k)
  {
  }

  lemma ProofInitForm(s: Suite, pk: Octets, sig: Signature, gens: seq<Point>, randoms: seq<Scalar>, header: Octets,
                      messages: seq<Scalar>, k: nat, undisclosed: seq<nat>)
    requires s.Valid()
    requires ProofInit(s, pk, sig, gens, randoms, header, messages + Repeat(s.curve.zero, k), undisclosed).Ok?
    ensures var c, l := s.curve, |messages|;
            var init0 := ProofInit(s, pk, sig, gens, randoms, header, messages + Repeat(c.zero, k), undisclosed).value;
            && |gens| == l + k + 1 && |randoms| == |undisclosed| + 5 && Below(undisclosed, l + k)
            && CalculateDomain(s, pk, gens[0], gens[1..], header) == Ok(init0.domain)
            && init0.abar == c.Mul(sig.a, c.SMul(randoms[0], randoms[1]))
            && init0.d == c.Mul(ComputeB(s, gens[0], gens[1..l + 1], messages, init0.domain), randoms[1])
            && init0.bbar == c.Sub(c.Mul(init0.d, randoms[0]), c.Mul(init0.abar, sig.e))
            && init0.t1 == c.Add(c.Mul(init0.abar, randoms[2]), c.Mul(init0.d, randoms[3]))
            && init0.t2 == c.Add(c.Mul(init0.d, randoms[4]), c.SumProd(Pick(gens[1..], undisclosed), randoms[5..]))
  {
    hide s.curve.SumProd, DomainOctets, HashToScalar;
    var l := |messages|;
    var init0 := ProofInit(s, pk, sig, gens, randoms, header, messages + Repeat(s.curve.zero, k), undisclosed).value;
    assert gens[1..][..l] == gens[1..l + 1];
    KeySlotsAddNothing(s, gens[0], gens[1..], messages, k, init0.domain);
  }

  lemma RunHasFacts(s: Suite, pk: Octets, signature: Octets, gens: seq<Point>, header: Octets, ph: Octets,
                    messages: seq<Scalar>, disclosedIndexes: seq<nat>, commitIndexes: seq<nat>,
                    keys: seq<Point>, first: Stream, second: Stream, v: ProverRun)
    requires s.Valid()
    requires RunProver(s, pk, signature, gens, header, ph, messages, disclosedIndexes, commitIndexes, keys, first, second) == Ok(v)
    ensures CalculateDomain(s, pk, gens[0], gens[1..], header) == Ok(v.init.domain)
    ensures ComDisGens(s).Ok?
    ensures SignatureFromOctets(s.curve, signature) == Ok(v.sig)
    ensures RunFacts(s, gens, messages, disclosedIndexes, commitIndexes, keys, v.init.domain, ComDisGens(s).value, v)
    ensures ProofChallenge(s, ChallengeInput(v.init, v.commitments, v.proofs, commitIndexes, v.randomized,
                                             Pick(messages, disclosedIndexes), disclosedIndexes, ph)) == Ok(v.challenge)
    ensures var u := |Complement(|messages|, disclosedIndexes)|;
            && v.randoms == Draw(first, 5 + u + 2 * |keys|)[..5 + u + |keys|]
            && v.rKey == Draw(first, 5 + u + 2 * |keys|)[5 + u + |keys|..]
            && v.blinds == Draw(second, 2 * |commitIndexes|)[..|commitIndexes|]
            && v.sTilde == Draw(second, 2 * |commitIndexes|)[|commitIndexes|..]
  {
    hide ProofInit, ProofFinalize, Positions, ProofChallenge, SignatureFromOctets, DomainOctets, HashToScalar, Where,
         WithKeys, s.curve.SumProd, s.curve.SumPoints, ComputeB, ComDisGens, CheckIndexes, s.curve.Randomized, Commitments,
         s.curve.BlendLeft, Complement, Draw;
    var c, l, k := s.curve, |messages|, |keys|;
    CheckIndexesIff(commitIndexes, l);
    CheckIndexesIff(disclosedIndexes, l);
    ComplementIsBelow(l, disclosedIndexes);
    var ji := Complement(l, disclosedIndexes);
    var init0 := ProofInit(s, pk, v.sig, gens, v.randoms, header, messages + Repeat(c.zero, k), ji + Range(l, k)).value;
    ProofInitForm(s, pk, v.sig, gens, v.randoms, header, messages, k, ji + Range(l, k));
    WithKeysForm(c, init0, ComputeB(s, gens[0], gens[1..l + 1], messages, init0.domain), c.SumPoints(keys), v.sig.e,
                 v.randoms, c.SumProd(Pick(gens[1..], ji + Range(l, k)), v.randoms[5..]));
  }

  // ---- What the verifier recomputes ----

  lemma HiddenSum(c: Curve, hs: seq<Point>, messages: seq<Scalar>, k: nat, ji: seq<nat>, rKey: seq<Scalar>)
    requires c.Laws()
    requires |hs| == |messages| + k && |rKey| == k && Below(ji, |messages|)
    ensures Below(ji + Range(|messages|, k), |hs|) && Below(ji, |hs|)
    ensures c.SumProd(Pick(hs, ji + Range(|messages|, k)), Pick(messages, ji) + c.Negated(rKey))
         == c.Sub(c.SumProd(Pick(hs, ji), Pick(messages, ji)), c.SumProd(hs[|messages|..], rKey))
  {
    hide c.SumProd;
    var l := |messages|;
    PickIsBelow(l, k, ji);
    PickConcat(hs, ji, Range(l, k));
    assert Pick(hs, Range(l, k)) == hs[l..];
    c.SumProdConcat(Pick(hs, ji), Pick(messages, ji), hs[l..], c.Negated(rKey));
    c.SumProdOfNegated(hs[l..], rKey);
  }

  /** The signed point, split into what the verifier knows, what is hidden, and the keys. */
  lemma SignedPointSplits(s: Suite, q1: Point, hs: seq<Point>, messages: seq<Scalar>, shown: seq<nat>, domain: Scalar,
                          keys: seq<Point>)
    requires s.curve.Laws()
    requires |hs| >= |messages|
    requires Increasing(shown) && Below(shown, |messages|)
    ensures Below(Complement(|messages|, shown), |messages|) && Below(shown, |hs|)
    ensures var c, ji := s.curve, Complement(|messages|, shown);
            SignedPoint(s, q1, hs[..|messages|], messages, domain, keys)
            == c.Add(c.Add(DisclosedB(s, q1, hs, domain, Pick(messages, shown), shown),
                           c.SumProd(Pick(hs, ji), Pick(messages, ji))), c.SumPoints(keys))
  {
    hide s.curve.SumProd, Where;
    var c, l := s.curve, |messages|;
    var mask := seq(l, i requires 0 <= i => i in shown);
    IncreasingIsWhere(shown, l);
    ComplementOfWhere(mask);
    ComplementIsBelow(l, shown);
    SumSplits(c, hs[..l], messages, mask);
    var ji := Complement(l, shown);
    PickPrefix(hs, l, ji);
    PickPrefix(hs, l, shown);
    MoveLast(c, c.Add(s.p1, c.Mul(q1, domain)), c.SumProd(Pick(hs, shown), Pick(messages, shown)),
             c.SumProd(Pick(hs, ji), Pick(messages, ji)));
  }

  lemma HiddenLengths(messages: seq<Scalar>, shown: seq<nat>, k: nat)
    requires Increasing(shown) && Below(shown, |messages|)
    ensures var l := |messages|;
            && Complement(l + k, shown) == Complement(l, shown) + Range(l, k)
            && |Complement(l, shown)| + |shown| == l
  {
    HiddenSlotsWithKeys(|messages|, k, shown);
  }

  lemma ScalarCommutes(c: Curve, a: Scalar, b: Scalar)
    requires c.Laws()
    ensures c.SMul(a, b) == c.SMul(b, a)
  {
    assert c.ScalarLaws(a, b, b);
  }

  lemma PedersenRearranged(c: Curve, a: Point, b: Point, x: Point, y: Point)
    requires c.Laws()
    ensures c.Sub(c.Add(c.Add(a, b), c.Add(x, y)), c.Add(b, y)) == c.Add(a, x)
  {
    c.NegOfSum(b, y);
    c.AddAC();
  }

  /** One commitment proof: the verifier's value is the prover's. */
  lemma PedersenAgrees(c: Curve, y: (Point, Point), blind: Scalar, m: Scalar, st: Scalar, mt: Scalar, cp: Scalar)
    requires c.Laws()
    ensures c.Sub(Pedersen(c, y, c.SAdd(st, c.SMul(cp, blind)), c.SAdd(mt, c.SMul(m, cp))), c.Mul(Pedersen(c, y, blind, m), cp))
         == Pedersen(c, y, st, mt)
  {
    ScalarCommutes(c, cp, blind);
    c.MulAdd(y.0, st, c.SMul(blind, cp));
    c.MulAdd(y.1, mt, c.SMul(m, cp));
    c.AddMul(c.Mul(y.0, blind), c.Mul(y.1, m), cp);
    c.MulMul(y.0, blind, cp);
    c.MulMul(y.1, m, cp);
    PedersenRearranged(c, c.Mul(y.0, st), c.Mul(y.0, c.SMul(blind, cp)), c.Mul(y.1, mt), c.Mul(y.1, c.SMul(m, cp)));
  }

  lemma RecomputedAreProofs(c: Curve, y: (Point, Point), blinds: seq<Scalar>, values: seq<Scalar>, sTilde: seq<Scalar>,
                            mTilde: seq<Scalar>, cp: Scalar)
    requires c.Laws()
    requires |blinds| == |values| == |sTilde| == |mTilde|
    ensures RecomputedProofs(c, y, c.BlendLeft(sTilde, blinds, cp), c.Blend(mTilde, values, cp),
                             Commitments(c, y, blinds, values), cp)
         == Commitments(c, y, sTilde, mTilde)
  {
    hide Pedersen;
    forall i | 0 <= i < |blinds|
      ensures RecomputedProofs(c, y, c.BlendLeft(sTilde, blinds, cp), c.Blend(mTilde, values, cp),
                               Commitments(c, y, blinds, values), cp)[i] == Commitments(c, y, sTilde, mTilde)[i]
    {
      PedersenAgrees(c, y, blinds[i], values[i], sTilde[i], mTilde[i], cp);
    }
  }

  /** The responses at the committed positions answer for the committed messages. */
  lemma ResponsesAtPositions(c: Curve, ji: seq<nat>, at: seq<nat>, committed: seq<nat>, messages: seq<Scalar>,
                             blinding: seq<Scalar>, mTilde: seq<Scalar>, extra: seq<Scalar>, cp: Scalar)
    requires Below(ji, |messages|) && Below(committed, |messages|) && |at| == |committed| && Below(at, |ji|)
    requires forall i :: 0 <= i < |at| ==> ji[at[i]] == committed[i]
    requires |blinding| == |ji| + |extra| && mTilde == blinding[..|ji|]
    ensures Pick(c.Blend(blinding, Pick(messages, ji) + extra, cp), at) == c.Blend(Pick(mTilde, at), Pick(messages, committed), cp)
  {
  }

  lemma ProofsAgree(s: Suite, gens: seq<Point>, messages: seq<Scalar>, shown: seq<nat>, committed: seq<nat>,
                    keys: seq<Point>, domain: Scalar, y: (Point, Point), v: ProverRun)
    requires s.Valid()
    requires RunFacts(s, gens, messages, shown, committed, keys, domain, y, v)
    ensures var verifierJi := Complement(|messages| + |keys|, shown);
            && Positions(verifierJi, committed).Ok?
            && |v.proof.commitments| == |v.ji| + |keys|
            && Below(Positions(verifierJi, committed).value, |v.proof.commitments|)
            && RecomputedProofs(s.curve, y, v.sHat, Pick(v.proof.commitments, Positions(verifierJi, committed).value),
                                v.commitments, v.challenge) == v.proofs
  {
    hide s.curve.SumProd, Where, SignedPoint, Positions;
    var c, l, k := s.curve, |messages|, |keys|;
    HiddenLengths(messages, shown, k);
    PositionsWithKeys(v.ji, Range(l, k), committed);
    var at := Positions(v.ji, committed).value;
    assert v.mTilde == v.randoms[5..][..|v.ji|];
    ResponsesAtPositions(c, v.ji, at, committed, messages, v.randoms[5..], v.mTilde, c.Negated(v.rKey), v.challenge);
    RecomputedAreProofs(c, y, v.blinds, Pick(messages, committed), v.sTilde, Pick(v.mTilde, at), v.challenge);
  }

  /** `vj` is the verifier's list of hidden slots. */
  lemma VerifierPointsAgree(s: Suite, gens: seq<Point>, messages: seq<Scalar>, shown: seq<nat>, committed: seq<nat>,
                            keys: seq<Point>, domain: Scalar, y: (Point, Point), v: ProverRun, hs: seq<Point>, vj: seq<nat>)
    requires s.Valid()
    requires |gens| == |messages| + 1 + |keys| && hs == gens[1..]
    requires Below(shown, |messages|)
    requires vj == Complement(|messages| + |keys|, shown) && Below(vj, |hs|) && |vj| == |v.proof.commitments|
    requires RunFacts(s, gens, messages, shown, committed, keys, domain, y, v)
    ensures VerifierT1(s.curve, v.proof) == v.init.t1
    ensures s.curve.Add(VerifierT2(s.curve, v.proof, DisclosedB(s, gens[0], hs, domain, Pick(messages, shown), shown), Pick(hs, vj)),
                        s.curve.Mul(s.curve.SumPoints(v.randomized), v.challenge)) == v.init.t2
  {
    hide s.curve.SumProd, s.curve.SumPoints, Where, VerifierT1, VerifierT2, SignedPoint, DisclosedB, Complement, Positions,
         Commitments;
    var c, l, k := s.curve, |messages|, |keys|;
    var p, cp := v.proof, v.challenge;
    HiddenLengths(messages, shown, k);
    T1Agrees(c, p, v.sig.e, v.randoms[0], v.randoms[2], v.randoms[3]);
    HiddenSum(c, hs, messages, k, v.ji, v.rKey);
    SignedPointSplits(s, gens[0], hs, messages, shown, domain, keys);
    assert hs[..l] == gens[1..l + 1];
    assert hs[l..] == gens[l + 1..];
    c.SumPointsOfRandomized(keys, hs[l..], v.rKey);
    T2Agrees(c, p, DisclosedB(s, gens[0], hs, domain, Pick(messages, shown), shown), Pick(hs, vj),
             v.randoms[5..], Pick(messages, v.ji) + c.Negated(v.rKey), c.SumProd(Pick(hs, v.ji), Pick(messages, v.ji)),
             c.SumPoints(keys), c.SumProd(hs[l..], v.rKey), v.randoms[1], c.invS(v.randoms[1]).value, v.randoms[4]);
  }

  /** If the signature holds on the signed point, the published points satisfy the pairing equation,
      and they are the identity only if a factor is trivial. */
  lemma PairingAgrees(c: Curve, init: InitResult, sig: Signature, x: Scalar, b: Point, r1: Scalar, r2: Scalar)
    requires c.Laws()
    requires r2 != c.zero && x != c.zero && sig.a != c.identity
    requires c.Mul(sig.a, c.SAdd(x, sig.e)) == b
    requires init.abar == c.Mul(sig.a, c.SMul(r1, r2))
    requires init.d == c.Mul(b, r2)
    requires init.bbar == c.Sub(c.Mul(init.d, r1), c.Mul(init.abar, sig.e))
    ensures c.Mul(init.abar, x) == init.bbar
    ensures init.d != c.identity <==> b != c.identity
    ensures init.abar != c.identity && init.bbar != c.identity <==> r1 != c.zero
  {
    var a, rr, e := sig.a, c.SMul(r1, r2), sig.e;
    ScalarCommutes(c, r1, r2);
    c.MulMul(b, r2, r1);
    c.MulMul(a, c.SAdd(x, e), rr);
    assert c.Mul(init.d, r1) == c.Mul(c.Mul(a, rr), c.SAdd(x, e));
    c.MulAdd(init.abar, x, e);
    assert init.bbar == c.Sub(c.Add(c.Mul(init.abar, x), c.Mul(init.abar, e)), c.Mul(init.abar, e));
    c.SubAfterAdd(c.Mul(init.abar, x), c.Mul(init.abar, e));
    c.MulInverse(b, r2);
    c.MulZero(b, r2);
    if r1 != c.zero {
      c.SMulNonZero(r1, r2);
      c.MulInverse(a, rr);
      c.MulInverse(init.abar, x);
    } else {
      c.SMulZero(r2);
      c.MulZero(a, r2);
    }
  }
}
