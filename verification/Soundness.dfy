/** Special soundness of the presentation proof: what two accepting answers to different challenges
    give away. */
module Soundness {
  import opened Wrappers
  import opened Octets
  import opened Curves
  import opened Suites
  import opened Indexes
  import opened Bbs
  import opened ProofWire
  import opened Issuance
  import opened Presentation
  import opened Layout
  import opened ProverAlgebra
  import opened Acceptance
  import IssuanceTheorems

  // ---- One equation at a time ----

  lemma SumProdTwo(c: Curve, p: Point, q: Point, a: Scalar, b: Scalar)
    requires c.Laws()
    ensures c.SumProd([p, q], [a, b]) == c.Add(c.Mul(p, a), c.Mul(q, b))
  {
    c.SumProdConcat([p], [a], [q], [b]);
    assert [p] + [q] == [p, q] && [a] + [b] == [a, b];
    c.SumProdOne(p, a);
    c.SumProdOne(q, b);
  }

  lemma NegMoves(c: Curve, b: Point, x: Point, y: Point, cp: Scalar)
    requires c.Laws()
    ensures c.Add(c.Add(c.Mul(b, cp), x), y) == c.Sub(c.Add(x, y), c.Mul(c.Neg(b), cp))
  {
    c.MulNeg(b, cp);
    c.NegOfSum(c.Mul(b, cp), x);
    c.AddAC();
  }

  /** `(a - b) / (c1 - c2)`: what two answers to different challenges were made for. */
  function Quotient(c: Curve, a: Scalar, b: Scalar, c1: Scalar, c2: Scalar): Scalar {
    c.SMul(c.SSub(a, b), c.PerDifference(c1, c2))
  }

  /** From `T1`: `Bbar = D * r1 - Abar * e` for the quotients `e` and `-r1`. */
  lemma T1Extracts(c: Curve, p: Proof, q: Proof)
    requires c.Laws()
    requires p.abar == q.abar && p.bbar == q.bbar && p.d == q.d
    requires p.challenge != q.challenge
    requires VerifierT1(c, p) == VerifierT1(c, q)
    ensures p.bbar == c.Sub(c.Mul(p.d, c.SNeg(Quotient(c, p.r1hat, q.r1hat, p.challenge, q.challenge))),
                            c.Mul(p.abar, Quotient(c, p.ehat, q.ehat, p.challenge, q.challenge)))
  {
    hide c.SumProd;
    var e, m := Quotient(c, p.ehat, q.ehat, p.challenge, q.challenge), Quotient(c, p.r1hat, q.r1hat, p.challenge, q.challenge);
    SumProdTwo(c, p.abar, p.d, p.ehat, p.r1hat);
    SumProdTwo(c, p.abar, p.d, q.ehat, q.r1hat);
    NegMoves(c, p.bbar, c.Mul(p.abar, p.ehat), c.Mul(p.d, p.r1hat), p.challenge);
    NegMoves(c, q.bbar, c.Mul(q.abar, q.ehat), c.Mul(q.d, q.r1hat), q.challenge);
    c.SumProdExtracts([p.abar, p.d], [p.ehat, p.r1hat], [q.ehat, q.r1hat], c.Neg(p.bbar), p.challenge, q.challenge);
    assert c.Quotients([p.ehat, p.r1hat], [q.ehat, q.r1hat], c.PerDifference(p.challenge, q.challenge)) == [e, m];
    SumProdTwo(c, p.abar, p.d, e, m);
    c.MulNeg(p.d, m);
    SolveForBbar(c, p.bbar, c.Mul(p.abar, e), c.Mul(p.d, m));
  }

  lemma SolveForBbar(c: Curve, bbar: Point, u: Point, v: Point)
    requires c.Laws()
    requires c.Add(u, v) == c.Neg(bbar)
    ensures bbar == c.Sub(c.Neg(v), u)
  {
    c.NegOfSum(u, v);
    c.NegOfSum(bbar, bbar);
    assert bbar == c.Add(c.Neg(u), c.Neg(v));
    assert c.PointLaws(c.Neg(u), c.Neg(v), bbar, c.zero, c.zero);
  }

  lemma T2AsDifference(c: Curve, p: Proof, bv: Point, hj: seq<Point>, keySum: Point)
    requires c.Laws()
    requires |hj| == |p.commitments|
    ensures c.Add(VerifierT2(c, p, bv, hj), c.Mul(keySum, p.challenge))
         == c.Sub(c.SumProd([p.d] + hj, [p.r3hat] + p.commitments), c.Mul(c.Neg(c.Add(bv, keySum)), p.challenge))
  {
    var cp, x, y := p.challenge, c.Mul(p.d, p.r3hat), c.SumProd(hj, p.commitments);
    c.SumProdConcat([p.d], [p.r3hat], hj, p.commitments);
    c.SumProdOne(p.d, p.r3hat);
    c.AddMul(bv, keySum, cp);
    NegMoves(c, c.Add(bv, keySum), x, y, cp);
    ShuffleFour(c, c.Mul(bv, cp), x, y, c.Mul(keySum, cp));
  }

  lemma ShuffleFour(c: Curve, a: Point, x: Point, y: Point, k: Point)
    requires c.Laws()
    ensures c.Add(c.Add(c.Add(a, x), y), k) == c.Add(c.Add(c.Add(a, k), x), y)
  {
    c.AddAC();
  }

  /** From `T2`: `D * r3` is what the verifier knows, plus hidden messages, plus the keys, for the quotients
      `-r3` and the hidden messages. */
  lemma T2Extracts(c: Curve, p: Proof, q: Proof, bv: Point, hj: seq<Point>, keySum: Point)
    requires c.Laws()
    requires p.d == q.d && |hj| == |p.commitments| == |q.commitments|
    requires p.challenge != q.challenge
    requires c.Add(VerifierT2(c, p, bv, hj), c.Mul(keySum, p.challenge))
          == c.Add(VerifierT2(c, q, bv, hj), c.Mul(keySum, q.challenge))
    ensures var hidden := c.Quotients(p.commitments, q.commitments, c.PerDifference(p.challenge, q.challenge));
            c.Mul(p.d, c.SNeg(Quotient(c, p.r3hat, q.r3hat, p.challenge, q.challenge)))
            == c.Add(c.Add(bv, c.SumProd(hj, hidden)), keySum)
  {
    hide c.SumProd, VerifierT2;
    T2AsDifference(c, p, bv, hj, keySum);
    T2AsDifference(c, q, bv, hj, keySum);
    var a, b := [p.r3hat] + p.commitments, [q.r3hat] + q.commitments;
    c.SumProdExtracts([p.d] + hj, a, b, c.Neg(c.Add(bv, keySum)), p.challenge, q.challenge);
    var inv, m := c.PerDifference(p.challenge, q.challenge), Quotient(c, p.r3hat, q.r3hat, p.challenge, q.challenge);
    var hidden := c.Quotients(p.commitments, q.commitments, inv);
    assert c.Quotients(a, b, inv) == [m] + hidden;
    c.SumProdConcat([p.d], [m], hj, hidden);
    c.SumProdOne(p.d, m);
    c.MulNeg(p.d, m);
    SolveForFirst(c, c.Mul(p.d, m), c.SumProd(hj, hidden), bv, keySum);
  }

  lemma SolveForFirst(c: Curve, x: Point, h: Point, bv: Point, k: Point)
    requires c.Laws()
    requires c.Add(x, h) == c.Neg(c.Add(bv, k))
    ensures c.Neg(x) == c.Add(c.Add(bv, h), k)
  {
    assert c.Add(x, c.Add(c.Add(bv, h), k)) == c.Add(c.Add(x, h), c.Add(bv, k)) by { c.AddAC(); }
    assert c.Add(c.Neg(c.Add(bv, k)), c.Add(bv, k)) == c.identity by { c.AddAC(); }
    c.NegUnique(x, c.Add(c.Add(bv, h), k));
  }

  /** From one commitment proof: the commitment opens to the quotient of the two responses. */
  lemma PedersenExtracts(c: Curve, y: (Point, Point), com: Point, s1: Scalar, m1: Scalar, c1: Scalar,
                         s2: Scalar, m2: Scalar, c2: Scalar)
    requires c.Laws()
    requires c1 != c2
    requires c.Sub(Pedersen(c, y, s1, m1), c.Mul(com, c1)) == c.Sub(Pedersen(c, y, s2, m2), c.Mul(com, c2))
    ensures com == Pedersen(c, y, Quotient(c, s1, s2, c1, c2), Quotient(c, m1, m2, c1, c2))
  {
    hide c.SumProd;
    var s, m := Quotient(c, s1, s2, c1, c2), Quotient(c, m1, m2, c1, c2);
    SumProdTwo(c, y.0, y.1, s1, m1);
    SumProdTwo(c, y.0, y.1, s2, m2);
    c.SumProdExtracts([y.0, y.1], [s1, m1], [s2, m2], com, c1, c2);
    assert c.Quotients([s1, m1], [s2, m2], c.PerDifference(c1, c2)) == [s, m];
    SumProdTwo(c, y.0, y.1, s, m);
  }

  // ---- The message vector ----

  /** The values at the shown slots and, elsewhere, the hidden ones. */
  function Merge(l: nat, shown: seq<nat>, disclosed: seq<Scalar>, hidden: seq<Scalar>): (r: seq<Scalar>)
    requires |disclosed| == |shown| && Increasing(shown) && Below(shown, l)
    requires |hidden| == |Complement(l, shown)|
    ensures |r| == l
  {
    seq(l, i requires 0 <= i < l =>
      match IndexIn(shown, i)
      case Some(p) => disclosed[p]
      case None =>
        ComplementHas(l, shown, i);
        hidden[IndexIn(Complement(l, shown), i).value])
  }

  lemma ComplementHas(l: nat, shown: seq<nat>, i: nat)
    requires i < l
    ensures i in Complement(l, shown) <==> i !in shown
  {
    WhereIs(seq(l, j requires 0 <= j => j !in shown));
  }

  lemma IndexOfMember(xs: seq<nat>, p: nat)
    requires Increasing(xs) && p < |xs|
    ensures IndexIn(xs, xs[p]) == Some(p)
  {
    var q := IndexIn(xs, xs[p]);
    assert xs[p] in xs;
    assert xs[q.value] == xs[p];
  }

  lemma MergePicks(l: nat, shown: seq<nat>, disclosed: seq<Scalar>, hidden: seq<Scalar>)
    requires |disclosed| == |shown| && Increasing(shown) && Below(shown, l)
    requires |hidden| == |Complement(l, shown)|
    ensures Below(Complement(l, shown), l)
    ensures Pick(Merge(l, shown, disclosed, hidden), shown) == disclosed
    ensures Pick(Merge(l, shown, disclosed, hidden), Complement(l, shown)) == hidden
  {
    hide Where;
    var ji, m := Complement(l, shown), Merge(l, shown, disclosed, hidden);
    WhereIs(seq(l, j requires 0 <= j => j !in shown));
    forall p | 0 <= p < |shown| ensures m[shown[p]] == disclosed[p] {
      IndexOfMember(shown, p);
    }
    forall p | 0 <= p < |ji| ensures m[ji[p]] == hidden[p] {
      assert ji[p] in ji;
      IndexOfMember(ji, p);
    }
  }

  // ---- The theorem ----

  lemma ProofVerifyInitForm(s: Suite, pk: Octets, p: Proof, gens: seq<Point>, header: Octets, disclosed: seq<Scalar>,
                            shown: seq<nat>, l: nat, init: InitResult)
    requires ProofVerifyInit(s, pk, p, gens, header, disclosed, shown) == Ok(init)
    requires l == |shown| + |p.commitments|
    ensures |gens| == l + 1 && |disclosed| == |shown| && Below(shown, l)
    ensures Below(Complement(l, shown), l) && |Complement(l, shown)| == |p.commitments|
    ensures CalculateDomain(s, pk, gens[0], gens[1..], header) == Ok(init.domain)
    ensures init == InitResult(p.abar, p.bbar, p.d, VerifierT1(s.curve, p),
                               VerifierT2(s.curve, p, DisclosedB(s, gens[0], gens[1..], init.domain, disclosed, shown),
                                          Pick(gens[1..], Complement(l, shown))), init.domain)
  {
    hide DomainOctets, HashToScalar, VerifierT1, VerifierT2, DisclosedB, Complement;
    ComplementIsBelow(l, shown);
  }

  /** What one accepted proof says about the challenge input `t` it led to. */
  ghost predicate InputFacts(s: Suite, b: BlindProof, gens: seq<Point>, disclosed: seq<Scalar>, shown: seq<nat>,
                             committed: seq<nat>, y: (Point, Point), l: nat, t: ChallengeInput)
  {
    var c, p := s.curve, b.proof;
    && |gens| == l + 1 && |disclosed| == |shown| && Below(shown, l)
    && |b.sHat| == |b.commitments| == |committed|
    && t.commitments == b.commitments && t.keys == b.keys
    && t.init.abar == p.abar && t.init.bbar == p.bbar && t.init.d == p.d
    && t.init.t1 == VerifierT1(c, p)
    && Below(Complement(l, shown), |gens[1..]|) && |Complement(l, shown)| == |p.commitments|
    && t.init.t2 == c.Add(VerifierT2(c, p, DisclosedB(s, gens[0], gens[1..], t.init.domain, disclosed, shown),
                                     Pick(gens[1..], Complement(l, shown))), c.Mul(c.SumPoints(b.keys), p.challenge))
    && Positions(Complement(l, shown), committed).Ok?
    && t.proofs == RecomputedProofs(c, y, b.sHat, Pick(p.commitments, Positions(Complement(l, shown), committed).value),
                                    b.commitments, p.challenge)
  }

  lemma VerifierInputForm(s: Suite, pk: Octets, b: BlindProof, gens: seq<Point>, header: Octets, ph: Octets,
                          disclosed: seq<Scalar>, shown: seq<nat>, committed: seq<nat>, l: nat, t: ChallengeInput)
    requires VerifierInput(s, pk, b, gens, header, ph, disclosed, shown, committed) == Ok(t)
    requires |gens| == l + 1
    ensures ComDisGens(s).Ok?
    ensures Increasing(shown) && Increasing(committed)
    ensures CalculateDomain(s, pk, gens[0], gens[1..], header) == Ok(t.init.domain)
    ensures InputFacts(s, b, gens, disclosed, shown, committed, ComDisGens(s).value, l, t)
    ensures Disjoint(committed, shown)
  {
    hide VerifierT1, VerifierT2, DisclosedB, s.curve.SumPoints, ComDisGens, CheckIndexes, RecomputedProofs, Positions,
         Complement, ProofVerifyInit, CalculateDomain, s.curve.Add;
    assert l == |shown| + |b.proof.commitments|;
    CheckIndexesIff(committed, l);
    CheckIndexesIff(shown, l);
    var init := ProofVerifyInit(s, pk, b.proof, gens, header, disclosed, shown).value;
    ProofVerifyInitForm(s, pk, b.proof, gens, header, disclosed, shown, l, init);
  }

  /** What the extractor returns: a signature scalar, two blinding scalars, a whole message vector, the
      unrandomized keys with their randomizers, and one blind per commitment. */
  datatype Witness = Witness(e: Scalar, r1: Scalar, r3: Scalar, messages: seq<Scalar>, keys: seq<Point>,
                             shifts: seq<Scalar>, blinds: seq<Scalar>)

  lemma UnrandomizedKeys(c: Curve, keys: seq<Point>, gens: seq<Point>, answers: seq<Scalar>)
    requires c.Laws()
    requires |keys| == |gens| == |answers|
    ensures var bare := c.Randomized(keys, gens, answers);
            && keys == c.Randomized(bare, gens, c.Negated(answers))
            && c.SumPoints(bare) == c.Add(c.SumPoints(keys), c.SumProd(gens, answers))
  {
    var bare := c.Randomized(keys, gens, answers);
    c.SumPointsOfRandomized(keys, gens, answers);
    forall i | 0 <= i < |keys| ensures keys[i] == c.Add(bare[i], c.Mul(gens[i], c.Negated(answers)[i])) {
      c.MulNeg(gens[i], answers[i]);
      c.SubAfterAdd(keys[i], c.Mul(gens[i], answers[i]));
    }
  }

  /** `D * r3` is the signed point of the merged message vector and the unrandomized keys. */
  lemma SignedPointExtracts(s: Suite, q1: Point, hs: seq<Point>, shown: seq<nat>, disclosed: seq<Scalar>, l: nat,
                            keys: seq<Point>, domain: Scalar, hidden: seq<Scalar>)
    requires s.Valid()
    requires |hs| == l + |keys| && |disclosed| == |shown| && Increasing(shown) && Below(shown, l)
    requires |hidden| == |Complement(l + |keys|, shown)|
    ensures Complement(l + |keys|, shown) == Complement(l, shown) + Range(l, |keys|)
    ensures |Complement(l, shown)| + |keys| == |hidden|
    ensures Below(Complement(l + |keys|, shown), |hs|)
    ensures var c, u := s.curve, |Complement(l, shown)|;
            var messages, bare := Merge(l, shown, disclosed, hidden[..u]), c.Randomized(keys, hs[l..], hidden[u..]);
            c.Add(c.Add(DisclosedB(s, q1, hs, domain, disclosed, shown), c.SumProd(Pick(hs, Complement(l + |keys|, shown)), hidden)),
                  c.SumPoints(keys))
            == SignedPoint(s, q1, hs[..l], messages, domain, bare)
  {
    hide Complement, s.curve.SumProd, s.curve.SumPoints, Where, Merge, DisclosedB, SignedPoint, Increasing;
    var c, k, ji := s.curve, |keys|, Complement(l, shown);
    HiddenSumSplits(c, hs, shown, l, k, hidden);
    ComplementIsBelow(l, shown);
    var u := |ji|;
    var messages, bare := Merge(l, shown, disclosed, hidden[..u]), c.Randomized(keys, hs[l..], hidden[u..]);
    MergePicks(l, shown, disclosed, hidden[..u]);
    SignedPointSplits(s, q1, hs, messages, shown, domain, bare);
    UnrandomizedKeys(c, keys, hs[l..], hidden[u..]);
    ShiftSums(c, DisclosedB(s, q1, hs, domain, disclosed, shown), c.SumProd(Pick(hs, ji), hidden[..u]),
              c.SumProd(hs[l..], hidden[u..]), c.SumPoints(keys));
  }

  /** The sum over the hidden slots, message part and key part. */
  lemma HiddenSumSplits(c: Curve, hs: seq<Point>, shown: seq<nat>, l: nat, k: nat, hidden: seq<Scalar>)
    requires c.Laws()
    requires |hs| == l + k && Below(shown, l) && Increasing(shown) && |hidden| == |Complement(l + k, shown)|
    ensures Complement(l + k, shown) == Complement(l, shown) + Range(l, k)
    ensures |Complement(l, shown)| + k == |hidden|
    ensures Below(Complement(l + k, shown), |hs|) && Below(Complement(l, shown), |hs|)
    ensures var u := |Complement(l, shown)|;
            c.SumProd(Pick(hs, Complement(l + k, shown)), hidden)
            == c.Add(c.SumProd(Pick(hs, Complement(l, shown)), hidden[..u]), c.SumProd(hs[l..], hidden[u..]))
  {
    hide Complement, c.SumProd, Where, Increasing;
    var ji := Complement(l, shown);
    var u := |ji|;
    HiddenSlotsWithKeys(l, k, shown);
    ComplementIsBelow(l, shown);
    ComplementIsBelow(l + k, shown);
    PickConcat(hs, ji, Range(l, k));
    PickTail(hs, l, k);
    assert hidden == hidden[..u] + hidden[u..];
    c.SumProdConcat(Pick(hs, ji), hidden[..u], hs[l..], hidden[u..]);
  }

  lemma PickTail(hs: seq<Point>, l: nat, k: nat)
    requires |hs| == l + k
    ensures Pick(hs, Range(l, k)) == hs[l..]
  {
  }

  lemma ShiftSums(c: Curve, bv: Point, h: Point, g: Point, k: Point)
    requires c.Laws()
    ensures c.Add(c.Add(bv, c.Add(h, g)), k) == c.Add(c.Add(bv, h), c.Add(k, g))
  {
    c.AddAC();
  }

  lemma PairingExtracts(c: Curve, p: Proof, x: Scalar, e: Scalar, r1: Scalar, r3: Scalar, b: Point)
    requires c.Laws()
    requires PairingHolds(c, p, x) && p.abar != c.identity && p.d != c.identity
    requires p.bbar == c.Sub(c.Mul(p.d, r1), c.Mul(p.abar, e))
    requires c.Mul(p.d, r3) == b
    ensures c.Mul(c.Mul(p.abar, r3), c.SAdd(x, e)) == c.Mul(b, r1)
    ensures c.SAdd(x, e) == c.zero <==> r1 == c.zero
  {
    var t := c.SAdd(x, e);
    c.MulAdd(p.abar, x, e);
    assert c.Mul(p.abar, t) == c.Mul(p.d, r1) by {
      assert c.Add(c.Sub(c.Mul(p.d, r1), c.Mul(p.abar, e)), c.Mul(p.abar, e)) == c.Mul(p.d, r1) by { c.AddAC(); }
    }
    c.MulMul(p.abar, r3, t);
    c.MulMul(p.d, r1, r3);
    NonTrivialFactor(c, p.abar, t);
    NonTrivialFactor(c, p.d, r1);
  }

  lemma NonTrivialFactor(c: Curve, p: Point, a: Scalar)
    requires c.Laws() && p != c.identity
    ensures c.Mul(p, a) == c.identity <==> a == c.zero
  {
    if a == c.zero {
      c.MulZero(p, a);
    } else {
      c.MulInverse(p, a);
    }
  }

  /** A proof that leads the verifier to the challenge input `t` and satisfies the pairing equation, in the layout
      the outer verifier passes, where the keys hold the last slots and are neither disclosed nor committed. */
  ghost predicate Answers(s: Suite, x: Scalar, pk: Octets, b: BlindProof, gens: seq<Point>, header: Octets, ph: Octets,
                          disclosed: seq<Scalar>, shown: seq<nat>, committed: seq<nat>, t: ChallengeInput, l: nat)
  {
    && s.Valid()
    && VerifierInput(s, pk, b, gens, header, ph, disclosed, shown, committed) == Ok(t)
    && PairingHolds(s.curve, b.proof, x) && GoodProof(s.curve, b.proof)
    && |gens| == l + 1 + |b.keys| && Below(shown, l) && Below(committed, l)
  }

  /** Two of them, with one challenge input and different challenges. */
  ghost predicate TwoAnswers(s: Suite, x: Scalar, pk: Octets, b1: BlindProof, b2: BlindProof, gens: seq<Point>,
                             header: Octets, ph: Octets, disclosed: seq<Scalar>, shown: seq<nat>, committed: seq<nat>,
                             t: ChallengeInput, l: nat)
  {
    && Answers(s, x, pk, b1, gens, header, ph, disclosed, shown, committed, t, l)
    && Answers(s, x, pk, b2, gens, header, ph, disclosed, shown, committed, t, l)
    && b1.proof.challenge != b2.proof.challenge
  }

  lemma CoreAcceptedAnswers(s: Suite, pk: Octets, o: Octets, gens: seq<Point>, header: Octets, ph: Octets,
                            disclosed: seq<Scalar>, shown: seq<nat>, committed: seq<nat>)
    requires s.Valid()
    requires BlindCoreProofVerify(s, pk, o, gens, header, ph, disclosed, shown, committed).Ok?
    ensures s.curve.PublicKeyExponent(pk).Ok? && BlindProofFromOctets(s.curve, o).Ok?
    ensures var c, b := s.curve, BlindProofFromOctets(s.curve, o).value;
            var t := VerifierInput(s, pk, b, gens, header, ph, disclosed, shown, committed);
            && GoodProof(c, b.proof) && PairingHolds(c, b.proof, c.PublicKeyExponent(pk).value)
            && t.Ok? && ProofChallenge(s, t.value) == Ok(b.proof.challenge) && DevicesProve(c, gens, b)
  {
    hide BlindProofFromOctets, VerifierInput, ProofChallenge, VerifyAll, KeyChallenges, BlindProofOctets, ComDisGens, DevicesProve;
    DevicesProveIff(s.curve, gens, BlindProofFromOctets(s.curve, o).value);
    BlindProofFromOctetsIff(s.curve, o, BlindProofFromOctets(s.curve, o).value);
  }

  lemma AnnouncedKeys(c: Curve, o: Octets)
    requires BlindProofFromOctets(c, o).Ok?
    ensures |o| >= 24 && |BlindProofFromOctets(c, o).value.keys| == ReadU64(o, 16).value
  {
    hide ReadU64, ProofFromOctets;
  }

  /** Every proof the verifier accepts is one of the two: its octets read as a proof that answers, with the
      challenge hashed from its own challenge input. Two such proofs with one challenge input, accepted while the
      hash of that input was answered differently, are therefore what the extractor needs. */
  lemma AcceptedAnswers(s: Suite, pk: Octets, o: Octets, header: Octets, ph: Octets, split: nat, disclosed: seq<Octets>,
                        choices: seq<Disclosure>)
    requires s.Valid()
    requires BlindProofVerify(s, pk, o, header, ph, split, disclosed, choices).Ok?
    ensures s.curve.PublicKeyExponent(pk).Ok? && BlindProofFromOctets(s.curve, o).Ok? && split <= |choices|
    ensures var x, b := s.curve.PublicKeyExponent(pk).value, BlindProofFromOctets(s.curve, o).value;
            var gens, scalars := AllGens(s, split, |choices|, |b.keys|), MessageScalars(s, disclosed);
            var shown, committed := ProofIndexes(Chosen(choices, Disclose), split), ProofIndexes(Chosen(choices, Commit), split);
            var t := VerifierInput(s, pk, b, gens, header, ph, scalars, shown, committed);
            && t.Ok? && Answers(s, x, pk, b, gens, header, ph, scalars, shown, committed, t.value, |choices| + 1)
            && ProofChallenge(s, t.value) == Ok(b.proof.challenge) && DevicesProve(s.curve, gens, b)
  {
    hide BlindProofFromOctets, VerifierInput, ProofChallenge, BlindCoreProofVerify, ReadU64, DerivedGens, AllGens, Where,
         MessageScalars, ProofIndexes, DevicesProve;
    var k := ReadU64(o, 16).value;
    ValidSuiteHashes(s);
    var shown, committed := ProofIndexes(Chosen(choices, Disclose), split), ProofIndexes(Chosen(choices, Commit), split);
    DerivedGensValid(s, split, |choices|, k);
    CoreAcceptedAnswers(s, pk, o, AllGens(s, split, |choices|, k), header, ph, MessageScalars(s, disclosed), shown, committed);
    AnnouncedKeys(s.curve, o);
    SlotsAreValid(choices, Disclose, split);
    SlotsAreValid(choices, Commit, split);
  }

  /** Two proofs of one layout: the same slots, keys and commitments. */
  ghost predicate SameLayout(b1: BlindProof, b2: BlindProof, gens: seq<Point>, disclosed: seq<Scalar>, shown: seq<nat>, l: nat) {
    && |disclosed| == |shown| && Increasing(shown) && Below(shown, l)
    && |gens| == l + 1 + |b1.keys|
    && |b1.proof.commitments| == |b2.proof.commitments| == |Complement(l, shown)| + |b1.keys|
    && |b1.sHat| == |b2.sHat|
  }

  /** The extractor. Every scalar is the quotient of two answers by the difference of the challenges; it does
      not look at the secret key. */
  ghost function Extracted(c: Curve, b1: BlindProof, b2: BlindProof, gens: seq<Point>, disclosed: seq<Scalar>, shown: seq<nat>,
                           l: nat): Witness
    requires SameLayout(b1, b2, gens, disclosed, shown, l)
  {
    var p, q, u := b1.proof, b2.proof, |Complement(l, shown)|;
    var inv := c.PerDifference(p.challenge, q.challenge);
    var hidden := c.Quotients(p.commitments, q.commitments, inv);
    Witness(Quotient(c, p.ehat, q.ehat, p.challenge, q.challenge),
            c.SNeg(Quotient(c, p.r1hat, q.r1hat, p.challenge, q.challenge)),
            c.SNeg(Quotient(c, p.r3hat, q.r3hat, p.challenge, q.challenge)),
            Merge(l, shown, disclosed, hidden[..u]),
            c.Randomized(b1.keys, gens[l + 1..], hidden[u..]),
            c.Negated(hidden[u..]),
            c.Quotients(b1.sHat, b2.sHat, inv))
  }

  lemma AnswersHaveLayout(s: Suite, x: Scalar, pk: Octets, b1: BlindProof, b2: BlindProof, gens: seq<Point>, header: Octets,
                          ph: Octets, disclosed: seq<Scalar>, shown: seq<nat>, committed: seq<nat>, t: ChallengeInput, l: nat)
    requires TwoAnswers(s, x, pk, b1, b2, gens, header, ph, disclosed, shown, committed, t, l)
    ensures SameLayout(b1, b2, gens, disclosed, shown, l) && |b1.sHat| == |b1.commitments| == |committed|
    ensures ComDisGens(s).Ok? && CalculateDomain(s, pk, gens[0], gens[1..], header) == Ok(t.init.domain)
    ensures InputFacts(s, b1, gens, disclosed, shown, committed, ComDisGens(s).value, l + |b1.keys|, t)
    ensures InputFacts(s, b2, gens, disclosed, shown, committed, ComDisGens(s).value, l + |b1.keys|, t)
  {
    hide Complement, VerifierInput, VerifierT1, VerifierT2, DisclosedB, s.curve.SumProd, s.curve.SumPoints, ComDisGens, Positions,
         CalculateDomain, Where;
    var k := |b1.keys|;
    VerifierInputForm(s, pk, b1, gens, header, ph, disclosed, shown, committed, l + k, t);
    VerifierInputForm(s, pk, b2, gens, header, ph, disclosed, shown, committed, l + k, t);
    HiddenSlotsWithKeys(l, k, shown);
  }

  /** Special soundness. Two proofs that lead the verifier to one and the same challenge input but answer
      different challenges, and satisfy the pairing equation, give away a credential: the extractor's whole
      message vector agrees with the disclosed messages, its keys randomize to the presented ones, its
      scalars satisfy `(x + e) * (Abar * r3) = B * r1` for the signed point `B` of that vector and those
      keys, with `r1` zero only if `e` is minus the secret key; and every Pedersen commitment opens to the
      message in its slot of that vector. */
  lemma PresentationExtracts(s: Suite, x: Scalar, pk: Octets, b1: BlindProof, b2: BlindProof, gens: seq<Point>,
                             header: Octets, ph: Octets, disclosed: seq<Scalar>, shown: seq<nat>, committed: seq<nat>,
                             t: ChallengeInput, l: nat)
    requires TwoAnswers(s, x, pk, b1, b2, gens, header, ph, disclosed, shown, committed, t, l)
    ensures SameLayout(b1, b2, gens, disclosed, shown, l) && ComDisGens(s).Ok?
    ensures |b1.commitments| == |b1.sHat| == |committed|
    ensures var c, w := s.curve, Extracted(s.curve, b1, b2, gens, disclosed, shown, l);
            && Pick(w.messages, shown) == disclosed
            && b1.keys == c.Randomized(w.keys, gens[l + 1..], w.shifts)
            && c.Mul(c.Mul(b1.proof.abar, w.r3), c.SAdd(x, w.e))
               == c.Mul(SignedPoint(s, gens[0], gens[1..l + 1], w.messages, t.init.domain, w.keys), w.r1)
            && (c.SAdd(x, w.e) == c.zero <==> w.r1 == c.zero)
            && forall i :: 0 <= i < |committed| ==>
                 b1.commitments[i] == Pedersen(c, ComDisGens(s).value, w.blinds[i], w.messages[committed[i]])
  {
    hide Complement, s.curve.SumProd, s.curve.SumPoints, Where, Merge, DisclosedB, SignedPoint, VerifierInput, VerifierT1, VerifierT2,
         ComDisGens, Positions, CalculateDomain, Pedersen, Quotient, s.curve.PerDifference;
    var c, k := s.curve, |b1.keys|;
    AnswersHaveLayout(s, x, pk, b1, b2, gens, header, ph, disclosed, shown, committed, t, l);
    var w := Extracted(c, b1, b2, gens, disclosed, shown, l);
    var y, hs, all, u := ComDisGens(s).value, gens[1..], Complement(l + k, shown), |Complement(l, shown)|;
    var hidden := c.Quotients(b1.proof.commitments, b2.proof.commitments, c.PerDifference(b1.proof.challenge, b2.proof.challenge));
    T1Extracts(c, b1.proof, b2.proof);
    T2Extracts(c, b1.proof, b2.proof, DisclosedB(s, gens[0], hs, t.init.domain, disclosed, shown), Pick(hs, all),
               c.SumPoints(b1.keys));
    SignedPointExtracts(s, gens[0], hs, shown, disclosed, l, b1.keys, t.init.domain, hidden);
    assert hs[..l] == gens[1..l + 1] && hs[l..] == gens[l + 1..];
    UnrandomizedKeys(c, b1.keys, hs[l..], hidden[u..]);
    PairingExtracts(c, b1.proof, x, w.e, w.r1, w.r3, SignedPoint(s, gens[0], gens[1..l + 1], w.messages, t.init.domain, w.keys));
    MergePicks(l, shown, disclosed, hidden[..u]);
    CommitmentsOpen(s, b1, b2, gens, disclosed, shown, committed, y, l, k, t, hidden, w.messages, w.blinds);
  }

  /** Every commitment opens to the message in its slot. */
  lemma CommitmentsOpen(s: Suite, b1: BlindProof, b2: BlindProof, gens: seq<Point>, disclosed: seq<Scalar>, shown: seq<nat>,
                        committed: seq<nat>, y: (Point, Point), l: nat, k: nat, t: ChallengeInput, hidden: seq<Scalar>,
                        messages: seq<Scalar>, blinds: seq<Scalar>)
    requires s.Valid()
    requires b1.proof.challenge != b2.proof.challenge
    requires InputFacts(s, b1, gens, disclosed, shown, committed, y, l + k, t)
    requires InputFacts(s, b2, gens, disclosed, shown, committed, y, l + k, t)
    requires Increasing(shown) && Below(shown, l) && Below(committed, l)
    requires var inv := s.curve.PerDifference(b1.proof.challenge, b2.proof.challenge);
             && hidden == s.curve.Quotients(b1.proof.commitments, b2.proof.commitments, inv)
             && blinds == s.curve.Quotients(b1.sHat, b2.sHat, inv)
    requires |Complement(l, shown)| + k == |hidden|
    requires messages == Merge(l, shown, disclosed, hidden[..|Complement(l, shown)|])
    ensures forall i :: 0 <= i < |committed| ==> b1.commitments[i] == Pedersen(s.curve, y, blinds[i], messages[committed[i]])
  {
    hide VerifierT1, VerifierT2, DisclosedB, s.curve.SumPoints, Positions, Complement, Pedersen, Merge, s.curve.SumProd;
    forall i | 0 <= i < |committed|
      ensures b1.commitments[i] == Pedersen(s.curve, y, blinds[i], messages[committed[i]])
    {
      CommitmentAt(s.curve, b1, b2, shown, committed, y, l + k, t.proofs, hidden, i);
      PositionWithoutKeys(l, k, shown, committed, i);
      MergeAtHidden(l, shown, disclosed, hidden[..|Complement(l, shown)|], committed[i]);
    }
  }

  /** The committed slot's hidden message is the extracted answer at its position. */
  lemma CommitmentAt(c: Curve, b1: BlindProof, b2: BlindProof, shown: seq<nat>, committed: seq<nat>, y: (Point, Point),
                     total: nat, proofs: seq<Point>, hidden: seq<Scalar>, i: nat)
    requires c.Laws()
    requires b1.proof.challenge != b2.proof.challenge
    requires |b1.sHat| == |b2.sHat| == |b1.commitments| == |committed| && b1.commitments == b2.commitments
    requires Positions(Complement(total, shown), committed).Ok?
    requires |Complement(total, shown)| == |b1.proof.commitments| == |b2.proof.commitments|
    requires var at := Positions(Complement(total, shown), committed).value;
             && proofs == RecomputedProofs(c, y, b1.sHat, Pick(b1.proof.commitments, at), b1.commitments, b1.proof.challenge)
             && proofs == RecomputedProofs(c, y, b2.sHat, Pick(b2.proof.commitments, at), b2.commitments, b2.proof.challenge)
    requires hidden == c.Quotients(b1.proof.commitments, b2.proof.commitments,
                                   c.PerDifference(b1.proof.challenge, b2.proof.challenge))
    requires i < |committed|
    ensures var inv := c.PerDifference(b1.proof.challenge, b2.proof.challenge);
            b1.commitments[i] == Pedersen(c, y, c.Quotients(b1.sHat, b2.sHat, inv)[i],
                                          hidden[Positions(Complement(total, shown), committed).value[i]])
  {
    hide Complement, Where, Positions, Pedersen;
    var p := Positions(Complement(total, shown), committed).value[i];
    assert proofs[i] == c.Sub(Pedersen(c, y, b1.sHat[i], b1.proof.commitments[p]), c.Mul(b1.commitments[i], b1.proof.challenge));
    assert proofs[i] == c.Sub(Pedersen(c, y, b2.sHat[i], b2.proof.commitments[p]), c.Mul(b2.commitments[i], b2.proof.challenge));
    PedersenExtracts(c, y, b1.commitments[i], b1.sHat[i], b1.proof.commitments[p], b1.proof.challenge,
                     b2.sHat[i], b2.proof.commitments[p], b2.proof.challenge);
  }

  lemma MergeAtHidden(l: nat, shown: seq<nat>, disclosed: seq<Scalar>, hidden: seq<Scalar>, slot: nat)
    requires |disclosed| == |shown| && Increasing(shown) && Below(shown, l)
    requires |hidden| == |Complement(l, shown)| && slot < l && slot !in shown
    ensures IndexIn(Complement(l, shown), slot).Some?
    ensures Merge(l, shown, disclosed, hidden)[slot] == hidden[IndexIn(Complement(l, shown), slot).value]
  {
    hide Complement;
    ComplementHas(l, shown, slot);
  }

  lemma PositionWithoutKeys(l: nat, k: nat, shown: seq<nat>, committed: seq<nat>, i: nat)
    requires Increasing(shown) && Below(shown, l) && Below(committed, l) && i < |committed|
    requires Positions(Complement(l + k, shown), committed).Ok?
    ensures committed[i] !in shown && committed[i] in Complement(l, shown)
    ensures Positions(Complement(l + k, shown), committed).value[i] == IndexIn(Complement(l, shown), committed[i]).value
  {
    hide Complement, Where;
    HiddenSlotsWithKeys(l, k, shown);
    PositionsAre(Complement(l + k, shown), committed);
    assert committed[i] in Complement(l + k, shown);
    ComplementHas(l + k, shown, committed[i]);
    ComplementHas(l, shown, committed[i]);
    IndexInPrefix(Complement(l, shown), Range(l, k), committed[i]);
  }

  /** The signature of the extracted values. */
  function SignatureOf(c: Curve, abar: Point, w: Witness): Signature
    requires c.invS(w.r1).Some?
  {
    Signature(c.Mul(c.Mul(abar, w.r3), c.invS(w.r1).value), w.e)
  }

  /** The extracted values are a credential, or else the secret key itself: when the extracted `r1` is zero,
      `x` is `-e`; otherwise the holder's own check passes on the extracted signature, messages and keys
      exactly when `e` is not zero and the signed point is not the identity. */
  lemma ExtractedSignatureVerifies(s: Suite, x: Scalar, pk: Octets, b1: BlindProof, b2: BlindProof, gens: seq<Point>,
                                   header: Octets, ph: Octets, disclosed: seq<Scalar>, shown: seq<nat>, committed: seq<nat>,
                                   t: ChallengeInput, l: nat)
    requires TwoAnswers(s, x, pk, b1, b2, gens, header, ph, disclosed, shown, committed, t, l)
    requires s.curve.PublicKeyExponent(pk) == Ok(x)
    ensures SameLayout(b1, b2, gens, disclosed, shown, l)
    ensures var c, w := s.curve, Extracted(s.curve, b1, b2, gens, disclosed, shown, l);
            && (w.r1 == c.zero <==> x == c.SNeg(w.e))
            && (w.r1 != c.zero ==>
                  && c.invS(w.r1).Some?
                  && (BlindCoreVerify(s, pk, SignatureOctets(c, SignatureOf(c, b1.proof.abar, w)), gens, header, w.messages,
                                      w.keys).Ok?
                      <==> w.e != c.zero
                           && SignedPoint(s, gens[0], gens[1..l + 1], w.messages, t.init.domain, w.keys) != c.identity))
  {
    hide SignedPoint, SignatureFromOctets, SignatureOctets, CalculateDomain, Extracted, VerifierInput, InputFacts, Pedersen,
         BlindCoreVerify, ComDisGens;
    var c := s.curve;
    PresentationExtracts(s, x, pk, b1, b2, gens, header, ph, disclosed, shown, committed, t, l);
    AnswersHaveLayout(s, x, pk, b1, b2, gens, header, ph, disclosed, shown, committed, t, l);
    ExtractedSizes(c, b1, b2, gens, disclosed, shown, l);
    var w := Extracted(c, b1, b2, gens, disclosed, shown, l);
    SumIsZeroIff(c, x, w.e);
    if w.r1 != c.zero {
      SignatureVerifiesIff(s, x, pk, gens, header, b1.proof.abar, t.init.domain, w, l);
    }
  }

  lemma ExtractedSizes(c: Curve, b1: BlindProof, b2: BlindProof, gens: seq<Point>, disclosed: seq<Scalar>, shown: seq<nat>, l: nat)
    requires SameLayout(b1, b2, gens, disclosed, shown, l)
    ensures var w := Extracted(c, b1, b2, gens, disclosed, shown, l); |w.messages| == l && |w.keys| == |b1.keys|
  {
  }

  lemma SumIsZeroIff(c: Curve, x: Scalar, e: Scalar)
    requires c.Laws()
    ensures c.SAdd(x, e) == c.zero <==> x == c.SNeg(e)
  {
    c.SAddAC();
    if c.SAdd(x, e) == c.zero {
      c.SNegUnique(e, x);
    }
  }

  lemma SignatureVerifiesIff(s: Suite, x: Scalar, pk: Octets, gens: seq<Point>, header: Octets, abar: Point, domain: Scalar,
                             w: Witness, l: nat)
    requires s.Valid()
    requires s.curve.PublicKeyExponent(pk) == Ok(x)
    requires |gens| == l + 1 + |w.keys| && |w.messages| == l
    requires CalculateDomain(s, pk, gens[0], gens[1..], header) == Ok(domain)
    requires s.curve.Mul(s.curve.Mul(abar, w.r3), s.curve.SAdd(x, w.e))
          == s.curve.Mul(SignedPoint(s, gens[0], gens[1..l + 1], w.messages, domain, w.keys), w.r1)
    requires w.r1 != s.curve.zero && s.curve.SAdd(x, w.e) != s.curve.zero
    ensures s.curve.invS(w.r1).Some?
    ensures BlindCoreVerify(s, pk, SignatureOctets(s.curve, SignatureOf(s.curve, abar, w)), gens, header, w.messages, w.keys).Ok?
            <==> w.e != s.curve.zero && SignedPoint(s, gens[0], gens[1..l + 1], w.messages, domain, w.keys) != s.curve.identity
  {
    hide SignedPoint, SignatureFromOctets, SignatureOctets, CalculateDomain;
    var c := s.curve;
    var b := SignedPoint(s, gens[0], gens[1..l + 1], w.messages, domain, w.keys);
    c.MulInverse(b, w.r1);
    var inv, t, sig := c.invS(w.r1).value, c.SAdd(x, w.e), SignatureOf(c, abar, w);
    assert c.Mul(sig.a, t) == b by {
      c.MulMul(c.Mul(abar, w.r3), inv, t);
    }
    c.MulInverse(sig.a, t);
    c.MulZero(sig.a, t);
    SignatureReads(c, sig);
    IssuanceTheorems.VerifyEquation(c, sig.a, x, w.e, b);
  }

  lemma SignatureReads(c: Curve, sig: Signature)
    requires c.Laws()
    ensures SignatureFromOctets(c, SignatureOctets(c, sig)).Ok? <==> sig.a != c.identity && sig.e != c.zero
    ensures SignatureFromOctets(c, SignatureOctets(c, sig)).Ok? ==> SignatureFromOctets(c, SignatureOctets(c, sig)) == Ok(sig)
  {
    var o := SignatureOctets(c, sig);
    SignatureFromOctetsIff(c, o, sig);
    if SignatureFromOctets(c, o).Ok? {
      SignatureFromOctetsIff(c, o, SignatureFromOctets(c, o).value);
      IssuanceTheorems.SignatureOctetsInjective(c, sig, SignatureFromOctets(c, o).value);
    }
  }

  // ---- What an honest prover gives away ----

  /** The proof the prover of run `v` finishes under a challenge. */
  function AnswerTo(c: Curve, v: ProverRun, undisclosed: seq<Scalar>, challenge: Scalar): BlindProof
    requires ProofFinalize(c, v.init, challenge, v.sig.e, v.randoms, undisclosed).Ok? && |v.sTilde| == |v.blinds|
  {
    BlindProof(ProofFinalize(c, v.init, challenge, v.sig.e, v.randoms, undisclosed).value, v.commitments,
               c.BlendLeft(v.sTilde, v.blinds, challenge), v.randomized, [])
  }

  lemma QuotientOfDifference(c: Curve, r: Scalar, m: Scalar, c1: Scalar, c2: Scalar)
    requires c.Laws()
    requires c1 != c2
    ensures c.SNeg(Quotient(c, c.SSub(r, c.SMul(m, c1)), c.SSub(r, c.SMul(m, c2)), c1, c2)) == m
  {
    c.SMulNeg(m, c1);
    c.SMulNeg(m, c2);
    c.SSubZero(c1, c2);
    c.QuotientOfBlend(r, c.SNeg(m), c1, c2);
    c.SAddAC();
    c.SNegUnique(c.SNeg(m), m);
  }

  lemma AnswerScalars(c: Curve, v: ProverRun, undisclosed: seq<Scalar>, c1: Scalar, c2: Scalar)
    requires c.Laws()
    requires c1 != c2
    requires |v.randoms| == |undisclosed| + 5 && c.invS(v.randoms[1]).Some?
    ensures var p, q := ProofFinalize(c, v.init, c1, v.sig.e, v.randoms, undisclosed).value,
                        ProofFinalize(c, v.init, c2, v.sig.e, v.randoms, undisclosed).value;
            && Quotient(c, p.ehat, q.ehat, c1, c2) == v.sig.e
            && c.SNeg(Quotient(c, p.r1hat, q.r1hat, c1, c2)) == v.randoms[0]
            && c.SNeg(Quotient(c, p.r3hat, q.r3hat, c1, c2)) == c.invS(v.randoms[1]).value
            && c.Quotients(p.commitments, q.commitments, c.PerDifference(c1, c2)) == undisclosed
  {
    hide Quotient;
    EhatQuotient(c, v.randoms[2], v.sig.e, c1, c2);
    QuotientOfDifference(c, v.randoms[3], v.randoms[0], c1, c2);
    QuotientOfDifference(c, v.randoms[4], c.invS(v.randoms[1]).value, c1, c2);
    c.QuotientsOfBlends(v.randoms[5..], undisclosed, c1, c2);
  }

  lemma EhatQuotient(c: Curve, r: Scalar, m: Scalar, c1: Scalar, c2: Scalar)
    requires c.Laws()
    requires c1 != c2
    ensures Quotient(c, c.SAdd(r, c.SMul(m, c1)), c.SAdd(r, c.SMul(m, c2)), c1, c2) == m
  {
    c.SSubZero(c1, c2);
    c.QuotientOfBlend(r, m, c1, c2);
  }

  lemma BlindsRecovered(c: Curve, r: seq<Scalar>, blinds: seq<Scalar>, c1: Scalar, c2: Scalar)
    requires c.Laws()
    requires |r| == |blinds| && c1 != c2
    ensures c.Quotients(c.BlendLeft(r, blinds, c1), c.BlendLeft(r, blinds, c2), c.PerDifference(c1, c2)) == blinds
  {
    forall i | 0 <= i < |r|
      ensures c.SMul(c1, blinds[i]) == c.SMul(blinds[i], c1) && c.SMul(c2, blinds[i]) == c.SMul(blinds[i], c2)
    {
      assert c.ScalarLaws(c1, blinds[i], blinds[i]) && c.ScalarLaws(c2, blinds[i], blinds[i]);
    }
    assert c.BlendLeft(r, blinds, c1) == c.Blend(r, blinds, c1) && c.BlendLeft(r, blinds, c2) == c.Blend(r, blinds, c2);
    c.QuotientsOfBlends(r, blinds, c1, c2);
  }

  lemma MergeOfPicks(messages: seq<Scalar>, shown: seq<nat>)
    requires Increasing(shown) && Below(shown, |messages|)
    ensures Below(Complement(|messages|, shown), |messages|)
    ensures Merge(|messages|, shown, Pick(messages, shown), Pick(messages, Complement(|messages|, shown))) == messages
  {
    hide Where;
    var l := |messages|;
    ComplementIsBelow(l, shown);
    forall i | 0 <= i < l
      ensures Merge(l, shown, Pick(messages, shown), Pick(messages, Complement(l, shown)))[i] == messages[i]
    {
      ComplementHas(l, shown, i);
    }
  }

  lemma KeysRecovered(c: Curve, keys: seq<Point>, gens: seq<Point>, r: seq<Scalar>)
    requires c.Laws()
    requires |keys| == |gens| == |r|
    ensures c.Randomized(c.Randomized(keys, gens, r), gens, c.Negated(r)) == keys
    ensures c.Negated(c.Negated(r)) == r
  {
    forall i | 0 <= i < |keys| ensures c.Add(c.Add(keys[i], c.Mul(gens[i], r[i])), c.Mul(gens[i], c.SNeg(r[i]))) == keys[i] {
      c.MulNeg(gens[i], r[i]);
      c.SubAfterAdd(keys[i], c.Mul(gens[i], r[i]));
    }
    c.SAddAC();
    forall i | 0 <= i < |r| ensures c.SNeg(c.SNeg(r[i])) == r[i] {
      c.SNegUnique(c.SNeg(r[i]), r[i]);
    }
  }

  /** An honest prover asked twice after one commitment gives away exactly what it used: the signature's scalar,
      its own randomizers, all its messages, the keys it was given and every commitment's blind. */
  lemma ProverExtractsItself(s: Suite, gens: seq<Point>, messages: seq<Scalar>, shown: seq<nat>, committed: seq<nat>,
                             keys: seq<Point>, domain: Scalar, y: (Point, Point), v: ProverRun, again: Scalar)
    requires s.Valid()
    requires RunFacts(s, gens, messages, shown, committed, keys, domain, y, v)
    requires again != v.challenge
    ensures Below(v.ji, |messages|) && Below(shown, |messages|) && s.curve.invS(v.randoms[1]).Some?
    ensures var c, hidden := s.curve, Pick(messages, v.ji) + s.curve.Negated(v.rKey);
            && ProofFinalize(c, v.init, again, v.sig.e, v.randoms, hidden).Ok? && |v.sTilde| == |v.blinds|
            && var b1, b2 := AnswerTo(c, v, hidden, v.challenge), AnswerTo(c, v, hidden, again);
               && b1.proof == v.proof && b1.sHat == v.sHat
               && SameLayout(b1, b2, gens, Pick(messages, shown), shown, |messages|)
               && Extracted(c, b1, b2, gens, Pick(messages, shown), shown, |messages|)
                  == Witness(v.sig.e, v.randoms[0], c.invS(v.randoms[1]).value, messages, keys, v.rKey, v.blinds)
  {
    hide s.curve.SumProd, SignedPoint, Positions, Where, Complement, Merge, Quotient, Pedersen, s.curve.PerDifference;
    var c, l, u := s.curve, |messages|, |v.ji|;
    var hidden := Pick(messages, v.ji) + c.Negated(v.rKey);
    assert hidden[..u] == Pick(messages, v.ji) && hidden[u..] == c.Negated(v.rKey);
    AnswerScalars(c, v, hidden, v.challenge, again);
    BlindsRecovered(c, v.sTilde, v.blinds, v.challenge, again);
    MergeOfPicks(messages, shown);
    KeysRecovered(c, keys, gens[l + 1..], v.rKey);
  }
}
