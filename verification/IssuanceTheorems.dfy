/** What blind issuance promises: an honest run goes through, exactly when no value the code
    rejects as trivial turns up; and the commitment proof proves knowledge of the opening. */
module IssuanceTheorems {
  import opened Wrappers
  import opened Octets
  import opened Curves
  import opened Serialize
  import opened Suites
  import opened Indexes
  import opened Bbs
  import opened CommitWire
  import opened Issuance
  import opened Injective

  // ---- The commitment proof ----

  lemma CbarAsDifference(c: Curve, bases: seq<Point>, com: Point, mHat: seq<Scalar>, sHat: Scalar, cp: Scalar)
    requires c.Laws()
    requires |bases| == |mHat| + 1
    ensures RecomputedCbar(c, bases, com, mHat, sHat, cp) == c.Sub(c.SumProd(bases, mHat + [sHat]), c.Mul(com, cp))
  {
    assert mHat + [sHat, c.SNeg(cp)] == (mHat + [sHat]) + [c.SNeg(cp)];
    c.SumProdConcat(bases, mHat + [sHat], [com], [c.SNeg(cp)]);
    c.SumProdOne(com, c.SNeg(cp));
    c.MulNeg(com, cp);
  }

  /** The issuer recomputes the `Cbar` the wallet hashed. */
  lemma CbarAgrees(c: Curve, bases: seq<Point>, messages: seq<Scalar>, randoms: seq<Scalar>, cp: Scalar)
    requires c.Laws()
    requires |bases| == |messages| + 1 && |randoms| == |messages| + 2
    ensures RecomputedCbar(c, bases, c.SumProd(bases, messages + [randoms[0]]), c.Blend(randoms[2..], messages, cp),
                           c.SAdd(randoms[1], c.SMul(randoms[0], cp)), cp)
         == c.SumProd(bases, randoms[2..] + [randoms[1]])
  {
    var com := c.SumProd(bases, messages + [randoms[0]]);
    var mHat, sHat := c.Blend(randoms[2..], messages, cp), c.SAdd(randoms[1], c.SMul(randoms[0], cp));
    CbarAsDifference(c, bases, com, mHat, sHat, cp);
    assert mHat + [sHat] == c.Blend(randoms[2..] + [randoms[1]], messages + [randoms[0]], cp);
    c.SumProdOfBlend(bases, randoms[2..] + [randoms[1]], messages + [randoms[0]], cp);
    c.SubAfterAdd(c.SumProd(bases, randoms[2..] + [randoms[1]]), c.Mul(com, cp));
  }

  /** Special soundness of the commitment: when two responses for one commitment lead to the same `Cbar`
      under different challenges, their quotients are messages and a blind that open it. */
  lemma CommitmentExtracts(c: Curve, bases: seq<Point>, com: Point,
                           m1: seq<Scalar>, s1: Scalar, c1: Scalar, m2: seq<Scalar>, s2: Scalar, c2: Scalar)
    requires c.Laws()
    requires |bases| == |m1| + 1 == |m2| + 1
    requires c1 != c2
    requires RecomputedCbar(c, bases, com, m1, s1, c1) == RecomputedCbar(c, bases, com, m2, s2, c2)
    ensures com == c.SumProd(bases, c.Quotients(m1 + [s1], m2 + [s2], c.PerDifference(c1, c2)))
  {
    CbarAsDifference(c, bases, com, m1, s1, c1);
    CbarAsDifference(c, bases, com, m2, s2, c2);
    c.SumProdExtracts(bases, m1 + [s1], m2 + [s2], com, c1, c2);
  }

  /** From the wallet's own answers under two challenges, that is, from one state rewound, the quotients are
      its messages and its blind. */
  lemma CommitmentExtractsSecrets(c: Curve, messages: seq<Scalar>, randoms: seq<Scalar>, c1: Scalar, c2: Scalar)
    requires c.Laws()
    requires |randoms| == |messages| + 2 && c1 != c2
    ensures c.Quotients(c.Blend(randoms[2..], messages, c1) + [c.SAdd(randoms[1], c.SMul(randoms[0], c1))],
                        c.Blend(randoms[2..], messages, c2) + [c.SAdd(randoms[1], c.SMul(randoms[0], c2))],
                        c.PerDifference(c1, c2))
         == messages + [randoms[0]]
  {
    var r, m := randoms[2..] + [randoms[1]], messages + [randoms[0]];
    assert c.Blend(randoms[2..], messages, c1) + [c.SAdd(randoms[1], c.SMul(randoms[0], c1))] == c.Blend(r, m, c1);
    assert c.Blend(randoms[2..], messages, c2) + [c.SAdd(randoms[1], c.SMul(randoms[0], c2))] == c.Blend(r, m, c2);
    c.QuotientsOfBlends(r, m, c1, c2);
  }

  // ---- Commit, then validate ----

  /** The state `CoreCommitInit` builds, once its challenge is known. */
  lemma CommitInitForm(s: Suite, messages: seq<Octets>, keys: seq<Octets>, randoms: seq<Scalar>) returns (st: CommitState)
    requires s.Valid()
    requires |randoms| == |messages| + 2
    requires CommitInit(s, messages, keys, randoms).Ok?
    ensures var out := CommitInit(s, messages, keys, randoms).value;
            var bases := CommitBases(BlindGens(s, |messages|));
            && out.state == StateOctets(s.curve, st) && out.blind == randoms[0] && out.challenge == st.challenge
            && ParseKeys(s.curve, keys) == Ok(st.keys) && NoIdentity(s.curve, st.keys)
            && st.c == s.curve.SumProd(bases, MessageScalars(s, messages) + [randoms[0]])
            && st.sHat == s.curve.SAdd(randoms[1], s.curve.SMul(randoms[0], st.challenge))
            && st.mHat == s.curve.Blend(randoms[2..], MessageScalars(s, messages), st.challenge)
            && BlindChallenge(s, st.c, s.curve.SumProd(bases, randoms[2..] + [randoms[1]]),
                              BlindGens(s, |messages|) + KeyGenerators(s, |keys|), st.keys) == Ok(st.challenge)
  {
    ValidSuiteHashes(s);
    ParseKeysNoIdentity(s.curve, keys);
    var gens := BlindGens(s, |messages|) + KeyGenerators(s, |keys|);
    var pks := ParseKeys(s.curve, keys).value;
    assert gens[..|messages| + 1] == BlindGens(s, |messages|);
    var out := CoreCommitInit(s, gens, MessageScalars(s, messages), pks, randoms).value;
    st := out.state;
  }

  /** Under the suites' tags only a key that does not parse keeps the wallet from committing. */
  lemma CommitStartsIff(s: Suite, messages: seq<Octets>, keys: seq<Octets>, randoms: seq<Scalar>)
    requires s.Valid()
    requires |randoms| == |messages| + 2
    ensures CommitInit(s, messages, keys, randoms).Ok? <==> ParseKeys(s.curve, keys).Ok?
  {
    ValidSuiteHashes(s);
  }

  /** The commitment the wallet sends, and that the issuer's check on it passes. */
  lemma HonestCommitmentValidates(s: Suite, messages: seq<Octets>, randoms: seq<Scalar>, st: CommitState, sigs: seq<Octets>)
    requires s.Valid()
    requires |randoms| == |messages| + 2
    requires GoodState(s.curve, st)
    requires var bases := CommitBases(BlindGens(s, |messages|));
            && st.c == s.curve.SumProd(bases, MessageScalars(s, messages) + [randoms[0]])
            && st.sHat == s.curve.SAdd(randoms[1], s.curve.SMul(randoms[0], st.challenge))
            && st.mHat == s.curve.Blend(randoms[2..], MessageScalars(s, messages), st.challenge)
            && BlindChallenge(s, st.c, s.curve.SumProd(bases, randoms[2..] + [randoms[1]]),
                              BlindGens(s, |messages|) + KeyGenerators(s, |st.keys|), st.keys) == Ok(st.challenge)
    requires DeviceSigned(s.curve, KeyGenerators(s, |st.keys|), st.keys, sigs,
                          Repeat(s.curve.ScalarOctets(st.challenge), |st.keys|))
    ensures CommitFinalize(s, StateOctets(s.curve, st), sigs).Ok?
    ensures ValidateCommit(s, CommitFinalize(s, StateOctets(s.curve, st), sigs).value)
         == Ok(Validated(st.c, st.keys, BlindGens(s, |messages|) + KeyGenerators(s, |st.keys|)))
  {
    hide StateFromOctets, CommitProofFromOctets, StateOctets, CommitProofOctets, BlindChallengeOctets;
    var c := s.curve;
    var x := CommitProof(st.c, st.keys, st.sHat, st.mHat, st.challenge, sigs);
    StateFromOctetsIff(c, StateOctets(c, st), st);
    DeviceSignedWidths(c, KeyGenerators(s, |st.keys|), st.keys, sigs, Repeat(c.ScalarOctets(st.challenge), |st.keys|));
    CommitProofFromOctetsIff(c, CommitProofOctets(c, x), x);
    ValidSuiteHashes(s);
    var gens := BlindGens(s, |messages|) + KeyGenerators(s, |st.keys|);
    assert gens[..|messages| + 1] == BlindGens(s, |messages|);
    assert gens[|messages| + 1..] == KeyGenerators(s, |st.keys|);
    CbarAgrees(c, CommitBases(BlindGens(s, |messages|)), MessageScalars(s, messages), randoms, st.challenge);
    VerifyAllIff(c, KeyGenerators(s, |st.keys|), st.keys, sigs, Repeat(c.ScalarOctets(st.challenge), |st.keys|));
  }

  // ---- Both sides sign and check the same point ----

  lemma SumProdFour(c: Curve, p: Point, q: Point, hs: seq<Point>, com: Point, d: Scalar, ms: seq<Scalar>)
    requires c.Laws()
    requires |hs| == |ms|
    ensures c.SumProd([p, q] + hs + [com], [c.one, d] + ms + [c.one])
         == c.Add(c.Add(c.Add(p, c.Mul(q, d)), c.SumProd(hs, ms)), com)
  {
    c.SumProdConcat([p, q] + hs, [c.one, d] + ms, [com], [c.one]);
    c.SumProdConcat([p, q], [c.one, d], hs, ms);
    c.SumProdConcat([p], [c.one], [q], [d]);
    assert [p] + [q] == [p, q] && [c.one] + [d] == [c.one, d];
    c.SumProdOne(p, c.one);
    c.SumProdOne(q, d);
    c.SumProdOne(com, c.one);
    assert c.PointLaws(p, p, p, c.one, c.one) && c.PointLaws(com, com, com, c.one, c.one);
  }

  lemma SignedRearranged(c: Curve, base: Point, h: Point, j: Point, q: Point, keys: Point)
    requires c.Laws()
    ensures c.Add(c.Add(base, h), c.Add(c.Add(j, q), keys)) == c.Add(c.Add(base, c.Add(h, c.Add(q, j))), keys)
  {
    c.AddAC();
  }

  lemma CommitSum(c: Curve, bg: seq<Point>, committed: seq<Scalar>, blind: Scalar)
    requires c.Laws()
    requires |bg| == |committed| + 1
    ensures c.SumProd(CommitBases(bg), committed + [blind])
         == c.Add(c.SumProd(bg[1..], committed), c.Mul(bg[0], blind))
    ensures c.SumProd(bg, [blind] + committed)
         == c.Add(c.Mul(bg[0], blind), c.SumProd(bg[1..], committed))
  {
    hide c.SumProd;
    c.SumProdConcat(bg[1..], committed, [bg[0]], [blind]);
    c.SumProdConcat([bg[0]], [blind], bg[1..], committed);
    assert bg == [bg[0]] + bg[1..];
    c.SumProdOne(bg[0], blind);
  }

  /** The sum over the issuer's messages and the commitment is the sum over the whole vector. */
  lemma SumsAgree(c: Curve, p1: Point, sg: seq<Point>, bg: seq<Point>, issuer: seq<Scalar>, committed: seq<Scalar>,
                  blind: Scalar, keySum: Point, domain: Scalar)
    requires c.Laws()
    requires |sg| == |issuer| + 1 && |bg| == |committed| + 1
    ensures c.SumProd([p1, sg[0]] + sg[1..] + [c.Add(c.SumProd(CommitBases(bg), committed + [blind]), keySum)],
                      [c.one, domain] + issuer + [c.one])
         == c.Add(c.Add(c.Add(p1, c.Mul(sg[0], domain)), c.SumProd(sg[1..] + bg, issuer + ([blind] + committed))), keySum)
  {
    hide c.SumProd, CommitBases;
    var com := c.SumProd(CommitBases(bg), committed + [blind]);
    SumProdFour(c, p1, sg[0], sg[1..], c.Add(com, keySum), domain, issuer);
    c.SumProdConcat(sg[1..], issuer, bg, [blind] + committed);
    CommitSum(c, bg, committed, blind);
    SignedRearranged(c, c.Add(p1, c.Mul(sg[0], domain)), c.SumProd(sg[1..], issuer),
                     c.SumProd(bg[1..], committed), c.Mul(bg[0], blind), keySum);
  }

  lemma GensSlices(sg: seq<Point>, bg: seq<Point>, kg: seq<Point>)
    requires |sg| > 0 && |bg| > 0
    ensures var gens, bk := sg + bg + kg, bg + kg;
            && gens[0] == sg[0]
            && gens[1..] == sg[1..] + [bk[0]] + bk[1..]
            && gens[1..|sg| + |bg|] == sg[1..] + bg
  {
  }

  lemma WithBlindForm(issuer: seq<Scalar>, committed: seq<Scalar>, blind: Scalar)
    ensures WithBlind(issuer + committed, |issuer|, blind) == issuer + ([blind] + committed)
  {
  }

  /** The issuer's sum over its own messages and the commitment is the holder's sum over the whole
      message vector with the blind in the middle, plus the keys; and both hash one domain. */
  lemma SignedPointAgrees(s: Suite, pk: Octets, header: Octets, issuer: seq<Scalar>, committed: seq<Scalar>,
                          m: nat, n: nat, blind: Scalar, keys: seq<Point>, domain: Scalar)
    requires s.Valid()
    requires |issuer| == m && |committed| == n
    requires CalculateDomain(s, pk, AllGens(s, m, m + n, |keys|)[0], AllGens(s, m, m + n, |keys|)[1..], header) == Ok(domain)
    ensures var c, gens := s.curve, AllGens(s, m, m + n, |keys|);
            var com := c.SumProd(CommitBases(BlindGens(s, n)), committed + [blind]);
            var b := SignedPoint(s, gens[0], gens[1..m + n + 2], WithBlind(issuer + committed, m, blind), domain, keys);
            BCalculate(s, pk, SignerGens(s, m), BlindGens(s, n) + KeyGenerators(s, |keys|),
                       c.Add(com, c.SumPoints(keys)), issuer, header)
            == if b == c.identity then Err(InvalidPoint) else Ok(b)
  {
    hide DomainOctets, HashToScalar, Generators, KeyGenerators;
    var c := s.curve;
    var sg, bg, kg := SignerGens(s, m), BlindGens(s, n), KeyGenerators(s, |keys|);
    GensSlices(sg, bg, kg);
    WithBlindForm(issuer, committed, blind);
    SumsAgree(c, s.p1, sg, bg, issuer, committed, blind, c.SumPoints(keys), domain);
  }

  // ---- The main theorem ----

  /** The point an honest run signs. */
  function HonestPoint(s: Suite, pk: Octets, header: Octets, issuer: seq<Octets>, committed: seq<Octets>,
                       blind: Scalar, keys: seq<Point>): Result<Point>
  {
    var l := |issuer| + |committed|;
    var gens := AllGens(s, |issuer|, l, |keys|);
    var domain :- CalculateDomain(s, pk, gens[0], gens[1..], header);
    Ok(SignedPoint(s, gens[0], gens[1..l + 2], WithBlind(MessageScalars(s, issuer + committed), |issuer|, blind), domain, keys))
  }

  function SignerScalar(s: Suite, sk: Scalar, b: Point): Scalar {
    ScalarHash(s, SerOctets(s.curve, [Scl(sk), G1(b)]), s.apiId + Ascii(H2S))
  }

  lemma VerifyEquation(c: Curve, a: Point, x: Scalar, e: Scalar, b: Point)
    requires c.Laws()
    ensures c.Add(c.Mul(a, x), c.Sub(c.Mul(a, e), b)) == c.identity <==> c.Mul(a, c.SAdd(x, e)) == b
  {
    c.MulAdd(a, x, e);
    assert c.Add(c.Mul(a, x), c.Sub(c.Mul(a, e), b)) == c.Sub(c.Add(c.Mul(a, x), c.Mul(a, e)), b) by {
      assert c.PointLaws(c.Mul(a, x), c.Mul(a, e), c.Neg(b), x, e);
    }
    c.SubIsIdentity(c.Add(c.Mul(a, x), c.Mul(a, e)), b);
  }

  /** Whatever `FinalizeBlindSign` returns satisfies the pairing equation, and is readable exactly
      when its scalar is not zero. */
  lemma SignatureIsReadableIff(s: Suite, sk: Scalar, b: Point)
    requires s.Valid()
    requires b != s.curve.identity
    ensures FinalizeBlindSign(s, sk, b).Ok? <==> s.curve.SAdd(sk, SignerScalar(s, sk, b)) != s.curve.zero
    ensures FinalizeBlindSign(s, sk, b).Ok? ==>
              var o := FinalizeBlindSign(s, sk, b).value;
              && (SignatureFromOctets(s.curve, o).Ok? <==> SignerScalar(s, sk, b) != s.curve.zero)
              && (SignatureFromOctets(s.curve, o).Ok? ==>
                    var sig := SignatureFromOctets(s.curve, o).value;
                    sig.a != s.curve.identity && s.curve.Mul(sig.a, s.curve.SAdd(sk, sig.e)) == b)
  {
    hide SignatureFromOctets, SignatureOctets, SerOctets;
    var c, e := s.curve, SignerScalar(s, sk, b);
    var t := c.SAdd(sk, e);
    ValidSuiteHashes(s);
    assert c.ScalarLaws(t, t, t);
    if t != c.zero {
      c.MulInverse(b, t);
      var sig := Signature(c.Mul(b, c.invS(t).value), e);
      c.MulInverse(b, c.invS(t).value);
      SignatureFromOctetsIff(c, SignatureOctets(c, sig), sig);
      if SignatureFromOctets(c, SignatureOctets(c, sig)).Ok? {
        var sig' := SignatureFromOctets(c, SignatureOctets(c, sig)).value;
        SignatureFromOctetsIff(c, SignatureOctets(c, sig), sig');
        SignatureOctetsInjective(c, sig, sig');
      }
    }
  }

  lemma SignatureOctetsInjective(c: Curve, x: Signature, y: Signature)
    requires c.Laws()
    requires SignatureOctets(c, x) == SignatureOctets(c, y)
    ensures x == y
  {
    SerTwo(c, G1(x.a), Scl(x.e));
    SerTwo(c, G1(y.a), Scl(y.e));
    c.PointFromOctetsIff([], x.a);
    c.PointFromOctetsIff([], y.a);
    SplitEqual(c.compressed(x.a), c.ScalarOctets(x.e), c.compressed(y.a), c.ScalarOctets(y.e));
    c.PointOctetsInjective(x.a, y.a);
    c.ScalarOctetsInjective(x.e, y.e);
  }

  function StateItems(st: CommitState): seq<Ser> {
    [G1(st.c)] + (ScalarItems(CommitScalars(st.sHat, st.mHat, st.challenge)) + PointItems(st.keys))
  }

  lemma StateAsItems(c: Curve, st: CommitState)
    ensures StateOctets(c, st) == SerOctets(c, [U64(|st.mHat|), U64(|st.keys|)]) + SerOctets(c, StateItems(st))
  {
    hide SerOctets;
    assert [U64(|st.mHat|), U64(|st.keys|), G1(st.c), Scl(st.sHat)] + ScalarItems(st.mHat) + [Scl(st.challenge)]
           + PointItems(st.keys) == [U64(|st.mHat|), U64(|st.keys|)] + StateItems(st);
    SerConcat(c, [U64(|st.mHat|), U64(|st.keys|)], StateItems(st));
  }

  lemma StateItemsInjective(x: CommitState, y: CommitState)
    requires |x.mHat| == |y.mHat| && |x.keys| == |y.keys|
    requires StateItems(x) == StateItems(y)
    ensures x == y
  {
    var xs, ys := ScalarItems(CommitScalars(x.sHat, x.mHat, x.challenge)), ScalarItems(CommitScalars(y.sHat, y.mHat, y.challenge));
    SplitEqual([G1(x.c)], xs + PointItems(x.keys), [G1(y.c)], ys + PointItems(y.keys));
    SplitEqual(xs, PointItems(x.keys), ys, PointItems(y.keys));
    ScalarItemsInjective(CommitScalars(x.sHat, x.mHat, x.challenge), CommitScalars(y.sHat, y.mHat, y.challenge));
    PointItemsInjective(x.keys, y.keys);
    CommitScalarsParts(x.sHat, x.mHat, x.challenge);
    CommitScalarsParts(y.sHat, y.mHat, y.challenge);
    assert [G1(x.c)][0] == [G1(y.c)][0];
  }

  /** No two states share their octets, trivial parts or not. */
  lemma StateOctetsInjective(c: Curve, x: CommitState, y: CommitState)
    requires c.Laws()
    requires |x.mHat| < U64_LIMIT && |x.keys| < U64_LIMIT && |y.mHat| < U64_LIMIT && |y.keys| < U64_LIMIT
    requires StateOctets(c, x) == StateOctets(c, y)
    ensures x == y
  {
    hide SerOctets, StateOctets;
    StateAsItems(c, x);
    StateAsItems(c, y);
    var hx, hy := [U64(|x.mHat|), U64(|x.keys|)], [U64(|y.mHat|), U64(|y.keys|)];
    SerPrefixInjective(c, hx, hy, SerOctets(c, StateItems(x)), SerOctets(c, StateItems(y)));
    assert hx[0] == hy[0] && hx[1] == hy[1];
    SerInjective(c, StateItems(x), StateItems(y));
    StateItemsInjective(x, y);
  }

  lemma CommitFinalizeIff(s: Suite, st: CommitState, sigs: seq<Octets>)
    requires s.Valid()
    requires |st.mHat| < U64_LIMIT && |st.keys| == |sigs| < U64_LIMIT
    ensures CommitFinalize(s, StateOctets(s.curve, st), sigs).Ok? <==> GoodState(s.curve, st)
  {
    hide StateFromOctets, StateOctets, CommitProofOctets;
    var c, o := s.curve, StateOctets(s.curve, st);
    StateFromOctetsIff(c, o, st);
    if StateFromOctets(c, o).Ok? {
      var st' := StateFromOctets(c, o).value;
      StateFromOctetsIff(c, o, st');
      StateOctetsInjective(c, st, st');
    }
  }

  /** Issuance, end to end, for every number of messages and keys. The commitment `CommitInit` makes
      can be finalized exactly when none of its parts is trivial; the issuer signs it exactly when the
      point to sign is not the identity and `SK + e` is not zero; and the holder accepts the
      signature exactly when its scalar `e` is not zero. */
  lemma IssuanceComplete(s: Suite, sk: Scalar, pk: Octets, header: Octets, issuer: seq<Octets>, committed: seq<Octets>,
                         keys: seq<Octets>, randoms: seq<Scalar>, sigs: seq<Octets>)
    returns (st: CommitState, b: Point)
    requires s.Valid()
    requires s.curve.PublicKeyExponent(pk) == Ok(sk)
    requires |randoms| == |committed| + 2
    requires CommitInit(s, committed, keys, randoms).Ok?
    requires |committed| < U64_LIMIT && |keys| < U64_LIMIT
    requires DeviceSigned(s.curve, KeyGenerators(s, |keys|), ParseKeys(s.curve, keys).value, sigs,
               Repeat(s.curve.ScalarOctets(CommitInit(s, committed, keys, randoms).value.challenge), |keys|))
    ensures CommitInit(s, committed, keys, randoms).value == CommitInitOutput(StateOctets(s.curve, st), randoms[0], st.challenge)
    ensures ParseKeys(s.curve, keys) == Ok(st.keys) && |st.mHat| == |committed|
    ensures HonestPoint(s, pk, header, issuer, committed, randoms[0], ParseKeys(s.curve, keys).value) == Ok(b)
    ensures CommitFinalize(s, StateOctets(s.curve, st), sigs).Ok? <==> GoodState(s.curve, st)
    ensures CommitFinalize(s, StateOctets(s.curve, st), sigs).Ok? ==>
              var commitment := CommitFinalize(s, StateOctets(s.curve, st), sigs).value;
              var e := SignerScalar(s, sk, b);
              && (BlindSign(s, sk, pk, commitment, header, issuer).Ok? <==>
                    b != s.curve.identity && s.curve.SAdd(sk, e) != s.curve.zero)
              && (BlindSign(s, sk, pk, commitment, header, issuer).Ok? ==>
                    (VerifyBlindSign(s, pk, BlindSign(s, sk, pk, commitment, header, issuer).value, header,
                                     issuer + committed, |issuer|, keys, randoms[0]).Ok?
                     <==> e != s.curve.zero))
  {
    var c := s.curve;
    st := CommitInitForm(s, committed, keys, randoms);
    var pks, l := ParseKeys(c, keys).value, |issuer| + |committed|;
    ValidSuiteHashes(s);
    var gens := AllGens(s, |issuer|, l, |keys|);
    var domain := CalculateDomain(s, pk, gens[0], gens[1..], header).value;
    b := HonestPoint(s, pk, header, issuer, committed, randoms[0], pks).value;
    CommitFinalizeIff(s, st, sigs);
    if GoodState(c, st) {
      HonestCommitmentValidates(s, committed, randoms, st, sigs);
      HonestSigning(s, sk, pk, header, issuer, committed, keys, randoms[0], st,
                    CommitFinalize(s, StateOctets(c, st), sigs).value, b);
    }
  }

  lemma ScalarsOfConcat(s: Suite, a: seq<Octets>, b: seq<Octets>)
    ensures MessageScalars(s, a + b) == MessageScalars(s, a) + MessageScalars(s, b)
  {
  }

  /** What the issuer's call comes to, once the commitment has been validated. */
  lemma BlindSignForm(s: Suite, sk: Scalar, pk: Octets, header: Octets, issuer: seq<Octets>, commitment: Octets,
                      com: Point, keys: seq<Point>, blindGens: seq<Point>, b: Point)
    requires s.Valid() && blindGens != []
    requires ValidateCommit(s, commitment) == Ok(Validated(com, keys, blindGens))
    requires BCalculate(s, pk, SignerGens(s, |issuer|), blindGens, s.curve.Add(com, s.curve.SumPoints(keys)),
                        MessageScalars(s, issuer), header)
          == if b == s.curve.identity then Err(InvalidPoint) else Ok(b)
    ensures BlindSign(s, sk, pk, commitment, header, issuer)
         == if b == s.curve.identity then Err(InvalidPoint) else FinalizeBlindSign(s, sk, b)
  {
    hide ValidateCommit, FinalizeBlindSign, Generators, BCalculate, s.curve.SumPoints;
    ValidSuiteHashes(s);
  }

  /** The holder accepts what the issuer's last step returns exactly when its scalar is not zero. */
  lemma HonestAcceptance(s: Suite, sk: Scalar, pk: Octets, header: Octets, issuer: seq<Octets>, committed: seq<Octets>,
                         keys: seq<Octets>, blind: Scalar, b: Point)
    requires s.Valid()
    requires s.curve.PublicKeyExponent(pk) == Ok(sk)
    requires ParseKeys(s.curve, keys).Ok?
    requires HonestPoint(s, pk, header, issuer, committed, blind, ParseKeys(s.curve, keys).value) == Ok(b)
    requires b != s.curve.identity && FinalizeBlindSign(s, sk, b).Ok?
    ensures VerifyBlindSign(s, pk, FinalizeBlindSign(s, sk, b).value, header, issuer + committed, |issuer|, keys, blind).Ok?
            <==> SignerScalar(s, sk, b) != s.curve.zero
  {
    hide SignatureFromOctets, CalculateDomain, FinalizeBlindSign, AllGens, VerifyBlindSign, ParseKeys, SignerScalar, SignedPoint,
         WithBlind;
    var gens := AllGens(s, |issuer|, |issuer + committed|, |keys|);
    SignatureIsReadableIff(s, sk, b);
    HolderAcceptsIff(s, sk, pk, FinalizeBlindSign(s, sk, b).value, header, issuer + committed, |issuer|, keys, blind,
                     CalculateDomain(s, pk, gens[0], gens[1..], header).value);
  }

  lemma HonestPointForm(s: Suite, pk: Octets, header: Octets, issuer: seq<Octets>, committed: seq<Octets>, blind: Scalar,
                        keys: seq<Point>, b: Point) returns (domain: Scalar)
    requires HonestPoint(s, pk, header, issuer, committed, blind, keys) == Ok(b)
    ensures var gens, l := AllGens(s, |issuer|, |issuer| + |committed|, |keys|), |issuer| + |committed|;
            && CalculateDomain(s, pk, gens[0], gens[1..], header) == Ok(domain)
            && b == SignedPoint(s, gens[0], gens[1..l + 2], WithBlind(MessageScalars(s, issuer + committed), |issuer|, blind),
                                domain, keys)
  {
    hide CalculateDomain, AllGens, SignedPoint, WithBlind, MessageScalars;
    var gens := AllGens(s, |issuer|, |issuer| + |committed|, |keys|);
    domain := CalculateDomain(s, pk, gens[0], gens[1..], header).value;
  }

  /** The issuer's point, over message octets. */
  lemma BCalculateOf(s: Suite, pk: Octets, header: Octets, issuer: seq<Octets>, committed: seq<Octets>, blind: Scalar,
                     keys: seq<Point>, b: Point)
    requires s.Valid()
    requires HonestPoint(s, pk, header, issuer, committed, blind, keys) == Ok(b)
    ensures var c := s.curve;
            var com := c.SumProd(CommitBases(BlindGens(s, |committed|)), MessageScalars(s, committed) + [blind]);
            BCalculate(s, pk, SignerGens(s, |issuer|), BlindGens(s, |committed|) + KeyGenerators(s, |keys|),
                       c.Add(com, c.SumPoints(keys)), MessageScalars(s, issuer), header)
            == if b == c.identity then Err(InvalidPoint) else Ok(b)
  {
    hide HonestPoint, CalculateDomain;
    var domain := HonestPointForm(s, pk, header, issuer, committed, blind, keys, b);
    ScalarsOfConcat(s, issuer, committed);
    SignedPointAgrees(s, pk, header, MessageScalars(s, issuer), MessageScalars(s, committed), |issuer|, |committed|, blind,
                      keys, domain);
  }

  lemma HonestSigning(s: Suite, sk: Scalar, pk: Octets, header: Octets, issuer: seq<Octets>, committed: seq<Octets>,
                      keys: seq<Octets>, blind: Scalar, st: CommitState, commitment: Octets, b: Point)
    requires s.Valid()
    requires s.curve.PublicKeyExponent(pk) == Ok(sk)
    requires ParseKeys(s.curve, keys) == Ok(st.keys)
    requires st.c == s.curve.SumProd(CommitBases(BlindGens(s, |committed|)), MessageScalars(s, committed) + [blind])
    requires ValidateCommit(s, commitment)
          == Ok(Validated(st.c, st.keys, BlindGens(s, |committed|) + KeyGenerators(s, |keys|)))
    requires HonestPoint(s, pk, header, issuer, committed, blind, st.keys) == Ok(b)
    ensures var e := SignerScalar(s, sk, b);
            && (BlindSign(s, sk, pk, commitment, header, issuer).Ok? <==>
                  b != s.curve.identity && s.curve.SAdd(sk, e) != s.curve.zero)
            && (BlindSign(s, sk, pk, commitment, header, issuer).Ok? ==>
                  (VerifyBlindSign(s, pk, BlindSign(s, sk, pk, commitment, header, issuer).value, header,
                                   issuer + committed, |issuer|, keys, blind).Ok?
                   <==> e != s.curve.zero))
  {
    hide ValidateCommit, FinalizeBlindSign, Generators, KeyGenerators, BCalculate, BlindSign, VerifyBlindSign, ParseKeys,
         SignerScalar, HonestPoint, s.curve.SumProd, s.curve.SumPoints;
    BCalculateOf(s, pk, header, issuer, committed, blind, st.keys, b);
    BlindSignForm(s, sk, pk, header, issuer, commitment, st.c, st.keys, BlindGens(s, |committed|) + KeyGenerators(s, |keys|), b);
    if b != s.curve.identity {
      SignatureIsReadableIff(s, sk, b);
      if FinalizeBlindSign(s, sk, b).Ok? {
        HonestAcceptance(s, sk, pk, header, issuer, committed, keys, blind, b);
      }
    }
  }

  /** The holder's check, unfolded: readable, and `A * (x + e)` is the signed point. */
  lemma HolderAcceptsIff(s: Suite, x: Scalar, pk: Octets, signature: Octets, header: Octets, messages: seq<Octets>,
                         split: nat, keys: seq<Octets>, blind: Scalar, domain: Scalar)
    requires s.Valid() && split <= |messages|
    requires s.curve.PublicKeyExponent(pk) == Ok(x)
    requires ParseKeys(s.curve, keys).Ok?
    requires CalculateDomain(s, pk, AllGens(s, split, |messages|, |keys|)[0],
                             AllGens(s, split, |messages|, |keys|)[1..], header) == Ok(domain)
    ensures var gens := AllGens(s, split, |messages|, |keys|);
            VerifyBlindSign(s, pk, signature, header, messages, split, keys, blind).Ok? <==>
            && SignatureFromOctets(s.curve, signature).Ok?
            && var sig := SignatureFromOctets(s.curve, signature).value;
               s.curve.Mul(sig.a, s.curve.SAdd(x, sig.e))
               == SignedPoint(s, gens[0], gens[1..|messages| + 2],
                              WithBlind(MessageScalars(s, messages), split, blind), domain, ParseKeys(s.curve, keys).value)
  {
    hide SignatureFromOctets, DomainOctets, Generators, KeyGenerators, SignedPoint, ParseKeys;
    var c, gens := s.curve, AllGens(s, split, |messages|, |keys|);
    ValidSuiteHashes(s);
    DerivedGensValid(s, split, |messages|, |keys|);
    if SignatureFromOctets(c, signature).Ok? {
      var sig := SignatureFromOctets(c, signature).value;
      VerifyEquation(c, sig.a, x, sig.e,
                     SignedPoint(s, gens[0], gens[1..|messages| + 2],
                                 WithBlind(MessageScalars(s, messages), split, blind), domain, ParseKeys(c, keys).value));
    }
  }
}
