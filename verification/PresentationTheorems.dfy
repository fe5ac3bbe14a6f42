/** What a presentation promises: a wallet with a signature it has checked, an honest device and no
    trivial random value convinces the verifier, whatever is disclosed, hidden or committed. */
module PresentationTheorems {
  import opened Wrappers
  import opened Octets
  import opened Curves
  import opened Serialize
  import opened Suites
  import opened Indexes
  import opened Bbs
  import opened ProofWire
  import opened Issuance
  import opened IssuanceTheorems
  import opened Presentation
  import opened Layout
  import opened ProverAlgebra
  import Keybind

  // ---- Injectivity of the finished proof ----

  lemma ProofOctetsInjective(c: Curve, p: Proof, q: Proof)
    requires c.Laws()
    requires ProofOctets(c, p) == ProofOctets(c, q)
    ensures p == q
  {
    hide ProofOctets, PointsOctets, ScalarsOctets;
    ProofOctetsLayout(c, p);
    ProofOctetsLayout(c, q);
    PointsOctetsLength(c, ProofPoints(p));
    PointsOctetsLength(c, ProofPoints(q));
    SplitEqual(PointsOctets(c, ProofPoints(p)), ScalarsOctets(c, ProofScalars(p)),
               PointsOctets(c, ProofPoints(q)), ScalarsOctets(c, ProofScalars(q)));
    PointsOctetsInjective(c, ProofPoints(p), ProofPoints(q));
    ScalarsOctetsInjective(c, ProofScalars(p), ProofScalars(q));
    ProofPartsRejoin(p);
    ProofPartsRejoin(q);
  }

  predicate Sized(c: Curve, b: BlindProof) {
    && |b.sHat| == |b.commitments| && |b.sigs| == |b.keys| && AllWidth(b.sigs)
    && PROOF_FLOOR + SCALAR_LENGTH * |b.proof.commitments| < U64_LIMIT
    && |b.commitments| < U64_LIMIT && |b.keys| < U64_LIMIT
  }

  lemma BlindProofAnnounces(c: Curve, b: BlindProof)
    requires c.Laws() && Sized(c, b)
    ensures var len := PROOF_FLOOR + SCALAR_LENGTH * |b.proof.commitments|;
            && |ProofOctets(c, b.proof)| == len
            && Announces(BlindProofOctets(c, b), len, |b.commitments|, |b.keys|)
            && |Incomplete(c, ProofOctets(c, b.proof), b.commitments, b.sHat, |b.keys|)|
               == 24 + len + |b.commitments| * (POINT_LENGTH + SCALAR_LENGTH)
  {
    hide ProofOctets, PointsOctets, ScalarsOctets, Joined, ReadU64, Incomplete, AllWidth;
    ProofOctetsLayout(c, b.proof);
    IncompleteAnnounces(c, ProofOctets(c, b.proof), b.commitments, b.sHat, |b.keys|);
    var inc := Incomplete(c, ProofOctets(c, b.proof), b.commitments, b.sHat, |b.keys|);
    Assoc(inc, PointsOctets(c, b.keys), Joined(b.sigs));
    AnnouncesPrefix(BlindProofOctets(c, b), inc, PointsOctets(c, b.keys) + Joined(b.sigs),
                    |ProofOctets(c, b.proof)|, |b.commitments|, |b.keys|);
  }

  lemma JoinedInjective(a: seq<Octets>, b: seq<Octets>)
    requires AllWidth(a) && AllWidth(b) && |a| == |b|
    requires Joined(a) == Joined(b)
    ensures a == b
  {
    var o, k := Joined(a), |a|;
    JoinedLength(a);
    assert o[0..SIGNATURE_LENGTH * k] == o;
    ChunksAtReads(o, 0, a);
    ChunksAtReads(o, 0, b);
  }

  lemma BlindProofOctetsInjective(c: Curve, x: BlindProof, y: BlindProof)
    requires c.Laws() && Sized(c, x) && Sized(c, y)
    requires BlindProofOctets(c, x) == BlindProofOctets(c, y)
    ensures x == y
  {
    hide ProofOctets, PointsOctets, ScalarsOctets, Joined, ReadU64, AllWidth, ProofPrefix;
    BlindProofAnnounces(c, x);
    BlindProofAnnounces(c, y);
    var px, py := ProofOctets(c, x.proof), ProofOctets(c, y.proof);
    var ix, iy := Incomplete(c, px, x.commitments, x.sHat, |x.keys|), Incomplete(c, py, y.commitments, y.sHat, |y.keys|);
    Assoc(ix, PointsOctets(c, x.keys), Joined(x.sigs));
    Assoc(iy, PointsOctets(c, y.keys), Joined(y.sigs));
    SplitEqual(ix, PointsOctets(c, x.keys) + Joined(x.sigs), iy, PointsOctets(c, y.keys) + Joined(y.sigs));
    SplitEqual(ProofPrefix(|px|, |x.commitments|, |x.keys|), px + (PointsOctets(c, x.commitments) + ScalarsOctets(c, x.sHat)),
               ProofPrefix(|py|, |y.commitments|, |y.keys|), py + (PointsOctets(c, y.commitments) + ScalarsOctets(c, y.sHat)));
    SplitEqual(px, PointsOctets(c, x.commitments) + ScalarsOctets(c, x.sHat),
               py, PointsOctets(c, y.commitments) + ScalarsOctets(c, y.sHat));
    PointsOctetsLength(c, x.commitments);
    PointsOctetsLength(c, y.commitments);
    SplitEqual(PointsOctets(c, x.commitments), ScalarsOctets(c, x.sHat), PointsOctets(c, y.commitments), ScalarsOctets(c, y.sHat));
    PointsOctetsLength(c, x.keys);
    PointsOctetsLength(c, y.keys);
    SplitEqual(PointsOctets(c, x.keys), Joined(x.sigs), PointsOctets(c, y.keys), Joined(y.sigs));
    ProofOctetsInjective(c, x.proof, y.proof);
    PointsOctetsInjective(c, x.commitments, y.commitments);
    ScalarsOctetsInjective(c, x.sHat, y.sHat);
    PointsOctetsInjective(c, x.keys, y.keys);
    JoinedInjective(x.sigs, y.sigs);
  }

  lemma ReadableIff(c: Curve, b: BlindProof)
    requires c.Laws() && Sized(c, b)
    ensures BlindProofFromOctets(c, BlindProofOctets(c, b)).Ok? <==> GoodBlindProof(c, b)
    ensures GoodBlindProof(c, b) ==> BlindProofFromOctets(c, BlindProofOctets(c, b)) == Ok(b)
  {
    hide BlindProofFromOctets, BlindProofOctets;
    var o := BlindProofOctets(c, b);
    BlindProofFromOctetsIff(c, o, b);
    if BlindProofFromOctets(c, o).Ok? {
      var b' := BlindProofFromOctets(c, o).value;
      BlindProofFromOctetsIff(c, o, b');
      BlindProofOctetsInjective(c, b, b');
    }
  }

  // ---- The core verifier on an honest proof ----

  function ProofOfRun(v: ProverRun, sigs: seq<Octets>): BlindProof {
    BlindProof(v.proof, v.commitments, v.sHat, v.randomized, sigs)
  }

  /** The verifier's init on a proof of the right counts. */
  lemma VerifyInitIs(s: Suite, pk: Octets, p: Proof, gens: seq<Point>, header: Octets, disclosed: seq<Scalar>,
                     shown: seq<nat>, l: nat, domain: Scalar)
    requires |disclosed| == |shown| && l == |shown| + |p.commitments| && Below(shown, l) && |gens| == l + 1
    requires |Complement(l, shown)| == |p.commitments|
    requires CalculateDomain(s, pk, gens[0], gens[1..], header) == Ok(domain)
    ensures Below(Complement(l, shown), l)
    ensures ProofVerifyInit(s, pk, p, gens, header, disclosed, shown)
         == Ok(InitResult(p.abar, p.bbar, p.d, VerifierT1(s.curve, p),
                          VerifierT2(s.curve, p, DisclosedB(s, gens[0], gens[1..], domain, disclosed, shown),
                                     Pick(gens[1..], Complement(l, shown))), domain))
  {
    hide CalculateDomain, VerifierT1, VerifierT2, DisclosedB, Complement;
    ComplementIsBelow(l, shown);
  }

  /** The counts and first points of a run's proof. */
  lemma RunCounts(s: Suite, gens: seq<Point>, messages: seq<Scalar>, shown: seq<nat>, committed: seq<nat>,
                  keys: seq<Point>, domain: Scalar, y: (Point, Point), v: ProverRun)
    requires s.Valid()
    requires RunFacts(s, gens, messages, shown, committed, keys, domain, y, v)
    ensures |gens| == |messages| + 1 + |keys| && Increasing(shown) && Increasing(committed) && Disjoint(committed, shown)
    ensures Below(shown, |messages|) && Below(committed, |messages|)
    ensures |v.sHat| == |v.commitments| == |committed| && |v.randomized| == |keys|
    ensures |shown| + |v.proof.commitments| == |messages| + |keys|
    ensures |Complement(|messages| + |keys|, shown)| == |v.proof.commitments|
    ensures v.proof.abar == v.init.abar && v.proof.bbar == v.init.bbar && v.proof.d == v.init.d
    ensures v.proof.challenge == v.challenge && v.init.domain == domain
  {
    hide SignedPoint, s.curve.SumProd, s.curve.SumPoints, Where, Positions, s.curve.Randomized, Complement;
    HiddenLengths(messages, shown, |keys|);
    RunSizes(s, gens, messages, shown, committed, keys, domain, y, v);
  }

  /** From the proof of an honest run the verifier recomputes exactly what the prover hashed. */
  lemma VerifierInputOfRun(s: Suite, pk: Octets, gens: seq<Point>, header: Octets, ph: Octets, messages: seq<Scalar>,
                           shown: seq<nat>, committed: seq<nat>, keys: seq<Point>, v: ProverRun, sigs: seq<Octets>)
    requires s.Valid()
    requires ComDisGens(s).Ok?
    requires RunFacts(s, gens, messages, shown, committed, keys, v.init.domain, ComDisGens(s).value, v)
    requires CalculateDomain(s, pk, gens[0], gens[1..], header) == Ok(v.init.domain)
    requires |sigs| == |keys|
    ensures Below(shown, |messages|)
    ensures VerifierInput(s, pk, ProofOfRun(v, sigs), gens, header, ph, Pick(messages, shown), shown, committed)
         == Ok(ChallengeInput(v.init, v.commitments, v.proofs, committed, v.randomized, Pick(messages, shown), shown, ph))
  {
    hide Positions, VerifierT1, VerifierT2, DisclosedB, s.curve.SumPoints, Complement, CheckIndexes, ComDisGens,
         RecomputedProofs, RunFacts, ProofVerifyInit, CalculateDomain;
    var l, k := |messages|, |keys|;
    RunCounts(s, gens, messages, shown, committed, keys, v.init.domain, ComDisGens(s).value, v);
    ComplementIsBelow(l + k, shown);
    VerifierPointsAgree(s, gens, messages, shown, committed, keys, v.init.domain, ComDisGens(s).value, v,
                        gens[1..], Complement(l + k, shown));
    ProofsAgree(s, gens, messages, shown, committed, keys, v.init.domain, ComDisGens(s).value, v);
    VerifyInitIs(s, pk, v.proof, gens, header, Pick(messages, shown), shown, l + k, v.init.domain);
    CheckIndexesIff(committed, l + k);
    CheckIndexesIff(shown, l + k);
  }

  /** On the proof of an honest run the verifier's equations all hold, so it accepts exactly when it
      can read the proof. */
  lemma CoreVerifierAcceptsIff(s: Suite, x: Scalar, pk: Octets, gens: seq<Point>, header: Octets, ph: Octets,
                               messages: seq<Scalar>, shown: seq<nat>, committed: seq<nat>, keys: seq<Point>,
                               v: ProverRun, sigs: seq<Octets>)
    requires s.Valid()
    requires s.curve.PublicKeyExponent(pk) == Ok(x)
    requires ComDisGens(s).Ok?
    requires RunFacts(s, gens, messages, shown, committed, keys, v.init.domain, ComDisGens(s).value, v)
    requires CalculateDomain(s, pk, gens[0], gens[1..], header) == Ok(v.init.domain)
    requires ProofChallenge(s, ChallengeInput(v.init, v.commitments, v.proofs, committed, v.randomized,
                                              Pick(messages, shown), shown, ph)) == Ok(v.challenge)
    requires s.curve.Mul(v.init.abar, x) == v.init.bbar
    requires Sized(s.curve, ProofOfRun(v, sigs))
    requires DeviceSigned(s.curve, gens[|messages| + 1..], v.randomized, sigs, KeyChallenges(s.curve, v.randomized, v.challenge))
    ensures BlindCoreProofVerify(s, pk, BlindProofOctets(s.curve, ProofOfRun(v, sigs)), gens, header, ph,
                                 Pick(messages, shown), shown, committed).Ok?
            <==> GoodBlindProof(s.curve, ProofOfRun(v, sigs))
  {
    hide BlindProofFromOctets, BlindProofOctets, ProofChallenge, DomainOctets, SignedPoint, s.curve.SumProd,
         s.curve.SumPoints, Where, ComDisGens, VerifyAll, KeyChallenges, GoodBlindProof, VerifierInput, RunFacts, Sized;
    var c, l, k, b := s.curve, |messages|, |keys|, ProofOfRun(v, sigs);
    ReadableIff(c, b);
    RunSizes(s, gens, messages, shown, committed, keys, v.init.domain, ComDisGens(s).value, v);
    VerifierInputOfRun(s, pk, gens, header, ph, messages, shown, committed, keys, v, sigs);
    RunCounts(s, gens, messages, shown, committed, keys, v.init.domain, ComDisGens(s).value, v);
    VerifyAllIff(c, gens[l + 1..], v.randomized, sigs, KeyChallenges(c, v.randomized, v.challenge));
    assert |gens| - k == l + 1;
  }

  // ---- The device signatures, adapted ----

  lemma {:induction false} AdaptAllForm(c: Curve, sigs: seq<Octets>, rKey: seq<Scalar>)
    requires |sigs| == |rKey|
    requires forall i :: 0 <= i < |sigs| ==> Keybind.AdaptSig(c, sigs[i], rKey[i]).Ok?
    ensures AdaptAll(c, sigs, rKey).Ok?
    ensures forall i :: 0 <= i < |sigs| ==> Keybind.AdaptSig(c, sigs[i], rKey[i]) == Ok(AdaptAll(c, sigs, rKey).value[i])
  {
    if sigs != [] {
      AdaptAllForm(c, sigs[..|sigs| - 1], rKey[..|sigs| - 1]);
    }
  }

  /** Signatures an honest device made under its own keys verify, adapted, under the randomized keys. */
  lemma AdaptedSign(c: Curve, gens: seq<Point>, keys: seq<Point>, sigs: seq<Octets>, rKey: seq<Scalar>, msgs: seq<Octets>)
    requires c.Laws()
    requires DeviceSigned(c, gens, keys, sigs, msgs) && |rKey| == |keys|
    ensures AdaptAll(c, sigs, rKey).Ok?
    ensures DeviceSigned(c, gens, c.Randomized(keys, gens, rKey), AdaptAll(c, sigs, rKey).value, msgs)
  {
    forall i | 0 <= i < |sigs| ensures Keybind.AdaptSig(c, sigs[i], rKey[i]).Ok? {
      Keybind.AdaptVerifiesIff(c, gens[i], keys[i], sigs[i], rKey[i], msgs[i]);
    }
    AdaptAllForm(c, sigs, rKey);
    forall i | 0 <= i < |sigs|
      ensures Keybind.Verify(c, gens[i], c.Randomized(keys, gens, rKey)[i], AdaptAll(c, sigs, rKey).value[i], msgs[i]).Ok?
    {
      Keybind.AdaptVerifiesIff(c, gens[i], keys[i], sigs[i], rKey[i], msgs[i]);
    }
  }

  // ---- The whole presentation ----

  lemma PickAroundBlind(xs: seq<Scalar>, indexes: seq<nat>, split: nat, blind: Scalar)
    requires split <= |xs| && Below(indexes, |xs|)
    ensures Below(ProofIndexes(indexes, split), |xs| + 1)
    ensures Pick(WithBlind(xs, split, blind), ProofIndexes(indexes, split)) == Pick(xs, indexes)
  {
    var ys, slots := WithBlind(xs, split, blind), ProofIndexes(indexes, split);
    forall i | 0 <= i < |indexes| ensures slots[i] < |ys| && ys[slots[i]] == xs[indexes[i]] {
      assert indexes[i] < |xs|;
    }
  }

  /** The disclosed messages the verifier is given are the ones the prover disclosed. */
  lemma DisclosedScalarsAgree(s: Suite, messages: seq<Octets>, indexes: seq<nat>, split: nat, blind: Scalar)
    requires split <= |messages| && Below(indexes, |messages|)
    ensures Below(ProofIndexes(indexes, split), |messages| + 1)
    ensures MessageScalars(s, Pick(messages, indexes))
         == Pick(WithBlind(MessageScalars(s, messages), split, blind), ProofIndexes(indexes, split))
  {
    hide MessageScalar, WithBlind, ProofIndexes;
    PickAroundBlind(MessageScalars(s, messages), indexes, split, blind);
  }

  lemma ChosenIsBelow(choices: seq<Disclosure>, d: Disclosure)
    ensures Below(Chosen(choices, d), |choices|) && |Chosen(choices, d)| <= |choices|
  {
    WhereIs(Mask(choices, d));
  }

  /** Sizes that fit the eight-octet counters on the wire. */
  predicate FitsWire(messages: nat, keys: nat) {
    PROOF_FLOOR + SCALAR_LENGTH * (messages + 1 + keys) < U64_LIMIT
  }

  ghost predicate Accepted(s: Suite, pk: Octets, signature: Octets, header: Octets, messages: seq<Octets>, split: nat,
                           keys: seq<Octets>, blind: Scalar)
  {
    VerifyBlindSign(s, pk, signature, header, messages, split, keys, blind).Ok?
  }

  lemma AcceptedForm(s: Suite, x: Scalar, pk: Octets, signature: Octets, header: Octets, messages: seq<Octets>, split: nat,
                     keys: seq<Octets>, blind: Scalar)
    requires s.Valid()
    requires s.curve.PublicKeyExponent(pk) == Ok(x)
    requires Accepted(s, pk, signature, header, messages, split, keys, blind)
    ensures split <= |messages| && ParseKeys(s.curve, keys).Ok?
    ensures SignatureFromOctets(s.curve, signature).Ok?
    ensures SignatureFromOctets(s.curve, signature).value.a != s.curve.identity
    ensures var gens := AllGens(s, split, |messages|, |keys|);
            && CalculateDomain(s, pk, gens[0], gens[1..], header).Ok?
            && var sig := SignatureFromOctets(s.curve, signature).value;
               s.curve.Mul(sig.a, s.curve.SAdd(x, sig.e))
               == SignedPoint(s, gens[0], gens[1..|messages| + 2], WithBlind(MessageScalars(s, messages), split, blind),
                              CalculateDomain(s, pk, gens[0], gens[1..], header).value, ParseKeys(s.curve, keys).value)
  {
    hide SignatureFromOctets, DomainOctets, Generators, KeyGenerators, SignedPoint, ParseKeys, BlindCoreVerify, DerivedGens;
    var gens := AllGens(s, split, |messages|, |keys|);
    ValidSuiteHashes(s);
    assert CalculateDomain(s, pk, gens[0], gens[1..], header).Ok?;
    HolderAcceptsIff(s, x, pk, signature, header, messages, split, keys, blind,
                     CalculateDomain(s, pk, gens[0], gens[1..], header).value);
    if SignatureFromOctets(s.curve, signature).Ok? {
      SignatureFromOctetsIff(s.curve, signature, SignatureFromOctets(s.curve, signature).value);
    }
  }

  lemma RandomsPrefix(first: Stream, u: nat, k: nat)
    ensures var r := Draw(first, 5 + u + 2 * k)[..5 + u + k];
            |r| == 5 + u + k && r[0] == first(0) && r[1] == first(1)
    ensures |Draw(first, 5 + u + 2 * k)[5 + u + k..]| == k
  {
  }

  /** With an accepted credential, the proof can be started exactly when `r2` is not zero. */
  lemma PresentationStartsIff(s: Suite, x: Scalar, pk: Octets, signature: Octets, header: Octets, ph: Octets,
                              messages: seq<Octets>, split: nat, choices: seq<Disclosure>, keys: seq<Octets>, blind: Scalar,
                              first: Stream, second: Stream)
    requires s.Valid()
    requires s.curve.PublicKeyExponent(pk) == Ok(x)
    requires Accepted(s, pk, signature, header, messages, split, keys, blind)
    requires |choices| == |messages|
    ensures BlindProofGenInit(s, pk, signature, header, ph, messages, split, choices, keys, blind, first, second).Ok?
            <==> first(1) != s.curve.zero
  {
    hide SignatureFromOctets, DomainOctets, Generators, KeyGenerators, SignedPoint, ParseKeys, DerivedGens, Where,
         ProofChallengeOctets, Positions, CheckIndexes, s.curve.SumProd, s.curve.SumPoints, VerifyBlindSign, RunProver,
         ProofIndexes, GenStateOctets, ProofOctets;
    AcceptedForm(s, x, pk, signature, header, messages, split, keys, blind);
    ValidSuiteHashes(s);
    DerivedGensValid(s, split, |messages|, |keys|);
    SlotsAreValid(choices, Disclose, split);
    SlotsAreValid(choices, Commit, split);
    SlotsAreDisjoint(choices, Commit, Disclose, split);
    RunStartsIff(s, pk, signature, AllGens(s, split, |messages|, |keys|), header, ph,
                 WithBlind(MessageScalars(s, messages), split, blind), ProofIndexes(Chosen(choices, Disclose), split),
                 ProofIndexes(Chosen(choices, Commit), split), ParseKeys(s.curve, keys).value, first, second);
  }

  lemma RunStartsIff(s: Suite, pk: Octets, signature: Octets, gens: seq<Point>, header: Octets, ph: Octets,
                     messages: seq<Scalar>, shown: seq<nat>, committed: seq<nat>, keys: seq<Point>, first: Stream, second: Stream)
    requires s.Valid()
    requires SignatureFromOctets(s.curve, signature).Ok?
    requires |gens| == |messages| + |keys| + 1
    requires Increasing(shown) && Below(shown, |messages|) && Increasing(committed) && Below(committed, |messages|)
    requires Disjoint(committed, shown)
    ensures RunProver(s, pk, signature, gens, header, ph, messages, shown, committed, keys, first, second).Ok?
            <==> first(1) != s.curve.zero
  {
    hide SignatureFromOctets, DomainOctets, Where, ProofChallengeOctets, Positions, CheckIndexes, s.curve.SumProd,
         s.curve.SumPoints, WithKeys, ComputeB, Pedersen, ScalarHash, Generators;
    var c, l, k := s.curve, |messages|, |keys|;
    ValidSuiteHashes(s);
    CheckIndexesIff(committed, l);
    CheckIndexesIff(shown, l);
    ComplementIsBelow(l, shown);
    CommittedAreHidden(l, shown, committed);
    PickIsBelow(l, k, Complement(l, shown));
    RandomsPrefix(first, |Complement(l, shown)|, k);
    assert c.ScalarLaws(first(1), first(1), first(1));
  }

  /** The proof an honest run leaves in the state, and the proof `finalize` makes of it. */
  lemma FinalizeForm(s: Suite, v: ProverRun, gens: seq<Point>, keys: seq<Point>, sigs: seq<Octets>)
    requires s.Valid()
    requires |gens| == |keys| == |v.rKey| && v.randomized == s.curve.Randomized(keys, gens, v.rKey)
    requires DeviceSigned(s.curve, gens, keys, sigs, KeyChallenges(s.curve, v.randomized, v.challenge))
    requires |v.sHat| == |v.commitments| < U64_LIMIT && |keys| < U64_LIMIT
    requires PROOF_FLOOR + SCALAR_LENGTH * |v.proof.commitments| < U64_LIMIT
    ensures AdaptAll(s.curve, sigs, v.rKey).Ok?
    ensures var c := s.curve;
            var state := GenStateOctets(c, ProofOctets(c, v.proof), v.challenge, v.commitments, v.sHat, v.randomized, v.rKey);
            var b := ProofOfRun(v, AdaptAll(c, sigs, v.rKey).value);
            && Sized(c, b)
            && DeviceSigned(c, gens, v.randomized, b.sigs, KeyChallenges(c, v.randomized, v.challenge))
            && (BlindProofGenFinalize(s, state, sigs).Ok? <==>
                  v.challenge != c.zero && NoZero(c, v.rKey) && NoIdentity(c, v.randomized))
            && (BlindProofGenFinalize(s, state, sigs).Ok? ==>
                  BlindProofGenFinalize(s, state, sigs) == Ok(BlindProofOctets(c, b)))
  {
    hide GenStateFromOctets, GenStateOctets, ProofOctets, KeyChallenges, AdaptAll, Incomplete, NoZero, NoIdentity;
    var c := s.curve;
    ProofOctetsLayout(c, v.proof);
    AdaptedSign(c, gens, keys, sigs, v.rKey, KeyChallenges(c, v.randomized, v.challenge));
    DeviceSignedWidths(c, gens, v.randomized, AdaptAll(c, sigs, v.rKey).value, KeyChallenges(c, v.randomized, v.challenge));
    StateSlicesBack(c, ProofOctets(c, v.proof), v.challenge, v.commitments, v.sHat, v.randomized, v.rKey);
  }

  /** The verifier's outer checks all pass, so what is left is its core on the prover's own data. */
  lemma OuterVerifierPasses(s: Suite, pk: Octets, b: BlindProof, header: Octets, ph: Octets, messages: seq<Octets>,
                            split: nat, choices: seq<Disclosure>, blind: Scalar)
    requires s.Valid()
    requires split <= |messages| == |choices|
    requires Sized(s.curve, b)
    requires |b.commitments| == |Chosen(choices, Commit)|
    requires var shown := ProofIndexes(Chosen(choices, Disclose), split);
             |b.proof.commitments| == |Complement(|messages| + 1, shown)| + |b.keys|
    ensures Below(Chosen(choices, Disclose), |messages|)
    ensures Below(ProofIndexes(Chosen(choices, Disclose), split), |messages| + 1)
    ensures BlindProofVerify(s, pk, BlindProofOctets(s.curve, b), header, ph, split,
                             Pick(messages, Chosen(choices, Disclose)), choices)
         == BlindCoreProofVerify(s, pk, BlindProofOctets(s.curve, b), AllGens(s, split, |messages|, |b.keys|), header, ph,
              Pick(WithBlind(MessageScalars(s, messages), split, blind), ProofIndexes(Chosen(choices, Disclose), split)),
              ProofIndexes(Chosen(choices, Disclose), split), ProofIndexes(Chosen(choices, Commit), split))
  {
    hide BlindCoreProofVerify, BlindProofOctets, DerivedGens, AllGens, Where, ProofIndexes, WithBlind, ReadU64, MessageScalars;
    BlindProofAnnounces(s.curve, b);
    ChosenIsBelow(choices, Disclose);
    DisclosedScalarsAgree(s, messages, Chosen(choices, Disclose), split, blind);
    DerivedGensValid(s, split, |messages|, |b.keys|);
    ValidSuiteHashes(s);
    var shown := ProofIndexes(Chosen(choices, Disclose), split);
    CountIsRecovered(choices, |b.keys|, |Complement(|messages| + 1, shown)|, split);
    CountMod(|b.proof.commitments|);
  }

  lemma CountMod(n: nat)
    ensures (PROOF_FLOOR + SCALAR_LENGTH * n - PROOF_FLOOR) % SCALAR_LENGTH == 0
    ensures (PROOF_FLOOR + SCALAR_LENGTH * n - PROOF_FLOOR) / SCALAR_LENGTH == n
  {
  }

  lemma RunSizes(s: Suite, gens: seq<Point>, messages: seq<Scalar>, shown: seq<nat>, committed: seq<nat>,
                 keys: seq<Point>, domain: Scalar, y: (Point, Point), v: ProverRun)
    requires s.Valid()
    requires RunFacts(s, gens, messages, shown, committed, keys, domain, y, v)
    ensures |gens| == |messages| + 1 + |keys| && |v.rKey| == |keys| && |v.randomized| == |keys|
    ensures v.randomized == s.curve.Randomized(keys, gens[|messages| + 1..], v.rKey)
    ensures |v.sHat| == |v.commitments| == |committed|
    ensures |v.proof.commitments| == |Complement(|messages|, shown)| + |keys|
    ensures |Complement(|messages|, shown)| + |shown| == |messages|
  {
    hide s.curve.SumProd, SignedPoint, Positions, Where;
    HiddenLengths(messages, shown, |keys|);
  }

  /** The pairing equation, and which trivial factors would make a proof point the identity. */
  lemma RunPairing(s: Suite, x: Scalar, gens: seq<Point>, messages: seq<Scalar>, shown: seq<nat>, committed: seq<nat>,
                   keys: seq<Point>, domain: Scalar, y: (Point, Point), v: ProverRun)
    requires s.Valid()
    requires RunFacts(s, gens, messages, shown, committed, keys, domain, y, v)
    requires x != s.curve.zero && v.sig.a != s.curve.identity && v.randoms[1] != s.curve.zero
    requires s.curve.Mul(v.sig.a, s.curve.SAdd(x, v.sig.e))
          == SignedPoint(s, gens[0], gens[1..|messages| + 1], messages, domain, keys)
    ensures s.curve.Mul(v.init.abar, x) == v.init.bbar
    ensures GoodProof(s.curve, v.proof) <==> v.randoms[0] != s.curve.zero && s.curve.SAdd(x, v.sig.e) != s.curve.zero
  {
    hide s.curve.SumProd, SignedPoint, Positions, Where;
    var c, b := s.curve, SignedPoint(s, gens[0], gens[1..|messages| + 1], messages, domain, keys);
    PairingAgrees(c, v.init, v.sig, x, b, v.randoms[0], v.randoms[1]);
    var t := c.SAdd(x, v.sig.e);
    if t == c.zero {
      c.MulZero(v.sig.a, t);
    } else {
      c.MulInverse(v.sig.a, t);
    }
  }

  function HiddenCount(choices: seq<Disclosure>): nat {
    ChosenIsBelow(choices, Disclose);
    |choices| + 1 - |Chosen(choices, Disclose)|
  }

  /** The last `k` of the scalars the first draw returns. */
  function KeyRandomizers(first: Stream, hidden: nat, k: nat): (r: seq<Scalar>)
    ensures |r| == k
  {
    Draw(first, 5 + hidden + 2 * k)[5 + hidden + k..]
  }

  /** A run of the core prover on a credential that holds, with everything the verifier will compare. */
  ghost predicate HonestRun(s: Suite, x: Scalar, pk: Octets, gens: seq<Point>, header: Octets, ph: Octets,
                            messages: seq<Scalar>, shown: seq<nat>, committed: seq<nat>, keys: seq<Point>,
                            first: Stream, v: ProverRun)
  {
    var c := s.curve;
    && ComDisGens(s).Ok?
    && RunFacts(s, gens, messages, shown, committed, keys, v.init.domain, ComDisGens(s).value, v)
    && CalculateDomain(s, pk, gens[0], gens[1..], header) == Ok(v.init.domain)
    && ProofChallenge(s, ChallengeInput(v.init, v.commitments, v.proofs, committed, v.randomized,
                                        Pick(messages, shown), shown, ph)) == Ok(v.challenge)
    && v.randoms[0] == first(0) && v.randoms[1] == first(1) && first(1) != c.zero
    && v.sig.a != c.identity
    && c.Mul(v.sig.a, c.SAdd(x, v.sig.e)) == SignedPoint(s, gens[0], gens[1..|messages| + 1], messages, v.init.domain, keys)
  }

  /** The core of completeness, on slots rather than messages. */
  lemma HonestRunAccepted(s: Suite, x: Scalar, pk: Octets, gens: seq<Point>, header: Octets, ph: Octets,
                          messages: seq<Scalar>, shown: seq<nat>, committed: seq<nat>, keys: seq<Point>,
                          first: Stream, v: ProverRun, sigs: seq<Octets>)
    requires s.Valid()
    requires s.curve.PublicKeyExponent(pk) == Ok(x)
    requires HonestRun(s, x, pk, gens, header, ph, messages, shown, committed, keys, first, v)
    requires PROOF_FLOOR + SCALAR_LENGTH * (|messages| + |keys|) < U64_LIMIT && |committed| < U64_LIMIT
    requires DeviceSigned(s.curve, gens[|messages| + 1..], keys, sigs, KeyChallenges(s.curve, v.randomized, v.challenge))
    ensures |sigs| == |v.rKey| && AdaptAll(s.curve, sigs, v.rKey).Ok?
    ensures var c, b := s.curve, ProofOfRun(v, AdaptAll(s.curve, sigs, v.rKey).value);
            var state := GenStateOctets(c, ProofOctets(c, v.proof), v.challenge, v.commitments, v.sHat, v.randomized, v.rKey);
            && Sized(c, b)
            && |v.commitments| == |committed| && |v.randomized| == |keys|
            && v.randomized == c.Randomized(keys, gens[|messages| + 1..], v.rKey)
            && |v.proof.commitments| == |Complement(|messages|, shown)| + |keys|
            && (BlindProofGenFinalize(s, state, sigs).Ok? <==>
                  v.challenge != c.zero && NoZero(c, v.rKey) && NoIdentity(c, v.randomized))
            && (BlindProofGenFinalize(s, state, sigs).Ok? ==>
                  && BlindProofGenFinalize(s, state, sigs) == Ok(BlindProofOctets(c, b))
                  && (BlindCoreProofVerify(s, pk, BlindProofOctets(c, b), gens, header, ph, Pick(messages, shown), shown, committed).Ok?
                      <==> first(0) != c.zero && c.SAdd(x, v.sig.e) != c.zero && NoIdentity(c, v.commitments)))
  {
    hide DomainOctets, SignedPoint, Where, ProofChallengeOctets, GenStateOctets, ProofOctets, BlindProofGenFinalize,
         BlindCoreProofVerify, KeyChallenges, s.curve.SumProd, s.curve.SumPoints, CalculateDomain, ProofChallenge,
         BlindProofOctets, AdaptAll, RunFacts, ComDisGens, NoIdentity, NoZero, GoodProof;
    var c, y := s.curve, ComDisGens(s).value;
    RunSizes(s, gens, messages, shown, committed, keys, v.init.domain, y, v);
    FinalizeForm(s, v, gens[|messages| + 1..], keys, sigs);
    RunPairing(s, x, gens, messages, shown, committed, keys, v.init.domain, y, v);
    CoreVerifierAcceptsIff(s, x, pk, gens, header, ph, messages, shown, committed, keys, v, AdaptAll(c, sigs, v.rKey).value);
  }

  /** A run of the prover on slots the outer call computes, for a signature that holds, is an honest run. */
  lemma RunIsHonest(s: Suite, x: Scalar, pk: Octets, signature: Octets, gens: seq<Point>, header: Octets, ph: Octets,
                    slots: seq<Scalar>, shown: seq<nat>, committed: seq<nat>, keys: seq<Point>, first: Stream, second: Stream,
                    v: ProverRun)
    requires s.Valid()
    requires RunProver(s, pk, signature, gens, header, ph, slots, shown, committed, keys, first, second) == Ok(v)
    requires |gens| == |slots| + 1 + |keys|
    requires CalculateDomain(s, pk, gens[0], gens[1..], header).Ok? && first(1) != s.curve.zero
    requires SignatureFromOctets(s.curve, signature).Ok?
    requires var sig, domain := SignatureFromOctets(s.curve, signature).value,
                                CalculateDomain(s, pk, gens[0], gens[1..], header).value;
             && sig.a != s.curve.identity
             && s.curve.Mul(sig.a, s.curve.SAdd(x, sig.e)) == SignedPoint(s, gens[0], gens[1..|slots| + 1], slots, domain, keys)
    ensures HonestRun(s, x, pk, gens, header, ph, slots, shown, committed, keys, first, v)
    ensures SignatureFromOctets(s.curve, signature) == Ok(v.sig)
    ensures v.rKey == KeyRandomizers(first, |Complement(|slots|, shown)|, |keys|)
    ensures |Complement(|slots|, shown)| + |shown| == |slots|
  {
    hide SignatureFromOctets, SignedPoint, RunProver, RunFacts, CalculateDomain, ProofChallenge, ComDisGens, Complement, Draw;
    RunHasFacts(s, pk, signature, gens, header, ph, slots, shown, committed, keys, first, second, v);
    RunSizes(s, gens, slots, shown, committed, keys, v.init.domain, ComDisGens(s).value, v);
    RandomsPrefix(first, |Complement(|slots|, shown)|, |keys|);
  }

  lemma InitIsHonestRun(s: Suite, x: Scalar, pk: Octets, signature: Octets, header: Octets, ph: Octets,
                        messages: seq<Octets>, split: nat, choices: seq<Disclosure>, keys: seq<Octets>, blind: Scalar,
                        first: Stream, second: Stream)
    returns (v: ProverRun)
    requires s.Valid()
    requires s.curve.PublicKeyExponent(pk) == Ok(x)
    requires Accepted(s, pk, signature, header, messages, split, keys, blind)
    requires |choices| == |messages|
    requires BlindProofGenInit(s, pk, signature, header, ph, messages, split, choices, keys, blind, first, second).Ok?
    ensures split <= |messages| && ParseKeys(s.curve, keys).Ok?
    ensures var c := s.curve;
            var out := BlindProofGenInit(s, pk, signature, header, ph, messages, split, choices, keys, blind, first, second).value;
            && HonestRun(s, x, pk, AllGens(s, split, |messages|, |keys|), header, ph,
                         WithBlind(MessageScalars(s, messages), split, blind),
                         ProofIndexes(Chosen(choices, Disclose), split), ProofIndexes(Chosen(choices, Commit), split),
                         ParseKeys(c, keys).value, first, v)
            && out.state == GenStateOctets(c, ProofOctets(c, v.proof), v.challenge, v.commitments, v.sHat, v.randomized, v.rKey)
            && out.keyChallenges == KeyChallenges(c, v.randomized, v.challenge)
            && Below(ProofIndexes(Chosen(choices, Commit), split), |messages| + 1) && out.blinds == v.blinds
            && out.committed == Pick(WithBlind(MessageScalars(s, messages), split, blind), ProofIndexes(Chosen(choices, Commit), split))
            && SignatureFromOctets(c, signature) == Ok(v.sig)
            && v.rKey == KeyRandomizers(first, HiddenCount(choices), |keys|)
  {
    hide SignatureFromOctets, DomainOctets, Generators, SignedPoint, ParseKeys, DerivedGens, Where, Draw,
         ProofChallengeOctets, VerifyBlindSign, RunProver, ProofIndexes, GenStateOctets, ProofOctets, WithBlind, RunFacts,
         KeyChallenges, Accepted, MessageScalars, AllGens, CalculateDomain, ProofChallenge, KeyGenerators, ComDisGens, HonestRun,
         KeyRandomizers;
    var c, k := s.curve, |keys|;
    AcceptedForm(s, x, pk, signature, header, messages, split, keys, blind);
    ValidSuiteHashes(s);
    DerivedGensValid(s, split, |messages|, k);
    var gens, pks := AllGens(s, split, |messages|, k), ParseKeys(c, keys).value;
    var shown, committed := ProofIndexes(Chosen(choices, Disclose), split), ProofIndexes(Chosen(choices, Commit), split);
    var slots := WithBlind(MessageScalars(s, messages), split, blind);
    v := RunProver(s, pk, signature, gens, header, ph, slots, shown, committed, pks, first, second).value;
    SlotsAreValid(choices, Disclose, split);
    SlotsAreValid(choices, Commit, split);
    SlotsAreDisjoint(choices, Commit, Disclose, split);
    RunStartsIff(s, pk, signature, gens, header, ph, slots, shown, committed, pks, first, second);
    RunIsHonest(s, x, pk, signature, gens, header, ph, slots, shown, committed, pks, first, second, v);
  }

  /** What the first half returns opens its commitments: the `i`-th committed message's scalar, under the blind
      beside it. */
  lemma OpeningsAreReturned(s: Suite, x: Scalar, pk: Octets, signature: Octets, header: Octets, ph: Octets,
                            messages: seq<Octets>, split: nat, choices: seq<Disclosure>, keys: seq<Octets>, blind: Scalar,
                            first: Stream, second: Stream, out: GenOutput)
    returns (v: ProverRun)
    requires s.Valid()
    requires s.curve.PublicKeyExponent(pk) == Ok(x)
    requires Accepted(s, pk, signature, header, messages, split, keys, blind)
    requires |choices| == |messages|
    requires BlindProofGenInit(s, pk, signature, header, ph, messages, split, choices, keys, blind, first, second) == Ok(out)
    ensures out.state == GenStateOctets(s.curve, ProofOctets(s.curve, v.proof), v.challenge, v.commitments, v.sHat, v.randomized, v.rKey)
    ensures |out.committed| == |out.blinds| == |v.commitments| == |Chosen(choices, Commit)| && Below(Chosen(choices, Commit), |messages|)
    ensures forall i :: 0 <= i < |out.committed| ==>
              && out.committed[i] == MessageScalar(s, messages[Chosen(choices, Commit)[i]])
              && v.commitments[i] == s.curve.Add(s.curve.Mul(Generator(s.curve, ComDisApi(s), 0), out.blinds[i]),
                                                 s.curve.Mul(Generator(s.curve, ComDisApi(s), 1), out.committed[i]))
  {
    hide SignatureFromOctets, DomainOctets, SignedPoint, ParseKeys, Where, BlindProofGenInit, ProofIndexes, GenStateOctets,
         ProofOctets, WithBlind, KeyChallenges, Accepted, MessageScalar, AllGens, KeyGenerators, Generator, s.curve.SumProd,
         s.curve.SumPoints, s.curve.Randomized, Positions, ProofChallengeOctets, Complement, Hashed, ScalarHash;
    v := InitIsHonestRun(s, x, pk, signature, header, ph, messages, split, choices, keys, blind, first, second);
    ValidSuiteHashes(s);
    ChosenIsBelow(choices, Commit);
    DisclosedScalarsAgree(s, messages, Chosen(choices, Commit), split, blind);
  }

  lemma GensTail(s: Suite, split: nat, l: nat, k: nat)
    requires split <= l
    ensures AllGens(s, split, l, k)[l + 2..] == KeyGenerators(s, k)
  {
  }

  /** Presentation, end to end: for every credential the wallet has accepted, every choice to
      disclose, hide or commit each message, every split and every number of keys. With honest device
      signatures the second half goes through exactly when the challenge, the key randomizers and
      the randomized keys are not trivial, and the verifier then accepts exactly when `r1`,
      `SK + e` and the commitments are not trivial either. `v` is the run of the first half. */
  lemma PresentationComplete(s: Suite, x: Scalar, pk: Octets, signature: Octets, header: Octets, ph: Octets,
                             messages: seq<Octets>, split: nat, choices: seq<Disclosure>, keys: seq<Octets>,
                             pks: seq<Point>, blind: Scalar, first: Stream, second: Stream, out: GenOutput, sigs: seq<Octets>)
    returns (v: ProverRun)
    requires s.Valid()
    requires s.curve.PublicKeyExponent(pk) == Ok(x)
    requires Accepted(s, pk, signature, header, messages, split, keys, blind)
    requires |choices| == |messages| && FitsWire(|messages|, |keys|)
    requires ParseKeys(s.curve, keys) == Ok(pks)
    requires BlindProofGenInit(s, pk, signature, header, ph, messages, split, choices, keys, blind, first, second) == Ok(out)
    requires DeviceSigned(s.curve, KeyGenerators(s, |keys|), pks, sigs, out.keyChallenges)
    ensures out.state == GenStateOctets(s.curve, ProofOctets(s.curve, v.proof), v.challenge, v.commitments, v.sHat, v.randomized, v.rKey)
    ensures SignatureFromOctets(s.curve, signature) == Ok(v.sig)
    ensures out.keyChallenges == KeyChallenges(s.curve, v.randomized, v.challenge)
    ensures v.rKey == KeyRandomizers(first, HiddenCount(choices), |keys|)
    ensures |keys| == |pks| && |v.sHat| == |v.commitments| == |Chosen(choices, Commit)|
    ensures v.randomized == s.curve.Randomized(pks, KeyGenerators(s, |keys|), v.rKey)
    ensures BlindProofGenFinalize(s, out.state, sigs).Ok? <==>
            v.challenge != s.curve.zero && NoZero(s.curve, v.rKey) && NoIdentity(s.curve, v.randomized)
    ensures Below(Chosen(choices, Disclose), |messages|)
    ensures BlindProofGenFinalize(s, out.state, sigs).Ok? ==>
              (BlindProofVerify(s, pk, BlindProofGenFinalize(s, out.state, sigs).value, header, ph, split,
                                Pick(messages, Chosen(choices, Disclose)), choices).Ok?
               <==> first(0) != s.curve.zero && s.curve.SAdd(x, v.sig.e) != s.curve.zero && NoIdentity(s.curve, v.commitments))
  {
    hide SignatureFromOctets, Generators, ParseKeys, Where, BlindProofGenInit, Draw, ProofIndexes, GenStateOctets, ProofOctets,
         WithBlind, BlindProofGenFinalize, BlindProofVerify, BlindCoreProofVerify, KeyChallenges, Accepted, MessageScalars,
         BlindProofOctets, KeyGenerators, AdaptAll, HonestRun, NoIdentity, NoZero, DeviceSigned, AllGens;
    v := InitIsHonestRun(s, x, pk, signature, header, ph, messages, split, choices, keys, blind, first, second);
    var c, k, gens := s.curve, |keys|, AllGens(s, split, |messages|, |keys|);
    GensTail(s, split, |messages|, k);
    ChosenIsBelow(choices, Commit);
    ChosenIsBelow(choices, Disclose);
    HonestRunAccepted(s, x, pk, gens, header, ph, WithBlind(MessageScalars(s, messages), split, blind),
                      ProofIndexes(Chosen(choices, Disclose), split), ProofIndexes(Chosen(choices, Commit), split),
                      pks, first, v, sigs);
    OuterVerifierPasses(s, pk, ProofOfRun(v, AdaptAll(c, sigs, v.rKey).value), header, ph, messages, split, choices, blind);
  }
}
