/** What the issuer and the verifier accept, over all octet strings (`src/blind.rs`): exactly the encodings of
    commitments and proofs whose every equation holds. */
module Acceptance {
  import opened Wrappers
  import opened Octets
  import opened Curves
  import opened Serialize
  import opened Suites
  import opened Indexes
  import opened Bbs
  import opened CommitWire
  import opened ProofWire
  import opened Issuance
  import opened IssuanceTheorems
  import opened Presentation
  import opened Layout
  import opened PresentationTheorems
  import opened ChallengeInputs
  import Keybind

  /** Each signature proves, on its generator, the key it stands for, and is bound to its message. */
  ghost predicate AllProve(c: Curve, gens: seq<Point>, keys: seq<Point>, sigs: seq<Octets>, msgs: seq<Octets>) {
    && |gens| == |keys| == |sigs| == |msgs|
    && forall i :: 0 <= i < |keys| ==> Keybind.ProvesKey(c, gens[i], keys[i], sigs[i], msgs[i])
  }

  lemma AllProveIff(c: Curve, gens: seq<Point>, keys: seq<Point>, sigs: seq<Octets>, msgs: seq<Octets>)
    requires c.Laws()
    requires |gens| == |keys| == |sigs| == |msgs|
    ensures VerifyAll(c, gens, keys, sigs, msgs).Ok? <==> AllProve(c, gens, keys, sigs, msgs)
  {
    hide Keybind.Verify, Keybind.ProvesKey;
    VerifyAllIff(c, gens, keys, sigs, msgs);
    forall i | 0 <= i < |keys|
      ensures Keybind.Verify(c, gens[i], keys[i], sigs[i], msgs[i]).Ok? <==> Keybind.ProvesKey(c, gens[i], keys[i], sigs[i], msgs[i])
    {
      Keybind.VerifyIff(c, gens[i], keys[i], sigs[i], msgs[i]);
    }
  }

  lemma HashedIs(s: Suite, o: Octets)
    requires s.Valid()
    ensures HashToScalar(s, o, H2S) == Ok(Hashed(s.curve, o, s.apiId + Ascii("H2S_")))
  {
    hide Uniform;
    ValidSuiteHashes(s);
  }

  // ---- The issuer ----

  /** `Cbar`: what the responses open to, less the commitment times the challenge. */
  ghost function ImpliedCbar(s: Suite, x: CommitProof): Point {
    var c, g := s.curve, BlindGens(s, |x.mHat|);
    c.Sub(c.SumProd(g[1..] + [g[0]], x.mHat + [x.sHat]), c.Mul(x.c, x.challenge))
  }

  ghost function CommitGens(s: Suite, x: CommitProof): seq<Point> {
    BlindGens(s, |x.mHat|) + KeyGenerators(s, |x.keys|)
  }

  /** The challenge is the hash of the commitment, the implied `Cbar`, the generators and the keys; and every
      device signature proves its key over the challenge's octets. */
  ghost predicate CommitmentHolds(s: Suite, x: CommitProof) {
    && x.challenge == Hashed(s.curve, BlindChallengeOctets(s.curve, x.c, ImpliedCbar(s, x), CommitGens(s, x), x.keys),
                             s.apiId + Ascii("H2S_"))
    && AllProve(s.curve, KeyGenerators(s, |x.keys|), x.keys, x.sigs, Repeat(s.curve.ScalarOctets(x.challenge), |x.keys|))
  }

  /** `o` encodes the commitment `x`, no part of it trivial, and it holds. */
  ghost predicate Commits(s: Suite, o: Octets, x: CommitProof) {
    GoodCommitProof(s.curve, x) && o == CommitProofOctets(s.curve, x) && CommitmentHolds(s, x)
  }

  lemma CoreCommitVerifyIff(s: Suite, x: CommitProof)
    requires s.Valid() && |x.sigs| == |x.keys|
    ensures CoreCommitVerify(s, x, CommitGens(s, x)).Ok? <==> CommitmentHolds(s, x)
  {
    hide BlindChallengeOctets, VerifyAll, AllProve, s.curve.SumProd, Uniform, Generators, KeyGenerators, RecomputedCbar;
    var c, m, k, gens := s.curve, |x.mHat|, |x.keys|, CommitGens(s, x);
    assert gens[..m + 1] == BlindGens(s, m) && gens[m + 1..] == KeyGenerators(s, k);
    CbarAsDifference(c, CommitBases(BlindGens(s, m)), x.c, x.mHat, x.sHat, x.challenge);
    HashedIs(s, BlindChallengeOctets(c, x.c, ImpliedCbar(s, x), gens, x.keys));
    AllProveIff(c, KeyGenerators(s, k), x.keys, x.sigs, Repeat(c.ScalarOctets(x.challenge), k));
  }

  /** Of all octet strings the issuer's check passes exactly the commitments that hold, and hands on the
      commitment, the keys and the generators. */
  lemma ValidateCommitIff(s: Suite, o: Octets)
    requires s.Valid()
    ensures ValidateCommit(s, o).Ok? <==> exists x :: Commits(s, o, x)
    ensures forall x :: Commits(s, o, x) ==> ValidateCommit(s, o) == Ok(Validated(x.c, x.keys, CommitGens(s, x)))
  {
    hide CommitProofFromOctets, CommitProofOctets, CoreCommitVerify, CommitmentHolds, Generators, KeyGenerators, KeybindGenerators;
    ValidSuiteHashes(s);
    forall x | GoodCommitProof(s.curve, x) && o == CommitProofOctets(s.curve, x)
      ensures CommitProofFromOctets(s.curve, o) == Ok(x)
      ensures CommitmentHolds(s, x) <==> ValidateCommit(s, o) == Ok(Validated(x.c, x.keys, CommitGens(s, x)))
      ensures CommitmentHolds(s, x) <==> ValidateCommit(s, o).Ok?
    {
      CommitProofFromOctetsIff(s.curve, o, x);
      CoreCommitVerifyIff(s, x);
    }
    if ValidateCommit(s, o).Ok? {
      var x := CommitProofFromOctets(s.curve, o).value;
      CommitProofFromOctetsIff(s.curve, o, x);
      assert Commits(s, o, x);
    }
  }

  /** Of all states and signatures the wallet's second step takes exactly a state with no trivial part and as many
      signatures as keys, and writes the commitment of both. */
  lemma CommitFinalizeIs(s: Suite, state: Octets, sigs: seq<Octets>)
    requires s.Valid()
    ensures CommitFinalize(s, state, sigs).Ok? <==>
            exists st :: GoodState(s.curve, st) && state == StateOctets(s.curve, st) && |sigs| == |st.keys|
    ensures forall st :: GoodState(s.curve, st) && state == StateOctets(s.curve, st) && |sigs| == |st.keys| ==>
              CommitFinalize(s, state, sigs)
              == Ok(CommitProofOctets(s.curve, CommitProof(st.c, st.keys, st.sHat, st.mHat, st.challenge, sigs)))
  {
    hide StateFromOctets, StateOctets, CommitProofOctets, GoodState;
    forall st | GoodState(s.curve, st) && state == StateOctets(s.curve, st) ensures StateFromOctets(s.curve, state) == Ok(st) {
      StateFromOctetsIff(s.curve, state, st);
    }
    if StateFromOctets(s.curve, state).Ok? {
      StateFromOctetsIff(s.curve, state, StateFromOctets(s.curve, state).value);
    }
  }

  /** The point the issuer signs: its own messages on its generators, the commitment, and the keys. */
  ghost function IssuersPoint(s: Suite, pk: Octets, x: CommitProof, header: Octets, messages: seq<Octets>): Point {
    var c, g := s.curve, SignerGens(s, |messages|);
    var domain := Hashed(c, DomainOctets(s, pk, g[0], g[1..] + CommitGens(s, x), header), s.apiId + Ascii("H2S_"));
    c.Add(c.Add(c.Add(s.p1, c.Mul(g[0], domain)), c.SumProd(g[1..], MessageScalars(s, messages))),
          c.Add(x.c, c.SumPoints(x.keys)))
  }

  lemma BCalculateIs(s: Suite, pk: Octets, x: CommitProof, header: Octets, messages: seq<Octets>)
    requires s.Valid()
    ensures var b := IssuersPoint(s, pk, x, header, messages);
            BCalculate(s, pk, SignerGens(s, |messages|), CommitGens(s, x), s.curve.Add(x.c, s.curve.SumPoints(x.keys)),
                       MessageScalars(s, messages), header)
            == if b == s.curve.identity then Err(InvalidPoint) else Ok(b)
  {
    hide DomainOctets, s.curve.SumProd, s.curve.SumPoints, Uniform, Generators, KeyGenerators, MessageScalars;
    var g, rest := SignerGens(s, |messages|), CommitGens(s, x);
    assert g[1..] + [rest[0]] + rest[1..] == g[1..] + rest;
    var o := DomainOctets(s, pk, g[0], g[1..] + rest, header);
    HashedIs(s, o);
    SumProdFour(s.curve, s.p1, g[0], g[1..], s.curve.Add(x.c, s.curve.SumPoints(x.keys)), Hashed(s.curve, o, s.apiId + Ascii("H2S_")),
                MessageScalars(s, messages));
  }

  /** The issuer signs exactly what holds: over all octet strings, a signature is made if and only if they encode a
      commitment that holds, the point is not the identity and `SK + e` is not zero. */
  lemma BlindSignIff(s: Suite, sk: Scalar, pk: Octets, o: Octets, header: Octets, messages: seq<Octets>)
    requires s.Valid()
    ensures BlindSign(s, sk, pk, o, header, messages).Ok? <==>
            exists x :: && Commits(s, o, x) && IssuersPoint(s, pk, x, header, messages) != s.curve.identity
                        && s.curve.SAdd(sk, SignerScalar(s, sk, IssuersPoint(s, pk, x, header, messages))) != s.curve.zero
  {
    hide ValidateCommit, BCalculate, FinalizeBlindSign, Generators, KeyGenerators, s.curve.SumPoints, Commits, IssuersPoint,
         SignerScalar;
    ValidateCommitIff(s, o);
    ValidSuiteHashes(s);
    forall x | Commits(s, o, x)
      ensures BlindSign(s, sk, pk, o, header, messages).Ok? <==>
              && IssuersPoint(s, pk, x, header, messages) != s.curve.identity
              && s.curve.SAdd(sk, SignerScalar(s, sk, IssuersPoint(s, pk, x, header, messages))) != s.curve.zero
    {
      BCalculateIs(s, pk, x, header, messages);
      if IssuersPoint(s, pk, x, header, messages) != s.curve.identity {
        SignatureIsReadableIff(s, sk, IssuersPoint(s, pk, x, header, messages));
      }
    }
  }

  /** The quotients of the responses of `x` and `x'` open the commitment of `x`. */
  ghost predicate QuotientsOpen(s: Suite, x: CommitProof, x': CommitProof) {
    hide *;
    && |x.mHat| == |x'.mHat|
    && x.c == s.curve.SumProd(CommitBases(BlindGens(s, |x.mHat|)),
                              s.curve.Quotients(x.mHat + [x.sHat], x'.mHat + [x'.sHat],
                                                s.curve.PerDifference(x.challenge, x'.challenge)))
  }

  /** Two commitments the issuer accepts, for one point and one implied `Cbar` but with different challenges, give
      away an opening: the quotients of their responses. */
  lemma AcceptedCommitmentsExtract(s: Suite, o: Octets, o': Octets, x: CommitProof, x': CommitProof)
    requires s.Valid()
    requires Commits(s, o, x) && Commits(s, o', x')
    requires x.c == x'.c && |x.mHat| == |x'.mHat| && ImpliedCbar(s, x) == ImpliedCbar(s, x') && x.challenge != x'.challenge
    ensures ValidateCommit(s, o).Ok? && ValidateCommit(s, o').Ok?
    ensures QuotientsOpen(s, x, x')
  {
    hide ValidateCommit, CommitmentHolds, s.curve.SumProd, Generators, RecomputedCbar, GoodCommitProof, CommitProofOctets;
    ValidateCommitIff(s, o);
    ValidateCommitIff(s, o');
    var bases := CommitBases(BlindGens(s, |x.mHat|));
    CbarAsDifference(s.curve, bases, x.c, x.mHat, x.sHat, x.challenge);
    CbarAsDifference(s.curve, bases, x.c, x'.mHat, x'.sHat, x'.challenge);
    CommitmentExtracts(s.curve, bases, x.c, x.mHat, x.sHat, x.challenge, x'.mHat, x'.sHat, x'.challenge);
  }

  // ---- The wallet checks a signature ----

  /** The point the holder expects to be signed: all messages with the blind at the split, and the keys. */
  ghost function HoldersPoint(s: Suite, pk: Octets, header: Octets, messages: seq<Octets>, split: nat, keys: seq<Point>,
                              blind: Scalar): Point
    requires split <= |messages|
  {
    hide DomainOctets, AllGens, MessageScalars, s.curve.SumProd, s.curve.SumPoints, Hashed;
    var c, l, gens := s.curve, |messages|, AllGens(s, split, |messages|, |keys|);
    var scalars := MessageScalars(s, messages);
    var domain := Hashed(c, DomainOctets(s, pk, gens[0], gens[1..], header), s.apiId + Ascii("H2S_"));
    c.Add(c.Add(c.Add(s.p1, c.Mul(gens[0], domain)), c.SumProd(gens[1..l + 2], scalars[..split] + [blind] + scalars[split..])),
          c.SumPoints(keys))
  }

  /** `o` encodes a signature with no trivial part, and `A * (x + e)` is the point. */
  ghost predicate Signs(c: Curve, x: Scalar, o: Octets, point: Point) {
    exists sig: Signature :: && o == c.compressed(sig.a) + c.ScalarOctets(sig.e) && sig.a != c.identity && sig.e != c.zero
                             && c.Mul(sig.a, c.SAdd(x, sig.e)) == point
  }

  lemma SignsIff(c: Curve, x: Scalar, o: Octets, point: Point)
    requires c.Laws()
    ensures Signs(c, x, o, point) <==>
            && SignatureFromOctets(c, o).Ok?
            && var sig := SignatureFromOctets(c, o).value; c.Mul(sig.a, c.SAdd(x, sig.e)) == point
  {
    hide SignatureFromOctets;
    forall sig: Signature ensures SignatureOctets(c, sig) == c.compressed(sig.a) + c.ScalarOctets(sig.e) {
      SerTwo(c, G1(sig.a), Scl(sig.e));
    }
    if SignatureFromOctets(c, o).Ok? {
      var sig := SignatureFromOctets(c, o).value;
      SignatureFromOctetsIff(c, o, sig);
    }
    if Signs(c, x, o, point) {
      var sig: Signature :| && o == c.compressed(sig.a) + c.ScalarOctets(sig.e) && sig.a != c.identity && sig.e != c.zero
                            && c.Mul(sig.a, c.SAdd(x, sig.e)) == point;
      SignatureFromOctetsIff(c, o, sig);
    }
  }

  /** The holder accepts exactly signatures of the point it expects, over all inputs. */
  lemma VerifyBlindSignIff(s: Suite, pk: Octets, o: Octets, header: Octets, messages: seq<Octets>, split: nat,
                           keys: seq<Octets>, blind: Scalar)
    requires s.Valid()
    ensures VerifyBlindSign(s, pk, o, header, messages, split, keys, blind).Ok? <==>
            && split <= |messages| && ParseKeys(s.curve, keys).Ok? && s.curve.PublicKeyExponent(pk).Ok?
            && Signs(s.curve, s.curve.PublicKeyExponent(pk).value, o,
                     HoldersPoint(s, pk, header, messages, split, ParseKeys(s.curve, keys).value, blind))
  {
    hide SignatureFromOctets, DomainOctets, Generators, KeyGenerators, ParseKeys, Signs, DerivedGens, AllGens, MessageScalars,
         s.curve.SumProd, s.curve.SumPoints, BlindCoreVerify, Hashed;
    HolderNeeds(s, pk, o, header, messages, split, keys, blind);
    if split <= |messages| && ParseKeys(s.curve, keys).Ok? && s.curve.PublicKeyExponent(pk).Ok? {
      var gens, x := AllGens(s, split, |messages|, |keys|), s.curve.PublicKeyExponent(pk).value;
      HashedIs(s, DomainOctets(s, pk, gens[0], gens[1..], header));
      HolderAcceptsIff(s, x, pk, o, header, messages, split, keys, blind,
                       Hashed(s.curve, DomainOctets(s, pk, gens[0], gens[1..], header), s.apiId + Ascii("H2S_")));
      SignsIff(s.curve, x, o, HoldersPoint(s, pk, header, messages, split, ParseKeys(s.curve, keys).value, blind));
    }
  }

  lemma HolderNeeds(s: Suite, pk: Octets, o: Octets, header: Octets, messages: seq<Octets>, split: nat,
                    keys: seq<Octets>, blind: Scalar)
    ensures VerifyBlindSign(s, pk, o, header, messages, split, keys, blind).Ok? ==>
              split <= |messages| && ParseKeys(s.curve, keys).Ok? && s.curve.PublicKeyExponent(pk).Ok?
  {
    hide SignatureFromOctets, CalculateDomain, DerivedGens, ParseKeys, SignedPoint, MessagesToScalars;
  }

  // ---- The wallet finishes a proof ----

  lemma {:induction false} AdaptAllIff(c: Curve, sigs: seq<Octets>, rKey: seq<Scalar>)
    requires c.Laws() && |sigs| == |rKey|
    ensures AdaptAll(c, sigs, rKey).Ok? <==> forall i :: 0 <= i < |sigs| ==> Keybind.Parse(c, sigs[i]).Ok?
  {
    hide Keybind.Parse;
    if sigs != [] {
      var n := |sigs| - 1;
      AdaptAllIff(c, sigs[..n], rKey[..n]);
      AdaptsWhenParsed(c, sigs[n], rKey[n]);
    }
  }

  lemma AdaptsWhenParsed(c: Curve, sig: Octets, r: Scalar)
    ensures Keybind.AdaptSig(c, sig, r).Ok? <==> Keybind.Parse(c, sig).Ok?
  {
  }

  /** The second half goes through exactly for a readable state, one signature per key, and signatures that are all
      pairs of scalars. */
  lemma ProofFinalizeIff(s: Suite, state: Octets, sigs: seq<Octets>)
    requires s.Valid()
    ensures BlindProofGenFinalize(s, state, sigs).Ok? <==>
            exists g :: && GenStateFromOctets(s.curve, state) == Ok(g) && |sigs| == |g.keys| == |g.rKey|
                        && forall i :: 0 <= i < |sigs| ==> Keybind.Parse(s.curve, sigs[i]).Ok?
  {
    hide GenStateFromOctets, AdaptAll, Completed, Keybind.Parse;
    var g := GenStateFromOctets(s.curve, state);
    if g.Ok? && |sigs| == |g.value.rKey| {
      AdaptAllIff(s.curve, sigs, g.value.rKey);
    }
  }

  // ---- The verifier ----

  /** The counts agree, and both index lists are strictly increasing, in range and apart. */
  ghost predicate Fits(b: BlindProof, gens: seq<Point>, disclosed: seq<Scalar>, shown: seq<nat>, committed: seq<nat>) {
    && |b.sHat| == |b.commitments| == |committed| && |disclosed| == |shown| && |b.sigs| == |b.keys| <= |gens|
    && |gens| == |shown| + |b.proof.commitments| + 1
    && Increasing(shown) && Below(shown, |gens| - 1) && Increasing(committed) && Below(committed, |gens| - 1)
    && Disjoint(committed, shown)
  }

  lemma FitsHides(b: BlindProof, gens: seq<Point>, disclosed: seq<Scalar>, shown: seq<nat>, committed: seq<nat>)
    requires Fits(b, gens, disclosed, shown, committed)
    ensures var ji := Complement(|gens| - 1, shown);
            Below(ji, |gens| - 1) && |ji| == |b.proof.commitments| && Positions(ji, committed).Ok?
  {
    hide Complement;
    var l := |gens| - 1;
    ComplementIsBelow(l, shown);
    HiddenSlotsWithKeys(l, 0, shown);
    CommittedAreHidden(l, shown, committed);
  }

  /** What the verifier hashes, computed from the proof and what it was told. */
  ghost function Implied(s: Suite, pk: Octets, b: BlindProof, gens: seq<Point>, header: Octets, ph: Octets,
                         disclosed: seq<Scalar>, shown: seq<nat>, committed: seq<nat>): (t: ChallengeInput)
    requires Fits(b, gens, disclosed, shown, committed)
    ensures t.Consistent()
  {
    hide Complement, Positions, DisclosedB, VerifierT1, VerifierT2, Hashed, DomainOctets, Generator, s.curve.SumPoints, ComDisApi;
    FitsHides(b, gens, disclosed, shown, committed);
    var c, p, q1, hs := s.curve, b.proof, gens[0], gens[1..];
    var y := (Generator(c, ComDisApi(s), 0), Generator(c, ComDisApi(s), 1));
    var ji := Complement(|hs|, shown);
    var domain := Hashed(c, DomainOctets(s, pk, q1, hs, header), s.apiId + Ascii("H2S_"));
    var t2 := c.Add(VerifierT2(c, p, DisclosedB(s, q1, hs, domain, disclosed, shown), Pick(hs, ji)),
                    c.Mul(c.SumPoints(b.keys), p.challenge));
    var answers := Pick(p.commitments, Positions(ji, committed).value);
    ChallengeInput(InitResult(p.abar, p.bbar, p.d, VerifierT1(c, p), t2, domain), b.commitments,
                   RecomputedProofs(c, y, b.sHat, answers, b.commitments, p.challenge), committed, b.keys, disclosed, shown, ph)
  }

  lemma ComDisGensAre(s: Suite)
    requires s.Valid()
    ensures ComDisGens(s) == Ok((Generator(s.curve, ComDisApi(s), 0), Generator(s.curve, ComDisApi(s), 1)))
  {
    hide Generator;
    ValidSuiteHashes(s);
  }

  lemma InputFits(s: Suite, pk: Octets, b: BlindProof, gens: seq<Point>, header: Octets, ph: Octets,
                  disclosed: seq<Scalar>, shown: seq<nat>, committed: seq<nat>)
    requires |b.keys| <= |gens|
    requires VerifierInput(s, pk, b, gens, header, ph, disclosed, shown, committed).Ok?
    ensures Fits(b, gens, disclosed, shown, committed)
  {
    hide Complement, Positions, s.curve.SumPoints, CheckIndexes, RecomputedProofs, ProofVerifyInit, ComDisGens, Pick, s.curve.Add,
         s.curve.Mul, Increasing, Below, Disjoint;
    CheckIndexesIff(committed, |shown| + |b.proof.commitments|);
    CheckIndexesIff(shown, |shown| + |b.proof.commitments|);
  }

  lemma InputIsImplied(s: Suite, pk: Octets, b: BlindProof, gens: seq<Point>, header: Octets, ph: Octets,
                       disclosed: seq<Scalar>, shown: seq<nat>, committed: seq<nat>)
    requires s.Valid()
    requires Fits(b, gens, disclosed, shown, committed)
    ensures VerifierInput(s, pk, b, gens, header, ph, disclosed, shown, committed)
         == Ok(Implied(s, pk, b, gens, header, ph, disclosed, shown, committed))
  {
    hide Complement, Positions, DisclosedB, VerifierT1, VerifierT2, DomainOctets, Generator, s.curve.SumPoints, CheckIndexes,
         RecomputedProofs, Hashed, ComDisGens, ProofVerifyInit, s.curve.Add, ComDisApi, HashToScalar;
    var l := |gens| - 1;
    CheckIndexesIff(committed, l);
    CheckIndexesIff(shown, l);
    ComDisGensAre(s);
    HashedIs(s, DomainOctets(s, pk, gens[0], gens[1..], header));
    FitsHides(b, gens, disclosed, shown, committed);
    VerifyInitIs(s, pk, b.proof, gens, header, disclosed, shown, l,
                 Hashed(s.curve, DomainOctets(s, pk, gens[0], gens[1..], header), s.apiId + Ascii("H2S_")));
  }

  /** A proof holds for what the verifier was told: its challenge is the hash of the implied input; every device
      signature proves its randomized key, on the generator in the key's place, over the digest of that key and
      the challenge; and `Abar * x == Bbar` for the public key's exponent. */
  ghost predicate ProofHolds(s: Suite, x: Scalar, pk: Octets, b: BlindProof, gens: seq<Point>, header: Octets, ph: Octets,
                             disclosed: seq<Scalar>, shown: seq<nat>, committed: seq<nat>)
  {
    hide *;
    var c, k, cp := s.curve, |b.keys|, b.proof.challenge;
    && Fits(b, gens, disclosed, shown, committed)
    && cp == Hashed(c, ProofChallengeOctets(c, Implied(s, pk, b, gens, header, ph, disclosed, shown, committed)),
                    s.apiId + Ascii("H2S_"))
    && DevicesProve(c, gens, b)
    && c.Mul(b.proof.abar, x) == b.proof.bbar
  }

  ghost predicate DevicesProve(c: Curve, gens: seq<Point>, b: BlindProof) {
    && |b.sigs| == |b.keys| <= |gens|
    && forall i :: 0 <= i < |b.keys| ==>
         Keybind.ProvesKey(c, gens[|gens| - |b.keys| + i], b.keys[i], b.sigs[i],
                           c.sha256(c.compressed(b.keys[i]) + c.ScalarOctets(b.proof.challenge)))
  }

  lemma DevicesProveIff(c: Curve, gens: seq<Point>, b: BlindProof)
    requires c.Laws()
    requires |b.sigs| == |b.keys| <= |gens|
    ensures VerifyAll(c, gens[|gens| - |b.keys|..], b.keys, b.sigs, KeyChallenges(c, b.keys, b.proof.challenge)).Ok?
            <==> DevicesProve(c, gens, b)
  {
    hide VerifyAll, KeyChallenge, Keybind.ProvesKey;
    var k := |b.keys|;
    var own, msgs := gens[|gens| - k..], KeyChallenges(c, b.keys, b.proof.challenge);
    AllProveIff(c, own, b.keys, b.sigs, msgs);
    forall i | 0 <= i < k
      ensures own[i] == gens[|gens| - k + i] && msgs[i] == c.sha256(c.compressed(b.keys[i]) + c.ScalarOctets(b.proof.challenge))
    {
      KeyChallengesCollide(c, b.keys[i], b.proof.challenge, b.keys[i], b.proof.challenge);
    }
  }

  lemma ImpliedChallenge(s: Suite, t: ChallengeInput)
    requires s.Valid() && t.Consistent()
    ensures ProofChallenge(s, t) == Ok(Hashed(s.curve, ProofChallengeOctets(s.curve, t), s.apiId + Ascii("H2S_")))
  {
    hide ProofChallengeOctets;
    HashedIs(s, ProofChallengeOctets(s.curve, t));
  }

  /** A readable proof is accepted exactly when it holds. */
  lemma ReadProofAcceptedIff(s: Suite, pk: Octets, o: Octets, b: BlindProof, gens: seq<Point>, header: Octets, ph: Octets,
                             disclosed: seq<Scalar>, shown: seq<nat>, committed: seq<nat>)
    requires s.Valid() && s.curve.PublicKeyExponent(pk).Ok?
    requires BlindProofFromOctets(s.curve, o) == Ok(b) && |b.keys| <= |gens|
    ensures BlindCoreProofVerify(s, pk, o, gens, header, ph, disclosed, shown, committed).Ok? <==>
            ProofHolds(s, s.curve.PublicKeyExponent(pk).value, pk, b, gens, header, ph, disclosed, shown, committed)
  {
    hide BlindProofFromOctets, VerifierInput, ProofChallenge, VerifyAll, KeyChallenges, ComDisGens, Implied, DevicesProve,
         ProofChallengeOctets, Hashed, Fits;
    ComDisGensAre(s);
    if VerifierInput(s, pk, b, gens, header, ph, disclosed, shown, committed).Ok? {
      InputFits(s, pk, b, gens, header, ph, disclosed, shown, committed);
    }
    if Fits(b, gens, disclosed, shown, committed) {
      FitsCounts(b, gens, disclosed, shown, committed);
      InputIsImplied(s, pk, b, gens, header, ph, disclosed, shown, committed);
      ImpliedChallenge(s, Implied(s, pk, b, gens, header, ph, disclosed, shown, committed));
      DevicesProveIff(s.curve, gens, b);
    }
  }

  lemma FitsCounts(b: BlindProof, gens: seq<Point>, disclosed: seq<Scalar>, shown: seq<nat>, committed: seq<nat>)
    ensures Fits(b, gens, disclosed, shown, committed) ==> |b.sigs| == |b.keys| <= |gens|
  {
  }

  /** `o` encodes the proof `b`, no part of it malformed. */
  ghost predicate Encodes(c: Curve, o: Octets, b: BlindProof) {
    GoodBlindProof(c, b) && o == BlindProofOctets(c, b)
  }

  /** Of all octet strings the core verifier accepts exactly the encodings of proofs that hold. */
  lemma CoreAcceptsIff(s: Suite, pk: Octets, o: Octets, gens: seq<Point>, header: Octets, ph: Octets,
                       disclosed: seq<Scalar>, shown: seq<nat>, committed: seq<nat>)
    requires s.Valid()
    ensures BlindCoreProofVerify(s, pk, o, gens, header, ph, disclosed, shown, committed).Ok? <==>
            && s.curve.PublicKeyExponent(pk).Ok?
            && exists b :: Encodes(s.curve, o, b)
                           && ProofHolds(s, s.curve.PublicKeyExponent(pk).value, pk, b, gens, header, ph, disclosed, shown, committed)
  {
    hide BlindCoreProofVerify, ProofHolds, BlindProofFromOctets, BlindProofOctets;
    CoreNeeds(s, pk, o, gens, header, ph, disclosed, shown, committed);
    forall b | Encodes(s.curve, o, b) ensures BlindProofFromOctets(s.curve, o) == Ok(b) {
      BlindProofFromOctetsIff(s.curve, o, b);
    }
    if s.curve.PublicKeyExponent(pk).Ok? && BlindProofFromOctets(s.curve, o).Ok? {
      var b := BlindProofFromOctets(s.curve, o).value;
      BlindProofFromOctetsIff(s.curve, o, b);
      HoldingFits(s, s.curve.PublicKeyExponent(pk).value, pk, b, gens, header, ph, disclosed, shown, committed);
      if |b.keys| <= |gens| {
        ReadProofAcceptedIff(s, pk, o, b, gens, header, ph, disclosed, shown, committed);
      }
      assert Encodes(s.curve, o, b);
    }
  }

  lemma HoldingFits(s: Suite, x: Scalar, pk: Octets, b: BlindProof, gens: seq<Point>, header: Octets, ph: Octets,
                    disclosed: seq<Scalar>, shown: seq<nat>, committed: seq<nat>)
    ensures ProofHolds(s, x, pk, b, gens, header, ph, disclosed, shown, committed) ==> Fits(b, gens, disclosed, shown, committed)
    ensures Fits(b, gens, disclosed, shown, committed) ==> |b.keys| <= |gens|
  {
    hide Implied, DevicesProve;
  }

  lemma CoreNeeds(s: Suite, pk: Octets, o: Octets, gens: seq<Point>, header: Octets, ph: Octets,
                  disclosed: seq<Scalar>, shown: seq<nat>, committed: seq<nat>)
    ensures BlindCoreProofVerify(s, pk, o, gens, header, ph, disclosed, shown, committed).Ok? ==>
              && s.curve.PublicKeyExponent(pk).Ok? && BlindProofFromOctets(s.curve, o).Ok?
              && |BlindProofFromOctets(s.curve, o).value.keys| <= |gens|
  {
    hide BlindProofFromOctets, VerifierInput, ProofChallenge, VerifyAll, KeyChallenges, ComDisGens;
  }

  /** The proof's counts are those of the choices: a hidden slot or a disclosed message for every message, the blind
      and every key, and a commitment for every committed one. */
  ghost predicate CountsAgree(b: BlindProof, split: nat, disclosed: seq<Octets>, choices: seq<Disclosure>) {
    && split <= |choices|
    && |Chosen(choices, Disclose)| == |disclosed| && |Chosen(choices, Commit)| == |b.commitments|
    && |b.proof.commitments| + |disclosed| == |choices| + 1 + |b.keys|
  }

  lemma AnnouncedCounts(c: Curve, o: Octets, b: BlindProof)
    requires c.Laws() && Encodes(c, o, b)
    ensures |o| >= 24 && BlindProofFromOctets(c, o) == Ok(b)
    ensures ReadU64(o, 0) == Ok(PROOF_FLOOR + SCALAR_LENGTH * |b.proof.commitments|)
    ensures ReadU64(o, 8) == Ok(|b.commitments|) && ReadU64(o, 16) == Ok(|b.keys|)
  {
    hide ReadU64, BlindProofOctets, BlindProofFromOctets;
    BlindProofFromOctetsIff(c, o, b);
    BlindProofAnnounces(c, b);
  }

  lemma OuterIs(s: Suite, pk: Octets, o: Octets, b: BlindProof, header: Octets, ph: Octets, split: nat,
                disclosed: seq<Octets>, choices: seq<Disclosure>)
    requires s.Valid() && Encodes(s.curve, o, b)
    ensures BlindProofVerify(s, pk, o, header, ph, split, disclosed, choices).Ok? <==>
            CountsAgree(b, split, disclosed, choices)
            && BlindCoreProofVerify(s, pk, o, AllGens(s, split, |choices|, |b.keys|), header, ph, MessageScalars(s, disclosed),
                                    ProofIndexes(Chosen(choices, Disclose), split), ProofIndexes(Chosen(choices, Commit), split)).Ok?
  {
    hide ReadU64, BlindProofOctets, BlindCoreProofVerify, DerivedGens, AllGens, Where, MessageScalars, ProofIndexes, Encodes;
    AnnouncedCounts(s.curve, o, b);
    CountMod(|b.proof.commitments|);
    ValidSuiteHashes(s);
    if split <= |choices| {
      DerivedGensValid(s, split, |choices|, |b.keys|);
    }
  }

  /** The proof `b` holds for what the outer verifier was told. */
  ghost predicate PresentationHolds(s: Suite, x: Scalar, pk: Octets, b: BlindProof, header: Octets, ph: Octets, split: nat,
                                    disclosed: seq<Octets>, choices: seq<Disclosure>)
  {
    hide *;
    && split <= |choices| && CountsAgree(b, split, disclosed, choices)
    && ProofHolds(s, x, pk, b, AllGens(s, split, |choices|, |b.keys|), header, ph, MessageScalars(s, disclosed),
                  ProofIndexes(Chosen(choices, Disclose), split), ProofIndexes(Chosen(choices, Commit), split))
  }

  /** Of all octet strings the verifier accepts exactly the encodings of proofs whose counts agree with the choices
      and that hold. */
  lemma VerifierAcceptsIff(s: Suite, pk: Octets, o: Octets, header: Octets, ph: Octets, split: nat, disclosed: seq<Octets>,
                           choices: seq<Disclosure>)
    requires s.Valid()
    ensures BlindProofVerify(s, pk, o, header, ph, split, disclosed, choices).Ok? <==>
            && s.curve.PublicKeyExponent(pk).Ok?
            && exists b :: Encodes(s.curve, o, b)
                           && PresentationHolds(s, s.curve.PublicKeyExponent(pk).value, pk, b, header, ph, split, disclosed, choices)
  {
    hide BlindProofVerify, BlindCoreProofVerify, ProofHolds, BlindProofFromOctets, Encodes, AllGens, MessageScalars, ProofIndexes,
         Where;
    if BlindProofVerify(s, pk, o, header, ph, split, disclosed, choices).Ok? {
      OuterNeeds(s, pk, o, header, ph, split, disclosed, choices);
      var b := BlindProofFromOctets(s.curve, o).value;
      ReadIsEncoded(s.curve, o, b);
      OuterIs(s, pk, o, b, header, ph, split, disclosed, choices);
    }
    forall b | Encodes(s.curve, o, b)
      ensures BlindProofVerify(s, pk, o, header, ph, split, disclosed, choices).Ok? <==>
              && s.curve.PublicKeyExponent(pk).Ok?
              && PresentationHolds(s, s.curve.PublicKeyExponent(pk).value, pk, b, header, ph, split, disclosed, choices)
    {
      OuterIs(s, pk, o, b, header, ph, split, disclosed, choices);
      if CountsAgree(b, split, disclosed, choices) {
        CoreAcceptsRead(s, pk, o, b, AllGens(s, split, |choices|, |b.keys|), header, ph, MessageScalars(s, disclosed),
                        ProofIndexes(Chosen(choices, Disclose), split), ProofIndexes(Chosen(choices, Commit), split));
      }
    }
  }

  lemma ReadIsEncoded(c: Curve, o: Octets, b: BlindProof)
    requires c.Laws()
    ensures BlindProofFromOctets(c, o) == Ok(b) <==> Encodes(c, o, b)
  {
    hide BlindProofFromOctets, BlindProofOctets;
    BlindProofFromOctetsIff(c, o, b);
  }

  lemma CoreAcceptsRead(s: Suite, pk: Octets, o: Octets, b: BlindProof, gens: seq<Point>, header: Octets, ph: Octets,
                        disclosed: seq<Scalar>, shown: seq<nat>, committed: seq<nat>)
    requires s.Valid() && Encodes(s.curve, o, b)
    ensures BlindCoreProofVerify(s, pk, o, gens, header, ph, disclosed, shown, committed).Ok? <==>
            && s.curve.PublicKeyExponent(pk).Ok?
            && ProofHolds(s, s.curve.PublicKeyExponent(pk).value, pk, b, gens, header, ph, disclosed, shown, committed)
  {
    hide BlindCoreProofVerify, ProofHolds, BlindProofFromOctets, Encodes;
    CoreAcceptsIff(s, pk, o, gens, header, ph, disclosed, shown, committed);
    forall d | Encodes(s.curve, o, d) ensures d == b {
      ReadIsEncoded(s.curve, o, d);
      ReadIsEncoded(s.curve, o, b);
    }
  }

  lemma OuterNeeds(s: Suite, pk: Octets, o: Octets, header: Octets, ph: Octets, split: nat, disclosed: seq<Octets>,
                   choices: seq<Disclosure>)
    requires BlindProofVerify(s, pk, o, header, ph, split, disclosed, choices).Ok?
    ensures BlindProofFromOctets(s.curve, o).Ok? && s.curve.PublicKeyExponent(pk).Ok?
  {
    hide ReadU64, BlindProofFromOctets, VerifierInput, ProofChallenge, VerifyAll, KeyChallenges, ComDisGens, DerivedGens, Where,
         MessagesToScalars, ProofIndexes;
  }
}
