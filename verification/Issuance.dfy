/** Blind issuance (`src/blind.rs`): the wallet commits, the device signs, the issuer checks the
    commitment and signs it together with its own messages, and the wallet checks the result. */
module Issuance {
  import opened Wrappers
  import opened Octets
  import opened Curves
  import opened Serialize
  import opened Suites
  import opened Indexes
  import opened Bbs
  import opened CommitWire
  import Keybind

  // ---- Shared pieces ----

  /** `parse_keybind_public_keys` */
  function ParseKeys(c: Curve, keys: seq<Octets>): (r: Result<seq<Point>>)
    ensures r.Ok? ==> |r.value| == |keys|
  {
    if keys == [] then Ok([])
    else
      var front :- ParseKeys(c, keys[..|keys| - 1]);
      var p :- c.PointFromOctets(keys[|keys| - 1]);
      if p == c.identity then Err(InvalidPoint) else Ok(front + [p])
  }

  lemma {:induction false} ParseKeysNoIdentity(c: Curve, keys: seq<Octets>)
    requires ParseKeys(c, keys).Ok?
    ensures NoIdentity(c, ParseKeys(c, keys).value)
  {
    if keys != [] {
      ParseKeysNoIdentity(c, keys[..|keys| - 1]);
    }
  }

  /** The keys parse to points exactly when each is the compressed form of its point and none is the identity. */
  lemma {:induction false} ParseKeysIff(c: Curve, keys: seq<Octets>, ps: seq<Point>)
    requires c.Laws()
    ensures ParseKeys(c, keys) == Ok(ps) <==>
            |ps| == |keys| && forall i :: 0 <= i < |keys| ==> keys[i] == c.compressed(ps[i]) && ps[i] != c.identity
  {
    hide c.PointFromOctets;
    if keys != [] && |ps| == |keys| {
      var n := |keys| - 1;
      ParseKeysIff(c, keys[..n], ps[..n]);
      c.PointFromOctetsIff(keys[n], ps[n]);
      assert ps == ps[..n] + [ps[n]];
    }
  }

  /** Each signature verifies under its key, on its generator, over its message; the first that
      does not decides the error. */
  function VerifyAll(c: Curve, gens: seq<Point>, keys: seq<Point>, sigs: seq<Octets>, msgs: seq<Octets>): Result<()>
    requires |gens| == |keys| == |sigs| == |msgs|
  {
    if keys == [] then Ok(())
    else
      var n := |keys| - 1;
      var _ :- VerifyAll(c, gens[..n], keys[..n], sigs[..n], msgs[..n]);
      Keybind.Verify(c, gens[n], keys[n], sigs[n], msgs[n])
  }

  lemma {:induction false} VerifyAllStops(c: Curve, gens: seq<Point>, keys: seq<Point>, sigs: seq<Octets>, msgs: seq<Octets>, n: nat)
    requires |gens| == |keys| == |sigs| == |msgs| && n <= |keys|
    requires VerifyAll(c, gens[..n], keys[..n], sigs[..n], msgs[..n]).Err?
    ensures VerifyAll(c, gens, keys, sigs, msgs) == VerifyAll(c, gens[..n], keys[..n], sigs[..n], msgs[..n])
  {
    hide Keybind.Verify;
    if n == |keys| {
      assert gens[..n] == gens && keys[..n] == keys && sigs[..n] == sigs && msgs[..n] == msgs;
    } else {
      var m := |keys| - 1;
      assert gens[..m][..n] == gens[..n] && keys[..m][..n] == keys[..n];
      assert sigs[..m][..n] == sigs[..n] && msgs[..m][..n] == msgs[..n];
      VerifyAllStops(c, gens[..m], keys[..m], sigs[..m], msgs[..m], n);
    }
  }

  /** The loops that verify one device signature per key. */
  method VerifyEach(c: Curve, gens: seq<Point>, keys: seq<Point>, sigs: seq<Octets>, msgs: seq<Octets>) returns (r: Result<()>)
    requires |gens| == |keys| == |sigs| == |msgs|
    ensures r == VerifyAll(c, gens, keys, sigs, msgs)
  {
    hide Keybind.Verify;
    for i := 0 to |keys|
      invariant VerifyAll(c, gens[..i], keys[..i], sigs[..i], msgs[..i]) == Ok(())
    {
      assert gens[..i + 1][..i] == gens[..i] && keys[..i + 1][..i] == keys[..i];
      assert sigs[..i + 1][..i] == sigs[..i] && msgs[..i + 1][..i] == msgs[..i];
      r := Keybind.Verify(c, gens[i], keys[i], sigs[i], msgs[i]);
      if r.Err? {
        VerifyAllStops(c, gens, keys, sigs, msgs, i + 1);
        return;
      }
      assert r.value == ();
    }
    assert gens[..|keys|] == gens && keys[..|keys|] == keys && sigs[..|keys|] == sigs && msgs[..|keys|] == msgs;
    r := Ok(());
  }

  lemma {:induction false} VerifyAllIff(c: Curve, gens: seq<Point>, keys: seq<Point>, sigs: seq<Octets>, msgs: seq<Octets>)
    requires |gens| == |keys| == |sigs| == |msgs|
    ensures VerifyAll(c, gens, keys, sigs, msgs).Ok? <==>
            forall i :: 0 <= i < |keys| ==> Keybind.Verify(c, gens[i], keys[i], sigs[i], msgs[i]).Ok?
  {
    if keys != [] {
      var n := |keys| - 1;
      VerifyAllIff(c, gens[..n], keys[..n], sigs[..n], msgs[..n]);
    }
  }

  /** What an honest device returns: one accepted signature per key. */
  predicate DeviceSigned(c: Curve, gens: seq<Point>, keys: seq<Point>, sigs: seq<Octets>, msgs: seq<Octets>) {
    && |gens| == |keys| == |sigs| == |msgs|
    && forall i :: 0 <= i < |keys| ==> Keybind.Verify(c, gens[i], keys[i], sigs[i], msgs[i]).Ok?
  }

  lemma DeviceSignedWidths(c: Curve, gens: seq<Point>, keys: seq<Point>, sigs: seq<Octets>, msgs: seq<Octets>)
    requires DeviceSigned(c, gens, keys, sigs, msgs)
    ensures AllWidth(sigs)
  {
    forall i | 0 <= i < |sigs| ensures |sigs[i]| == SIGNATURE_LENGTH {
      assert Keybind.Verify(c, gens[i], keys[i], sigs[i], msgs[i]).Ok?;
    }
  }

  function BlindGens(s: Suite, m: nat): (g: seq<Point>)
    ensures |g| == m + 1
  {
    Generators(s.curve, BlindApi(s), m + 1)
  }

  function SignerGens(s: Suite, l: nat): (g: seq<Point>)
    ensures |g| == l + 1
  {
    Generators(s.curve, s.apiId, l + 1)
  }

  // ---- The wallet commits ----

  function BlindChallengeOctets(c: Curve, com: Point, cbar: Point, gens: seq<Point>, keys: seq<Point>): Octets
    requires |gens| >= |keys| + 1
  {
    SerOctets(c, [U64(|gens| - 1 - |keys|), U64(|keys|)] + PointItems(gens) + PointItems(keys) + [G1(com), G1(cbar)])
  }

  function BlindChallenge(s: Suite, com: Point, cbar: Point, gens: seq<Point>, keys: seq<Point>): Result<Scalar>
    requires |gens| >= |keys| + 1
  {
    HashToScalar(s, BlindChallengeOctets(s.curve, com, cbar, gens, keys), H2S)
  }

  /** The commitment bases in the order they are summed: the J points, then `Q_2`. */
  function CommitBases(blindGens: seq<Point>): (r: seq<Point>)
    requires |blindGens| >= 1
    ensures |r| == |blindGens|
  {
    blindGens[1..] + [blindGens[0]]
  }

  datatype Committed = Committed(state: CommitState, blind: Scalar, challenge: Scalar)

  /** `core_commit_init`; `randoms` are the blind, then `s_tilde`, then one per message. */
  function CoreCommitInit(s: Suite, gens: seq<Point>, messages: seq<Scalar>, keys: seq<Point>, randoms: seq<Scalar>)
    : Result<Committed>
    requires |randoms| == |messages| + 2
  {
    var c := s.curve;
    var m := |messages|;
    if |gens| != m + |keys| + 1 then Err(MismatchedLengths)
    else
      var bases := CommitBases(gens[..m + 1]);
      var com := c.SumProd(bases, messages + [randoms[0]]);
      var cbar := c.SumProd(bases, randoms[2..] + [randoms[1]]);
      var challenge :- BlindChallenge(s, com, cbar, gens, keys);
      var sHat := c.SAdd(randoms[1], c.SMul(randoms[0], challenge));
      var mHat := c.Blend(randoms[2..], messages, challenge);
      Ok(Committed(CommitState(com, sHat, mHat, challenge, keys), randoms[0], challenge))
  }

  datatype CommitInitOutput = CommitInitOutput(state: Octets, blind: Scalar, challenge: Scalar)

  function CommitInit(s: Suite, messages: seq<Octets>, keys: seq<Octets>, randoms: seq<Scalar>): Result<CommitInitOutput>
    requires |randoms| == |messages| + 2
  {
    var pks :- ParseKeys(s.curve, keys);
    var scalars :- MessagesToScalars(s, messages);
    var blindGens :- CreateGenerators(s.curve, BlindApi(s), |messages| + 1);
    var keyGens :- KeybindGenerators(s, |keys|);
    var out :- CoreCommitInit(s, blindGens + keyGens, scalars, pks, randoms);
    Ok(CommitInitOutput(StateOctets(s.curve, out.state), out.blind, out.challenge))
  }

  function CommitFinalize(s: Suite, state: Octets, sigs: seq<Octets>): Result<Octets> {
    var st :- StateFromOctets(s.curve, state);
    if |sigs| != |st.keys| then Err(MismatchedLengths)
    else Ok(CommitProofOctets(s.curve, CommitProof(st.c, st.keys, st.sHat, st.mHat, st.challenge, sigs)))
  }

  // ---- The issuer checks and signs ----

  /** `Cbar` as the issuer recomputes it. */
  function RecomputedCbar(c: Curve, bases: seq<Point>, com: Point, mHat: seq<Scalar>, sHat: Scalar, cp: Scalar): Point
    requires |bases| == |mHat| + 1
  {
    c.SumProd(bases + [com], mHat + [sHat, c.SNeg(cp)])
  }

  function CoreCommitVerify(s: Suite, x: CommitProof, gens: seq<Point>): Result<()> {
    var c := s.curve;
    var m, k := |x.mHat|, |x.keys|;
    if |gens| != m + k + 1 then Err(MismatchedLengths)
    else if |x.sigs| != k then Err(MismatchedLengths)
    else
      var cbar := RecomputedCbar(c, CommitBases(gens[..m + 1]), x.c, x.mHat, x.sHat, x.challenge);
      var cv :- BlindChallenge(s, x.c, cbar, gens, x.keys);
      if cv != x.challenge then Err(VerificationFailed)
      else VerifyAll(c, gens[m + 1..], x.keys, x.sigs, Repeat(c.ScalarOctets(x.challenge), k))
  }

  datatype Validated = Validated(c: Point, keys: seq<Point>, gens: seq<Point>)

  function ValidateCommit(s: Suite, commitment: Octets): Result<Validated> {
    var x :- CommitProofFromOctets(s.curve, commitment);
    var blindGens :- CreateGenerators(s.curve, BlindApi(s), |x.mHat| + 1);
    var keyGens :- KeybindGenerators(s, |x.sigs|);
    var _ :- CoreCommitVerify(s, x, blindGens + keyGens);
    Ok(Validated(x.c, x.keys, blindGens + keyGens))
  }

  function BCalculate(s: Suite, pk: Octets, gens: seq<Point>, blindGens: seq<Point>, commitment: Point,
                      messages: seq<Scalar>, header: Octets): Result<Point>
  {
    var c := s.curve;
    if |gens| != |messages| + 1 then Err(MismatchedLengths)
    else if blindGens == [] then Err(MismatchedLengths)
    else
      var domain :- CalculateDomain(s, pk, gens[0], gens[1..] + [blindGens[0]] + blindGens[1..], header);
      var b := c.SumProd([s.p1, gens[0]] + gens[1..] + [commitment], [c.one, domain] + messages + [c.one]);
      if b == c.identity then Err(InvalidPoint) else Ok(b)
  }

  function FinalizeBlindSign(s: Suite, sk: Scalar, b: Point): Result<Octets> {
    var c := s.curve;
    var e :- HashToScalar(s, SerOctets(c, [Scl(sk), G1(b)]), H2S);
    match c.invS(c.SAdd(sk, e))
    case Some(inv) => Ok(SignatureOctets(c, Signature(c.Mul(b, inv), e)))
    case None => Err(InvalidScalar)
  }

  function BlindSign(s: Suite, sk: Scalar, pk: Octets, commitment: Octets, header: Octets, messages: seq<Octets>)
    : Result<Octets>
  {
    var c := s.curve;
    var v :- ValidateCommit(s, commitment);
    var scalars :- MessagesToScalars(s, messages);
    var gens :- CreateGenerators(c, s.apiId, |messages| + 1);
    var b :- BCalculate(s, pk, gens, v.gens, c.Add(v.c, c.SumPoints(v.keys)), scalars, header);
    FinalizeBlindSign(s, sk, b)
  }

  // ---- The wallet checks the signature ----

  /** The message vector the signature covers: the prover blind sits between the halves. */
  function WithBlind(messages: seq<Scalar>, split: nat, blind: Scalar): (r: seq<Scalar>)
    requires split <= |messages|
    ensures |r| == |messages| + 1
  {
    messages[..split] + [blind] + messages[split..]
  }

  /** What the holder, the prover and the verifier take as the signed point: all messages and keys. */
  function SignedPoint(s: Suite, q1: Point, hs: seq<Point>, messages: seq<Scalar>, domain: Scalar, keys: seq<Point>): Point
    requires |hs| == |messages|
  {
    s.curve.Add(ComputeB(s, q1, hs, messages, domain), s.curve.SumPoints(keys))
  }

  function BlindCoreVerify(s: Suite, pk: Octets, signature: Octets, gens: seq<Point>, header: Octets,
                           messages: seq<Scalar>, keys: seq<Point>): Result<()>
  {
    var c := s.curve;
    var sig :- SignatureFromOctets(c, signature);
    var x :- c.PublicKeyExponent(pk);
    var l := |messages|;
    if |gens| != l + |keys| + 1 then Err(MismatchedLengths)
    else
      var domain :- CalculateDomain(s, pk, gens[0], gens[1..], header);
      var b := SignedPoint(s, gens[0], gens[1..l + 1], messages, domain, keys);
      // e(A, W) * e(A * e - B, G2) == 1
      Need(c.Add(c.Mul(sig.a, x), c.Sub(c.Mul(sig.a, sig.e), b)) == c.identity, VerificationFailed)
  }

  function AllGens(s: Suite, split: nat, l: nat, k: nat): (g: seq<Point>)
    requires split <= l
    ensures |g| == l + 2 + k
  {
    SignerGens(s, split) + BlindGens(s, l - split) + KeyGenerators(s, k)
  }

  /** `create_generators`, `blind_generators` and `keybind_generators`, concatenated. */
  function DerivedGens(s: Suite, split: nat, l: nat, k: nat): (r: Result<seq<Point>>)
    requires split <= l
    ensures r.Ok? ==> |r.value| == l + 2 + k
  {
    var a :- CreateGenerators(s.curve, s.apiId, split + 1);
    var b :- CreateGenerators(s.curve, BlindApi(s), l - split + 1);
    var d :- KeybindGenerators(s, k);
    Ok(a + b + d)
  }

  lemma DerivedGensValid(s: Suite, split: nat, l: nat, k: nat)
    requires s.Valid() && split <= l
    ensures DerivedGens(s, split, l, k) == Ok(AllGens(s, split, l, k))
  {
    ValidSuiteHashes(s);
  }

  function VerifyBlindSign(s: Suite, pk: Octets, signature: Octets, header: Octets, messages: seq<Octets>,
                           split: nat, keys: seq<Octets>, blind: Scalar): Result<()>
  {
    if split > |messages| then Err(TooMany)
    else
      var pks :- ParseKeys(s.curve, keys);
      var gens :- DerivedGens(s, split, |messages|, |keys|);
      var scalars :- MessagesToScalars(s, messages);
      BlindCoreVerify(s, pk, signature, gens, header, WithBlind(scalars, split, blind), pks)
  }
}
