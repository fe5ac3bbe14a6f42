/** Presentation (`src/blind.rs`): the wallet starts a proof, the device signs once per key, the
    wallet finishes the proof, and the verifier checks it from the wire alone. */
module Presentation {
  import opened Wrappers
  import opened Octets
  import opened Curves
  import opened Serialize
  import opened Suites
  import opened Indexes
  import opened Bbs
  import opened ProofWire
  import opened Issuance
  import Keybind

  datatype Disclosure = Disclose | Hide | Commit

  /** A source of random scalars, as the values it will return. */
  type Stream = nat -> Scalar

  function Draw(stream: Stream, n: nat): (r: seq<Scalar>)
    ensures |r| == n
  {
    seq(n, i requires 0 <= i => stream(i))
  }

  // ---- The layout both sides derive ----

  function Mask(choices: seq<Disclosure>, d: Disclosure): (r: seq<bool>)
    ensures |r| == |choices|
    ensures forall i :: 0 <= i < |choices| ==> r[i] == (choices[i] == d)
  {
    seq(|choices|, i requires 0 <= i < |choices| => choices[i] == d)
  }

  /** `(0..l).filter(|&i| message_disclosures[i] == d)` */
  function Chosen(choices: seq<Disclosure>, d: Disclosure): seq<nat> {
    Where(Mask(choices, d))
  }

  /** The prover blind occupies slot `split`, so later messages shift up by one. */
  function ProofIndex(i: nat, split: nat): nat {
    if i < split then i else i + 1
  }

  function ProofIndexes(indexes: seq<nat>, split: nat): (r: seq<nat>)
    ensures |r| == |indexes|
    ensures forall i :: 0 <= i < |indexes| ==> r[i] == ProofIndex(indexes[i], split)
  {
    seq(|indexes|, i requires 0 <= i < |indexes| => ProofIndex(indexes[i], split))
  }

  predicate Disjoint(a: seq<nat>, b: seq<nat>) {
    forall i :: 0 <= i < |a| ==> a[i] !in b
  }

  function ComDisGens(s: Suite): (r: Result<(Point, Point)>) {
    var g :- CreateGenerators(s.curve, ComDisApi(s), 2);
    Ok((g[0], g[1]))
  }

  // ---- The challenge ----

  function IndexedScalars(indexes: seq<nat>, scalars: seq<Scalar>): seq<Ser>
    requires |indexes| == |scalars|
  {
    if indexes == [] then []
    else
      var n := |indexes| - 1;
      IndexedScalars(indexes[..n], scalars[..n]) + [U64(indexes[n]), Scl(scalars[n])]
  }

  function IndexedPoints(indexes: seq<nat>, points: seq<Point>, proofs: seq<Point>): seq<Ser>
    requires |indexes| == |points| == |proofs|
  {
    if indexes == [] then []
    else
      var n := |indexes| - 1;
      IndexedPoints(indexes[..n], points[..n], proofs[..n]) + [U64(indexes[n]), G1(points[n]), G1(proofs[n])]
  }

  /** Everything the presentation challenge covers. */
  datatype ChallengeInput = ChallengeInput(init: InitResult, commitments: seq<Point>, proofs: seq<Point>,
                                           commitIndexes: seq<nat>, keys: seq<Point>, disclosed: seq<Scalar>,
                                           disclosedIndexes: seq<nat>, ph: Octets)
  {
    predicate Consistent() {
      |disclosed| == |disclosedIndexes| && |commitments| == |proofs| == |commitIndexes|
    }
  }

  function InitItems(init: InitResult): seq<Ser> {
    [G1(init.abar), G1(init.bbar), G1(init.d), G1(init.t1), G1(init.t2), Scl(init.domain)]
  }

  function ProofChallengeOctets(c: Curve, x: ChallengeInput): Octets
    requires x.Consistent()
  {
    SerOctets(c, [U64(|x.disclosedIndexes|)] + IndexedScalars(x.disclosedIndexes, x.disclosed) + InitItems(x.init))
    + SerOctets(c, [U64(|x.commitments|)] + IndexedPoints(x.commitIndexes, x.commitments, x.proofs))
    + SerOctets(c, [U64(|x.keys|)] + PointItems(x.keys))
    + I2osp(|x.ph|, 8) + x.ph
  }

  /** The loops that push what the challenge covers, and the four parts appended to one another. */
  method WriteChallenge(c: Curve, x: ChallengeInput) returns (out: Octets)
    requires x.Consistent()
    ensures out == ProofChallengeOctets(c, x)
  {
    hide SerOctets, I2osp;
    var items := [U64(|x.disclosedIndexes|)];
    for i := 0 to |x.disclosedIndexes|
      invariant items == [U64(|x.disclosedIndexes|)] + IndexedScalars(x.disclosedIndexes[..i], x.disclosed[..i])
    {
      assert x.disclosedIndexes[..i + 1][..i] == x.disclosedIndexes[..i] && x.disclosed[..i + 1][..i] == x.disclosed[..i];
      items := items + [U64(x.disclosedIndexes[i]), Scl(x.disclosed[i])];
    }
    assert x.disclosedIndexes[..|x.disclosed|] == x.disclosedIndexes && x.disclosed[..|x.disclosed|] == x.disclosed;
    items := items + InitItems(x.init);
    out := SerializeItems(c, items);
    var more := [U64(|x.commitments|)];
    for i := 0 to |x.commitments|
      invariant more == [U64(|x.commitments|)] + IndexedPoints(x.commitIndexes[..i], x.commitments[..i], x.proofs[..i])
    {
      assert x.commitIndexes[..i + 1][..i] == x.commitIndexes[..i];
      assert x.commitments[..i + 1][..i] == x.commitments[..i] && x.proofs[..i + 1][..i] == x.proofs[..i];
      more := more + [U64(x.commitIndexes[i]), G1(x.commitments[i]), G1(x.proofs[i])];
    }
    assert x.commitIndexes[..|x.commitments|] == x.commitIndexes && x.proofs[..|x.commitments|] == x.proofs;
    assert x.commitments[..|x.commitments|] == x.commitments;
    var part := SerializeItems(c, more);
    out := out + part;
    part := SerializeItems(c, [U64(|x.keys|)] + PointItems(x.keys));
    out := out + part + I2osp(|x.ph|, 8) + x.ph;
  }

  function ProofChallenge(s: Suite, x: ChallengeInput): Result<Scalar> {
    if |x.disclosed| != |x.disclosedIndexes| then Err(MismatchedLengths)
    else if |x.proofs| != |x.commitments| || |x.commitIndexes| != |x.commitments| then Err(MismatchedLengths)
    else HashToScalar(s, ProofChallengeOctets(s.curve, x), H2S)
  }

  /** What the device signs for one key: already hashed. */
  function KeyChallenge(c: Curve, key: Point, challenge: Scalar): Octets {
    c.sha256(SerOctets(c, [G1(key), Scl(challenge)]))
  }

  function KeyChallenges(c: Curve, keys: seq<Point>, challenge: Scalar): (r: seq<Octets>)
    ensures |r| == |keys|
    ensures forall i :: 0 <= i < |keys| ==> r[i] == KeyChallenge(c, keys[i], challenge)
  {
    seq(|keys|, i requires 0 <= i < |keys| => KeyChallenge(c, keys[i], challenge))
  }

  // ---- Pedersen commitments to chosen messages ----

  function Pedersen(c: Curve, y: (Point, Point), blind: Scalar, value: Scalar): Point {
    c.Add(c.Mul(y.0, blind), c.Mul(y.1, value))
  }

  function Commitments(c: Curve, y: (Point, Point), blinds: seq<Scalar>, values: seq<Scalar>): (r: seq<Point>)
    requires |blinds| == |values|
    ensures |r| == |blinds|
    ensures forall i :: 0 <= i < |blinds| ==> r[i] == Pedersen(c, y, blinds[i], values[i])
  {
    seq(|blinds|, i requires 0 <= i < |blinds| => Pedersen(c, y, blinds[i], values[i]))
  }

  /** The place of each committed slot among the undisclosed ones. */
  function Positions(ji: seq<nat>, indexes: seq<nat>): (r: Result<seq<nat>>)
    ensures r.Ok? ==> |r.value| == |indexes| && Below(r.value, |ji|)
    ensures r.Ok? ==> forall i :: 0 <= i < |indexes| ==> ji[r.value[i]] == indexes[i]
    ensures r.Ok? <==> forall i :: 0 <= i < |indexes| ==> indexes[i] in ji
  {
    if indexes == [] then Ok([])
    else
      var n := |indexes| - 1;
      assert indexes == indexes[..n] + [indexes[n]];
      var front :- Positions(ji, indexes[..n]);
      match IndexIn(ji, indexes[n])
      case Some(p) => Ok(front + [p])
      case None => Err(Unsupported)
  }

  /** `y_0 * s_hat[i] + y_1 * commitments[k_idx] - C_i * cp` */
  function RecomputedProofs(c: Curve, y: (Point, Point), sHat: seq<Scalar>, mHat: seq<Scalar>, commitments: seq<Point>,
                            cp: Scalar): (r: seq<Point>)
    requires |sHat| == |mHat| == |commitments|
    ensures |r| == |sHat|
    ensures forall i :: 0 <= i < |sHat| ==> r[i] == c.Sub(Pedersen(c, y, sHat[i], mHat[i]), c.Mul(commitments[i], cp))
  {
    seq(|sHat|, i requires 0 <= i < |sHat| => c.Sub(Pedersen(c, y, sHat[i], mHat[i]), c.Mul(commitments[i], cp)))
  }

  /** The loop of `core_proof_gen_init` that pushes each commitment and its proof. */
  method CommitLoop(c: Curve, y: (Point, Point), indexes: seq<nat>, ji: seq<nat>, messages: seq<Scalar>,
                    mTilde: seq<Scalar>, blinds: seq<Scalar>, sTilde: seq<Scalar>)
    returns (r: Result<()>, commitments: seq<Point>, proofs: seq<Point>)
    requires |blinds| == |sTilde| == |indexes| && |mTilde| == |ji| && Below(indexes, |messages|)
    ensures r.Ok? <==> Positions(ji, indexes).Ok?
    ensures r.Ok? ==> commitments == Commitments(c, y, blinds, Pick(messages, indexes))
    ensures r.Ok? ==> proofs == Commitments(c, y, sTilde, Pick(mTilde, Positions(ji, indexes).value))
  {
    commitments, proofs := [], [];
    for i := 0 to |indexes|
      invariant |commitments| == |proofs| == i
      invariant forall j :: 0 <= j < i ==> indexes[j] in ji
      invariant forall j :: 0 <= j < i ==> commitments[j] == Pedersen(c, y, blinds[j], messages[indexes[j]])
      invariant forall j :: 0 <= j < i ==>
                  IndexIn(ji, indexes[j]).Some?
                  && proofs[j] == Pedersen(c, y, sTilde[j], mTilde[IndexIn(ji, indexes[j]).value])
    {
      var idx := indexes[i];
      commitments := commitments + [Pedersen(c, y, blinds[i], messages[idx])];
      match IndexIn(ji, idx) {
        case None =>
          return Err(Unsupported), commitments, proofs;
        case Some(k) =>
          proofs := proofs + [Pedersen(c, y, sTilde[i], mTilde[k])];
      }
    }
    PositionsAre(ji, indexes);
    r := Ok(());
  }

  /** The verifier's loop over the commitments. */
  method RecomputeLoop(c: Curve, y: (Point, Point), indexes: seq<nat>, ji: seq<nat>, sHat: seq<Scalar>,
                       answers: seq<Scalar>, commitments: seq<Point>, cp: Scalar)
    returns (r: Result<()>, proofs: seq<Point>)
    requires |indexes| == |sHat| == |commitments| && |answers| >= |ji|
    ensures r.Ok? <==> Positions(ji, indexes).Ok?
    ensures r.Err? ==> r.error == Unsupported
    ensures r.Ok? ==> proofs == RecomputedProofs(c, y, sHat, Pick(answers, Positions(ji, indexes).value), commitments, cp)
  {
    hide Pedersen;
    proofs := [];
    for i := 0 to |indexes|
      invariant |proofs| == i
      invariant forall j :: 0 <= j < i ==> indexes[j] in ji
      invariant forall j :: 0 <= j < i ==>
                  IndexIn(ji, indexes[j]).Some?
                  && proofs[j] == c.Sub(Pedersen(c, y, sHat[j], answers[IndexIn(ji, indexes[j]).value]), c.Mul(commitments[j], cp))
    {
      match IndexIn(ji, indexes[i]) {
        case None =>
          return Err(Unsupported), proofs;
        case Some(k) =>
          proofs := proofs + [c.Sub(Pedersen(c, y, sHat[i], answers[k]), c.Mul(commitments[i], cp))];
      }
    }
    PositionsAre(ji, indexes);
    r := Ok(());
  }

  lemma {:induction false} PositionsAre(ji: seq<nat>, indexes: seq<nat>)
    requires Positions(ji, indexes).Ok?
    ensures forall i :: 0 <= i < |indexes| ==> IndexIn(ji, indexes[i]) == Some(Positions(ji, indexes).value[i])
  {
    if indexes != [] {
      PositionsAre(ji, indexes[..|indexes| - 1]);
    }
  }

  // ---- The wallet starts ----

  datatype GenOutput = GenOutput(state: Octets, committed: seq<Scalar>, blinds: seq<Scalar>, keyChallenges: seq<Octets>)

  /** Adds the key part `dAdd = (sum of keys) * r2` to what base BBS computed. */
  function WithKeys(c: Curve, init: InitResult, dAdd: Point, randoms: seq<Scalar>): InitResult
    requires |randoms| >= 5
  {
    InitResult(init.abar,
               c.Add(init.bbar, c.Mul(dAdd, randoms[0])),
               c.Add(init.d, dAdd),
               c.Add(init.t1, c.Mul(dAdd, randoms[3])),
               c.Add(init.t2, c.Mul(dAdd, randoms[4])),
               init.domain)
  }

  /** The local values of `core_proof_gen_init`. */
  datatype ProverRun = ProverRun(sig: Signature, ji: seq<nat>, randoms: seq<Scalar>, mTilde: seq<Scalar>, rKey: seq<Scalar>,
                                 init: InitResult, randomized: seq<Point>, blinds: seq<Scalar>, sTilde: seq<Scalar>,
                                 commitments: seq<Point>, proofs: seq<Point>, challenge: Scalar, proof: Proof,
                                 sHat: seq<Scalar>)

  function RunProver(s: Suite, pk: Octets, signature: Octets, gens: seq<Point>, header: Octets, ph: Octets,
                     messages: seq<Scalar>, disclosedIndexes: seq<nat>, commitIndexes: seq<nat>,
                     keys: seq<Point>, first: Stream, second: Stream): (r: Result<ProverRun>)
    ensures r.Ok? ==> Below(commitIndexes, |messages|)
  {
    var c := s.curve;
    var y :- ComDisGens(s);
    var sig :- SignatureFromOctets(c, signature);
    var l, k, n := |messages|, |keys|, |commitIndexes|;
    var _ :- CheckIndexes(commitIndexes, l);
    var _ :- CheckIndexes(disclosedIndexes, l);
    if !Disjoint(commitIndexes, disclosedIndexes) then Err(Unsupported)
    else
      var ji := Complement(l, disclosedIndexes);
      ComplementIsBelow(l, disclosedIndexes);
      var u := |ji|;
      var drawn := Draw(first, 5 + u + 2 * k);
      var randoms, mTilde, rKey := drawn[..5 + u + k], drawn[5..5 + u], drawn[5 + u + k..];
      var init0 :- ProofInit(s, pk, sig, gens, randoms, header, messages + Repeat(c.zero, k), ji + Range(l, k));
      var init := WithKeys(c, init0, c.Mul(c.SumPoints(keys), randoms[1]), randoms);
      var randomized := c.Randomized(keys, gens[l + 1..], rKey);
      var drawn2 := Draw(second, 2 * n);
      var blinds, sTilde := drawn2[..n], drawn2[n..];
      var positions :- Positions(ji, commitIndexes);
      var commitments := Commitments(c, y, blinds, Pick(messages, commitIndexes));
      var proofs := Commitments(c, y, sTilde, Pick(mTilde, positions));
      var challenge :- ProofChallenge(s, ChallengeInput(init, commitments, proofs, commitIndexes, randomized,
                                                        Pick(messages, disclosedIndexes), disclosedIndexes, ph));
      var proof :- ProofFinalize(c, init, challenge, sig.e, randoms, Pick(messages, ji) + c.Negated(rKey));
      Ok(ProverRun(sig, ji, randoms, mTilde, rKey, init, randomized, blinds, sTilde, commitments, proofs, challenge,
                   proof, c.BlendLeft(sTilde, blinds, challenge)))
  }

  function CoreProofGenInit(s: Suite, pk: Octets, signature: Octets, gens: seq<Point>, header: Octets, ph: Octets,
                            messages: seq<Scalar>, disclosedIndexes: seq<nat>, commitIndexes: seq<nat>,
                            keys: seq<Point>, first: Stream, second: Stream): Result<GenOutput>
  {
    var c := s.curve;
    var v :- RunProver(s, pk, signature, gens, header, ph, messages, disclosedIndexes, commitIndexes, keys, first, second);
    Ok(GenOutput(GenStateOctets(c, ProofOctets(c, v.proof), v.challenge, v.commitments, v.sHat, v.randomized, v.rKey),
                 Pick(messages, commitIndexes), v.blinds, KeyChallenges(c, v.randomized, v.challenge)))
  }

  function BlindProofGenInit(s: Suite, pk: Octets, signature: Octets, header: Octets, ph: Octets, messages: seq<Octets>,
                             split: nat, choices: seq<Disclosure>, keys: seq<Octets>, blind: Scalar,
                             first: Stream, second: Stream): Result<GenOutput>
  {
    var l := |messages|;
    if |choices| != l then Err(MismatchedLengths)
    else if split > l then Err(TooMany)
    else
      var pks :- ParseKeys(s.curve, keys);
      var gens :- DerivedGens(s, split, l, |keys|);
      var scalars :- MessagesToScalars(s, messages);
      CoreProofGenInit(s, pk, signature, gens, header, ph, WithBlind(scalars, split, blind),
                       ProofIndexes(Chosen(choices, Disclose), split), ProofIndexes(Chosen(choices, Commit), split),
                       pks, first, second)
  }

  // ---- The wallet finishes ----

  function AdaptAll(c: Curve, sigs: seq<Octets>, rKey: seq<Scalar>): (r: Result<seq<Octets>>)
    requires |sigs| == |rKey|
    ensures r.Ok? ==> |r.value| == |sigs|
  {
    if sigs == [] then Ok([])
    else
      var n := |sigs| - 1;
      var front :- AdaptAll(c, sigs[..n], rKey[..n]);
      var last :- Keybind.AdaptSig(c, sigs[n], rKey[n]);
      Ok(front + [last])
  }

  function BlindProofGenFinalize(s: Suite, state: Octets, sigs: seq<Octets>): Result<Octets> {
    var g :- GenStateFromOctets(s.curve, state);
    if |sigs| != |g.keys| || |g.rKey| != |g.keys| then Err(MismatchedLengths)
    else
      var adapted :- AdaptAll(s.curve, sigs, g.rKey);
      Ok(Completed(s.curve, g.incomplete, g.keys, adapted))
  }

  lemma {:induction false} AdaptAllStops(c: Curve, sigs: seq<Octets>, rKey: seq<Scalar>, n: nat)
    requires |sigs| == |rKey| && n <= |sigs| && AdaptAll(c, sigs[..n], rKey[..n]).Err?
    ensures AdaptAll(c, sigs, rKey) == Err(AdaptAll(c, sigs[..n], rKey[..n]).error)
  {
    if n == |sigs| {
      assert sigs[..n] == sigs && rKey[..n] == rKey;
    } else {
      var m := |sigs| - 1;
      assert sigs[..m][..n] == sigs[..n] && rKey[..m][..n] == rKey[..n];
      AdaptAllStops(c, sigs[..m], rKey[..m], n);
    }
  }

  method AppendKeys(c: Curve, proof: Octets, keys: seq<Point>) returns (out: Octets)
    ensures out == proof + PointsOctets(c, keys)
  {
    hide PointsOctets;
    out := proof;
    NoPoints(c);
    for i := 0 to |keys|
      invariant out == proof + PointsOctets(c, keys[..i])
    {
      PointsOctetsSnoc(c, keys[..i], keys[i]);
      assert keys[..i + 1] == keys[..i] + [keys[i]];
      out := out + c.compressed(keys[i]);
    }
    assert keys[..|keys|] == keys;
  }

  lemma NoPoints(c: Curve)
    ensures PointsOctets(c, []) == []
  {
  }

  lemma JoinedSnoc(chunks: seq<Octets>, chunk: Octets)
    ensures Joined(chunks + [chunk]) == Joined(chunks) + chunk
  {
    assert (chunks + [chunk])[..|chunks|] == chunks;
  }

  method AppendAdapted(c: Curve, proof: Octets, sigs: seq<Octets>, rKey: seq<Scalar>) returns (r: Result<Octets>)
    requires |sigs| == |rKey|
    ensures r == match AdaptAll(c, sigs, rKey) case Ok(adapted) => Ok(proof + Joined(adapted)) case Err(e) => Err(e)
  {
    hide Joined, Keybind.AdaptSig;
    var out := proof;
    ghost var done: seq<Octets> := [];
    NothingJoined();
    for i := 0 to |sigs|
      invariant AdaptAll(c, sigs[..i], rKey[..i]) == Ok(done)
      invariant out == proof + Joined(done)
    {
      assert sigs[..i + 1][..i] == sigs[..i] && rKey[..i + 1][..i] == rKey[..i];
      var adapted := Keybind.AdaptSig(c, sigs[i], rKey[i]);
      if adapted.Err? {
        AdaptAllStops(c, sigs, rKey, i + 1);
        return Err(adapted.error);
      }
      JoinedSnoc(done, adapted.value);
      done := done + [adapted.value];
      out := out + adapted.value;
    }
    assert sigs[..|sigs|] == sigs && rKey[..|sigs|] == rKey;
    r := Ok(out);
  }

  lemma NothingJoined()
    ensures Joined([]) == []
  {
  }

  /** `blind_proof_gen_finalize`: the slice is extended with the keys, then with one adapted signature
      per key. */
  method FinalizeLoop(s: Suite, state: Octets, sigs: seq<Octets>) returns (r: Result<Octets>)
    ensures r == BlindProofGenFinalize(s, state, sigs)
  {
    hide GenStateFromOctets, AdaptAll, PointsOctets, Joined;
    var c := s.curve;
    var parsed := GenStateFromOctets(c, state);
    if parsed.Err? {
      return Err(parsed.error);
    }
    var g := parsed.value;
    if |sigs| != |g.keys| || |g.rKey| != |g.keys| {
      return Err(MismatchedLengths);
    }
    var proof := AppendKeys(c, g.incomplete, g.keys);
    r := AppendAdapted(c, proof, sigs, g.rKey);
  }

  // ---- The verifier ----

  /** Everything the verifier recomputes from the proof before it hashes: the checks on the counts
      and indexes, `T1`, `T2` with the key correction, and the commitment proofs. */
  function VerifierInput(s: Suite, pk: Octets, b: BlindProof, gens: seq<Point>, header: Octets, ph: Octets,
                         disclosed: seq<Scalar>, disclosedIndexes: seq<nat>, commitIndexes: seq<nat>): Result<ChallengeInput>
  {
    var c := s.curve;
    var y :- ComDisGens(s);
    var n, k := |b.commitments|, |b.keys|;
    var l := |disclosedIndexes| + |b.proof.commitments|;
    if |b.sHat| != n || |commitIndexes| != n then Err(MismatchedLengths)
    else if |disclosed| != |disclosedIndexes| then Err(MismatchedLengths)
    else if |gens| != l + 1 then Err(MismatchedLengths)
    else if |b.sigs| != k then Err(MismatchedLengths)
    else
      var _ :- CheckIndexes(commitIndexes, l);
      var _ :- CheckIndexes(disclosedIndexes, l);
      if !Disjoint(commitIndexes, disclosedIndexes) then Err(Unsupported)
      else
        var cp := b.proof.challenge;
        var init :- ProofVerifyInit(s, pk, b.proof, gens, header, disclosed, disclosedIndexes);
        var t2 := c.Add(init.t2, c.Mul(c.SumPoints(b.keys), cp));
        var positions :- Positions(Complement(l, disclosedIndexes), commitIndexes);
        var proofs := RecomputedProofs(c, y, b.sHat, Pick(b.proof.commitments, positions), b.commitments, cp);
        Ok(ChallengeInput(init.(t2 := t2), b.commitments, proofs, commitIndexes, b.keys, disclosed, disclosedIndexes, ph))
  }

  /** `e(Abar, W) * e(Bbar, -G2) == 1` for `W = x * G2`. */
  predicate PairingHolds(c: Curve, p: Proof, x: Scalar) {
    c.Mul(p.abar, x) == p.bbar
  }

  function BlindCoreProofVerify(s: Suite, pk: Octets, proof: Octets, gens: seq<Point>, header: Octets, ph: Octets,
                                disclosed: seq<Scalar>, disclosedIndexes: seq<nat>, commitIndexes: seq<nat>): Result<()>
  {
    var c := s.curve;
    var _ :- ComDisGens(s);
    var x :- c.PublicKeyExponent(pk);
    var b :- BlindProofFromOctets(c, proof);
    var input :- VerifierInput(s, pk, b, gens, header, ph, disclosed, disclosedIndexes, commitIndexes);
    var challenge :- ProofChallenge(s, input);
    var k := |b.keys|;
    if challenge != b.proof.challenge then Err(VerificationFailed)
    // The caller has matched the counts, so there is always a generator and a signature for every key.
    else if k > |gens| || |b.sigs| != k then Err(MismatchedLengths)
    else
      var _ :- VerifyAll(c, gens[|gens| - k..], b.keys, b.sigs, KeyChallenges(c, b.keys, challenge));
      Need(PairingHolds(c, b.proof, x), VerificationFailed)
  }

  function BlindProofVerify(s: Suite, pk: Octets, proof: Octets, header: Octets, ph: Octets, split: nat,
                            disclosed: seq<Octets>, choices: seq<Disclosure>): Result<()>
  {
    if |proof| < 24 then Err(InvalidLength)
    else
      var len :- ReadU64(proof, 0);
      var n :- ReadU64(proof, 8);
      var k :- ReadU64(proof, 16);
      if len < PROOF_FLOOR || (len - PROOF_FLOOR) % SCALAR_LENGTH != 0 then Err(InvalidLength)
      else
        var count := (len - PROOF_FLOOR) / SCALAR_LENGTH + |disclosed|;
        if count == 0 then Err(TooMany)
        else if count < 1 + k then Err(InvalidLength)
        else
          var total := count - (1 + k);
          if split > total then Err(TooMany)
          else if |choices| != total then Err(MismatchedLengths)
          else
            var disclosedIndexes, commitIndexes := Chosen(choices, Disclose), Chosen(choices, Commit);
            if |disclosedIndexes| != |disclosed| then Err(MismatchedLengths)
            else if |commitIndexes| != n then Err(MismatchedLengths)
            else
              var gens :- DerivedGens(s, split, total, k);
              var scalars :- MessagesToScalars(s, disclosed);
              BlindCoreProofVerify(s, pk, proof, gens, header, ph, scalars,
                                   ProofIndexes(disclosedIndexes, split), ProofIndexes(commitIndexes, split))
  }
}
