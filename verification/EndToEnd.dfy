/** Presentations of credentials the wallet has accepted (`src/flow.rs`): when each step succeeds, and
    what the verifier is told. */
module EndToEnd {
  import opened Wrappers
  import opened Octets
  import opened Sorting
  import opened Json
  import opened ClaimMap
  import opened Headers
  import opened Compact
  import opened PresentCarry
  import opened Curves
  import opened Serialize
  import opened Suites
  import opened Indexes
  import opened Bbs
  import opened ProofWire
  import opened Issuance
  import opened Presentation
  import opened ProverAlgebra
  import opened PresentationTheorems
  import opened Flow

  // ---- What the payload slots carry ----

  /** Slots filled by a vector of Disclose and Hide describe that vector and the chosen messages. */
  lemma {:induction false} SlotsDescribe(messages: seq<Octets>, choices: seq<Disclosure>)
    requires |messages| == |choices| && Commit !in choices
    ensures SlotChoices(PayloadSlots(messages, choices)) == choices
    ensures Below(Chosen(choices, Disclose), |messages|)
    ensures Present(PayloadSlots(messages, choices)) == Pick(messages, Chosen(choices, Disclose))
  {
    hide Where;
    ChosenIsBelow(choices, Disclose);
    if choices != [] {
      var n := |choices| - 1;
      SlotsDescribe(messages[..n], choices[..n]);
      ChosenSnoc(choices, n, Disclose);
      ChosenIsBelow(choices[..n], Disclose);
      assert PayloadSlots(messages, choices)[..n] == PayloadSlots(messages[..n], choices[..n]);
      assert Pick(messages, Chosen(choices[..n], Disclose)) == Pick(messages[..n], Chosen(choices[..n], Disclose));
    } else {
      NothingChosen(Disclose);
    }
  }

  lemma ChosenSnoc(choices: seq<Disclosure>, n: nat, d: Disclosure)
    requires |choices| == n + 1
    ensures Chosen(choices, d) == Chosen(choices[..n], d) + (if choices[n] == d then [n] else [])
  {
    assert Mask(choices, d)[..n] == Mask(choices[..n], d);
  }

  lemma NothingChosen(d: Disclosure)
    ensures Chosen([], d) == []
  {
  }

  /** Every disclosed message is UTF-8 text. */
  predicate AllText(codec: Codec, messages: seq<Octets>, choices: seq<Disclosure>)
    requires |messages| == |choices|
  {
    forall i :: 0 <= i < |messages| && choices[i] == Disclose ==> codec.text(messages[i]).Some?
  }

  function ClaimText(codec: Codec, message: Octets): string {
    match codec.text(message)
    case Some(value) => value
    case None => ""
  }

  /** The disclosed claims, in message order: each chosen pointer with the signed octets' text. */
  function ShownClaims(codec: Codec, pointers: seq<string>, messages: seq<Octets>, shown: seq<nat>): (r: seq<DisclosedClaim>)
    requires Below(shown, |pointers|) && Below(shown, |messages|)
    ensures |r| == |shown|
    ensures forall i :: 0 <= i < |r| ==> r[i] == DisclosedClaim(pointers[shown[i]], ClaimText(codec, messages[shown[i]]))
  {
    seq(|shown|, i requires 0 <= i < |shown| => DisclosedClaim(pointers[shown[i]], ClaimText(codec, messages[shown[i]])))
  }

  lemma ShownSnoc(codec: Codec, pointers: seq<string>, messages: seq<Octets>, shown: seq<nat>, n: nat)
    requires |pointers| >= |messages| == n + 1 && Below(shown, n)
    ensures ShownClaims(codec, pointers, messages[..n], shown) == ShownClaims(codec, pointers, messages, shown)
    ensures ShownClaims(codec, pointers, messages, shown + [n])
         == ShownClaims(codec, pointers, messages, shown) + [DisclosedClaim(pointers[n], ClaimText(codec, messages[n]))]
  {
    hide ClaimText;
  }

  lemma {:induction false} DisclosedAre(codec: Codec, pointers: seq<string>, messages: seq<Octets>, choices: seq<Disclosure>)
    requires |pointers| >= |messages| == |choices|
    ensures Below(Chosen(choices, Disclose), |messages|)
    ensures DisclosedClaims(codec, pointers, PayloadSlots(messages, choices)).Ok? <==> AllText(codec, messages, choices)
    ensures AllText(codec, messages, choices) ==>
              DisclosedClaims(codec, pointers, PayloadSlots(messages, choices))
              == Ok(ShownClaims(codec, pointers, messages, Chosen(choices, Disclose)))
  {
    hide Where, Chosen, ShownClaims, AllText;
    ChosenIsBelow(choices, Disclose);
    if choices != [] {
      var n := |choices| - 1;
      DisclosedAre(codec, pointers, messages[..n], choices[..n]);
      ChosenSnoc(choices, n, Disclose);
      ChosenIsBelow(choices[..n], Disclose);
      assert PayloadSlots(messages, choices)[..n] == PayloadSlots(messages[..n], choices[..n]);
      AllTextSnoc(codec, messages, choices, n);
      ShownSnoc(codec, pointers, messages, Chosen(choices[..n], Disclose), n);
      assert Chosen(choices[..n], Disclose) + [] == Chosen(choices[..n], Disclose);
    } else {
      NothingChosen(Disclose);
      NothingShown(codec, pointers, messages, choices);
    }
  }

  lemma NothingShown(codec: Codec, pointers: seq<string>, messages: seq<Octets>, choices: seq<Disclosure>)
    requires messages == [] && choices == []
    ensures AllText(codec, messages, choices) && ShownClaims(codec, pointers, messages, []) == []
  {
  }

  lemma AllTextSnoc(codec: Codec, messages: seq<Octets>, choices: seq<Disclosure>, n: nat)
    requires |messages| == |choices| == n + 1
    ensures AllText(codec, messages, choices) <==>
            AllText(codec, messages[..n], choices[..n]) && (choices[n] == Disclose ==> codec.text(messages[n]).Some?)
  {
    if AllText(codec, messages, choices) {
      forall i | 0 <= i < n && choices[..n][i] == Disclose ensures codec.text(messages[..n][i]).Some? {
        assert choices[i] == Disclose;
      }
    }
    if AllText(codec, messages[..n], choices[..n]) && (choices[n] == Disclose ==> codec.text(messages[n]).Some?) {
      forall i | 0 <= i < |messages| && choices[i] == Disclose ensures codec.text(messages[i]).Some? {
        assert i < n ==> choices[..n][i] == Disclose && messages[..n][i] == messages[i];
      }
    }
  }

  // ---- The state's size ----

  /** Octets of the inner state: nothing is committed to in this flow. */
  function StateWidth(hidden: nat, keys: nat): nat {
    24 + PROOF_FLOOR + SCALAR_LENGTH * (hidden + keys) + SCALAR_LENGTH + keys * (POINT_LENGTH + SCALAR_LENGTH)
  }

  lemma StateOctetsLength(c: Curve, p: Proof, challenge: Scalar, keys: seq<Point>, rKey: seq<Scalar>)
    requires c.Laws() && |rKey| == |keys|
    ensures |GenStateOctets(c, ProofOctets(c, p), challenge, [], [], keys, rKey)|
         == 24 + PROOF_FLOOR + SCALAR_LENGTH * |p.commitments| + SCALAR_LENGTH + |keys| * (POINT_LENGTH + SCALAR_LENGTH)
  {
    hide PointsOctets, ScalarsOctets, GenStateOctets, ProofOctets, I2osp;
    GenStateLayout(c, ProofOctets(c, p), challenge, [], [], keys, rKey);
    ProofOctetsLayout(c, p);
    PointsOctetsLength(c, []);
    ScalarsOctetsLength(c, []);
    PointsOctetsLength(c, keys);
    ScalarsOctetsLength(c, rKey);
    c.ScalarFromBeIff([], challenge);
  }

  lemma InitStateWidth(s: Suite, x: Scalar, pk: Octets, signature: Octets, header: Octets, ph: Octets,
                       messages: seq<Octets>, split: nat, choices: seq<Disclosure>, keys: seq<Octets>, blind: Scalar,
                       first: Stream, second: Stream, out: GenOutput)
    requires s.Valid()
    requires s.curve.PublicKeyExponent(pk) == Ok(x)
    requires Accepted(s, pk, signature, header, messages, split, keys, blind)
    requires |choices| == |messages| && Commit !in choices
    requires BlindProofGenInit(s, pk, signature, header, ph, messages, split, choices, keys, blind, first, second) == Ok(out)
    ensures |out.state| == StateWidth(HiddenCount(choices), |keys|)
  {
    hide BlindProofGenInit, GenStateOctets, ProofOctets, Where, WithBlind, MessageScalars, AllGens, RunFacts, ParseKeys,
         CalculateDomain, ProofChallenge, ComDisGens, SignedPoint, Accepted, KeyRandomizers, KeyChallenges;
    var c := s.curve;
    var v := InitIsHonestRun(s, x, pk, signature, header, ph, messages, split, choices, keys, blind, first, second);
    var shown, committed := ProofIndexes(Chosen(choices, Disclose), split), ProofIndexes(Chosen(choices, Commit), split);
    RunSizes(s, AllGens(s, split, |messages|, |keys|), WithBlind(MessageScalars(s, messages), split, blind), shown, committed,
             ParseKeys(c, keys).value, v.init.domain, ComDisGens(s).value, v);
    NoneChosen(choices, Commit);
    assert v.commitments == [] && v.sHat == [];
    StateOctetsLength(c, v.proof, v.challenge, v.randomized, v.rKey);
  }

  lemma NoneChosen(choices: seq<Disclosure>, d: Disclosure)
    requires d !in choices
    ensures Chosen(choices, d) == []
  {
    WhereIs(Mask(choices, d));
    HasMember(Chosen(choices, d));
  }

  lemma HasMember(xs: seq<nat>)
    ensures xs != [] ==> exists i :: i in xs
  {
    if xs != [] {
      assert xs[0] in xs;
    }
  }

  // ---- An accepted credential ----

  /** What an accepted credential consists of. */
  lemma AcceptedCredential(codec: Codec, s: Suite, jwp: string, pk: Octets, committed: seq<Octets>, keys: seq<Octets>,
                           blind: Octets) returns (h: Held)
    requires Accept(codec, s, jwp, pk, committed, keys, blind).Ok?
    ensures OpenCredential(codec, s.curve, jwp, committed, blind) == Ok(h)
    ensures Accepted(s, pk, h.issued.signature, h.issued.issuerHeader, h.messages, h.view.NumSignerMessages(), keys, h.blind)
    ensures Accept(codec, s, jwp, pk, committed, keys, blind) == Ok(InfoOf(h.view))
    ensures ParseHeader(codec, h.issued.issuerHeader) == Ok(h.view) && h.view.InOrder()
  {
    hide OpenCredential, VerifyBlindSign;
    h := OpenCredential(codec, s.curve, jwp, committed, blind).value;
    OpenedHeader(codec, s.curve, jwp, committed, blind);
    AcceptedHeaderIsInOrder(codec, h.issued.issuerHeader);
  }

  lemma OpenedHeader(codec: Codec, c: Curve, jwp: string, committed: seq<Octets>, blind: Octets)
    requires OpenCredential(codec, c, jwp, committed, blind).Ok?
    ensures var h := OpenCredential(codec, c, jwp, committed, blind).value;
            ParseHeader(codec, h.issued.issuerHeader) == Ok(h.view)
  {
    hide DecodeIssued, ParseHeader;
  }

  /** With an accepted credential, a presentation starts exactly when the credential has every
      requested claim and `r2` is not zero. */
  lemma PresentStartsIff(codec: Codec, s: Suite, x: Scalar, jwp: string, pk: Octets, ph: Octets, requested: seq<string>,
                         committed: seq<Octets>, keys: seq<Octets>, blind: Octets, first: Stream, second: Stream)
    requires s.Valid()
    requires s.curve.PublicKeyExponent(pk) == Ok(x)
    requires Accept(codec, s, jwp, pk, committed, keys, blind).Ok?
    ensures OpenCredential(codec, s.curve, jwp, committed, blind).Ok?
    ensures PresentInit(codec, s, jwp, pk, ph, requested, committed, keys, blind, first, second).Ok? <==>
            AllKnown(OpenCredential(codec, s.curve, jwp, committed, blind).value.view, requested) && first(1) != s.curve.zero
  {
    hide OpenCredential, BlindProofGenInit, Marked, Accepted, EncodeCarry, PayloadSlots, AllKnown, Accept;
    var h := AcceptedCredential(codec, s, jwp, pk, committed, keys, blind);
    var choices := Marked(h.view, requested);
    PresentationStartsIff(s, x, pk, h.issued.signature, h.issued.issuerHeader, ph, h.messages, h.view.NumSignerMessages(),
                          choices, keys, h.blind, first, second);
  }

  /** The lengths the carried state writes in four octets. */
  predicate FitsFlow(h: Held, ph: Octets, choices: seq<Disclosure>, keys: nat) {
    && StateWidth(HiddenCount(choices), keys) < U32_LIMIT
    && |ph| < U32_LIMIT && |h.issued.issuerHeader| < U32_LIMIT
    && forall i :: 0 <= i < |h.messages| ==> |h.messages[i]| < U32_LIMIT
  }

  lemma FitsFlowFitsWire(h: Held, ph: Octets, choices: seq<Disclosure>, keys: nat)
    requires FitsFlow(h, ph, choices, keys) && |choices| <= MAX_MESSAGES
    ensures FitsWire(|choices|, keys)
  {
  }

  lemma MarkedHasNoCommit(view: HeaderView, requested: seq<string>)
    ensures Commit !in Marked(view, requested)
  {
    hide Requested;
  }

  /** What the wallet's first half hands over, and the carry its second half reads back. */
  lemma PresentInitForm(codec: Codec, s: Suite, x: Scalar, jwp: string, pk: Octets, ph: Octets, requested: seq<string>,
                        committed: seq<Octets>, keys: seq<Octets>, blind: Octets, first: Stream, second: Stream, h: Held)
    returns (out: GenOutput)
    requires s.Valid() && s.curve.PublicKeyExponent(pk) == Ok(x)
    requires OpenCredential(codec, s.curve, jwp, committed, blind) == Ok(h) && h.view.InOrder()
    requires Accepted(s, pk, h.issued.signature, h.issued.issuerHeader, h.messages, h.view.NumSignerMessages(), keys, h.blind)
    requires PresentInit(codec, s, jwp, pk, ph, requested, committed, keys, blind, first, second).Ok?
    requires FitsFlow(h, ph, Marked(h.view, requested), |keys|)
    ensures var choices := Marked(h.view, requested);
            var start := PresentInit(codec, s, jwp, pk, ph, requested, committed, keys, blind, first, second).value;
            && BlindProofGenInit(s, pk, h.issued.signature, h.issued.issuerHeader, ph, h.messages, h.view.NumSignerMessages(),
                                 choices, keys, h.blind, first, second) == Ok(out)
            && start.keyChallenges == out.keyChallenges
            && DecodeCarry(start.state) == Ok(Carry(out.state, ph, h.issued.issuerHeader, PayloadSlots(h.messages, choices)))
  {
    hide OpenCredential, BlindProofGenInit, Marked, Accepted, EncodeCarry, PayloadSlots, AllKnown, DecodeCarry, StateWidth,
         HiddenCount;
    var choices := Marked(h.view, requested);
    out := BlindProofGenInit(s, pk, h.issued.signature, h.issued.issuerHeader, ph, h.messages, h.view.NumSignerMessages(),
                             choices, keys, h.blind, first, second).value;
    MarkedHasNoCommit(h.view, requested);
    InitStateWidth(s, x, pk, h.issued.signature, h.issued.issuerHeader, ph, h.messages, h.view.NumSignerMessages(), choices,
                   keys, h.blind, first, second, out);
    var carry := Carry(out.state, ph, h.issued.issuerHeader, PayloadSlots(h.messages, choices));
    DecodeCarryIff(EncodeCarry(carry), carry);
  }

  /** The verifier opens exactly what the wallet put into the presented form. */
  lemma VerifyForm(codec: Codec, s: Suite, pk: Octets, h: Held, ph: Octets, choices: seq<Disclosure>, proof: Octets)
    requires |choices| == |h.messages| == h.view.NumMessages() && Commit !in choices
    requires ParseHeader(codec, h.issued.issuerHeader) == Ok(h.view) && h.view.InOrder()
    requires CheckPresentationHeader(codec, ph).Ok?
    ensures Below(Chosen(choices, Disclose), |h.messages|)
    ensures var jwp := EncodePresented(PresentedJwp(ph, h.issued.issuerHeader, PayloadSlots(h.messages, choices), proof));
            var checked := BlindProofVerify(s, pk, proof, h.issued.issuerHeader, ph, h.view.NumSignerMessages(),
                                            Pick(h.messages, Chosen(choices, Disclose)), choices);
            && (Verify(codec, s, jwp, pk).Ok? <==> checked.Ok? && AllText(codec, h.messages, choices))
            && (Verify(codec, s, jwp, pk).Ok? ==>
                  Verify(codec, s, jwp, pk)
                  == Ok(PresentationResult(h.view.vct, ShownClaims(codec, h.view.Pointers(), h.messages, Chosen(choices, Disclose)))))
  {
    hide DecodePresented, EncodePresented, ParseHeader, BlindProofVerify, CheckPresentationHeader, SlotChoices, Present,
         DisclosedClaims, PayloadSlots, Where, AllText, Sort;
    var x := PresentedJwp(ph, h.issued.issuerHeader, PayloadSlots(h.messages, choices), proof);
    PresentedRoundTripIff(x);
    SlotsDescribe(h.messages, choices);
    DisclosedAre(codec, h.view.Pointers(), h.messages, choices);
  }

  /** `start` is what the first half hands over after the run `v`, in which nothing is committed: its state
      carries the run's octets, its challenges are the run's, and the key part is drawn and computed from the
      inputs. */
  ghost predicate StartedBy(s: Suite, start: PresentStart, header: Octets, ph: Octets, slots: seq<Payload>, first: Stream,
                            hidden: nat, pks: seq<Point>, v: ProverRun)
  {
    var c, k := s.curve, |pks|;
    && DecodeCarry(start.state)
       == Ok(Carry(GenStateOctets(c, ProofOctets(c, v.proof), v.challenge, [], [], v.randomized, v.rKey), ph, header, slots))
    && start.keyChallenges == KeyChallenges(c, v.randomized, v.challenge)
    && v.rKey == KeyRandomizers(first, hidden, k)
    && v.randomized == c.Randomized(pks, KeyGenerators(s, k), v.rKey)
  }

  /** What was started determines the challenge, the key randomizers and the randomized keys. */
  lemma StartDetermines(s: Suite, start: PresentStart, header: Octets, ph: Octets, slots: seq<Payload>, first: Stream,
                        hidden: nat, pks: seq<Point>, v: ProverRun, w: ProverRun)
    requires s.Valid()
    requires StartedBy(s, start, header, ph, slots, first, hidden, pks, v)
    requires StartedBy(s, start, header, ph, slots, first, hidden, pks, w)
    ensures v.challenge == w.challenge && v.rKey == w.rKey && v.randomized == w.randomized
  {
    hide PointsOctets, ScalarsOctets, GenStateOctets, ProofOctets, Incomplete, DecodeCarry, KeyRandomizers;
    var c, keys, rKey := s.curve, v.randomized, v.rKey;
    GenStateLayout(c, ProofOctets(c, v.proof), v.challenge, [], [], keys, rKey);
    GenStateLayout(c, ProofOctets(c, w.proof), w.challenge, [], [], keys, rKey);
    c.ScalarFromBeIff([], v.challenge);
    c.ScalarFromBeIff([], w.challenge);
    var x, y, tail := Incomplete(c, ProofOctets(c, v.proof), [], [], |keys|), Incomplete(c, ProofOctets(c, w.proof), [], [], |keys|),
                      PointsOctets(c, keys) + ScalarsOctets(c, rKey);
    assert x + (c.ScalarOctets(v.challenge) + tail) == y + (c.ScalarOctets(w.challenge) + tail);
    SplitEqual(x, c.ScalarOctets(v.challenge) + tail, y, c.ScalarOctets(w.challenge) + tail);
    SplitEqual(c.ScalarOctets(v.challenge), tail, c.ScalarOctets(w.challenge), tail);
    c.ScalarOctetsInjective(v.challenge, w.challenge);
  }

  /** Presenting an accepted credential. With honest device signatures the wallet's second half goes
      through exactly when the challenge, the key randomizers and the randomized keys are not
      trivial; the verifier then accepts exactly when `r1` and `SK + e` are not zero and the
      disclosed messages are text; and it is told exactly the requested claims of the header's map,
      in message order, each with the octets the signature covers. The run `v` is the one the first half
      made. */
  lemma PresentationReturnsRequested(codec: Codec, s: Suite, x: Scalar, jwp: string, pk: Octets, ph: Octets,
                                     requested: seq<string>, committed: seq<Octets>, keys: seq<Octets>, pks: seq<Point>,
                                     blind: Octets, first: Stream, second: Stream, start: PresentStart, sigs: seq<Octets>)
    returns (h: Held, v: ProverRun)
    requires s.Valid()
    requires s.curve.PublicKeyExponent(pk) == Ok(x)
    requires Accept(codec, s, jwp, pk, committed, keys, blind).Ok?
    requires CheckPresentationHeader(codec, ph).Ok?
    requires PresentInit(codec, s, jwp, pk, ph, requested, committed, keys, blind, first, second) == Ok(start)
    requires OpenCredential(codec, s.curve, jwp, committed, blind).Ok?
    requires var held := OpenCredential(codec, s.curve, jwp, committed, blind).value;
             FitsFlow(held, ph, Marked(held.view, requested), |keys|)
    requires ParseKeys(s.curve, keys) == Ok(pks)
    requires DeviceSigned(s.curve, KeyGenerators(s, |keys|), pks, sigs, start.keyChallenges)
    ensures OpenCredential(codec, s.curve, jwp, committed, blind) == Ok(h) && h.view.InOrder()
    ensures SignatureFromOctets(s.curve, h.issued.signature) == Ok(v.sig)
    ensures StartedBy(s, start, h.issued.issuerHeader, ph, PayloadSlots(h.messages, Marked(h.view, requested)), first,
                      HiddenCount(Marked(h.view, requested)), pks, v)
    ensures PresentFinalize(s, start.state, sigs).Ok? <==>
            v.challenge != s.curve.zero && NoZero(s.curve, v.rKey) && NoIdentity(s.curve, v.randomized)
    ensures Below(Chosen(Marked(h.view, requested), Disclose), |h.messages|)
    ensures PresentFinalize(s, start.state, sigs).Ok? ==>
              var presented := PresentFinalize(s, start.state, sigs).value;
              var choices := Marked(h.view, requested);
              && (Verify(codec, s, presented, pk).Ok? <==>
                    first(0) != s.curve.zero && s.curve.SAdd(x, v.sig.e) != s.curve.zero && AllText(codec, h.messages, choices))
              && (Verify(codec, s, presented, pk).Ok? ==>
                    Verify(codec, s, presented, pk)
                    == Ok(PresentationResult(h.view.vct,
                            ShownClaims(codec, h.view.Pointers(), h.messages, Chosen(choices, Disclose)))))
  {
    hide OpenCredential, BlindProofGenInit, Marked, Accepted, EncodePresented, PayloadSlots, AllKnown, DecodeCarry, StateWidth,
         HiddenCount, Accept, PresentInit, Verify, BlindProofGenFinalize, BlindProofVerify, AllText, FitsFlow, ParseKeys,
         KeyGenerators, DeviceSigned, GenStateOctets, ProofOctets, Where, KeyRandomizers, NoZero, NoIdentity, Sort,
         CheckPresentationHeader, ParseHeader, KeyChallenges;
    h := AcceptedCredential(codec, s, jwp, pk, committed, keys, blind);
    var choices, split := Marked(h.view, requested), h.view.NumSignerMessages();
    var out := PresentInitForm(codec, s, x, jwp, pk, ph, requested, committed, keys, blind, first, second, h);
    FitsFlowFitsWire(h, ph, choices, |keys|);
    v := PresentationComplete(s, x, pk, h.issued.signature, h.issued.issuerHeader, ph, h.messages, split, choices, keys, pks,
                              h.blind, first, second, out, sigs);
    MarkedHasNoCommit(h.view, requested);
    NoneChosen(choices, Commit);
    NoCommitments(s.curve, v);
    if BlindProofGenFinalize(s, out.state, sigs).Ok? {
      VerifyForm(codec, s, pk, h, ph, choices, BlindProofGenFinalize(s, out.state, sigs).value);
    }
  }

  lemma NoCommitments(c: Curve, v: ProverRun)
    ensures v.commitments == [] ==> NoIdentity(c, v.commitments)
  {
  }

  /** The pointers the verifier is told are exactly the requested ones, each once, in message order. */
  lemma ShownAreRequested(codec: Codec, view: HeaderView, requested: seq<string>, messages: seq<Octets>, p: string)
    requires view.InOrder() && |messages| == view.NumMessages() && AllKnown(view, requested)
    ensures Below(Chosen(Marked(view, requested), Disclose), |messages|)
    ensures Increasing(Chosen(Marked(view, requested), Disclose))
    ensures var shown := ShownClaims(codec, view.Pointers(), messages, Chosen(Marked(view, requested), Disclose));
            && ((exists i :: 0 <= i < |shown| && shown[i].pointer == p) <==> p in requested)
            && forall i, j :: 0 <= i < j < |shown| ==> shown[i].pointer != shown[j].pointer
  {
    hide Where, Sort, FirstIndex, Marked, view.Pointers;
    var choices := Marked(view, requested);
    var indexes := Chosen(choices, Disclose);
    WhereIs(Mask(choices, Disclose));
    var shown := ShownClaims(codec, view.Pointers(), messages, indexes);
    if p in requested {
      var k :| 0 <= k < |requested| && requested[k] == p;
      var i := view.IndexOf(p).value;
      IndexOfIff(view, p, i);
      assert Requested(view, requested, i);
      assert i in indexes;
      var j :| 0 <= j < |indexes| && indexes[j] == i;
      assert shown[j].pointer == p;
    }
    if i :| 0 <= i < |shown| && shown[i].pointer == p {
      assert indexes[i] in indexes;
      var k :| 0 <= k < |requested| && view.IndexOf(requested[k]) == Some(indexes[i]);
      IndexOfIff(view, requested[k], indexes[i]);
    }
    forall i, j | 0 <= i < j < |shown| ensures shown[i].pointer != shown[j].pointer {
      MarkedIsFirst(view, requested, indexes[i]);
      MarkedIsFirst(view, requested, indexes[j]);
    }
  }

  /** A disclosed message is the first one with its pointer. */
  lemma MarkedIsFirst(view: HeaderView, requested: seq<string>, i: nat)
    requires view.InOrder() && i in Chosen(Marked(view, requested), Disclose)
    ensures i < view.NumMessages() && view.IndexOf(view.Pointers()[i]) == Some(i)
  {
    hide Where, Sort, FirstIndex, view.Pointers;
    WhereIs(Mask(Marked(view, requested), Disclose));
    var k :| 0 <= k < |requested| && view.IndexOf(requested[k]) == Some(i);
    IndexOfIff(view, requested[k], i);
  }
}
