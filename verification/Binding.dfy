/** A proof binds what it was accepted for (`src/blind.rs`, `src/flow.rs`): accepting it for anything else takes a
    collision between two octet strings that are named. */
module Binding {
  import opened Wrappers
  import opened Octets
  import opened Json
  import opened ClaimMap
  import opened Headers
  import opened Compact
  import opened Curves
  import opened Suites
  import opened Indexes
  import opened Bbs
  import opened ProofWire
  import opened Issuance
  import opened Presentation
  import opened Layout
  import opened ChallengeInputs
  import opened PresentationTheorems
  import opened Acceptance
  import opened Flow

  /** What the core verifier is told beside the proof. */
  datatype Statement = Statement(gens: seq<Point>, header: Octets, ph: Octets, disclosed: seq<Scalar>, shown: seq<nat>,
                                 committed: seq<nat>)

  ghost predicate HoldsFor(s: Suite, x: Scalar, pk: Octets, b: BlindProof, w: Statement) {
    ProofHolds(s, x, pk, b, w.gens, w.header, w.ph, w.disclosed, w.shown, w.committed)
  }

  /** The lengths and positions that are written in eight octets. */
  predicate FitsOctets(w: Statement) {
    |w.gens| < U64_LIMIT && |w.header| < U64_LIMIT && |w.ph| < U64_LIMIT
  }

  ghost predicate FitsFor(b: BlindProof, w: Statement) {
    Fits(b, w.gens, w.disclosed, w.shown, w.committed)
  }

  ghost function ImpliedFor(s: Suite, pk: Octets, b: BlindProof, w: Statement): (t: ChallengeInput)
    requires FitsFor(b, w)
    ensures t.Consistent()
  {
    Implied(s, pk, b, w.gens, w.header, w.ph, w.disclosed, w.shown, w.committed)
  }

  ghost function DomainFor(s: Suite, pk: Octets, w: Statement): Octets
    requires w.gens != []
  {
    DomainOctets(s, pk, w.gens[0], w.gens[1..], w.header)
  }

  /** The octets of the two domains, or of the two challenge inputs, collide. */
  ghost predicate StatementsCollide(s: Suite, pk: Octets, b: BlindProof, w: Statement, w': Statement)
    requires FitsFor(b, w) && FitsFor(b, w')
  {
    || ScalarsCollide(s.curve, s.apiId + Ascii("H2S_"), DomainFor(s, pk, w), DomainFor(s, pk, w'))
    || ScalarsCollide(s.curve, s.apiId + Ascii("H2S_"), ProofChallengeOctets(s.curve, ImpliedFor(s, pk, b, w)),
                      ProofChallengeOctets(s.curve, ImpliedFor(s, pk, b, w')))
  }

  lemma ImpliedCarries(s: Suite, pk: Octets, b: BlindProof, w: Statement)
    requires FitsFor(b, w)
    ensures w.gens != []
    ensures var t := ImpliedFor(s, pk, b, w);
            && t.ph == w.ph && t.disclosed == w.disclosed && t.disclosedIndexes == w.shown && t.commitIndexes == w.committed
            && t.init.domain == Hashed(s.curve, DomainFor(s, pk, w), s.apiId + Ascii("H2S_"))
            && |t.keys| == |b.keys|
            && (FitsOctets(w) ==> Small(t))
  {
    hide Complement, Positions, DisclosedB, VerifierT1, VerifierT2, Hashed, DomainOctets, Generator, RecomputedProofs, Pick,
         s.curve.SumPoints;
    FitsHides(b, w.gens, w.disclosed, w.shown, w.committed);
    HiddenSlotsWithKeys(|w.gens| - 1, 0, w.committed);
  }

  lemma HoldingHashes(s: Suite, x: Scalar, pk: Octets, b: BlindProof, w: Statement)
    requires HoldsFor(s, x, pk, b, w)
    ensures FitsFor(b, w)
    ensures b.proof.challenge
         == Hashed(s.curve, ProofChallengeOctets(s.curve, ImpliedFor(s, pk, b, w)), s.apiId + Ascii("H2S_"))
  {
    hide Implied, DevicesProve, Hashed, ProofChallengeOctets, Fits;
  }

  /** One proof that holds for two statements binds them together: the statements are the same, or two named octet
      strings collide. */
  lemma ProofBindsStatement(s: Suite, x: Scalar, pk: Octets, b: BlindProof, w: Statement, w': Statement)
    requires s.Valid()
    requires HoldsFor(s, x, pk, b, w) && HoldsFor(s, x, pk, b, w')
    requires FitsOctets(w) && FitsOctets(w')
    ensures FitsFor(b, w) && FitsFor(b, w')
    ensures w == w' || StatementsCollide(s, pk, b, w, w')
  {
    hide HoldsFor, FitsFor, ImpliedFor, Hashed, ProofChallengeOctets, DomainOctets, Small;
    HoldingHashes(s, x, pk, b, w);
    HoldingHashes(s, x, pk, b, w');
    ImpliedCarries(s, pk, b, w);
    ImpliedCarries(s, pk, b, w');
    var t, t' := ImpliedFor(s, pk, b, w), ImpliedFor(s, pk, b, w');
    if ProofChallengeOctets(s.curve, t) == ProofChallengeOctets(s.curve, t') {
      ProofChallengeInjective(s.curve, t, t');
      if DomainFor(s, pk, w) == DomainFor(s, pk, w') {
        DomainInjective(s, pk, w.gens[0], w.gens[1..], w.header, pk, w'.gens[0], w'.gens[1..], w'.header);
        assert w.gens == [w.gens[0]] + w.gens[1..] && w'.gens == [w'.gens[0]] + w'.gens[1..];
      }
    }
  }

  // ---- The presentation's verifier ----

  /** The statement the outer verifier derives. */
  function StatementOf(s: Suite, k: nat, header: Octets, ph: Octets, split: nat, disclosed: seq<Octets>,
                       choices: seq<Disclosure>): Statement
    requires split <= |choices|
  {
    Statement(AllGens(s, split, |choices|, k), header, ph, MessageScalars(s, disclosed),
              ProofIndexes(Chosen(choices, Disclose), split), ProofIndexes(Chosen(choices, Commit), split))
  }

  lemma AcceptedHolds(s: Suite, pk: Octets, o: Octets, b: BlindProof, header: Octets, ph: Octets, split: nat,
                      disclosed: seq<Octets>, choices: seq<Disclosure>)
    requires s.Valid()
    requires BlindProofFromOctets(s.curve, o) == Ok(b)
    requires BlindProofVerify(s, pk, o, header, ph, split, disclosed, choices).Ok?
    ensures split <= |choices| && CountsAgree(b, split, disclosed, choices) && s.curve.PublicKeyExponent(pk).Ok?
    ensures HoldsFor(s, s.curve.PublicKeyExponent(pk).value, pk, b, StatementOf(s, |b.keys|, header, ph, split, disclosed, choices))
    ensures PROOF_FLOOR + SCALAR_LENGTH * |b.proof.commitments| < U64_LIMIT
  {
    hide BlindProofVerify, ProofHolds, BlindProofFromOctets, AllGens, MessageScalars, ProofIndexes, Where, BlindProofOctets;
    VerifierAcceptsIff(s, pk, o, header, ph, split, disclosed, choices);
    forall d | Encodes(s.curve, o, d) ensures d == b {
      ReadIsEncoded(s.curve, o, d);
    }
    ReadIsEncoded(s.curve, o, b);
  }

  /** Two disclosed messages that are not the same hash to one scalar. */
  ghost predicate MessagesCollideAt(s: Suite, a: seq<Octets>, b: seq<Octets>) {
    exists i :: 0 <= i < |a| && i < |b|
                && ScalarsCollide(s.curve, s.apiId + Ascii("MAP_MSG_TO_SCALAR_AS_HASH_"), a[i], b[i])
  }

  lemma SameScalars(s: Suite, a: seq<Octets>, b: seq<Octets>)
    requires s.Valid() && MessageScalars(s, a) == MessageScalars(s, b)
    ensures a == b || MessagesCollideAt(s, a, b)
  {
    hide ScalarsCollide, MessageScalar;
    assert |a| == |MessageScalars(s, a)| && |b| == |MessageScalars(s, b)|;
    if a != b {
      var i :| 0 <= i < |a| && a[i] != b[i];
      ValidSuiteHashes(s);
      MessagesCollide(s, a, b, i);
    }
  }

  lemma SameSlots(choices: seq<Disclosure>, choices': seq<Disclosure>, d: Disclosure, split: nat)
    requires |choices| == |choices'| && split <= |choices|
    requires ProofIndexes(Chosen(choices, d), split) == ProofIndexes(Chosen(choices', d), split)
    ensures forall i :: 0 <= i < |choices| ==> (choices[i] == d <==> choices'[i] == d)
  {
    hide Where;
    var a, b := Chosen(choices, d), Chosen(choices', d);
    assert |a| == |ProofIndexes(a, split)| && |b| == |ProofIndexes(b, split)|;
    forall i | 0 <= i < |a| ensures a[i] == b[i] {
      assert ProofIndexes(a, split)[i] == ProofIndexes(b, split)[i];
    }
    assert a == b;
    WhereIs(Mask(choices, d));
    WhereIs(Mask(choices', d));
    forall i | 0 <= i < |choices| ensures choices[i] == d <==> choices'[i] == d {
      assert i in a <==> Mask(choices, d)[i];
      assert i in b <==> Mask(choices', d)[i];
    }
  }

  lemma SmallStatement(s: Suite, b: BlindProof, header: Octets, ph: Octets, split: nat, disclosed: seq<Octets>,
                       choices: seq<Disclosure>)
    requires split <= |choices| && CountsAgree(b, split, disclosed, choices)
    requires PROOF_FLOOR + SCALAR_LENGTH * |b.proof.commitments| < U64_LIMIT
    requires |choices| < U64_LIMIT / 2 && |header| < U64_LIMIT && |ph| < U64_LIMIT
    ensures FitsOctets(StatementOf(s, |b.keys|, header, ph, split, disclosed, choices))
  {
    hide Where, AllGens, MessageScalars, ProofIndexes;
    ChosenIsBelow(choices, Disclose);
  }

  /** What two accepted uses of one proof have in common, unless octets collide. */
  ghost predicate UsesCollide(s: Suite, pk: Octets, b: BlindProof, w: Statement, w': Statement, a: seq<Octets>, a': seq<Octets>) {
    (FitsFor(b, w) && FitsFor(b, w') && StatementsCollide(s, pk, b, w, w')) || MessagesCollideAt(s, a, a')
  }

  /** One proof accepted twice, where the split and the number of messages follow from the header: header,
      presentation header, disclosed messages and choices are the same, or two named octet strings collide. */
  lemma AcceptanceBinds(s: Suite, pk: Octets, o: Octets, header: Octets, ph: Octets, split: nat, disclosed: seq<Octets>,
                        choices: seq<Disclosure>, header': Octets, ph': Octets, split': nat, disclosed': seq<Octets>,
                        choices': seq<Disclosure>)
    requires s.Valid()
    requires BlindProofVerify(s, pk, o, header, ph, split, disclosed, choices).Ok?
    requires BlindProofVerify(s, pk, o, header', ph', split', disclosed', choices').Ok?
    requires header == header' ==> split == split' && |choices| == |choices'|
    requires |choices| < U64_LIMIT / 2 && |header| < U64_LIMIT && |ph| < U64_LIMIT
    requires |choices'| < U64_LIMIT / 2 && |header'| < U64_LIMIT && |ph'| < U64_LIMIT
    ensures BlindProofFromOctets(s.curve, o).Ok? && split <= |choices| && split' <= |choices'|
    ensures var b := BlindProofFromOctets(s.curve, o).value;
            || (header == header' && ph == ph' && disclosed == disclosed' && choices == choices')
            || UsesCollide(s, pk, b, StatementOf(s, |b.keys|, header, ph, split, disclosed, choices),
                           StatementOf(s, |b.keys|, header', ph', split', disclosed', choices'), disclosed, disclosed')
  {
    hide BlindProofVerify, BlindProofFromOctets, HoldsFor, StatementsCollide, MessagesCollideAt, AllGens, MessageScalars,
         ProofIndexes, Where, CountsAgree, FitsFor;
    OuterNeeds(s, pk, o, header, ph, split, disclosed, choices);
    var b, x := BlindProofFromOctets(s.curve, o).value, s.curve.PublicKeyExponent(pk).value;
    AcceptedHolds(s, pk, o, b, header, ph, split, disclosed, choices);
    AcceptedHolds(s, pk, o, b, header', ph', split', disclosed', choices');
    var w, w' := StatementOf(s, |b.keys|, header, ph, split, disclosed, choices),
                 StatementOf(s, |b.keys|, header', ph', split', disclosed', choices');
    SmallStatement(s, b, header, ph, split, disclosed, choices);
    SmallStatement(s, b, header', ph', split', disclosed', choices');
    ProofBindsStatement(s, x, pk, b, w, w');
    if w == w' {
      SameScalars(s, disclosed, disclosed');
      SameSlots(choices, choices', Disclose, split);
      SameSlots(choices, choices', Commit, split);
      assert choices == choices';
    }
  }

  // ---- The presented form ----

  lemma PresentSnoc(a: seq<Payload>, n: nat)
    requires |a| == n + 1
    ensures a[n].Some? ==> Present(a) == Present(a[..n]) + [a[n].value]
    ensures a[n].None? ==> Present(a) == Present(a[..n])
  {
    assert Present(a[..n]) + [] == Present(a[..n]);
  }

  /** Which slots are filled, and with what, is the whole list of slots. */
  lemma {:induction false} SlotsDetermined(a: seq<Payload>, b: seq<Payload>)
    requires SlotChoices(a) == SlotChoices(b) && Present(a) == Present(b)
    ensures a == b
  {
    hide Present;
    assert |SlotChoices(a)| == |a| && |SlotChoices(b)| == |b|;
    if a != [] {
      var n := |a| - 1;
      assert a[n].Some? <==> SlotChoices(a)[n] == Disclose;
      assert b[n].Some? <==> SlotChoices(b)[n] == Disclose;
      assert SlotChoices(a[..n]) == SlotChoices(a)[..n] && SlotChoices(b[..n]) == SlotChoices(b)[..n];
      PresentSnoc(a, n);
      PresentSnoc(b, n);
      if a[n].Some? {
        SplitLastOctets(Present(a[..n]), a[n].value, Present(b[..n]), b[n].value);
      }
      SlotsDetermined(a[..n], b[..n]);
      assert a == a[..n] + [a[n]] && b == b[..n] + [b[n]];
    }
  }

  lemma SplitLastOctets(a: seq<Octets>, x: Octets, b: seq<Octets>, y: Octets)
    requires a + [x] == b + [y]
    ensures a == b && x == y
  {
    assert |a + [x]| == |b + [y]|;
    assert (a + [x])[|a|] == x && (b + [y])[|b|] == y;
    assert (a + [x])[..|a|] == a && (b + [y])[..|b|] == b;
  }

  /** What an accepted presented form consists of. */
  lemma VerifiedParts(codec: Codec, s: Suite, jwp: string, pk: Octets) returns (x: PresentedJwp, view: HeaderView)
    requires Verify(codec, s, jwp, pk).Ok?
    ensures DecodePresented(jwp) == Ok(x) && ParseHeader(codec, x.issuerHeader) == Ok(view)
    ensures |x.payloads| == view.NumMessages() <= MAX_MESSAGES
    ensures CheckPresentationHeader(codec, x.presentationHeader).Ok?
    ensures BlindProofVerify(s, pk, x.proof, x.issuerHeader, x.presentationHeader, view.NumSignerMessages(), Present(x.payloads),
                             SlotChoices(x.payloads)).Ok?
  {
    hide DecodePresented, ParseHeader, BlindProofVerify, CheckPresentationHeader, DisclosedClaims, Present;
    x := DecodePresented(jwp).value;
    view := PresentedHeader(codec, x).value;
    AcceptedHeaderIsInOrder(codec, x.issuerHeader);
  }

  /** Two accepted presentations with one proof are the same presentation: issuer header, presentation header and
      every payload slot. Or two octet strings collide: of the domains, of the challenge inputs, or of two
      payloads in one place. */
  lemma VerifiedProofBinds(codec: Codec, s: Suite, jwp: string, jwp': string, pk: Octets)
    requires s.Valid()
    requires Verify(codec, s, jwp, pk).Ok? && Verify(codec, s, jwp', pk).Ok?
    ensures DecodePresented(jwp).Ok? && DecodePresented(jwp').Ok?
    ensures var x, x' := DecodePresented(jwp).value, DecodePresented(jwp').value;
            && ParseHeader(codec, x.issuerHeader).Ok? && ParseHeader(codec, x'.issuerHeader).Ok?
            && (x.proof == x'.proof && Writable(x) && Writable(x') && x != x' ==>
                  && BlindProofFromOctets(s.curve, x.proof).Ok?
                  && PresentationsCollide(codec, s, pk, BlindProofFromOctets(s.curve, x.proof).value, x, x'))
  {
    hide DecodePresented, ParseHeader, BlindProofVerify, CheckPresentationHeader, Verify, Present, UsesCollide, BlindProofFromOctets,
         StatementOf;
    var x, view := VerifiedParts(codec, s, jwp, pk);
    var x', view' := VerifiedParts(codec, s, jwp', pk);
    if x.proof == x'.proof && Writable(x) && Writable(x') {
      AcceptanceBinds(s, pk, x.proof, x.issuerHeader, x.presentationHeader, view.NumSignerMessages(), Present(x.payloads),
                      SlotChoices(x.payloads), x'.issuerHeader, x'.presentationHeader, view'.NumSignerMessages(),
                      Present(x'.payloads), SlotChoices(x'.payloads));
      if Present(x.payloads) == Present(x'.payloads) && SlotChoices(x.payloads) == SlotChoices(x'.payloads) {
        SlotsDetermined(x.payloads, x'.payloads);
      }
    }
  }

  /** Header lengths that eight octets can write. */
  predicate Writable(x: PresentedJwp) {
    |x.issuerHeader| < U64_LIMIT && |x.presentationHeader| < U64_LIMIT
  }

  /** `UsesCollide`, for what the verifier takes from two presented forms. */
  ghost predicate PresentationsCollide(codec: Codec, s: Suite, pk: Octets, b: BlindProof, x: PresentedJwp, x': PresentedJwp) {
    hide UsesCollide, StatementOf, ParseHeader, Present;
    && ParseHeader(codec, x.issuerHeader).Ok? && ParseHeader(codec, x'.issuerHeader).Ok?
    && var split, split' := ParseHeader(codec, x.issuerHeader).value.NumSignerMessages(),
                            ParseHeader(codec, x'.issuerHeader).value.NumSignerMessages();
       && split <= |SlotChoices(x.payloads)| && split' <= |SlotChoices(x'.payloads)|
       && UsesCollide(s, pk, b,
                      StatementOf(s, |b.keys|, x.issuerHeader, x.presentationHeader, split, Present(x.payloads), SlotChoices(x.payloads)),
                      StatementOf(s, |b.keys|, x'.issuerHeader, x'.presentationHeader, split', Present(x'.payloads), SlotChoices(x'.payloads)),
                      Present(x.payloads), Present(x'.payloads))
  }
}
