/** What each call of the credential flows accepts, over all inputs (`src/flow.rs`, `src/go_ffi.rs`). */
module FlowAccepts {
  import opened Wrappers
  import opened Octets
  import opened Sorting
  import opened Json
  import opened ClaimMap
  import opened MapRoundTrip
  import opened Headers
  import opened Compact
  import opened Curves
  import opened Suites
  import opened CommitWire
  import opened Issuance
  import opened IssuanceTheorems
  import opened Presentation
  import opened Acceptance
  import opened Flow

  // ---- The issuer's header ----

  /** `members` are a header of this program that reads as `view`. */
  ghost predicate ReadsAs(members: seq<Member>, view: HeaderView) {
    && Get(members, "alg") == Some(Text("BBS-MOD")) && Get(members, "vct") == Some(Text(view.vct))
    && (view.kb == match Get(members, "kb") case Some(Text(kb)) => Some(kb) case _ => None)
    && (view.kb.Some? ==> view.kb.value == "schnorr-bls12381g1-commit-v0")
    && Get(members, "cmap").Some? && Walk("", Get(members, "cmap").value).Ok?
    && Sort(Walk("", Get(members, "cmap").value).value, ClaimLe) == view.issuerClaims
    && match Get(members, "hcmap")
       case Some(hcmap) => Walk("", hcmap).Ok? && Sort(Walk("", hcmap).value, ClaimLe) == view.holderClaims
       case None => view.holderClaims == []
  }

  /** Of all octet strings exactly those parse to `view` that are such a header and name every message once, the
      issuer's first and in order. */
  lemma ParseHeaderIff(codec: Codec, octets: Octets, view: HeaderView)
    ensures ParseHeader(codec, octets) == Ok(view) <==>
            view.InOrder() && exists members :: codec.parse(octets) == Some(Object(members)) && ReadsAs(members, view)
  {
    hide Walk, Sort, Get, ChecksPass, view.InOrder;
    NothingSorted();
    forall members | HeaderMembers(codec, octets) == Ok(members)
      ensures ReadHeader(members) == Ok(view) <==> ReadsAs(members, view)
    {
    }
    if HeaderMembers(codec, octets).Ok? && ReadHeader(HeaderMembers(codec, octets).value) == Ok(view) {
      HeaderIsSorted(HeaderMembers(codec, octets).value);
      ChecksPassIff(view);
    }
  }

  lemma NothingSorted()
    ensures Sort([], ClaimLe) == []
  {
  }

  // ---- Issuing ----

  /** Over all inputs the issuer's side is fixed exactly when the claims build, the commitment can be read and has as
      many messages as there are pointers, the pointers build, and the arguments fit. */
  lemma IssuerSideAcceptsIff(codec: Codec, c: Curve, o: Octets, vct: string, claims: Value, pointers: seq<string>, extra: Value,
                             selector: nat)
    requires c.Laws()
    ensures IssuerSide(codec, c, o, vct, claims, pointers, extra, selector).Ok? <==>
            && BuildCmap(codec, claims, 0).Ok?
            && exists x :: && GoodCommitProof(c, x) && o == CommitProofOctets(c, x)
                           && |x.mHat| == |pointers| && IssuerInputsFit(extra, selector, |x.keys|)
                           && (pointers == [] || BuildCmapFromPointers(pointers, |BuildCmap(codec, claims, 0).value.messages|).Ok?)
  {
    hide BuildCmap, BuildCmapFromPointers, BuildIssuerHeader, CommitProofFromOctets, CommitProofOctets, GoodCommitProof;
    forall x | GoodCommitProof(c, x) && o == CommitProofOctets(c, x) ensures CommitProofFromOctets(c, o) == Ok(x) {
      CommitProofFromOctetsIff(c, o, x);
    }
    if CommitProofFromOctets(c, o).Ok? {
      CommitProofFromOctetsIff(c, o, CommitProofFromOctets(c, o).value);
    }
    forall cmap: Value, hcmap: Option<Value>, kb: Option<string> | extra.Object?
      ensures BuildIssuerHeader(codec, vct, cmap, hcmap, kb, extra.members).Ok? <==>
              forall i :: 0 <= i < |extra.members| ==> extra.members[i].name !in ["alg", "vct", "kb", "cmap", "hcmap"]
    {
      BuildHeaderIff(codec, vct, cmap, hcmap, kb, extra.members);
    }
  }

  /** Over all inputs a credential is issued exactly when the side is fixed, the key is a scalar, and the commitment
      holds and signs to a point that is not the identity under `SK + e` not zero. */
  lemma IssueAcceptsIff(codec: Codec, s: Suite, key: Octets, pk: Octets, o: Octets, vct: string, claims: Value,
                        pointers: seq<string>, extra: Value, selector: nat)
    requires s.Valid()
    ensures Issue(codec, s, key, pk, o, vct, claims, pointers, extra, selector).Ok? <==>
            && IssuerSide(codec, s.curve, o, vct, claims, pointers, extra, selector).Ok?
            && var side := IssuerSide(codec, s.curve, o, vct, claims, pointers, extra, selector).value;
               exists sk, x :: && key == s.curve.ScalarOctets(sk) && Commits(s, o, x)
                               && IssuersPoint(s, pk, x, side.0, side.1) != s.curve.identity
                               && s.curve.SAdd(sk, SignerScalar(s, sk, IssuersPoint(s, pk, x, side.0, side.1))) != s.curve.zero
  {
    hide IssuerSide, BlindSign, Commits, IssuersPoint, SignerScalar;
    forall sk: Scalar ensures s.curve.ScalarFromBe(key) == Ok(sk) <==> key == s.curve.ScalarOctets(sk) {
      s.curve.ScalarFromBeIff(key, sk);
    }
    if IssuerSide(codec, s.curve, o, vct, claims, pointers, extra, selector).Ok? && s.curve.ScalarFromBe(key).Ok? {
      var side := IssuerSide(codec, s.curve, o, vct, claims, pointers, extra, selector).value;
      BlindSignIff(s, s.curve.ScalarFromBe(key).value, pk, o, side.0, side.1);
    }
  }

  // ---- Accepting ----

  /** Over all inputs the wallet accepts exactly an issued form whose header can be read and counts its payloads and
      the wallet's messages, a blind and keys that can be read, and a signature of the point they make up. */
  lemma AcceptIff(codec: Codec, s: Suite, jwp: string, pk: Octets, committed: seq<Octets>, keys: seq<Octets>, blind: Octets)
    requires s.Valid()
    ensures Accept(codec, s, jwp, pk, committed, keys, blind).Ok? <==>
            && DecodeIssued(jwp).Ok?
            && var x := DecodeIssued(jwp).value;
               && ParseHeader(codec, x.issuerHeader).Ok? && ParseKeys(s.curve, keys).Ok? && s.curve.PublicKeyExponent(pk).Ok?
               && var view := ParseHeader(codec, x.issuerHeader).value;
                  && |x.payloads| == |view.issuerClaims| && |committed| == |view.holderClaims|
                  && exists b :: && blind == s.curve.ScalarOctets(b)
                                 && Signs(s.curve, s.curve.PublicKeyExponent(pk).value, x.signature,
                                          HoldersPoint(s, pk, x.issuerHeader, x.payloads + committed, |x.payloads|,
                                                       ParseKeys(s.curve, keys).value, b))
  {
    hide DecodeIssued, ParseHeader, ParseKeys, VerifyBlindSign, Signs, HoldersPoint;
    forall b: Scalar ensures s.curve.ScalarFromBe(blind) == Ok(b) <==> blind == s.curve.ScalarOctets(b) {
      s.curve.ScalarFromBeIff(blind, b);
    }
    if OpenCredential(codec, s.curve, jwp, committed, blind).Ok? {
      var h := OpenCredential(codec, s.curve, jwp, committed, blind).value;
      VerifyBlindSignIff(s, pk, h.issued.signature, h.issued.issuerHeader, h.messages, h.view.NumSignerMessages(), keys, h.blind);
    }
  }

  // ---- Verifying ----

  /** Over all inputs the verifier accepts exactly a presented form whose headers can be read, with a slot for every
      message, a proof that holds for the filled slots, and text in every one of them. */
  lemma VerifyIff(codec: Codec, s: Suite, jwp: string, pk: Octets)
    requires s.Valid()
    ensures Verify(codec, s, jwp, pk).Ok? <==>
            && DecodePresented(jwp).Ok?
            && var x := DecodePresented(jwp).value;
               && ParseHeader(codec, x.issuerHeader).Ok? && CheckPresentationHeader(codec, x.presentationHeader).Ok?
               && s.curve.PublicKeyExponent(pk).Ok?
               && var view := ParseHeader(codec, x.issuerHeader).value;
                  && |x.payloads| == |view.issuerClaims| + |view.holderClaims|
                  && (forall i :: 0 <= i < |x.payloads| && x.payloads[i].Some? ==> codec.text(x.payloads[i].value).Some?)
                  && exists b :: && Encodes(s.curve, x.proof, b)
                                 && PresentationHolds(s, s.curve.PublicKeyExponent(pk).value, pk, b, x.issuerHeader,
                                                      x.presentationHeader, |view.issuerClaims|, Present(x.payloads),
                                                      SlotChoices(x.payloads))
  {
    hide DecodePresented, ParseHeader, CheckPresentationHeader, BlindProofVerify, PresentationHolds, Encodes, Present, DisclosedClaims;
    if DecodePresented(jwp).Ok? && PresentedHeader(codec, DecodePresented(jwp).value).Ok? {
      var x := DecodePresented(jwp).value;
      var view := PresentedHeader(codec, x).value;
      VerifierAcceptsIff(s, pk, x.proof, x.issuerHeader, x.presentationHeader, view.NumSignerMessages(), Present(x.payloads),
                         SlotChoices(x.payloads));
      DisclosedIff(codec, view.Pointers(), x.payloads);
    }
  }

  lemma {:induction false} DisclosedIff(codec: Codec, pointers: seq<string>, payloads: seq<Payload>)
    requires |pointers| >= |payloads|
    ensures DisclosedClaims(codec, pointers, payloads).Ok? <==>
            forall i :: 0 <= i < |payloads| && payloads[i].Some? ==> codec.text(payloads[i].value).Some?
  {
    if payloads != [] {
      DisclosedIff(codec, pointers, payloads[..|payloads| - 1]);
    }
  }
}
