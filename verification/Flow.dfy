/** The credential-level flows (`src/flow.rs`, and the issuing closure of `src/go_ffi.rs`): claims are
    mapped to messages, the arithmetic runs, and its result is mapped back. */
module Flow {
  import opened Wrappers
  import opened Octets
  import opened Json
  import opened ClaimMap
  import opened Headers
  import opened Compact
  import opened PresentCarry
  import opened Curves
  import opened Suites
  import opened Issuance
  import opened Presentation
  import CommitWire

  // ---- Issuing ----

  const KEYBIND_NONE: nat := 0
  const KEYBIND_SCHNORR: nat := 1

  /** The selector decides the `kb` member, and must agree with what the commitment binds. */
  function KeyBinding(selector: nat, keys: nat): Result<Option<string>> {
    if selector != KEYBIND_NONE && selector != KEYBIND_SCHNORR then Err(Unsupported)
    else if (selector == KEYBIND_SCHNORR) != (keys > 0) then Err(MalformedContainer)
    else Ok(if selector == KEYBIND_SCHNORR then Some(KB_SCHNORR) else None)
  }

  /** `commitment_shape`: how many messages and keys a commitment carries. */
  function CommitmentShape(c: Curve, commitment: Octets): Result<(nat, nat)> {
    var x :- CommitWire.CommitProofFromOctets(c, commitment);
    Ok((|x.mHat|, |x.keys|))
  }

  /** What the issuing call asks of its arguments beside the claims: nothing the caller adds is reserved, and the
      selector agrees with the number of keys. */
  predicate IssuerInputsFit(extra: Value, selector: nat, keys: nat) {
    && extra.Object?
    && (forall i :: 0 <= i < |extra.members| ==> extra.members[i].name !in ["alg", "vct", "kb", "cmap", "hcmap"])
    && ((selector == 0 && keys == 0) || (selector == 1 && keys > 0))
  }

  function HolderMap(pointers: seq<string>, first: nat): Result<Option<Value>> {
    if pointers == [] then Ok(None)
    else
      var hcmap :- BuildCmapFromPointers(pointers, first);
      Ok(Some(hcmap))
  }

  /** The header and the messages an issuance fixes before anything is signed. */
  function IssuerSide(codec: Codec, c: Curve, commitment: Octets, vct: string, claims: Value, holderPointers: seq<string>,
                      extra: Value, selector: nat): Result<(Octets, seq<Octets>)>
  {
    if !extra.Object? then Err(MalformedContainer)
    else
      var built :- BuildCmap(codec, claims, 0);
      var shape :- CommitmentShape(c, commitment);
      if |holderPointers| != shape.0 then Err(MalformedContainer)
      else
        var hcmap :- HolderMap(holderPointers, |built.messages|);
        var kb :- KeyBinding(selector, shape.1);
        var header :- BuildIssuerHeader(codec, vct, built.cmap, hcmap, kb, extra.members);
        Ok((header, built.messages))
  }

  /** The body of `zk_cred_bbs_jwp_issue`, on parsed JSON arguments. */
  function Issue(codec: Codec, s: Suite, sk: Octets, pk: Octets, commitment: Octets, vct: string, claims: Value,
                 holderPointers: seq<string>, extra: Value, selector: nat): Result<string>
  {
    var side :- IssuerSide(codec, s.curve, commitment, vct, claims, holderPointers, extra, selector);
    var key :- s.curve.ScalarFromBe(sk);
    var signature :- BlindSign(s, key, pk, commitment, side.0, side.1);
    Ok(EncodeIssued(IssuedJwp(side.0, side.1, signature)))
  }

  // ---- The wallet ----

  /** `committed_messages`: the holder's claims as the messages it commits to, and their pointers. */
  function CommittedMessages(codec: Codec, claims: Value): Result<(seq<Octets>, seq<string>)> {
    var built :- BuildCmap(codec, claims, 0);
    Ok((built.messages, built.pointers))
  }

  datatype CredentialInfo = CredentialInfo(vct: string, kb: Option<string>, pointers: seq<string>, numSignerMessages: nat)

  function InfoOf(view: HeaderView): CredentialInfo {
    CredentialInfo(view.vct, view.kb, view.Pointers(), view.NumSignerMessages())
  }

  /** `IssuedJwp::header` */
  function IssuedHeader(codec: Codec, x: IssuedJwp): Result<HeaderView> {
    var view :- ParseHeader(codec, x.issuerHeader);
    if view.NumSignerMessages() != |x.payloads| then Err(MalformedContainer) else Ok(view)
  }

  /** The issuer's payloads followed by the holder's committed messages. */
  function AllMessages(x: IssuedJwp, view: HeaderView, committed: seq<Octets>): (r: Result<seq<Octets>>)
    ensures r.Ok? ==> |r.value| == view.NumMessages()
  {
    if |x.payloads| + |committed| != view.NumMessages() then Err(MalformedContainer) else Ok(x.payloads + committed)
  }

  /** What `accept` and `present_init` read before they compute. */
  datatype Held = Held(issued: IssuedJwp, view: HeaderView, blind: Scalar, messages: seq<Octets>)

  function OpenCredential(codec: Codec, c: Curve, jwp: string, committed: seq<Octets>, blind: Octets): (r: Result<Held>)
    ensures r.Ok? ==> |r.value.messages| == r.value.view.NumMessages()
  {
    var issued :- DecodeIssued(jwp);
    var view :- IssuedHeader(codec, issued);
    var b :- c.ScalarFromBe(blind);
    var messages :- AllMessages(issued, view, committed);
    Ok(Held(issued, view, b, messages))
  }

  function Accept(codec: Codec, s: Suite, jwp: string, pk: Octets, committed: seq<Octets>, keys: seq<Octets>, blind: Octets)
    : Result<CredentialInfo>
  {
    var h :- OpenCredential(codec, s.curve, jwp, committed, blind);
    var _ :- VerifyBlindSign(s, pk, h.issued.signature, h.issued.issuerHeader, h.messages, h.view.NumSignerMessages(), keys,
                             h.blind);
    Ok(InfoOf(h.view))
  }

  /** A slot per message, filled where it is disclosed. */
  function PayloadSlots(messages: seq<Octets>, choices: seq<Disclosure>): (r: seq<Payload>)
    requires |messages| == |choices|
    ensures |r| == |messages|
    ensures forall i :: 0 <= i < |r| ==> r[i] == if choices[i] == Disclose then Some(messages[i]) else None
  {
    seq(|messages|, i requires 0 <= i < |messages| => if choices[i] == Disclose then Some(messages[i]) else None)
  }

  datatype PresentStart = PresentStart(state: Octets, keyChallenges: seq<Octets>)

  function PresentInit(codec: Codec, s: Suite, jwp: string, pk: Octets, ph: Octets, requested: seq<string>,
                       committed: seq<Octets>, keys: seq<Octets>, blind: Octets, first: Stream, second: Stream)
    : Result<PresentStart>
  {
    var h :- OpenCredential(codec, s.curve, jwp, committed, blind);
    var choices :- DisclosuresFor(h.view, requested);
    var out :- BlindProofGenInit(s, pk, h.issued.signature, h.issued.issuerHeader, ph, h.messages, h.view.NumSignerMessages(),
                                 choices, keys, h.blind, first, second);
    Ok(PresentStart(EncodeCarry(Carry(out.state, ph, h.issued.issuerHeader, PayloadSlots(h.messages, choices))),
                    out.keyChallenges))
  }

  function PresentFinalize(s: Suite, state: Octets, sigs: seq<Octets>): Result<string> {
    var x :- DecodeCarry(state);
    var proof :- BlindProofGenFinalize(s, x.inner, sigs);
    Ok(EncodePresented(PresentedJwp(x.presentationHeader, x.issuerHeader, x.payloads, proof)))
  }

  // ---- The verifier ----

  datatype DisclosedClaim = DisclosedClaim(pointer: string, value: string)
  datatype PresentationResult = PresentationResult(vct: string, disclosed: seq<DisclosedClaim>)

  /** `PresentedJwp::header` */
  function PresentedHeader(codec: Codec, x: PresentedJwp): Result<HeaderView> {
    var view :- ParseHeader(codec, x.issuerHeader);
    if view.NumMessages() != |x.payloads| then Err(MalformedContainer)
    else
      var _ :- CheckPresentationHeader(codec, x.presentationHeader);
      Ok(view)
  }

  /** The disclosure vector the payload slots describe. */
  function SlotChoices(payloads: seq<Payload>): (r: seq<Disclosure>)
    ensures |r| == |payloads|
    ensures forall i :: 0 <= i < |r| ==> r[i] == if payloads[i].Some? then Disclose else Hide
  {
    seq(|payloads|, i requires 0 <= i < |payloads| => if payloads[i].Some? then Disclose else Hide)
  }

  /** `payloads.iter().flatten()` */
  function Present(payloads: seq<Payload>): seq<Octets> {
    if payloads == [] then []
    else
      var n := |payloads| - 1;
      Present(payloads[..n]) + (if payloads[n].Some? then [payloads[n].value] else [])
  }

  function DisclosedClaims(codec: Codec, pointers: seq<string>, payloads: seq<Payload>): Result<seq<DisclosedClaim>>
    requires |pointers| >= |payloads|
  {
    if payloads == [] then Ok([])
    else
      var n := |payloads| - 1;
      var front :- DisclosedClaims(codec, pointers, payloads[..n]);
      match payloads[n]
      case None => Ok(front)
      case Some(bytes) =>
        match codec.text(bytes)
        case Some(value) => Ok(front + [DisclosedClaim(pointers[n], value)])
        case None => Err(MalformedContainer)
  }

  function Verify(codec: Codec, s: Suite, jwp: string, pk: Octets): Result<PresentationResult> {
    var x :- DecodePresented(jwp);
    var view :- PresentedHeader(codec, x);
    var _ :- BlindProofVerify(s, pk, x.proof, x.issuerHeader, x.presentationHeader, view.NumSignerMessages(),
                              Present(x.payloads), SlotChoices(x.payloads));
    var disclosed :- DisclosedClaims(codec, view.Pointers(), x.payloads);
    Ok(PresentationResult(view.vct, disclosed))
  }

  lemma {:induction false} DisclosedStops(codec: Codec, pointers: seq<string>, payloads: seq<Payload>, n: nat)
    requires |pointers| >= |payloads| >= n && DisclosedClaims(codec, pointers, payloads[..n]) == Err(MalformedContainer)
    ensures DisclosedClaims(codec, pointers, payloads) == Err(MalformedContainer)
  {
    if n < |payloads| {
      assert payloads[..|payloads| - 1][..n] == payloads[..n];
      DisclosedStops(codec, pointers, payloads[..|payloads| - 1], n);
    } else {
      assert payloads[..n] == payloads;
    }
  }

  /** `verify`: the loop pushes one claim per filled slot, once the proof has been checked. */
  method VerifyPresentation(codec: Codec, s: Suite, jwp: string, pk: Octets) returns (r: Result<PresentationResult>)
    ensures r == Verify(codec, s, jwp, pk)
  {
    hide DecodePresented, PresentedHeader, BlindProofVerify, Present;
    var x := DecodePresented(jwp);
    if x.Err? {
      return Err(x.error);
    }
    var view := PresentedHeader(codec, x.value);
    if view.Err? {
      return Err(view.error);
    }
    SameCount(codec, x.value);
    var checked := BlindProofVerify(s, pk, x.value.proof, x.value.issuerHeader, x.value.presentationHeader,
                                    view.value.NumSignerMessages(), Present(x.value.payloads), SlotChoices(x.value.payloads));
    if checked.Err? {
      return Err(checked.error);
    }
    var pointers, payloads := view.value.Pointers(), x.value.payloads;
    var disclosed := [];
    for i := 0 to |payloads|
      invariant DisclosedClaims(codec, pointers, payloads[..i]) == Ok(disclosed)
    {
      assert payloads[..i + 1][..i] == payloads[..i];
      if payloads[i].Some? {
        var value := codec.text(payloads[i].value);
        if value.None? {
          DisclosedStops(codec, pointers, payloads, i + 1);
          return Err(MalformedContainer);
        }
        disclosed := disclosed + [DisclosedClaim(pointers[i], value.value)];
      }
    }
    assert payloads[..|payloads|] == payloads;
    r := Ok(PresentationResult(view.value.vct, disclosed));
  }

  lemma SameCount(codec: Codec, x: PresentedJwp)
    ensures PresentedHeader(codec, x).Ok? ==> PresentedHeader(codec, x).value.NumMessages() == |x.payloads|
  {
  }
}
