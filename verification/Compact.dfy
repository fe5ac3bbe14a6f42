/** The compact serialization of issued and presented credentials (`src/jwp.rs`): octet strings in
    base64url, groups separated by `~`, parts separated by `.`. */
module Compact {
  import opened Wrappers
  import opened Octets
  import opened Text
  import Base64

  type Payload = Option<Octets>

  // ---- Groups ----

  function EncodeSlot(p: Payload): string {
    match p
    case None => ""
    case Some(b) => if b == [] then "_" else Base64.Encode(b)
  }

  function DecodeSlot(part: string): Result<Payload> {
    if part == "" then Ok(None)
    else if part == "_" then Ok(Some([]))
    else
      var b :- Base64.Decode(part);
      Ok(Some(b))
  }

  function EncodeSlots(values: seq<Payload>): (parts: seq<string>)
    ensures |parts| == |values|
    ensures forall i :: 0 <= i < |values| ==> parts[i] == EncodeSlot(values[i])
  {
    seq(|values|, i requires 0 <= i < |values| => EncodeSlot(values[i]))
  }

  function DecodeSlots(parts: seq<string>): (r: Result<seq<Payload>>)
    ensures r.Ok? ==> |r.value| == |parts|
  {
    if parts == [] then Ok([])
    else
      var first :- DecodeSlot(parts[0]);
      var rest :- DecodeSlots(parts[1..]);
      Ok([first] + rest)
  }

  function EncodeGroup(values: seq<Payload>): string {
    Join(EncodeSlots(values), '~')
  }

  function DecodeGroup(s: string): Result<seq<Payload>> {
    DecodeSlots(Split(s, '~'))
  }

  /** Omitted, empty and full slots all come back, and none uses a separator. */
  lemma SlotRoundTrip(p: Payload)
    ensures DecodeSlot(EncodeSlot(p)) == Ok(p)
    ensures '~' !in EncodeSlot(p) && '.' !in EncodeSlot(p)
  {
    if p.Some? && p.value != [] {
      Base64.DecodeOfEncode(p.value);
      Base64.EncodeLength(p.value);
      Base64.EncodeHasNoSeparator(p.value);
    }
  }

  lemma {:induction false} SlotsRoundTrip(values: seq<Payload>)
    ensures DecodeSlots(EncodeSlots(values)) == Ok(values)
    ensures Free(EncodeSlots(values), '~') && Free(EncodeSlots(values), '.')
  {
    hide EncodeSlot, DecodeSlot;
    forall i | 0 <= i < |values| ensures '~' !in EncodeSlot(values[i]) && '.' !in EncodeSlot(values[i]) {
      SlotRoundTrip(values[i]);
    }
    if values != [] {
      SlotRoundTrip(values[0]);
      SlotsRoundTrip(values[1..]);
      assert EncodeSlots(values)[1..] == EncodeSlots(values[1..]);
      assert [values[0]] + values[1..] == values;
    }
  }

  /** A group comes back exactly when it has a slot: no slot at all reads as one omitted slot. */
  lemma GroupRoundTripIff(values: seq<Payload>)
    ensures DecodeGroup(EncodeGroup(values)) == Ok(values) <==> values != []
    ensures values == [] ==> DecodeGroup(EncodeGroup(values)) == Ok([None])
  {
    SlotsRoundTrip(values);
    if values != [] {
      SplitOfJoin(EncodeSlots(values), '~');
    } else {
      assert Split("", '~') == [""] && [""][1..] == [];
      assert EncodeGroup(values) == "";
      var omitted: seq<Payload> := [None];
      assert DecodeSlots([""]) == Ok(omitted + []);
      assert omitted + [] == omitted;
    }
  }

  /** The only other spelling of a slot is one whose last character carries unused bits. */
  predicate CanonicalSlot(part: string) {
    part == "_" || Base64.UnusedBitsZero(part)
  }

  /** Every slot of a part is spelled with zero unused bits. */
  predicate CanonicalGroup(part: string) {
    forall i :: 0 <= i < |Split(part, '~')| ==> CanonicalSlot(Split(part, '~')[i])
  }

  lemma SlotCanonicalIff(part: string)
    requires DecodeSlot(part).Ok?
    ensures EncodeSlot(DecodeSlot(part).value) == part <==> CanonicalSlot(part)
  {
    if part != "" && part != "_" {
      Base64.EncodeOfDecodeIff(part);
      DecodedIsNotEmpty(part);
    }
  }

  lemma DecodedIsNotEmpty(s: string)
    requires s != "" && Base64.Decode(s).Ok?
    ensures Base64.Decode(s).value != []
  {
    hide Base64.DecodeChunk;
    var n := Base64.Min(4, |s|);
    assert |Base64.DecodeChunk(s[..n])| == n - 1;
  }

  lemma {:induction false} SlotsDecoded(parts: seq<string>)
    requires DecodeSlots(parts).Ok?
    ensures forall i :: 0 <= i < |parts| ==> DecodeSlot(parts[i]) == Ok(DecodeSlots(parts).value[i])
  {
    hide DecodeSlot;
    if parts != [] {
      SlotsDecoded(parts[1..]);
      forall i | 0 <= i < |parts| ensures DecodeSlot(parts[i]) == Ok(DecodeSlots(parts).value[i]) {
        assert i > 0 ==> parts[i] == parts[1..][i - 1];
      }
    }
  }

  /** An accepted group is the encoding of what it decodes to exactly when each slot is spelled
      with zero unused bits. */
  lemma GroupCanonicalIff(s: string)
    requires DecodeGroup(s).Ok?
    ensures EncodeGroup(DecodeGroup(s).value) == s <==> CanonicalGroup(s)
  {
    hide EncodeSlot, DecodeSlot, Split, Join;
    var parts, values := Split(s, '~'), DecodeGroup(s).value;
    JoinOfSplit(s, '~');
    SlotsDecoded(parts);
    SlotsRoundTrip(values);
    forall i | 0 <= i < |parts| ensures EncodeSlot(values[i]) == parts[i] <==> CanonicalSlot(parts[i]) {
      SlotCanonicalIff(parts[i]);
    }
    if Join(EncodeSlots(values), '~') == Join(parts, '~') {
      JoinInjective(EncodeSlots(values), parts, '~');
    }
    if forall i :: 0 <= i < |parts| ==> CanonicalSlot(parts[i]) {
      assert EncodeSlots(values) == parts;
    }
  }

  // ---- Credentials ----

  datatype IssuedJwp = IssuedJwp(issuerHeader: Octets, payloads: seq<Octets>, signature: Octets)

  function AllPresent(payloads: seq<Octets>): (r: seq<Payload>)
    ensures |r| == |payloads|
    ensures forall i :: 0 <= i < |payloads| ==> r[i] == Some(payloads[i])
  {
    seq(|payloads|, i requires 0 <= i < |payloads| => Some(payloads[i]))
  }

  function RequirePresent(slots: seq<Payload>): (r: Result<seq<Octets>>)
    ensures r.Ok? ==> |r.value| == |slots|
  {
    if slots == [] then Ok([])
    else if slots[0].None? then Err(MalformedContainer)
    else
      var rest :- RequirePresent(slots[1..]);
      Ok([slots[0].value] + rest)
  }

  function EncodeIssued(x: IssuedJwp): string {
    Base64.Encode(x.issuerHeader) + "." + EncodeGroup(AllPresent(x.payloads)) + "." + EncodeGroup([Some(x.signature)])
  }

  /** The one octet string a proof group must hold. */
  function DecodeProof(part: string): Result<Octets> {
    var proof :- DecodeGroup(part);
    if |proof| != 1 then Err(MalformedContainer)
    else if proof[0].None? then Err(MalformedContainer)
    else Ok(proof[0].value)
  }

  function DecodeIssued(s: string): Result<IssuedJwp> {
    var parts := Split(s, '.');
    if |parts| != 3 then Err(MalformedContainer)
    else
      var header :- Base64.Decode(parts[0]);
      var slots :- DecodeGroup(parts[1]);
      var payloads :- RequirePresent(slots);
      var signature :- DecodeProof(parts[2]);
      Ok(IssuedJwp(header, payloads, signature))
  }

  datatype PresentedJwp = PresentedJwp(presentationHeader: Octets, issuerHeader: Octets, payloads: seq<Payload>, proof: Octets)

  function EncodePresented(x: PresentedJwp): string {
    Base64.Encode(x.presentationHeader) + "." + Base64.Encode(x.issuerHeader) + "." + EncodeGroup(x.payloads) + "."
    + EncodeGroup([Some(x.proof)])
  }

  function DecodePresented(s: string): Result<PresentedJwp> {
    var parts := Split(s, '.');
    if |parts| != 4 then Err(MalformedContainer)
    else
      var ph :- Base64.Decode(parts[0]);
      var header :- Base64.Decode(parts[1]);
      var payloads :- DecodeGroup(parts[2]);
      var proof :- DecodeProof(parts[3]);
      Ok(PresentedJwp(ph, header, payloads, proof))
  }

  lemma {:induction false} PresentRoundTrip(payloads: seq<Octets>)
    ensures RequirePresent(AllPresent(payloads)) == Ok(payloads)
  {
    if payloads != [] {
      PresentRoundTrip(payloads[1..]);
      assert AllPresent(payloads)[1..] == AllPresent(payloads[1..]);
      assert [payloads[0]] + payloads[1..] == payloads;
    }
  }

  lemma {:induction false} JoinFree(parts: seq<string>, sep: char, other: char)
    requires Free(parts, other) && sep != other
    ensures other !in Join(parts, sep)
  {
    if |parts| > 1 {
      JoinFree(parts[1..], sep, other);
    }
  }

  lemma GroupHasNoDot(values: seq<Payload>)
    ensures '.' !in EncodeGroup(values)
  {
    SlotsRoundTrip(values);
    JoinFree(EncodeSlots(values), '~', '.');
  }

  lemma ProofRoundTrip(proof: Octets)
    ensures DecodeProof(EncodeGroup([Some(proof)])) == Ok(proof)
  {
    GroupRoundTripIff([Some(proof)]);
  }

  lemma ThreeParts(a: string, b: string, c: string)
    requires '.' !in a && '.' !in b && '.' !in c
    ensures Split(a + "." + b + "." + c, '.') == [a, b, c]
  {
    SplitFree(c, '.');
    SplitAfter(b, c, '.');
    SplitAfter(a, b + "." + c, '.');
    assert a + "." + (b + "." + c) == a + "." + b + "." + c;
  }

  lemma FourParts(a: string, b: string, c: string, d: string)
    requires '.' !in a && '.' !in b && '.' !in c && '.' !in d
    ensures Split(a + "." + b + "." + c + "." + d, '.') == [a, b, c, d]
  {
    ThreeParts(b, c, d);
    SplitAfter(a, b + "." + c + "." + d, '.');
    assert a + "." + (b + "." + c + "." + d) == a + "." + b + "." + c + "." + d;
  }

  /** The issued form comes back exactly when it carries a payload. */
  lemma IssuedRoundTripIff(x: IssuedJwp)
    ensures DecodeIssued(EncodeIssued(x)) == Ok(x) <==> x.payloads != []
    ensures x.payloads == [] ==> DecodeIssued(EncodeIssued(x)) == Err(MalformedContainer)
  {
    hide Base64.Encode, Base64.Decode, EncodeGroup, DecodeGroup, DecodeProof, Split;
    var payloads, signature := AllPresent(x.payloads), [Some(x.signature)];
    Base64.EncodeHasNoSeparator(x.issuerHeader);
    GroupHasNoDot(payloads);
    GroupHasNoDot(signature);
    ThreeParts(Base64.Encode(x.issuerHeader), EncodeGroup(payloads), EncodeGroup(signature));
    Base64.DecodeOfEncode(x.issuerHeader);
    GroupRoundTripIff(payloads);
    PresentRoundTrip(x.payloads);
    ProofRoundTrip(x.signature);
  }

  lemma RequiredIsPresent(slots: seq<Payload>)
    requires RequirePresent(slots).Ok?
    ensures AllPresent(RequirePresent(slots).value) == slots
  {
    if slots != [] {
      RequiredIsPresent(slots[1..]);
      assert slots == [slots[0]] + slots[1..];
    }
  }

  lemma ProofPartIs(part: string)
    requires DecodeProof(part).Ok?
    ensures DecodeGroup(part) == Ok([Some(DecodeProof(part).value)])
  {
    hide DecodeGroup;
    var slots := DecodeGroup(part).value;
    assert slots == [slots[0]];
  }

  lemma JoinThree(a: string, b: string, c: string)
    ensures Join([a, b, c], '.') == a + "." + b + "." + c
  {
    assert [a, b, c][1..] == [b, c] && [b, c][1..] == [c];
    assert Join([c], '.') == c && Join([b, c], '.') == b + "." + c;
    assert a + "." + (b + "." + c) == a + "." + b + "." + c;
  }

  lemma JoinFour(a: string, b: string, c: string, d: string)
    ensures Join([a, b, c, d], '.') == a + "." + b + "." + c + "." + d
  {
    JoinThree(b, c, d);
    assert [a, b, c, d][1..] == [b, c, d];
    assert a + "." + (b + "." + c + "." + d) == a + "." + b + "." + c + "." + d;
  }

  lemma SameParts(a: seq<string>, b: seq<string>)
    requires a != [] && b != [] && Free(a, '.') && Free(b, '.')
    ensures Join(a, '.') == Join(b, '.') <==> a == b
  {
    if Join(a, '.') == Join(b, '.') {
      JoinInjective(a, b, '.');
    }
  }

  /** Of all strings that are accepted as an issued form, exactly the canonically spelled ones are the encoding of
      what they decode to: no other string is accepted for it. */
  lemma IssuedCanonicalIff(s: string)
    requires DecodeIssued(s).Ok?
    ensures var parts := Split(s, '.');
            && |parts| == 3
            && (EncodeIssued(DecodeIssued(s).value) == s <==>
                  Base64.UnusedBitsZero(parts[0]) && CanonicalGroup(parts[1]) && CanonicalGroup(parts[2]))
  {
    hide Base64.Encode, Base64.Decode, Base64.UnusedBitsZero, EncodeGroup, DecodeGroup, DecodeProof, Split, Join, CanonicalGroup;
    var parts, x := Split(s, '.'), DecodeIssued(s).value;
    JoinOfSplit(s, '.');
    Base64.EncodeOfDecodeIff(parts[0]);
    GroupCanonicalIff(parts[1]);
    RequiredIsPresent(DecodeGroup(parts[1]).value);
    ProofPartIs(parts[2]);
    GroupCanonicalIff(parts[2]);
    var own := [Base64.Encode(x.issuerHeader), EncodeGroup(AllPresent(x.payloads)), EncodeGroup([Some(x.signature)])];
    Base64.EncodeHasNoSeparator(x.issuerHeader);
    GroupHasNoDot(AllPresent(x.payloads));
    GroupHasNoDot([Some(x.signature)]);
    JoinThree(own[0], own[1], own[2]);
    SameParts(own, parts);
    assert parts == [parts[0], parts[1], parts[2]];
  }

  /** Likewise for the presented form. */
  lemma PresentedCanonicalIff(s: string)
    requires DecodePresented(s).Ok?
    ensures var parts := Split(s, '.');
            && |parts| == 4
            && (EncodePresented(DecodePresented(s).value) == s <==>
                  Base64.UnusedBitsZero(parts[0]) && Base64.UnusedBitsZero(parts[1]) && CanonicalGroup(parts[2])
                  && CanonicalGroup(parts[3]))
  {
    hide Base64.Encode, Base64.Decode, Base64.UnusedBitsZero, EncodeGroup, DecodeGroup, DecodeProof, Split, Join, CanonicalGroup;
    var parts, x := Split(s, '.'), DecodePresented(s).value;
    JoinOfSplit(s, '.');
    Base64.EncodeOfDecodeIff(parts[0]);
    Base64.EncodeOfDecodeIff(parts[1]);
    GroupCanonicalIff(parts[2]);
    ProofPartIs(parts[3]);
    GroupCanonicalIff(parts[3]);
    var own := [Base64.Encode(x.presentationHeader), Base64.Encode(x.issuerHeader), EncodeGroup(x.payloads),
                EncodeGroup([Some(x.proof)])];
    Base64.EncodeHasNoSeparator(x.presentationHeader);
    Base64.EncodeHasNoSeparator(x.issuerHeader);
    GroupHasNoDot(x.payloads);
    GroupHasNoDot([Some(x.proof)]);
    JoinFour(own[0], own[1], own[2], own[3]);
    SameParts(own, parts);
    assert parts == [parts[0], parts[1], parts[2], parts[3]];
  }

  /** The presented form comes back exactly when it has a payload slot. */
  lemma PresentedRoundTripIff(x: PresentedJwp)
    ensures DecodePresented(EncodePresented(x)) == Ok(x) <==> x.payloads != []
  {
    hide Base64.Encode, Base64.Decode, EncodeGroup, DecodeGroup, DecodeProof, Split;
    var proof := [Some(x.proof)];
    Base64.EncodeHasNoSeparator(x.presentationHeader);
    Base64.EncodeHasNoSeparator(x.issuerHeader);
    GroupHasNoDot(x.payloads);
    GroupHasNoDot(proof);
    FourParts(Base64.Encode(x.presentationHeader), Base64.Encode(x.issuerHeader), EncodeGroup(x.payloads), EncodeGroup(proof));
    Base64.DecodeOfEncode(x.presentationHeader);
    Base64.DecodeOfEncode(x.issuerHeader);
    GroupRoundTripIff(x.payloads);
    ProofRoundTrip(x.proof);
  }
}
