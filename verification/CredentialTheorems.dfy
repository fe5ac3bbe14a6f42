/** The credential end to end (`src/flow.rs`, `src/go_ffi.rs`): from claims trees to the claims a
    verifier is told. */
module CredentialTheorems {
  import opened Wrappers
  import opened Octets
  import opened Sorting
  import opened Pointers
  import opened Json
  import opened ClaimMap
  import opened LeafTheorems
  import opened MapRoundTrip
  import opened Headers
  import opened Compact
  import opened Curves
  import opened Serialize
  import opened Suites
  import opened Indexes
  import opened Bbs
  import opened CommitWire
  import opened Issuance
  import opened IssuanceTheorems
  import opened Presentation
  import opened PresentationTheorems
  import opened Flow
  import opened EndToEnd

  // ---- What both sides make of the claims ----

  /** Claims the map can carry (see `MapRecoveredIff`). */
  ghost predicate Usable(claims: Value) {
    WellFormed(claims) && claims.Object? && claims.members != [] && (NoEmptyName(claims) || LoneEmptyName(claims))
  }

  function LeafMessages(codec: Codec, leaves: seq<Leaf>): (r: seq<Octets>)
    ensures |r| == |leaves|
    ensures forall i :: 0 <= i < |leaves| ==> r[i] == codec.write(leaves[i].value)
  {
    seq(|leaves|, i requires 0 <= i < |leaves| => codec.write(leaves[i].value))
  }

  lemma MessagesAre(codec: Codec, claims: Value)
    ensures MessagesOf(codec, SortedEntries(claims)) == LeafMessages(codec, SortedLeaves(claims))
  {
    hide Render;
    SortedEntriesAre(claims);
  }

  /** A usable tree of up to 512 leaves builds from any first index, and its map can be walked again exactly when
      the last index is below 512. */
  lemma UsableBuilds(codec: Codec, claims: Value, first: nat) returns (b: Built)
    requires Usable(claims) && |SortedLeaves(claims)| <= MAX_MESSAGES
    ensures BuildCmap(codec, claims, first) == Ok(b)
    ensures b.messages == LeafMessages(codec, SortedLeaves(claims)) && b.pointers == LeafPointers(SortedLeaves(claims))
    ensures WellFormed(b.cmap)
    ensures Walk("", b.cmap).Ok? <==> first + |SortedLeaves(claims)| <= MAX_MESSAGES
    ensures Walk("", b.cmap).Ok? ==> Sort(Walk("", b.cmap).value, ClaimLe) == Expected(SortedLeaves(claims), first)
    ensures |SortedLeaves(claims)| >= 1
  {
    hide WellFormed, Leaves, Walk, Sort, InsertAll, NoEmptyName, LoneEmptyName, SortedLeaves, SortedEntries, PointersOf;
    SomeLeaf(claims);
    CarriedClaimsWalk(codec, claims, first);
    b := BuildCmap(codec, claims, first).value;
    SortedPointersAre(claims);
    MessagesAre(codec, claims);
    InsertAllWellFormed(PointersOf(SortedEntries(claims)), first);
  }

  /** The holder's side: no claims at all, or a usable tree. */
  function HolderLeaves(holder: Option<Value>): seq<Leaf> {
    match holder
    case Some(claims) => SortedLeaves(claims)
    case None => []
  }

  ghost predicate UsableHolder(holder: Option<Value>) {
    holder.Some? ==> Usable(holder.value)
  }

  /** The wallet commits to its leaves in pointer order, and sends their pointers. */
  lemma WalletCommits(codec: Codec, claims: Value)
    requires Usable(claims) && |SortedLeaves(claims)| <= MAX_MESSAGES
    ensures CommittedMessages(codec, claims)
         == Ok((LeafMessages(codec, SortedLeaves(claims)), LeafPointers(SortedLeaves(claims))))
  {
    hide Usable, BuildCmap, SortedLeaves;
    var b := UsableBuilds(codec, claims, 0);
  }

  /** Whatever order the pointers arrive in, the issuer's holder map builds, and walks to the holder's leaves
      exactly when their last index is below 512. */
  lemma HolderMapIs(codec: Codec, holder: Option<Value>, pointers: seq<string>, first: nat) returns (hcmap: Option<Value>)
    requires UsableHolder(holder) && |HolderLeaves(holder)| <= MAX_MESSAGES
    requires multiset(pointers) == multiset(LeafPointers(HolderLeaves(holder)))
    ensures HolderMap(pointers, first) == Ok(hcmap)
    ensures match hcmap
            case Some(v) => && WellFormed(v) && HolderLeaves(holder) != []
                            && (Walk("", v).Ok? <==> first + |HolderLeaves(holder)| <= MAX_MESSAGES)
                            && (Walk("", v).Ok? ==> Sort(Walk("", v).value, ClaimLe) == Expected(HolderLeaves(holder), first))
            case None => HolderLeaves(holder) == []
    ensures |pointers| == |HolderLeaves(holder)|
  {
    hide WellFormed, Leaves, Walk, Sort, BuildCmapFromPointers, BuildCmap, NoEmptyName, LoneEmptyName, SortedLeaves;
    SameLength(pointers, LeafPointers(HolderLeaves(holder)));
    match holder
    case None =>
      hcmap := None;
    case Some(claims) =>
      var b := UsableBuilds(codec, claims, first);
      SortedCount(claims);
      PermutedPointersBuildTheSame(codec, claims, pointers, first);
      hcmap := Some(b.cmap);
  }

  // ---- The issuer's header ----

  function HeaderFor(vct: string, selector: nat, issuer: seq<Leaf>, holder: seq<Leaf>): HeaderView {
    HeaderView(vct, if selector == KEYBIND_SCHNORR then Some(KB_SCHNORR) else None, Expected(issuer, 0), Expected(holder, |issuer|))
  }

  lemma HeaderForInOrder(vct: string, selector: nat, issuer: seq<Leaf>, holder: seq<Leaf>)
    requires 1 <= |issuer| + |holder| <= MAX_MESSAGES
    ensures HeaderFor(vct, selector, issuer, holder).InOrder()
  {
    hide Render;
  }

  /** The leaf behind message `i`. */
  function LeafOf(issuer: seq<Leaf>, holder: seq<Leaf>, i: nat): Leaf
    requires i < |issuer| + |holder|
  {
    if i < |issuer| then issuer[i] else holder[i - |issuer|]
  }

  lemma PointerOfMessage(vct: string, selector: nat, issuer: seq<Leaf>, holder: seq<Leaf>, i: nat)
    requires 1 <= |issuer| + |holder| <= MAX_MESSAGES && i < |issuer| + |holder|
    ensures HeaderFor(vct, selector, issuer, holder).Pointers()[i] == Render(Escaped(LeafOf(issuer, holder, i).path))
  {
    hide Render, Sort;
    HeaderForInOrder(vct, selector, issuer, holder);
    PointersInOrder(HeaderFor(vct, selector, issuer, holder));
  }

  lemma SamePointerIff(vct: string, selector: nat, issuer: seq<Leaf>, holder: seq<Leaf>, i: nat, j: nat)
    requires 1 <= |issuer| + |holder| <= MAX_MESSAGES && i < |issuer| + |holder| && j < |issuer| + |holder|
    ensures var view := HeaderFor(vct, selector, issuer, holder);
            view.Pointers()[i] == view.Pointers()[j] <==> LeafOf(issuer, holder, i).path == LeafOf(issuer, holder, j).path
  {
    hide Render, Sort, HeaderFor, Escaped;
    PointerOfMessage(vct, selector, issuer, holder, i);
    PointerOfMessage(vct, selector, issuer, holder, j);
    var p, q := LeafOf(issuer, holder, i).path, LeafOf(issuer, holder, j).path;
    if Render(Escaped(p)) == Render(Escaped(q)) {
      RenderInjective(Escaped(p), Escaped(q));
      EscapedInjective(p, q);
    }
  }

  predicate SharesNoPath(issuer: seq<Leaf>, holder: seq<Leaf>) {
    forall i, j :: 0 <= i < |issuer| && 0 <= j < |holder| ==> issuer[i].path != holder[j].path
  }

  lemma ResolvesWhenApart(vct: string, selector: nat, issuer: seq<Leaf>, holder: seq<Leaf>, i: nat)
    requires 1 <= |issuer| + |holder| <= MAX_MESSAGES && GoodLeaves(issuer) && GoodLeaves(holder)
    requires SharesNoPath(issuer, holder) && i < |issuer| + |holder|
    ensures var view := HeaderFor(vct, selector, issuer, holder); view.IndexOf(view.Pointers()[i]) == Some(i)
  {
    hide Sort, Render, FirstIndex, GoodLeaves, HeaderView.Pointers, HeaderFor, HeaderView.InOrder;
    var view := HeaderFor(vct, selector, issuer, holder);
    HeaderForInOrder(vct, selector, issuer, holder);
    GoodPathsDiffer(issuer);
    GoodPathsDiffer(holder);
    HeaderForCounts(vct, selector, issuer, holder);
    forall j | 0 <= j < i ensures view.Pointers()[j] != view.Pointers()[i] {
      SamePointerIff(vct, selector, issuer, holder, j, i);
    }
    IndexOfIff(view, view.Pointers()[i], i);
  }

  lemma ApartWhenResolves(vct: string, selector: nat, issuer: seq<Leaf>, holder: seq<Leaf>, i: nat, j: nat)
    requires 1 <= |issuer| + |holder| <= MAX_MESSAGES && i < |issuer| && j < |holder|
    requires var view := HeaderFor(vct, selector, issuer, holder);
             view.IndexOf(view.Pointers()[|issuer| + j]) == Some(|issuer| + j)
    ensures issuer[i].path != holder[j].path
  {
    hide Sort, Render, FirstIndex, HeaderView.Pointers, HeaderFor, HeaderView.InOrder;
    var view := HeaderFor(vct, selector, issuer, holder);
    HeaderForInOrder(vct, selector, issuer, holder);
    HeaderForCounts(vct, selector, issuer, holder);
    SamePointerIff(vct, selector, issuer, holder, i, |issuer| + j);
    IndexOfIff(view, view.Pointers()[|issuer| + j], |issuer| + j);
  }

  lemma HeaderForCounts(vct: string, selector: nat, issuer: seq<Leaf>, holder: seq<Leaf>)
    ensures HeaderFor(vct, selector, issuer, holder).NumMessages() == |issuer| + |holder|
  {
    hide Render;
  }

  /** Every claim can be asked for by its own pointer exactly when issuer and holder share no path:
      the header's checks do not see a pointer that both maps name. */
  lemma EveryClaimResolvesIff(vct: string, selector: nat, issuer: seq<Leaf>, holder: seq<Leaf>)
    requires 1 <= |issuer| + |holder| <= MAX_MESSAGES && GoodLeaves(issuer) && GoodLeaves(holder)
    ensures var view := HeaderFor(vct, selector, issuer, holder);
            (forall i :: 0 <= i < view.NumMessages() ==> view.IndexOf(view.Pointers()[i]) == Some(i)) <==>
            SharesNoPath(issuer, holder)
  {
    hide Sort, Render, FirstIndex, GoodLeaves, HeaderView.Pointers, HeaderFor, HeaderView.IndexOf;
    var view := HeaderFor(vct, selector, issuer, holder);
    HeaderForCounts(vct, selector, issuer, holder);
    if SharesNoPath(issuer, holder) {
      forall i | 0 <= i < view.NumMessages() ensures view.IndexOf(view.Pointers()[i]) == Some(i) {
        ResolvesWhenApart(vct, selector, issuer, holder, i);
      }
    }
    if forall i :: 0 <= i < view.NumMessages() ==> view.IndexOf(view.Pointers()[i]) == Some(i) {
      forall i, j | 0 <= i < |issuer| && 0 <= j < |holder| ensures issuer[i].path != holder[j].path {
        ApartWhenResolves(vct, selector, issuer, holder, i, j);
      }
    }
  }

  /** What a claim's own pointer, the one its side built from the claims tree, finds in the header: the message
      whose escaped path is that path. It need not be the claim's own, nor exist. */
  lemma OwnPointerFindsIff(vct: string, selector: nat, issuer: seq<Leaf>, holder: seq<Leaf>, i: nat, j: nat)
    requires 1 <= |issuer| + |holder| <= MAX_MESSAGES && GoodLeaves(issuer) && GoodLeaves(holder)
    requires SharesNoPath(issuer, holder) && i < |issuer| + |holder|
    ensures HeaderFor(vct, selector, issuer, holder).IndexOf((LeafPointers(issuer) + LeafPointers(holder))[i]) == Some(j) <==>
            j < |issuer| + |holder| && Escaped(LeafOf(issuer, holder, j).path) == LeafOf(issuer, holder, i).path
  {
    hide Sort, Render, FirstIndex, GoodLeaves, HeaderView.Pointers, HeaderFor, HeaderView.InOrder, HeaderView.IndexOf,
         SharesNoPath;
    var view, n := HeaderFor(vct, selector, issuer, holder), |issuer| + |holder|;
    var p := (LeafPointers(issuer) + LeafPointers(holder))[i];
    HeaderForInOrder(vct, selector, issuer, holder);
    HeaderForCounts(vct, selector, issuer, holder);
    IndexOfIff(view, p, j);
    forall k | 0 <= k < n ensures view.Pointers()[k] == p <==> Escaped(LeafOf(issuer, holder, k).path) == LeafOf(issuer, holder, i).path {
      OwnPointerAt(vct, selector, issuer, holder, i, k);
    }
    if j < n && view.Pointers()[j] == p {
      ResolvesWhenApart(vct, selector, issuer, holder, j);
    }
  }

  lemma OwnPointerAt(vct: string, selector: nat, issuer: seq<Leaf>, holder: seq<Leaf>, i: nat, k: nat)
    requires 1 <= |issuer| + |holder| <= MAX_MESSAGES && GoodLeaves(issuer) && GoodLeaves(holder)
    requires i < |issuer| + |holder| && k < |issuer| + |holder|
    ensures HeaderFor(vct, selector, issuer, holder).Pointers()[k] == (LeafPointers(issuer) + LeafPointers(holder))[i] <==>
            Escaped(LeafOf(issuer, holder, k).path) == LeafOf(issuer, holder, i).path
  {
    hide Sort, HeaderView.Pointers, HeaderFor, Escaped, PrefixFree;
    PointerOfMessage(vct, selector, issuer, holder, k);
    var p, q := Escaped(LeafOf(issuer, holder, k).path), LeafOf(issuer, holder, i).path;
    if Render(p) == Render(q) {
      RenderInjective(p, q);
    }
  }

  /** A claim's own pointer finds that claim exactly when no name on its path holds `~` or `/`. */
  lemma OwnPointerIsOwnIff(vct: string, selector: nat, issuer: seq<Leaf>, holder: seq<Leaf>, i: nat)
    requires 1 <= |issuer| + |holder| <= MAX_MESSAGES && GoodLeaves(issuer) && GoodLeaves(holder)
    requires SharesNoPath(issuer, holder) && i < |issuer| + |holder|
    ensures HeaderFor(vct, selector, issuer, holder).IndexOf((LeafPointers(issuer) + LeafPointers(holder))[i]) == Some(i) <==>
            Plain(LeafOf(issuer, holder, i).path)
  {
    hide Render, GoodLeaves, SharesNoPath, HeaderView.IndexOf, HeaderFor, Plain, LeafPointers;
    var path := LeafOf(issuer, holder, i).path;
    OwnPointerFindsIff(vct, selector, issuer, holder, i, i);
    PointerUnchangedIff(path);
    if Render(Escaped(path)) == Render(path) {
      RenderInjective(Escaped(path), path);
    }
  }

  lemma GoodPathsDiffer(leaves: seq<Leaf>)
    requires GoodLeaves(leaves)
    ensures forall i, j :: 0 <= i < j < |leaves| ==> leaves[i].path != leaves[j].path
  {
  }

  /** Each side's leaves fit a map of their own; together they may still be too many for one header. */
  predicate EachSideFits(issuer: seq<Leaf>, holder: seq<Leaf>) {
    |issuer| <= MAX_MESSAGES && |holder| <= MAX_MESSAGES
  }

  predicate TogetherFit(issuer: seq<Leaf>, holder: seq<Leaf>) {
    |issuer| + |holder| <= MAX_MESSAGES
  }

  /** The issuer builds a header exactly when each side has at most 512 leaves and its other inputs fit. Nothing
      counts both sides together, so that header can be read exactly when they do not exceed 512 leaves; it then
      names the issuer's leaves `0..s` and the holder's leaves `s..n`, each in pointer order. */
  lemma IssuerSideIff(codec: Codec, c: Curve, commitment: Octets, vct: string, issuer: Value, holder: Option<Value>,
                      pointers: seq<string>, extra: Value, selector: nat, keys: nat)
    requires codec.Laws() && Usable(issuer) && UsableHolder(holder) && WellFormed(extra)
    requires multiset(pointers) == multiset(LeafPointers(HolderLeaves(holder)))
    requires CommitmentShape(c, commitment) == Ok((|HolderLeaves(holder)|, keys))
    ensures var side := IssuerSide(codec, c, commitment, vct, issuer, pointers, extra, selector);
            && (side.Ok? <==> EachSideFits(SortedLeaves(issuer), HolderLeaves(holder)) && IssuerInputsFit(extra, selector, keys))
            && (side.Ok? ==>
                  && side.value.1 == LeafMessages(codec, SortedLeaves(issuer))
                  && (ParseHeader(codec, side.value.0).Ok? <==> TogetherFit(SortedLeaves(issuer), HolderLeaves(holder)))
                  && (ParseHeader(codec, side.value.0).Ok? ==>
                        ParseHeader(codec, side.value.0)
                        == Ok(HeaderFor(vct, selector, SortedLeaves(issuer), HolderLeaves(holder)))))
  {
    hide WellFormed, Leaves, Walk, Sort, BuildCmap, HolderMap, Usable, UsableHolder, BuildIssuerHeader, ParseHeader,
         CommitmentShape, SortedLeaves, HolderLeaves, LeafPointers, Expected, codec.Laws, HeaderView.InOrder;
    var il, hl := SortedLeaves(issuer), HolderLeaves(holder);
    TooManyLeaves(codec, issuer, holder, pointers);
    if EachSideFits(il, hl) && extra.Object? && KeyBinding(selector, keys).Ok? {
      var b := UsableBuilds(codec, issuer, 0);
      var hcmap := HolderMapIs(codec, holder, pointers, |il|);
      var kb := KeyBinding(selector, keys).value;
      BuildHeaderIff(codec, vct, b.cmap, hcmap, kb, extra.members);
      if BuildIssuerHeader(codec, vct, b.cmap, hcmap, kb, extra.members).Ok? {
        assert extra == Object(extra.members);
        if TogetherFit(il, hl) {
          HeaderForInOrder(vct, selector, il, hl);
          ExpectedNothing(hl, |il|);
          IssuerHeaderRoundTrip(codec, vct, b.cmap, hcmap, kb, extra.members, Expected(il, 0), Expected(hl, |il|));
        } else {
          UnwalkableHeaderIsRefused(codec, vct, b.cmap, hcmap.value, kb, extra.members);
        }
      }
    }
  }

  lemma TooManyLeaves(codec: Codec, issuer: Value, holder: Option<Value>, pointers: seq<string>)
    requires Usable(issuer) && multiset(pointers) == multiset(LeafPointers(HolderLeaves(holder)))
    ensures |SortedLeaves(issuer)| > MAX_MESSAGES ==> BuildCmap(codec, issuer, 0).Err?
    ensures |HolderLeaves(holder)| > MAX_MESSAGES ==> forall first :: HolderMap(pointers, first).Err?
  {
    hide SortedLeaves, SortedEntries, InsertAll;
    SortedCount(issuer);
    SameLength(pointers, LeafPointers(HolderLeaves(holder)));
  }

  lemma ExpectedNothing(leaves: seq<Leaf>, first: nat)
    ensures leaves == [] ==> Expected(leaves, first) == []
  {
  }

  // ---- Issue, then accept ----

  /** The commitment the issuer reads is the one the wallet made. */
  lemma HonestShape(s: Suite, st: CommitState, sigs: seq<Octets>, commitment: Octets)
    requires s.Valid()
    requires CommitFinalize(s, StateOctets(s.curve, st), sigs) == Ok(commitment)
    requires |st.mHat| < U64_LIMIT && |st.keys| < U64_LIMIT && |sigs| == |st.keys| && AllWidth(sigs)
    requires GoodState(s.curve, st)
    ensures CommitmentShape(s.curve, commitment) == Ok((|st.mHat|, |st.keys|))
  {
    hide StateFromOctets, StateOctets, CommitProofOctets, CommitProofFromOctets;
    var c := s.curve;
    StateFromOctetsIff(c, StateOctets(c, st), st);
    var x := CommitProof(st.c, st.keys, st.sHat, st.mHat, st.challenge, sigs);
    CommitProofFromOctetsIff(c, commitment, x);
  }

  /** The arguments of one honest issuance, on both sides. */
  datatype Issuing = Issuing(vct: string, issuer: Value, holder: Option<Value>, pointers: seq<string>, extra: Value,
                             selector: nat, keys: seq<Octets>, randoms: seq<Scalar>, sigs: seq<Octets>)

  function IssuerMessages(codec: Codec, x: Issuing): seq<Octets> {
    LeafMessages(codec, SortedLeaves(x.issuer))
  }

  function HolderMessages(codec: Codec, x: Issuing): seq<Octets> {
    LeafMessages(codec, HolderLeaves(x.holder))
  }

  function ViewOf(x: Issuing): HeaderView {
    HeaderFor(x.vct, x.selector, SortedLeaves(x.issuer), HolderLeaves(x.holder))
  }

  /** The wallet's two steps, the device signing in between. */
  function Commitment(codec: Codec, s: Suite, x: Issuing): Result<Octets>
    requires |x.randoms| == |HolderLeaves(x.holder)| + 2
  {
    var com :- CommitInit(s, HolderMessages(codec, x), x.keys, x.randoms);
    CommitFinalize(s, com.state, x.sigs)
  }

  /** Claims that the map can carry, of which the wallet can commit to its own, pointers in any order, and a device
      that signs the commitment's challenge with every key. */
  ghost predicate Honest(codec: Codec, s: Suite, sk: Scalar, pk: Octets, x: Issuing) {
    && s.Valid() && codec.Laws()
    && s.curve.PublicKeyExponent(pk) == Ok(sk)
    && Usable(x.issuer) && UsableHolder(x.holder) && WellFormed(x.extra)
    && |HolderLeaves(x.holder)| <= MAX_MESSAGES
    && multiset(x.pointers) == multiset(LeafPointers(HolderLeaves(x.holder)))
    && |x.randoms| == |HolderLeaves(x.holder)| + 2 && |x.keys| < U64_LIMIT
    && CommitInit(s, HolderMessages(codec, x), x.keys, x.randoms).Ok?
    && ParseKeys(s.curve, x.keys).Ok?
    && DeviceSigned(s.curve, KeyGenerators(s, |x.keys|), ParseKeys(s.curve, x.keys).value, x.sigs,
                    Repeat(s.curve.ScalarOctets(CommitInit(s, HolderMessages(codec, x), x.keys, x.randoms).value.challenge),
                           |x.keys|))
  }

  function AcceptFor(codec: Codec, s: Suite, pk: Octets, x: Issuing, jwp: string): Result<CredentialInfo>
    requires x.randoms != []
  {
    Accept(codec, s, jwp, pk, HolderMessages(codec, x), x.keys, s.curve.ScalarOctets(x.randoms[0]))
  }

  /** Opening the issued form gives back the header, the messages and the blind that went in. */
  lemma IssuedOpens(codec: Codec, c: Curve, header: Octets, issuer: seq<Octets>, signature: Octets, view: HeaderView,
                    committed: seq<Octets>, blind: Scalar)
    requires c.Laws() && issuer != []
    requires ParseHeader(codec, header) == Ok(view)
    requires view.NumSignerMessages() == |issuer| && view.NumMessages() == |issuer| + |committed|
    ensures var issued := IssuedJwp(header, issuer, signature);
            OpenCredential(codec, c, EncodeIssued(issued), committed, c.ScalarOctets(blind))
            == Ok(Held(issued, view, blind, issuer + committed))
  {
    hide EncodeIssued, DecodeIssued, ParseHeader;
    IssuedRoundTripIff(IssuedJwp(header, issuer, signature));
    c.ScalarFromBeIff(c.ScalarOctets(blind), blind);
  }

  lemma UnreadableDoesNotOpen(codec: Codec, c: Curve, header: Octets, issuer: seq<Octets>, signature: Octets,
                              committed: seq<Octets>, blind: Scalar)
    requires issuer != [] && ParseHeader(codec, header).Err?
    ensures OpenCredential(codec, c, EncodeIssued(IssuedJwp(header, issuer, signature)), committed, c.ScalarOctets(blind)).Err?
  {
    hide EncodeIssued, DecodeIssued, ParseHeader;
    IssuedRoundTripIff(IssuedJwp(header, issuer, signature));
  }

  /** What the issuing call asks of its arguments. */
  predicate InputsFit(x: Issuing) {
    && EachSideFits(SortedLeaves(x.issuer), HolderLeaves(x.holder))
    && IssuerInputsFit(x.extra, x.selector, |x.keys|)
  }

  /** The two sides fit one header. */
  predicate CanBeRead(x: Issuing) {
    TogetherFit(SortedLeaves(x.issuer), HolderLeaves(x.holder))
  }

  /** The wallet opens the credential to the header, the claims' messages and its own blind. */
  predicate Opens(codec: Codec, c: Curve, x: Issuing, jwp: string, header: Octets)
    requires x.randoms != []
  {
    var h := OpenCredential(codec, c, jwp, HolderMessages(codec, x), c.ScalarOctets(x.randoms[0]));
    && h.Ok? && h.value.view == ViewOf(x) && h.value.issued.issuerHeader == header && h.value.blind == x.randoms[0]
    && h.value.messages == IssuerMessages(codec, x) + HolderMessages(codec, x)
  }

  /** What the two sides computed on the way: the wallet's commitment state, the header the issuer built, and the
      point both sides sign and check. The state is determined by its octets; header and point are determined
      whenever the issuer's side succeeds. */
  ghost predicate Made(codec: Codec, s: Suite, pk: Octets, x: Issuing, st: CommitState, header: Octets, b: Point)
    requires |x.randoms| == |HolderLeaves(x.holder)| + 2
  {
    && CommitInit(s, HolderMessages(codec, x), x.keys, x.randoms)
       == Ok(CommitInitOutput(StateOctets(s.curve, st), x.randoms[0], st.challenge))
    && ParseKeys(s.curve, x.keys) == Ok(st.keys) && |st.mHat| == |HolderLeaves(x.holder)|
    && (SideFor(codec, s, x).Ok? ==> SideFor(codec, s, x).value.0 == header)
    && HonestPoint(s, pk, header, IssuerMessages(codec, x), HolderMessages(codec, x), x.randoms[0], st.keys) == Ok(b)
  }

  /** The header and messages the issuer fixes, once it has the wallet's commitment. */
  function SideFor(codec: Codec, s: Suite, x: Issuing): Result<(Octets, seq<Octets>)>
    requires |x.randoms| == |HolderLeaves(x.holder)| + 2
  {
    var commitment :- Commitment(codec, s, x);
    IssuerSide(codec, s.curve, commitment, x.vct, x.issuer, x.pointers, x.extra, x.selector)
  }

  /** The wallet commits and the issuer issues. */
  function IssuedTo(codec: Codec, s: Suite, sk: Scalar, pk: Octets, x: Issuing): Result<string>
    requires |x.randoms| == |HolderLeaves(x.holder)| + 2
  {
    var commitment :- Commitment(codec, s, x);
    Issue(codec, s, s.curve.ScalarOctets(sk), pk, commitment, x.vct, x.issuer, x.pointers, x.extra, x.selector)
  }

  /** Every honest issuance makes these three. */
  lemma IssuanceMakes(codec: Codec, s: Suite, sk: Scalar, pk: Octets, x: Issuing)
    returns (st: CommitState, header: Octets, b: Point)
    requires Honest(codec, s, sk, pk, x)
    ensures Made(codec, s, pk, x, st, header, b)
  {
    hide Usable, UsableHolder, WellFormed, codec.Laws, CommitInit, HonestPoint, ParseKeys, DeviceSigned, KeyGenerators, Commitment,
         SideFor, SortedLeaves, LeafPointers, StateOctets, HolderLeaves, CommitFinalize, BlindSign, VerifyBlindSign, GoodState;
    header := if SideFor(codec, s, x).Ok? then SideFor(codec, s, x).value.0 else [];
    st, b := IssuanceComplete(s, sk, pk, header, IssuerMessages(codec, x), HolderMessages(codec, x), x.keys, x.randoms, x.sigs);
  }

  /** `IssuanceComplete`, for the state, the header and the point the run made. */
  lemma MadeSigns(codec: Codec, s: Suite, sk: Scalar, pk: Octets, x: Issuing, st: CommitState, header: Octets, b: Point)
    requires Honest(codec, s, sk, pk, x) && Made(codec, s, pk, x, st, header, b)
    ensures Commitment(codec, s, x).Ok? <==> GoodState(s.curve, st)
    ensures Commitment(codec, s, x) == CommitFinalize(s, StateOctets(s.curve, st), x.sigs)
    ensures DeviceSigned(s.curve, KeyGenerators(s, |x.keys|), st.keys, x.sigs,
                         Repeat(s.curve.ScalarOctets(st.challenge), |x.keys|))
    ensures Commitment(codec, s, x).Ok? ==>
              var im, hm, e := IssuerMessages(codec, x), HolderMessages(codec, x), SignerScalar(s, sk, b);
              var signed := BlindSign(s, sk, pk, Commitment(codec, s, x).value, header, im);
              && (signed.Ok? <==> b != s.curve.identity && s.curve.SAdd(sk, e) != s.curve.zero)
              && (signed.Ok? ==>
                    (VerifyBlindSign(s, pk, signed.value, header, im + hm, |im|, x.keys, x.randoms[0]).Ok? <==> e != s.curve.zero))
  {
    hide BlindSign, VerifyBlindSign, SideFor, CommitInit, CommitFinalize, ParseKeys, DeviceSigned, KeyGenerators, Usable,
         UsableHolder, WellFormed, codec.Laws, LeafPointers, HonestPoint, GoodState, StateOctets, SignerScalar,
         SortedLeaves, HolderLeaves;
    var st', b' := IssuanceComplete(s, sk, pk, header, IssuerMessages(codec, x), HolderMessages(codec, x), x.keys, x.randoms,
                                    x.sigs);
    SameKeys(s.curve, x.keys, st, st');
    StateOctetsInjective(s.curve, st, st');
  }

  lemma SameKeys(c: Curve, keys: seq<Octets>, st: CommitState, other: CommitState)
    requires ParseKeys(c, keys) == Ok(st.keys) && ParseKeys(c, keys) == Ok(other.keys)
    ensures st.keys == other.keys && |st.keys| == |keys|
  {
  }

  /** Issuing a credential. The commitment is finalized exactly when no part of the wallet's state is trivial;
      the issuer then issues exactly when its inputs fit, the signed point is not the identity and
      `SK + e` is not zero; and the wallet accepts exactly when both sides together have at most 512 leaves and
      `e` is not zero, reading the header that names every leaf at its message. */
  lemma CredentialIssued(codec: Codec, s: Suite, sk: Scalar, pk: Octets, x: Issuing, st: CommitState, header: Octets, b: Point,
                         issued: Result<string>)
    requires Honest(codec, s, sk, pk, x) && Made(codec, s, pk, x, st, header, b)
    requires issued == IssuedTo(codec, s, sk, pk, x)
    ensures Commitment(codec, s, x).Ok? <==> GoodState(s.curve, st)
    ensures issued.Ok? <==> GoodState(s.curve, st) && InputsFit(x)
                            && b != s.curve.identity && s.curve.SAdd(sk, SignerScalar(s, sk, b)) != s.curve.zero
    ensures issued.Ok? ==>
              && (AcceptFor(codec, s, pk, x, issued.value).Ok? <==> CanBeRead(x) && SignerScalar(s, sk, b) != s.curve.zero)
              && (CanBeRead(x) ==> Opens(codec, s.curve, x, issued.value, header))
              && (AcceptFor(codec, s, pk, x, issued.value).Ok? ==>
                    AcceptFor(codec, s, pk, x, issued.value)
                    == Ok(CredentialInfo(x.vct, ViewOf(x).kb, ViewOf(x).Pointers(), |SortedLeaves(x.issuer)|)))
  {
    hide BlindSign, VerifyBlindSign, IssuerSide, CommitInit, CommitFinalize, ParseKeys, DeviceSigned, KeyGenerators, Usable,
         UsableHolder, WellFormed, codec.Laws, LeafPointers, HonestPoint, GoodState, StateOctets, OpenCredential, SignerScalar,
         EncodeIssued, SortedLeaves, HolderLeaves, Expected, ParseHeader, IssuerInputsFit, Commitment;
    var c := s.curve;
    var im, hm := IssuerMessages(codec, x), HolderMessages(codec, x);
    UsableHasLeaves(x.issuer);
    MadeSigns(codec, s, sk, pk, x, st, header, b);
    if Commitment(codec, s, x).Ok? {
      var commitment := Commitment(codec, s, x).value;
      DeviceSignedWidths(c, KeyGenerators(s, |x.keys|), st.keys, x.sigs, Repeat(c.ScalarOctets(st.challenge), |x.keys|));
      DeviceSignedCounts(c, KeyGenerators(s, |x.keys|), st.keys, x.sigs, Repeat(c.ScalarOctets(st.challenge), |x.keys|));
      HonestShape(s, st, x.sigs, commitment);
      IssuerSideIff(codec, c, commitment, x.vct, x.issuer, x.holder, x.pointers, x.extra, x.selector, |x.keys|);
      c.ScalarFromBeIff(c.ScalarOctets(sk), sk);
      if issued.Ok? && !CanBeRead(x) {
        UnreadableDoesNotOpen(codec, c, header, im, BlindSign(s, sk, pk, commitment, header, im).value, hm, x.randoms[0]);
      } else if issued.Ok? {
        IssuedOpens(codec, c, header, im, BlindSign(s, sk, pk, commitment, header, im).value, ViewOf(x), hm, x.randoms[0]);
      }
    }
  }

  lemma UsableHasLeaves(claims: Value)
    requires Usable(claims)
    ensures |SortedLeaves(claims)| >= 1
  {
    SomeLeaf(claims);
  }

  lemma DeviceSignedCounts(c: Curve, gens: seq<Point>, keys: seq<Point>, sigs: seq<Octets>, msgs: seq<Octets>)
    requires DeviceSigned(c, gens, keys, sigs, msgs)
    ensures |sigs| == |keys|
  {
  }

  // ---- The whole life of a credential ----

  /** An accepted signature over a point that is not the identity has `SK + e` not zero. */
  lemma AcceptedIsInvertible(s: Suite, x: Scalar, pk: Octets, signature: Octets, header: Octets, issuer: seq<Octets>,
                             committed: seq<Octets>, keys: seq<Octets>, blind: Scalar, b: Point)
    requires s.Valid()
    requires s.curve.PublicKeyExponent(pk) == Ok(x)
    requires Accepted(s, pk, signature, header, issuer + committed, |issuer|, keys, blind)
    requires ParseKeys(s.curve, keys).Ok?
    requires HonestPoint(s, pk, header, issuer, committed, blind, ParseKeys(s.curve, keys).value) == Ok(b)
    requires b != s.curve.identity
    ensures SignatureFromOctets(s.curve, signature).Ok?
    ensures s.curve.SAdd(x, SignatureFromOctets(s.curve, signature).value.e) != s.curve.zero
  {
    hide SignatureFromOctets, SignedPoint, ParseKeys, Accepted, AllGens, CalculateDomain;
    var c := s.curve;
    AcceptedForm(s, x, pk, signature, header, issuer + committed, |issuer|, keys, blind);
    var sig := SignatureFromOctets(c, signature).value;
    assert c.Mul(sig.a, c.SAdd(x, sig.e)) == b;
    if c.SAdd(x, sig.e) == c.zero {
      c.MulZero(sig.a, c.SAdd(x, sig.e));
    }
  }

  /** What the verifier of a credential can be told: the text of every leaf is its JSON. */
  lemma LeavesAreText(codec: Codec, claims: Value, i: nat)
    requires codec.Laws() && WellFormed(claims) && i < |SortedLeaves(claims)|
    ensures codec.text(LeafMessages(codec, SortedLeaves(claims))[i]).Some?
  {
    hide WellFormed, Leaves, Sort;
    var l := SortedLeaves(claims)[i];
    MembersAgree(SortedLeaves(claims), Leaves(claims), l);
    LeafListedIff(claims, l);
    FoundWellFormed(claims, l.path);
  }

  lemma {:induction false} FoundWellFormed(v: Value, path: Path)
    requires WellFormed(v) && LeafAt(v, path).Some?
    ensures WellFormed(LeafAt(v, path).value)
    decreases |path|
  {
    if Children(v) != [] {
      ChildrenWellFormed(v);
      FoundWellFormed(Get(Children(v), path[0]).value, path[1..]);
    }
  }

  lemma AllMessagesAreText(codec: Codec, x: Issuing, choices: seq<Disclosure>)
    requires codec.Laws() && Usable(x.issuer) && UsableHolder(x.holder)
    requires |choices| == |IssuerMessages(codec, x) + HolderMessages(codec, x)|
    ensures AllText(codec, IssuerMessages(codec, x) + HolderMessages(codec, x), choices)
  {
    hide WellFormed, SortedLeaves, codec.Laws;
    var im, hm := IssuerMessages(codec, x), HolderMessages(codec, x);
    forall i | 0 <= i < |im + hm| ensures codec.text((im + hm)[i]).Some? {
      if i < |im| {
        LeavesAreText(codec, x.issuer, i);
      } else {
        LeavesAreText(codec, x.holder.value, i - |im|);
      }
    }
  }

  function StartFor(codec: Codec, s: Suite, pk: Octets, x: Issuing, jwp: string, ph: Octets, requested: seq<string>,
                    first: Stream, second: Stream): Result<PresentStart>
    requires x.randoms != []
  {
    hide *;
    PresentInit(codec, s, jwp, pk, ph, requested, HolderMessages(codec, x), x.keys, s.curve.ScalarOctets(x.randoms[0]),
                first, second)
  }

  /** The device signs each challenge of the started presentation. */
  ghost predicate DeviceAnswers(s: Suite, x: Issuing, start: PresentStart, sigs: seq<Octets>) {
    && ParseKeys(s.curve, x.keys).Ok?
    && DeviceSigned(s.curve, KeyGenerators(s, |x.keys|), ParseKeys(s.curve, x.keys).value, sigs, start.keyChallenges)
  }

  predicate FitsPresentation(codec: Codec, x: Issuing, header: Octets, ph: Octets, requested: seq<string>) {
    && StateWidth(HiddenCount(Marked(ViewOf(x), requested)), |x.keys|) < U32_LIMIT
    && |ph| < U32_LIMIT && |header| < U32_LIMIT
    && (forall i :: 0 <= i < |IssuerMessages(codec, x)| ==> |IssuerMessages(codec, x)[i]| < U32_LIMIT)
    && (forall i :: 0 <= i < |HolderMessages(codec, x)| ==> |HolderMessages(codec, x)[i]| < U32_LIMIT)
  }

  lemma OpenedFits(codec: Codec, c: Curve, x: Issuing, jwp: string, header: Octets, ph: Octets, requested: seq<string>)
    requires x.randoms != [] && Opens(codec, c, x, jwp, header)
    requires FitsPresentation(codec, x, header, ph, requested)
    ensures var h := OpenCredential(codec, c, jwp, HolderMessages(codec, x), c.ScalarOctets(x.randoms[0])).value;
            FitsFlow(h, ph, Marked(h.view, requested), |x.keys|)
  {
    hide OpenCredential, Marked, StateWidth, HiddenCount, ViewOf;
  }

  /** The claims the verifier is told: the requested slots of the header's map, in message order. */
  function Told(codec: Codec, x: Issuing, requested: seq<string>): PresentationResult {
    var choices := Marked(ViewOf(x), requested);
    ChosenIsBelow(choices, Disclose);
    PresentationResult(x.vct, ShownClaims(codec, ViewOf(x).Pointers(), IssuerMessages(codec, x) + HolderMessages(codec, x),
                                          Chosen(choices, Disclose)))
  }

  /** What the wallet opens is the issued form itself, header octets included. */
  lemma OpenedCarries(codec: Codec, c: Curve, x: Issuing, jwp: string, header: Octets)
    requires x.randoms != [] && Opens(codec, c, x, jwp, header)
    ensures DecodeIssued(jwp).Ok? && DecodeIssued(jwp).value.issuerHeader == header
  {
    hide DecodeIssued, IssuedHeader, ViewOf, AllMessages, IssuerMessages, HolderMessages, ParseHeader;
  }

  /** The run behind a started presentation of the credential. */
  ghost predicate StartedFor(codec: Codec, s: Suite, x: Issuing, header: Octets, ph: Octets, requested: seq<string>,
                             first: Stream, start: PresentStart, v: ProverRun)
  {
    var choices := Marked(ViewOf(x), requested);
    && ParseKeys(s.curve, x.keys).Ok?
    && StartedBy(s, start, header, ph, PayloadSlots(IssuerMessages(codec, x) + HolderMessages(codec, x), choices), first,
                 HiddenCount(choices), ParseKeys(s.curve, x.keys).value, v)
  }

  /** A presentation of an accepted credential starts exactly when its requests are known and `r2` is not zero. */
  lemma AcceptedStarts(codec: Codec, s: Suite, sk: Scalar, pk: Octets, x: Issuing, jwp: string, header: Octets, ph: Octets,
                       requested: seq<string>, first: Stream, second: Stream)
    requires s.Valid() && s.curve.PublicKeyExponent(pk) == Ok(sk)
    requires x.randoms != [] && Opens(codec, s.curve, x, jwp, header) && AcceptFor(codec, s, pk, x, jwp).Ok?
    ensures StartFor(codec, s, pk, x, jwp, ph, requested, first, second).Ok? <==>
            AllKnown(ViewOf(x), requested) && first(1) != s.curve.zero
  {
    hide OpenCredential, AllKnown, PresentInit, Accept, IssuerMessages, HolderMessages, ViewOf;
    PresentStartsIff(codec, s, sk, jwp, pk, ph, requested, HolderMessages(codec, x), x.keys, s.curve.ScalarOctets(x.randoms[0]),
                     first, second);
  }

  /** An accepted credential, whose signature covers the point `b`, and a presentation of it that the device has
      answered. */
  ghost predicate Answered(codec: Codec, s: Suite, pk: Octets, x: Issuing, jwp: string, header: Octets, b: Point, ph: Octets,
                           requested: seq<string>, first: Stream, second: Stream, start: PresentStart, sigs: seq<Octets>)
  {
    hide *;
    && x.randoms != [] && ParseKeys(s.curve, x.keys).Ok?
    && Opens(codec, s.curve, x, jwp, header) && AcceptFor(codec, s, pk, x, jwp).Ok?
    && HonestPoint(s, pk, header, IssuerMessages(codec, x), HolderMessages(codec, x), x.randoms[0],
                   ParseKeys(s.curve, x.keys).value) == Ok(b)
    && b != s.curve.identity
    && CheckPresentationHeader(codec, ph).Ok? && FitsPresentation(codec, x, header, ph, requested)
    && StartFor(codec, s, pk, x, jwp, ph, requested, first, second) == Ok(start)
    && DeviceAnswers(s, x, start, sigs)
  }

  /** Of a finished presentation the verifier accepts what has no trivial `r1`, and is told the requested claims. */
  ghost predicate ToldOf(codec: Codec, s: Suite, pk: Octets, x: Issuing, requested: seq<string>, first: Stream,
                         presented: Result<string>)
  {
    hide *;
    presented.Ok? ==>
      var told := Verify(codec, s, presented.value, pk);
      (told.Ok? <==> first(0) != s.curve.zero) && (told.Ok? ==> told == Ok(Told(codec, x, requested)))
  }

  /** Finishing and verifying a started presentation. */
  lemma AcceptedIsPresented(codec: Codec, s: Suite, sk: Scalar, pk: Octets, x: Issuing, jwp: string, header: Octets, b: Point,
                            ph: Octets, requested: seq<string>, first: Stream, second: Stream, start: PresentStart,
                            sigs: seq<Octets>)
    returns (v: ProverRun)
    requires Honest(codec, s, sk, pk, x)
    requires Answered(codec, s, pk, x, jwp, header, b, ph, requested, first, second, start, sigs)
    ensures StartedFor(codec, s, x, header, ph, requested, first, start, v)
    ensures PresentFinalize(s, start.state, sigs).Ok? <==> CanFinish(s.curve, Some(v))
    ensures ToldOf(codec, s, pk, x, requested, first, PresentFinalize(s, start.state, sigs))
  {
    hide BlindSign, ParseKeys, DeviceSigned, KeyGenerators, Usable, UsableHolder, WellFormed, codec.Laws, LeafPointers,
         HonestPoint, GoodState, StateOctets, OpenCredential, SignerScalar, SortedLeaves, HolderLeaves, Expected, ParseHeader,
         Marked, AllKnown, PresentInit, PresentFinalize, Verify, AllText, Accept, FitsFlow, FitsPresentation, Where,
         CheckPresentationHeader, Sort, CommitInit, NoZero, NoIdentity, DecodeIssued, StartedBy;
    var c, blind := s.curve, s.curve.ScalarOctets(x.randoms[0]);
    var im, hm := IssuerMessages(codec, x), HolderMessages(codec, x);
    OpenedCarries(codec, c, x, jwp, header);
    OpenedFits(codec, c, x, jwp, header, ph, requested);
    var h;
    h, v := PresentationReturnsRequested(codec, s, sk, jwp, pk, ph, requested, hm, x.keys, ParseKeys(c, x.keys).value, blind,
                                         first, second, start, sigs);
    var held := AcceptedCredential(codec, s, jwp, pk, hm, x.keys, blind);
    AcceptedIsInvertible(s, sk, pk, h.issued.signature, header, im, hm, x.keys, x.randoms[0], b);
    AllMessagesAreText(codec, x, Marked(ViewOf(x), requested));
  }

  /** The first two scalars the wallet draws. */
  function R1(first: Stream): Scalar {
    first(0)
  }

  function R2(first: Stream): Scalar {
    first(1)
  }

  /** The outcome of every step of a credential's life; a step whose predecessor failed fails with it. */
  datatype Life = Life(issued: Result<string>, accepted: Result<CredentialInfo>, start: Result<PresentStart>,
                       presented: Result<string>, told: Result<PresentationResult>)

  function Started(codec: Codec, s: Suite, sk: Scalar, pk: Octets, x: Issuing, ph: Octets, requested: seq<string>,
                   first: Stream, second: Stream): Result<PresentStart>
    requires |x.randoms| == |HolderLeaves(x.holder)| + 2
  {
    hide IssuedTo, AcceptFor, StartFor, HolderLeaves;
    var jwp :- IssuedTo(codec, s, sk, pk, x);
    var _ :- AcceptFor(codec, s, pk, x, jwp);
    StartFor(codec, s, pk, x, jwp, ph, requested, first, second)
  }

  /** The wallet commits, the issuer issues, the wallet accepts and presents, and the verifier verifies. */
  function LifeOf(codec: Codec, s: Suite, sk: Scalar, pk: Octets, x: Issuing, ph: Octets, requested: seq<string>,
                  first: Stream, second: Stream, sigs: seq<Octets>): Life
    requires |x.randoms| == |HolderLeaves(x.holder)| + 2
  {
    hide *;
    var issued := IssuedTo(codec, s, sk, pk, x);
    var accepted := match issued case Ok(jwp) => AcceptFor(codec, s, pk, x, jwp) case Err(e) => Err(e);
    var start := Started(codec, s, sk, pk, x, ph, requested, first, second);
    var presented := match start case Ok(st) => PresentFinalize(s, st.state, sigs) case Err(e) => Err(e);
    Life(issued, accepted, start, presented, match presented case Ok(p) => Verify(codec, s, p, pk) case Err(e) => Err(e))
  }

  /** `life` is what comes of an honest issuance and a presentation whose challenges the device signs. */
  ghost predicate Lived(codec: Codec, s: Suite, sk: Scalar, pk: Octets, x: Issuing, st: CommitState, header: Octets, b: Point,
                        ph: Octets, requested: seq<string>, first: Stream, second: Stream, sigs: seq<Octets>, life: Life)
  {
    hide Made, FitsPresentation, LifeOf, DeviceAnswers, HolderLeaves, Usable, UsableHolder, DeviceSigned, LeafPointers,
         CommitInit, ParseKeys, HolderMessages;
    && Honest(codec, s, sk, pk, x) && Made(codec, s, pk, x, st, header, b)
    && FitsPresentation(codec, x, header, ph, requested)
    && life == LifeOf(codec, s, sk, pk, x, ph, requested, first, second, sigs)
    && (life.start.Ok? ==> DeviceAnswers(s, x, life.start.value, sigs))
  }

  /** The run behind a presentation, once there is one. */
  ghost predicate StartedWith(codec: Codec, s: Suite, x: Issuing, header: Octets, ph: Octets, requested: seq<string>,
                              first: Stream, start: Result<PresentStart>, run: Option<ProverRun>)
  {
    start.Ok? ==> run.Some? && StartedFor(codec, s, x, header, ph, requested, first, start.value, run.value)
  }

  /** Nothing that the second half reads back is trivial. */
  ghost predicate CanFinish(c: Curve, run: Option<ProverRun>) {
    run.Some? && run.value.challenge != c.zero && NoZero(c, run.value.rKey) && NoIdentity(c, run.value.randomized)
  }

  /** A credential end to end, step by step, for claims the map can carry, a presentation header that can be
      built, and a device that signs what it is given. Each step succeeds exactly when the ones before it do
      and what it names is not trivial, unknown or too large; when the verifier accepts, it is told exactly the
      requested pointers of the header's map with the text of the signed message octets. */
  lemma CredentialEndToEnd(codec: Codec, s: Suite, sk: Scalar, pk: Octets, x: Issuing, st: CommitState, header: Octets, b: Point,
                           nonce: string, aud: string, phExtra: seq<Member>, ph: Octets, requested: seq<string>,
                           first: Stream, second: Stream, sigs: seq<Octets>, life: Life)
    returns (run: Option<ProverRun>)
    requires Lived(codec, s, sk, pk, x, st, header, b, ph, requested, first, second, sigs, life)
    requires WellFormed(Object(phExtra)) && BuildPresentationHeader(codec, nonce, aud, phExtra) == Ok(ph)
    ensures life.issued.Ok? <==> GoodState(s.curve, st) && InputsFit(x)
                                 && b != s.curve.identity && s.curve.SAdd(sk, SignerScalar(s, sk, b)) != s.curve.zero
    ensures life.accepted.Ok? <==> life.issued.Ok? && CanBeRead(x) && SignerScalar(s, sk, b) != s.curve.zero
    ensures life.start.Ok? <==> life.accepted.Ok? && AllKnown(ViewOf(x), requested) && R2(first) != s.curve.zero
    ensures StartedWith(codec, s, x, header, ph, requested, first, life.start, run)
    ensures life.presented.Ok? <==> life.start.Ok? && CanFinish(s.curve, run)
    ensures life.told.Ok? <==> life.presented.Ok? && R1(first) != s.curve.zero
    ensures life.told.Ok? ==> life.told == Ok(Told(codec, x, requested))
  {
    hide Usable, UsableHolder, WellFormed, codec.Laws, Commitment, HonestPoint, GoodState, StateOctets, SignerScalar,
         SortedLeaves, HolderLeaves, IssuerInputsFit, AllKnown, PresentFinalize, Verify, BuildPresentationHeader, Accept,
         FitsPresentation, CheckPresentationHeader, CommitInit, NoZero, NoIdentity, ParseKeys, IssuedTo, StartFor, AcceptFor,
         SideFor, Opens, StartedFor, DeviceAnswers, Told, DeviceSigned;
    CredentialIssued(codec, s, sk, pk, x, st, header, b, life.issued);
    run := None;
    if life.accepted.Ok? {
      AcceptedStarts(codec, s, sk, pk, x, life.issued.value, header, ph, requested, first, second);
      if life.start.Ok? {
        BuiltPresentationHeaderPasses(codec, nonce, aud, phExtra);
        var v := AcceptedIsPresented(codec, s, sk, pk, x, life.issued.value, header, b, ph, requested, first, second,
                                     life.start.value, sigs);
        run := Some(v);
      }
    }
  }
}
