/** The issuer header and the presentation header (`src/jwp.rs`): what is checked when one is read,
    what that guarantees, and how one is built. */
module Headers {
  import opened Wrappers
  import opened Octets
  import opened Sorting
  import opened Json
  import opened ClaimMap
  import opened MapRoundTrip
  import opened Presentation

  const ALG := "BBS-MOD"
  const KB_SCHNORR := "schnorr-bls12381g1-commit-v0"
  const HCMAP := "hcmap"

  datatype HeaderView = HeaderView(vct: string, kb: Option<string>, issuerClaims: seq<Claim>, holderClaims: seq<Claim>) {
    function All(): (r: seq<Claim>)
      ensures |r| == NumMessages()
    {
      issuerClaims + holderClaims
    }

    function NumMessages(): nat {
      |issuerClaims| + |holderClaims|
    }

    function NumSignerMessages(): nat {
      |issuerClaims|
    }

    /** The index of the first claim with this pointer, issuer claims first. */
    function IndexOf(pointer: string): Option<nat> {
      FirstIndex(All(), pointer)
    }

    function Pointers(): (r: seq<string>)
      ensures |r| == NumMessages()
    {
      Map((c: Claim) => c.pointer, Sort(All(), ClaimLe))
    }

    /** Issuer claims name the messages `0..s` in order, holder claims the rest in order. */
    ghost predicate InOrder() {
      && 1 <= NumMessages() <= MAX_MESSAGES
      && forall i :: 0 <= i < NumMessages() ==> All()[i].index == i
    }
  }

  function FirstIndex(claims: seq<Claim>, pointer: string): Option<nat> {
    if claims == [] then None
    else if claims[0].pointer == pointer then Some(claims[0].index)
    else FirstIndex(claims[1..], pointer)
  }

  function IndexList(claims: seq<Claim>): (r: seq<nat>)
    ensures |r| == |claims|
    ensures forall i :: 0 <= i < |claims| ==> r[i] == claims[i].index
  {
    Map((c: Claim) => c.index, claims)
  }

  predicate NatLe(a: nat, b: nat) {
    a <= b
  }

  /** The sorted indexes are `0, 1, 2, ...` without gap or repetition. */
  predicate Contiguous(seen: seq<nat>) {
    forall i :: 0 <= i < |seen| ==> seen[i] == i
  }

  predicate IssuerIsLow(view: HeaderView) {
    forall i :: 0 <= i < |view.issuerClaims| ==> view.issuerClaims[i].index < |view.issuerClaims|
  }

  predicate ChecksPass(view: HeaderView) {
    && 0 < view.NumMessages() <= MAX_MESSAGES
    && Contiguous(Sort(IndexList(view.All()), NatLe))
    && IssuerIsLow(view)
  }

  /** The loops at the end of `parse`: contiguity, then the issuer's half of the split. */
  method ValidateIndexes(view: HeaderView) returns (r: Result<()>)
    ensures r == Need(ChecksPass(view), MalformedContainer)
  {
    hide Sort;
    var seen := Sort(IndexList(view.All()), NatLe);
    if seen == [] || |seen| > MAX_MESSAGES {
      return Err(MalformedContainer);
    }
    for expected := 0 to |seen|
      invariant forall i :: 0 <= i < expected ==> seen[i] == i
    {
      if expected != seen[expected] {
        return Err(MalformedContainer);
      }
    }
    for i := 0 to |view.issuerClaims|
      invariant forall j :: 0 <= j < i ==> view.issuerClaims[j].index < view.NumSignerMessages()
    {
      if view.issuerClaims[i].index >= view.NumSignerMessages() {
        return Err(MalformedContainer);
      }
    }
    r := Ok(());
  }

  /** The members of a header, once parsed. */
  function HeaderMembers(codec: Codec, octets: Octets): Result<seq<Member>> {
    match codec.parse(octets)
    case Some(v) => if v.Object? then Ok(v.members) else Err(MalformedContainer)
    case None => Err(MalformedContainer)
  }

  /** Everything `parse` reads from the members, before it checks the indexes. A `kb` that is not
      text reads as absent. */
  function ReadHeader(members: seq<Member>): Result<HeaderView> {
    var kb := TextMember(members, "kb");
    if TextMember(members, "alg") != Some(ALG) then Err(MalformedContainer)
    else if TextMember(members, "vct").None? then Err(MalformedContainer)
    else if kb.Some? && kb.value != KB_SCHNORR then Err(MalformedContainer)
    else
      match Get(members, "cmap")
      case None => Err(MalformedContainer)
      case Some(cmap) =>
        var issuer :- Walk("", cmap);
        var holder :- match Get(members, HCMAP) case Some(hcmap) => Walk("", hcmap) case None => Ok([]);
        Ok(HeaderView(TextMember(members, "vct").value, kb, Sort(issuer, ClaimLe), Sort(holder, ClaimLe)))
  }

  function ParseHeader(codec: Codec, octets: Octets): Result<HeaderView> {
    var members :- HeaderMembers(codec, octets);
    var view :- ReadHeader(members);
    var _ :- Need(ChecksPass(view), MalformedContainer);
    Ok(view)
  }

  method WalkWhole(cmap: Value) returns (r: Result<seq<Claim>>)
    ensures r == Walk("", cmap)
  {
    var walked, claims := WalkCmap("", cmap, []);
    if walked.Err? {
      WalkError("", cmap);
      return Err(MalformedContainer);
    }
    assert [] + Walk("", cmap).value == Walk("", cmap).value;
    r := Ok(claims);
  }

  method ParseIssuerHeader(codec: Codec, octets: Octets) returns (r: Result<HeaderView>)
    ensures r == ParseHeader(codec, octets)
  {
    hide Walk, Sort, ChecksPass, Get;
    var members := HeaderMembers(codec, octets);
    if members.Err? {
      return Err(members.error);
    }
    var ms := members.value;
    if TextMember(ms, "alg") != Some(ALG) {
      return Err(MalformedContainer);
    }
    var vct := TextMember(ms, "vct");
    if vct.None? {
      return Err(MalformedContainer);
    }
    var kb := TextMember(ms, "kb");
    if kb.Some? && kb.value != KB_SCHNORR {
      return Err(MalformedContainer);
    }
    var cmap := Get(ms, "cmap");
    if cmap.None? {
      return Err(MalformedContainer);
    }
    var issuer := WalkWhole(cmap.value);
    if issuer.Err? {
      return Err(issuer.error);
    }
    var holder: Result<seq<Claim>> := Ok([]);
    var hcmap := Get(ms, HCMAP);
    if hcmap.Some? {
      holder := WalkWhole(hcmap.value);
      if holder.Err? {
        return Err(holder.error);
      }
    }
    var view := HeaderView(vct.value, kb, Sort(issuer.value, ClaimLe), Sort(holder.value, ClaimLe));
    assert ReadHeader(ms) == Ok(view);
    var checked := ValidateIndexes(view);
    if checked.Err? {
      return Err(checked.error);
    }
    r := Ok(view);
  }

  // ---- What an accepted header guarantees ----

  lemma {:induction false} RisesFrom(xs: seq<nat>, lo: nat, n: nat, i: nat)
    requires |xs| == n && i < n
    requires forall j, k :: 0 <= j < k < n ==> xs[j] < xs[k]
    requires forall j :: 0 <= j < n ==> lo <= xs[j] < lo + n
    ensures lo + i <= xs[i]
  {
    if i > 0 {
      RisesFrom(xs, lo, n, i - 1);
      assert xs[i - 1] < xs[i];
    }
  }

  lemma {:induction false} FallsFrom(xs: seq<nat>, lo: nat, n: nat, i: nat)
    requires |xs| == n && i < n
    requires forall j, k :: 0 <= j < k < n ==> xs[j] < xs[k]
    requires forall j :: 0 <= j < n ==> lo <= xs[j] < lo + n
    ensures xs[i] <= lo + i
    decreases n - i
  {
    if i + 1 < n {
      FallsFrom(xs, lo, n, i + 1);
      assert xs[i] < xs[i + 1];
    }
  }

  /** `n` numbers that rise within a window of width `n` are the whole window. */
  lemma Pigeonhole(xs: seq<nat>, lo: nat)
    requires forall j, k :: 0 <= j < k < |xs| ==> xs[j] < xs[k]
    requires forall j :: 0 <= j < |xs| ==> lo <= xs[j] < lo + |xs|
    ensures forall i :: 0 <= i < |xs| ==> xs[i] == lo + i
  {
    forall i | 0 <= i < |xs| ensures xs[i] == lo + i {
      RisesFrom(xs, lo, |xs|, i);
      FallsFrom(xs, lo, |xs|, i);
    }
  }

  lemma ContiguousIsDistinct(xs: seq<nat>)
    requires Contiguous(Sort(xs, NatLe))
    ensures Distinct(xs)
    ensures forall i :: 0 <= i < |xs| ==> xs[i] < |xs|
  {
    hide Sort;
    var seen := Sort(xs, NatLe);
    DistinctPermutes(xs, seen);
    forall i | 0 <= i < |xs| ensures xs[i] < |xs| {
      MembersAgree(xs, seen, xs[i]);
    }
  }

  lemma SortedIndexesRise(claims: seq<Claim>)
    requires Sorted(claims, ClaimLe) && Distinct(IndexList(claims))
    ensures forall j, k :: 0 <= j < k < |claims| ==> claims[j].index < claims[k].index
  {
    forall j, k | 0 <= j < k < |claims| ensures claims[j].index < claims[k].index {
      assert ClaimLe(claims[j], claims[k]);
      assert IndexList(claims)[j] != IndexList(claims)[k];
    }
  }

  lemma SplitIndexes(view: HeaderView)
    ensures IndexList(view.All()) == IndexList(view.issuerClaims) + IndexList(view.holderClaims)
  {
  }

  /** With both halves sorted, the checks pass exactly when issuer claims are `0..s` in order and
      holder claims `s..n` in order. */
  lemma ChecksPassIff(view: HeaderView)
    requires Sorted(view.issuerClaims, ClaimLe) && Sorted(view.holderClaims, ClaimLe)
    ensures ChecksPass(view) <==> view.InOrder()
  {
    if ChecksPass(view) {
      CheckedIsInOrder(view);
    }
    if view.InOrder() {
      InOrderIsChecked(view);
    }
  }

  lemma DistinctParts(a: seq<nat>, b: seq<nat>)
    requires Distinct(a + b)
    ensures Distinct(a) && Distinct(b)
    ensures forall j :: 0 <= j < |b| ==> b[j] !in a
  {
    var all := a + b;
    forall i, j | 0 <= i < j < |a| ensures a[i] != a[j] {
      assert all[i] != all[j];
    }
    forall i, j | 0 <= i < j < |b| ensures b[i] != b[j] {
      assert all[|a| + i] != all[|a| + j];
    }
    forall i, j | 0 <= i < |a| && 0 <= j < |b| ensures a[i] != b[j] {
      assert all[i] != all[|a| + j];
    }
  }

  lemma AllTaken(xs: seq<nat>)
    requires forall i :: 0 <= i < |xs| ==> xs[i] == i
    ensures forall v: nat :: v < |xs| ==> v in xs
  {
    forall v: nat | v < |xs| ensures v in xs {
      assert xs[v] == v;
    }
  }

  lemma CheckedIsInOrder(view: HeaderView)
    requires Sorted(view.issuerClaims, ClaimLe) && Sorted(view.holderClaims, ClaimLe)
    requires ChecksPass(view)
    ensures view.InOrder()
  {
    hide Sort, Sorted, Distinct;
    var issuer, holder := IndexList(view.issuerClaims), IndexList(view.holderClaims);
    var s := |issuer|;
    SplitIndexes(view);
    ContiguousIsDistinct(issuer + holder);
    DistinctParts(issuer, holder);
    SortedIndexesRise(view.issuerClaims);
    SortedIndexesRise(view.holderClaims);
    Pigeonhole(issuer, 0);
    AllTaken(issuer);
    forall j | 0 <= j < |holder| ensures s <= holder[j] < s + |holder| {
      assert (issuer + holder)[s + j] == holder[j];
    }
    Pigeonhole(holder, s);
    forall i | 0 <= i < view.NumMessages() ensures view.All()[i].index == i {
      assert view.All()[i].index == (issuer + holder)[i];
    }
  }

  lemma InOrderIsChecked(view: HeaderView)
    requires view.InOrder()
    ensures ChecksPass(view)
  {
    hide Sort;
    var all := IndexList(view.All());
    SortIs(all, all, NatLe);
    forall i | 0 <= i < |view.issuerClaims| ensures view.issuerClaims[i].index < |view.issuerClaims| {
      assert view.All()[i] == view.issuerClaims[i];
    }
  }

  /** Whenever a header is accepted, issuer claims are exactly `0..s`, holder claims exactly `s..n`,
      and `pointers()[i]` names the claim with index `i`. */
  lemma AcceptedHeaderIsInOrder(codec: Codec, octets: Octets)
    requires ParseHeader(codec, octets).Ok?
    ensures ParseHeader(codec, octets).value.InOrder()
    ensures var view := ParseHeader(codec, octets).value;
            forall i :: 0 <= i < view.NumMessages() ==> view.Pointers()[i] == view.All()[i].pointer && view.All()[i].index == i
  {
    hide Sort, Walk;
    var view := ParseHeader(codec, octets).value;
    ClaimLeIsTotalOrder();
    HeaderIsSorted(HeaderMembers(codec, octets).value);
    ChecksPassIff(view);
    PointersInOrder(view);
  }

  lemma HeaderIsSorted(members: seq<Member>)
    requires ReadHeader(members).Ok?
    ensures Sorted(ReadHeader(members).value.issuerClaims, ClaimLe)
    ensures Sorted(ReadHeader(members).value.holderClaims, ClaimLe)
  {
    hide Sort, Walk, Sorted;
    ClaimLeIsTotalOrder();
    SortSorts(Walk("", Get(members, "cmap").value).value, ClaimLe);
    match Get(members, HCMAP)
    case Some(hcmap) => SortSorts(Walk("", hcmap).value, ClaimLe);
    case None => SortSorts([], ClaimLe);
  }

  lemma PointersInOrder(view: HeaderView)
    requires view.InOrder()
    ensures forall i :: 0 <= i < view.NumMessages() ==> view.Pointers()[i] == view.All()[i].pointer
  {
    hide Sort;
    ClaimLeIsTotalOrder();
    SortIs(view.All(), view.All(), ClaimLe);
  }

  lemma {:induction false} FirstIndexIs(claims: seq<Claim>, lo: nat, pointer: string, i: nat)
    requires forall j :: 0 <= j < |claims| ==> claims[j].index == lo + j
    ensures FirstIndex(claims, pointer) == Some(i) <==>
            && lo <= i < lo + |claims|
            && claims[i - lo].pointer == pointer
            && forall j :: 0 <= j < i - lo ==> claims[j].pointer != pointer
  {
    if claims != [] {
      var rest := claims[1..];
      FirstIndexIs(rest, lo + 1, pointer, i);
      assert forall j :: 1 <= j < |claims| ==> rest[j - 1] == claims[j];
      if claims[0].pointer != pointer && lo + 1 <= i < lo + |claims| {
        assert claims[i - lo] == rest[i - lo - 1];
        if forall j :: 0 <= j < i - lo - 1 ==> rest[j].pointer != pointer {
          forall j | 0 <= j < i - lo ensures claims[j].pointer != pointer {
            assert j > 0 ==> claims[j] == rest[j - 1];
          }
        }
      }
    }
  }

  /** `index_of` finds exactly the first message whose claim has the pointer. */
  lemma IndexOfIff(view: HeaderView, pointer: string, i: nat)
    requires view.InOrder()
    ensures view.IndexOf(pointer) == Some(i) <==>
            && i < view.NumMessages() && view.Pointers()[i] == pointer
            && forall j :: 0 <= j < i ==> view.Pointers()[j] != pointer
  {
    hide Sort, FirstIndex;
    PointersInOrder(view);
    FirstIndexIs(view.All(), 0, pointer, i);
  }

  // ---- Requested pointers ----

  predicate AllKnown(view: HeaderView, requested: seq<string>) {
    forall k :: 0 <= k < |requested| ==> view.IndexOf(requested[k]).Some?
  }

  predicate Requested(view: HeaderView, requested: seq<string>, i: nat) {
    exists k :: 0 <= k < |requested| && view.IndexOf(requested[k]) == Some(i)
  }

  /** Message `i` is disclosed exactly when a requested pointer resolves to it. */
  function Marked(view: HeaderView, requested: seq<string>): (r: seq<Disclosure>)
    ensures |r| == view.NumMessages()
    ensures forall i :: 0 <= i < |r| ==> r[i] == if Requested(view, requested, i) then Disclose else Hide
  {
    seq(view.NumMessages(), i requires 0 <= i < view.NumMessages() => if Requested(view, requested, i) then Disclose else Hide)
  }

  function DisclosuresFor(view: HeaderView, requested: seq<string>): Result<seq<Disclosure>> {
    if AllKnown(view, requested) then Ok(Marked(view, requested)) else Err(MalformedContainer)
  }

  lemma IndexIsInRange(view: HeaderView, pointer: string)
    requires view.InOrder() && view.IndexOf(pointer).Some?
    ensures view.IndexOf(pointer).value < view.NumMessages()
  {
    FirstIndexIs(view.All(), 0, pointer, view.IndexOf(pointer).value);
  }

  lemma MarkOne(view: HeaderView, requested: seq<string>, k: nat, index: nat)
    requires k < |requested| && view.IndexOf(requested[k]) == Some(index) && index < view.NumMessages()
    ensures Marked(view, requested[..k + 1]) == Marked(view, requested[..k])[index := Disclose]
  {
    hide view.IndexOf;
    assert requested[..k + 1] == requested[..k] + [requested[k]];
    forall i | 0 <= i < view.NumMessages()
      ensures Requested(view, requested[..k + 1], i) <==> i == index || Requested(view, requested[..k], i)
    {
      if Requested(view, requested[..k], i) {
        var j :| 0 <= j < k && view.IndexOf(requested[..k][j]) == Some(i);
        assert requested[..k + 1][j] == requested[j];
      }
      if i == index {
        assert requested[..k + 1][k] == requested[k];
      }
      if Requested(view, requested[..k + 1], i) && i != index {
        var j :| 0 <= j < k + 1 && view.IndexOf(requested[..k + 1][j]) == Some(i);
        assert requested[..k][j] == requested[j];
      }
    }
  }

  /** `disclosures_for`: one mark per requested pointer, or an error at the first unknown one. */
  method MarkRequested(view: HeaderView, requested: seq<string>) returns (r: Result<seq<Disclosure>>)
    requires view.InOrder()
    ensures r == DisclosuresFor(view, requested)
  {
    hide view.IndexOf, view.InOrder;
    var disclosures := seq(view.NumMessages(), _ => Hide);
    assert disclosures == Marked(view, requested[..0]);
    for k := 0 to |requested|
      invariant disclosures == Marked(view, requested[..k])
      invariant forall j :: 0 <= j < k ==> view.IndexOf(requested[j]).Some?
    {
      var index := view.IndexOf(requested[k]);
      if index.None? {
        return Err(MalformedContainer);
      }
      IndexIsInRange(view, requested[k]);
      MarkOne(view, requested, k, index.value);
      disclosures := disclosures[index.value := Disclose];
    }
    assert requested[..|requested|] == requested;
    r := Ok(disclosures);
  }

  // ---- Building headers ----

  function AddExtras(members: seq<Member>, extra: seq<Member>, reserved: seq<string>): Result<seq<Member>> {
    if extra == [] then Ok(members)
    else
      var n := |extra| - 1;
      var front :- AddExtras(members, extra[..n], reserved);
      if extra[n].name in reserved then Err(MalformedContainer) else Ok(Put(front, extra[n].name, extra[n].value))
  }

  const ISSUER_RESERVED := ["alg", "vct", "kb", "cmap", HCMAP]
  const PRESENTATION_RESERVED := ["alg", "nonce", "aud"]

  function IssuerMembers(vct: string, cmap: Value, hcmap: Option<Value>, kb: Option<string>): seq<Member> {
    [Member("alg", Text(ALG)), Member("vct", Text(vct))]
    + (if kb.Some? then [Member("kb", Text(kb.value))] else [])
    + [Member("cmap", cmap)]
    + (if hcmap.Some? then [Member(HCMAP, hcmap.value)] else [])
  }

  function BuildIssuerHeader(codec: Codec, vct: string, cmap: Value, hcmap: Option<Value>, kb: Option<string>,
                             extra: seq<Member>): Result<Octets>
  {
    var members :- AddExtras(IssuerMembers(vct, cmap, hcmap, kb), extra, ISSUER_RESERVED);
    Ok(codec.write(Object(members)))
  }

  function BuildPresentationHeader(codec: Codec, nonce: string, aud: string, extra: seq<Member>): Result<Octets> {
    var members :- AddExtras([Member("alg", Text(ALG)), Member("nonce", Text(nonce)), Member("aud", Text(aud))], extra,
                             PRESENTATION_RESERVED);
    Ok(codec.write(Object(members)))
  }

  /** The loop that merges the caller's extra members, refusing the reserved names. */
  method MergeExtras(members: seq<Member>, extra: seq<Member>, reserved: seq<string>) returns (r: Result<seq<Member>>)
    ensures r == AddExtras(members, extra, reserved)
  {
    var obj := members;
    for i := 0 to |extra|
      invariant AddExtras(members, extra[..i], reserved) == Ok(obj)
    {
      assert extra[..i + 1][..i] == extra[..i];
      if extra[i].name in reserved {
        ExtrasStop(members, extra, reserved, i + 1);
        return Err(MalformedContainer);
      }
      obj := Put(obj, extra[i].name, extra[i].value);
    }
    assert extra[..|extra|] == extra;
    r := Ok(obj);
  }

  lemma {:induction false} ExtrasStop(members: seq<Member>, extra: seq<Member>, reserved: seq<string>, n: nat)
    requires n <= |extra| && AddExtras(members, extra[..n], reserved).Err?
    ensures AddExtras(members, extra, reserved) == Err(MalformedContainer)
  {
    if extra != [] && n < |extra| {
      assert extra[..|extra| - 1][..n] == extra[..n];
      ExtrasStop(members, extra[..|extra| - 1], reserved, n);
    } else {
      assert extra[..n] == extra;
      ExtrasError(members, extra, reserved);
    }
  }

  lemma {:induction false} ExtrasError(members: seq<Member>, extra: seq<Member>, reserved: seq<string>)
    requires AddExtras(members, extra, reserved).Err?
    ensures AddExtras(members, extra, reserved) == Err(MalformedContainer)
  {
    var n := |extra| - 1;
    if AddExtras(members, extra[..n], reserved).Err? {
      ExtrasError(members, extra[..n], reserved);
    }
  }

  /** Extras are merged exactly when none of them has a reserved name, and then no reserved member
      has changed. */
  lemma {:induction false} ExtrasKeepReserved(members: seq<Member>, extra: seq<Member>, reserved: seq<string>, name: string)
    requires name in reserved
    ensures AddExtras(members, extra, reserved).Ok? <==> forall i :: 0 <= i < |extra| ==> extra[i].name !in reserved
    ensures AddExtras(members, extra, reserved).Ok? ==>
              Get(AddExtras(members, extra, reserved).value, name) == Get(members, name)
  {
    hide Put, Get;
    if extra != [] {
      var n := |extra| - 1;
      ExtrasKeepReserved(members, extra[..n], reserved, name);
      if AddExtras(members, extra, reserved).Ok? {
        GetAfterPut(AddExtras(members, extra[..n], reserved).value, extra[n].name, extra[n].value, name);
      }
    }
  }

  /** A header is built exactly when the caller adds no reserved member. */
  lemma BuildHeaderIff(codec: Codec, vct: string, cmap: Value, hcmap: Option<Value>, kb: Option<string>, extra: seq<Member>)
    ensures BuildIssuerHeader(codec, vct, cmap, hcmap, kb, extra).Ok? <==>
            forall i :: 0 <= i < |extra| ==> extra[i].name !in ["alg", "vct", "kb", "cmap", "hcmap"]
  {
    hide Get, AddExtras, IssuerMembers;
    ExtrasKeepReserved(IssuerMembers(vct, cmap, hcmap, kb), extra, ISSUER_RESERVED, "alg");
  }

  lemma {:induction false} ExtrasWellFormed(members: seq<Member>, extra: seq<Member>, reserved: seq<string>)
    requires WellFormed(Object(members)) && forall i :: 0 <= i < |extra| ==> WellFormed(extra[i].value)
    requires AddExtras(members, extra, reserved).Ok?
    ensures WellFormed(Object(AddExtras(members, extra, reserved).value))
  {
    hide WellFormed;
    if extra != [] {
      var n := |extra| - 1;
      ExtrasWellFormed(members, extra[..n], reserved);
      PutWellFormed(AddExtras(members, extra[..n], reserved).value, extra[n].name, extra[n].value);
    }
  }

  lemma IssuerMembersRead(vct: string, cmap: Value, hcmap: Option<Value>, kb: Option<string>)
    ensures var ms := IssuerMembers(vct, cmap, hcmap, kb);
            && Get(ms, "alg") == Some(Text(ALG)) && Get(ms, "vct") == Some(Text(vct))
            && Get(ms, "kb") == (if kb.Some? then Some(Text(kb.value)) else None)
            && Get(ms, "cmap") == Some(cmap) && Get(ms, HCMAP) == hcmap
  {
    var ms := IssuerMembers(vct, cmap, hcmap, kb);
    var at := if kb.Some? then 3 else 2;
    assert ms[0].name == "alg" && ms[1].name == "vct" && ms[at].name == "cmap";
    assert kb.Some? ==> ms[2].name == "kb";
    assert hcmap.Some? ==> ms[at + 1].name == HCMAP;
    DifferentNames();
    FindFirst(ms, 0);
    FindFirst(ms, 1);
    FindFirst(ms, at);
    if kb.Some? {
      FindFirst(ms, 2);
    }
    if hcmap.Some? {
      FindFirst(ms, at + 1);
    }
  }

  lemma DifferentNames()
    ensures Distinct(ISSUER_RESERVED)
  {
  }

  lemma IssuerMembersWellFormed(vct: string, cmap: Value, hcmap: Option<Value>, kb: Option<string>)
    requires WellFormed(cmap) && (hcmap.Some? ==> WellFormed(hcmap.value))
    ensures WellFormed(Object(IssuerMembers(vct, cmap, hcmap, kb)))
  {
    var ms := IssuerMembers(vct, cmap, hcmap, kb);
    var at := if kb.Some? then 3 else 2;
    assert ms[0].name == "alg" && ms[1].name == "vct" && ms[at].name == "cmap";
    assert kb.Some? ==> ms[2].name == "kb";
    assert hcmap.Some? ==> ms[at + 1].name == HCMAP;
    forall i | 0 <= i < |ms| ensures WellFormed(ms[i].value) {
    }
  }

  /** Whatever the caller adds, the members of a built issuer header are the ones it was built from. */
  lemma BuiltMembers(codec: Codec, vct: string, cmap: Value, hcmap: Option<Value>, kb: Option<string>, extra: seq<Member>)
    returns (members: seq<Member>)
    requires codec.Laws() && WellFormed(Object(extra))
    requires WellFormed(cmap) && (hcmap.Some? ==> WellFormed(hcmap.value))
    requires BuildIssuerHeader(codec, vct, cmap, hcmap, kb, extra).Ok?
    ensures HeaderMembers(codec, BuildIssuerHeader(codec, vct, cmap, hcmap, kb, extra).value) == Ok(members)
    ensures Get(members, "alg") == Some(Text(ALG)) && Get(members, "vct") == Some(Text(vct))
    ensures Get(members, "kb") == if kb.Some? then Some(Text(kb.value)) else None
    ensures Get(members, "cmap") == Some(cmap) && Get(members, HCMAP) == hcmap
  {
    hide WellFormed, Get, AddExtras, IssuerMembers;
    var ms := IssuerMembers(vct, cmap, hcmap, kb);
    members := AddExtras(ms, extra, ISSUER_RESERVED).value;
    IssuerMembersRead(vct, cmap, hcmap, kb);
    IssuerMembersWellFormed(vct, cmap, hcmap, kb);
    ExtrasAreWellFormed(extra);
    ExtrasWellFormed(ms, extra, ISSUER_RESERVED);
    ExtrasKeepReserved(ms, extra, ISSUER_RESERVED, "alg");
    ExtrasKeepReserved(ms, extra, ISSUER_RESERVED, "vct");
    ExtrasKeepReserved(ms, extra, ISSUER_RESERVED, "kb");
    ExtrasKeepReserved(ms, extra, ISSUER_RESERVED, "cmap");
    ExtrasKeepReserved(ms, extra, ISSUER_RESERVED, HCMAP);
  }

  /** A built issuer header reads back as the type, the key binding and the claims of its maps. */
  lemma IssuerHeaderRoundTrip(codec: Codec, vct: string, cmap: Value, hcmap: Option<Value>, kb: Option<string>,
                              extra: seq<Member>, issuer: seq<Claim>, holder: seq<Claim>)
    requires codec.Laws() && WellFormed(Object(extra))
    requires WellFormed(cmap) && Walk("", cmap).Ok? && Sort(Walk("", cmap).value, ClaimLe) == issuer
    requires match hcmap
             case Some(v) => WellFormed(v) && Walk("", v).Ok? && Sort(Walk("", v).value, ClaimLe) == holder
             case None => holder == []
    requires kb.Some? ==> kb.value == KB_SCHNORR
    requires HeaderView(vct, kb, issuer, holder).InOrder()
    requires BuildIssuerHeader(codec, vct, cmap, hcmap, kb, extra).Ok?
    ensures ParseHeader(codec, BuildIssuerHeader(codec, vct, cmap, hcmap, kb, extra).value)
         == Ok(HeaderView(vct, kb, issuer, holder))
  {
    hide Walk, Sort, WellFormed, Get, ChecksPass, HeaderMembers, BuildIssuerHeader;
    var members := BuiltMembers(codec, vct, cmap, hcmap, kb, extra);
    SortOfNothing();
    assert ReadHeader(members) == Ok(HeaderView(vct, kb, issuer, holder));
    InOrderIsChecked(HeaderView(vct, kb, issuer, holder));
  }

  /** A built issuer header is unreadable when its holder's map cannot be walked. */
  lemma UnwalkableHeaderIsRefused(codec: Codec, vct: string, cmap: Value, hcmap: Value, kb: Option<string>, extra: seq<Member>)
    requires codec.Laws() && WellFormed(Object(extra)) && WellFormed(cmap) && WellFormed(hcmap)
    requires Walk("", hcmap).Err?
    requires BuildIssuerHeader(codec, vct, cmap, Some(hcmap), kb, extra).Ok?
    ensures ParseHeader(codec, BuildIssuerHeader(codec, vct, cmap, Some(hcmap), kb, extra).value).Err?
  {
    hide Walk, Sort, WellFormed, Get, ChecksPass, HeaderMembers, BuildIssuerHeader;
    var members := BuiltMembers(codec, vct, cmap, Some(hcmap), kb, extra);
    assert ReadHeader(members).Err?;
  }

  lemma ExtrasAreWellFormed(extra: seq<Member>)
    requires WellFormed(Object(extra))
    ensures forall i :: 0 <= i < |extra| ==> WellFormed(extra[i].value)
  {
  }

  lemma SortOfNothing()
    ensures Sort([], ClaimLe) == []
  {
  }

  /** What `PresentedJwp::header` asks of a presentation header. */
  function CheckPresentationHeader(codec: Codec, octets: Octets): Result<()> {
    var members :- HeaderMembers(codec, octets);
    if TextMember(members, "alg") != Some(ALG) then Err(MalformedContainer)
    else if TextMember(members, "nonce").None? then Err(MalformedContainer)
    else if TextMember(members, "aud").None? then Err(MalformedContainer)
    else Ok(())
  }

  /** Of all octet strings exactly those are accepted that parse to an object with this algorithm, a text `nonce` and
      a text `aud`. */
  lemma PresentationHeaderPassesIff(codec: Codec, octets: Octets)
    ensures CheckPresentationHeader(codec, octets).Ok? <==>
            exists members, nonce, aud ::
              && codec.parse(octets) == Some(Object(members)) && Get(members, "alg") == Some(Text("BBS-MOD"))
              && Get(members, "nonce") == Some(Text(nonce)) && Get(members, "aud") == Some(Text(aud))
  {
    hide Get;
    if CheckPresentationHeader(codec, octets).Ok? {
      var members := HeaderMembers(codec, octets).value;
      assert codec.parse(octets) == Some(Object(members)) && Get(members, "alg") == Some(Text("BBS-MOD"));
      assert Get(members, "nonce") == Some(Text(TextMember(members, "nonce").value));
      assert Get(members, "aud") == Some(Text(TextMember(members, "aud").value));
    }
  }

  /** Every presentation header that can be built is one the verifier accepts. */
  lemma BuiltPresentationHeaderPasses(codec: Codec, nonce: string, aud: string, extra: seq<Member>)
    requires codec.Laws() && WellFormed(Object(extra))
    requires BuildPresentationHeader(codec, nonce, aud, extra).Ok?
    ensures CheckPresentationHeader(codec, BuildPresentationHeader(codec, nonce, aud, extra).value).Ok?
  {
    hide WellFormed, Get, AddExtras;
    var ms := [Member("alg", Text(ALG)), Member("nonce", Text(nonce)), Member("aud", Text(aud))];
    var members := AddExtras(ms, extra, PRESENTATION_RESERVED).value;
    PresentationMembersRead(nonce, aud);
    ExtrasAreWellFormed(extra);
    ExtrasWellFormed(ms, extra, PRESENTATION_RESERVED);
    ExtrasKeepReserved(ms, extra, PRESENTATION_RESERVED, "alg");
    ExtrasKeepReserved(ms, extra, PRESENTATION_RESERVED, "nonce");
    ExtrasKeepReserved(ms, extra, PRESENTATION_RESERVED, "aud");
    assert HeaderMembers(codec, codec.write(Object(members))) == Ok(members);
  }

  lemma PresentationMembersRead(nonce: string, aud: string)
    ensures var ms := [Member("alg", Text(ALG)), Member("nonce", Text(nonce)), Member("aud", Text(aud))];
            && Get(ms, "alg") == Some(Text(ALG)) && Get(ms, "nonce") == Some(Text(nonce)) && Get(ms, "aud") == Some(Text(aud))
            && WellFormed(Object(ms))
  {
    var ms := [Member("alg", Text(ALG)), Member("nonce", Text(nonce)), Member("aud", Text(aud))];
    FindFirst(ms, 0);
    FindFirst(ms, 1);
    FindFirst(ms, 2);
  }
}
