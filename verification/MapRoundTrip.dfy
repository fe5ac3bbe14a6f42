/** The issuer, the wallet and the verifier agree on which claim is which message (`src/jwp.rs`). */
module MapRoundTrip {
  import opened Wrappers
  import opened Sorting
  import opened Text
  import opened Pointers
  import opened Json
  import opened ClaimMap
  import opened LeafTheorems
  import opened MapTheorems

  predicate ClaimLe(a: Claim, b: Claim) {
    a.index <= b.index
  }

  lemma ClaimLeIsTotalOrder()
    ensures TotalOrder(ClaimLe)
  {
  }

  /** The spots a map of these leaves has: every name escaped once, indexes counting from `first`. */
  function SpotList(leaves: seq<Leaf>, first: nat): (r: seq<Leaf>)
    ensures |r| == |leaves|
    ensures forall i :: 0 <= i < |leaves| ==> r[i] == Leaf(Escaped(leaves[i].path), IndexLeaf(first + i))
  {
    seq(|leaves|, i requires 0 <= i < |leaves| => Leaf(Escaped(leaves[i].path), IndexLeaf(first + i)))
  }

  /** What walking such a map must list: every name escaped once more. */
  function Expected(leaves: seq<Leaf>, first: nat): (r: seq<Claim>)
    ensures |r| == |leaves|
    ensures forall i :: 0 <= i < |leaves| ==> r[i] == Claim(Render(Escaped(leaves[i].path)), first + i)
  {
    seq(|leaves|, i requires 0 <= i < |leaves| => Claim(Render(Escaped(leaves[i].path)), first + i))
  }

  predicate NamedAtTop(leaves: seq<Leaf>) {
    forall i :: 0 <= i < |leaves| ==> leaves[i].path != [] && leaves[i].path[0] != ""
  }

  lemma EscapedPrefix(a: Path, b: Path)
    requires Escaped(a) <= Escaped(b)
    ensures a <= b
  {
    assert |a| <= |b|;
    assert Escaped(b)[..|a|] == Escaped(b[..|a|]);
    EscapedInjective(a, b[..|a|]);
  }

  lemma EscapedIsSettled(path: Path)
    ensures Settled(Escaped(path))
  {
    hide Escape, Unescape;
    forall i | 0 <= i < |path| ensures Key(Escape(path[i])) == Escape(path[i]) {
      UnescapeOfEscape(path[i]);
    }
  }

  lemma NewPathIsApart(leaves: seq<Leaf>, n: nat, first: nat, spots: seq<Leaf>)
    requires GoodLeaves(leaves) && n < |leaves|
    requires multiset(spots) == multiset(SpotList(leaves[..n], first))
    ensures Apart(Escaped(leaves[n].path), spots)
  {
    var list, path := SpotList(leaves[..n], first), leaves[n].path;
    forall i | 0 <= i < |spots| ensures !(spots[i].path <= Escaped(path)) && !(Escaped(path) <= spots[i].path) {
      MembersAgree(spots, list, spots[i]);
      var j :| 0 <= j < n && list[j] == spots[i];
      NotPrefix(leaves[j].path, path);
      NotPrefix(path, leaves[j].path);
    }
  }

  lemma NotPrefix(a: Path, b: Path)
    ensures !(a <= b) ==> !(Escaped(a) <= Escaped(b))
  {
    if Escaped(a) <= Escaped(b) {
      EscapedPrefix(a, b);
    }
  }

  lemma FrontIsGood(leaves: seq<Leaf>, n: nat)
    requires n < |leaves|
    ensures GoodLeaves(leaves) ==> GoodLeaves(leaves[..n])
    ensures NamedAtTop(leaves) ==> NamedAtTop(leaves[..n])
    ensures LeafPointers(leaves)[..n] == LeafPointers(leaves[..n])
  {
    hide Render;
  }

  lemma SpotListSnoc(leaves: seq<Leaf>, n: nat, first: nat)
    requires |leaves| == n + 1
    ensures SpotList(leaves, first) == SpotList(leaves[..n], first) + [Leaf(Escaped(leaves[n].path), IndexLeaf(first + n))]
  {
  }

  lemma LastPointer(leaves: seq<Leaf>, n: nat, first: nat, root: Value)
    requires |leaves| == n + 1 && NamedAtTop(leaves)
    requires InsertAll(LeafPointers(leaves[..n]), first) == Ok(root)
    ensures InsertAll(LeafPointers(leaves), first) == InsertPath(root, Escaped(leaves[n].path), IndexLeaf(first + n))
  {
    hide InsertAll, InsertPath, Render, Parts;
    var ps, path := LeafPointers(leaves), leaves[n].path;
    FrontIsGood(leaves, n);
    InsertAllStep(ps, n, first);
    assert ps[..n + 1] == ps;
    PartsOfRender(path);
    RenderIsJoin(path);
    assert ps[n] == Render(path);
  }

  /** Inserting leaf pointers never conflicts or overwrites: the map has one spot per leaf. */
  lemma {:induction false} MapOfLeaves(leaves: seq<Leaf>, first: nat) returns (cmap: Value)
    requires GoodLeaves(leaves) && NamedAtTop(leaves)
    ensures InsertAll(LeafPointers(leaves), first) == Ok(cmap)
    ensures FullBelow(cmap) && multiset(Spots(cmap)) == multiset(SpotList(leaves, first))
  {
    hide Spots, FullBelow, Apart, Settled, Full, AddedAt, InsertPath, InsertAll, LeafPointers, GoodLeaves, Escaped;
    if leaves == [] {
      NothingInserted(first);
      EmptyHasNoSpots();
      FullChild(Object([]));
      cmap := Object([]);
      NoPointers();
    } else {
      var n := |leaves| - 1;
      var path, leaf := leaves[n].path, IndexLeaf(first + n);
      FrontIsGood(leaves, n);
      var root := MapOfLeaves(leaves[..n], first);
      NewPathIsApart(leaves, n, first, Spots(root));
      EscapedIsSettled(path);
      LastPointer(leaves, n, first, root);
      var k := InsertAdds(root, Escaped(path), leaf);
      cmap := InsertPath(root, Escaped(path), leaf).value;
      AddedPermutes(Spots(root), Spots(cmap), Leaf(Escaped(path), leaf), k);
      SpotListSnoc(leaves, n, first);
    }
  }

  lemma NoPointers()
    ensures LeafPointers([]) == []
  {
  }

  lemma {:induction false} InsertPathWellFormed(node: Value, parts: seq<string>, leaf: Value)
    requires WellFormed(node) && WellFormed(leaf) && parts != [] && InsertPath(node, parts, leaf).Ok?
    ensures WellFormed(InsertPath(node, parts, leaf).value)
    decreases |parts|
  {
    var key := Key(parts[0]);
    if |parts| == 1 {
      PutWellFormed(node.members, key, leaf);
    } else {
      var child := ChildOf(node.members, key);
      ChildWellFormed(node, key);
      InsertPathWellFormed(child, parts[1..], leaf);
      PutWellFormed(node.members, key, InsertPath(child, parts[1..], leaf).value);
    }
  }

  lemma ChildWellFormed(node: Value, key: string)
    requires node.Object? && WellFormed(node)
    ensures WellFormed(ChildOf(node.members, key))
  {
  }

  lemma LeafWellFormed(index: nat)
    ensures WellFormed(IndexLeaf(index)) && WellFormed(Object([]))
  {
  }

  /** Whatever is inserted, the map is an object the library can hold. */
  lemma {:induction false} InsertAllWellFormed(pointers: seq<string>, first: nat)
    requires InsertAll(pointers, first).Ok?
    ensures WellFormed(InsertAll(pointers, first).value)
  {
    hide WellFormed, InsertPath, Parts;
    LeafWellFormed(first + |pointers|);
    if pointers != [] {
      var n := |pointers| - 1;
      InsertAllWellFormed(pointers[..n], first);
      LeafWellFormed(first + n);
      if pointers[n] != "/" {
        InsertPathWellFormed(InsertAll(pointers[..n], first).value, Parts(pointers[n]), IndexLeaf(first + n));
      }
    }
  }

  lemma SpotListClaims(leaves: seq<Leaf>, first: nat)
    requires NamedAtTop(leaves)
    ensures GoodSpots(SpotList(leaves, first)) <==> leaves == [] || first + |leaves| <= MAX_MESSAGES
    ensures GoodSpots(SpotList(leaves, first)) ==> Claims("", SpotList(leaves, first)) == Expected(leaves, first)
  {
    hide Render;
    if leaves != [] {
      assert SpotList(leaves, first)[|leaves| - 1].value == IndexLeaf(first + |leaves| - 1);
    }
    forall i | 0 <= i < |leaves|
      ensures GoodSpot(SpotList(leaves, first)[i]) <==> first + i < MAX_MESSAGES
      ensures first + i < MAX_MESSAGES ==> ClaimAt("", SpotList(leaves, first)[i]) == Expected(leaves, first)[i]
    {
      var path := Escaped(leaves[i].path);
      RenderIsJoin(path);
      assert "" + Render(path) == Render(path);
    }
  }

  lemma ClaimsAreMapped(spots: seq<Leaf>)
    ensures Claims("", spots) == Map((l: Leaf) => ClaimAt("", l), spots)
  {
    hide ClaimAt;
  }

  lemma ExpectedIsStrict(leaves: seq<Leaf>, first: nat)
    ensures StrictlySorted(Expected(leaves, first), ClaimLe)
  {
    hide Render;
  }

  lemma GoodSpotsPermute(a: seq<Leaf>, b: seq<Leaf>)
    requires multiset(a) == multiset(b) && GoodSpots(b)
    ensures GoodSpots(a)
  {
    hide GoodSpot;
    forall i | 0 <= i < |a| ensures GoodSpot(a[i]) {
      MembersAgree(a, b, a[i]);
    }
  }

  /** Walking the map of these leaves succeeds exactly when no index is beyond the limit, and then lists exactly
      the expected claims, in some order. */
  lemma WalkOfMap(leaves: seq<Leaf>, first: nat, cmap: Value)
    requires NamedAtTop(leaves)
    requires multiset(Spots(cmap)) == multiset(SpotList(leaves, first))
    ensures Walk("", cmap).Ok? <==> leaves == [] || first + |leaves| <= MAX_MESSAGES
    ensures Walk("", cmap).Ok? ==>
              && multiset(Walk("", cmap).value) == multiset(Expected(leaves, first))
              && Sort(Walk("", cmap).value, ClaimLe) == Expected(leaves, first)
  {
    hide Render, Spots, Walk, GoodSpots, ClaimAt, Sort;
    var list, spots := SpotList(leaves, first), Spots(cmap);
    SpotListClaims(leaves, first);
    WalkIs("", cmap);
    if GoodSpots(spots) {
      GoodSpotsPermute(list, spots);
    }
    if GoodSpots(list) {
      GoodSpotsPermute(spots, list);
      ClaimsAreMapped(spots);
      ClaimsAreMapped(list);
      MapPermutes((l: Leaf) => ClaimAt("", l), spots, list);
      ClaimLeIsTotalOrder();
      ExpectedIsStrict(leaves, first);
      SortIs(Walk("", cmap).value, Expected(leaves, first), ClaimLe);
    }
  }

  // ---- The claims the map can carry ----

  /** No top-level member is called "". */
  predicate NoEmptyName(claims: Value) {
    claims.Object? && forall i :: 0 <= i < |claims.members| ==> claims.members[i].name != ""
  }

  /** The one claims tree that does have such a member and still works. */
  predicate LoneEmptyName(claims: Value) {
    claims.Object? && |claims.members| == 1 && claims.members[0].name == "" && Children(claims.members[0].value) == []
  }

  /** The map builds, and walking it gives back every leaf's pointer, once more escaped, at its index. */
  predicate Recovered(codec: Codec, claims: Value, first: nat) {
    var built := BuildCmap(codec, claims, first);
    && built.Ok?
    && Walk("", built.value.cmap).Ok?
    && Sort(Walk("", built.value.cmap).value, ClaimLe) == Expected(SortedLeaves(claims), first)
  }

  lemma NoEmptyNameNamesAll(claims: Value)
    requires NoEmptyName(claims)
    ensures claims.members != [] ==> NamedAtTop(SortedLeaves(claims))
  {
    hide Leaves, Sort;
    if claims.members != [] {
      LeavesHavePaths(claims);
      LeavesUpToStart(claims, |claims.members|);
      TopOfAll(claims);
      var leaves := SortedLeaves(claims);
      forall i | 0 <= i < |leaves| ensures leaves[i].path != [] && leaves[i].path[0] != "" {
        MembersAgree(leaves, Leaves(claims), leaves[i]);
        var k :| 0 <= k < |Leaves(claims)| && Leaves(claims)[k] == leaves[i];
      }
    }
  }

  lemma TopOfAll(claims: Value)
    requires claims.Object? && claims.members != []
    ensures Leaves(claims) == LeavesUpTo(claims, |claims.members|)
  {
  }

  lemma SortedCount(claims: Value)
    ensures |SortedEntries(claims)| == |SortedLeaves(claims)| == |Leaves(claims)|
  {
    SortedEntriesAre(claims);
  }

  /** Of claims without an empty top-level name the map builds, and its walk succeeds exactly when no index is
      beyond the limit. */
  lemma NamedClaimsWalk(codec: Codec, claims: Value, first: nat)
    requires WellFormed(claims) && NoEmptyName(claims) && claims.members != []
    requires |Leaves(claims)| <= MAX_MESSAGES
    ensures BuildCmap(codec, claims, first).Ok?
    ensures Walk("", BuildCmap(codec, claims, first).value.cmap).Ok? <==> first + |Leaves(claims)| <= MAX_MESSAGES
    ensures Recovered(codec, claims, first) <==> first + |Leaves(claims)| <= MAX_MESSAGES
  {
    hide WellFormed, Leaves, Spots, Sort, Walk, InsertAll, FullBelow;
    var leaves := SortedLeaves(claims);
    SortedLeavesAreGood(claims);
    NoEmptyNameNamesAll(claims);
    SortedCount(claims);
    SortedPointersAre(claims);
    var cmap := MapOfLeaves(leaves, first);
    WalkOfMap(leaves, first, cmap);
  }

  // ---- What an empty top-level name does ----

  /** A map built by insertion has nothing but a leaf under the empty key at its top. */
  predicate ShallowEmptyKey(root: Value) {
    root.Object? ==> forall i :: 0 <= i < |root.members| && root.members[i].name == "" ==> !root.members[i].value.Object?
  }

  lemma KeyIsEmptyIff(part: string)
    ensures Key(part) == "" <==> part == ""
  {
    EscapeChangesIff(Unescape(part));
    if part != "" {
      PairKeepsSome(part, "~1", "/");
      PairKeepsSome(ReplacePair(part, "~1", "/"), "~0", "~");
    } else {
      assert ReplacePair("", "~1", "/") == "";
      assert Unescape("") == "";
    }
  }

  lemma PairKeepsSome(s: string, pair: string, to: string)
    requires s != "" && |pair| == 2 && to != ""
    ensures ReplacePair(s, pair, to) != ""
  {
  }

  lemma {:induction false} TrimmedHead(s: string)
    ensures TrimSlashes(s) == "" || TrimSlashes(s)[0] != '/'
  {
    if s != "" {
      TrimmedHead(s[1..]);
    }
  }

  lemma EmptyPartIsAlone(pointer: string)
    ensures Parts(pointer)[0] == "" ==> Parts(pointer) == [""]
  {
    TrimmedHead(pointer);
    var s := TrimSlashes(pointer);
    if s != "" {
      assert Split(s, '/')[0] == [s[0]] + Split(s[1..], '/')[0];
    } else {
      assert Split("", '/') == [""];
    }
  }

  lemma InsertKeepsShallow(root: Value, pointer: string, leaf: Value)
    requires ShallowEmptyKey(root) && !leaf.Object? && InsertAtPointer(root, pointer, leaf).Ok?
    ensures ShallowEmptyKey(InsertAtPointer(root, pointer, leaf).value)
  {
    hide Key, Parts;
    if pointer != "/" {
      var parts := Parts(pointer);
      EmptyPartIsAlone(pointer);
      KeyIsEmptyIff(parts[0]);
    }
  }

  lemma {:induction false} InsertAllKeepsShallow(pointers: seq<string>, first: nat)
    requires InsertAll(pointers, first).Ok?
    ensures ShallowEmptyKey(InsertAll(pointers, first).value)
  {
    hide InsertAtPointer;
    if pointers != [] {
      var n := |pointers| - 1;
      InsertAllKeepsShallow(pointers[..n], first);
      InsertKeepsShallow(InsertAll(pointers[..n], first).value, pointers[n], IndexLeaf(first + n));
    }
  }

  predicate DoubleSlash(pointer: string) {
    |pointer| >= 2 && pointer[..2] == "//"
  }

  lemma {:induction false} SpotsUnderNames(members: seq<Member>, l: Leaf)
    requires l in SpotsOf(members)
    ensures l.path != []
    ensures exists k :: 0 <= k < |members| && members[k].name == l.path[0] && (!members[k].value.Object? ==> |l.path| == 1)
  {
    var n := |members| - 1;
    var m := members[n];
    if l in SpotsOf(members[..n]) {
      SpotsUnderNames(members[..n], l);
      var k :| 0 <= k < n && members[..n][k].name == l.path[0] && (!members[..n][k].value.Object? ==> |l.path| == 1);
      assert members[k] == members[..n][k];
    } else {
      var i :| 0 <= i < |Spots(m.value)| && Under(m.name, Spots(m.value))[i] == l;
      assert members[n].name == l.path[0];
    }
  }

  lemma SecondSlash(head: string, rest: string)
    requires head == "" || head[0] != '/'
    ensures DoubleSlash("/" + head + rest) <==> head == "" && rest != "" && rest[0] == '/'
  {
    var s := "/" + head + rest;
    if |s| >= 2 {
      assert s[1] == if head == "" then rest[0] else head[0];
      assert s[..2] == ['/', s[1]];
    }
  }

  lemma RenderHead(path: Path)
    ensures Render(path) == "" <==> path == []
    ensures path != [] ==> Render(path)[0] == '/'
  {
  }

  lemma DoubleSlashMeansEmptyHead(path: Path)
    requires path != []
    ensures DoubleSlash(Render(path)) <==> path[0] == "" && |path| > 1
  {
    hide DoubleSlash, Escape;
    var head, rest := Escape(path[0]), Render(path[1..]);
    EscapeChangesIff(path[0]);
    EscapeChangesIff("");
    assert head == "" || head[0] in head;
    SecondSlash(head, rest);
    RenderHead(path[1..]);
  }

  /** No map built by insertion walks to a pointer that starts with two slashes. */
  lemma WalkHasNoDoubleSlash(root: Value)
    requires ShallowEmptyKey(root) && Walk("", root).Ok?
    ensures forall i :: 0 <= i < |Walk("", root).value| ==> !DoubleSlash(Walk("", root).value[i].pointer)
  {
    hide Walk, DoubleSlash, Render, GoodSpot, SpotsOf;
    WalkIs("", root);
    var spots := Spots(root);
    forall i | 0 <= i < |spots| ensures !DoubleSlash(ClaimAt("", spots[i]).pointer) {
      var l := spots[i];
      assert "" + Render(l.path) == Render(l.path);
      if root.Object? {
        assert l in SpotsOf(root.members);
        SpotsUnderNames(root.members, l);
        DoubleSlashMeansEmptyHead(l.path);
        RenderIsJoin(l.path);
      } else {
        RootPointerIsShort();
      }
    }
  }

  lemma RootPointerIsShort()
    ensures Render([]) == "" && !DoubleSlash(PointerOf(Render([])))
  {
  }

  /** A leaf below the empty top-level name, when that name holds members of its own. */
  lemma LeafBelowEmptyName(claims: Value, k: nat) returns (i: nat)
    requires claims.Object? && k < |claims.members| && claims.members[k].name == ""
    requires Children(claims.members[k].value) != []
    ensures i < |SortedLeaves(claims)| && |SortedLeaves(claims)[i].path| > 1 && SortedLeaves(claims)[i].path[0] == ""
  {
    hide Leaves, Sort;
    var child := claims.members[k].value;
    LeavesHavePaths(child);
    var l := Leaves(child)[0];
    ChildLeafListed(claims, k, |claims.members|, l);
    TopOfAll(claims);
    var deep := Leaf([""] + l.path, l.value);
    MembersAgree(Leaves(claims), SortedLeaves(claims), deep);
    i :| 0 <= i < |SortedLeaves(claims)| && SortedLeaves(claims)[i] == deep;
  }

  lemma DeepEmptyNameFails(codec: Codec, claims: Value, first: nat, k: nat)
    requires claims.Object? && k < |claims.members| && claims.members[k].name == ""
    requires Children(claims.members[k].value) != []
    ensures !Recovered(codec, claims, first)
  {
    hide Walk, Leaves, Sort, InsertAll, ShallowEmptyKey, DoubleSlash, Render;
    if Recovered(codec, claims, first) {
      var built := BuildCmap(codec, claims, first).value;
      var walked := Walk("", built.cmap).value;
      var i := LeafBelowEmptyName(claims, k);
      var path := SortedLeaves(claims)[i].path;
      InsertAllKeepsShallow(built.pointers, first);
      WalkHasNoDoubleSlash(built.cmap);
      EmptyEscapes();
      DoubleSlashMeansEmptyHead(Escaped(path));
      var claim := Expected(SortedLeaves(claims), first)[i];
      assert claim in Sort(walked, ClaimLe);
      MembersAgree(Sort(walked, ClaimLe), walked, claim);
    }
  }

  lemma {:induction false} SlashIsFirst(p: string)
    requires StartsWithSlash(p)
    ensures TextLe("/", p)
  {
    assert "/"[1..] == "";
  }

  lemma PointerStartsWithSlash(path: Path)
    ensures StartsWithSlash(PointerOf(Render(path)))
  {
    if path != [] {
      RenderIsJoin(path);
    }
  }

  /** With the pointer "/" among others, the second insertion finds a leaf where it needs an object. */
  lemma RootThenMoreFails(pointers: seq<string>, first: nat)
    requires |pointers| >= 2 && pointers[0] == "/" && pointers[1] != "/"
    ensures InsertAll(pointers, first).Err?
  {
    hide Parts;
    assert pointers[..1] == ["/"] && pointers[..2] == ["/", pointers[1]];
    NothingInserted(first);
    assert pointers[..0] == [];
    InsertAllStep(pointers, 0, first);
    InsertAllStep(pointers, 1, first);
    assert InsertAll(pointers[..1], first) == Ok(IndexLeaf(first));
    InsertAllStops(pointers, 2, first);
  }

  lemma LeafCountAtLeastMembers(claims: Value, n: nat)
    requires n <= |Children(claims)|
    ensures |LeavesUpTo(claims, n)| >= n
  {
    if n > 0 {
      LeafCountAtLeastMembers(claims, n - 1);
      SomeLeaf(Children(claims)[n - 1].value);
    }
  }

  lemma SmallestPointer(ps: seq<string>, k: nat)
    requires StrictlySorted(ps, TextLe) && k < |ps| && ps[k] == "/"
    requires forall i :: 0 <= i < |ps| ==> StartsWithSlash(ps[i])
    ensures k == 0
  {
    SlashIsFirst(ps[0]);
  }

  /** A leaf under the empty top-level name, beside other members: the map does not even build. */
  lemma ShallowEmptyNameFails(codec: Codec, claims: Value, first: nat, k: nat)
    requires WellFormed(claims)
    requires claims.Object? && k < |claims.members| && claims.members[k].name == "" && |claims.members| >= 2
    requires Children(claims.members[k].value) == []
    ensures BuildCmap(codec, claims, first).Err?
  {
    hide WellFormed, Leaves, Sort, InsertAll, LeavesUpTo, Render, TextLe;
    var leaves := SortedLeaves(claims);
    var ps := LeafPointers(leaves);
    var value := claims.members[k].value;
    OnlyItself(value);
    ChildLeafListed(claims, k, |claims.members|, Leaf([], value));
    TopOfAll(claims);
    var l := Leaf([""], value);
    assert [""] + [] == [""];
    MembersAgree(Leaves(claims), leaves, l);
    var i :| 0 <= i < |leaves| && leaves[i] == l;
    PartsOfEmptyHead([""]);
    assert ps[i] == "/";
    forall j | 0 <= j < |ps| ensures StartsWithSlash(ps[j]) {
      PointerStartsWithSlash(leaves[j].path);
    }
    SortedPointersAreStrict(claims);
    SmallestPointer(ps, i);
    LeafCountAtLeastMembers(claims, |claims.members|);
    SortedPointersAre(claims);
    SortedTextsAreStrict(ps);
    assert ps[1] != ps[0];
    RootThenMoreFails(ps, first);
  }

  lemma OnlyItself(v: Value)
    requires Children(v) == []
    ensures Leaf([], v) in Leaves(v) && Leaves(v) == [Leaf([], v)]
  {
  }

  lemma LoneEmptyNameLeaves(claims: Value)
    requires LoneEmptyName(claims)
    ensures Leaves(claims) == [Leaf([""], claims.members[0].value)]
  {
    var value := claims.members[0].value;
    OnlyItself(value);
    assert LeavesUpTo(claims, 0) == [];
    assert [""] + [] == [""];
    assert Under("", [Leaf([], value)]) == [Leaf([""], value)];
    assert Leaves(claims) == LeavesUpTo(claims, 0) + [Leaf([""], value)];
  }

  lemma LoneEmptyNameWalks(codec: Codec, claims: Value, first: nat)
    requires LoneEmptyName(claims)
    ensures |Leaves(claims)| == 1
    ensures BuildCmap(codec, claims, first).Ok?
    ensures Walk("", BuildCmap(codec, claims, first).value.cmap).Ok? <==> first < MAX_MESSAGES
    ensures Recovered(codec, claims, first) <==> first < MAX_MESSAGES
  {
    hide Leaves, Render;
    var value := claims.members[0].value;
    LoneEmptyNameLeaves(claims);
    var l := Leaf([""], value);
    var leaves := SortedLeaves(claims);
    assert |leaves| == 1;
    MembersAgree(leaves, [l], leaves[0]);
    assert leaves == [l];
    PartsOfEmptyHead([""]);
    SortedPointersAre(claims);
    SortedCount(claims);
    assert LeafPointers(leaves) == ["/"];
    assert ["/"][..0] == [];
    assert InsertAll(["/"], first) == Ok(IndexLeaf(first));
    EmptyEscapes();
    assert Escaped([""]) == [""];
    var claim := Claim("/", first);
    assert Walk("", IndexLeaf(first)) == if first < MAX_MESSAGES then Ok([claim]) else Err(MalformedContainer);
    assert [claim][..0] == [];
    assert Sort([claim], ClaimLe) == [claim];
    assert Expected(leaves, first) == [claim];
  }

  /** For claims the map can carry, it builds from up to 512 leaves, whatever the first index; whether it can be
      walked again depends on the last one. */
  lemma CarriedClaimsWalk(codec: Codec, claims: Value, first: nat)
    requires WellFormed(claims) && claims.Object? && claims.members != [] && |Leaves(claims)| <= MAX_MESSAGES
    requires NoEmptyName(claims) || LoneEmptyName(claims)
    ensures BuildCmap(codec, claims, first).Ok?
    ensures Walk("", BuildCmap(codec, claims, first).value.cmap).Ok? <==> first + |Leaves(claims)| <= MAX_MESSAGES
    ensures Recovered(codec, claims, first) <==> first + |Leaves(claims)| <= MAX_MESSAGES
  {
    hide Recovered, Leaves, WellFormed, Children, BuildCmap, Walk;
    if NoEmptyName(claims) {
      NamedClaimsWalk(codec, claims, first);
    } else {
      LoneEmptyNameWalks(codec, claims, first);
    }
  }

  /** Building and walking undo each other exactly for claims with no top-level member named "", and for the
      tree whose only member is such a leaf, as long as no index is beyond the limit. */
  lemma MapRecoveredIff(codec: Codec, claims: Value, first: nat)
    requires WellFormed(claims) && claims.Object? && claims.members != []
    ensures Recovered(codec, claims, first) <==>
            (NoEmptyName(claims) || LoneEmptyName(claims)) && first + |Leaves(claims)| <= MAX_MESSAGES
  {
    hide Recovered, Leaves, WellFormed, Children, BuildCmap;
    NotBuilt(codec, claims, first);
    if NoEmptyName(claims) || LoneEmptyName(claims) {
      if |Leaves(claims)| <= MAX_MESSAGES {
        CarriedClaimsWalk(codec, claims, first);
      }
    } else {
      var k :| 0 <= k < |claims.members| && claims.members[k].name == "";
      if Children(claims.members[k].value) != [] {
        DeepEmptyNameFails(codec, claims, first, k);
      } else {
        ShallowEmptyNameFails(codec, claims, first, k);
      }
    }
  }

  lemma NotBuilt(codec: Codec, claims: Value, first: nat)
    ensures Recovered(codec, claims, first) ==> BuildCmap(codec, claims, first).Ok? && |Leaves(claims)| <= MAX_MESSAGES
  {
    hide Walk, SortedLeaves, Sort, Leaves, InsertAll;
    SortedCount(claims);
  }

  // ---- Pointers keep their text ----

  predicate Plain(path: Path) {
    forall i :: 0 <= i < |path| ==> '~' !in path[i] && '/' !in path[i]
  }

  /** The walked pointer is the claim's own pointer exactly when no name on its path holds `~` or `/`. */
  lemma PointerUnchangedIff(path: Path)
    ensures Render(Escaped(path)) == Render(path) <==> Plain(path)
  {
    if Render(Escaped(path)) == Render(path) {
      RenderInjective(Escaped(path), path);
    }
    forall i | 0 <= i < |path| ensures Escaped(path)[i] == path[i] <==> '~' !in path[i] && '/' !in path[i] {
      EscapeChangesIff(path[i]);
    }
    if Plain(path) {
      assert Escaped(path) == path;
    }
  }

  // ---- Both sides of an issuance ----

  /** From any arrangement of the pointers one side derived, the other builds the identical map. */
  lemma PermutedPointersBuildTheSame(codec: Codec, claims: Value, pointers: seq<string>, first: nat)
    requires WellFormed(claims) && claims.Object? && claims.members != []
    requires |Leaves(claims)| <= MAX_MESSAGES
    requires multiset(pointers) == multiset(LeafPointers(SortedLeaves(claims)))
    ensures BuildCmap(codec, claims, first).Ok? <==> BuildCmapFromPointers(pointers, first).Ok?
    ensures BuildCmap(codec, claims, first).Ok? ==>
              && BuildCmap(codec, claims, first).value.pointers == LeafPointers(SortedLeaves(claims))
              && BuildCmapFromPointers(pointers, first) == Ok(BuildCmap(codec, claims, first).value.cmap)
  {
    hide WellFormed, Leaves, Sort, InsertAll, Render, TextLe, Distinct;
    var leaves := SortedLeaves(claims);
    var ps := LeafPointers(leaves);
    SortedLeavesAreGood(claims);
    SortedCount(claims);
    SortedPointersAre(claims);
    SortedPointersAreStrict(claims);
    PointersDistinct(leaves);
    DistinctPermutes(ps, pointers);
    SameLength(pointers, ps);
    TextIsTotalOrder();
    SortIs(pointers, ps, TextLe);
    forall i | 0 <= i < |pointers| ensures StartsWithSlash(pointers[i]) {
      MembersAgree(pointers, ps, pointers[i]);
      var j :| 0 <= j < |ps| && ps[j] == pointers[i];
      PointerStartsWithSlash(leaves[j].path);
    }
  }
}
