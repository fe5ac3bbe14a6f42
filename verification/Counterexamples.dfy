/** The smallest inputs on which the program does something its comments do not lead one to expect. The theorem
    named at each says on which inputs it happens. */
module Counterexamples {
  import opened Wrappers
  import opened Octets
  import opened Sorting
  import opened Text
  import opened Pointers
  import opened Json
  import opened ClaimMap
  import opened LeafTheorems
  import opened Headers
  import opened Curves
  import opened Flow
  import opened CredentialTheorems
  import opened SignedContent
  import Base64

  // ---- Small trees ----

  lemma LeavesOfOne(x: string, v: Value)
    ensures Leaves(Object([Member(x, v)])) == Under(x, Leaves(v))
    ensures Under(x, Leaves(Null)) == [Leaf([x], Null)]
  {
    var w := Object([Member(x, v)]);
    assert LeavesUpTo(w, 1) == LeavesUpTo(w, 0) + Under(x, Leaves(v));
    assert [x] + [] == [x];
  }

  lemma LeavesOfTwo(x: string, y: string)
    ensures Leaves(Object([Member(x, Null), Member(y, Null)])) == [Leaf([x], Null), Leaf([y], Null)]
  {
    hide Under;
    var v := Object([Member(x, Null), Member(y, Null)]);
    LeavesOfOne(x, Null);
    LeavesOfOne(y, Null);
    assert LeavesUpTo(v, 1) == LeavesUpTo(v, 0) + Under(x, Leaves(Null));
    assert LeavesUpTo(v, 2) == LeavesUpTo(v, 1) + Under(y, Leaves(Null));
  }

  lemma SortOne<T>(x: T, le: (T, T) -> bool)
    ensures Sort([x], le) == [x]
  {
    assert [x][..0] == [];
  }

  lemma SortTwo<T>(x: T, y: T, le: (T, T) -> bool)
    ensures Sort([x, y], le) == if le(x, y) then [x, y] else [y, x]
  {
    hide Sort, Place;
    SortOne(x, le);
    SortLast([x, y], le);
    assert [x, y][..1] == [x];
    PlaceOne(x, y, le);
  }

  lemma PlaceOne<T>(x: T, y: T, le: (T, T) -> bool)
    ensures Place([x], y, le) == if le(x, y) then [x, y] else [y, x]
  {
    assert [x] + [y] == [x, y] && [y] + [x] == [y, x];
    assert [x][..0] == [];
    assert Place([], y, le) == [y];
  }

  lemma SortLast<T>(xs: seq<T>, le: (T, T) -> bool)
    requires xs != []
    ensures Sort(xs, le) == Place(Sort(xs[..|xs| - 1], le), xs[|xs| - 1], le)
  {
  }

  // ---- A pointer that finds another claim ----

  lemma EscapeOne()
    ensures Escape("a/b") == "a~1b"
  {
    assert ReplaceChar("a/b", '~', "~0") == "a/b" && ReplaceChar("a/b", '/', "~1") == "a~1b";
  }

  lemma EscapeTwo()
    ensures Escape("a~1b") == "a~01b"
  {
    assert ReplaceChar("a~1b", '~', "~0") == "a~01b" && ReplaceChar("a~01b", '/', "~1") == "a~01b";
  }

  lemma RenderOne(name: string)
    ensures Render([name]) == "/" + Escape(name)
    ensures Escaped([name]) == [Escape(name)]
  {
    hide Escape;
    assert [name][1..] == [];
  }

  lemma TextLess()
    ensures !TextLe("/a~1b", "/a~01b")
  {
    assert "/a~1b"[1..][1..][1..] == "1b" && "/a~01b"[1..][1..][1..] == "01b";
    assert !TextLe("1b", "01b");
  }

  /** `a~1b` comes first, because its pointer does. */
  lemma TwoNamesInOrder()
    ensures var leaves := SortedLeaves(Object([Member("a/b", Null), Member("a~1b", Null)]));
            leaves == [Leaf(["a~1b"], Null), Leaf(["a/b"], Null)] && LeafPointers(leaves) == ["/a~01b", "/a~1b"]
  {
    hide Leaves, Sort, Escape, Render, TextLe;
    var x, y := Leaf(["a/b"], Null), Leaf(["a~1b"], Null);
    EscapeOne();
    EscapeTwo();
    RenderOne("a/b");
    RenderOne("a~1b");
    assert "/" + "a~1b" == "/a~1b" && "/" + "a~01b" == "/a~01b";
    TextLess();
    LeavesOfTwo("a/b", "a~1b");
    SortTwo(x, y, LeafLe);
    assert LeafPointers([y, x]) == ["/a~01b", "/a~1b"];
  }

  lemma TwoGoodLeaves(x: string, y: string)
    requires x != y
    ensures GoodLeaves([Leaf([x], Null), Leaf([y], Null)])
  {
    assert [x][0] != [y][0];
  }

  /** Of the claims `a/b` and `a~1b`, the pointer of `a~1b` finds `a/b`, and the pointer of `a/b` finds nothing
      (`OwnPointerFindsIff`). */
  lemma PointerFindsAnotherClaim(vct: string, selector: nat)
    ensures var leaves := SortedLeaves(Object([Member("a/b", Null), Member("a~1b", Null)]));
            var view := HeaderFor(vct, selector, leaves, []);
            && leaves == [Leaf(["a~1b"], Null), Leaf(["a/b"], Null)]
            && LeafPointers(leaves) == ["/a~01b", "/a~1b"]
            && view.IndexOf("/a~01b") == Some(1) && view.IndexOf("/a~1b").None?
  {
    hide SortedLeaves, Escape, Render, HeaderFor, HeaderView.IndexOf, GoodLeaves, LeafPointers;
    var leaves := [Leaf(["a~1b"], Null), Leaf(["a/b"], Null)];
    TwoNamesInOrder();
    EscapeOne();
    EscapeTwo();
    RenderOne("a/b");
    RenderOne("a~1b");
    TwoGoodLeaves("a~1b", "a/b");
    NoLeaves();
    var view, pointers := HeaderFor(vct, selector, leaves, []), LeafPointers(leaves) + LeafPointers([]);
    assert pointers == ["/a~01b", "/a~1b"];
    OwnPointerFindsIff(vct, selector, leaves, [], 0, 1);
    if view.IndexOf(pointers[1]).Some? {
      OwnPointerFindsIff(vct, selector, leaves, [], 1, view.IndexOf(pointers[1]).value);
    }
  }

  lemma NoLeaves()
    ensures GoodLeaves([]) && LeafPointers([]) == []
  {
  }

  // ---- Top-level members without a name ----

  lemma ShortPointers()
    ensures Render([""]) == "/" && Render(["a"]) == "/a" && Render(["", "a"]) == "//a"
    ensures Escape("a") == "a" && Escape("") == ""
  {
    assert ReplaceChar("a", '~', "~0") == "a" && ReplaceChar("a", '/', "~1") == "a";
    assert [""][1..] == [] && ["a"][1..] == [] && ["", "a"][1..] == ["a"];
  }

  /** Next to another member, a leaf named "" makes building fail (`MapRecoveredIff`). */
  lemma EmptyNameIsRefused(codec: Codec)
    ensures BuildCmap(codec, Object([Member("", Null), Member("a", Null)]), 0) == Err(MalformedContainer)
  {
    hide Leaves, Sort, Render, Escape;
    var claims := Object([Member("", Null), Member("a", Null)]);
    LeavesOfTwo("", "a");
    ShortPointers();
    var x, y := Entry("/", Null), Entry("/a", Null);
    assert "" + "/" == "/" && "" + "/a" == "/a";
    assert Entries("", Leaves(claims)) == [x, y];
    assert TextLe("/"[1..], "/a"[1..]);
    SortTwo(x, y, EntryLe);
    assert PointersOf([x, y]) == ["/", "/a"];
    assert ["/", "/a"][..1] == ["/"] && ["/"][..0] == [];
    assert InsertAll(["/"], 0) == Ok(IndexLeaf(0));
  }

  /** An object named "" is lost without an error: its claim is found under the pointer of a top-level one
      (`MapRecoveredIff`). */
  lemma EmptyNameIsLost(codec: Codec)
    ensures var claims := Object([Member("", Object([Member("a", Null)]))]);
            && LeafPointers(SortedLeaves(claims)) == ["//a"]
            && BuildCmap(codec, claims, 0).Ok?
            && Walk("", BuildCmap(codec, claims, 0).value.cmap) == Ok([Claim("/a", 0)])
  {
    hide Leaves, Render, Sort, InsertAll, Walk, Escape;
    var inner := Object([Member("a", Null)]);
    var claims, l, e := Object([Member("", inner)]), Leaf(["", "a"], Null), Entry("//a", Null);
    LeavesOfOne("a", Null);
    LeavesOfOne("", inner);
    assert [""] + ["a"] == ["", "a"];
    assert Leaves(claims) == [l];
    ShortPointers();
    SortOne(l, LeafLe);
    SortOne(e, EntryLe);
    assert "" + "//a" == "//a";
    assert Entries("", [l]) == [e] && PointersOf([e]) == ["//a"] && LeafPointers([l]) == ["//a"];
    MapOfOne();
    WalkOfOne();
  }

  /** Trimming takes one leading slash or two. */
  lemma MapOfOne()
    ensures InsertAll(["//a"], 0) == Ok(Object([Member("a", IndexLeaf(0))]))
    ensures InsertAll(["/a"], 0) == Ok(Object([Member("a", IndexLeaf(0))]))
  {
    hide Escape, ReplacePair;
    ShortPointers();
    assert ["//a"][..0] == [] && ["/a"][..0] == [];
    assert "//a"[1..] == "/a" && "/a"[1..] == "a" && TrimSlashes("//a") == TrimSlashes("/a") == "a";
    assert "a"[1..] == "" && Split("", '/') == [""];
    assert Split("a", '/') == [['a'] + ""] + [""][1..];
    assert ['a'] + "" == "a" && [""][1..] == [];
    assert Parts("//a") == Parts("/a") == ["a"];
    UnescapeShort();
    assert Put([], "a", IndexLeaf(0)) == [Member("a", IndexLeaf(0))];
  }

  lemma UnescapeShort()
    ensures Unescape("a") == "a"
  {
  }

  lemma WalkOfOne()
    ensures Walk("", Object([Member("a", IndexLeaf(0))])) == Ok([Claim("/a", 0)])
  {
    hide Escape;
    ShortPointers();
    var v := Object([Member("a", IndexLeaf(0))]);
    assert Walk("/a", IndexLeaf(0)) == Ok([Claim("/a", 0)]);
    assert "" + "/" + "a" == "/a";
    assert WalkUpTo("", v, 0) == Ok([]);
    assert [] + [Claim("/a", 0)] == [Claim("/a", 0)];
  }

  lemma BuiltFromOne(codec: Codec, claims: Value, p: string, path: Path)
    requires claims.Object? && claims.members != []
    requires Leaves(claims) == [Leaf(path, Null)] && PointerOf(Render(path)) == p && InsertAll([p], 0).Ok?
    ensures BuildCmap(codec, claims, 0) == Ok(Built(InsertAll([p], 0).value, [codec.write(Null)], [p]))
  {
    hide Leaves, Render, Sort, InsertAll;
    var e := Entry(p, Null);
    assert "" + Render(path) == Render(path);
    assert Entries("", [Leaf(path, Null)]) == [e];
    SortOne(e, EntryLe);
    assert PointersOf([e]) == [p] && MessagesOf(codec, [e]) == [codec.write(Null)];
  }

  /** So a claim `a` under a member "" and a top-level claim `a` have the same map and the same messages: what is
      signed does not tell them apart (`SignedAlikeIff` needs names at the top). */
  lemma EmptyNameSignsAlike(codec: Codec)
    ensures var v, w := Object([Member("", Object([Member("a", Null)]))]), Object([Member("a", Null)]);
            && BuildCmap(codec, v, 0).Ok? && BuildCmap(codec, w, 0).Ok?
            && BuildCmap(codec, v, 0).value.cmap == BuildCmap(codec, w, 0).value.cmap
            && BuildCmap(codec, v, 0).value.messages == BuildCmap(codec, w, 0).value.messages
            && !Reordered(AsObjects(v), AsObjects(w))
  {
    hide Leaves, Render, InsertAll, Escape, BuildCmap, AsObjects;
    var inner := Object([Member("a", Null)]);
    var v := Object([Member("", inner)]);
    LeavesOfOne("a", Null);
    LeavesOfOne("", inner);
    assert [""] + ["a"] == ["", "a"];
    assert Leaves(v) == [Leaf(["", "a"], Null)];
    ShortPointers();
    MapOfOne();
    BuiltFromOne(codec, v, "//a", ["", "a"]);
    BuiltFromOne(codec, inner, "/a", ["a"]);
    OtherNames(AsObjects(v), AsObjects(inner));
  }

  lemma OtherNames(v: Value, w: Value)
    requires v.Object? && w.Object? && |Children(v)| == |Children(w)| == 1 && Children(v)[0].name != Children(w)[0].name
    ensures !Reordered(v, w)
  {
    assert v.members[0].name != w.members[0].name;
  }

  /** An array and an object named by its positions have the same map, messages and pointers
      (`SignedAlikeIff`). */
  lemma ArraySignsAsObject(codec: Codec, first: nat)
    ensures BuildCmap(codec, Object([Member("a", Array([Null]))]), first)
         == BuildCmap(codec, Object([Member("a", Object([Member("0", Null)]))]), first)
  {
    hide Leaves, Sort, InsertAll;
    LeavesOfOne("a", Array([Null]));
    LeavesOfOne("a", Object([Member("0", Null)]));
    LeavesOfOne("0", Null);
    ArrayOfOne();
  }

  lemma ArrayOfOne()
    ensures Leaves(Array([Null])) == Under("0", Leaves(Null))
  {
    var v := Array([Null]);
    assert Decimal(0) == "0";
    assert LeavesUpTo(v, 1) == LeavesUpTo(v, 0) + Under("0", Leaves(Null));
  }

  // ---- One pointer in both maps ----

  /** When issuer and holder both claim `a`, the header passes and the pointer finds the issuer's only
      (`EveryClaimResolvesIff`). */
  lemma SharedPointerFindsIssuers(vct: string, selector: nat)
    ensures var view := HeaderFor(vct, selector, [Leaf(["a"], Null)], [Leaf(["a"], Null)]);
            && view.InOrder() && view.Pointers() == ["/a", "/a"]
            && view.IndexOf("/a") == Some(0)
  {
    hide Escape, Render, HeaderFor, HeaderView.Pointers, HeaderView.IndexOf, HeaderView.InOrder;
    var l := [Leaf(["a"], Null)];
    var view := HeaderFor(vct, selector, l, l);
    ShortPointers();
    RenderOne("a");
    HeaderForInOrder(vct, selector, l, l);
    HeaderForCounts(vct, selector, l, l);
    PointerOfMessage(vct, selector, l, l, 0);
    PointerOfMessage(vct, selector, l, l, 1);
    IndexOfIff(view, "/a", 0);
  }

  // ---- One leaf too many for one header ----

  function Nulls(n: nat): Value {
    Array(seq(n, i requires 0 <= i < n => Null))
  }

  lemma {:induction false} FlatCount(v: Value, n: nat)
    requires n <= |Children(v)| && forall i :: 0 <= i < |Children(v)| ==> Children(v)[i].value == Null
    ensures |LeavesUpTo(v, n)| == n
  {
    if n > 0 {
      FlatCount(v, n - 1);
      LeavesOfOne("", Null);
    }
  }

  /** An object with one array of `n` values. */
  lemma WideTree(name: string, n: nat)
    requires name != "" && n > 0
    ensures var v := Object([Member(name, Nulls(n))]); Usable(v) && |SortedLeaves(v)| == n
  {
    hide Sort;
    LeavesOfOne(name, Nulls(n));
    FlatCount(Nulls(n), n);
    assert Children(Nulls(n)) != [];
    assert WellFormed(Nulls(n));
  }

  lemma NarrowTree()
    ensures var v := Object([Member("b", Null)]);
            Usable(v) && SortedLeaves(v) == [Leaf(["b"], Null)] && LeafPointers(SortedLeaves(v)) == ["/b"]
  {
    hide Sort, Escape, Leaves;
    LeavesOfOne("b", Null);
    SortOne(Leaf(["b"], Null), LeafLe);
    RenderOne("b");
    EscapeShort();
    assert "/" + "b" == "/b";
  }

  lemma EscapeShort()
    ensures Escape("b") == "b"
  {
  }

  /** With 512 leaves on the issuer's side and one on the holder's, each side passes its own check and the header
      is built, but nobody can read it (`IssuerSideIff`). */
  lemma OneLeafTooMany(codec: Codec, c: Curve, commitment: Octets, vct: string)
    requires codec.Laws() && CommitmentShape(c, commitment) == Ok((1, 0))
    ensures var side := IssuerSide(codec, c, commitment, vct, Object([Member("a", Nulls(512))]), ["/b"], Object([]), KEYBIND_NONE);
            side.Ok? && ParseHeader(codec, side.value.0).Err?
  {
    hide Usable, SortedLeaves, LeafPointers, IssuerSide, ParseHeader, CommitmentShape, codec.Laws;
    WideTree("a", 512);
    NarrowTree();
    assert WellFormed(Object([]));
    IssuerSideIff(codec, c, commitment, vct, Object([Member("a", Nulls(512))]), Some(Object([Member("b", Null)])), ["/b"],
                  Object([]), KEYBIND_NONE, 0);
  }

  // ---- Two spellings of one octet string ----

  /** The low four bits of the second character are the unused ones. */
  lemma FirstOctet(v: Base64.Sextet)
    requires v < 16
    ensures Base64.Unpacked(0, v, 0, 0)[..1] == [0]
  {
    assert Base64.Pack(0, v, 0, 0) == v * 0x1000;
    assert v * 0x1000 / 0x10000 == 0;
  }

  lemma TwoLetters(a: char, b: char)
    requires Base64.Val(a).Some? && Base64.Val(b).Some?
    ensures Base64.Decode([a, b]) == Ok(Base64.Unpacked(Base64.Val(a).value, Base64.Val(b).value, 0, 0)[..1])
  {
    hide Base64.Val, Base64.Unpacked;
    var s := [a, b];
    assert s[..2] == s && s[2..] == [];
    assert Base64.DecodeLetters(s) == Base64.DecodeChunk(s) + Base64.DecodeLetters([]);
    assert Base64.DecodeLetters([]) == [] && Base64.DecodeChunk(s) + [] == Base64.DecodeChunk(s);
  }

  /** The decoder does not look at the unused low bits (`EncodeOfDecodeIff`). */
  lemma TwoSpellings()
    ensures Base64.Decode("AA") == Ok([0]) && Base64.Decode("AB") == Ok([0])
  {
    hide Base64.Unpacked, Base64.Decode;
    TwoLetters('A', 'A');
    TwoLetters('A', 'B');
    FirstOctet(0);
    FirstOctet(1);
  }
}
