/** What the map and the messages determine of the claims (`src/jwp.rs`). */
module SignedContent {
  import opened Wrappers
  import opened Sorting
  import opened Pointers
  import opened Json
  import opened ClaimMap
  import opened LeafTheorems
  import opened MapRoundTrip
  import opened CredentialTheorems

  // ---- Arrays read as objects ----

  /** Every array that nests something becomes an object named by the positions. */
  function AsObjects(v: Value): (r: Value)
    ensures |Children(r)| == |Children(v)|
    ensures forall i :: 0 <= i < |Children(v)| ==>
              Children(r)[i] == Member(Children(v)[i].name, AsObjects(Children(v)[i].value))
    ensures Children(v) == [] ==> r == v
    ensures Children(v) != [] ==> r.Object?
  {
    if Children(v) == [] then v
    else
      Object(seq(|Children(v)|, i requires 0 <= i < |Children(v)| =>
        Member(Children(v)[i].name, AsObjects(Children(v)[i].value))))
  }

  lemma {:induction false} FindInAsObjects(v: Value, name: string)
    ensures Find(Children(AsObjects(v)), name) == Find(Children(v), name)
  {
    hide AsObjects, Children;
    var a, b := Children(AsObjects(v)), Children(v);
    assert forall j :: 0 <= j < |b| ==> a[j].name == b[j].name;
    if Find(b, name).Some? {
      FindFirst(a, Find(b, name).value);
    }
  }

  /** The same paths lead to the same leaves. */
  lemma {:induction false} LeafAtAsObjects(v: Value, path: Path)
    ensures LeafAt(AsObjects(v), path) == LeafAt(v, path)
    decreases |path|
  {
    hide AsObjects, Children;
    if Children(v) != [] && path != [] {
      FindInAsObjects(v, path[0]);
      match Find(Children(v), path[0])
      case Some(k) => LeafAtAsObjects(Children(v)[k].value, path[1..]);
      case None =>
    }
  }

  lemma {:induction false} AsObjectsWellFormed(v: Value)
    requires WellFormed(v)
    ensures WellFormed(AsObjects(v))
    decreases v
  {
    if Children(v) != [] {
      ChildrenWellFormed(v);
      forall i | 0 <= i < |Children(v)| ensures WellFormed(AsObjects(Children(v)[i].value)) {
        AsObjectsWellFormed(Children(v)[i].value);
      }
    }
  }

  // ---- Equal leaves ----

  ghost predicate SamePaths(v: Value, w: Value) {
    forall path :: LeafAt(v, path) == LeafAt(w, path)
  }

  lemma SameLeavesIff(v: Value, w: Value)
    requires WellFormed(v) && WellFormed(w)
    ensures multiset(Leaves(v)) == multiset(Leaves(w)) <==> SamePaths(v, w)
  {
    hide Leaves, LeafAt, WellFormed;
    LeavesDistinct(v);
    LeavesDistinct(w);
    if multiset(Leaves(v)) == multiset(Leaves(w)) {
      forall path ensures LeafAt(v, path) == LeafAt(w, path) {
        SameAtPath(v, w, path);
        SameAtPath(w, v, path);
      }
    }
    if SamePaths(v, w) {
      forall l ensures l in Leaves(v) <==> l in Leaves(w) {
        LeafListedIff(v, l);
        LeafListedIff(w, l);
      }
      SameMembers(Leaves(v), Leaves(w));
    }
  }

  lemma SameAtPath(v: Value, w: Value, path: Path)
    requires WellFormed(v) && WellFormed(w) && multiset(Leaves(v)) == multiset(Leaves(w))
    ensures LeafAt(v, path).Some? ==> LeafAt(w, path) == LeafAt(v, path)
  {
    hide Leaves, LeafAt, WellFormed;
    if LeafAt(v, path).Some? {
      var l := Leaf(path, LeafAt(v, path).value);
      LeafListedIff(v, l);
      LeafListedIff(w, l);
      MembersAgree(Leaves(v), Leaves(w), l);
    }
  }

  /** A child of one tree is a child of every tree with the same paths, and those two have the same paths. */
  lemma ChildOfSamePaths(v: Value, w: Value, k: nat) returns (m: nat)
    requires WellFormed(v) && WellFormed(w) && SamePaths(v, w) && k < |Children(v)|
    ensures Find(Children(w), Children(v)[k].name) == Some(m)
    ensures m < |Children(w)| && SamePaths(Children(v)[k].value, Children(w)[m].value)
  {
    hide Leaves, Children, WellFormed;
    var name, child := Children(v)[k].name, Children(v)[k].value;
    ChildrenWellFormed(v);
    ChildrenWellFormed(w);
    SomeLeaf(child);
    var l := Leaves(child)[0];
    LeafListedIff(child, l);
    LeafAtChild(v, k, l.path);
    assert LeafAt(w, [name] + l.path).Some?;
    m := Find(Children(w), name).value;
    forall path ensures LeafAt(child, path) == LeafAt(Children(w)[m].value, path) {
      LeafAtChild(v, k, path);
      LeafAtChild(w, m, path);
    }
  }

  lemma SamePathsSymmetric(v: Value, w: Value)
    requires SamePaths(v, w)
    ensures SamePaths(w, v)
  {
    hide LeafAt;
  }

  lemma SamePathsLeaf(v: Value, w: Value)
    requires SamePaths(v, w)
    ensures Children(v) == [] <==> Children(w) == []
    ensures Children(v) == [] ==> v == w
  {
    assert LeafAt(v, []) == LeafAt(w, []);
  }

  predicate NamesWithin(a: seq<Member>, b: seq<Member>) {
    forall i :: 0 <= i < |a| ==> Find(b, a[i].name).Some?
  }

  lemma NamesAreIn(a: seq<Member>, b: seq<Member>, n: string)
    requires NamesWithin(a, b)
    ensures n in Names(a) ==> n in Names(b)
  {
    if n in Names(a) {
      var i :| 0 <= i < |a| && Names(a)[i] == n;
      assert Names(b)[Find(b, a[i].name).value] == n;
    }
  }

  lemma SameCount(a: seq<Member>, b: seq<Member>)
    requires Distinct(Names(a)) && Distinct(Names(b))
    requires NamesWithin(a, b) && NamesWithin(b, a)
    ensures |a| == |b|
  {
    hide Distinct, NamesWithin;
    forall n ensures n in Names(a) <==> n in Names(b) {
      NamesAreIn(a, b, n);
      NamesAreIn(b, a, n);
    }
    SameMembers(Names(a), Names(b));
    SameLength(Names(a), Names(b));
  }

  lemma NamesDistinct(a: seq<Member>)
    requires WellFormed(Object(a))
    ensures Distinct(Names(a))
  {
  }

  /** Objects whose members match by name, with matching values. */
  lemma ObjectsReordered(a: seq<Member>, b: seq<Member>)
    requires |a| == |b| && NamesWithin(b, a)
    requires forall i :: 0 <= i < |a| ==> Find(b, a[i].name).Some? && Reordered(a[i].value, b[Find(b, a[i].name).value].value)
    ensures Reordered(Object(a), Object(b))
  {
  }

  lemma {:induction false} SamePathsReordered(v: Value, w: Value)
    requires WellFormed(v) && WellFormed(w) && SamePaths(v, w)
    ensures Reordered(AsObjects(v), AsObjects(w))
    decreases v
  {
    hide SamePaths, WellFormed, LeafAt, Reordered, Find;
    SamePathsLeaf(v, w);
    SamePathsSymmetric(v, w);
    if Children(v) == [] {
      LeafIsReordered(v);
    } else {
      ChildrenWellFormed(v);
      ChildrenWellFormed(w);
      AsObjectsWellFormed(v);
      AsObjectsWellFormed(w);
      hide AsObjects, Children;
      var a, b := Children(AsObjects(v)), Children(AsObjects(w));
      forall i | 0 <= i < |a|
        ensures Find(b, a[i].name).Some? && Reordered(a[i].value, b[Find(b, a[i].name).value].value)
      {
        var m := ChildOfSamePaths(v, w, i);
        FindInAsObjects(w, a[i].name);
        ChildSmaller(v, i);
        SamePathsReordered(Children(v)[i].value, Children(w)[m].value);
      }
      assert NamesWithin(a, b);
      forall j | 0 <= j < |b| ensures Find(a, b[j].name).Some? {
        var m := ChildOfSamePaths(w, v, j);
        FindInAsObjects(v, b[j].name);
      }
      ObjectOfChildren(AsObjects(v));
      ObjectOfChildren(AsObjects(w));
      NamesDistinct(a);
      NamesDistinct(b);
      SameCount(a, b);
      ObjectsReordered(a, b);
    }
  }

  lemma ObjectOfChildren(v: Value)
    ensures v.Object? ==> v == Object(Children(v))
  {
  }

  lemma ChildSmaller(v: Value, k: nat)
    requires k < |Children(v)|
    ensures Children(v)[k].value < v
  {
  }

  lemma LeafIsReordered(v: Value)
    requires Children(v) == []
    ensures Reordered(v, v)
  {
  }

  lemma SameSorted(v: Value, w: Value)
    requires WellFormed(v) && WellFormed(w) && multiset(Leaves(v)) == multiset(Leaves(w))
    ensures SortedLeaves(v) == SortedLeaves(w)
  {
    hide Leaves, WellFormed, Sort, SamePaths;
    SameLeavesIff(v, w);
    SamePathsLeaf(v, w);
    if Children(v) != [] {
      SortedPointersAreStrict(v);
      LeafLeIsTotalOrder();
      SortIs(Leaves(w), SortedLeaves(v), LeafLe);
    }
  }

  /** Two trees have the same leaves, in the same order, exactly when they are the same tree up to the order of
      object members, with every array read as an object named by its positions. */
  lemma EqualLeavesIff(v: Value, w: Value)
    requires WellFormed(v) && WellFormed(w)
    ensures SortedLeaves(v) == SortedLeaves(w) <==> Reordered(AsObjects(v), AsObjects(w))
  {
    hide Leaves, LeafAt, WellFormed, Reordered, AsObjects, Sort;
    SameLeavesIff(v, w);
    if SortedLeaves(v) == SortedLeaves(w) {
      SamePathsReordered(v, w);
    }
    if Reordered(AsObjects(v), AsObjects(w)) {
      forall path ensures LeafAt(v, path) == LeafAt(w, path) {
        LeafAtReordered(AsObjects(v), AsObjects(w), path);
        LeafAtAsObjects(v, path);
        LeafAtAsObjects(w, path);
      }
      SameSorted(v, w);
    }
  }

  // ---- What is signed ----

  lemma LeafValueWellFormed(claims: Value, i: nat)
    requires WellFormed(claims) && i < |SortedLeaves(claims)|
    ensures WellFormed(SortedLeaves(claims)[i].value)
  {
    hide WellFormed, Leaves, Sort;
    var l := SortedLeaves(claims)[i];
    MembersAgree(SortedLeaves(claims), Leaves(claims), l);
    LeafListedIff(claims, l);
    FoundWellFormed(claims, l.path);
  }

  lemma SameLeaf(codec: Codec, a: Leaf, b: Leaf)
    requires codec.Laws() && WellFormed(a.value) && WellFormed(b.value)
    requires Render(Escaped(a.path)) == Render(Escaped(b.path)) && codec.write(a.value) == codec.write(b.value)
    ensures a == b
  {
    hide Render, WellFormed;
    RenderInjective(Escaped(a.path), Escaped(b.path));
    EscapedInjective(a.path, b.path);
    assert codec.parse(codec.write(a.value)) == Some(a.value) && codec.parse(codec.write(b.value)) == Some(b.value);
  }

  lemma BuiltFromPointers(codec: Codec, claims: Value, first: nat)
    requires BuildCmap(codec, claims, first).Ok?
    ensures InsertAll(BuildCmap(codec, claims, first).value.pointers, first) == Ok(BuildCmap(codec, claims, first).value.cmap)
  {
    hide InsertAll;
  }

  /** Of claims the map can carry, the map and the messages together determine the claims: they are the same for
      two trees exactly when those are the same up to the order of object members, with every array read as an
      object named by its positions. */
  lemma SignedAlikeIff(codec: Codec, v: Value, w: Value, first: nat)
    requires codec.Laws() && Usable(v) && Usable(w)
    requires first + |SortedLeaves(v)| <= MAX_MESSAGES && first + |SortedLeaves(w)| <= MAX_MESSAGES
    ensures BuildCmap(codec, v, first).Ok? && BuildCmap(codec, w, first).Ok?
    ensures var a, b := BuildCmap(codec, v, first).value, BuildCmap(codec, w, first).value;
            a.cmap == b.cmap && a.messages == b.messages <==> Reordered(AsObjects(v), AsObjects(w))
  {
    hide WellFormed, SortedLeaves, Walk, Sort, BuildCmap, Reordered, AsObjects, InsertAll, LeafPointers, codec.Laws;
    var a := UsableBuilds(codec, v, first);
    var b := UsableBuilds(codec, w, first);
    BuiltFromPointers(codec, v, first);
    BuiltFromPointers(codec, w, first);
    EqualLeavesIff(v, w);
    if a.cmap == b.cmap && a.messages == b.messages {
      var x, y := SortedLeaves(v), SortedLeaves(w);
      forall i | 0 <= i < |x| ensures x[i] == y[i] {
        assert Expected(x, first)[i] == Expected(y, first)[i];
        assert a.messages[i] == b.messages[i];
        LeafValueWellFormed(v, i);
        LeafValueWellFormed(w, i);
        SameLeaf(codec, x[i], y[i]);
      }
    }
  }
}
