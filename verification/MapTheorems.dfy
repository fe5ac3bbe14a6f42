/** Building the index map and walking it undo each other, and both sides of an issuance build the
    same map (`src/jwp.rs`). */
module MapTheorems {
  import opened Pointers
  import opened Json
  import opened ClaimMap
  import opened LeafTheorems

  // ---- The spots of a map: what its walk visits ----

  /** Every value in a map that is not an object, with the keys that lead to it. */
  function Spots(v: Value): seq<Leaf>
    decreases v, 1
  {
    if v.Object? then SpotsOf(v.members) else [Leaf([], v)]
  }

  function SpotsOf(members: seq<Member>): seq<Leaf>
    decreases members, 0
  {
    if members == [] then []
    else
      var n := |members| - 1;
      SpotsOf(members[..n]) + Under(members[n].name, Spots(members[n].value))
  }

  predicate GoodSpot(l: Leaf) {
    IsAnnotation(l.value) && ReadIndex(l.value).Ok?
  }

  predicate GoodSpots(spots: seq<Leaf>) {
    forall i :: 0 <= i < |spots| ==> GoodSpot(spots[i])
  }

  /** The claim the walk pushes for a spot: the keys on the way are escaped. */
  function ClaimAt(prefix: string, l: Leaf): Claim {
    Claim(PointerOf(prefix + Render(l.path)), if GoodSpot(l) then ReadIndex(l.value).value else 0)
  }

  function Claims(prefix: string, spots: seq<Leaf>): (r: seq<Claim>)
    ensures |r| == |spots|
    ensures forall i :: 0 <= i < |spots| ==> r[i] == ClaimAt(prefix, spots[i])
  {
    seq(|spots|, i requires 0 <= i < |spots| => ClaimAt(prefix, spots[i]))
  }

  lemma ClaimsUnder(prefix: string, name: string, spots: seq<Leaf>)
    ensures Claims(prefix + "/" + Escape(name), spots) == Claims(prefix, Under(name, spots))
    ensures GoodSpots(Under(name, spots)) <==> GoodSpots(spots)
  {
    hide Escape, ReadIndex, IsAnnotation;
    forall i | 0 <= i < |spots|
      ensures ClaimAt(prefix + "/" + Escape(name), spots[i]) == ClaimAt(prefix, Under(name, spots)[i])
      ensures GoodSpot(spots[i]) <==> GoodSpot(Under(name, spots)[i])
    {
      RenderSplits(prefix, name, spots[i].path);
    }
  }

  lemma ClaimsConcat(prefix: string, a: seq<Leaf>, b: seq<Leaf>)
    ensures Claims(prefix, a + b) == Claims(prefix, a) + Claims(prefix, b)
    ensures GoodSpots(a + b) <==> GoodSpots(a) && GoodSpots(b)
  {
    hide Render, GoodSpot;
    if GoodSpots(a + b) {
      assert forall i :: 0 <= i < |a| ==> a[i] == (a + b)[i];
      assert forall i :: 0 <= i < |b| ==> b[i] == (a + b)[|a| + i];
    }
  }

  lemma {:induction false} WalkUpToIs(prefix: string, v: Value, n: nat)
    requires v.Object? && n <= |v.members|
    ensures WalkUpTo(prefix, v, n).Ok? <==> GoodSpots(SpotsOf(v.members[..n]))
    ensures WalkUpTo(prefix, v, n).Ok? ==> WalkUpTo(prefix, v, n).value == Claims(prefix, SpotsOf(v.members[..n]))
    decreases v, 0, n
  {
    hide Escape, Walk, Spots, GoodSpots;
    if n > 0 {
      var m := v.members[n - 1];
      assert v.members[..n][..n - 1] == v.members[..n - 1];
      WalkUpToIs(prefix, v, n - 1);
      WalkIs(prefix + "/" + Escape(m.name), m.value);
      ClaimsUnder(prefix, m.name, Spots(m.value));
      ClaimsConcat(prefix, SpotsOf(v.members[..n - 1]), Under(m.name, Spots(m.value)));
    } else {
      NoSpots();
    }
  }

  lemma NoSpots()
    ensures GoodSpots([])
  {
  }

  lemma OneSpot(prefix: string, v: Value)
    ensures GoodSpots([Leaf([], v)]) <==> GoodSpot(Leaf([], v))
    ensures Claims(prefix, [Leaf([], v)]) == [Claim(PointerOf(prefix), if GoodSpot(Leaf([], v)) then ReadIndex(v).value else 0)]
  {
    assert [Leaf([], v)][0] == Leaf([], v);
    assert prefix + "" == prefix;
  }

  /** The walk accepts exactly the maps whose every spot is an acceptable annotation, and then
      lists each of them once. */
  lemma {:induction false} WalkIs(prefix: string, v: Value)
    ensures Walk(prefix, v).Ok? <==> GoodSpots(Spots(v))
    ensures Walk(prefix, v).Ok? ==> Walk(prefix, v).value == Claims(prefix, Spots(v))
    decreases v, 1, 0
  {
    hide GoodSpots, ReadIndex, Claims, SpotsOf;
    if v.Object? {
      WalkUpToIs(prefix, v, |v.members|);
      assert v.members[..|v.members|] == v.members;
    } else {
      OneSpot(prefix, v);
    }
  }

  // ---- Inserting adds one spot ----

  lemma SpotsSnoc(members: seq<Member>, m: Member)
    ensures SpotsOf(members + [m]) == SpotsOf(members) + Under(m.name, Spots(m.value))
  {
    hide Spots;
    assert (members + [m])[..|members|] == members;
  }

  lemma {:induction false} SpotsConcat(a: seq<Member>, b: seq<Member>)
    ensures SpotsOf(a + b) == SpotsOf(a) + SpotsOf(b)
  {
    hide Spots, SpotsOf;
    if b == [] {
      assert a + b == a;
      SpotsNone();
    } else {
      var n := |b| - 1;
      assert a + b == (a + b[..n]) + [b[n]] && b == b[..n] + [b[n]];
      SpotsConcat(a, b[..n]);
      SpotsSnoc(a + b[..n], b[n]);
      SpotsSnoc(b[..n], b[n]);
    }
  }

  lemma SpotsNone()
    ensures SpotsOf([]) == []
  {
  }

  lemma SpotsOne(m: Member)
    ensures SpotsOf([m]) == Under(m.name, Spots(m.value))
  {
    hide SpotsOf, Spots;
    assert [] + [m] == [m];
    SpotsSnoc([], m);
    SpotsNone();
  }

  lemma SplitAt(members: seq<Member>, i: nat)
    requires i < |members|
    ensures members == members[..i] + [members[i]] + members[i + 1..]
  {
  }

  /** The spots around and below the `i`-th member. */
  lemma SpotsAt(members: seq<Member>, i: nat)
    requires i < |members|
    ensures SpotsOf(members)
         == SpotsOf(members[..i]) + Under(members[i].name, Spots(members[i].value)) + SpotsOf(members[i + 1..])
  {
    hide Spots, SpotsOf;
    var front, rest := members[..i], members[i + 1..];
    SplitAt(members, i);
    SpotsSnoc(front, members[i]);
    SpotsConcat(front + [members[i]], rest);
  }

  /** `b` is `a` with one more element, at position `k`. */
  predicate AddedAt<T(==)>(a: seq<T>, b: seq<T>, x: T, k: nat) {
    k <= |a| && b == a[..k] + [x] + a[k..]
  }

  lemma AddedPermutes<T>(a: seq<T>, b: seq<T>, x: T, k: nat)
    requires AddedAt(a, b, x, k)
    ensures multiset(b) == multiset(a) + multiset{x}
  {
    assert a == a[..k] + a[k..];
  }

  lemma AddedBetween<T>(p: seq<T>, a: seq<T>, b: seq<T>, q: seq<T>, x: T, k: nat)
    requires AddedAt(a, b, x, k)
    ensures AddedAt(p + a + q, p + b + q, x, |p| + k)
  {
  }

  lemma AddedUnder(name: string, a: seq<Leaf>, b: seq<Leaf>, x: Leaf, k: nat)
    requires AddedAt(a, b, x, k)
    ensures AddedAt(Under(name, a), Under(name, b), Leaf([name] + x.path, x.value), k)
  {
  }

  /** The spots below a key, and those before and after it. */
  function BelowKey(members: seq<Member>, key: string): seq<Leaf> {
    match Find(members, key)
    case Some(i) => Spots(members[i].value)
    case None => []
  }

  function Before(members: seq<Member>, key: string): seq<Leaf> {
    match Find(members, key)
    case Some(i) => SpotsOf(members[..i])
    case None => SpotsOf(members)
  }

  function After(members: seq<Member>, key: string): seq<Leaf> {
    match Find(members, key)
    case Some(i) => SpotsOf(members[i + 1..])
    case None => []
  }

  /** Putting a value under a key changes only what is below that key. */
  lemma SpotsPut(members: seq<Member>, key: string, value: Value)
    ensures SpotsOf(members) == Before(members, key) + Under(key, BelowKey(members, key)) + After(members, key)
    ensures SpotsOf(Put(members, key, value)) == Before(members, key) + Under(key, Spots(value)) + After(members, key)
  {
    hide Spots, SpotsOf;
    match Find(members, key)
    case Some(i) =>
      var r := Put(members, key, value);
      assert r[..i] == members[..i] && r[i + 1..] == members[i + 1..];
      SpotsAt(members, i);
      SpotsAt(r, i);
    case None =>
      SpotsConcat(members, [Member(key, value)]);
      SpotsOne(Member(key, value));
  }

  /** Every object strictly inside a map has members. */
  ghost predicate Full(v: Value)
    decreases v
  {
    v.Object? ==> v.members != [] && forall i :: 0 <= i < |v.members| ==> Full(v.members[i].value)
  }

  ghost predicate FullBelow(v: Value) {
    v.Object? && forall i :: 0 <= i < |v.members| ==> Full(v.members[i].value)
  }

  lemma {:induction false} FullHasSpot(v: Value)
    requires Full(v)
    ensures Spots(v) != []
  {
    if v.Object? {
      var n := |v.members| - 1;
      FullHasSpot(v.members[n].value);
    }
  }

  /** A path neither leads to nor through a spot, nor does a spot lead through it. */
  ghost predicate Apart(path: Path, spots: seq<Leaf>) {
    forall i :: 0 <= i < |spots| ==> !(spots[i].path <= path) && !(path <= spots[i].path)
  }

  /** Parts that `insert_at_pointer` keeps as they are. */
  predicate Settled(parts: seq<string>) {
    forall i :: 0 <= i < |parts| ==> Key(parts[i]) == parts[i]
  }

  lemma ApartBelow(members: seq<Member>, parts: seq<string>)
    requires parts != [] && Apart(parts, SpotsOf(members))
    ensures Apart(parts[1..], BelowKey(members, parts[0]))
  {
    hide Spots, SpotsOf, BelowKey, Before, After;
    SpotsPut(members, parts[0], Null);
    var p, below := Before(members, parts[0]), BelowKey(members, parts[0]);
    var spots := SpotsOf(members);
    forall i | 0 <= i < |below| ensures !(below[i].path <= parts[1..]) && !(parts[1..] <= below[i].path) {
      assert spots[|p| + i] == Under(parts[0], below)[i];
      assert [parts[0]] + parts[1..] == parts;
      PrefixCons(parts[0], below[i].path, parts[1..]);
      PrefixCons(parts[0], parts[1..], below[i].path);
    }
  }

  lemma ApartChildIsOpen(parts: seq<string>, child: Value)
    requires |parts| >= 1 && Apart(parts[1..], Spots(child)) && Full(child)
    ensures child.Object? && |parts| > 1
  {
    hide Full;
    FullHasSpot(child);
    assert [] <= parts[1..] && parts[1..] <= parts[1..];
    assert !(Spots(child)[0].path <= parts[1..]) && !(parts[1..] <= Spots(child)[0].path);
  }

  lemma FullPut(members: seq<Member>, key: string, value: Value)
    requires FullBelow(Object(members)) && Full(value)
    ensures FullBelow(Object(Put(members, key, value))) && Full(Object(Put(members, key, value)))
  {
  }

  lemma PutAdds(members: seq<Member>, key: string, value: Value, x: Leaf, j: nat) returns (k: nat)
    requires AddedAt(BelowKey(members, key), Spots(value), x, j)
    ensures AddedAt(SpotsOf(members), SpotsOf(Put(members, key, value)), Leaf([key] + x.path, x.value), k)
  {
    hide Spots, SpotsOf, BelowKey, Before, After, AddedAt;
    var below := BelowKey(members, key);
    SpotsPut(members, key, value);
    AddedUnder(key, below, Spots(value), x, j);
    AddedBetween(Before(members, key), Under(key, below), Under(key, Spots(value)), After(members, key),
                 Leaf([key] + x.path, x.value), j);
    k := |Before(members, key)| + j;
  }

  /** The object a step descends into: the one present, or a new empty one. */
  function ChildOf(members: seq<Member>, key: string): Value {
    match Get(members, key)
    case Some(v) => v
    case None => Object([])
  }

  lemma ChildIsOpen(members: seq<Member>, parts: seq<string>)
    requires FullBelow(Object(members)) && parts != [] && Apart(parts, SpotsOf(members))
    ensures |parts| == 1 ==> BelowKey(members, parts[0]) == []
    ensures |parts| > 1 ==>
              && FullBelow(ChildOf(members, parts[0]))
              && Spots(ChildOf(members, parts[0])) == BelowKey(members, parts[0])
              && Apart(parts[1..], BelowKey(members, parts[0]))
  {
    hide Spots, SpotsOf, Full, Apart, FullBelow;
    ApartBelow(members, parts);
    EmptyHasNoSpots();
    match Find(members, parts[0])
    case Some(i) =>
      FullMember(Object(members), i);
      ApartChildIsOpen(parts, members[i].value);
      FullChild(members[i].value);
    case None =>
      FullChild(Object([]));
  }

  /** Inserting at a path that lies apart from every spot conflicts with nothing, overwrites
      nothing and adds exactly that one spot. */
  lemma {:induction false} InsertAdds(node: Value, parts: seq<string>, leaf: Value) returns (k: nat)
    requires FullBelow(node) && parts != [] && Settled(parts) && Apart(parts, Spots(node)) && !leaf.Object?
    ensures InsertPath(node, parts, leaf).Ok?
    ensures var r := InsertPath(node, parts, leaf).value;
            FullBelow(r) && Full(r) && AddedAt(Spots(node), Spots(r), Leaf(parts, leaf), k)
    decreases |parts|
  {
    hide Spots, SpotsOf, Full, Apart, Key, FullBelow, AddedAt, BelowKey, Put;
    SpotsOfObject(node);
    var members, key := node.members, parts[0];
    ChildIsOpen(members, parts);
    assert [key] + parts[1..] == parts;
    var value := leaf;
    var j := 0;
    if |parts| == 1 {
      FullLeaf(leaf);
      AddedToNothing(Leaf([], leaf));
    } else {
      j := InsertAdds(ChildOf(members, key), parts[1..], leaf);
      value := InsertPath(ChildOf(members, key), parts[1..], leaf).value;
    }
    k := PutAdds(members, key, value, Leaf(parts[1..], leaf), j);
    FullPut(members, key, value);
    SpotsOfObject(Object(Put(members, key, value)));
  }

  lemma AddedToNothing(x: Leaf)
    ensures AddedAt([], [x], x, 0)
  {
  }

  lemma SpotsOfObject(node: Value)
    requires FullBelow(node)
    ensures node.Object? && Spots(node) == SpotsOf(node.members)
  {
  }

  lemma FullMember(node: Value, i: nat)
    requires FullBelow(node) && i < |node.members|
    ensures Full(node.members[i].value)
  {
  }

  lemma FullLeaf(leaf: Value)
    requires !leaf.Object?
    ensures Full(leaf) && Spots(leaf) == [Leaf([], leaf)]
  {
  }

  lemma FullChild(child: Value)
    requires child.Object?
    ensures Full(child) ==> FullBelow(child)
    ensures child.members == [] ==> FullBelow(child)
  {
  }

  lemma EmptyHasNoSpots()
    ensures Spots(Object([])) == [] && Apart([], []) && forall parts: Path :: Apart(parts, [])
  {
  }
}
