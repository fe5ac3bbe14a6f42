/** What the leaves of a claims tree are: no two of them lie on one path, each is exactly what
    following its names finds, and the order of object members does not matter. */
module LeafTheorems {
  import opened Wrappers
  import opened Sorting
  import opened Pointers
  import opened Json
  import opened ClaimMap

  /** No path leads to, or through, another. */
  ghost predicate PrefixFree(leaves: seq<Leaf>) {
    forall i, j :: 0 <= i < |leaves| && 0 <= j < |leaves| && i != j ==> !(leaves[i].path <= leaves[j].path)
  }

  lemma ChildrenWellFormed(v: Value)
    requires WellFormed(v)
    ensures forall i :: 0 <= i < |Children(v)| ==> WellFormed(Children(v)[i].value)
    ensures forall i, j :: 0 <= i < j < |Children(v)| ==> Children(v)[i].name != Children(v)[j].name
  {
    var ms := Children(v);
    forall i, j | 0 <= i < j < |ms| ensures ms[i].name != ms[j].name {
      if v.Array? {
        if Decimal(i) == Decimal(j) {
          DecimalInjective(i, j);
        }
      } else {
        assert Names(ms)[i] != Names(ms)[j];
      }
    }
  }

  /** Leaves below the first `n` children start with one of their names. */
  lemma {:induction false} LeavesUpToStart(v: Value, n: nat)
    requires n <= |Children(v)|
    ensures forall i :: 0 <= i < |LeavesUpTo(v, n)| ==>
              && LeavesUpTo(v, n)[i].path != []
              && exists k :: 0 <= k < n && Children(v)[k].name == LeavesUpTo(v, n)[i].path[0]
  {
    hide Children, Leaves;
    if n > 0 {
      LeavesUpToStart(v, n - 1);
      var front, m := LeavesUpTo(v, n - 1), Children(v)[n - 1];
      var last := Under(m.name, Leaves(m.value));
      var all: seq<Leaf> := front + last;
      forall i | 0 <= i < |all|
        ensures all[i].path != []
             && exists k :: 0 <= k < n && Children(v)[k].name == all[i].path[0]
      {
        if i < |front| {
          var k :| 0 <= k < n - 1 && Children(v)[k].name == front[i].path[0];
          assert 0 <= k < n;
        } else {
          assert Children(v)[n - 1].name == last[i - |front|].path[0];
        }
      }
    }
  }

  lemma PrefixCons(name: string, p: Path, q: Path)
    ensures [name] + p <= [name] + q <==> p <= q
  {
    assert ([name] + p)[1..] == p && ([name] + q)[1..] == q;
  }

  lemma UnderPrefixFree(name: string, leaves: seq<Leaf>)
    requires PrefixFree(leaves)
    ensures PrefixFree(Under(name, leaves))
  {
    var r := Under(name, leaves);
    forall i, j | 0 <= i < |r| && 0 <= j < |r| && i != j ensures !(r[i].path <= r[j].path) {
      PrefixCons(name, leaves[i].path, leaves[j].path);
    }
  }

  lemma ConcatPrefixFree(a: seq<Leaf>, b: seq<Leaf>)
    requires PrefixFree(a) && PrefixFree(b)
    requires forall i, j :: 0 <= i < |a| && 0 <= j < |b| ==> a[i].path != [] && b[j].path != [] && a[i].path[0] != b[j].path[0]
    ensures PrefixFree(a + b)
  {
  }

  lemma {:induction false} LeavesUpToPrefixFree(v: Value, n: nat)
    requires WellFormed(v) && n <= |Children(v)|
    ensures PrefixFree(LeavesUpTo(v, n))
    decreases v, n
  {
    hide Leaves, PrefixFree;
    if n > 0 {
      ChildrenWellFormed(v);
      var front, m := LeavesUpTo(v, n - 1), Children(v)[n - 1];
      var last := Under(m.name, Leaves(m.value));
      LeavesUpToPrefixFree(v, n - 1);
      LeavesPrefixFree(m.value);
      UnderPrefixFree(m.name, Leaves(m.value));
      LeavesUpToStart(v, n - 1);
      forall i, j | 0 <= i < |front| && 0 <= j < |last|
        ensures front[i].path != [] && last[j].path != [] && front[i].path[0] != last[j].path[0]
      {
        var k :| 0 <= k < n - 1 && Children(v)[k].name == front[i].path[0];
      }
      ConcatPrefixFree(front, last);
    } else {
      NonePrefixFree();
    }
  }

  lemma NonePrefixFree()
    ensures PrefixFree([])
  {
  }

  /** Leaf paths are pairwise distinct, and none leads through another. */
  lemma {:induction false} LeavesPrefixFree(v: Value)
    requires WellFormed(v)
    ensures PrefixFree(Leaves(v))
    decreases v, |Children(v)| + 1
  {
    if Children(v) != [] {
      LeavesUpToPrefixFree(v, |Children(v)|);
    }
  }

  lemma LeavesHavePaths(v: Value)
    requires Children(v) != []
    ensures forall i :: 0 <= i < |Leaves(v)| ==> Leaves(v)[i].path != []
    ensures |Leaves(v)| >= 1
  {
    LeavesUpToStart(v, |Children(v)|);
    SomeLeaf(v);
  }

  lemma {:induction false} SomeLeaf(v: Value)
    ensures |Leaves(v)| >= 1
  {
    hide LeavesUpTo;
    if Children(v) != [] {
      SomeLeaf(Children(v)[|Children(v)| - 1].value);
      LeavesOfLast(v, |Children(v)|);
    }
  }

  lemma LeavesOfLast(v: Value, n: nat)
    requires 0 < n <= |Children(v)|
    ensures |LeavesUpTo(v, n)| >= |Leaves(Children(v)[n - 1].value)|
  {
    hide Leaves, Children;
  }

  // ---- Leaves as lookups ----

  /** What following `path` from `v` finds, when that is a leaf. */
  function LeafAt(v: Value, path: Path): Option<Value>
    decreases |path|
  {
    if Children(v) == [] then (if path == [] then Some(v) else None)
    else if path == [] then None
    else
      match Get(Children(v), path[0])
      case Some(child) => LeafAt(child, path[1..])
      case None => None
  }

  lemma GetNth(ms: seq<Member>, k: nat)
    requires k < |ms| && forall i, j :: 0 <= i < j < |ms| ==> ms[i].name != ms[j].name
    ensures Get(ms, ms[k].name) == Some(ms[k].value)
  {
    FindFirst(ms, k);
  }

  lemma LeafAtChild(v: Value, k: nat, path: Path)
    requires WellFormed(v) && k < |Children(v)|
    ensures LeafAt(v, [Children(v)[k].name] + path) == LeafAt(Children(v)[k].value, path)
  {
    hide WellFormed;
    ChildrenWellFormed(v);
    GetNth(Children(v), k);
    assert ([Children(v)[k].name] + path)[1..] == path;
  }

  lemma {:induction false} LeafFound(v: Value, n: nat, l: Leaf)
    requires WellFormed(v) && n <= |Children(v)| && l in LeavesUpTo(v, n)
    ensures LeafAt(v, l.path) == Some(l.value)
    decreases v, n
  {
    hide WellFormed, Leaves, LeafAt, Children;
    ChildrenWellFormed(v);
    var m := Children(v)[n - 1];
    var front, last := LeavesUpTo(v, n - 1), Under(m.name, Leaves(m.value));
    if l in front {
      LeafFound(v, n - 1, l);
    } else {
      assert l in last;
      var i :| 0 <= i < |last| && last[i] == l;
      LeafIsFound(m.value, Leaves(m.value)[i]);
      LeafAtChild(v, n - 1, Leaves(m.value)[i].path);
    }
  }

  lemma {:induction false} LeafIsFound(v: Value, l: Leaf)
    requires WellFormed(v) && l in Leaves(v)
    ensures LeafAt(v, l.path) == Some(l.value)
    decreases v, |Children(v)| + 1
  {
    if Children(v) != [] {
      LeafFound(v, |Children(v)|, l);
    }
  }

  lemma {:induction false} ChildLeafListed(v: Value, k: nat, n: nat, l: Leaf)
    requires k < n <= |Children(v)| && l in Leaves(Children(v)[k].value)
    ensures Leaf([Children(v)[k].name] + l.path, l.value) in LeavesUpTo(v, n)
  {
    hide Leaves, Children;
    if k + 1 < n {
      ChildLeafListed(v, k, n - 1, l);
    } else {
      var ls := Leaves(Children(v)[k].value);
      var i :| 0 <= i < |ls| && ls[i] == l;
      assert Under(Children(v)[k].name, ls)[i] == Leaf([Children(v)[k].name] + l.path, l.value);
    }
  }

  lemma {:induction false} FoundIsListed(v: Value, path: Path)
    requires LeafAt(v, path).Some?
    ensures Leaf(path, LeafAt(v, path).value) in Leaves(v)
    decreases |path|
  {
    if Children(v) != [] {
      var k := Find(Children(v), path[0]).value;
      var child := Children(v)[k].value;
      FoundIsListed(child, path[1..]);
      ChildLeafListed(v, k, |Children(v)|, Leaf(path[1..], LeafAt(v, path).value));
      assert [path[0]] + path[1..] == path;
    }
  }

  /** The list of leaves holds exactly what following a path finds. */
  lemma LeafListedIff(v: Value, l: Leaf)
    requires WellFormed(v)
    ensures l in Leaves(v) <==> LeafAt(v, l.path) == Some(l.value)
  {
    if l in Leaves(v) {
      LeafIsFound(v, l);
    }
    if LeafAt(v, l.path) == Some(l.value) {
      FoundIsListed(v, l.path);
    }
  }

  lemma LeavesDistinct(v: Value)
    requires WellFormed(v)
    ensures Distinct(Leaves(v))
  {
    LeavesPrefixFree(v);
    var ls := Leaves(v);
    forall i, j | 0 <= i < j < |ls| ensures ls[i] != ls[j] {
      assert !(ls[i].path <= ls[j].path);
    }
  }

  // ---- Reordering members ----

  /** The same tree up to the order of object members, at every depth. */
  ghost predicate Reordered(v: Value, w: Value)
    decreases v
  {
    match v
    case Object(members) =>
      && w.Object? && |w.members| == |members|
      && (forall j :: 0 <= j < |w.members| ==> Find(members, w.members[j].name).Some?)
      && forall i :: 0 <= i < |members| ==>
           var k := Find(w.members, members[i].name); k.Some? && Reordered(members[i].value, w.members[k.value].value)
    case Array(items) =>
      && w.Array? && |w.items| == |items|
      && forall i :: 0 <= i < |items| ==> Reordered(items[i], w.items[i])
    case _ => v == w
  }

  lemma SameKind(v: Value, w: Value)
    requires Reordered(v, w)
    ensures v.Object? <==> w.Object?
  {
  }

  lemma ReorderedChildren(v: Value, w: Value, name: string)
    requires Reordered(v, w)
    ensures |Children(v)| == |Children(w)|
    ensures Get(Children(v), name).Some? <==> Get(Children(w), name).Some?
    ensures Get(Children(v), name).Some? ==> Reordered(Get(Children(v), name).value, Get(Children(w), name).value)
  {
    var a, b := Find(Children(v), name), Find(Children(w), name);
    if v.Array? {
      assert forall i :: 0 <= i < |v.items| ==> Children(v)[i].name == Children(w)[i].name == Decimal(i);
      if a.Some? {
        FindFirst(Children(w), a.value);
      }
      if b.Some? {
        FindFirst(Children(v), b.value);
      }
    }
  }

  lemma ReorderedLeaf(v: Value, w: Value)
    requires Reordered(v, w) && Children(v) == []
    ensures v == w
  {
  }

  lemma {:induction false} LeafAtReordered(v: Value, w: Value, path: Path)
    requires Reordered(v, w)
    ensures LeafAt(v, path).Some? <==> LeafAt(w, path).Some?
    ensures LeafAt(v, path).Some? ==> LeafAt(v, path) == LeafAt(w, path)
    decreases |path|
  {
    hide Reordered, Children, Get;
    ReorderedChildren(v, w, if path == [] then "" else path[0]);
    if Children(v) == [] {
      ReorderedLeaf(v, w);
    } else if path != [] && Get(Children(v), path[0]).Some? {
      LeafAtReordered(Get(Children(v), path[0]).value, Get(Children(w), path[0]).value, path[1..]);
    }
  }

  lemma ReorderedLeaves(v: Value, w: Value)
    requires WellFormed(v) && WellFormed(w) && Reordered(v, w)
    ensures multiset(Leaves(v)) == multiset(Leaves(w))
  {
    hide Reordered, WellFormed, Leaves, LeafAt;
    LeavesDistinct(v);
    LeavesDistinct(w);
    forall l ensures l in Leaves(v) <==> l in Leaves(w) {
      LeafListedIff(v, l);
      LeafListedIff(w, l);
      LeafAtReordered(v, w, l.path);
    }
    SameMembers(Leaves(v), Leaves(w));
  }

  // ---- The sorted list ----

  predicate LeafLe(a: Leaf, b: Leaf) {
    TextLe(PointerOf(Render(a.path)), PointerOf(Render(b.path)))
  }

  /** The leaves in message order. */
  function SortedLeaves(claims: Value): (r: seq<Leaf>)
    ensures multiset(r) == multiset(Leaves(claims)) && |r| == |Leaves(claims)|
  {
    Sort(Leaves(claims), LeafLe)
  }

  function RootEntry(l: Leaf): Entry {
    Entry(PointerOf(Render(l.path)), l.value)
  }

  lemma SortedEntriesAre(claims: Value)
    ensures SortedEntries(claims) == Map(RootEntry, SortedLeaves(claims))
  {
    hide Leaves, Render, Sort, TextLe;
    var leaves := Leaves(claims);
    forall l: Leaf ensures EntryOf("", l) == RootEntry(l) {
      assert "" + Render(l.path) == Render(l.path);
    }
    assert Entries("", leaves) == Map(RootEntry, leaves);
    assert forall a, b :: LeafLe(a, b) == EntryLe(RootEntry(a), RootEntry(b));
    SortCommutes(RootEntry, leaves, LeafLe, EntryLe);
  }

  lemma LeafLeIsTotalOrder()
    ensures TotalOrder(LeafLe)
  {
    TextIsTotalOrder();
    forall a: Leaf, b: Leaf ensures LeafLe(a, b) || LeafLe(b, a) {
      TextTotal(PointerOf(Render(a.path)), PointerOf(Render(b.path)));
    }
    forall a: Leaf, b: Leaf, c: Leaf | LeafLe(a, b) && LeafLe(b, c) ensures LeafLe(a, c) {
      TextTransitive(PointerOf(Render(a.path)), PointerOf(Render(b.path)), PointerOf(Render(c.path)));
    }
  }

  /** A list of leaves is usable as messages when its paths are not empty and lie apart. */
  ghost predicate GoodLeaves(leaves: seq<Leaf>) {
    && PrefixFree(leaves)
    && forall i :: 0 <= i < |leaves| ==> leaves[i].path != []
  }

  lemma DistinctPathsPermute(a: seq<Leaf>, b: seq<Leaf>)
    requires multiset(a) == multiset(b) && GoodLeaves(b)
    ensures GoodLeaves(a)
  {
    assert Distinct(b) by {
      forall i, j | 0 <= i < j < |b| ensures b[i] != b[j] {
        assert !(b[i].path <= b[j].path);
      }
    }
    DistinctPermutes(a, b);
    forall i, j | 0 <= i < |a| && 0 <= j < |a| && i != j ensures !(a[i].path <= a[j].path) {
      MembersAgree(a, b, a[i]);
      MembersAgree(a, b, a[j]);
      var k :| 0 <= k < |b| && b[k] == a[i];
      var m :| 0 <= m < |b| && b[m] == a[j];
      assert a[i] != a[j];
      assert k != m;
    }
    forall i | 0 <= i < |a| ensures a[i].path != [] {
      MembersAgree(a, b, a[i]);
    }
  }

  lemma SortedLeavesAreGood(claims: Value)
    requires WellFormed(claims) && Children(claims) != []
    ensures GoodLeaves(SortedLeaves(claims))
    ensures |SortedLeaves(claims)| >= 1
  {
    hide Leaves, Sort, PrefixFree, WellFormed;
    LeavesPrefixFree(claims);
    LeavesHavePaths(claims);
    DistinctPathsPermute(SortedLeaves(claims), Leaves(claims));
  }

  function LeafPointers(leaves: seq<Leaf>): seq<string> {
    Map((l: Leaf) => PointerOf(Render(l.path)), leaves)
  }

  lemma SortedPointersAre(claims: Value)
    ensures PointersOf(SortedEntries(claims)) == LeafPointers(SortedLeaves(claims))
  {
    SortedEntriesAre(claims);
  }

  /** Leaf pointers are pairwise distinct, whatever the members are called. */
  lemma PointersDistinct(leaves: seq<Leaf>)
    requires GoodLeaves(leaves)
    ensures Distinct(LeafPointers(leaves))
  {
    hide Render;
    var ps := LeafPointers(leaves);
    forall i, j | 0 <= i < j < |ps| ensures ps[i] != ps[j] {
      assert !(leaves[i].path <= leaves[j].path);
      RenderIsJoin(leaves[i].path);
      RenderIsJoin(leaves[j].path);
      if ps[i] == ps[j] {
        RenderInjective(leaves[i].path, leaves[j].path);
      }
    }
  }

  lemma SortedPointersAreStrict(claims: Value)
    requires WellFormed(claims) && Children(claims) != []
    ensures StrictlySorted(LeafPointers(SortedLeaves(claims)), TextLe)
    ensures StrictlySorted(SortedLeaves(claims), LeafLe)
  {
    hide Leaves, Render, TextLe, WellFormed;
    var leaves := SortedLeaves(claims);
    SortedLeavesAreGood(claims);
    PointersDistinct(leaves);
    LeafLeIsTotalOrder();
    SortSorts(Leaves(claims), LeafLe);
    var ps := LeafPointers(leaves);
    forall i, j | 0 <= i < j < |ps| ensures TextLe(ps[i], ps[j]) {
      assert LeafLe(leaves[i], leaves[j]);
    }
    SortedTextsAreStrict(ps);
    forall i, j | 0 <= i < j < |leaves| ensures LeafLe(leaves[i], leaves[j]) && !LeafLe(leaves[j], leaves[i]) {
      assert TextLe(ps[i], ps[j]) && !TextLe(ps[j], ps[i]);
    }
  }

  /** Reordering object members changes neither messages, nor pointers, nor the map. */
  lemma ReorderingChangesNothing(codec: Codec, v: Value, w: Value, first: nat)
    requires WellFormed(v) && WellFormed(w) && Reordered(v, w)
    ensures BuildCmap(codec, v, first) == BuildCmap(codec, w, first)
  {
    hide WellFormed, Leaves, Reordered, LeafPointers, Sort;
    SameKind(v, w);
    ReorderedChildren(v, w, "");
    if v.Object? && v.members != [] {
      ReorderedLeaves(v, w);
      SortedPointersAreStrict(v);
      LeafLeIsTotalOrder();
      SortIs(Leaves(w), SortedLeaves(v), LeafLe);
      SortedEntriesAre(v);
      SortedEntriesAre(w);
    }
  }
}
