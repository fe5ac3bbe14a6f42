/** The mapping between named claims and the ordered messages (`src/jwp.rs`): collecting the leaves
    of a claims tree, building the index map in the issuer header, and walking that map. */
module ClaimMap {
  import opened Wrappers
  import opened Octets
  import opened Sorting
  import opened Pointers
  import opened Json

  const MAX_MESSAGES: nat := 512

  // ---- The leaves of a claims tree ----

  datatype Leaf = Leaf(path: Path, value: Value)

  /** What a value nests: an array's items count as members named by their position. */
  function Children(v: Value): (r: seq<Member>)
    ensures forall i :: 0 <= i < |r| ==> r[i].value < v
  {
    match v
    case Object(members) => members
    case Array(items) => seq(|items|, i requires 0 <= i < |items| => Member(Decimal(i), items[i]))
    case _ => []
  }

  function Under(name: string, leaves: seq<Leaf>): (r: seq<Leaf>)
    ensures |r| == |leaves|
    ensures forall i :: 0 <= i < |leaves| ==> r[i] == Leaf([name] + leaves[i].path, leaves[i].value)
  {
    seq(|leaves|, i requires 0 <= i < |leaves| => Leaf([name] + leaves[i].path, leaves[i].value))
  }

  /** Every leaf with the names that lead to it; an empty object or array is a leaf. */
  function Leaves(v: Value): seq<Leaf>
    decreases v, |Children(v)| + 1
  {
    if Children(v) == [] then [Leaf([], v)] else LeavesUpTo(v, |Children(v)|)
  }

  function LeavesUpTo(v: Value, n: nat): seq<Leaf>
    requires n <= |Children(v)|
    decreases v, n
  {
    if n == 0 then [] else LeavesUpTo(v, n - 1) + Under(Children(v)[n - 1].name, Leaves(Children(v)[n - 1].value))
  }

  datatype Entry = Entry(pointer: string, value: Value)

  function EntryOf(prefix: string, l: Leaf): Entry {
    Entry(PointerOf(prefix + Render(l.path)), l.value)
  }

  function Entries(prefix: string, leaves: seq<Leaf>): (r: seq<Entry>)
    ensures |r| == |leaves|
    ensures forall i :: 0 <= i < |leaves| ==> r[i] == EntryOf(prefix, leaves[i])
  {
    seq(|leaves|, i requires 0 <= i < |leaves| => EntryOf(prefix, leaves[i]))
  }

  lemma EntriesUnder(prefix: string, name: string, leaves: seq<Leaf>)
    ensures Entries(prefix + "/" + Escape(name), leaves) == Entries(prefix, Under(name, leaves))
  {
    forall i | 0 <= i < |leaves| ensures EntryOf(prefix + "/" + Escape(name), leaves[i]) == EntryOf(prefix, Under(name, leaves)[i]) {
      RenderSplits(prefix, name, leaves[i].path);
    }
  }

  lemma EntriesConcat(prefix: string, a: seq<Leaf>, b: seq<Leaf>)
    ensures Entries(prefix, a + b) == Entries(prefix, a) + Entries(prefix, b)
  {
  }

  lemma EntriesStep(prefix: string, v: Value, n: nat, out: seq<Entry>)
    requires n < |Children(v)|
    ensures var m := Children(v)[n];
            out + Entries(prefix, LeavesUpTo(v, n)) + Entries(prefix + "/" + Escape(m.name), Leaves(m.value))
            == out + Entries(prefix, LeavesUpTo(v, n + 1))
  {
    var m := Children(v)[n];
    EntriesUnder(prefix, m.name, Leaves(m.value));
    EntriesConcat(prefix, LeavesUpTo(v, n), Under(m.name, Leaves(m.value)));
  }

  /** `collect_leaves`: pushes the leaves below `value` onto `out`, each with its escaped pointer. */
  method CollectLeaves(prefix: string, value: Value, out: seq<Entry>) returns (r: seq<Entry>)
    ensures r == out + Entries(prefix, Leaves(value))
    decreases value
  {
    hide Escape, Leaves, LeavesUpTo, Decimal;
    r := out;
    NothingBelow(prefix, value);
    if value.Object? && value.members != [] {
      for k := 0 to |value.members|
        invariant r == out + Entries(prefix, LeavesUpTo(value, k))
      {
        var m := value.members[k];
        EntriesStep(prefix, value, k, out);
        r := CollectLeaves(prefix + "/" + Escape(m.name), m.value, r);
      }
    } else if value.Array? && value.items != [] {
      for k := 0 to |value.items|
        invariant r == out + Entries(prefix, LeavesUpTo(value, k))
      {
        EntriesStep(prefix, value, k, out);
        DecimalIsPlain(k);
        r := CollectLeaves(prefix + "/" + Decimal(k), value.items[k], r);
      }
    } else {
      r := r + [Entry(PointerOf(prefix), value)];
    }
  }

  lemma NothingBelow(prefix: string, v: Value)
    ensures Entries(prefix, LeavesUpTo(v, 0)) == []
    ensures Children(v) == [] ==> Entries(prefix, Leaves(v)) == [Entry(PointerOf(prefix), v)]
    ensures Children(v) != [] ==> Leaves(v) == LeavesUpTo(v, |Children(v)|)
  {
    assert prefix + "" == prefix;
  }

  // ---- Putting an index at a pointer ----

  /** The annotation `[index, false]`. */
  function IndexLeaf(index: nat): Value {
    Array([Number(Unsigned(index)), Bool(false)])
  }

  function Key(part: string): string {
    Escape(Unescape(part))
  }

  /** Follows the parts down from `node`, adding the objects that are missing. */
  function InsertPath(node: Value, parts: seq<string>, leaf: Value): Result<Value>
    requires parts != []
    decreases |parts|
  {
    if !node.Object? then Err(MalformedContainer)
    else
      var key := Key(parts[0]);
      if |parts| == 1 then Ok(Object(Put(node.members, key, leaf)))
      else
        var child := match Get(node.members, key) case Some(v) => v case None => Object([]);
        var grown :- InsertPath(child, parts[1..], leaf);
        Ok(Object(Put(node.members, key, grown)))
  }

  function InsertAtPointer(root: Value, pointer: string, leaf: Value): Result<Value> {
    if pointer == "/" then Ok(leaf) else InsertPath(root, Parts(pointer), leaf)
  }

  // ---- The same, in place ----

  /** The value `keys` lead to from `root`. */
  function NodeAt(root: Value, keys: seq<string>): Option<Value>
    decreases |keys|
  {
    if keys == [] then Some(root)
    else if !root.Object? then None
    else
      match Get(root.members, keys[0])
      case Some(child) => NodeAt(child, keys[1..])
      case None => None
  }

  /** `root` with the value at `keys` replaced. */
  function SetAt(root: Value, keys: seq<string>, v: Value): Value
    requires NodeAt(root, keys).Some?
    decreases |keys|
  {
    if keys == [] then v
    else Object(Put(root.members, keys[0], SetAt(Get(root.members, keys[0]).value, keys[1..], v)))
  }

  lemma PutTwice(members: seq<Member>, key: string, a: Value, b: Value)
    ensures Put(Put(members, key, a), key, b) == Put(members, key, b)
  {
    match Find(members, key)
    case Some(i) =>
      FindFirst(members[i := Member(key, a)], i);
    case None =>
      FindFirst(members + [Member(key, a)], |members|);
  }

  lemma {:induction false} SetThenRead(root: Value, keys: seq<string>, v: Value)
    requires NodeAt(root, keys).Some?
    ensures NodeAt(SetAt(root, keys, v), keys) == Some(v)
    decreases |keys|
  {
    hide Put, Get;
    if keys != [] {
      var child := Get(root.members, keys[0]).value;
      SetThenRead(child, keys[1..], v);
      GetAfterPut(root.members, keys[0], SetAt(child, keys[1..], v), keys[0]);
    }
  }

  lemma {:induction false} SetTwice(root: Value, keys: seq<string>, v: Value, w: Value)
    requires NodeAt(root, keys).Some?
    ensures NodeAt(SetAt(root, keys, v), keys).Some?
    ensures SetAt(SetAt(root, keys, v), keys, w) == SetAt(root, keys, w)
    decreases |keys|
  {
    hide Put, Get;
    SetThenRead(root, keys, v);
    if keys != [] {
      var child := Get(root.members, keys[0]).value;
      SetTwice(child, keys[1..], v, w);
      GetAfterPut(root.members, keys[0], SetAt(child, keys[1..], v), keys[0]);
      PutTwice(root.members, keys[0], SetAt(child, keys[1..], v), SetAt(child, keys[1..], w));
    }
  }

  /** One step further down: setting below a key is putting under that key at the node above. */
  lemma {:induction false} SetBelow(root: Value, keys: seq<string>, key: string, v: Value)
    requires NodeAt(root, keys).Some? && NodeAt(root, keys).value.Object?
    requires Get(NodeAt(root, keys).value.members, key).Some?
    ensures NodeAt(root, keys + [key]) == Get(NodeAt(root, keys).value.members, key)
    ensures SetAt(root, keys + [key], v) == SetAt(root, keys, Object(Put(NodeAt(root, keys).value.members, key, v)))
    decreases |keys|
  {
    hide Put, Get;
    if keys == [] {
      assert keys + [key] == [key] && [key][1..] == [];
    } else {
      SetBelow(Get(root.members, keys[0]).value, keys[1..], key, v);
      assert (keys + [key])[1..] == keys[1..] + [key];
    }
  }

  /** What the rest of the walk still has to do, seen from the node reached so far. */
  function Finished(root: Value, keys: seq<string>, parts: seq<string>, leaf: Value): Result<Value>
    requires NodeAt(root, keys).Some? && parts != []
  {
    var grown :- InsertPath(NodeAt(root, keys).value, parts, leaf);
    Ok(SetAt(root, keys, grown))
  }

  /** Moving the node down one key, over an object created when it is missing, changes nothing in
      the outcome. */
  lemma StepDown(root: Value, keys: seq<string>, parts: seq<string>, leaf: Value)
    requires NodeAt(root, keys).Some? && NodeAt(root, keys).value.Object? && |parts| > 1
    ensures var members, key := NodeAt(root, keys).value.members, Key(parts[0]);
            var entered := if Get(members, key).Some? then root else SetAt(root, keys, Object(Put(members, key, Object([]))));
            NodeAt(entered, keys + [key]).Some?
            && Finished(entered, keys + [key], parts[1..], leaf) == Finished(root, keys, parts, leaf)
  {
    hide Put, Get, Key;
    var members, key := NodeAt(root, keys).value.members, Key(parts[0]);
    var child := match Get(members, key) case Some(v) => v case None => Object([]);
    var entered := root;
    if Get(members, key).None? {
      entered := SetAt(root, keys, Object(Put(members, key, Object([]))));
      SetThenRead(root, keys, Object(Put(members, key, Object([]))));
      GetAfterPut(members, key, Object([]), key);
    }
    var node := NodeAt(entered, keys).value;
    SetBelow(entered, keys, key, child);
    var below := InsertPath(child, parts[1..], leaf);
    if below.Ok? {
      SetBelow(entered, keys, key, below.value);
      if Get(members, key).None? {
        PutTwice(members, key, Object([]), below.value);
        SetTwice(root, keys, Object(Put(members, key, Object([]))), Object(Put(members, key, below.value)));
      }
    }
  }

  /** The map under construction. */
  class CmapTree {
    var root: Value

    constructor ()
      ensures root == Object([])
    {
      root := Object([]);
    }

    /** `insert_at_pointer`: `node` moves down from the root, named here by the keys that lead to it.
        On an error the map keeps what was added on the way. */
    method Insert(pointer: string, leaf: Value) returns (r: Result<()>)
      modifies this
      ensures r.Ok? <==> InsertAtPointer(old(root), pointer, leaf).Ok?
      ensures r.Ok? ==> root == InsertAtPointer(old(root), pointer, leaf).value
      ensures r.Err? ==> r.error == MalformedContainer
    {
      hide Put, Get, Key, Parts, InsertPath;
      if pointer == "/" {
        root := leaf;
        return Ok(());
      }
      var parts := Parts(pointer);
      var node: seq<string> := [];
      StartsAtRoot(root, parts, leaf);
      for i := 0 to |parts| - 1
        invariant NodeAt(root, node).Some?
        invariant Finished(root, node, parts[i..], leaf) == InsertPath(old(root), parts, leaf)
      {
        var here := NodeAt(root, node).value;
        NeedsObject(here, parts[i..], leaf);
        if !here.Object? {
          return Err(MalformedContainer);
        }
        var key := Key(parts[i]);
        StepDown(root, node, parts[i..], leaf);
        assert parts[i..][1..] == parts[i + 1..];
        if Get(here.members, key).None? {
          root := SetAt(root, node, Object(Put(here.members, key, Object([]))));
        }
        node := node + [key];
      }
      var here := NodeAt(root, node).value;
      var last := parts[|parts| - 1];
      NeedsObject(here, parts[|parts| - 1..], leaf);
      if !here.Object? {
        return Err(MalformedContainer);
      }
      LastStep(here, last, leaf);
      assert parts[|parts| - 1..] == [last];
      root := SetAt(root, node, Object(Put(here.members, Key(last), leaf)));
      r := Ok(());
    }
  }

  lemma StartsAtRoot(root: Value, parts: seq<string>, leaf: Value)
    requires parts != []
    ensures Finished(root, [], parts[0..], leaf) == InsertPath(root, parts, leaf)
  {
    hide InsertPath;
    assert parts[0..] == parts;
  }

  lemma NeedsObject(node: Value, parts: seq<string>, leaf: Value)
    requires parts != []
    ensures !node.Object? ==> InsertPath(node, parts, leaf) == Err(MalformedContainer)
  {
  }

  lemma LastStep(node: Value, last: string, leaf: Value)
    requires node.Object?
    ensures InsertPath(node, [last], leaf) == Ok(Object(Put(node.members, Key(last), leaf)))
  {
  }

  /** The map after inserting all pointers in order, the first at index `first`. */
  function InsertAll(pointers: seq<string>, first: nat): Result<Value> {
    if pointers == [] then Ok(Object([]))
    else
      var n := |pointers| - 1;
      var root :- InsertAll(pointers[..n], first);
      InsertAtPointer(root, pointers[n], IndexLeaf(first + n))
  }

  lemma {:induction false} InsertAllStops(pointers: seq<string>, n: nat, first: nat)
    requires n <= |pointers| && InsertAll(pointers[..n], first).Err?
    ensures InsertAll(pointers, first) == Err(MalformedContainer)
  {
    if n == |pointers| {
      assert pointers[..n] == pointers;
      InsertAllError(pointers, first);
    } else {
      assert pointers[..|pointers| - 1][..n] == pointers[..n];
      InsertAllStops(pointers[..|pointers| - 1], n, first);
    }
  }

  lemma {:induction false} InsertPathError(node: Value, parts: seq<string>, leaf: Value)
    requires parts != [] && InsertPath(node, parts, leaf).Err?
    ensures InsertPath(node, parts, leaf) == Err(MalformedContainer)
    decreases |parts|
  {
    if node.Object? && |parts| > 1 {
      var child := match Get(node.members, Key(parts[0])) case Some(v) => v case None => Object([]);
      InsertPathError(child, parts[1..], leaf);
    }
  }

  lemma {:induction false} InsertAllError(pointers: seq<string>, first: nat)
    requires InsertAll(pointers, first).Err?
    ensures InsertAll(pointers, first) == Err(MalformedContainer)
  {
    var n := |pointers| - 1;
    if InsertAll(pointers[..n], first).Err? {
      InsertAllError(pointers[..n], first);
    } else if pointers[n] != "/" {
      InsertPathError(InsertAll(pointers[..n], first).value, Parts(pointers[n]), IndexLeaf(first + n));
    }
  }

  // ---- Building the map ----

  predicate EntryLe(a: Entry, b: Entry) {
    TextLe(a.pointer, b.pointer)
  }

  function PointersOf(entries: seq<Entry>): seq<string> {
    Map((e: Entry) => e.pointer, entries)
  }

  /** `message_octets` of each value. */
  function MessagesOf(codec: Codec, entries: seq<Entry>): (r: seq<Octets>)
    ensures |r| == |entries|
    ensures forall i :: 0 <= i < |entries| ==> r[i] == codec.write(entries[i].value)
  {
    seq(|entries|, i requires 0 <= i < |entries| => codec.write(entries[i].value))
  }

  datatype Built = Built(cmap: Value, messages: seq<Octets>, pointers: seq<string>)

  function SortedEntries(claims: Value): seq<Entry> {
    Sort(Entries("", Leaves(claims)), EntryLe)
  }

  function BuildCmap(codec: Codec, claims: Value, first: nat): Result<Built> {
    if !claims.Object? || claims.members == [] then Err(MalformedContainer)
    else
      var entries := SortedEntries(claims);
      if |entries| > MAX_MESSAGES then Err(MalformedContainer)
      else
        var cmap :- InsertAll(PointersOf(entries), first);
        Ok(Built(cmap, MessagesOf(codec, entries), PointersOf(entries)))
  }

  lemma PrefixSteps(codec: Codec, entries: seq<Entry>, i: nat, first: nat)
    requires i < |entries|
    ensures PointersOf(entries[..i + 1]) == PointersOf(entries[..i]) + [entries[i].pointer]
    ensures MessagesOf(codec, entries[..i + 1]) == MessagesOf(codec, entries[..i]) + [codec.write(entries[i].value)]
    ensures PointersOf(entries[..i + 1]) == PointersOf(entries)[..i + 1]
    ensures InsertAll(PointersOf(entries[..i]), first).Ok? ==>
              InsertAll(PointersOf(entries[..i + 1]), first)
              == InsertAtPointer(InsertAll(PointersOf(entries[..i]), first).value, entries[i].pointer, IndexLeaf(first + i))
  {
    var next := PointersOf(entries[..i + 1]);
    assert next == PointersOf(entries[..i]) + [entries[i].pointer];
    assert next[..i] == PointersOf(entries[..i]);
  }

  /** `build_cmap`: the loop inserts one index, and pushes one message and one pointer, per leaf. */
  method BuildCmapLoop(codec: Codec, claims: Value, first: nat) returns (r: Result<Built>)
    ensures r == BuildCmap(codec, claims, first)
  {
    hide Sort, InsertAll, InsertAtPointer, Leaves, Entries;
    if !claims.Object? || claims.members == [] {
      return Err(MalformedContainer);
    }
    var leaves := CollectLeaves("", claims, []);
    assert [] + Entries("", Leaves(claims)) == Entries("", Leaves(claims));
    leaves := Sort(leaves, EntryLe);
    if |leaves| > MAX_MESSAGES {
      return Err(MalformedContainer);
    }
    var cmap := new CmapTree();
    var messages, pointers := [], [];
    NothingInserted(first);
    for i := 0 to |leaves|
      invariant fresh(cmap)
      invariant InsertAll(PointersOf(leaves[..i]), first) == Ok(cmap.root)
      invariant messages == MessagesOf(codec, leaves[..i])
      invariant pointers == PointersOf(leaves[..i])
    {
      PrefixSteps(codec, leaves, i, first);
      var inserted := cmap.Insert(leaves[i].pointer, IndexLeaf(first + i));
      if inserted.Err? {
        InsertAllStops(PointersOf(leaves), i + 1, first);
        return Err(inserted.error);
      }
      messages := messages + [codec.write(leaves[i].value)];
      pointers := pointers + [leaves[i].pointer];
    }
    assert leaves[..|leaves|] == leaves;
    r := Ok(Built(cmap.root, messages, pointers));
  }

  lemma NothingInserted(first: nat)
    ensures InsertAll([], first) == Ok(Object([]))
  {
  }

  predicate StartsWithSlash(pointer: string) {
    pointer != "" && pointer[0] == '/'
  }

  predicate AllPointers(pointers: seq<string>) {
    forall i :: 0 <= i < |pointers| ==> StartsWithSlash(pointers[i])
  }

  function BuildCmapFromPointers(pointers: seq<string>, first: nat): Result<Value> {
    if pointers == [] || |pointers| > MAX_MESSAGES then Err(MalformedContainer)
    else if !Distinct(pointers) || !AllPointers(pointers) then Err(MalformedContainer)
    else InsertAll(Sort(pointers, TextLe), first)
  }

  /** `build_cmap_from_pointers`: neighbours are compared once sorted, and the leading slash is
      checked as the loop goes. */
  method BuildFromPointersLoop(pointers: seq<string>, first: nat) returns (r: Result<Value>)
    ensures r == BuildCmapFromPointers(pointers, first)
  {
    hide Sort, InsertAll, InsertAtPointer, TextLe, Distinct, StrictlySorted, Sorted, IndexLeaf;
    if pointers == [] || |pointers| > MAX_MESSAGES {
      return Err(MalformedContainer);
    }
    var sorted := Sort(pointers, TextLe);
    TextIsTotalOrder();
    SortSorts(pointers, TextLe);
    DistinctPermutes(pointers, sorted);
    for i := 1 to |sorted|
      invariant forall j :: 0 < j < i ==> sorted[j - 1] != sorted[j]
    {
      if sorted[i - 1] == sorted[i] {
        RepeatedNeighbour(sorted, i);
        return Err(MalformedContainer);
      }
    }
    NeighboursDiffer(sorted);
    var cmap := new CmapTree();
    NothingInserted(first);
    assert sorted[..0] == [];
    for i := 0 to |sorted|
      invariant fresh(cmap)
      invariant InsertAll(sorted[..i], first) == Ok(cmap.root)
      invariant forall j :: 0 <= j < i ==> StartsWithSlash(sorted[j])
    {
      if !StartsWithSlash(sorted[i]) && sorted[i] != "/" {
        MembersAgree(sorted, pointers, sorted[i]);
        return Err(MalformedContainer);
      }
      InsertAllStep(sorted, i, first);
      var inserted := cmap.Insert(sorted[i], IndexLeaf(first + i));
      if inserted.Err? {
        InsertAllStops(sorted, i + 1, first);
        return Err(inserted.error);
      }
    }
    assert sorted[..|sorted|] == sorted;
    forall i | 0 <= i < |pointers| ensures StartsWithSlash(pointers[i]) {
      MembersAgree(pointers, sorted, pointers[i]);
    }
    r := Ok(cmap.root);
  }

  lemma InsertAllStep(pointers: seq<string>, i: nat, first: nat)
    requires i < |pointers| && InsertAll(pointers[..i], first).Ok?
    ensures InsertAll(pointers[..i + 1], first)
         == InsertAtPointer(InsertAll(pointers[..i], first).value, pointers[i], IndexLeaf(first + i))
  {
    assert pointers[..i + 1][..i] == pointers[..i];
  }

  lemma RepeatedNeighbour(sorted: seq<string>, i: nat)
    requires 0 < i < |sorted| && sorted[i - 1] == sorted[i]
    ensures !Distinct(sorted)
  {
  }

  lemma NeighboursDiffer(sorted: seq<string>)
    requires Sorted(sorted, TextLe)
    requires forall j :: 0 < j < |sorted| ==> sorted[j - 1] != sorted[j]
    ensures Distinct(sorted)
  {
    forall i, j | 0 <= i < j < |sorted| ensures sorted[i] != sorted[j] {
      assert TextLe(sorted[i], sorted[i + 1]) && (i + 1 < j ==> TextLe(sorted[i + 1], sorted[j]));
      assert sorted[i + 1 - 1] != sorted[i + 1];
      TextTotal(sorted[i], sorted[i + 1]);
    }
  }

  // ---- Walking the map ----

  /** One claim's place in the message vector. */
  datatype Claim = Claim(pointer: string, index: nat)

  predicate IsAnnotation(v: Value) {
    v.Array? && |v.items| == 2 && v.items[0].Number?
  }

  /** The index an annotation names, once its checks pass. */
  function ReadIndex(v: Value): Result<nat>
    requires IsAnnotation(v)
  {
    match AsU64(v.items[0])
    case None => Err(MalformedContainer)
    case Some(index) =>
      match AsBool(v.items[1])
      case None => Err(MalformedContainer)
      case Some(scalar) =>
        if scalar || index >= MAX_MESSAGES then Err(MalformedContainer) else Ok(index)
  }

  function Walk(prefix: string, v: Value): Result<seq<Claim>>
    decreases v, 1, 0
  {
    if IsAnnotation(v) then
      var index :- ReadIndex(v);
      Ok([Claim(PointerOf(prefix), index)])
    else if v.Object? then WalkUpTo(prefix, v, |v.members|)
    else Err(MalformedContainer)
  }

  function WalkUpTo(prefix: string, v: Value, n: nat): Result<seq<Claim>>
    requires v.Object? && n <= |v.members|
    decreases v, 0, n
  {
    if n == 0 then Ok([])
    else
      var m := v.members[n - 1];
      var front :- WalkUpTo(prefix, v, n - 1);
      var last :- Walk(prefix + "/" + Escape(m.name), m.value);
      Ok(front + last)
  }

  lemma {:induction false} WalkStops(prefix: string, v: Value, n: nat)
    requires v.Object? && n <= |v.members| && WalkUpTo(prefix, v, n).Err?
    ensures Walk(prefix, v) == Err(MalformedContainer)
    decreases |v.members| - n
  {
    if n < |v.members| {
      WalkStops(prefix, v, n + 1);
    } else {
      WalkError(prefix, v);
    }
  }

  lemma {:induction false} WalkError(prefix: string, v: Value)
    requires Walk(prefix, v).Err?
    ensures Walk(prefix, v) == Err(MalformedContainer)
    decreases v, 1, 0
  {
    if !IsAnnotation(v) && v.Object? {
      WalkUpToError(prefix, v, |v.members|);
    }
  }

  lemma {:induction false} WalkUpToError(prefix: string, v: Value, n: nat)
    requires v.Object? && n <= |v.members| && WalkUpTo(prefix, v, n).Err?
    ensures WalkUpTo(prefix, v, n) == Err(MalformedContainer)
    decreases v, 0, n
  {
    if WalkUpTo(prefix, v, n - 1).Err? {
      WalkUpToError(prefix, v, n - 1);
    } else {
      WalkError(prefix + "/" + Escape(v.members[n - 1].name), v.members[n - 1].value);
    }
  }

  /** `walk_cmap`: pushes one claim per annotation onto `out`, or stops at the first bad entry. */
  method WalkCmap(prefix: string, value: Value, out: seq<Claim>) returns (r: Result<()>, pushed: seq<Claim>)
    ensures r.Ok? <==> Walk(prefix, value).Ok?
    ensures r.Ok? ==> pushed == out + Walk(prefix, value).value
    ensures r.Err? ==> r.error == MalformedContainer
    decreases value
  {
    hide Escape;
    pushed := out;
    if IsAnnotation(value) {
      var index := AsU64(value.items[0]);
      if index.None? {
        return Err(MalformedContainer), pushed;
      }
      var scalar := AsBool(value.items[1]);
      if scalar.None? || scalar.value || index.value >= MAX_MESSAGES {
        return Err(MalformedContainer), pushed;
      }
      pushed := pushed + [Claim(PointerOf(prefix), index.value)];
    } else if value.Object? {
      for k := 0 to |value.members|
        invariant WalkUpTo(prefix, value, k).Ok?
        invariant pushed == out + WalkUpTo(prefix, value, k).value
      {
        var m := value.members[k];
        r, pushed := WalkCmap(prefix + "/" + Escape(m.name), m.value, pushed);
        if r.Err? {
          WalkStops(prefix, value, k + 1);
          return;
        }
      }
    } else {
      return Err(MalformedContainer), pushed;
    }
    r := Ok(());
  }
}
