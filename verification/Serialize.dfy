/** `serialize` and the loops that read runs of fixed-width items back. */
module Serialize {
  import opened Wrappers
  import opened Octets
  import opened Curves

  /** One element of a `serialize` input array. */
  datatype Ser =
    | U64(n: nat)
    | Scl(s: Scalar)
    | G1(p: Point)

  function ItemOctets(c: Curve, item: Ser): Octets {
    match item
    case U64(n) => I2osp(n, 8)
    case Scl(s) => c.ScalarOctets(s)
    case G1(p) => c.compressed(p)
  }

  function SerOctets(c: Curve, items: seq<Ser>): Octets {
    if items == [] then []
    else SerOctets(c, items[..|items| - 1]) + ItemOctets(c, items[|items| - 1])
  }

  method SerializeItems(c: Curve, items: seq<Ser>) returns (out: Octets)
    ensures out == SerOctets(c, items)
  {
    out := [];
    for i := 0 to |items|
      invariant out == SerOctets(c, items[..i])
    {
      assert items[..i + 1][..i] == items[..i];
      match items[i] {
        case U64(n) => out := out + I2osp(n, 8);
        case Scl(s) => out := out + c.ScalarOctets(s);
        case G1(p) => out := out + c.compressed(p);
      }
    }
    assert items[..|items|] == items;
  }

  lemma SerSnoc(c: Curve, items: seq<Ser>, item: Ser)
    ensures SerOctets(c, items + [item]) == SerOctets(c, items) + ItemOctets(c, item)
  {
    assert (items + [item])[..|items|] == items;
  }

  lemma Assoc<T>(a: seq<T>, b: seq<T>, c: seq<T>)
    ensures (a + b) + c == a + (b + c)
  {
  }

  lemma {:induction false} SerConcat(c: Curve, a: seq<Ser>, b: seq<Ser>)
    ensures SerOctets(c, a + b) == SerOctets(c, a) + SerOctets(c, b)
  {
    if b == [] {
      assert a + b == a;
    } else {
      var front, last := b[..|b| - 1], b[|b| - 1];
      assert b == front + [last];
      Assoc(a, front, [last]);
      SerSnoc(c, a + front, last);
      SerSnoc(c, front, last);
      SerConcat(c, a, front);
      Assoc(SerOctets(c, a), SerOctets(c, front), ItemOctets(c, last));
    }
  }

  lemma SerOne(c: Curve, item: Ser)
    ensures SerOctets(c, [item]) == ItemOctets(c, item)
  {
    assert [item][..0] == [];
  }

  function PointItems(ps: seq<Point>): (items: seq<Ser>)
    ensures |items| == |ps|
  {
    seq(|ps|, i requires 0 <= i < |ps| => G1(ps[i]))
  }

  function ScalarItems(ss: seq<Scalar>): (items: seq<Ser>)
    ensures |items| == |ss|
  {
    seq(|ss|, i requires 0 <= i < |ss| => Scl(ss[i]))
  }

  function PointsOctets(c: Curve, ps: seq<Point>): Octets {
    if ps == [] then [] else PointsOctets(c, ps[..|ps| - 1]) + c.compressed(ps[|ps| - 1])
  }

  function ScalarsOctets(c: Curve, ss: seq<Scalar>): Octets {
    if ss == [] then [] else ScalarsOctets(c, ss[..|ss| - 1]) + c.ScalarOctets(ss[|ss| - 1])
  }

  lemma {:induction false} SerPoints(c: Curve, ps: seq<Point>)
    ensures SerOctets(c, PointItems(ps)) == PointsOctets(c, ps)
  {
    if ps != [] {
      var n := |ps| - 1;
      SerPoints(c, ps[..n]);
      assert PointItems(ps) == PointItems(ps[..n]) + [G1(ps[n])];
      SerSnoc(c, PointItems(ps[..n]), G1(ps[n]));
    }
  }

  lemma {:induction false} SerScalars(c: Curve, ss: seq<Scalar>)
    ensures SerOctets(c, ScalarItems(ss)) == ScalarsOctets(c, ss)
  {
    if ss != [] {
      var n := |ss| - 1;
      SerScalars(c, ss[..n]);
      assert ScalarItems(ss) == ScalarItems(ss[..n]) + [Scl(ss[n])];
      SerSnoc(c, ScalarItems(ss[..n]), Scl(ss[n]));
    }
  }

  lemma PointsOctetsSnoc(c: Curve, ps: seq<Point>, p: Point)
    ensures PointsOctets(c, ps + [p]) == PointsOctets(c, ps) + c.compressed(p)
  {
    assert (ps + [p])[..|ps|] == ps;
  }

  lemma ScalarsOctetsSnoc(c: Curve, ss: seq<Scalar>, s: Scalar)
    ensures ScalarsOctets(c, ss + [s]) == ScalarsOctets(c, ss) + c.ScalarOctets(s)
  {
    assert (ss + [s])[..|ss|] == ss;
  }

  lemma {:induction false} PointsOctetsLength(c: Curve, ps: seq<Point>)
    requires c.Laws()
    ensures |PointsOctets(c, ps)| == POINT_LENGTH * |ps|
  {
    if ps != [] {
      var n := |ps| - 1;
      assert ps == ps[..n] + [ps[n]];
      PointsOctetsLength(c, ps[..n]);
      PointsOctetsSnoc(c, ps[..n], ps[n]);
      c.PointFromOctetsIff([], ps[n]);
    }
  }

  lemma {:induction false} ScalarsOctetsLength(c: Curve, ss: seq<Scalar>)
    requires c.Laws()
    ensures |ScalarsOctets(c, ss)| == SCALAR_LENGTH * |ss|
  {
    if ss != [] {
      var n := |ss| - 1;
      assert ss == ss[..n] + [ss[n]];
      ScalarsOctetsLength(c, ss[..n]);
      ScalarsOctetsSnoc(c, ss[..n], ss[n]);
      c.ScalarFromBeIff([], ss[n]);
    }
  }

  // ---- Reading ----

  /** A point that must not be the identity. */
  function PointAt(c: Curve, o: Octets, at: nat): Result<Point>
    requires at + POINT_LENGTH <= |o|
  {
    var p :- c.PointFromOctets(o[at..at + POINT_LENGTH]);
    if p == c.identity then Err(InvalidPoint) else Ok(p)
  }

  /** `nonZero` says whether the reader rejects the scalar zero. */
  function ScalarAt(c: Curve, o: Octets, at: nat, nonZero: bool): Result<Scalar>
    requires at + SCALAR_LENGTH <= |o|
  {
    var s :- c.ScalarFromBe(o[at..at + SCALAR_LENGTH]);
    if nonZero && s == c.zero then Err(InvalidScalar) else Ok(s)
  }

  function PointsAt(c: Curve, o: Octets, at: nat, k: nat): (r: Result<seq<Point>>)
    requires at + POINT_LENGTH * k <= |o|
    ensures r.Ok? ==> |r.value| == k
  {
    if k == 0 then Ok([])
    else
      var front :- PointsAt(c, o, at, k - 1);
      var p :- PointAt(c, o, at + POINT_LENGTH * (k - 1));
      Ok(front + [p])
  }

  function ScalarsAt(c: Curve, o: Octets, at: nat, k: nat, nonZero: bool): (r: Result<seq<Scalar>>)
    requires at + SCALAR_LENGTH * k <= |o|
    ensures r.Ok? ==> |r.value| == k
  {
    if k == 0 then Ok([])
    else
      var front :- ScalarsAt(c, o, at, k - 1, nonZero);
      var s :- ScalarAt(c, o, at + SCALAR_LENGTH * (k - 1), nonZero);
      Ok(front + [s])
  }

  function ChunksAt(o: Octets, at: nat, k: nat): (r: seq<Octets>)
    requires at + SIGNATURE_LENGTH * k <= |o|
    ensures |r| == k
  {
    if k == 0 then []
    else ChunksAt(o, at, k - 1) + [o[at + SIGNATURE_LENGTH * (k - 1)..at + SIGNATURE_LENGTH * k]]
  }

  /** The width of a device signature. */
  const SIGNATURE_LENGTH: nat := 64

  predicate NoIdentity(c: Curve, ps: seq<Point>) {
    forall i :: 0 <= i < |ps| ==> ps[i] != c.identity
  }

  predicate NoZero(c: Curve, ss: seq<Scalar>) {
    forall i :: 0 <= i < |ss| ==> ss[i] != c.zero
  }

  lemma PointAtIff(c: Curve, o: Octets, at: nat, p: Point)
    requires c.Laws()
    requires at + POINT_LENGTH <= |o|
    ensures PointAt(c, o, at) == Ok(p) <==> o[at..at + POINT_LENGTH] == c.compressed(p) && p != c.identity
  {
    c.PointFromOctetsIff(o[at..at + POINT_LENGTH], p);
  }

  lemma ScalarAtIff(c: Curve, o: Octets, at: nat, nonZero: bool, s: Scalar)
    requires c.Laws()
    requires at + SCALAR_LENGTH <= |o|
    ensures ScalarAt(c, o, at, nonZero) == Ok(s) <==>
            o[at..at + SCALAR_LENGTH] == c.ScalarOctets(s) && (nonZero ==> s != c.zero)
  {
    c.ScalarFromBeIff(o[at..at + SCALAR_LENGTH], s);
  }

  lemma CutIff(o: Octets, at: nat, mid: nat, end: nat, a: Octets, b: Octets)
    requires at <= mid <= end <= |o|
    requires |a| == mid - at
    ensures o[at..end] == a + b <==> o[at..mid] == a && o[mid..end] == b
  {
    assert o[at..end] == o[at..mid] + o[mid..end];
    if o[at..end] == a + b {
      SplitEqual(o[at..mid], o[mid..end], a, b);
    }
  }

  lemma {:induction false} PointsAtReads(c: Curve, o: Octets, at: nat, ps: seq<Point>)
    requires c.Laws()
    requires at + POINT_LENGTH * |ps| <= |o|
    requires NoIdentity(c, ps)
    requires o[at..at + POINT_LENGTH * |ps|] == PointsOctets(c, ps)
    ensures PointsAt(c, o, at, |ps|) == Ok(ps)
  {
    hide PointsOctets, PointAt;
    if ps != [] {
      var k := |ps|;
      var front, last, mid, end := ps[..k - 1], ps[k - 1], at + POINT_LENGTH * (k - 1), at + POINT_LENGTH * k;
      assert ps == front + [last];
      PointsOctetsSnoc(c, front, last);
      PointsOctetsLength(c, front);
      CutIff(o, at, mid, end, PointsOctets(c, front), c.compressed(last));
      PointsAtReads(c, o, at, front);
      PointAtIff(c, o, mid, last);
    }
  }

  lemma {:induction false} PointsAtAccepts(c: Curve, o: Octets, at: nat, k: nat)
    requires c.Laws()
    requires at + POINT_LENGTH * k <= |o|
    requires PointsAt(c, o, at, k).Ok?
    ensures var ps := PointsAt(c, o, at, k).value;
            |ps| == k && NoIdentity(c, ps) && o[at..at + POINT_LENGTH * k] == PointsOctets(c, ps)
  {
    hide PointsOctets, PointAt;
    var ps := PointsAt(c, o, at, k).value;
    if k == 0 {
      PointsOctetsLength(c, ps);
    } else {
      var mid, end := at + POINT_LENGTH * (k - 1), at + POINT_LENGTH * k;
      var front, last := PointsAt(c, o, at, k - 1).value, PointAt(c, o, mid).value;
      PointsAtAccepts(c, o, at, k - 1);
      PointAtIff(c, o, mid, last);
      PointsOctetsSnoc(c, front, last);
      PointsOctetsLength(c, front);
      CutIff(o, at, mid, end, PointsOctets(c, front), c.compressed(last));
    }
  }

  /** Reading `k` items succeeds with `ps` exactly on the octets of `k` acceptable items `ps`. */
  lemma PointsAtIff(c: Curve, o: Octets, at: nat, k: nat, ps: seq<Point>)
    requires c.Laws()
    requires at + POINT_LENGTH * k <= |o|
    ensures PointsAt(c, o, at, k) == Ok(ps) <==>
            |ps| == k && NoIdentity(c, ps) && o[at..at + POINT_LENGTH * k] == PointsOctets(c, ps)
  {
    hide PointsOctets, PointsAt;
    if PointsAt(c, o, at, k) == Ok(ps) {
      PointsAtAccepts(c, o, at, k);
    }
    if |ps| == k && NoIdentity(c, ps) && o[at..at + POINT_LENGTH * k] == PointsOctets(c, ps) {
      PointsAtReads(c, o, at, ps);
    }
  }

  lemma {:induction false} ScalarsAtReads(c: Curve, o: Octets, at: nat, ss: seq<Scalar>, nonZero: bool)
    requires c.Laws()
    requires at + SCALAR_LENGTH * |ss| <= |o|
    requires (nonZero ==> NoZero(c, ss))
    requires o[at..at + SCALAR_LENGTH * |ss|] == ScalarsOctets(c, ss)
    ensures ScalarsAt(c, o, at, |ss|, nonZero) == Ok(ss)
  {
    hide ScalarsOctets, ScalarAt;
    if ss != [] {
      var k := |ss|;
      var front, last, mid, end := ss[..k - 1], ss[k - 1], at + SCALAR_LENGTH * (k - 1), at + SCALAR_LENGTH * k;
      assert ss == front + [last];
      ScalarsOctetsSnoc(c, front, last);
      ScalarsOctetsLength(c, front);
      CutIff(o, at, mid, end, ScalarsOctets(c, front), c.ScalarOctets(last));
      ScalarsAtReads(c, o, at, front, nonZero);
      ScalarAtIff(c, o, mid, nonZero, last);
    }
  }

  lemma {:induction false} ScalarsAtAccepts(c: Curve, o: Octets, at: nat, k: nat, nonZero: bool)
    requires c.Laws()
    requires at + SCALAR_LENGTH * k <= |o|
    requires ScalarsAt(c, o, at, k, nonZero).Ok?
    ensures var ss := ScalarsAt(c, o, at, k, nonZero).value;
            |ss| == k && (nonZero ==> NoZero(c, ss)) && o[at..at + SCALAR_LENGTH * k] == ScalarsOctets(c, ss)
  {
    hide ScalarsOctets, ScalarAt;
    var ss := ScalarsAt(c, o, at, k, nonZero).value;
    if k == 0 {
      ScalarsOctetsLength(c, ss);
    } else {
      var mid, end := at + SCALAR_LENGTH * (k - 1), at + SCALAR_LENGTH * k;
      var front, last := ScalarsAt(c, o, at, k - 1, nonZero).value, ScalarAt(c, o, mid, nonZero).value;
      ScalarsAtAccepts(c, o, at, k - 1, nonZero);
      ScalarAtIff(c, o, mid, nonZero, last);
      ScalarsOctetsSnoc(c, front, last);
      ScalarsOctetsLength(c, front);
      CutIff(o, at, mid, end, ScalarsOctets(c, front), c.ScalarOctets(last));
    }
  }

  /** Reading `k` items succeeds with `ss` exactly on the octets of `k` acceptable items `ss`. */
  lemma ScalarsAtIff(c: Curve, o: Octets, at: nat, k: nat, nonZero: bool, ss: seq<Scalar>)
    requires c.Laws()
    requires at + SCALAR_LENGTH * k <= |o|
    ensures ScalarsAt(c, o, at, k, nonZero) == Ok(ss) <==>
            |ss| == k && (nonZero ==> NoZero(c, ss)) && o[at..at + SCALAR_LENGTH * k] == ScalarsOctets(c, ss)
  {
    hide ScalarsOctets, ScalarsAt;
    if ScalarsAt(c, o, at, k, nonZero) == Ok(ss) {
      ScalarsAtAccepts(c, o, at, k, nonZero);
    }
    if |ss| == k && (nonZero ==> NoZero(c, ss)) && o[at..at + SCALAR_LENGTH * k] == ScalarsOctets(c, ss) {
      ScalarsAtReads(c, o, at, ss, nonZero);
    }
  }

  function Joined(chunks: seq<Octets>): Octets {
    if chunks == [] then [] else Joined(chunks[..|chunks| - 1]) + chunks[|chunks| - 1]
  }

  predicate AllWidth(chunks: seq<Octets>) {
    forall i :: 0 <= i < |chunks| ==> |chunks[i]| == SIGNATURE_LENGTH
  }

  lemma {:induction false} JoinedLength(chunks: seq<Octets>)
    requires AllWidth(chunks)
    ensures |Joined(chunks)| == SIGNATURE_LENGTH * |chunks|
  {
    if chunks != [] {
      JoinedLength(chunks[..|chunks| - 1]);
    }
  }

  lemma {:induction false} ChunksAtReads(o: Octets, at: nat, chunks: seq<Octets>)
    requires at + SIGNATURE_LENGTH * |chunks| <= |o|
    requires AllWidth(chunks) && o[at..at + SIGNATURE_LENGTH * |chunks|] == Joined(chunks)
    ensures ChunksAt(o, at, |chunks|) == chunks
  {
    if chunks != [] {
      var k := |chunks|;
      var front, mid, end := chunks[..k - 1], at + SIGNATURE_LENGTH * (k - 1), at + SIGNATURE_LENGTH * k;
      JoinedLength(front);
      CutIff(o, at, mid, end, Joined(front), chunks[k - 1]);
      ChunksAtReads(o, at, front);
    }
  }

  lemma {:induction false} ChunksAtJoins(o: Octets, at: nat, k: nat)
    requires at + SIGNATURE_LENGTH * k <= |o|
    ensures AllWidth(ChunksAt(o, at, k)) && o[at..at + SIGNATURE_LENGTH * k] == Joined(ChunksAt(o, at, k))
  {
    if k > 0 {
      var front, mid, end := ChunksAt(o, at, k - 1), at + SIGNATURE_LENGTH * (k - 1), at + SIGNATURE_LENGTH * k;
      ChunksAtJoins(o, at, k - 1);
      JoinedLength(front);
      CutIff(o, at, mid, end, Joined(front), o[mid..end]);
      assert ChunksAt(o, at, k)[..k - 1] == front;
    }
  }

  lemma ChunksAtIff(o: Octets, at: nat, k: nat, chunks: seq<Octets>)
    requires at + SIGNATURE_LENGTH * k <= |o|
    ensures ChunksAt(o, at, k) == chunks <==>
            |chunks| == k && AllWidth(chunks) && o[at..at + SIGNATURE_LENGTH * k] == Joined(chunks)
  {
    ChunksAtJoins(o, at, k);
    if |chunks| == k && AllWidth(chunks) && o[at..at + SIGNATURE_LENGTH * k] == Joined(chunks) {
      ChunksAtReads(o, at, chunks);
    }
  }

  // ---- One field, and what follows it ----

  /** `o[at..]` is `first` and then `rest`. */
  lemma PeelIff(o: Octets, at: nat, first: Octets, rest: Octets)
    requires at <= |o|
    ensures o[at..] == first + rest <==>
            at + |first| <= |o| && o[at..at + |first|] == first && o[at + |first|..] == rest
  {
    if at + |first| <= |o| {
      var mid := at + |first|;
      assert o[at..] == o[at..mid] + o[mid..];
      if o[at..] == first + rest {
        SplitEqual(o[at..mid], o[mid..], first, rest);
      }
    }
  }

  lemma U64Field(o: Octets, at: nat, n: nat, rest: Octets)
    requires at + 8 <= |o|
    ensures n < U64_LIMIT && o[at..] == I2osp(n, 8) + rest <==> ReadU64(o, at) == Ok(n) && o[at + 8..] == rest
  {
    PeelIff(o, at, I2osp(n, 8), rest);
    ReadU64Iff(o, at, n);
  }

  lemma PointField(c: Curve, o: Octets, at: nat, p: Point, rest: Octets)
    requires c.Laws()
    requires at + POINT_LENGTH <= |o|
    ensures p != c.identity && o[at..] == c.compressed(p) + rest <==>
            PointAt(c, o, at) == Ok(p) && o[at + POINT_LENGTH..] == rest
  {
    PeelIff(o, at, c.compressed(p), rest);
    PointAtIff(c, o, at, p);
    c.PointFromOctetsIff([], p);
  }

  lemma ScalarField(c: Curve, o: Octets, at: nat, nonZero: bool, s: Scalar, rest: Octets)
    requires c.Laws()
    requires at + SCALAR_LENGTH <= |o|
    ensures (nonZero ==> s != c.zero) && o[at..] == c.ScalarOctets(s) + rest <==>
            ScalarAt(c, o, at, nonZero) == Ok(s) && o[at + SCALAR_LENGTH..] == rest
  {
    PeelIff(o, at, c.ScalarOctets(s), rest);
    ScalarAtIff(c, o, at, nonZero, s);
    c.ScalarFromBeIff([], s);
  }

  lemma PointsField(c: Curve, o: Octets, at: nat, k: nat, ps: seq<Point>, rest: Octets)
    requires c.Laws()
    requires at + POINT_LENGTH * k <= |o| && |ps| == k
    ensures NoIdentity(c, ps) && o[at..] == PointsOctets(c, ps) + rest <==>
            PointsAt(c, o, at, k) == Ok(ps) && o[at + POINT_LENGTH * k..] == rest
  {
    hide PointsOctets, PointsAt;
    PeelIff(o, at, PointsOctets(c, ps), rest);
    PointsOctetsLength(c, ps);
    PointsAtIff(c, o, at, k, ps);
  }

  lemma ScalarsField(c: Curve, o: Octets, at: nat, k: nat, nonZero: bool, ss: seq<Scalar>, rest: Octets)
    requires c.Laws()
    requires at + SCALAR_LENGTH * k <= |o| && |ss| == k
    ensures (nonZero ==> NoZero(c, ss)) && o[at..] == ScalarsOctets(c, ss) + rest <==>
            ScalarsAt(c, o, at, k, nonZero) == Ok(ss) && o[at + SCALAR_LENGTH * k..] == rest
  {
    hide ScalarsOctets, ScalarsAt;
    PeelIff(o, at, ScalarsOctets(c, ss), rest);
    ScalarsOctetsLength(c, ss);
    ScalarsAtIff(c, o, at, k, nonZero, ss);
  }

  lemma ChunksField(o: Octets, at: nat, k: nat, chunks: seq<Octets>)
    requires at + SIGNATURE_LENGTH * k == |o| && |chunks| == k
    ensures AllWidth(chunks) && o[at..] == Joined(chunks) <==> ChunksAt(o, at, k) == chunks
  {
    ChunksAtIff(o, at, k, chunks);
    assert o[at..] == o[at..at + SIGNATURE_LENGTH * k];
  }

  // ---- The reading loops ----

  lemma {:induction false} PointsAtErrSticks(c: Curve, o: Octets, at: nat, i: nat, k: nat)
    requires i <= k && at + POINT_LENGTH * k <= |o|
    requires PointsAt(c, o, at, i).Err?
    ensures PointsAt(c, o, at, k) == PointsAt(c, o, at, i)
    decreases k
  {
    if i < k {
      PointsAtErrSticks(c, o, at, i, k - 1);
    }
  }

  lemma {:induction false} ScalarsAtErrSticks(c: Curve, o: Octets, at: nat, i: nat, k: nat, nonZero: bool)
    requires i <= k && at + SCALAR_LENGTH * k <= |o|
    requires ScalarsAt(c, o, at, i, nonZero).Err?
    ensures ScalarsAt(c, o, at, k, nonZero) == ScalarsAt(c, o, at, i, nonZero)
    decreases k
  {
    if i < k {
      ScalarsAtErrSticks(c, o, at, i, k - 1, nonZero);
    }
  }

  /** `for _ in 0..k` over `octets[idx..]`, advancing `idx` by a point each time. */
  method ReadPoints(c: Curve, o: Octets, at: nat, k: nat) returns (r: Result<seq<Point>>, idx: nat)
    requires at + POINT_LENGTH * k <= |o|
    ensures r == PointsAt(c, o, at, k)
    ensures r.Ok? ==> idx == at + POINT_LENGTH * k
  {
    hide PointAt;
    idx := at;
    var points := [];
    for i := 0 to k
      invariant idx == at + POINT_LENGTH * i
      invariant PointsAt(c, o, at, i) == Ok(points)
    {
      var p := PointAt(c, o, idx);
      if p.Err? {
        PointsAtErrSticks(c, o, at, i + 1, k);
        return Err(p.error), idx;
      }
      points := points + [p.value];
      idx := idx + POINT_LENGTH;
    }
    r := Ok(points);
  }

  method ReadScalars(c: Curve, o: Octets, at: nat, k: nat, nonZero: bool)
    returns (r: Result<seq<Scalar>>, idx: nat)
    requires at + SCALAR_LENGTH * k <= |o|
    ensures r == ScalarsAt(c, o, at, k, nonZero)
    ensures r.Ok? ==> idx == at + SCALAR_LENGTH * k
  {
    hide ScalarAt;
    idx := at;
    var scalars := [];
    for i := 0 to k
      invariant idx == at + SCALAR_LENGTH * i
      invariant ScalarsAt(c, o, at, i, nonZero) == Ok(scalars)
    {
      var s := ScalarAt(c, o, idx, nonZero);
      if s.Err? {
        ScalarsAtErrSticks(c, o, at, i + 1, k, nonZero);
        return Err(s.error), idx;
      }
      scalars := scalars + [s.value];
      idx := idx + SCALAR_LENGTH;
    }
    r := Ok(scalars);
  }

  method ReadChunks(o: Octets, at: nat, k: nat) returns (chunks: seq<Octets>, idx: nat)
    requires at + SIGNATURE_LENGTH * k <= |o|
    ensures chunks == ChunksAt(o, at, k)
    ensures idx == at + SIGNATURE_LENGTH * k
  {
    idx := at;
    chunks := [];
    for i := 0 to k
      invariant idx == at + SIGNATURE_LENGTH * i
      invariant chunks == ChunksAt(o, at, i)
    {
      chunks := chunks + [o[idx..idx + SIGNATURE_LENGTH]];
      idx := idx + SIGNATURE_LENGTH;
    }
  }
}
