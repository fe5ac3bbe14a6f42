/** The octets of a commitment on its way from the wallet to the issuer (`src/blind.rs`). */
module CommitWire {
  import opened Wrappers
  import opened Octets
  import opened Curves
  import opened Serialize

  /** What the wallet keeps between the two halves of a commitment. */
  datatype CommitState = CommitState(c: Point, sHat: Scalar, mHat: seq<Scalar>, challenge: Scalar, keys: seq<Point>)

  /** What the issuer receives. */
  datatype CommitProof = CommitProof(c: Point, keys: seq<Point>, sHat: Scalar, mHat: seq<Scalar>, challenge: Scalar,
                                     sigs: seq<Octets>)

  function CommitScalars(sHat: Scalar, mHat: seq<Scalar>, challenge: Scalar): (r: seq<Scalar>)
    ensures |r| == |mHat| + 2
  {
    [sHat] + mHat + [challenge]
  }

  lemma CommitScalarsSplit(ss: seq<Scalar>, m: nat)
    requires |ss| == m + 2
    ensures CommitScalars(ss[0], ss[1..1 + m], ss[m + 1]) == ss
  {
  }

  lemma CommitScalarsParts(sHat: Scalar, mHat: seq<Scalar>, challenge: Scalar)
    ensures var ss := CommitScalars(sHat, mHat, challenge);
            ss[0] == sHat && ss[1..1 + |mHat|] == mHat && ss[|mHat| + 1] == challenge
  {
  }

  lemma CommitScalarsNoZero(c: Curve, sHat: Scalar, mHat: seq<Scalar>, challenge: Scalar)
    ensures NoZero(c, CommitScalars(sHat, mHat, challenge)) <==>
            sHat != c.zero && NoZero(c, mHat) && challenge != c.zero
  {
    var ss := CommitScalars(sHat, mHat, challenge);
    CommitScalarsParts(sHat, mHat, challenge);
    if NoZero(c, ss) {
      assert forall i :: 0 <= i < |mHat| ==> ss[1 + i] == mHat[i];
    }
  }

  // ---- The state between the halves ----

  function StateOctets(c: Curve, st: CommitState): Octets {
    SerOctets(c, [U64(|st.mHat|), U64(|st.keys|), G1(st.c), Scl(st.sHat)]
                 + ScalarItems(st.mHat) + [Scl(st.challenge)] + PointItems(st.keys))
  }

  function StateFromOctets(c: Curve, o: Octets): Result<CommitState> {
    if |o| < 16 then Err(InvalidLength)
    else
      var m :- ReadU64(o, 0);
      var k :- ReadU64(o, 8);
      if |o| != 16 + (1 + k) * POINT_LENGTH + (2 + m) * SCALAR_LENGTH then Err(InvalidLength)
      else
        var point :- PointAt(c, o, 16);
        var ss :- ScalarsAt(c, o, 16 + POINT_LENGTH, m + 2, true);
        var keys :- PointsAt(c, o, 16 + POINT_LENGTH + SCALAR_LENGTH * (m + 2), k);
        Ok(CommitState(point, ss[0], ss[1..1 + m], ss[m + 1], keys))
  }

  method ParseState(c: Curve, o: Octets) returns (r: Result<CommitState>)
    ensures r == StateFromOctets(c, o)
  {
    hide PointsAt, ScalarsAt, ChunksAt, PointAt, Os2ip;
    if |o| < 16 {
      return Err(InvalidLength);
    }
    var m, k := ReadU64(o, 0).value, ReadU64(o, 8).value;
    if |o| != 16 + (1 + k) * POINT_LENGTH + (2 + m) * SCALAR_LENGTH {
      return Err(InvalidLength);
    }
    var idx := 16;
    var point := PointAt(c, o, idx);
    if point.Err? {
      return Err(point.error);
    }
    idx := idx + POINT_LENGTH;
    var ss, keys;
    ss, idx := ReadScalars(c, o, idx, m + 2, true);
    if ss.Err? {
      return Err(ss.error);
    }
    keys, idx := ReadPoints(c, o, idx, k);
    if keys.Err? {
      return Err(keys.error);
    }
    r := Ok(CommitState(point.value, ss.value[0], ss.value[1..1 + m], ss.value[m + 1], keys.value));
  }

  predicate GoodState(c: Curve, st: CommitState) {
    && st.c != c.identity && st.sHat != c.zero && NoZero(c, st.mHat) && st.challenge != c.zero
    && NoIdentity(c, st.keys) && |st.mHat| < U64_LIMIT && |st.keys| < U64_LIMIT
  }

  /** The segments of an encoded state, in order. */
  function StateSegments(c: Curve, m: nat, k: nat, point: Point, ss: seq<Scalar>, keys: seq<Point>): Octets {
    I2osp(m, 8) + (I2osp(k, 8) + (c.compressed(point) + (ScalarsOctets(c, ss) + PointsOctets(c, keys))))
  }

  lemma StateLayout(c: Curve, st: CommitState)
    ensures StateOctets(c, st) ==
            StateSegments(c, |st.mHat|, |st.keys|, st.c, CommitScalars(st.sHat, st.mHat, st.challenge), st.keys)
  {
    hide SerOctets, ScalarsOctets, PointsOctets, Joined;
    var ss := CommitScalars(st.sHat, st.mHat, st.challenge);
    var head := [U64(|st.mHat|), U64(|st.keys|), G1(st.c)];
    assert [U64(|st.mHat|), U64(|st.keys|), G1(st.c), Scl(st.sHat)] + ScalarItems(st.mHat) + [Scl(st.challenge)]
           + PointItems(st.keys) == head + (ScalarItems(ss) + PointItems(st.keys));
    SerConcat(c, head, ScalarItems(ss) + PointItems(st.keys));
    SerConcat(c, ScalarItems(ss), PointItems(st.keys));
    SerScalars(c, ss);
    SerPoints(c, st.keys);
    SerThree(c, U64(|st.mHat|), U64(|st.keys|), G1(st.c), ScalarsOctets(c, ss) + PointsOctets(c, st.keys));
  }

  lemma SerThree(c: Curve, x: Ser, y: Ser, z: Ser, rest: Octets)
    ensures SerOctets(c, [x, y, z]) + rest == ItemOctets(c, x) + (ItemOctets(c, y) + (ItemOctets(c, z) + rest))
  {
    hide SerOctets;
    assert [x, y, z] == [x] + ([y] + [z]);
    SerConcat(c, [x], [y] + [z]);
    SerConcat(c, [y], [z]);
    SerOne(c, x);
    SerOne(c, y);
    SerOne(c, z);
  }

  /** An octet string of the right length is made of these segments exactly when each reader
      returns its segment. */
  lemma StateSegmentsIff(c: Curve, o: Octets, m: nat, k: nat, point: Point, ss: seq<Scalar>, keys: seq<Point>)
    requires c.Laws()
    requires |o| == 16 + (1 + k) * POINT_LENGTH + (2 + m) * SCALAR_LENGTH
    requires |ss| == m + 2 && |keys| == k
    ensures var at := 16 + POINT_LENGTH;
            (&& o == StateSegments(c, m, k, point, ss, keys)
             && m < U64_LIMIT && k < U64_LIMIT && point != c.identity && NoZero(c, ss) && NoIdentity(c, keys))
            <==>
            (&& ReadU64(o, 0) == Ok(m) && ReadU64(o, 8) == Ok(k) && PointAt(c, o, 16) == Ok(point)
             && ScalarsAt(c, o, at, m + 2, true) == Ok(ss)
             && PointsAt(c, o, at + SCALAR_LENGTH * (m + 2), k) == Ok(keys))
  {
    hide PointsAt, ScalarsAt, ChunksAt, ReadU64, PointAt, PointsOctets, ScalarsOctets, Joined, NoIdentity, NoZero, I2osp;
    var at := 16 + POINT_LENGTH;
    var rest4 := PointsOctets(c, keys);
    var rest3 := ScalarsOctets(c, ss) + rest4;
    var rest2 := c.compressed(point) + rest3;
    var rest1 := I2osp(k, 8) + rest2;
    assert o[0..] == o;
    assert o[|o|..] == [];
    assert rest4 + [] == rest4;
    U64Field(o, 0, m, rest1);
    U64Field(o, 8, k, rest2);
    PointField(c, o, 16, point, rest3);
    ScalarsField(c, o, at, m + 2, true, ss, rest4);
    PointsField(c, o, at + SCALAR_LENGTH * (m + 2), k, keys, []);
  }

  lemma StateLength(c: Curve, st: CommitState)
    requires c.Laws()
    ensures |StateOctets(c, st)| == 16 + (1 + |st.keys|) * POINT_LENGTH + (2 + |st.mHat|) * SCALAR_LENGTH
  {
    hide PointsAt, ScalarsAt, ChunksAt, ReadU64, PointAt, PointsOctets, ScalarsOctets, Joined, I2osp, SerOctets;
    StateLayout(c, st);
    c.PointFromOctetsIff([], st.c);
    ScalarsOctetsLength(c, CommitScalars(st.sHat, st.mHat, st.challenge));
    PointsOctetsLength(c, st.keys);
  }

  lemma StateReads(c: Curve, st: CommitState)
    requires c.Laws()
    requires GoodState(c, st)
    ensures StateFromOctets(c, StateOctets(c, st)) == Ok(st)
  {
    hide PointsAt, ScalarsAt, ChunksAt, ReadU64, PointAt, PointsOctets, ScalarsOctets, Joined, I2osp, SerOctets;
    var ss := CommitScalars(st.sHat, st.mHat, st.challenge);
    StateLength(c, st);
    StateLayout(c, st);
    CommitScalarsNoZero(c, st.sHat, st.mHat, st.challenge);
    StateSegmentsIff(c, StateOctets(c, st), |st.mHat|, |st.keys|, st.c, ss, st.keys);
    CommitScalarsParts(st.sHat, st.mHat, st.challenge);
  }

  lemma StateAccepts(c: Curve, o: Octets)
    requires c.Laws()
    requires StateFromOctets(c, o).Ok?
    ensures GoodState(c, StateFromOctets(c, o).value)
    ensures o == StateOctets(c, StateFromOctets(c, o).value)
  {
    hide PointsAt, ScalarsAt, ChunksAt, ReadU64, PointAt, PointsOctets, ScalarsOctets, Joined, I2osp, SerOctets;
    var st := StateFromOctets(c, o).value;
    var m, k := ReadU64(o, 0).value, ReadU64(o, 8).value;
    var ss := ScalarsAt(c, o, 16 + POINT_LENGTH, m + 2, true).value;
    CommitScalarsSplit(ss, m);
    CommitScalarsNoZero(c, st.sHat, st.mHat, st.challenge);
    StateSegmentsIff(c, o, m, k, st.c, ss, st.keys);
    StateLayout(c, st);
  }

  /** The state codec is a bijection between the states with no trivial part and the octet
      strings the parser accepts. */
  lemma StateFromOctetsIff(c: Curve, o: Octets, st: CommitState)
    requires c.Laws()
    ensures StateFromOctets(c, o) == Ok(st) <==> GoodState(c, st) && o == StateOctets(c, st)
  {
    if StateFromOctets(c, o) == Ok(st) {
      StateAccepts(c, o);
    }
    if GoodState(c, st) && o == StateOctets(c, st) {
      StateReads(c, st);
    }
  }

  // ---- The commitment with its proof ----

  function CommitProofOctets(c: Curve, x: CommitProof): Octets {
    SerOctets(c, [U64(|x.mHat|), U64(|x.keys|), G1(x.c)] + PointItems(x.keys)
                 + [Scl(x.sHat)] + ScalarItems(x.mHat) + [Scl(x.challenge)])
    + Joined(x.sigs)
  }

  /** The items, then one signature after the other. */
  method WriteCommitProof(c: Curve, x: CommitProof) returns (out: Octets)
    ensures out == CommitProofOctets(c, x)
  {
    hide SerOctets;
    var items := [U64(|x.mHat|), U64(|x.keys|), G1(x.c)];
    items := items + PointItems(x.keys) + [Scl(x.sHat)] + ScalarItems(x.mHat) + [Scl(x.challenge)];
    out := SerializeItems(c, items);
    ghost var head := out;
    for i := 0 to |x.sigs|
      invariant out == head + Joined(x.sigs[..i])
    {
      assert x.sigs[..i + 1][..i] == x.sigs[..i];
      out := out + x.sigs[i];
    }
    assert x.sigs[..|x.sigs|] == x.sigs;
  }

  function CommitProofFromOctets(c: Curve, o: Octets): Result<CommitProof> {
    if |o| < 16 then Err(InvalidLength)
    else
      var m :- ReadU64(o, 0);
      var k :- ReadU64(o, 8);
      if |o| != 16 + (1 + k) * POINT_LENGTH + (2 + m) * SCALAR_LENGTH + k * SIGNATURE_LENGTH then Err(InvalidLength)
      else
        var point :- PointAt(c, o, 16);
        var keys :- PointsAt(c, o, 16 + POINT_LENGTH, k);
        var ss :- ScalarsAt(c, o, 16 + POINT_LENGTH * (k + 1), m + 2, true);
        var sigs := ChunksAt(o, 16 + POINT_LENGTH * (k + 1) + SCALAR_LENGTH * (m + 2), k);
        Ok(CommitProof(point, keys, ss[0], ss[1..1 + m], ss[m + 1], sigs))
  }

  method ParseCommitProof(c: Curve, o: Octets) returns (r: Result<CommitProof>)
    ensures r == CommitProofFromOctets(c, o)
  {
    hide PointsAt, ScalarsAt, ChunksAt, PointAt, Os2ip;
    if |o| < 16 {
      return Err(InvalidLength);
    }
    var m, k := ReadU64(o, 0).value, ReadU64(o, 8).value;
    if |o| != 16 + (1 + k) * POINT_LENGTH + (2 + m) * SCALAR_LENGTH + k * SIGNATURE_LENGTH {
      return Err(InvalidLength);
    }
    var idx := 16;
    var point := PointAt(c, o, idx);
    if point.Err? {
      return Err(point.error);
    }
    idx := idx + POINT_LENGTH;
    var keys, ss, sigs;
    keys, idx := ReadPoints(c, o, idx, k);
    if keys.Err? {
      return Err(keys.error);
    }
    ss, idx := ReadScalars(c, o, idx, m + 2, true);
    if ss.Err? {
      return Err(ss.error);
    }
    sigs, idx := ReadChunks(o, idx, k);
    r := Ok(CommitProof(point.value, keys.value, ss.value[0], ss.value[1..1 + m], ss.value[m + 1], sigs));
  }

  predicate GoodCommitProof(c: Curve, x: CommitProof) {
    && GoodState(c, CommitState(x.c, x.sHat, x.mHat, x.challenge, x.keys))
    && |x.sigs| == |x.keys| && AllWidth(x.sigs)
  }

  function CommitProofSegments(c: Curve, m: nat, k: nat, point: Point, keys: seq<Point>, ss: seq<Scalar>, sigs: seq<Octets>)
    : Octets
  {
    I2osp(m, 8) + (I2osp(k, 8) + (c.compressed(point) + (PointsOctets(c, keys) + (ScalarsOctets(c, ss) + Joined(sigs)))))
  }

  lemma CommitProofLayout(c: Curve, x: CommitProof)
    ensures CommitProofOctets(c, x) ==
            CommitProofSegments(c, |x.mHat|, |x.keys|, x.c, x.keys, CommitScalars(x.sHat, x.mHat, x.challenge), x.sigs)
  {
    hide SerOctets, ScalarsOctets, PointsOctets, Joined;
    var ss := CommitScalars(x.sHat, x.mHat, x.challenge);
    var head := [U64(|x.mHat|), U64(|x.keys|), G1(x.c)];
    assert head + PointItems(x.keys) + [Scl(x.sHat)] + ScalarItems(x.mHat) + [Scl(x.challenge)]
           == head + (PointItems(x.keys) + ScalarItems(ss));
    SerConcat(c, head, PointItems(x.keys) + ScalarItems(ss));
    SerConcat(c, PointItems(x.keys), ScalarItems(ss));
    SerScalars(c, ss);
    SerPoints(c, x.keys);
    var po, so, jo := PointsOctets(c, x.keys), ScalarsOctets(c, ss), Joined(x.sigs);
    Assoc(SerOctets(c, head), po + so, jo);
    Assoc(po, so, jo);
    SerThree(c, U64(|x.mHat|), U64(|x.keys|), G1(x.c), po + (so + jo));
  }

  lemma CommitProofSegmentsIff(c: Curve, o: Octets, m: nat, k: nat, point: Point, keys: seq<Point>, ss: seq<Scalar>,
                               sigs: seq<Octets>)
    requires c.Laws()
    requires |o| == 16 + (1 + k) * POINT_LENGTH + (2 + m) * SCALAR_LENGTH + k * SIGNATURE_LENGTH
    requires |ss| == m + 2 && |keys| == k && |sigs| == k
    ensures var at := 16 + POINT_LENGTH * (k + 1);
            (&& o == CommitProofSegments(c, m, k, point, keys, ss, sigs)
             && m < U64_LIMIT && k < U64_LIMIT && point != c.identity && NoIdentity(c, keys) && NoZero(c, ss)
             && AllWidth(sigs))
            <==>
            (&& ReadU64(o, 0) == Ok(m) && ReadU64(o, 8) == Ok(k) && PointAt(c, o, 16) == Ok(point)
             && PointsAt(c, o, 16 + POINT_LENGTH, k) == Ok(keys)
             && ScalarsAt(c, o, at, m + 2, true) == Ok(ss)
             && ChunksAt(o, at + SCALAR_LENGTH * (m + 2), k) == sigs)
  {
    hide AllWidth, PointsAt, ScalarsAt, ChunksAt, ReadU64, PointAt, PointsOctets, ScalarsOctets, Joined, NoIdentity, NoZero, I2osp;
    var at := 16 + POINT_LENGTH * (k + 1);
    var rest5 := Joined(sigs);
    var rest4 := ScalarsOctets(c, ss) + rest5;
    var rest3 := PointsOctets(c, keys) + rest4;
    var rest2 := c.compressed(point) + rest3;
    var rest1 := I2osp(k, 8) + rest2;
    assert o[0..] == o;
    U64Field(o, 0, m, rest1);
    U64Field(o, 8, k, rest2);
    PointField(c, o, 16, point, rest3);
    PointsField(c, o, 16 + POINT_LENGTH, k, keys, rest4);
    ScalarsField(c, o, at, m + 2, true, ss, rest5);
    ChunksField(o, at + SCALAR_LENGTH * (m + 2), k, sigs);
  }

  lemma CommitProofLength(c: Curve, x: CommitProof)
    requires c.Laws()
    requires AllWidth(x.sigs)
    ensures |CommitProofOctets(c, x)| == 16 + (1 + |x.keys|) * POINT_LENGTH + (2 + |x.mHat|) * SCALAR_LENGTH
                                         + |x.sigs| * SIGNATURE_LENGTH
  {
    hide PointsAt, ScalarsAt, ChunksAt, ReadU64, PointAt, PointsOctets, ScalarsOctets, Joined, I2osp, SerOctets;
    CommitProofLayout(c, x);
    c.PointFromOctetsIff([], x.c);
    ScalarsOctetsLength(c, CommitScalars(x.sHat, x.mHat, x.challenge));
    PointsOctetsLength(c, x.keys);
    JoinedLength(x.sigs);
  }

  lemma CommitProofReads(c: Curve, x: CommitProof)
    requires c.Laws()
    requires GoodCommitProof(c, x)
    ensures CommitProofFromOctets(c, CommitProofOctets(c, x)) == Ok(x)
  {
    hide PointsAt, ScalarsAt, ChunksAt, ReadU64, PointAt, PointsOctets, ScalarsOctets, Joined, I2osp, SerOctets;
    var ss := CommitScalars(x.sHat, x.mHat, x.challenge);
    CommitProofLength(c, x);
    CommitProofLayout(c, x);
    CommitScalarsNoZero(c, x.sHat, x.mHat, x.challenge);
    CommitProofSegmentsIff(c, CommitProofOctets(c, x), |x.mHat|, |x.keys|, x.c, x.keys, ss, x.sigs);
    CommitScalarsParts(x.sHat, x.mHat, x.challenge);
  }

  lemma CommitProofAccepts(c: Curve, o: Octets)
    requires c.Laws()
    requires CommitProofFromOctets(c, o).Ok?
    ensures GoodCommitProof(c, CommitProofFromOctets(c, o).value)
    ensures o == CommitProofOctets(c, CommitProofFromOctets(c, o).value)
  {
    hide PointsAt, ScalarsAt, ChunksAt, ReadU64, PointAt, PointsOctets, ScalarsOctets, Joined, I2osp, SerOctets;
    var x := CommitProofFromOctets(c, o).value;
    var m, k := ReadU64(o, 0).value, ReadU64(o, 8).value;
    var ss := ScalarsAt(c, o, 16 + POINT_LENGTH * (k + 1), m + 2, true).value;
    CommitScalarsSplit(ss, m);
    CommitScalarsNoZero(c, x.sHat, x.mHat, x.challenge);
    CommitProofSegmentsIff(c, o, m, k, x.c, x.keys, ss, x.sigs);
    CommitProofLayout(c, x);
  }

  /** Likewise for the commitment with its proof and its device signatures. */
  lemma CommitProofFromOctetsIff(c: Curve, o: Octets, x: CommitProof)
    requires c.Laws()
    ensures CommitProofFromOctets(c, o) == Ok(x) <==> GoodCommitProof(c, x) && o == CommitProofOctets(c, x)
  {
    if CommitProofFromOctets(c, o) == Ok(x) {
      CommitProofAccepts(c, o);
    }
    if GoodCommitProof(c, x) && o == CommitProofOctets(c, x) {
      CommitProofReads(c, x);
    }
  }
}
