/** The octets of a presentation between the two halves of its generation, and as finished
    (`src/blind.rs`). One function writes the state, a second slices it from the back, a third
    extends the slice, and a fourth parses the result. */
module ProofWire {
  import opened Wrappers
  import opened Octets
  import opened Curves
  import opened Serialize
  import opened Bbs

  function ProofPrefix(len: nat, n: nat, k: nat): (o: Octets)
    ensures |o| == 24
  {
    I2osp(len, 8) + I2osp(n, 8) + I2osp(k, 8)
  }

  /** `proof_gen_state_to_octets` */
  function GenStateOctets(c: Curve, proof: Octets, challenge: Scalar, commitments: seq<Point>, sHat: seq<Scalar>,
                          keys: seq<Point>, rKey: seq<Scalar>): Octets
  {
    ProofPrefix(|proof|, |commitments|, |keys|) + proof
    + SerOctets(c, PointItems(commitments) + ScalarItems(sHat) + [Scl(challenge)] + PointItems(keys) + ScalarItems(rKey))
  }

  /** What the second half recovers: everything before the challenge stays opaque. */
  datatype GenState = GenState(incomplete: Octets, challenge: Scalar, keys: seq<Point>, rKey: seq<Scalar>)

  function GenStateFromOctets(c: Curve, o: Octets): Result<GenState> {
    if |o| < 24 then Err(InvalidLength)
    else
      var len :- ReadU64(o, 0);
      var n :- ReadU64(o, 8);
      var k :- ReadU64(o, 16);
      if |o| != 24 + len + (n + k) * POINT_LENGTH + (1 + n + k) * SCALAR_LENGTH then Err(InvalidLength)
      else
        var idx := |o| - k * (POINT_LENGTH + SCALAR_LENGTH);
        var challenge :- ScalarAt(c, o, idx - SCALAR_LENGTH, true);
        var keys :- PointsAt(c, o, idx, k);
        var rKey :- ScalarsAt(c, o, idx + POINT_LENGTH * k, k, true);
        Ok(GenState(o[..idx - SCALAR_LENGTH], challenge, keys, rKey))
  }

  method ParseGenState(c: Curve, o: Octets) returns (r: Result<GenState>)
    ensures r == GenStateFromOctets(c, o)
  {
    hide PointsAt, ScalarsAt, ScalarAt, Os2ip;
    if |o| < 24 {
      return Err(InvalidLength);
    }
    var len, n, k := ReadU64(o, 0).value, ReadU64(o, 8).value, ReadU64(o, 16).value;
    if |o| != 24 + len + (n + k) * POINT_LENGTH + (1 + n + k) * SCALAR_LENGTH {
      return Err(InvalidLength);
    }
    var idx := |o| - k * (POINT_LENGTH + SCALAR_LENGTH);
    var incomplete := o[..idx - SCALAR_LENGTH];
    var challenge := ScalarAt(c, o, idx - SCALAR_LENGTH, true);
    if challenge.Err? {
      return Err(challenge.error);
    }
    var keys, rKey;
    keys, idx := ReadPoints(c, o, idx, k);
    if keys.Err? {
      return Err(keys.error);
    }
    rKey, idx := ReadScalars(c, o, idx, k, true);
    if rKey.Err? {
      return Err(rKey.error);
    }
    r := Ok(GenState(incomplete, challenge.value, keys.value, rKey.value));
  }

  /** The opaque part announces its own layout. */
  predicate Announces(o: Octets, len: nat, n: nat, k: nat) {
    |o| >= 24 && ReadU64(o, 0) == Ok(len) && ReadU64(o, 8) == Ok(n) && ReadU64(o, 16) == Ok(k)
  }

  predicate GoodGenState(c: Curve, g: GenState, len: nat, n: nat) {
    && Announces(g.incomplete, len, n, |g.keys|)
    && |g.incomplete| == 24 + len + n * (POINT_LENGTH + SCALAR_LENGTH)
    && |g.rKey| == |g.keys|
    && g.challenge != c.zero && NoIdentity(c, g.keys) && NoZero(c, g.rKey)
  }

  function GenStateSegments(c: Curve, g: GenState): Octets {
    g.incomplete + (c.ScalarOctets(g.challenge) + (PointsOctets(c, g.keys) + ScalarsOctets(c, g.rKey)))
  }

  lemma AnnouncesPrefix(o: Octets, head: Octets, tail: Octets, len: nat, n: nat, k: nat)
    requires o == head + tail && |head| >= 24
    ensures Announces(o, len, n, k) <==> Announces(head, len, n, k)
  {
    assert o[0..8] == head[0..8] && o[8..16] == head[8..16] && o[16..24] == head[16..24];
  }

  lemma GenStateTail(c: Curve, o: Octets, at: nat, g: GenState)
    requires c.Laws()
    requires |g.rKey| == |g.keys|
    requires |o| == at + SCALAR_LENGTH + |g.keys| * (POINT_LENGTH + SCALAR_LENGTH)
    ensures var k := |g.keys|;
            (g.challenge != c.zero && NoIdentity(c, g.keys) && NoZero(c, g.rKey)
             && o[at..] == c.ScalarOctets(g.challenge) + (PointsOctets(c, g.keys) + ScalarsOctets(c, g.rKey)))
            <==>
            (ScalarAt(c, o, at, true) == Ok(g.challenge) && PointsAt(c, o, at + SCALAR_LENGTH, k) == Ok(g.keys)
             && ScalarsAt(c, o, at + SCALAR_LENGTH + POINT_LENGTH * k, k, true) == Ok(g.rKey))
  {
    hide PointsAt, ScalarsAt, ScalarAt, PointsOctets, ScalarsOctets, NoIdentity, NoZero;
    var k, rest2 := |g.keys|, ScalarsOctets(c, g.rKey);
    var rest1 := PointsOctets(c, g.keys) + rest2;
    assert o[|o|..] == [] && rest2 + [] == rest2;
    ScalarField(c, o, at, true, g.challenge, rest1);
    PointsField(c, o, at + SCALAR_LENGTH, k, g.keys, rest2);
    ScalarsField(c, o, at + SCALAR_LENGTH + POINT_LENGTH * k, k, true, g.rKey, []);
  }

  lemma GenStateReads(c: Curve, g: GenState, len: nat, n: nat)
    requires c.Laws()
    requires GoodGenState(c, g, len, n)
    ensures GenStateFromOctets(c, GenStateSegments(c, g)) == Ok(g)
  {
    hide PointsAt, ScalarsAt, ScalarAt, PointsOctets, ScalarsOctets, NoIdentity, NoZero, ReadU64;
    var o, at := GenStateSegments(c, g), |g.incomplete|;
    var tail := c.ScalarOctets(g.challenge) + (PointsOctets(c, g.keys) + ScalarsOctets(c, g.rKey));
    c.ScalarFromBeIff([], g.challenge);
    PointsOctetsLength(c, g.keys);
    ScalarsOctetsLength(c, g.rKey);
    AnnouncesPrefix(o, g.incomplete, tail, len, n, |g.keys|);
    assert o[..at] == g.incomplete && o[at..] == tail;
    GenStateTail(c, o, at, g);
  }

  lemma GenStateAccepts(c: Curve, o: Octets) returns (len: nat, n: nat)
    requires c.Laws()
    requires GenStateFromOctets(c, o).Ok?
    ensures GoodGenState(c, GenStateFromOctets(c, o).value, len, n)
    ensures o == GenStateSegments(c, GenStateFromOctets(c, o).value)
  {
    hide PointsAt, ScalarsAt, ScalarAt, PointsOctets, ScalarsOctets, NoIdentity, NoZero, ReadU64;
    var g := GenStateFromOctets(c, o).value;
    len, n := ReadU64(o, 0).value, ReadU64(o, 8).value;
    var at := |o| - |g.keys| * (POINT_LENGTH + SCALAR_LENGTH) - SCALAR_LENGTH;
    GenStateTail(c, o, at, g);
    assert o == o[..at] + o[at..];
    AnnouncesPrefix(o, o[..at], o[at..], len, n, |g.keys|);
  }

  /** The second half reads exactly the states whose opaque part announces the layout that is there. */
  lemma GenStateFromOctetsIff(c: Curve, o: Octets, g: GenState)
    requires c.Laws()
    ensures GenStateFromOctets(c, o) == Ok(g) <==>
            o == GenStateSegments(c, g) && exists len, n :: GoodGenState(c, g, len, n)
  {
    if GenStateFromOctets(c, o) == Ok(g) {
      var len, n := GenStateAccepts(c, o);
    }
    if o == GenStateSegments(c, g) && exists len, n :: GoodGenState(c, g, len, n) {
      var len, n :| GoodGenState(c, g, len, n);
      GenStateReads(c, g, len, n);
    }
  }

  // ---- The finished proof ----

  datatype BlindProof = BlindProof(proof: Proof, commitments: seq<Point>, sHat: seq<Scalar>, keys: seq<Point>,
                                   sigs: seq<Octets>)

  /** Everything up to the randomized keys: what `finalize` extends. */
  function Incomplete(c: Curve, proof: Octets, commitments: seq<Point>, sHat: seq<Scalar>, k: nat): Octets {
    ProofPrefix(|proof|, |commitments|, k) + (proof + (PointsOctets(c, commitments) + ScalarsOctets(c, sHat)))
  }

  /** `finalize`: the slice, then the randomized keys, then the adapted signatures. */
  function Completed(c: Curve, incomplete: Octets, keys: seq<Point>, sigs: seq<Octets>): Octets {
    incomplete + PointsOctets(c, keys) + Joined(sigs)
  }

  function BlindProofOctets(c: Curve, b: BlindProof): Octets {
    Completed(c, Incomplete(c, ProofOctets(c, b.proof), b.commitments, b.sHat, |b.keys|), b.keys, b.sigs)
  }

  function BlindProofFromOctets(c: Curve, o: Octets): Result<BlindProof> {
    if |o| < 24 then Err(InvalidLength)
    else
      var len :- ReadU64(o, 0);
      var n :- ReadU64(o, 8);
      var k :- ReadU64(o, 16);
      if |o| != 24 + len + n * (POINT_LENGTH + SCALAR_LENGTH) + k * (POINT_LENGTH + SIGNATURE_LENGTH) then Err(InvalidLength)
      else
        var proof :- ProofFromOctets(c, o[24..24 + len]);
        var at := 24 + len;
        var commitments :- PointsAt(c, o, at, n);
        var sHat :- ScalarsAt(c, o, at + POINT_LENGTH * n, n, false);
        var keys :- PointsAt(c, o, at + POINT_LENGTH * n + SCALAR_LENGTH * n, k);
        Ok(BlindProof(proof, commitments, sHat, keys, ChunksAt(o, at + POINT_LENGTH * (n + k) + SCALAR_LENGTH * n, k)))
  }

  method ParseBlindProof(c: Curve, o: Octets) returns (r: Result<BlindProof>)
    requires c.Laws()
    ensures r == BlindProofFromOctets(c, o)
  {
    hide PointsAt, ScalarsAt, ChunksAt, ProofFromOctets, Os2ip;
    if |o| < 24 {
      return Err(InvalidLength);
    }
    var len, n, k := ReadU64(o, 0).value, ReadU64(o, 8).value, ReadU64(o, 16).value;
    if |o| != 24 + len + n * (POINT_LENGTH + SCALAR_LENGTH) + k * (POINT_LENGTH + SIGNATURE_LENGTH) {
      return Err(InvalidLength);
    }
    var idx := 24;
    var proof := ParseProof(c, o[idx..idx + len]);
    if proof.Err? {
      return Err(proof.error);
    }
    idx := idx + len;
    var commitments, sHat, keys, sigs;
    commitments, idx := ReadPoints(c, o, idx, n);
    if commitments.Err? {
      return Err(commitments.error);
    }
    sHat, idx := ReadScalars(c, o, idx, n, false);
    if sHat.Err? {
      return Err(sHat.error);
    }
    keys, idx := ReadPoints(c, o, idx, k);
    if keys.Err? {
      return Err(keys.error);
    }
    sigs, idx := ReadChunks(o, idx, k);
    r := Ok(BlindProof(proof.value, commitments.value, sHat.value, keys.value, sigs));
  }

  predicate GoodBlindProof(c: Curve, b: BlindProof) {
    && GoodProof(c, b.proof) && NoIdentity(c, b.commitments) && NoIdentity(c, b.keys)
    && |b.sHat| == |b.commitments| && |b.sigs| == |b.keys| && AllWidth(b.sigs)
    && PROOF_FLOOR + SCALAR_LENGTH * |b.proof.commitments| < U64_LIMIT
    && |b.commitments| < U64_LIMIT && |b.keys| < U64_LIMIT
  }

  function BlindProofSegments(c: Curve, len: nat, n: nat, k: nat, proof: Octets, b: BlindProof): Octets {
    I2osp(len, 8) + (I2osp(n, 8) + (I2osp(k, 8) + (proof + (PointsOctets(c, b.commitments) + (ScalarsOctets(c, b.sHat)
    + (PointsOctets(c, b.keys) + Joined(b.sigs)))))))
  }

  lemma BlindProofLayout(c: Curve, b: BlindProof)
    ensures BlindProofOctets(c, b) ==
            BlindProofSegments(c, |ProofOctets(c, b.proof)|, |b.commitments|, |b.keys|, ProofOctets(c, b.proof), b)
  {
    hide ProofOctets, PointsOctets, ScalarsOctets, Joined, I2osp;
    var p := ProofOctets(c, b.proof);
    FlattenAll(I2osp(|p|, 8), I2osp(|b.commitments|, 8), I2osp(|b.keys|, 8), p, PointsOctets(c, b.commitments),
               ScalarsOctets(c, b.sHat), PointsOctets(c, b.keys), Joined(b.sigs));
  }

  lemma FlattenAll(a: Octets, b: Octets, c: Octets, d: Octets, e: Octets, f: Octets, g: Octets, h: Octets)
    ensures (a + b + c) + (d + (e + f)) + g + h == a + (b + (c + (d + (e + (f + (g + h))))))
  {
    var x := g + h;
    Assoc((a + b + c) + (d + (e + f)), g, h);
    Assoc(a + b + c, d + (e + f), x);
    Assoc(d, e + f, x);
    Assoc(e, f, x);
    var y := d + (e + (f + x));
    Assoc(a + b, c, y);
    Assoc(a, b, c + y);
  }

  /** The fields after the embedded proof. */
  lemma BlindProofTail(c: Curve, o: Octets, at: nat, b: BlindProof)
    requires c.Laws()
    requires |b.sHat| == |b.commitments| && |b.sigs| == |b.keys|
    requires |o| == at + |b.commitments| * (POINT_LENGTH + SCALAR_LENGTH) + |b.keys| * (POINT_LENGTH + SIGNATURE_LENGTH)
    ensures var n, k := |b.commitments|, |b.keys|;
            (NoIdentity(c, b.commitments) && NoIdentity(c, b.keys) && AllWidth(b.sigs)
             && o[at..] == PointsOctets(c, b.commitments) + (ScalarsOctets(c, b.sHat) + (PointsOctets(c, b.keys) + Joined(b.sigs))))
            <==>
            (PointsAt(c, o, at, n) == Ok(b.commitments)
             && ScalarsAt(c, o, at + POINT_LENGTH * n, n, false) == Ok(b.sHat)
             && PointsAt(c, o, at + POINT_LENGTH * n + SCALAR_LENGTH * n, k) == Ok(b.keys)
             && ChunksAt(o, at + POINT_LENGTH * (n + k) + SCALAR_LENGTH * n, k) == b.sigs)
  {
    hide PointsAt, ScalarsAt, ChunksAt, PointsOctets, ScalarsOctets, Joined, NoIdentity, AllWidth;
    var n, k := |b.commitments|, |b.keys|;
    var rest3 := Joined(b.sigs);
    var rest2 := PointsOctets(c, b.keys) + rest3;
    var rest1 := ScalarsOctets(c, b.sHat) + rest2;
    PointsField(c, o, at, n, b.commitments, rest1);
    ScalarsField(c, o, at + POINT_LENGTH * n, n, false, b.sHat, rest2);
    PointsField(c, o, at + POINT_LENGTH * n + SCALAR_LENGTH * n, k, b.keys, rest3);
    ChunksField(o, at + POINT_LENGTH * (n + k) + SCALAR_LENGTH * n, k, b.sigs);
  }

  /** The prefix and the embedded proof. */
  lemma BlindProofHead(o: Octets, len: nat, n: nat, k: nat, proof: Octets, rest: Octets)
    requires |o| >= 24 + len && |proof| == len
    ensures (o == I2osp(len, 8) + (I2osp(n, 8) + (I2osp(k, 8) + (proof + rest)))
             && len < U64_LIMIT && n < U64_LIMIT && k < U64_LIMIT)
            <==>
            (Announces(o, len, n, k) && o[24..24 + len] == proof && o[24 + len..] == rest)
  {
    hide ReadU64, I2osp;
    assert o[0..] == o;
    U64Field(o, 0, len, I2osp(n, 8) + (I2osp(k, 8) + (proof + rest)));
    U64Field(o, 8, n, I2osp(k, 8) + (proof + rest));
    U64Field(o, 16, k, proof + rest);
    PeelIff(o, 24, proof, rest);
  }

  lemma BlindProofLength(c: Curve, b: BlindProof)
    requires c.Laws()
    requires |b.sHat| == |b.commitments| && |b.sigs| == |b.keys| && AllWidth(b.sigs)
    ensures |BlindProofOctets(c, b)| == 24 + |ProofOctets(c, b.proof)| + |b.commitments| * (POINT_LENGTH + SCALAR_LENGTH)
                                        + |b.keys| * (POINT_LENGTH + SIGNATURE_LENGTH)
  {
    hide ProofOctets, PointsOctets, ScalarsOctets, Joined, AllWidth;
    PointsOctetsLength(c, b.commitments);
    ScalarsOctetsLength(c, b.sHat);
    PointsOctetsLength(c, b.keys);
    JoinedLength(b.sigs);
  }

  lemma BlindProofReads(c: Curve, b: BlindProof)
    requires c.Laws()
    requires GoodBlindProof(c, b)
    ensures BlindProofFromOctets(c, BlindProofOctets(c, b)) == Ok(b)
  {
    hide PointsAt, ScalarsAt, ChunksAt, PointsOctets, ScalarsOctets, Joined, ReadU64, ProofOctets, ProofFromOctets, I2osp,
         BlindProofOctets;
    var o, p := BlindProofOctets(c, b), ProofOctets(c, b.proof);
    BlindProofLength(c, b);
    BlindProofLayout(c, b);
    ProofOctetsLayout(c, b.proof);
    BlindProofHead(o, |p|, |b.commitments|, |b.keys|, p,
                   PointsOctets(c, b.commitments) + (ScalarsOctets(c, b.sHat) + (PointsOctets(c, b.keys) + Joined(b.sigs))));
    ProofFromOctetsIff(c, p, b.proof);
    BlindProofTail(c, o, 24 + |p|, b);
  }

  lemma BlindProofAccepts(c: Curve, o: Octets)
    requires c.Laws()
    requires BlindProofFromOctets(c, o).Ok?
    ensures GoodBlindProof(c, BlindProofFromOctets(c, o).value)
    ensures o == BlindProofOctets(c, BlindProofFromOctets(c, o).value)
  {
    hide PointsAt, ScalarsAt, ChunksAt, PointsOctets, ScalarsOctets, Joined, ReadU64, ProofOctets, ProofFromOctets, I2osp,
         BlindProofOctets, NoIdentity, AllWidth;
    var b := BlindProofFromOctets(c, o).value;
    var len, n, k := ReadU64(o, 0).value, ReadU64(o, 8).value, ReadU64(o, 16).value;
    var p := o[24..24 + len];
    ProofFromOctetsIff(c, p, b.proof);
    ProofOctetsLayout(c, b.proof);
    BlindProofTail(c, o, 24 + len, b);
    BlindProofHead(o, len, n, k, p, o[24 + len..]);
    BlindProofLayout(c, b);
  }

  /** The finished proof's codec is a bijection between well-formed proofs and accepted strings. */
  lemma BlindProofFromOctetsIff(c: Curve, o: Octets, b: BlindProof)
    requires c.Laws()
    ensures BlindProofFromOctets(c, o) == Ok(b) <==> GoodBlindProof(c, b) && o == BlindProofOctets(c, b)
  {
    if BlindProofFromOctets(c, o) == Ok(b) {
      BlindProofAccepts(c, o);
    }
    if GoodBlindProof(c, b) && o == BlindProofOctets(c, b) {
      BlindProofReads(c, b);
    }
  }

  // ---- The three stages together ----

  lemma GenStateLayout(c: Curve, proof: Octets, challenge: Scalar, commitments: seq<Point>, sHat: seq<Scalar>,
                       keys: seq<Point>, rKey: seq<Scalar>)
    ensures GenStateOctets(c, proof, challenge, commitments, sHat, keys, rKey) ==
            GenStateSegments(c, GenState(Incomplete(c, proof, commitments, sHat, |keys|), challenge, keys, rKey))
  {
    hide SerOctets, PointsOctets, ScalarsOctets, ProofPrefix;
    var a, b, d, e := PointItems(commitments) + ScalarItems(sHat), [Scl(challenge)], PointItems(keys), ScalarItems(rKey);
    assert PointItems(commitments) + ScalarItems(sHat) + [Scl(challenge)] + PointItems(keys) + ScalarItems(rKey)
           == a + (b + (d + e));
    SerConcat(c, a, b + (d + e));
    SerConcat(c, PointItems(commitments), ScalarItems(sHat));
    SerConcat(c, b, d + e);
    SerConcat(c, d, e);
    SerOne(c, Scl(challenge));
    SerPoints(c, commitments);
    SerScalars(c, sHat);
    SerPoints(c, keys);
    SerScalars(c, rKey);
    var x, y := PointsOctets(c, commitments) + ScalarsOctets(c, sHat),
                c.ScalarOctets(challenge) + (PointsOctets(c, keys) + ScalarsOctets(c, rKey));
    var z := ProofPrefix(|proof|, |commitments|, |keys|);
    Assoc(z, proof, x + y);
    Assoc(proof, x, y);
    Assoc(z, proof + x, y);
  }

  lemma IncompleteAnnounces(c: Curve, proof: Octets, commitments: seq<Point>, sHat: seq<Scalar>, k: nat)
    requires c.Laws()
    requires |proof| < U64_LIMIT && |commitments| < U64_LIMIT && k < U64_LIMIT && |sHat| == |commitments|
    ensures Announces(Incomplete(c, proof, commitments, sHat, k), |proof|, |commitments|, k)
    ensures |Incomplete(c, proof, commitments, sHat, k)| == 24 + |proof| + |commitments| * (POINT_LENGTH + SCALAR_LENGTH)
  {
    hide PointsOctets, ScalarsOctets, I2osp, ReadU64;
    PointsOctetsLength(c, commitments);
    ScalarsOctetsLength(c, sHat);
    var rest, n := PointsOctets(c, commitments) + ScalarsOctets(c, sHat), |commitments|;
    var o := Incomplete(c, proof, commitments, sHat, k);
    Assoc(I2osp(|proof|, 8) + I2osp(n, 8), I2osp(k, 8), proof + rest);
    Assoc(I2osp(|proof|, 8), I2osp(n, 8), I2osp(k, 8) + (proof + rest));
    BlindProofHead(o, |proof|, n, k, proof, rest);
  }

  /** The state the first half writes is sliced by the second half into exactly the part the
      finished proof starts with and exactly the challenge, keys and randomizers that went in; the
      second half refuses it exactly when one of those is trivial; and the slice extended with the
      keys and any signatures parses back to the original proof, for all counts. */
  lemma ThreeStagesAgree(c: Curve, b: BlindProof, challenge: Scalar, rKey: seq<Scalar>)
    requires c.Laws()
    requires GoodBlindProof(c, b) && |rKey| == |b.keys|
    ensures var o := GenStateOctets(c, ProofOctets(c, b.proof), challenge, b.commitments, b.sHat, b.keys, rKey);
            var incomplete := Incomplete(c, ProofOctets(c, b.proof), b.commitments, b.sHat, |b.keys|);
            && (GenStateFromOctets(c, o).Ok? <==> challenge != c.zero && NoZero(c, rKey))
            && (GenStateFromOctets(c, o).Ok? ==>
                  GenStateFromOctets(c, o) == Ok(GenState(incomplete, challenge, b.keys, rKey)))
            && BlindProofFromOctets(c, Completed(c, incomplete, b.keys, b.sigs)) == Ok(b)
  {
    hide ProofOctets, GenStateFromOctets, BlindProofFromOctets, GenStateOctets, NoIdentity, NoZero, GenStateSegments;
    ProofOctetsLayout(c, b.proof);
    StateSlicesBack(c, ProofOctets(c, b.proof), challenge, b.commitments, b.sHat, b.keys, rKey);
    BlindProofFromOctetsIff(c, BlindProofOctets(c, b), b);
  }

  /** Stages one and two, without assuming the parts are well formed. */
  lemma StateSlicesBack(c: Curve, proof: Octets, challenge: Scalar, commitments: seq<Point>, sHat: seq<Scalar>,
                        keys: seq<Point>, rKey: seq<Scalar>)
    requires c.Laws()
    requires |proof| < U64_LIMIT && |commitments| < U64_LIMIT && |keys| < U64_LIMIT
    requires |sHat| == |commitments| && |rKey| == |keys|
    ensures var o := GenStateOctets(c, proof, challenge, commitments, sHat, keys, rKey);
            && (GenStateFromOctets(c, o).Ok? <==> challenge != c.zero && NoZero(c, rKey) && NoIdentity(c, keys))
            && (GenStateFromOctets(c, o).Ok? ==>
                  GenStateFromOctets(c, o)
                  == Ok(GenState(Incomplete(c, proof, commitments, sHat, |keys|), challenge, keys, rKey)))
  {
    hide GenStateFromOctets, GenStateOctets, NoIdentity, NoZero, ReadU64;
    var incomplete := Incomplete(c, proof, commitments, sHat, |keys|);
    var g := GenState(incomplete, challenge, keys, rKey);
    var o := GenStateOctets(c, proof, challenge, commitments, sHat, keys, rKey);
    GenStateLayout(c, proof, challenge, commitments, sHat, keys, rKey);
    IncompleteAnnounces(c, proof, commitments, sHat, |keys|);
    if challenge != c.zero && NoZero(c, rKey) && NoIdentity(c, keys) {
      GenStateReads(c, g, |proof|, |commitments|);
    }
    if GenStateFromOctets(c, o).Ok? {
      var g' := GenStateFromOctets(c, o).value;
      var len, n := GenStateAccepts(c, o);
      GenStateSegmentsInjective(c, g, g', |proof|, |commitments|, len, n);
    }
  }

  lemma GenStateSegmentsInjective(c: Curve, g: GenState, h: GenState, len: nat, n: nat, len': nat, n': nat)
    requires c.Laws()
    requires GenStateSegments(c, g) == GenStateSegments(c, h)
    requires Announces(g.incomplete, len, n, |g.keys|) && |g.rKey| == |g.keys|
    requires |g.incomplete| == 24 + len + n * (POINT_LENGTH + SCALAR_LENGTH)
    requires GoodGenState(c, h, len', n')
    ensures g == h
  {
    hide PointsOctets, ScalarsOctets, ReadU64, NoIdentity, NoZero;
    var tg := c.ScalarOctets(g.challenge) + (PointsOctets(c, g.keys) + ScalarsOctets(c, g.rKey));
    var th := c.ScalarOctets(h.challenge) + (PointsOctets(c, h.keys) + ScalarsOctets(c, h.rKey));
    AnnouncesPrefix(GenStateSegments(c, g), g.incomplete, tg, len, n, |g.keys|);
    AnnouncesPrefix(GenStateSegments(c, h), h.incomplete, th, len', n', |h.keys|);
    assert len == len' && n == n' && |g.keys| == |h.keys|;
    SplitEqual(g.incomplete, tg, h.incomplete, th);
    c.ScalarFromBeIff([], g.challenge);
    c.ScalarFromBeIff([], h.challenge);
    SplitEqual(c.ScalarOctets(g.challenge), PointsOctets(c, g.keys) + ScalarsOctets(c, g.rKey),
               c.ScalarOctets(h.challenge), PointsOctets(c, h.keys) + ScalarsOctets(c, h.rKey));
    c.ScalarOctetsInjective(g.challenge, h.challenge);
    PointsOctetsLength(c, g.keys);
    PointsOctetsLength(c, h.keys);
    SplitEqual(PointsOctets(c, g.keys), ScalarsOctets(c, g.rKey), PointsOctets(c, h.keys), ScalarsOctets(c, h.rKey));
    PointsOctetsInjective(c, g.keys, h.keys);
    ScalarsOctetsInjective(c, g.rKey, h.rKey);
  }

  lemma {:induction false} PointsOctetsInjective(c: Curve, a: seq<Point>, b: seq<Point>)
    requires c.Laws()
    requires |a| == |b| && PointsOctets(c, a) == PointsOctets(c, b)
    ensures a == b
  {
    if a != [] {
      var n := |a| - 1;
      PointsOctetsLength(c, a[..n]);
      PointsOctetsLength(c, b[..n]);
      SplitEqual(PointsOctets(c, a[..n]), c.compressed(a[n]), PointsOctets(c, b[..n]), c.compressed(b[n]));
      PointsOctetsInjective(c, a[..n], b[..n]);
      c.PointOctetsInjective(a[n], b[n]);
      assert a == a[..n] + [a[n]] && b == b[..n] + [b[n]];
    }
  }

  lemma {:induction false} ScalarsOctetsInjective(c: Curve, a: seq<Scalar>, b: seq<Scalar>)
    requires c.Laws()
    requires |a| == |b| && ScalarsOctets(c, a) == ScalarsOctets(c, b)
    ensures a == b
  {
    if a != [] {
      var n := |a| - 1;
      ScalarsOctetsLength(c, a[..n]);
      ScalarsOctetsLength(c, b[..n]);
      SplitEqual(ScalarsOctets(c, a[..n]), c.ScalarOctets(a[n]), ScalarsOctets(c, b[..n]), c.ScalarOctets(b[n]));
      ScalarsOctetsInjective(c, a[..n], b[..n]);
      c.ScalarOctetsInjective(a[n], b[n]);
      assert a == a[..n] + [a[n]] && b == b[..n] + [b[n]];
    }
  }
}
