/** The octets hashed for the domain and for the two challenges determine every field that went in. */
module ChallengeInputs {
  import opened Octets
  import opened Curves
  import opened Serialize
  import opened Injective
  import opened Suites
  import opened Bbs
  import opened Issuance
  import opened Presentation

  predicate SmallIndexes(indexes: seq<nat>) {
    |indexes| < U64_LIMIT && forall i :: 0 <= i < |indexes| ==> indexes[i] < U64_LIMIT
  }

  lemma PointItemsShape(a: seq<Point>, b: seq<Point>)
    requires |a| == |b|
    ensures SameShape(PointItems(a), PointItems(b))
  {
  }

  lemma ShapeConcat(a: seq<Ser>, b: seq<Ser>, x: seq<Ser>, y: seq<Ser>)
    requires SameShape(a, x) && SameShape(b, y)
    ensures SameShape(a + b, x + y)
  {
  }

  // ---- The domain ----

  lemma DomainForm(s: Suite, pk: Octets, q1: Point, hs: seq<Point>, header: Octets)
    ensures DomainOctets(s, pk, q1, hs, header)
         == pk + (SerOctets(s.curve, [U64(|hs|), G1(q1)])
                  + (SerOctets(s.curve, PointItems(hs)) + (s.apiId + (I2osp(|header|, 8) + header))))
  {
    hide SerOctets, I2osp;
    SerConcat(s.curve, [U64(|hs|), G1(q1)], PointItems(hs));
    var a, b, tail := SerOctets(s.curve, [U64(|hs|), G1(q1)]), SerOctets(s.curve, PointItems(hs)), I2osp(|header|, 8);
    Assoc(pk + (a + b) + s.apiId, tail, header);
    Assoc(pk + (a + b), s.apiId, tail + header);
    Assoc(pk, a + b, s.apiId + (tail + header));
    Assoc(a, b, s.apiId + (tail + header));
  }

  /** Two domains hashed from the same octets have the same key, generators and header. */
  lemma DomainInjective(s: Suite, pk: Octets, q1: Point, hs: seq<Point>, header: Octets,
                        pk': Octets, q1': Point, hs': seq<Point>, header': Octets)
    requires s.curve.Laws()
    requires |pk| == |pk'|
    requires |hs| < U64_LIMIT && |hs'| < U64_LIMIT && |header| < U64_LIMIT && |header'| < U64_LIMIT
    requires DomainOctets(s, pk, q1, hs, header) == DomainOctets(s, pk', q1', hs', header')
    ensures pk == pk' && q1 == q1' && hs == hs' && header == header'
  {
    hide SerOctets, I2osp, DomainOctets;
    var c := s.curve;
    DomainForm(s, pk, q1, hs, header);
    DomainForm(s, pk', q1', hs', header');
    var blob, blob' := I2osp(|header|, 8) + header, I2osp(|header'|, 8) + header';
    var rest, rest' := SerOctets(c, PointItems(hs)) + (s.apiId + blob), SerOctets(c, PointItems(hs')) + (s.apiId + blob');
    var head, head' := [U64(|hs|), G1(q1)], [U64(|hs'|), G1(q1')];
    SplitEqual(pk, SerOctets(c, head) + rest, pk', SerOctets(c, head') + rest');
    SerPrefixInjective(c, head, head', rest, rest');
    assert head[0] == head'[0] && head[1] == head'[1];
    PointItemsShape(hs, hs');
    SerPrefixInjective(c, PointItems(hs), PointItems(hs'), s.apiId + blob, s.apiId + blob');
    PointItemsInjective(hs, hs');
    SplitEqual(s.apiId, blob, s.apiId, blob');
    BlobInjective(header, header');
  }

  /** The octets a domain hashes, written out. */
  lemma DomainLayout(s: Suite, pk: Octets, q1: Point, hs: seq<Point>, header: Octets)
    ensures DomainOctets(s, pk, q1, hs, header)
         == pk + I2osp(|hs|, 8) + s.curve.compressed(q1) + PointsOctets(s.curve, hs) + s.apiId + I2osp(|header|, 8) + header
  {
    hide I2osp, PointsOctets;
    SerTwo(s.curve, U64(|hs|), G1(q1));
    SerConcat(s.curve, [U64(|hs|), G1(q1)], PointItems(hs));
    SerPoints(s.curve, hs);
    var a, b, d := I2osp(|hs|, 8), s.curve.compressed(q1), PointsOctets(s.curve, hs);
    Assoc(pk, a, b + d);
    Assoc(a, b, d);
    Assoc(pk + a, b, d);
  }

  /** If two domains are equal but a key, a generator or a header is not, the two octet strings above collide. */
  lemma DomainsCollide(s: Suite, pk: Octets, q1: Point, hs: seq<Point>, header: Octets,
                       pk': Octets, q1': Point, hs': seq<Point>, header': Octets)
    requires s.Valid()
    requires |pk| == |pk'|
    requires |hs| < U64_LIMIT && |hs'| < U64_LIMIT && |header| < U64_LIMIT && |header'| < U64_LIMIT
    requires CalculateDomain(s, pk, q1, hs, header) == CalculateDomain(s, pk', q1', hs', header')
    requires pk != pk' || q1 != q1' || hs != hs' || header != header'
    ensures ScalarsCollide(s.curve, s.apiId + Ascii("H2S_"), DomainOctets(s, pk, q1, hs, header),
                           DomainOctets(s, pk', q1', hs', header'))
  {
    hide DomainOctets, Uniform;
    ValidSuiteHashes(s);
    if DomainOctets(s, pk, q1, hs, header) == DomainOctets(s, pk', q1', hs', header') {
      DomainInjective(s, pk, q1, hs, header, pk', q1', hs', header');
    }
  }

  // ---- The commitment challenge ----

  function CommitItems(com: Point, cbar: Point, gens: seq<Point>, keys: seq<Point>): seq<Ser> {
    PointItems(gens) + (PointItems(keys) + [G1(com), G1(cbar)])
  }

  /** Two commitment challenges hashed from the same octets cover the same commitment, `Cbar`,
      generators and keys. */
  lemma BlindChallengeInjective(c: Curve, com: Point, cbar: Point, gens: seq<Point>, keys: seq<Point>,
                                com': Point, cbar': Point, gens': seq<Point>, keys': seq<Point>)
    requires c.Laws()
    requires |keys| + 1 <= |gens| < U64_LIMIT && |keys'| + 1 <= |gens'| < U64_LIMIT
    requires BlindChallengeOctets(c, com, cbar, gens, keys) == BlindChallengeOctets(c, com', cbar', gens', keys')
    ensures com == com' && cbar == cbar' && gens == gens' && keys == keys'
  {
    hide SerOctets;
    var head, head' := [U64(|gens| - 1 - |keys|), U64(|keys|)], [U64(|gens'| - 1 - |keys'|), U64(|keys'|)];
    var x, y := CommitItems(com, cbar, gens, keys), CommitItems(com', cbar', gens', keys');
    assert head + PointItems(gens) + PointItems(keys) + [G1(com), G1(cbar)] == head + x;
    assert head' + PointItems(gens') + PointItems(keys') + [G1(com'), G1(cbar')] == head' + y;
    SerConcat(c, head, x);
    SerConcat(c, head', y);
    SerPrefixInjective(c, head, head', SerOctets(c, x), SerOctets(c, y));
    assert head[0] == head'[0] && head[1] == head'[1];
    SerInjective(c, x, y);
    SplitEqual(PointItems(gens), PointItems(keys) + [G1(com), G1(cbar)], PointItems(gens'), PointItems(keys') + [G1(com'), G1(cbar')]);
    SplitEqual(PointItems(keys), [G1(com), G1(cbar)], PointItems(keys'), [G1(com'), G1(cbar')]);
    PointItemsInjective(gens, gens');
    PointItemsInjective(keys, keys');
    assert [G1(com), G1(cbar)][0] == [G1(com'), G1(cbar')][0] && [G1(com), G1(cbar)][1] == [G1(com'), G1(cbar')][1];
  }

  /** The octets a commitment challenge hashes, written out. */
  lemma BlindChallengeLayout(c: Curve, com: Point, cbar: Point, gens: seq<Point>, keys: seq<Point>)
    requires |gens| >= |keys| + 1
    ensures BlindChallengeOctets(c, com, cbar, gens, keys)
         == I2osp(|gens| - 1 - |keys|, 8) + I2osp(|keys|, 8) + PointsOctets(c, gens) + PointsOctets(c, keys)
            + (c.compressed(com) + c.compressed(cbar))
  {
    hide I2osp, PointsOctets, SerOctets;
    var head := [U64(|gens| - 1 - |keys|), U64(|keys|)];
    SerTwo(c, U64(|gens| - 1 - |keys|), U64(|keys|));
    SerTwo(c, G1(com), G1(cbar));
    SerConcat(c, head, PointItems(gens));
    SerConcat(c, head + PointItems(gens), PointItems(keys));
    SerConcat(c, head + PointItems(gens) + PointItems(keys), [G1(com), G1(cbar)]);
    SerPoints(c, gens);
    SerPoints(c, keys);
  }

  /** If two commitment challenges are equal but something they cover is not, the two octet strings collide. */
  lemma BlindChallengesCollide(s: Suite, com: Point, cbar: Point, gens: seq<Point>, keys: seq<Point>,
                               com': Point, cbar': Point, gens': seq<Point>, keys': seq<Point>)
    requires s.Valid()
    requires |keys| + 1 <= |gens| < U64_LIMIT && |keys'| + 1 <= |gens'| < U64_LIMIT
    requires BlindChallenge(s, com, cbar, gens, keys) == BlindChallenge(s, com', cbar', gens', keys')
    requires com != com' || cbar != cbar' || gens != gens' || keys != keys'
    ensures ScalarsCollide(s.curve, s.apiId + Ascii("H2S_"), BlindChallengeOctets(s.curve, com, cbar, gens, keys),
                           BlindChallengeOctets(s.curve, com', cbar', gens', keys'))
  {
    hide BlindChallengeOctets, Uniform;
    ValidSuiteHashes(s);
    if BlindChallengeOctets(s.curve, com, cbar, gens, keys) == BlindChallengeOctets(s.curve, com', cbar', gens', keys') {
      BlindChallengeInjective(s.curve, com, cbar, gens, keys, com', cbar', gens', keys');
    }
  }

  // ---- The presentation challenge ----

  lemma {:induction false} IndexedScalarsAt(indexes: seq<nat>, scalars: seq<Scalar>)
    requires |indexes| == |scalars|
    ensures var items := IndexedScalars(indexes, scalars);
            |items| == 2 * |indexes|
            && forall i :: 0 <= i < |indexes| ==> items[2 * i] == U64(indexes[i]) && items[2 * i + 1] == Scl(scalars[i])
  {
    if indexes != [] {
      var n := |indexes| - 1;
      IndexedScalarsAt(indexes[..n], scalars[..n]);
    }
  }

  lemma {:induction false} IndexedPointsAt(indexes: seq<nat>, points: seq<Point>, proofs: seq<Point>)
    requires |indexes| == |points| == |proofs|
    ensures var items := IndexedPoints(indexes, points, proofs);
            |items| == 3 * |indexes|
            && forall i :: 0 <= i < |indexes| ==>
                 items[3 * i] == U64(indexes[i]) && items[3 * i + 1] == G1(points[i]) && items[3 * i + 2] == G1(proofs[i])
  {
    if indexes != [] {
      var n := |indexes| - 1;
      IndexedPointsAt(indexes[..n], points[..n], proofs[..n]);
    }
  }

  lemma {:induction false} IndexedScalarsShape(a: seq<nat>, x: seq<Scalar>, b: seq<nat>, y: seq<Scalar>)
    requires |a| == |x| == |b| == |y| && SmallIndexes(a) && SmallIndexes(b)
    ensures SameShape(IndexedScalars(a, x), IndexedScalars(b, y))
  {
    if a != [] {
      var n := |a| - 1;
      IndexedScalarsShape(a[..n], x[..n], b[..n], y[..n]);
      ShapeConcat(IndexedScalars(a[..n], x[..n]), [U64(a[n]), Scl(x[n])], IndexedScalars(b[..n], y[..n]), [U64(b[n]), Scl(y[n])]);
    }
  }

  lemma {:induction false} IndexedPointsShape(a: seq<nat>, x: seq<Point>, p: seq<Point>, b: seq<nat>, y: seq<Point>, q: seq<Point>)
    requires |a| == |x| == |p| == |b| == |y| == |q| && SmallIndexes(a) && SmallIndexes(b)
    ensures SameShape(IndexedPoints(a, x, p), IndexedPoints(b, y, q))
  {
    if a != [] {
      var n := |a| - 1;
      IndexedPointsShape(a[..n], x[..n], p[..n], b[..n], y[..n], q[..n]);
      ShapeConcat(IndexedPoints(a[..n], x[..n], p[..n]), [U64(a[n]), G1(x[n]), G1(p[n])],
                  IndexedPoints(b[..n], y[..n], q[..n]), [U64(b[n]), G1(y[n]), G1(q[n])]);
    }
  }

  lemma IndexedScalarsInjective(a: seq<nat>, x: seq<Scalar>, b: seq<nat>, y: seq<Scalar>)
    requires |a| == |x| == |b| == |y|
    requires IndexedScalars(a, x) == IndexedScalars(b, y)
    ensures a == b && x == y
  {
    IndexedScalarsAt(a, x);
    IndexedScalarsAt(b, y);
    forall i | 0 <= i < |a| ensures a[i] == b[i] && x[i] == y[i] {
      assert IndexedScalars(a, x)[2 * i] == IndexedScalars(b, y)[2 * i];
      assert IndexedScalars(a, x)[2 * i + 1] == IndexedScalars(b, y)[2 * i + 1];
    }
  }

  lemma IndexedPointsInjective(a: seq<nat>, x: seq<Point>, p: seq<Point>, b: seq<nat>, y: seq<Point>, q: seq<Point>)
    requires |a| == |x| == |p| == |b| == |y| == |q|
    requires IndexedPoints(a, x, p) == IndexedPoints(b, y, q)
    ensures a == b && x == y && p == q
  {
    IndexedPointsAt(a, x, p);
    IndexedPointsAt(b, y, q);
    forall i | 0 <= i < |a| ensures a[i] == b[i] && x[i] == y[i] && p[i] == q[i] {
      assert IndexedPoints(a, x, p)[3 * i] == IndexedPoints(b, y, q)[3 * i];
      assert IndexedPoints(a, x, p)[3 * i + 1] == IndexedPoints(b, y, q)[3 * i + 1];
      assert IndexedPoints(a, x, p)[3 * i + 2] == IndexedPoints(b, y, q)[3 * i + 2];
    }
  }

  function Sections(c: Curve, x: ChallengeInput): Octets
    requires x.Consistent()
  {
    SerOctets(c, [U64(|x.disclosedIndexes|)])
    + (SerOctets(c, IndexedScalars(x.disclosedIndexes, x.disclosed) + InitItems(x.init))
       + (SerOctets(c, [U64(|x.commitments|)])
          + (SerOctets(c, IndexedPoints(x.commitIndexes, x.commitments, x.proofs))
             + (SerOctets(c, [U64(|x.keys|)]) + (SerOctets(c, PointItems(x.keys)) + (I2osp(|x.ph|, 8) + x.ph))))))
  }

  lemma SectionsForm(c: Curve, x: ChallengeInput)
    requires x.Consistent()
    ensures ProofChallengeOctets(c, x) == Sections(c, x)
  {
    hide SerOctets, I2osp, IndexedScalars, IndexedPoints, InitItems, PointItems;
    var r, n, k := [U64(|x.disclosedIndexes|)], [U64(|x.commitments|)], [U64(|x.keys|)];
    var d, p, q := IndexedScalars(x.disclosedIndexes, x.disclosed) + InitItems(x.init),
                   IndexedPoints(x.commitIndexes, x.commitments, x.proofs), PointItems(x.keys);
    assert r + IndexedScalars(x.disclosedIndexes, x.disclosed) + InitItems(x.init) == r + d;
    SerConcat(c, r, d);
    SerConcat(c, n, p);
    SerConcat(c, k, q);
    FlattenSections(SerOctets(c, r), SerOctets(c, d), SerOctets(c, n), SerOctets(c, p), SerOctets(c, k), SerOctets(c, q),
                    I2osp(|x.ph|, 8), x.ph);
  }

  lemma FlattenSections(a: Octets, b: Octets, c: Octets, d: Octets, e: Octets, f: Octets, g: Octets, h: Octets)
    ensures (a + b) + (c + d) + (e + f) + g + h == a + (b + (c + (d + (e + (f + (g + h))))))
  {
    Assoc((a + b) + (c + d) + (e + f), g, h);
    Assoc((a + b) + (c + d), e + f, g + h);
    Assoc(e, f, g + h);
    Assoc(a + b, c + d, e + (f + (g + h)));
    Assoc(c, d, e + (f + (g + h)));
    Assoc(a, b, c + (d + (e + (f + (g + h)))));
  }

  predicate Small(x: ChallengeInput) {
    && x.Consistent() && SmallIndexes(x.disclosedIndexes) && SmallIndexes(x.commitIndexes)
    && |x.keys| < U64_LIMIT && |x.ph| < U64_LIMIT
  }

  /** Two presentation challenges hashed from the same octets cover the same indexes, messages,
      points, domain, commitments, randomized keys and presentation header. */
  lemma ProofChallengeInjective(c: Curve, x: ChallengeInput, y: ChallengeInput)
    requires c.Laws()
    requires Small(x) && Small(y)
    requires ProofChallengeOctets(c, x) == ProofChallengeOctets(c, y)
    ensures x == y
  {
    hide SerOctets, I2osp, ProofChallengeOctets, IndexedScalars, IndexedPoints, PointItems;
    SectionsForm(c, x);
    SectionsForm(c, y);
    var dx, dy := IndexedScalars(x.disclosedIndexes, x.disclosed), IndexedScalars(y.disclosedIndexes, y.disclosed);
    var px, py := IndexedPoints(x.commitIndexes, x.commitments, x.proofs), IndexedPoints(y.commitIndexes, y.commitments, y.proofs);
    var kx, ky := PointItems(x.keys), PointItems(y.keys);
    var blobX, blobY := I2osp(|x.ph|, 8) + x.ph, I2osp(|y.ph|, 8) + y.ph;
    var r4x, r4y := SerOctets(c, [U64(|x.keys|)]) + (SerOctets(c, kx) + blobX), SerOctets(c, [U64(|y.keys|)]) + (SerOctets(c, ky) + blobY);
    var r3x, r3y := SerOctets(c, [U64(|x.commitments|)]) + (SerOctets(c, px) + r4x), SerOctets(c, [U64(|y.commitments|)]) + (SerOctets(c, py) + r4y);
    CountSection(c, |x.disclosedIndexes|, |y.disclosedIndexes|, SerOctets(c, dx + InitItems(x.init)) + r3x, SerOctets(c, dy + InitItems(y.init)) + r3y);
    IndexedScalarsShape(x.disclosedIndexes, x.disclosed, y.disclosedIndexes, y.disclosed);
    ShapeConcat(dx, InitItems(x.init), dy, InitItems(y.init));
    SerPrefixInjective(c, dx + InitItems(x.init), dy + InitItems(y.init), r3x, r3y);
    DisclosedSection(x, y);
    CountSection(c, |x.commitments|, |y.commitments|, SerOctets(c, px) + r4x, SerOctets(c, py) + r4y);
    IndexedPointsShape(x.commitIndexes, x.commitments, x.proofs, y.commitIndexes, y.commitments, y.proofs);
    SerPrefixInjective(c, px, py, r4x, r4y);
    IndexedPointsInjective(x.commitIndexes, x.commitments, x.proofs, y.commitIndexes, y.commitments, y.proofs);
    CountSection(c, |x.keys|, |y.keys|, SerOctets(c, kx) + blobX, SerOctets(c, ky) + blobY);
    PointItemsShape(x.keys, y.keys);
    SerPrefixInjective(c, kx, ky, blobX, blobY);
    PointItemsInjective(x.keys, y.keys);
    BlobInjective(x.ph, y.ph);
  }

  /** If two presentation challenges are equal but their inputs are not, the two octet strings collide. */
  lemma ProofChallengesCollide(s: Suite, x: ChallengeInput, y: ChallengeInput)
    requires s.Valid()
    requires Small(x) && Small(y) && x != y
    requires ProofChallenge(s, x) == ProofChallenge(s, y)
    ensures ScalarsCollide(s.curve, s.apiId + Ascii("H2S_"), ProofChallengeOctets(s.curve, x), ProofChallengeOctets(s.curve, y))
  {
    hide ProofChallengeOctets, Uniform;
    ValidSuiteHashes(s);
    if ProofChallengeOctets(s.curve, x) == ProofChallengeOctets(s.curve, y) {
      ProofChallengeInjective(s.curve, x, y);
    }
  }

  lemma CountSection(c: Curve, m: nat, n: nat, x: Octets, y: Octets)
    requires c.Laws()
    requires m < U64_LIMIT && n < U64_LIMIT
    requires SerOctets(c, [U64(m)]) + x == SerOctets(c, [U64(n)]) + y
    ensures m == n && x == y
  {
    hide SerOctets;
    SerPrefixInjective(c, [U64(m)], [U64(n)], x, y);
    assert [U64(m)][0] == [U64(n)][0];
  }

  lemma DisclosedSection(x: ChallengeInput, y: ChallengeInput)
    requires x.Consistent() && y.Consistent() && |x.disclosedIndexes| == |y.disclosedIndexes|
    requires IndexedScalars(x.disclosedIndexes, x.disclosed) + InitItems(x.init)
          == IndexedScalars(y.disclosedIndexes, y.disclosed) + InitItems(y.init)
    ensures x.disclosedIndexes == y.disclosedIndexes && x.disclosed == y.disclosed && x.init == y.init
  {
    hide IndexedScalars;
    IndexedScalarsAt(x.disclosedIndexes, x.disclosed);
    IndexedScalarsAt(y.disclosedIndexes, y.disclosed);
    SplitEqual(IndexedScalars(x.disclosedIndexes, x.disclosed), InitItems(x.init),
               IndexedScalars(y.disclosedIndexes, y.disclosed), InitItems(y.init));
    IndexedScalarsInjective(x.disclosedIndexes, x.disclosed, y.disclosedIndexes, y.disclosed);
    var a, b := InitItems(x.init), InitItems(y.init);
    assert a[0] == b[0] && a[1] == b[1] && a[2] == b[2] && a[3] == b[3] && a[4] == b[4] && a[5] == b[5];
  }

  // ---- What the device signs ----

  /** The device's message for a randomized key is the digest of that key and the challenge. If two of them are
      equal but key or challenge are not, the digest collides. */
  lemma KeyChallengesCollide(c: Curve, key: Point, challenge: Scalar, key': Point, challenge': Scalar)
    requires c.Laws()
    ensures KeyChallenge(c, key, challenge) == c.sha256(c.compressed(key) + c.ScalarOctets(challenge))
    ensures KeyChallenge(c, key, challenge) == KeyChallenge(c, key', challenge') && (key != key' || challenge != challenge') ==>
              var a, b := c.compressed(key) + c.ScalarOctets(challenge), c.compressed(key') + c.ScalarOctets(challenge');
              a != b && c.sha256(a) == c.sha256(b)
  {
    SerTwo(c, G1(key), Scl(challenge));
    SerTwo(c, G1(key'), Scl(challenge'));
    assert c.PointCodecLaws(key, []) && c.PointCodecLaws(key', []);
    var a, b := c.compressed(key) + c.ScalarOctets(challenge), c.compressed(key') + c.ScalarOctets(challenge');
    if a == b {
      SplitEqual(c.compressed(key), c.ScalarOctets(challenge), c.compressed(key'), c.ScalarOctets(challenge'));
      c.PointOctetsInjective(key, key');
      c.ScalarOctetsInjective(challenge, challenge');
    }
  }
}
