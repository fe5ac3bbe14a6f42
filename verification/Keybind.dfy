/** The Schnorr key binding scheme (`src/keybind.rs`). */
module Keybind {
  import opened Wrappers
  import opened Octets
  import opened Curves
  import opened Serialize
  import opened Bbs

  const MAX_ATTEMPTS: nat := 64

  /** Tag, then both coordinates. */
  function NonceOctets(c: Curve, r: Point): Octets {
    [4] + c.uncompressed(r)
  }

  // ---- The two challenge hashes ----

  /** Unreduced: no scalar when the digest is not below the group order. */
  function ChallengeHash(c: Curve, msg: Octets): Option<Scalar> {
    c.fromBeBytes(c.sha256(msg))
  }

  function ChallengeHashReduced(c: Curve, msg: Octets): Scalar {
    c.ofInt(Os2ip(c.sha256(msg)))
  }

  function Le2ip(o: Octets): nat {
    if o == [] then 0 else o[0] as int + 256 * Le2ip(o[1..])
  }

  function Reversed(o: Octets): (r: Octets)
    ensures |r| == |o|
    ensures forall i :: 0 <= i < |o| ==> r[i] == o[|o| - 1 - i]
  {
    seq(|o|, i requires 0 <= i < |o| => o[|o| - 1 - i])
  }

  lemma {:induction false} LittleEndianOfZeros(n: nat)
    ensures Le2ip(Zeros(n)) == 0
  {
    if n > 0 {
      assert Zeros(n)[1..] == Zeros(n - 1);
      LittleEndianOfZeros(n - 1);
    }
  }

  /** Reading the reversed octets from the low end is reading the octets from the high end. */
  lemma {:induction false} LittleEndianOfReversed(o: Octets, pad: nat)
    ensures Le2ip(Reversed(o) + Zeros(pad)) == Os2ip(o)
  {
    if o == [] {
      assert Reversed(o) + Zeros(pad) == Zeros(pad);
      LittleEndianOfZeros(pad);
    } else {
      var front := o[..|o| - 1];
      assert (Reversed(o) + Zeros(pad))[1..] == Reversed(front) + Zeros(pad);
      LittleEndianOfReversed(front, pad);
    }
  }

  /** Fills the low half of a 64-octet little-endian buffer with the reversed digest and reduces
      it; this is the big-endian digest reduced. */
  method ReduceDigest(c: Curve, msg: Octets) returns (s: Scalar)
    requires c.Laws()
    ensures s == ChallengeHashReduced(c, msg)
  {
    hide Le2ip, Os2ip;
    var digest := c.sha256(msg);
    assert |digest| == 32 by { assert c.HashLaws(msg); }
    var wide := new byte[64](_ => 0);
    for i := 0 to 32
      invariant forall k :: 0 <= k < i ==> wide[k] == digest[31 - k]
      invariant forall k :: i <= k < 64 ==> wide[k] == 0
    {
      wide[i] := digest[31 - i];
    }
    LittleEndianOfReversed(digest, 32);
    assert wide[..] == Reversed(digest) + Zeros(32);
    s := c.ofInt(Le2ip(wide[..]));
  }

  /** The signer's hash accepts exactly the digests below the order, and there the verifier's
      reducing hash returns the same scalar. */
  lemma HashesAgree(c: Curve, msg: Octets)
    requires c.Laws()
    ensures ChallengeHash(c, msg).Some? <==> Os2ip(c.sha256(msg)) < c.order
    ensures ChallengeHash(c, msg).Some? ==> ChallengeHash(c, msg).value == ChallengeHashReduced(c, msg)
  {
    var digest := c.sha256(msg);
    assert c.HashLaws(msg);
    assert c.ScalarCodecLaws(c.zero, 0, digest);
  }

  // ---- Signatures ----

  datatype SchnorrPair = SchnorrPair(s: Scalar, c: Scalar)

  function Parse(c: Curve, sig: Octets): Result<SchnorrPair> {
    if |sig| != SIGNATURE_LENGTH then Err(InvalidLength)
    else
      var s :- c.ScalarFromBe(sig[..SCALAR_LENGTH]);
      var ch :- c.ScalarFromBe(sig[SCALAR_LENGTH..]);
      Ok(SchnorrPair(s, ch))
  }

  function PairOctets(c: Curve, pair: SchnorrPair): Octets {
    SerOctets(c, [Scl(pair.s), Scl(pair.c)])
  }

  lemma ParseIff(c: Curve, sig: Octets, pair: SchnorrPair)
    requires c.Laws()
    ensures Parse(c, sig) == Ok(pair) <==> sig == PairOctets(c, pair)
    ensures |PairOctets(c, pair)| == SIGNATURE_LENGTH
  {
    SerTwo(c, Scl(pair.s), Scl(pair.c));
    c.ScalarFromBeIff([], pair.s);
    c.ScalarFromBeIff([], pair.c);
    if |sig| == SIGNATURE_LENGTH {
      var front, back := sig[..SCALAR_LENGTH], sig[SCALAR_LENGTH..];
      c.ScalarFromBeIff(front, pair.s);
      c.ScalarFromBeIff(back, pair.c);
      assert sig == front + back;
      if sig == PairOctets(c, pair) {
        SplitEqual(front, back, c.ScalarOctets(pair.s), c.ScalarOctets(pair.c));
      }
    }
  }

  /** One attempt with nonce `k`; no signature when the digest is out of range. */
  function Attempt(c: Curve, hk: Point, sk: Scalar, msg: Octets, k: Scalar): Option<Octets> {
    match ChallengeHash(c, NonceOctets(c, c.Mul(hk, k)) + msg)
    case None => None
    case Some(ch) => Some(PairOctets(c, SchnorrPair(c.SAdd(k, c.SMul(sk, ch)), ch)))
  }

  /** The retry loop from attempt `from` on: `nonces[i]` is what the source draws for attempt `i`. */
  function SignFrom(c: Curve, hk: Point, sk: Scalar, msg: Octets, nonces: seq<Scalar>, from: nat): Result<Octets>
    requires from <= |nonces|
    decreases |nonces| - from
  {
    if from == |nonces| then Err(SignerFailed)
    else match Attempt(c, hk, sk, msg, nonces[from])
         case Some(sig) => Ok(sig)
         case None => SignFrom(c, hk, sk, msg, nonces, from + 1)
  }

  function Sign(c: Curve, hk: Point, sk: Scalar, msg: Octets, nonces: seq<Scalar>): Result<Octets> {
    SignFrom(c, hk, sk, msg, nonces, 0)
  }

  method SignWithRetry(c: Curve, hk: Point, sk: Scalar, msg: Octets, nonces: seq<Scalar>) returns (r: Result<Octets>)
    requires |nonces| == MAX_ATTEMPTS
    ensures r == Sign(c, hk, sk, msg, nonces)
  {
    for attempt := 0 to MAX_ATTEMPTS
      invariant Sign(c, hk, sk, msg, nonces) == SignFrom(c, hk, sk, msg, nonces, attempt)
    {
      var k := nonces[attempt];
      var h := ChallengeHash(c, NonceOctets(c, c.Mul(hk, k)) + msg);
      if h.Some? {
        return Ok(PairOctets(c, SchnorrPair(c.SAdd(k, c.SMul(sk, h.value)), h.value)));
      }
    }
    r := Err(SignerFailed);
  }

  /** `R = s * hk - c * pk` */
  function RecoveredNonce(c: Curve, hk: Point, pk: Point, pair: SchnorrPair): Point {
    c.Sub(c.Mul(hk, pair.s), c.Mul(pk, pair.c))
  }

  function Verify(c: Curve, hk: Point, pk: Point, sig: Octets, msg: Octets): Result<()> {
    var pair :- Parse(c, sig);
    Need(ChallengeHashReduced(c, NonceOctets(c, RecoveredNonce(c, hk, pk, pair)) + msg) == pair.c, VerificationFailed)
  }

  /** The digest of a nonce point and a message, reduced. */
  function NonceHash(c: Curve, r: Point, msg: Octets): Scalar {
    c.ofInt(Os2ip(c.sha256([4] + c.uncompressed(r) + msg)))
  }

  /** `s * hk == r + c * pk`, where `c` is the hash of the nonce point `r` and the message. */
  predicate Proves(c: Curve, hk: Point, pk: Point, pair: SchnorrPair, r: Point, msg: Octets) {
    c.Mul(hk, pair.s) == c.Add(r, c.Mul(pk, pair.c)) && pair.c == NonceHash(c, r, msg)
  }

  /** `sig` is the 64 octets of a pair that proves knowledge of the key behind `pk`, bound to `msg`. */
  ghost predicate ProvesKey(c: Curve, hk: Point, pk: Point, sig: Octets, msg: Octets) {
    exists pair: SchnorrPair, r: Point :: sig == c.ScalarOctets(pair.s) + c.ScalarOctets(pair.c) && Proves(c, hk, pk, pair, r, msg)
  }

  lemma NonceSolves(c: Curve, hk: Point, pk: Point, pair: SchnorrPair, r: Point)
    requires c.Laws()
    ensures c.Mul(hk, pair.s) == c.Add(r, c.Mul(pk, pair.c)) <==> r == RecoveredNonce(c, hk, pk, pair)
  {
    var x, y := c.Mul(hk, pair.s), c.Mul(pk, pair.c);
    c.SubAfterAdd(r, y);
    assert c.Add(c.Sub(x, y), y) == x by { c.AddAC(); }
  }

  lemma PairOctetsAre(c: Curve, pair: SchnorrPair)
    ensures PairOctets(c, pair) == c.ScalarOctets(pair.s) + c.ScalarOctets(pair.c)
  {
    SerTwo(c, Scl(pair.s), Scl(pair.c));
  }

  /** On a well-formed signature verification is the Schnorr equation over the hash it names. */
  lemma VerifyPairIff(c: Curve, hk: Point, pk: Point, pair: SchnorrPair, msg: Octets)
    requires c.Laws()
    ensures Verify(c, hk, pk, PairOctets(c, pair), msg).Ok? <==>
            Proves(c, hk, pk, pair, c.Sub(c.Mul(hk, pair.s), c.Mul(pk, pair.c)), msg)
  {
    ParseIff(c, PairOctets(c, pair), pair);
    NonceSolves(c, hk, pk, pair, RecoveredNonce(c, hk, pk, pair));
  }

  /** Of all octet strings, exactly those are accepted that prove the key for this message. */
  lemma VerifyIff(c: Curve, hk: Point, pk: Point, sig: Octets, msg: Octets)
    requires c.Laws()
    ensures Verify(c, hk, pk, sig, msg).Ok? <==> ProvesKey(c, hk, pk, sig, msg)
  {
    hide NonceHash, Verify, Parse, PairOctets;
    if Verify(c, hk, pk, sig, msg).Ok? {
      VerifyParses(c, hk, pk, sig, msg);
      var pair := Parse(c, sig).value;
      ParseIff(c, sig, pair);
      PairOctetsAre(c, pair);
      VerifyPairIff(c, hk, pk, pair, msg);
    }
    if ProvesKey(c, hk, pk, sig, msg) {
      var pair: SchnorrPair, r: Point :| sig == c.ScalarOctets(pair.s) + c.ScalarOctets(pair.c) && Proves(c, hk, pk, pair, r, msg);
      PairOctetsAre(c, pair);
      NonceSolves(c, hk, pk, pair, r);
      VerifyPairIff(c, hk, pk, pair, msg);
    }
  }

  lemma VerifyParses(c: Curve, hk: Point, pk: Point, sig: Octets, msg: Octets)
    ensures Verify(c, hk, pk, sig, msg).Ok? ==> Parse(c, sig).Ok?
  {
  }

  /** A signature of the signer, checked under any key and for any message: the verifier recovers the nonce
      point shifted by the difference of the keys, and accepts exactly when that point and that message
      hash to the challenge the signer got. */
  lemma SignedVerifiesIff(c: Curve, hk: Point, sk: Scalar, msg: Octets, nonces: seq<Scalar>, pk: Point, other: Octets)
    returns (k: Scalar, ch: Scalar)
    requires c.Laws()
    requires Sign(c, hk, sk, msg, nonces).Ok?
    ensures k in nonces && ch == NonceHash(c, c.Mul(hk, k), msg)
    ensures Sign(c, hk, sk, msg, nonces) == Ok(PairOctets(c, SchnorrPair(c.SAdd(k, c.SMul(sk, ch)), ch)))
    ensures Verify(c, hk, pk, Sign(c, hk, sk, msg, nonces).value, other).Ok? <==>
            NonceHash(c, c.Add(c.Mul(hk, k), c.Mul(c.Sub(c.Mul(hk, sk), pk), ch)), other) == ch
  {
    hide PairOctets, Verify, NonceHash;
    k, ch := SignFromIs(c, hk, sk, msg, nonces, 0);
    var pair := SchnorrPair(c.SAdd(k, c.SMul(sk, ch)), ch);
    VerifyPairIff(c, hk, pk, pair, other);
    ShiftedNonce(c, hk, sk, k, ch, pk);
    NonceSolves(c, hk, pk, pair, RecoveredNonce(c, hk, pk, pair));
  }

  lemma ShiftedNonce(c: Curve, hk: Point, sk: Scalar, k: Scalar, ch: Scalar, pk: Point)
    requires c.Laws()
    ensures c.Sub(c.Mul(hk, c.SAdd(k, c.SMul(sk, ch))), c.Mul(pk, ch))
         == c.Add(c.Mul(hk, k), c.Mul(c.Sub(c.Mul(hk, sk), pk), ch))
  {
    c.MulAdd(hk, k, c.SMul(sk, ch));
    c.MulMul(hk, sk, ch);
    c.AddMul(c.Mul(hk, sk), c.Neg(pk), ch);
    c.MulNeg(pk, ch);
    c.AddAC();
  }

  lemma {:induction false} SignFromIs(c: Curve, hk: Point, sk: Scalar, msg: Octets, nonces: seq<Scalar>, from: nat)
    returns (k: Scalar, ch: Scalar)
    requires c.Laws() && from <= |nonces|
    requires SignFrom(c, hk, sk, msg, nonces, from).Ok?
    ensures k in nonces && ch == NonceHash(c, c.Mul(hk, k), msg)
    ensures SignFrom(c, hk, sk, msg, nonces, from) == Ok(PairOctets(c, SchnorrPair(c.SAdd(k, c.SMul(sk, ch)), ch)))
    decreases |nonces| - from
  {
    k := nonces[from];
    var input := NonceOctets(c, c.Mul(hk, k)) + msg;
    HashesAgree(c, input);
    match ChallengeHash(c, input) {
      case None =>
        k, ch := SignFromIs(c, hk, sk, msg, nonces, from + 1);
      case Some(value) =>
        ch := value;
    }
  }

  /** The same digest octets mean the same nonce point and the same message. */
  lemma NonceInputInjective(c: Curve, r: Point, msg: Octets, r': Point, msg': Octets)
    requires c.Laws()
    requires [4] + c.uncompressed(r) + msg == [4] + c.uncompressed(r') + msg'
    ensures r == r' && msg == msg'
  {
    assert c.PointCodecLaws(r, []) && c.PointCodecLaws(r', []);
    var head, head' := [4] + c.uncompressed(r), [4] + c.uncompressed(r');
    SplitEqual(head, msg, head', msg');
    assert head[1..] == c.uncompressed(r) && head'[1..] == c.uncompressed(r');
    assert c.PointLaws(r, r', r, c.zero, c.zero);
  }

  /** Two different octet strings whose digests reduce to one scalar. */
  predicate DigestsCollide(c: Curve, a: Octets, b: Octets) {
    a != b && c.ofInt(Os2ip(c.sha256(a))) == c.ofInt(Os2ip(c.sha256(b)))
  }

  /** A signature of the signer that is accepted for another message, or under another key when its challenge is
      not zero, exhibits a collision between what the signer hashed and what the verifier did. */
  lemma MisusedSignatureCollides(c: Curve, hk: Point, sk: Scalar, msg: Octets, nonces: seq<Scalar>, pk: Point, other: Octets)
    returns (k: Scalar, ch: Scalar)
    requires c.Laws()
    requires Sign(c, hk, sk, msg, nonces).Ok?
    requires Verify(c, hk, pk, Sign(c, hk, sk, msg, nonces).value, other).Ok?
    ensures Sign(c, hk, sk, msg, nonces) == Ok(PairOctets(c, SchnorrPair(c.SAdd(k, c.SMul(sk, ch)), ch)))
    ensures other != msg || (pk != c.Mul(hk, sk) && ch != c.zero) ==>
              DigestsCollide(c, [4] + c.uncompressed(c.Mul(hk, k)) + msg,
                             [4] + c.uncompressed(c.Add(c.Mul(hk, k), c.Mul(c.Sub(c.Mul(hk, sk), pk), ch))) + other)
  {
    hide Sign, Verify, PairOctets;
    k, ch := SignedVerifiesIff(c, hk, sk, msg, nonces, pk, other);
    var r, d := c.Mul(hk, k), c.Mul(c.Sub(c.Mul(hk, sk), pk), ch);
    var r' := c.Add(r, d);
    if [4] + c.uncompressed(r) + msg == [4] + c.uncompressed(r') + other {
      NonceInputInjective(c, r, msg, r', other);
      if ch != c.zero {
        assert c.Add(r, d) == c.Add(r, c.identity) by { c.AddAC(); }
        c.AddCancels(r, d, c.identity);
        c.MulInverse(c.Sub(c.Mul(hk, sk), pk), ch);
        c.SubIsIdentity(c.Mul(hk, sk), pk);
      }
    }
  }

  function AdaptSig(c: Curve, sig: Octets, rKey: Scalar): Result<Octets> {
    var pair :- Parse(c, sig);
    Ok(PairOctets(c, SchnorrPair(c.SAdd(pair.s, c.SMul(pair.c, rKey)), pair.c)))
  }

  lemma {:induction false} SignFromVerifies(c: Curve, hk: Point, sk: Scalar, msg: Octets, nonces: seq<Scalar>, from: nat)
    requires c.Laws() && from <= |nonces|
    requires SignFrom(c, hk, sk, msg, nonces, from).Ok?
    ensures Verify(c, hk, c.Mul(hk, sk), SignFrom(c, hk, sk, msg, nonces, from).value, msg).Ok?
    ensures |SignFrom(c, hk, sk, msg, nonces, from).value| == SIGNATURE_LENGTH
    decreases |nonces| - from
  {
    var k := nonces[from];
    var input := NonceOctets(c, c.Mul(hk, k)) + msg;
    match ChallengeHash(c, input) {
      case None =>
        SignFromVerifies(c, hk, sk, msg, nonces, from + 1);
      case Some(ch) =>
        var pair := SchnorrPair(c.SAdd(k, c.SMul(sk, ch)), ch);
        ParseIff(c, PairOctets(c, pair), pair);
        c.MulAdd(hk, k, c.SMul(sk, ch));
        c.MulMul(hk, sk, ch);
        c.SubAfterAdd(c.Mul(hk, k), c.Mul(c.Mul(hk, sk), ch));
        assert RecoveredNonce(c, hk, c.Mul(hk, sk), pair) == c.Mul(hk, k);
        HashesAgree(c, input);
    }
  }

  /** A signature from whichever attempt verifies under the signer's public key. */
  lemma SignVerifies(c: Curve, hk: Point, sk: Scalar, msg: Octets, nonces: seq<Scalar>)
    requires c.Laws()
    requires Sign(c, hk, sk, msg, nonces).Ok?
    ensures Verify(c, hk, c.Mul(hk, sk), Sign(c, hk, sk, msg, nonces).value, msg).Ok?
    ensures |Sign(c, hk, sk, msg, nonces).value| == SIGNATURE_LENGTH
  {
    SignFromVerifies(c, hk, sk, msg, nonces, 0);
  }

  lemma AdaptRearranged(c: Curve, s: Point, x: Point, p: Point)
    requires c.Laws()
    ensures c.Sub(c.Add(s, x), c.Add(p, x)) == c.Sub(s, p)
  {
    c.NegOfSum(p, x);
    c.AddAC();
  }

  lemma AdaptedNonce(c: Curve, hk: Point, pk: Point, pair: SchnorrPair, r: Scalar)
    requires c.Laws()
    ensures RecoveredNonce(c, hk, c.Add(pk, c.Mul(hk, r)), SchnorrPair(c.SAdd(pair.s, c.SMul(pair.c, r)), pair.c))
         == RecoveredNonce(c, hk, pk, pair)
  {
    c.MulAdd(hk, pair.s, c.SMul(pair.c, r));
    c.AddMul(pk, c.Mul(hk, r), pair.c);
    c.MulMul(hk, pair.c, r);
    c.MulMul(hk, r, pair.c);
    AdaptRearranged(c, c.Mul(hk, pair.s), c.Mul(hk, c.SMul(pair.c, r)), c.Mul(pk, pair.c));
  }

  /** Adapting succeeds on every well-formed signature, and the adapted signature verifies under the
      randomized key exactly when the original verifies under the original key. */
  lemma AdaptVerifiesIff(c: Curve, hk: Point, pk: Point, sig: Octets, r: Scalar, msg: Octets)
    requires c.Laws()
    ensures AdaptSig(c, sig, r).Ok? <==> Parse(c, sig).Ok?
    ensures Verify(c, hk, pk, sig, msg).Ok? <==>
            AdaptSig(c, sig, r).Ok? && Verify(c, hk, c.Add(pk, c.Mul(hk, r)), AdaptSig(c, sig, r).value, msg).Ok?
    ensures AdaptSig(c, sig, r).Ok? ==> |AdaptSig(c, sig, r).value| == SIGNATURE_LENGTH
  {
    if Parse(c, sig).Ok? {
      var pair := Parse(c, sig).value;
      var adapted := SchnorrPair(c.SAdd(pair.s, c.SMul(pair.c, r)), pair.c);
      ParseIff(c, PairOctets(c, adapted), adapted);
      AdaptedNonce(c, hk, pk, pair, r);
    }
  }

  /** Adapting twice is adapting once by the sum. */
  lemma AdaptTwice(c: Curve, sig: Octets, r1: Scalar, r2: Scalar)
    requires c.Laws()
    requires AdaptSig(c, sig, r1).Ok?
    ensures AdaptSig(c, AdaptSig(c, sig, r1).value, r2) == AdaptSig(c, sig, c.SAdd(r1, r2))
  {
    var pair := Parse(c, sig).value;
    var once := SchnorrPair(c.SAdd(pair.s, c.SMul(pair.c, r1)), pair.c);
    ParseIff(c, PairOctets(c, once), once);
    assert c.ScalarLaws(pair.s, c.SMul(pair.c, r1), c.SMul(pair.c, r2));
    assert c.ScalarLaws(r1, r2, pair.c);
    assert c.ScalarLaws(pair.c, r1, r1) && c.ScalarLaws(pair.c, r2, r2) && c.ScalarLaws(pair.c, c.SAdd(r1, r2), r1);
  }

  /** Two proofs with one nonce point and different challenges give away the signing key: it is the quotient of
      the differences. */
  lemma SchnorrExtracts(c: Curve, hk: Point, pk: Point, p: SchnorrPair, q: SchnorrPair, r: Point, msg: Octets, msg': Octets)
    requires c.Laws()
    requires Proves(c, hk, pk, p, r, msg) && Proves(c, hk, pk, q, r, msg')
    requires p.c != q.c
    ensures pk == c.Mul(hk, c.SMul(c.SSub(p.s, q.s), c.PerDifference(p.c, q.c)))
  {
    NonceSolves(c, hk, pk, p, r);
    NonceSolves(c, hk, pk, q, r);
    var dc := c.SSub(p.c, q.c);
    c.SSubZero(p.c, q.c);
    c.MulInverse(pk, dc);
    var inv := c.invS(dc).value;
    c.MulAdd(hk, p.s, q.s);
    c.MulAdd(pk, p.c, q.c);
    DifferencesAgree(c, c.Mul(hk, p.s), c.Mul(pk, p.c), c.Mul(hk, q.s), c.Mul(pk, q.c));
    assert c.Mul(hk, c.SSub(p.s, q.s)) == c.Mul(pk, dc);
    c.MulMul(hk, c.SSub(p.s, q.s), inv);
  }

  lemma DifferencesAgree(c: Curve, a: Point, b: Point, x: Point, y: Point)
    requires c.Laws()
    requires c.Sub(a, b) == c.Sub(x, y)
    ensures c.Sub(a, x) == c.Sub(b, y)
  {
    var d := c.Sub(a, b);
    assert a == c.Add(d, b) && x == c.Add(d, y) by { c.AddAC(); }
    c.NegOfSum(d, y);
    SubOfShifted(c, d, b, y);
  }

  lemma SubOfShifted(c: Curve, d: Point, b: Point, y: Point)
    requires c.Laws()
    ensures c.Sub(c.Add(d, b), c.Add(d, y)) == c.Sub(b, y)
  {
    c.NegOfSum(d, y);
    c.AddAC();
  }
}
