/** `expand_message_xmd`, hashing to scalars and generator derivation
    (`src/util.rs`, `src/suite.rs`, section 5.3.1 of RFC 9380). */
module Suites {
  import opened Wrappers
  import opened Octets
  import opened Curves

  const B_IN_BYTES: nat := 32
  const S_IN_BYTES: nat := 64
  const EXPAND_LEN: nat := 48

  function Xor(a: byte, b: byte): byte {
    ((a as bv8) ^ (b as bv8)) as byte
  }

  function StrXor(a: Octets, b: Octets): (o: Octets)
    requires |a| == |b|
    ensures |o| == |a|
  {
    seq(|a|, i requires 0 <= i < |a| => Xor(a[i], b[i]))
  }

  function DstPrime(dst: Octets): Octets {
    dst + I2osp(|dst|, 1)
  }

  function BlockZero(c: Curve, msg: Octets, dst: Octets, len: nat): Octets {
    c.sha256(Zeros(S_IN_BYTES) + msg + I2osp(len, 2) + I2osp(0, 1) + DstPrime(dst))
  }

  lemma ShaLength(c: Curve, o: Octets)
    requires c.Laws()
    ensures |c.sha256(o)| == B_IN_BYTES
  {
    assert c.HashLaws(o);
  }

  /** Octets of width 32, whatever the hash returns. */
  function Widen(o: Octets): (w: Octets)
    ensures |w| == B_IN_BYTES
  {
    if |o| == B_IN_BYTES then o else Zeros(B_IN_BYTES)
  }

  /** `b_i` of section 5.3.1 of RFC 9380, for `i >= 1`. */
  function Block(c: Curve, msg: Octets, dst: Octets, len: nat, i: nat): (b: Octets)
    requires i >= 1
    ensures |b| == B_IN_BYTES
  {
    var b0 := Widen(BlockZero(c, msg, dst, len));
    if i == 1 then Widen(c.sha256(b0 + I2osp(1, 1) + DstPrime(dst)))
    else Widen(c.sha256(StrXor(b0, Block(c, msg, dst, len, i - 1)) + I2osp(i, 1) + DstPrime(dst)))
  }

  function Blocks(c: Curve, msg: Octets, dst: Octets, len: nat, count: nat): (o: Octets)
    ensures |o| == B_IN_BYTES * count
  {
    if count == 0 then [] else Blocks(c, msg, dst, len, count - 1) + Block(c, msg, dst, len, count)
  }

  function BlockCount(len: nat): nat {
    (len + B_IN_BYTES - 1) / B_IN_BYTES
  }

  /** `uniform_bytes` of section 5.3.1 of RFC 9380. */
  function Uniform(c: Curve, msg: Octets, dst: Octets, len: nat): (o: Octets)
    ensures |o| == len
  {
    Blocks(c, msg, dst, len, BlockCount(len))[..len]
  }

  function ExpandCheck(dst: Octets, len: nat): Result<()> {
    if |dst| > 255 then Err(InvalidLength)
    else if len > 65535 then Err(InvalidLength)
    else if BlockCount(len) > 255 then Err(TooMany)
    else Ok(())
  }

  function Expand(c: Curve, msg: Octets, dst: Octets, len: nat): Result<Octets> {
    var _ :- ExpandCheck(dst, len);
    Ok(Uniform(c, msg, dst, len))
  }

  /** The checks pass exactly for tags of at most 255 octets and outputs of at most 8160, and
      then no length or counter is cut by its one or two octet encoding. */
  lemma ExpandAcceptsIff(dst: Octets, len: nat)
    ensures ExpandCheck(dst, len).Ok? <==> |dst| <= 255 && len <= 8160
    ensures ExpandCheck(dst, len).Ok? ==>
              && Os2ip(I2osp(|dst|, 1)) == |dst|
              && Os2ip(I2osp(len, 2)) == len
              && forall i: nat :: i <= BlockCount(len) ==> Os2ip(I2osp(i, 1)) == i
  {
    Pow256Values();
    if ExpandCheck(dst, len).Ok? {
      Os2ipOfI2osp(|dst|, 1);
      Os2ipOfI2osp(len, 2);
      forall i: nat | i <= BlockCount(len) ensures Os2ip(I2osp(i, 1)) == i {
        Os2ipOfI2osp(i, 1);
      }
    }
  }

  /** The inner loop: `xored[j] = b_0[j] ^ b_prev[j]`. */
  method XorInto(xored: array<byte>, b0: Octets, prev: Octets)
    requires xored.Length == |b0| == |prev|
    modifies xored
    ensures xored[..] == StrXor(b0, prev)
  {
    for j := 0 to xored.Length
      invariant forall k :: 0 <= k < j ==> xored[k] == Xor(b0[k], prev[k])
    {
      xored[j] := Xor(b0[j], prev[j]);
    }
  }

  /** What the loop's next round hashes and appends. */
  lemma NextBlock(c: Curve, msg: Octets, dst: Octets, len: nat, i: nat, b0: Octets)
    requires c.Laws() && i >= 2
    requires b0 == BlockZero(c, msg, dst, len) && |b0| == B_IN_BYTES
    ensures Block(c, msg, dst, len, i)
         == c.sha256(StrXor(b0, Block(c, msg, dst, len, i - 1)) + I2osp(i, 1) + DstPrime(dst))
    ensures Blocks(c, msg, dst, len, i) == Blocks(c, msg, dst, len, i - 1) + Block(c, msg, dst, len, i)
  {
    hide BlockZero, StrXor, DstPrime, I2osp;
    ShaLength(c, StrXor(b0, Block(c, msg, dst, len, i - 1)) + I2osp(i, 1) + DstPrime(dst));
  }

  lemma FirstBlock(c: Curve, msg: Octets, dst: Octets, len: nat, b0: Octets)
    requires c.Laws()
    requires b0 == BlockZero(c, msg, dst, len) && |b0| == B_IN_BYTES
    ensures Block(c, msg, dst, len, 1) == c.sha256(b0 + I2osp(1, 1) + DstPrime(dst))
    ensures Blocks(c, msg, dst, len, 1) == Block(c, msg, dst, len, 1)
  {
    hide BlockZero, StrXor, DstPrime, I2osp;
    ShaLength(c, b0 + I2osp(1, 1) + DstPrime(dst));
    assert Blocks(c, msg, dst, len, 0) == [];
  }

  /** The loop that overwrites `b_prev` computes the recursive definition. */
  method ExpandMessageXmd(c: Curve, msg: Octets, dst: Octets, len: nat) returns (r: Result<Octets>)
    requires c.Laws()
    ensures r == Expand(c, msg, dst, len)
    ensures r.Ok? ==> |r.value| == len
  {
    hide I2osp, I2ospU64, Block, Blocks, StrXor;
    if |dst| > 255 || len > 65535 {
      return Err(InvalidLength);
    }
    var ell := BlockCount(len);
    if ell > 255 {
      return Err(TooMany);
    }
    I2ospU64IsPositional(|dst|, 1);
    I2ospU64IsPositional(len, 2);
    I2ospU64IsPositional(0, 1);
    I2ospU64IsPositional(1, 1);
    var dstPrime := dst + I2ospU64(|dst|, 1);
    var b0 := c.sha256(Zeros(S_IN_BYTES) + msg + I2ospU64(len, 2) + I2ospU64(0, 1) + dstPrime);
    ShaLength(c, Zeros(S_IN_BYTES) + msg + I2ospU64(len, 2) + I2ospU64(0, 1) + dstPrime);
    var prev := c.sha256(b0 + I2ospU64(1, 1) + dstPrime);
    FirstBlock(c, msg, dst, len, b0);
    var out := prev;
    var i := 2;
    while i <= ell
      invariant 2 <= i
      invariant i == 2 || i <= ell + 1
      invariant prev == Block(c, msg, dst, len, i - 1)
      invariant out == Blocks(c, msg, dst, len, i - 1)
    {
      var xored := new byte[B_IN_BYTES];
      XorInto(xored, b0, prev);
      I2ospU64IsPositional(i, 1);
      NextBlock(c, msg, dst, len, i, b0);
      prev := c.sha256(xored[..] + I2ospU64(i, 1) + dstPrime);
      out := out + prev;
      i := i + 1;
    }
    if ell == 0 {
      assert out[..len] == Uniform(c, msg, dst, len);
    }
    r := Ok(out[..len]);
  }

  // ---- The cipher suite ----

  /** `apiId` is the domain separation octets every operation is hashed under. */
  datatype Suite = Suite(curve: Curve, p1: Point, apiId: Octets) {
    /** The longest suffix the code appends to an api_id, with prefix, is 27 octets. */
    ghost predicate Valid() {
      curve.Laws() && |apiId| <= 200
    }
  }

  const SCHNORR_SUITE_ID := "BBS-SCHNORR_BLS12381G1_XMD:SHA-256_SSWU_RO_"
  const PLAIN_SUITE_ID := "BBS_BLS12381G1_XMD:SHA-256_SSWU_RO_"

  /** `BlindSuite::new`: everything runs under the blind api_id. */
  function BlindSuite(c: Curve, p1: Point, suiteId: string): Suite {
    Suite(c, p1, Ascii(suiteId + "BLIND_H2G_HM2S_"))
  }

  lemma SuitesAreValid(c: Curve, p1: Point)
    requires c.Laws()
    ensures BlindSuite(c, p1, SCHNORR_SUITE_ID).Valid()
    ensures BlindSuite(c, p1, PLAIN_SUITE_ID).Valid()
  {
  }

  /** `os2ip_48_mod_r` of the expanded message. */
  function ScalarHash(s: Suite, msg: Octets, dst: Octets): Scalar {
    s.curve.ofInt(Os2ip(Uniform(s.curve, msg, dst, EXPAND_LEN)))
  }

  function HashToScalar(s: Suite, msg: Octets, suffix: string): (r: Result<Scalar>) {
    var _ :- ExpandCheck(s.apiId + Ascii(suffix), EXPAND_LEN);
    Ok(ScalarHash(s, msg, s.apiId + Ascii(suffix)))
  }

  /** Forty-eight expanded octets, reduced. */
  function Hashed(c: Curve, msg: Octets, dst: Octets): Scalar {
    c.ofInt(Os2ip(Uniform(c, msg, dst, 48)))
  }

  /** Two different octet strings that hash to one scalar under one tag. */
  predicate ScalarsCollide(c: Curve, dst: Octets, a: Octets, b: Octets) {
    a != b && Hashed(c, a, dst) == Hashed(c, b, dst)
  }

  const H2S := "H2S_"
  const MAP_MSG := "MAP_MSG_TO_SCALAR_AS_HASH_"

  function MessageScalar(s: Suite, msg: Octets): Scalar {
    ScalarHash(s, msg, s.apiId + Ascii(MAP_MSG))
  }

  function MessageScalars(s: Suite, msgs: seq<Octets>): (r: seq<Scalar>)
    ensures |r| == |msgs|
    ensures forall i :: 0 <= i < |msgs| ==> r[i] == MessageScalar(s, msgs[i])
  {
    seq(|msgs|, i requires 0 <= i < |msgs| => MessageScalar(s, msgs[i]))
  }

  function MessagesToScalars(s: Suite, msgs: seq<Octets>): (r: Result<seq<Scalar>>)
    ensures r.Ok? ==> |r.value| == |msgs|
  {
    if msgs == [] then Ok([])
    else
      var _ :- ExpandCheck(s.apiId + Ascii(MAP_MSG), EXPAND_LEN);
      Ok(MessageScalars(s, msgs))
  }

  /** Two lists of messages have the same scalars only where the messages are the same, or collide. */
  lemma MessagesCollide(s: Suite, a: seq<Octets>, b: seq<Octets>, i: nat)
    requires s.Valid()
    requires MessagesToScalars(s, a) == MessagesToScalars(s, b)
    requires i < |a| && i < |b| && a[i] != b[i]
    ensures ScalarsCollide(s.curve, s.apiId + Ascii("MAP_MSG_TO_SCALAR_AS_HASH_"), a[i], b[i])
  {
    ValidSuiteHashes(s);
    assert MessageScalars(s, a)[i] == MessageScalars(s, b)[i];
  }

  function SeedDst(api: Octets): Octets { api + Ascii("SIG_GENERATOR_SEED_") }
  function GeneratorDst(api: Octets): Octets { api + Ascii("SIG_GENERATOR_DST_") }
  function GeneratorSeed(api: Octets): Octets { api + Ascii("MESSAGE_GENERATOR_SEED") }

  /** The value of `v` after `i` rounds. */
  function SeedAfter(c: Curve, api: Octets, i: nat): Octets {
    if i == 0 then Uniform(c, GeneratorSeed(api), SeedDst(api), EXPAND_LEN)
    else Uniform(c, SeedAfter(c, api, i - 1) + I2osp(i, 8), SeedDst(api), EXPAND_LEN)
  }

  function Generator(c: Curve, api: Octets, i: nat): Point {
    c.hashToCurve(SeedAfter(c, api, i + 1), GeneratorDst(api))
  }

  function Generators(c: Curve, api: Octets, count: nat): (g: seq<Point>)
    ensures |g| == count
    ensures forall i :: 0 <= i < count ==> g[i] == Generator(c, api, i)
  {
    seq(count, i requires 0 <= i < count => Generator(c, api, i))
  }

  function CreateGenerators(c: Curve, api: Octets, count: nat): (r: Result<seq<Point>>)
    ensures r.Ok? ==> |r.value| == count
  {
    var _ :- ExpandCheck(SeedDst(api), EXPAND_LEN);
    Ok(Generators(c, api, count))
  }

  lemma NoGenerators(c: Curve, api: Octets)
    ensures Generators(c, api, 0) == []
  {
  }

  lemma GeneratorsSnoc(c: Curve, api: Octets, n: nat)
    ensures Generators(c, api, n + 1) == Generators(c, api, n) + [Generator(c, api, n)]
  {
  }

  /** The generators of a family, written out: the seed is expanded once, then with a counter from one for each
      generator, and what comes out is hashed to the curve, all under tags of that family. */
  lemma GeneratorsAre(c: Curve, api: Octets, count: nat)
    requires |api| <= 200
    ensures CreateGenerators(c, api, count).Ok? && |CreateGenerators(c, api, count).value| == count
    ensures SeedAfter(c, api, 0) == Uniform(c, api + Ascii("MESSAGE_GENERATOR_SEED"), api + Ascii("SIG_GENERATOR_SEED_"), 48)
    ensures forall i :: 0 < i <= count ==>
              && SeedAfter(c, api, i) == Uniform(c, SeedAfter(c, api, i - 1) + I2osp(i, 8), api + Ascii("SIG_GENERATOR_SEED_"), 48)
              && CreateGenerators(c, api, count).value[i - 1] == c.hashToCurve(SeedAfter(c, api, i), api + Ascii("SIG_GENERATOR_DST_"))
  {
    ExpandAcceptsIff(SeedDst(api), EXPAND_LEN);
  }

  /** Hashing fails exactly for tags of more than 255 octets, and no message needs no tag. */
  lemma HashingFailsIff(s: Suite, msg: Octets, suffix: string, msgs: seq<Octets>)
    ensures HashToScalar(s, msg, suffix).Ok? <==> |s.apiId| + |suffix| <= 255
    ensures MessagesToScalars(s, msgs).Ok? <==> msgs == [] || |s.apiId| + 26 <= 255
  {
    ExpandAcceptsIff(s.apiId + Ascii(suffix), EXPAND_LEN);
    ExpandAcceptsIff(s.apiId + Ascii(MAP_MSG), EXPAND_LEN);
  }

  /** The loop that reassigns `v` and pushes one point per round. */
  method DeriveGenerators(c: Curve, api: Octets, count: nat) returns (r: Result<seq<Point>>)
    requires c.Laws()
    ensures r == CreateGenerators(c, api, count)
  {
    hide Uniform, SeedDst, GeneratorDst, GeneratorSeed, Generators, I2osp;
    var first := ExpandMessageXmd(c, GeneratorSeed(api), SeedDst(api), EXPAND_LEN);
    NoGenerators(c, api);
    if first.Err? {
      return Err(first.error);
    }
    var v := first.value;
    var out := [];
    for i := 1 to count + 1
      invariant ExpandCheck(SeedDst(api), EXPAND_LEN).Ok?
      invariant v == SeedAfter(c, api, i - 1)
      invariant out == Generators(c, api, i - 1)
    {
      var next := ExpandMessageXmd(c, v + I2osp(i, 8), SeedDst(api), EXPAND_LEN);
      v := next.value;
      GeneratorsSnoc(c, api, i - 1);
      out := out + [c.hashToCurve(v, GeneratorDst(api))];
    }
    r := Ok(out);
  }

  /** Asking for more generators never changes the ones already handed out. */
  lemma GeneratorsPrefix(c: Curve, api: Octets, m: nat, n: nat)
    requires m <= n
    ensures Generators(c, api, n)[..m] == Generators(c, api, m)
  {
  }

  function BlindApi(s: Suite): Octets { Ascii("BLIND_") + s.apiId }
  function KeybindApi(s: Suite): Octets { Ascii("KEYBIND_") + s.apiId }
  function ComDisApi(s: Suite): Octets { Ascii("COM_DIS_") + s.apiId }

  /** The first key binding generator is the curve's own base point. */
  function KeybindGenerators(s: Suite, k: nat): (r: Result<seq<Point>>)
    ensures r.Ok? ==> |r.value| == k
  {
    if k == 0 then Ok([])
    else
      var rest :- CreateGenerators(s.curve, KeybindApi(s), k - 1);
      Ok([s.curve.generator] + rest)
  }

  function KeyGenerators(s: Suite, k: nat): (g: seq<Point>)
    ensures |g| == k
  {
    if k == 0 then [] else [s.curve.generator] + Generators(s.curve, KeybindApi(s), k - 1)
  }

  /** The domain separation tags of one suite: hashing to scalars, mapping messages, and two for each of the four
      families of generators. */
  function Tags(s: Suite): (r: seq<Octets>)
    ensures |r| == 10
  {
    [s.apiId + Ascii(H2S), s.apiId + Ascii(MAP_MSG), SeedDst(s.apiId), GeneratorDst(s.apiId), SeedDst(BlindApi(s)),
     GeneratorDst(BlindApi(s)), SeedDst(KeybindApi(s)), GeneratorDst(KeybindApi(s)), SeedDst(ComDisApi(s)), GeneratorDst(ComDisApi(s))]
  }

  /** No two of them are the same, whatever the api_id. */
  lemma TagsDiffer(s: Suite)
    ensures forall i, j :: 0 <= i < j < 10 ==> Tags(s)[i] != Tags(s)[j]
  {
    var t := Tags(s);
    forall i, j | 0 <= i < j < 10 ensures t[i] != t[j] {
      assert i == 1 ==> t[i][|t[i]| - 2] == 'H' as byte;
      assert i == 6 || i == 7 ==> t[i][0] == 'K' as byte;
      assert j == 8 || j == 9 ==> t[j][0] == 'C' as byte;
    }
  }

  /** The key generators: the base point, then the generators of their own family. */
  lemma KeyGeneratorsAre(s: Suite, k: nat)
    requires s.Valid()
    ensures KeybindGenerators(s, k).Ok? && |KeybindGenerators(s, k).value| == k
    ensures var g, api := KeybindGenerators(s, k).value, Ascii("KEYBIND_") + s.apiId;
            && (k > 0 ==> g[0] == s.curve.generator)
            && forall i :: 0 < i < k ==> g[i] == s.curve.hashToCurve(SeedAfter(s.curve, api, i), api + Ascii("SIG_GENERATOR_DST_"))
  {
    hide SeedAfter;
    ValidSuiteHashes(s);
  }

  /** In a valid suite no domain separation tag is too long, so nothing below fails on one. */
  lemma ValidSuiteHashes(s: Suite)
    requires s.Valid()
    ensures forall msg :: HashToScalar(s, msg, H2S) == Ok(ScalarHash(s, msg, s.apiId + Ascii(H2S)))
    ensures forall msgs :: MessagesToScalars(s, msgs) == Ok(MessageScalars(s, msgs))
    ensures forall n :: CreateGenerators(s.curve, s.apiId, n) == Ok(Generators(s.curve, s.apiId, n))
    ensures forall n :: CreateGenerators(s.curve, BlindApi(s), n) == Ok(Generators(s.curve, BlindApi(s), n))
    ensures forall n :: CreateGenerators(s.curve, ComDisApi(s), n) == Ok(Generators(s.curve, ComDisApi(s), n))
    ensures forall k :: KeybindGenerators(s, k) == Ok(KeyGenerators(s, k))
  {
    ExpandAcceptsIff(s.apiId + Ascii(H2S), EXPAND_LEN);
    ExpandAcceptsIff(s.apiId + Ascii(MAP_MSG), EXPAND_LEN);
    ExpandAcceptsIff(SeedDst(s.apiId), EXPAND_LEN);
    ExpandAcceptsIff(SeedDst(BlindApi(s)), EXPAND_LEN);
    ExpandAcceptsIff(SeedDst(ComDisApi(s)), EXPAND_LEN);
    ExpandAcceptsIff(SeedDst(KeybindApi(s)), EXPAND_LEN);
  }
}
