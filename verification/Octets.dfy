/** Octet strings and the big-endian integer encodings (`src/util.rs`). */
module Octets {
  import opened Wrappers

  newtype byte = x: int | 0 <= x < 256

  type Octets = seq<byte>

  const U32_LIMIT: nat := 0x1_0000_0000
  const U64_LIMIT: nat := 0x1_0000_0000_0000_0000

  function Pow256(n: nat): (p: nat)
    ensures p > 0
  {
    if n == 0 then 1 else 256 * Pow256(n - 1)
  }

  /** The `w` low-order octets of `n`, most significant first. */
  function I2osp(n: nat, w: nat): (o: Octets)
    ensures |o| == w
  {
    if w == 0 then [] else I2osp(n / 256, w - 1) + [(n % 256) as byte]
  }

  function Os2ip(o: Octets): nat {
    if o == [] then 0 else Os2ip(o[..|o| - 1]) * 256 + o[|o| - 1] as int
  }

  lemma {:induction false} Os2ipOfI2osp(n: nat, w: nat)
    requires n < Pow256(w)
    ensures Os2ip(I2osp(n, w)) == n
  {
    if w > 0 {
      var o := I2osp(n, w);
      assert o[..w - 1] == I2osp(n / 256, w - 1);
      Os2ipOfI2osp(n / 256, w - 1);
    }
  }

  lemma {:induction false} I2ospOfOs2ip(o: Octets)
    ensures Os2ip(o) < Pow256(|o|)
    ensures I2osp(Os2ip(o), |o|) == o
  {
    if o != [] {
      var front, last := o[..|o| - 1], o[|o| - 1];
      I2ospOfOs2ip(front);
      assert o == front + [last];
      assert Os2ip(o) / 256 == Os2ip(front) && Os2ip(o) % 256 == last as int;
    }
  }

  lemma I2ospInjective(m: nat, n: nat, w: nat)
    requires m < Pow256(w) && n < Pow256(w)
    requires I2osp(m, w) == I2osp(n, w)
    ensures m == n
  {
    Os2ipOfI2osp(m, w);
    Os2ipOfI2osp(n, w);
  }

  lemma Pow256Values()
    ensures Pow256(1) == 256 && Pow256(2) == 0x1_0000
    ensures Pow256(4) == U32_LIMIT && Pow256(8) == U64_LIMIT
  {
    assert Pow256(1) == 256 * Pow256(0);
    assert Pow256(2) == 256 * Pow256(1);
    assert Pow256(3) == 256 * Pow256(2);
    assert Pow256(4) == 256 * Pow256(3);
    assert Pow256(5) == 256 * Pow256(4);
    assert Pow256(6) == 256 * Pow256(5);
    assert Pow256(7) == 256 * Pow256(6);
    assert Pow256(8) == 256 * Pow256(7);
  }

  function Zeros(n: nat): (o: Octets)
    ensures |o| == n
  {
    seq(n, _ => 0)
  }

  /** The source's `i2osp`: the eight octets of a `u64`, padded in front or cut in front. */
  function I2ospU64(value: nat, length: nat): Octets
    requires value < U64_LIMIT
  {
    var be := I2osp(value, 8);
    if length >= 8 then Zeros(length - 8) + be else be[8 - length..]
  }

  lemma {:induction false} I2ospZero(w: nat)
    ensures I2osp(0, w) == Zeros(w)
  {
    if w > 0 {
      I2ospZero(w - 1);
    }
  }

  lemma {:induction false} I2ospSuffix(n: nat, w: nat, k: nat)
    requires k <= w
    ensures I2osp(n, w)[w - k..] == I2osp(n, k)
  {
    if k > 0 {
      I2ospSuffix(n / 256, w - 1, k - 1);
      var o := I2osp(n, w);
      assert o[w - k..] == I2osp(n / 256, w - 1)[w - k..] + [(n % 256) as byte];
    }
  }

  lemma {:induction false} I2ospWiden(n: nat, w: nat, k: nat)
    requires n < Pow256(w)
    ensures I2osp(n, w + k) == Zeros(k) + I2osp(n, w)
  {
    if w == 0 {
      I2ospZero(k);
    } else {
      I2ospWiden(n / 256, w - 1, k);
    }
  }

  lemma I2ospLosesNothingIff(n: nat, w: nat)
    ensures Os2ip(I2osp(n, w)) == n <==> n < Pow256(w)
  {
    I2ospOfOs2ip(I2osp(n, w));
    if n < Pow256(w) {
      Os2ipOfI2osp(n, w);
    }
  }

  /** The source's `i2osp` is the positional encoding at every width, and loses nothing
      exactly when the value fits the width. */
  lemma I2ospU64IsPositional(value: nat, length: nat)
    requires value < U64_LIMIT
    ensures I2ospU64(value, length) == I2osp(value, length)
    ensures Os2ip(I2ospU64(value, length)) == value <==> value < Pow256(length)
  {
    if length >= 8 {
      assert value < Pow256(8) by { Pow256Values(); }
      I2ospWiden(value, 8, length - 8);
    } else {
      I2ospSuffix(value, 8, length);
    }
    assert I2ospU64(value, length) == I2osp(value, length);
    I2ospLosesNothingIff(value, length);
  }

  /** ASCII text as octets. */
  function Ascii(s: string): (o: Octets)
    ensures |o| == |s|
  {
    seq(|s|, i requires 0 <= i < |s| => (s[i] as int % 256) as byte)
  }

  /** `read_u64`: a big-endian length prefix. */
  function ReadU64(o: Octets, at: nat): Result<nat> {
    if at + 8 <= |o| then Ok(Os2ip(o[at..at + 8])) else Err(InvalidLength)
  }

  lemma ReadU64Iff(o: Octets, at: nat, n: nat)
    requires at + 8 <= |o|
    ensures ReadU64(o, at) == Ok(n) <==> n < U64_LIMIT && o[at..at + 8] == I2osp(n, 8)
  {
    Pow256Values();
    I2ospOfOs2ip(o[at..at + 8]);
    if n < U64_LIMIT {
      Os2ipOfI2osp(n, 8);
    }
  }

  /** Two concatenations agree exactly when their parts do, once the first parts have equal length. */
  lemma SplitEqual<T>(a: seq<T>, b: seq<T>, x: seq<T>, y: seq<T>)
    requires |a| == |x|
    requires a + b == x + y
    ensures a == x && b == y
  {
    assert (a + b)[..|a|] == a && (x + y)[..|x|] == x;
    assert (a + b)[|a|..] == b && (x + y)[|x|..] == y;
  }
}
