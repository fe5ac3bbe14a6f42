/** The laws of `Curves` can be met: integers modulo a prime, acting on themselves. */
module CurveInstance {
  import opened Wrappers
  import opened Octets
  import opened Curves

  const R: nat := 13

  type Residue = x: nat | x < R

  function Reduce(n: int): Residue { n % R }

  function Inverse(a: Residue): Option<Residue> {
    if a == 0 then None
    else Some([0, 1, 7, 9, 10, 8, 11, 2, 5, 3, 4, 6, 12][a])
  }

  function Plus(a: Residue, b: Residue): Residue { Reduce(a + b) }
  function Minus(a: Residue): Residue { Reduce(R - a) }
  function Times(a: Residue, b: Residue): Residue { Reduce(a * b) }

  function FromOctets(o: Octets, width: nat): Option<Residue> {
    if |o| == width && Os2ip(o) < R then Some(Os2ip(o)) else None
  }

  function Residues(): CurveOps<Residue, Residue> {
    CurveOps(
      R,
      (s: Residue) => s as nat,
      (n: nat) => Reduce(n),
      0,
      1,
      (a: Residue, b: Residue) => Plus(a, b),
      (a: Residue) => Minus(a),
      (a: Residue, b: Residue) => Times(a, b),
      (a: Residue) => Inverse(a),
      0,
      1,
      (p: Residue, q: Residue) => Plus(p, q),
      (p: Residue) => Minus(p),
      (p: Residue, s: Residue) => Times(p, s),
      (p: Residue) => I2osp(p, POINT_LENGTH),
      (o: Octets) => FromOctets(o, POINT_LENGTH),
      (p: Residue) => I2osp(p, 96),
      (s: Residue) => I2osp(s, SCALAR_LENGTH),
      (o: Octets) => FromOctets(o, SCALAR_LENGTH),
      (pk: Octets) => FromOctets(pk, 96),
      (o: Octets) => I2osp(|o|, 32),
      (msg: Octets, dst: Octets) => Reduce(Os2ip(msg) + |dst|))
  }

  lemma ModMulLeft(a: int, b: int)
    ensures ((a % R) * b) % R == (a * b) % R
  {
    var q := a / R;
    assert a == q * R + a % R;
    assert a * b == (a % R) * b + (q * b) * R by {
      assert (q * R) * b == (q * b) * R;
    }
    ModShift((a % R) * b, q * b);
  }

  lemma ModShift(x: int, k: int)
    ensures (x + k * R) % R == x % R
  {
  }

  lemma TimesCommutes(a: Residue, b: Residue)
    ensures Times(a, b) == Times(b, a)
  {
    assert a * b == b * a;
  }

  lemma TimesIs(a: Residue, b: Residue)
    ensures Times(a, b) == (a * b) % R
  {
  }

  lemma PlusIs(a: Residue, b: Residue)
    ensures Plus(a, b) == if a + b < R then a + b else a + b - R
    ensures Plus(a, b) == (a + b) % R
  {
  }

  lemma MulAssociates(a: Residue, b: Residue, c: Residue)
    ensures Times(Times(a, b), c) == Times(a, Times(b, c))
  {
    hide Times, Reduce;
    calc {
      Times(Times(a, b), c);
    == { TimesIs(a, b); TimesIs(Times(a, b), c); }
      (((a * b) % R) * c) % R;
    == { ModMulLeft(a * b, c); }
      ((a * b) * c) % R;
    == { assert (a * b) * c == (b * c) * a; }
      ((b * c) * a) % R;
    == { ModMulLeft(b * c, a); }
      (((b * c) % R) * a) % R;
    == { TimesIs(b, c); TimesIs(Times(b, c), a); }
      Times(Times(b, c), a);
    == { TimesCommutes(Times(b, c), a); }
      Times(a, Times(b, c));
    }
  }

  lemma RightDistributes(a: Residue, b: Residue, c: Residue)
    ensures Times(Plus(a, b), c) == Plus(Times(a, c), Times(b, c))
  {
    hide Times, Plus, Reduce;
    calc {
      Times(Plus(a, b), c);
    == { PlusIs(a, b); TimesIs(Plus(a, b), c); }
      (((a + b) % R) * c) % R;
    == { ModMulLeft(a + b, c); }
      ((a + b) * c) % R;
    == { assert (a + b) * c == a * c + b * c; }
      (a * c + b * c) % R;
    == { ModAdd(a * c, b * c); }
      ((a * c) % R + (b * c) % R) % R;
    == { TimesIs(a, c); TimesIs(b, c); PlusIs(Times(a, c), Times(b, c)); }
      Plus(Times(a, c), Times(b, c));
    }
  }

  lemma MulDistributes(a: Residue, b: Residue, c: Residue)
    ensures Times(Plus(a, b), c) == Plus(Times(a, c), Times(b, c))
    ensures Times(c, Plus(a, b)) == Plus(Times(c, a), Times(c, b))
  {
    hide Plus, Times;
    RightDistributes(a, b, c);
    TimesCommutes(c, Plus(a, b));
    TimesCommutes(a, c);
    TimesCommutes(b, c);
  }

  lemma PlusIsGroup(a: Residue, b: Residue, c: Residue)
    ensures Plus(a, b) == Plus(b, a) && Plus(Plus(a, b), c) == Plus(a, Plus(b, c))
    ensures Plus(a, 0) == a && Plus(a, Minus(a)) == 0 && Times(a, 1) == a
  {
    hide Plus, Minus, Times, Reduce;
    PlusAssociates(a, b, c);
    PlusIs(a, b);
    PlusIs(b, a);
    PlusIs(a, 0);
    MinusIsOpposite(a);
    TimesOne(a);
  }

  lemma PlusAssociates(a: Residue, b: Residue, c: Residue)
    ensures Plus(Plus(a, b), c) == Plus(a, Plus(b, c))
  {
    hide Plus, Reduce;
    PlusIs(a, b);
    PlusIs(b, c);
    PlusIs(Plus(a, b), c);
    PlusIs(a, Plus(b, c));
  }

  lemma TimesOne(a: Residue)
    ensures Times(a, 1) == a
  {
  }

  lemma MinusIsOpposite(a: Residue)
    ensures Plus(a, Minus(a)) == 0
  {
  }

  lemma ModAdd(x: int, y: int)
    ensures ((x % R) + (y % R)) % R == (x + y) % R
  {
  }

  lemma SmallFits(n: nat, w: nat)
    requires n < R && w > 0
    ensures n < Pow256(w)
  {
    assert Pow256(w) == 256 * Pow256(w - 1);
  }

  lemma CodecHolds(p: Residue, o: Octets, w: nat)
    requires w > 0
    ensures FromOctets(I2osp(p, w), w) == Some(p)
    ensures FromOctets(o, w) == Some(p) ==> o == I2osp(p, w)
  {
    SmallFits(p, w);
    Os2ipOfI2osp(p, w);
    I2ospOfOs2ip(o);
  }

  lemma InverseHolds(a: Residue)
    ensures Inverse(a).Some? <==> a != 0
    ensures a != 0 ==> Times(a, Inverse(a).value) == 1
  {
    if a == 1 { } else if a == 2 { } else if a == 3 { } else if a == 4 { } else if a == 5 { } else if a == 6 { }
    else if a == 7 { } else if a == 8 { } else if a == 9 { } else if a == 10 { } else if a == 11 { } else if a == 12 { }
  }

  lemma ScalarLawsHold(x: Residue, y: Residue, z: Residue)
    ensures Residues().ScalarLaws(x, y, z)
  {
    hide Plus, Minus, Times, Inverse, FromOctets, Reduce;
    TimesCommutes(x, y);
    MulAssociates(x, y, z);
    MulDistributes(x, y, z);
    PlusIsGroup(x, y, z);
    InverseHolds(x);
  }

  lemma PointLawsHold(p: Residue, q: Residue, r: Residue, s: Residue, t: Residue)
    ensures Residues().PointLaws(p, q, r, s, t)
  {
    hide Plus, Minus, Times, Inverse, FromOctets, Reduce;
    MulDistributes(p, q, s);
    MulDistributes(s, t, p);
    MulAssociates(p, s, t);
    PlusIsGroup(p, q, r);
    CodecHolds(p, [], 96);
    CodecHolds(q, [], 96);
  }

  /** The integers modulo 13 satisfy every law, so no theorem that assumes the laws is vacuous. */
  lemma ResiduesSatisfyLaws()
    ensures Residues().Laws()
  {
    hide Plus, Minus, Times, Inverse, FromOctets, Reduce, Os2ip;
    var c := Residues();
    assert 1 < c.order <= Pow256(SCALAR_LENGTH) by { SmallFits(R - 1, SCALAR_LENGTH); }
    forall x, y, z ensures c.ScalarLaws(x, y, z) {
      ScalarLawsHold(x, y, z);
    }
    forall p, q, r, s, t ensures c.PointLaws(p, q, r, s, t) {
      PointLawsHold(p, q, r, s, t);
    }
    forall p, o ensures c.PointCodecLaws(p, o) {
      CodecHolds(p, o, POINT_LENGTH);
    }
    forall s, n, o ensures c.ScalarCodecLaws(s, n, o) {
      ScalarCodecHolds(s, n, o);
    }
    forall o ensures c.HashLaws(o) {
      assert c.sha256(o) == I2osp(|o|, 32);
    }
  }

  lemma ScalarCodecHolds(s: Residue, n: nat, o: Octets)
    ensures Residues().ScalarCodecLaws(s, n, o)
  {
    assert Reduce(s) == s;
    if |o| == SCALAR_LENGTH && Os2ip(o) < R {
      assert Reduce(Os2ip(o)) == Os2ip(o);
    }
  }
}
