/** The laws of `Json.Codec` can be met: a printer that tags every value and marks every end. */
module JsonInstance {
  import opened Wrappers
  import opened Octets
  import opened Json
  import opened ClaimMap

  function Unary(n: nat): Octets {
    if n == 0 then [0] else [1] + Unary(n - 1)
  }

  function WriteText(s: string): Octets {
    if s == "" then [0] else [1] + (Unary(s[0] as nat) + WriteText(s[1..]))
  }

  function WriteNumber(n: Numeral): Octets {
    match n
    case Unsigned(k) => [0] + Unary(k)
    case Negative(k) => if k >= 0 then [1] + Unary(k) else [2] + Unary(-k)
    case Fraction(digits) => [3] + WriteText(digits)
  }

  function Write(v: Value): Octets
    decreases v, |Children(v)| + 1
  {
    match v
    case Null => [0]
    case Bool(b) => [1, if b then 1 else 0]
    case Number(n) => [2] + WriteNumber(n)
    case Text(t) => [3] + WriteText(t)
    case Array(_) => [4] + WriteFrom(v, 0)
    case Object(_) => [5] + WriteFrom(v, 0)
  }

  /** The nested values from the `k`-th on, each with its name. */
  function WriteFrom(v: Value, k: nat): Octets
    requires k <= |Children(v)|
    decreases v, |Children(v)| - k
  {
    if k == |Children(v)| then [0]
    else [1] + (WriteText(Children(v)[k].name) + (Write(Children(v)[k].value) + WriteFrom(v, k + 1)))
  }

  // ---- No output starts another ----

  /** Two outputs with the same continuation start with the same octet, and go on alike. */
  lemma Peel(a: Octets, s: Octets, b: Octets, t: Octets)
    requires a != [] && b != [] && a + s == b + t
    ensures a[0] == b[0] && a[1..] + s == b[1..] + t
    ensures a[1..] == [] && b[1..] == [] ==> s == t
  {
    assert (a + s)[0] == a[0] && (b + t)[0] == b[0];
    assert (a + s)[1..] == a[1..] + s && (b + t)[1..] == b[1..] + t;
    assert [] + s == s && [] + t == t;
  }

  lemma Regroup(a: Octets, b: Octets, s: Octets)
    ensures (a + b) + s == a + (b + s)
  {
  }

  lemma {:induction false} UnaryPrefix(m: nat, n: nat, s: Octets, t: Octets)
    requires Unary(m) + s == Unary(n) + t
    ensures m == n && s == t
    decreases m
  {
    Peel(Unary(m), s, Unary(n), t);
    if m > 0 && n > 0 {
      UnaryPrefix(m - 1, n - 1, s, t);
    }
  }

  lemma {:induction false} TextPrefix(x: string, y: string, s: Octets, t: Octets)
    requires WriteText(x) + s == WriteText(y) + t
    ensures x == y && s == t
    decreases x
  {
    hide Unary;
    Peel(WriteText(x), s, WriteText(y), t);
    if x != "" && y != "" {
      Regroup(Unary(x[0] as nat), WriteText(x[1..]), s);
      Regroup(Unary(y[0] as nat), WriteText(y[1..]), t);
      UnaryPrefix(x[0] as nat, y[0] as nat, WriteText(x[1..]) + s, WriteText(y[1..]) + t);
      TextPrefix(x[1..], y[1..], s, t);
      assert x == [x[0]] + x[1..] && y == [y[0]] + y[1..];
    }
  }

  lemma NumberPrefix(m: Numeral, n: Numeral, s: Octets, t: Octets)
    requires WriteNumber(m) + s == WriteNumber(n) + t
    ensures m == n && s == t
  {
    hide Unary, WriteText;
    Peel(WriteNumber(m), s, WriteNumber(n), t);
    match (m, n)
    case (Unsigned(x), Unsigned(y)) => UnaryPrefix(x, y, s, t);
    case (Negative(x), Negative(y)) =>
      UnaryPrefix(if x >= 0 then x else -x, if y >= 0 then y else -y, s, t);
    case (Fraction(x), Fraction(y)) => TextPrefix(x, y, s, t);
    case _ =>
  }

  lemma {:induction false} ValuePrefix(v: Value, w: Value, s: Octets, t: Octets)
    requires Write(v) + s == Write(w) + t
    ensures v == w && s == t
    decreases v, |Children(v)| + 1
  {
    hide WriteText, WriteNumber, WriteFrom;
    Peel(Write(v), s, Write(w), t);
    match (v, w)
    case (Bool(x), Bool(y)) =>
      Peel(Write(v)[1..], s, Write(w)[1..], t);
    case (Number(x), Number(y)) => NumberPrefix(x, y, s, t);
    case (Text(x), Text(y)) => TextPrefix(x, y, s, t);
    case (Array(x), Array(y)) =>
      FromPrefix(v, w, 0, s, t);
      SameItems(x, y);
    case (Object(x), Object(y)) =>
      FromPrefix(v, w, 0, s, t);
      assert Children(v)[0..] == x && Children(w)[0..] == y;
    case _ =>
  }

  lemma SameItems(x: seq<Value>, y: seq<Value>)
    requires Children(Array(x))[0..] == Children(Array(y))[0..]
    ensures x == y
  {
    var a, b := Children(Array(x)), Children(Array(y));
    assert a == b;
    forall i | 0 <= i < |x| ensures x[i] == y[i] {
      assert a[i].value == x[i] && b[i].value == y[i];
    }
  }

  lemma {:induction false} FromPrefix(v: Value, w: Value, k: nat, s: Octets, t: Octets)
    requires k <= |Children(v)| && k <= |Children(w)|
    requires WriteFrom(v, k) + s == WriteFrom(w, k) + t
    ensures Children(v)[k..] == Children(w)[k..] && s == t
    decreases v, |Children(v)| - k
  {
    hide WriteText, Write, Children;
    Peel(WriteFrom(v, k), s, WriteFrom(w, k), t);
    if k < |Children(v)| && k < |Children(w)| {
      var x, y := Children(v)[k], Children(w)[k];
      var a, b := WriteFrom(v, k + 1), WriteFrom(w, k + 1);
      Regroup(WriteText(x.name), Write(x.value) + a, s);
      Regroup(WriteText(y.name), Write(y.value) + b, t);
      Regroup(Write(x.value), a, s);
      Regroup(Write(y.value), b, t);
      TextPrefix(x.name, y.name, Write(x.value) + (a + s), Write(y.value) + (b + t));
      ChildSmaller(v, k);
      ValuePrefix(x.value, y.value, a + s, b + t);
      FromPrefix(v, w, k + 1, s, t);
      assert Children(v)[k..] == [x] + Children(v)[k + 1..] && Children(w)[k..] == [y] + Children(w)[k + 1..];
    }
  }

  lemma ChildSmaller(v: Value, k: nat)
    requires k < |Children(v)|
    ensures Children(v)[k].value < v
  {
  }

  // ---- The codec ----

  ghost function Parsed(o: Octets): Option<Value> {
    if v :| Write(v) == o then Some(v) else None
  }

  ghost function Tagged(): Codec {
    Codec(Write, (o: Octets) => Parsed(o), (o: Octets) => Some(seq(|o|, i requires 0 <= i < |o| => o[i] as char)))
  }

  lemma TaggedSatisfiesLaws()
    ensures Tagged().Laws()
  {
    forall v: Value ensures Parsed(Write(v)) == Some(v) {
      var w := Parsed(Write(v)).value;
      assert Write(v) + [] == Write(v) && Write(w) + [] == Write(w);
      ValuePrefix(v, w, [], []);
    }
  }
}
