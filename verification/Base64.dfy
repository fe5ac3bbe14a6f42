/** The hand-written base64url codec (`src/jwp.rs`; section 5 of RFC 4648, without padding). */
module Base64 {
  import opened Wrappers
  import opened Octets

  const UPPER: string := "ABCDEFGHIJKLMNOPQRSTUVWXYZ"
  const LOWER: string := "abcdefghijklmnopqrstuvwxyz"
  const DIGITS: string := "0123456789"
  const ALPHABET: string := UPPER + LOWER + DIGITS + "-_"

  type Sextet = x: nat | x < 64

  /** `ALPHABET[v]` */
  function Letter(v: Sextet): char {
    ALPHABET[v]
  }

  function Val(c: char): Option<Sextet> {
    if 'A' <= c <= 'Z' then Some(c as int - 'A' as int)
    else if 'a' <= c <= 'z' then Some(c as int - 'a' as int + 26)
    else if '0' <= c <= '9' then Some(c as int - '0' as int + 52)
    else if c == '-' then Some(62)
    else if c == '_' then Some(63)
    else None
  }

  // ---- One chunk; the shifts and masks of the source, on integers ----

  /** `v0 << 18 | v1 << 12 | v2 << 6 | v3` */
  function Pack(v0: nat, v1: nat, v2: nat, v3: nat): nat {
    v0 * 0x40000 + v1 * 0x1000 + v2 * 64 + v3
  }

  /** `b0 << 16 | b1 << 8 | b2` */
  function Pack3(b0: nat, b1: nat, b2: nat): nat {
    b0 * 0x10000 + b1 * 0x100 + b2
  }

  function Sextets(b0: byte, b1: byte, b2: byte): (r: seq<Sextet>)
    ensures |r| == 4
  {
    var n := Pack3(b0 as int, b1 as int, b2 as int);
    [n / 0x40000, n / 0x1000 % 64, n / 64 % 64, n % 64]
  }

  /** The octets `n >> 16`, `n >> 8` and `n` cut to eight bits each. */
  function Unpacked(v0: Sextet, v1: Sextet, v2: Sextet, v3: Sextet): (r: Octets)
    ensures |r| == 3
  {
    var n := Pack(v0, v1, v2, v3);
    [(n / 0x10000 % 256) as byte, (n / 0x100 % 256) as byte, (n % 256) as byte]
  }

  function At(chunk: Octets, i: nat): byte {
    if i < |chunk| then chunk[i] else 0
  }

  function Letters(vs: seq<Sextet>): (s: string)
    ensures |s| == |vs|
    ensures forall i :: 0 <= i < |vs| ==> s[i] == Letter(vs[i])
  {
    seq(|vs|, i requires 0 <= i < |vs| => Letter(vs[i]))
  }

  /** A chunk of one, two or three octets yields one character more than it has octets. */
  function EncodeChunk(chunk: Octets): (s: string)
    requires 1 <= |chunk| <= 3
    ensures |s| == |chunk| + 1
  {
    Letters(Sextets(chunk[0], At(chunk, 1), At(chunk, 2))[..|chunk| + 1])
  }

  function ValAt(chunk: string, i: nat): Sextet {
    if i < |chunk| && Val(chunk[i]).Some? then Val(chunk[i]).value else 0
  }

  predicate AllLetters(s: string) {
    forall i :: 0 <= i < |s| ==> Val(s[i]).Some?
  }

  function DecodeChunk(chunk: string): (o: Octets)
    requires 2 <= |chunk| <= 4
    ensures |o| == |chunk| - 1
  {
    Unpacked(ValAt(chunk, 0), ValAt(chunk, 1), ValAt(chunk, 2), ValAt(chunk, 3))[..|chunk| - 1]
  }

  // ---- Whole strings ----

  function Min(a: nat, b: nat): nat {
    if a < b then a else b
  }

  function Encode(data: Octets): string {
    if data == [] then ""
    else
      var n := Min(3, |data|);
      EncodeChunk(data[..n]) + Encode(data[n..])
  }

  function DecodeLetters(s: string): Octets
    requires |s| % 4 != 1
  {
    if s == "" then []
    else
      var n := Min(4, |s|);
      DecodeChunk(s[..n]) + DecodeLetters(s[n..])
  }

  function Decode(s: string): Result<Octets> {
    if |s| % 4 == 1 then Err(MalformedContainer)
    else if !AllLetters(s) then Err(MalformedContainer)
    else Ok(DecodeLetters(s))
  }

  lemma EncodeStep(data: Octets, at: nat)
    requires at < |data|
    ensures var n := Min(3, |data| - at);
            Encode(data[at..]) == EncodeChunk(data[at..at + n]) + Encode(data[at + n..])
  {
    hide EncodeChunk;
    var n := Min(3, |data| - at);
    assert data[at..][..n] == data[at..at + n] && data[at..][n..] == data[at + n..];
  }

  /** The inner loop: only the characters the chunk fills are emitted. */
  method EmitChunk(out: string, chunk: Octets) returns (r: string)
    requires 1 <= |chunk| <= 3
    ensures r == out + EncodeChunk(chunk)
  {
    var idx := Sextets(chunk[0], At(chunk, 1), At(chunk, 2));
    r := out;
    for i := 0 to |chunk| + 1
      invariant r == out + Letters(idx[..i])
    {
      r := r + [Letter(idx[i])];
      assert Letters(idx[..i + 1]) == Letters(idx[..i]) + [Letter(idx[i])];
    }
  }

  method EncodeLoop(data: Octets) returns (out: string)
    ensures out == Encode(data)
  {
    hide Encode, EncodeChunk;
    out := "";
    var at := 0;
    assert data[0..] == data;
    while at < |data|
      invariant at <= |data|
      invariant out + Encode(data[at..]) == Encode(data)
    {
      var n := Min(3, |data| - at);
      EncodeStep(data, at);
      SplitThree(out, EncodeChunk(data[at..at + n]), Encode(data[at + n..]));
      out := EmitChunk(out, data[at..at + n]);
      at := at + n;
    }
    EncodeNothing(data);
  }

  lemma EncodeNothing(data: Octets)
    ensures Encode(data[|data|..]) == ""
  {
    assert data[|data|..] == [];
  }

  lemma SplitThree<T>(a: seq<T>, b: seq<T>, c: seq<T>)
    ensures a + (b + c) == (a + b) + c
  {
  }

  function Weight(i: nat): nat {
    if i == 0 then 0x40000 else if i == 1 then 0x1000 else if i == 2 then 64 else 1
  }

  /** `n` after `i` characters. */
  function Partial(chunk: string, i: nat): nat
    requires i <= |chunk|
  {
    if i == 0 then 0 else Partial(chunk, i - 1) + ValAt(chunk, i - 1) * Weight(i - 1)
  }

  lemma PartialIsPack(chunk: string)
    requires 2 <= |chunk| <= 4
    ensures Partial(chunk, |chunk|) == Pack(ValAt(chunk, 0), ValAt(chunk, 1), ValAt(chunk, 2), ValAt(chunk, 3))
  {
    hide ValAt;
    assert Partial(chunk, 1) == ValAt(chunk, 0) * 0x40000;
    assert Partial(chunk, 2) == Partial(chunk, 1) + ValAt(chunk, 1) * 0x1000;
    if |chunk| >= 3 {
      assert Partial(chunk, 3) == Partial(chunk, 2) + ValAt(chunk, 2) * 64;
    } else {
      assert ValAt(chunk, 2) == 0 by { ValBeyond(chunk, 2); }
    }
    if |chunk| == 4 {
      assert Partial(chunk, 4) == Partial(chunk, 3) + ValAt(chunk, 3);
    } else {
      assert ValAt(chunk, 3) == 0 by { ValBeyond(chunk, 3); }
    }
  }

  lemma ValBeyond(chunk: string, i: nat)
    requires i >= |chunk|
    ensures ValAt(chunk, i) == 0
  {
  }

  /** `(n >> (16 - 8 * i)) as u8` */
  function Emitted(n: nat, i: nat): byte {
    if i == 0 then (n / 0x10000 % 256) as byte else if i == 1 then (n / 0x100 % 256) as byte else (n % 256) as byte
  }

  /** Accumulates the values of one chunk into `n`, or stops at a character outside the alphabet. */
  method ReadChunk(chunk: string) returns (r: Result<nat>)
    requires 2 <= |chunk| <= 4
    ensures r == if AllLetters(chunk) then Ok(Partial(chunk, |chunk|)) else Err(MalformedContainer)
  {
    var n: nat := 0;
    for i := 0 to |chunk|
      invariant forall j :: 0 <= j < i ==> Val(chunk[j]).Some?
      invariant n == Partial(chunk, i)
    {
      var v := Val(chunk[i]);
      if v.None? {
        return Err(MalformedContainer);
      }
      n := n + v.value * Weight(i);
    }
    r := Ok(n);
  }

  lemma EmittedIs(v0: Sextet, v1: Sextet, v2: Sextet, v3: Sextet, i: nat)
    requires i < 3
    ensures Unpacked(v0, v1, v2, v3)[i] == Emitted(Pack(v0, v1, v2, v3), i)
  {
  }

  lemma PrefixStep<T>(o: seq<T>, i: nat)
    requires i < |o|
    ensures o[..i + 1] == o[..i] + [o[i]]
  {
  }

  method DecodeOne(chunk: string) returns (r: Result<Octets>)
    requires 2 <= |chunk| <= 4
    ensures r == if AllLetters(chunk) then Ok(DecodeChunk(chunk)) else Err(MalformedContainer)
  {
    hide AllLetters, Partial, ValAt, Unpacked, Pack, Emitted;
    var n := ReadChunk(chunk);
    if n.Err? {
      return Err(n.error);
    }
    PartialIsPack(chunk);
    var out := [];
    for i := 0 to |chunk| - 1
      invariant out == DecodeChunk(chunk)[..i]
    {
      EmittedIs(ValAt(chunk, 0), ValAt(chunk, 1), ValAt(chunk, 2), ValAt(chunk, 3), i);
      PrefixStep(DecodeChunk(chunk), i);
      out := out + [Emitted(n.value, i)];
    }
    assert DecodeChunk(chunk)[..|chunk| - 1] == DecodeChunk(chunk);
    r := Ok(out);
  }

  lemma DecodeStep(s: string, at: nat)
    requires at < |s| && |s| % 4 != 1 && at % 4 == 0
    ensures (|s| - at) % 4 != 1 && Min(4, |s| - at) >= 2
    ensures var n := Min(4, |s| - at);
            && (|s| - (at + n)) % 4 != 1
            && DecodeLetters(s[at..]) == DecodeChunk(s[at..at + n]) + DecodeLetters(s[at + n..])
  {
    hide DecodeChunk;
    var n := Min(4, |s| - at);
    assert s[at..][..n] == s[at..at + n] && s[at..][n..] == s[at + n..];
  }

  method DecodeLoop(s: string) returns (r: Result<Octets>)
    ensures r == Decode(s)
  {
    hide DecodeLetters, DecodeChunk, Val;
    if |s| % 4 == 1 {
      return Err(MalformedContainer);
    }
    var out := [];
    var at := 0;
    assert s[0..] == s;
    while at < |s|
      invariant at <= |s| && (at % 4 == 0 || at == |s|)
      invariant forall i :: 0 <= i < at ==> Val(s[i]).Some?
      invariant (|s| - at) % 4 != 1
      invariant out + DecodeLetters(s[at..]) == DecodeLetters(s)
    {
      var n := Min(4, |s| - at);
      DecodeStep(s, at);
      var piece := DecodeOne(s[at..at + n]);
      if piece.Err? {
        var i :| 0 <= i < n && Val(s[at..at + n][i]).None?;
        assert Val(s[at + i]).None?;
        return Err(MalformedContainer);
      }
      forall i | at <= i < at + n ensures Val(s[i]).Some? {
        assert s[i] == s[at..at + n][i - at];
      }
      SplitThree(out, piece.value, DecodeLetters(s[at + n..]));
      out := out + piece.value;
      at := at + n;
    }
    DecodeNothing(s);
    assert out + [] == out;
    r := Ok(out);
  }

  lemma DecodeNothing(s: string)
    ensures DecodeLetters(s[|s|..]) == []
  {
    assert s[|s|..] == "";
  }

  // ---- The alphabet ----

  lemma AlphabetParts(v: Sextet)
    ensures v < 26 ==> Letter(v) == UPPER[v]
    ensures 26 <= v < 52 ==> Letter(v) == LOWER[v - 26]
    ensures 52 <= v < 62 ==> Letter(v) == DIGITS[v - 52]
    ensures v >= 62 ==> Letter(v) == "-_"[v - 62]
  {
  }

  lemma UpperLetter(v: nat)
    requires v < 26
    ensures UPPER[v] as int == 'A' as int + v
  {
  }

  lemma LowerLetter(v: nat)
    requires v < 26
    ensures LOWER[v] as int == 'a' as int + v
  {
  }

  lemma DigitLetter(v: nat)
    requires v < 10
    ensures DIGITS[v] as int == '0' as int + v
  {
  }

  lemma ValOfLetter(v: Sextet)
    ensures Val(Letter(v)) == Some(v)
  {
    hide Letter;
    AlphabetParts(v);
    if v < 26 {
      UpperLetter(v);
    } else if v < 52 {
      LowerLetter(v - 26);
    } else if v < 62 {
      DigitLetter(v - 52);
    }
  }

  lemma ValInjective(c: char, d: char)
    requires Val(c).Some? && Val(c) == Val(d)
    ensures c == d
  {
  }

  lemma LetterOfVal(c: char)
    requires Val(c).Some?
    ensures Letter(Val(c).value) == c
  {
    ValOfLetter(Val(c).value);
    ValInjective(c, Letter(Val(c).value));
  }

  // ---- Round trips ----

  lemma DigitsOf(n: nat)
    requires n < 0x1000000
    ensures Pack(n / 0x40000, n / 0x1000 % 64, n / 64 % 64, n % 64) == n
    ensures Pack3(n / 0x10000, n / 0x100 % 256, n % 256) == n && n / 0x10000 < 256 && n / 0x40000 < 64
  {
    var a, b, x := n / 64, n / 0x1000, n / 0x100;
    assert a / 64 == b && b / 64 == n / 0x40000;
    assert a == b * 64 + a % 64 && b == n / 0x40000 * 64 + b % 64;
    assert x / 0x100 == n / 0x10000 && x == n / 0x10000 * 0x100 + x % 256;
  }

  lemma DigitsUnique(b0: byte, b1: byte, b2: byte, n: nat)
    requires n == Pack3(b0 as int, b1 as int, b2 as int)
    ensures n < 0x1000000 && n / 0x10000 == b0 as int && n / 0x100 % 256 == b1 as int && n % 256 == b2 as int
  {
    assert n / 0x100 == b0 as int * 0x100 + b1 as int;
  }

  lemma SextetsUnique(v0: Sextet, v1: Sextet, v2: Sextet, v3: Sextet, n: nat)
    requires n == Pack(v0, v1, v2, v3)
    ensures n < 0x1000000 && n / 0x40000 == v0 && n / 0x1000 % 64 == v1 && n / 64 % 64 == v2 && n % 64 == v3
  {
    assert n / 64 == v0 * 0x1000 + v1 * 64 + v2;
    assert n / 0x1000 == v0 * 64 + v1;
  }

  lemma UnpackedOf(v: seq<Sextet>, n: nat)
    requires |v| == 4 && Pack(v[0], v[1], v[2], v[3]) == n
    ensures Unpacked(v[0], v[1], v[2], v[3])
         == [(n / 0x10000 % 256) as byte, (n / 0x100 % 256) as byte, (n % 256) as byte]
  {
    hide Pack;
  }

  lemma PackUnpack(b0: byte, b1: byte, b2: byte)
    ensures var v := Sextets(b0, b1, b2);
            && Unpacked(v[0], v[1], v[2], v[3]) == [b0, b1, b2]
            && (b2 == 0 ==> v[3] == 0) && (b1 == 0 && b2 == 0 ==> v[2] == 0)
  {
    hide Pack, Pack3, Unpacked;
    var n := Pack3(b0 as int, b1 as int, b2 as int);
    DigitsUnique(b0, b1, b2, n);
    DigitsOf(n);
    UnpackedOf(Sextets(b0, b1, b2), n);
    SmallDigits(n);
  }

  lemma SmallDigits(n: nat)
    ensures n % 256 == 0 ==> n % 64 == 0
    ensures n % 256 == 0 && n / 0x100 % 256 == 0 ==> n / 64 % 64 == 0
  {
    assert n / 64 == n / 0x100 * 4 + n % 256 / 64;
  }

  lemma ChunkRoundTrip(chunk: Octets)
    requires 1 <= |chunk| <= 3
    ensures AllLetters(EncodeChunk(chunk))
    ensures DecodeChunk(EncodeChunk(chunk)) == chunk
  {
    var b1, b2 := At(chunk, 1), At(chunk, 2);
    var v, s := Sextets(chunk[0], b1, b2), EncodeChunk(chunk);
    PackUnpack(chunk[0], b1, b2);
    forall i | 0 <= i < |s| ensures Val(s[i]) == Some(v[i]) {
      ValOfLetter(v[i]);
    }
    assert ValAt(s, 0) == v[0] && ValAt(s, 1) == v[1] && ValAt(s, 2) == v[2] && ValAt(s, 3) == v[3];
    assert [chunk[0], b1, b2][..|chunk|] == chunk;
  }

  lemma EncodeFull(o: Octets, p: Octets)
    requires |o| == 3
    ensures Encode(o + p) == EncodeChunk(o) + Encode(p)
  {
    hide EncodeChunk;
    assert (o + p)[..3] == o && (o + p)[3..] == p;
  }

  lemma EncodeLast(o: Octets)
    requires 1 <= |o| <= 3
    ensures Encode(o) == EncodeChunk(o)
  {
    hide EncodeChunk;
    assert o[..|o|] == o && o[|o|..] == [];
  }

  lemma NothingIsLetters()
    ensures AllLetters("")
  {
  }

  lemma {:induction false} EncodeLength(data: Octets)
    ensures |Encode(data)| % 4 != 1 && AllLetters(Encode(data))
    ensures data != [] ==> |Encode(data)| >= 2
  {
    hide EncodeChunk, DecodeChunk, AllLetters, Encode;
    if data == [] {
      EncodeNothing([]);
      NothingIsLetters();
    } else if |data| <= 3 {
      EncodeLast(data);
      ChunkRoundTrip(data);
    } else {
      var head, rest := data[..3], data[3..];
      assert data == head + rest;
      EncodeFull(head, rest);
      ChunkRoundTrip(head);
      EncodeLength(rest);
      LettersConcat(EncodeChunk(head), Encode(rest));
    }
  }

  lemma LettersConcat(a: string, b: string)
    ensures AllLetters(a + b) <==> AllLetters(a) && AllLetters(b)
  {
    hide Val;
    if AllLetters(a + b) {
      assert forall i :: 0 <= i < |a| ==> a[i] == (a + b)[i];
      assert forall i :: 0 <= i < |b| ==> b[i] == (a + b)[|a| + i];
    }
  }

  lemma DecodeFull(head: string, rest: string)
    requires |head| == 4 && |rest| % 4 != 1
    ensures DecodeLetters(head + rest) == DecodeChunk(head) + DecodeLetters(rest)
  {
    hide DecodeChunk;
    assert (head + rest)[..4] == head && (head + rest)[4..] == rest;
  }

  lemma DecodeLast(head: string)
    requires 2 <= |head| <= 4
    ensures DecodeLetters(head) == DecodeChunk(head)
  {
    hide DecodeChunk;
    assert head[..|head|] == head && head[|head|..] == "";
  }

  /** Decoding an encoding gives back every octet string. */
  lemma {:induction false} DecodeOfEncode(data: Octets)
    ensures Decode(Encode(data)) == Ok(data)
  {
    hide Encode, EncodeChunk, DecodeChunk, DecodeLetters, AllLetters;
    EncodeLength(data);
    if data == [] {
      EncodeNothing([]);
      DecodeNothing("");
    } else if |data| <= 3 {
      EncodeLast(data);
      ChunkRoundTrip(data);
      DecodeLast(EncodeChunk(data));
    } else {
      var head, rest := data[..3], data[3..];
      assert data == head + rest;
      EncodeFull(head, rest);
      ChunkRoundTrip(head);
      DecodeOfEncode(rest);
      EncodeLength(rest);
      DecodeFull(EncodeChunk(head), Encode(rest));
    }
  }

  /** The low bits of the last character that no octet is made of. */
  predicate UnusedBitsZero(s: string) {
    s == "" || (
      var v := ValAt(s, |s| - 1);
      (|s| % 4 == 2 ==> v % 16 == 0) && (|s| % 4 == 3 ==> v % 4 == 0))
  }

  lemma UnpackPack(v0: Sextet, v1: Sextet, v2: Sextet, v3: Sextet)
    ensures var b := Unpacked(v0, v1, v2, v3);
            && Sextets(b[0], b[1], b[2]) == [v0, v1, v2, v3]
            && Sextets(b[0], b[1], 0)[..3] == [v0, v1, v2 / 4 * 4]
            && Sextets(b[0], 0, 0)[..2] == [v0, v1 / 16 * 16]
  {
    hide Pack, Pack3;
    var n, b := Pack(v0, v1, v2, v3), Unpacked(v0, v1, v2, v3);
    SextetsUnique(v0, v1, v2, v3, n);
    DigitsOf(n);
    assert Pack3(b[0] as int, b[1] as int, b[2] as int) == n;
    DropThird(b[0], b[1], b[2], n);
    DropSecond(b[0], b[1], b[2], n);
  }

  lemma HighPart(t: nat, b: nat)
    requires b < 256
    ensures (256 * t + b) / 64 == 4 * t + b / 64
    ensures (256 * t + b) / 0x1000 == t / 16
    ensures (256 * t + b) / 0x40000 == t / 0x400
  {
    assert (256 * t + b) / 256 == t;
    assert (256 * t + b) / 256 / 16 == (256 * t + b) / 0x1000;
    assert (256 * t + b) / 256 / 0x400 == (256 * t + b) / 0x40000;
  }

  lemma Mod64(q: nat, y: nat)
    requires y < 64
    ensures (64 * q + y) % 64 == y
  {
  }

  lemma LowDigit(t: nat, r: nat)
    requires r < 4
    ensures (4 * t + r) % 64 / 4 * 4 == 4 * t % 64
  {
    var q, m := t / 16, t % 16;
    Mod64(q, 4 * m + r);
    Mod64(q, 4 * m);
    assert 4 * t + r == 64 * q + (4 * m + r) && 4 * t == 64 * q + 4 * m;
    assert (4 * m + r) / 4 == m;
  }

  /** Without its last octet a chunk keeps the first two sextets and the high bits of the third. */
  lemma DropThird(b0: byte, b1: byte, b2: byte, n: nat)
    requires n == Pack3(b0 as int, b1 as int, b2 as int)
    ensures var m := Pack3(b0 as int, b1 as int, 0);
            m / 0x40000 == n / 0x40000 && m / 0x1000 % 64 == n / 0x1000 % 64 && m / 64 % 64 == n / 64 % 64 / 4 * 4
  {
    var t := b0 as int * 0x100 + b1 as int;
    HighPart(t, b2 as int);
    HighPart(t, 0);
    LowDigit(t, b2 as int / 64);
  }

  lemma HighPart2(t: nat, b: nat)
    requires b < 256
    ensures (256 * t + b) / 16 == 16 * t + b / 16
    ensures (16 * t + b / 16) % 64 / 16 * 16 == 16 * t % 64
    ensures (256 * t + b) / 0x400 == t / 4
  {
    assert (256 * t + b) / 256 == t && (256 * t + b) / 256 / 4 == (256 * t + b) / 0x400;
    assert t == t / 4 * 4 + t % 4;
    assert (16 * t + b / 16) % 64 == 16 * (t % 4) + b / 16;
  }

  lemma DropSecond(b0: byte, b1: byte, b2: byte, n: nat)
    requires n == Pack3(b0 as int, b1 as int, b2 as int)
    ensures var m := Pack3(b0 as int, 0, 0);
            m / 0x40000 == n / 0x40000 && m / 0x1000 % 64 == n / 0x1000 % 64 / 16 * 16
  {
    SecondSextet(b0 as int, b1 as int, b2 as int);
    SecondSextet(b0 as int, 0, 0);
    HighPart2(b0 as int, b1 as int);
    HighPart2(b0 as int, 0);
  }

  /** The first two sextets of three octets, from the octets. */
  lemma SecondSextet(b0: nat, b1: nat, b2: nat)
    requires b0 < 256 && b1 < 256 && b2 < 256
    ensures Pack3(b0, b1, b2) / 0x40000 == b0 / 4
    ensures Pack3(b0, b1, b2) / 0x1000 == 16 * b0 + b1 / 16
  {
    HighPart(b0 * 0x100 + b1, b2);
    HighPart2(b0, b1);
  }

  lemma LettersOfVals(s: string)
    requires AllLetters(s) && |s| <= 4
    ensures Letters([ValAt(s, 0), ValAt(s, 1), ValAt(s, 2), ValAt(s, 3)][..|s|]) == s
  {
    forall i | 0 <= i < |s| ensures Letter(ValAt(s, i)) == s[i] {
      LetterOfVal(s[i]);
    }
  }

  lemma LettersInjective(a: seq<Sextet>, b: seq<Sextet>)
    requires Letters(a) == Letters(b)
    ensures a == b
  {
    assert |Letters(a)| == |a| && |Letters(b)| == |b|;
    forall i | 0 <= i < |a| ensures a[i] == b[i] {
      assert Letters(a)[i] == Letters(b)[i];
      ValOfLetter(a[i]);
      ValOfLetter(b[i]);
    }
  }

  /** The last sextet of a chunk of `n` characters, with the bits no octet is made of cleared. */
  function Cleared(v: Sextet, n: nat): Sextet {
    if n == 2 then v / 16 * 16 else if n == 3 then v / 4 * 4 else v
  }

  lemma ChunkSextets(s: string)
    requires 2 <= |s| <= 4
    ensures var v, o := [ValAt(s, 0), ValAt(s, 1), ValAt(s, 2), ValAt(s, 3)], DecodeChunk(s);
            Sextets(o[0], At(o, 1), At(o, 2))[..|s|] == v[..|s| - 1] + [Cleared(v[|s| - 1], |s|)]
  {
    hide ValAt, Sextets, Unpacked;
    UnpackPack(ValAt(s, 0), ValAt(s, 1), ValAt(s, 2), ValAt(s, 3));
  }

  lemma LastLetterIff(v: seq<Sextet>, last: Sextet)
    requires v != []
    ensures Letters(v[..|v| - 1] + [last]) == Letters(v) <==> last == v[|v| - 1]
  {
    hide Letters;
    var w := v[..|v| - 1] + [last];
    if Letters(w) == Letters(v) {
      LettersInjective(w, v);
      assert w[|v| - 1] == last;
    }
    if last == v[|v| - 1] {
      assert w == v;
    }
  }

  lemma ChunkCanonicalIff(s: string)
    requires AllLetters(s) && 2 <= |s| <= 4
    ensures EncodeChunk(DecodeChunk(s)) == s <==> UnusedBitsZero(s)
  {
    hide ValAt, Letters, DecodeChunk, Sextets, Cleared, AllLetters;
    var v, o := [ValAt(s, 0), ValAt(s, 1), ValAt(s, 2), ValAt(s, 3)], DecodeChunk(s);
    var u := v[..|s|];
    ChunkSextets(s);
    LettersOfVals(s);
    LastLetterIff(u, Cleared(ValAt(s, |s| - 1), |s|));
    assert u[|s| - 1] == ValAt(s, |s| - 1);
    assert u[..|s| - 1] == v[..|s| - 1];
    ClearedIff(ValAt(s, |s| - 1), |s|);
    assert |s| % 4 == 2 <==> |s| == 2;
    assert |s| % 4 == 3 <==> |s| == 3;
  }

  lemma ClearedIff(v: Sextet, n: nat)
    ensures n == 2 ==> (Cleared(v, n) == v <==> v % 16 == 0)
    ensures n == 3 ==> (Cleared(v, n) == v <==> v % 4 == 0)
    ensures n != 2 && n != 3 ==> Cleared(v, n) == v
  {
  }

  /** Encoding a decoding gives back the string exactly when the unused low bits of its last
      character are zero. */
  lemma {:induction false} EncodeOfDecodeIff(s: string)
    requires Decode(s).Ok?
    ensures Encode(Decode(s).value) == s <==> UnusedBitsZero(s)
  {
    hide EncodeChunk, DecodeChunk, Val, ValAt, Encode;
    if s == "" {
      EncodeNothing([]);
    } else {
      var n := Min(4, |s|);
      var head, rest := s[..n], s[n..];
      assert s == head + rest;
      LettersConcat(head, rest);
      var o, p := DecodeChunk(head), DecodeLetters(rest);
      assert Decode(s).value == o + p;
      ChunkCanonicalIff(head);
      if rest == "" {
        assert o + p == o && head == s;
        EncodeLast(o);
      } else {
        EncodeOfDecodeIff(rest);
        EncodeFull(o, p);
        LastOfRest(s, n);
        FullIsCanonical(head);
        if Encode(o + p) == s {
          SplitEqual(EncodeChunk(o), Encode(p), head, rest);
        }
      }
    }
  }

  lemma LastOfRest(s: string, n: nat)
    requires n < |s|
    ensures ValAt(s, |s| - 1) == ValAt(s[n..], |s[n..]| - 1)
  {
    assert s[n..][|s[n..]| - 1] == s[|s| - 1];
  }

  lemma FullIsCanonical(head: string)
    ensures |head| == 4 ==> UnusedBitsZero(head)
  {
  }

  lemma EncodeHasNoSeparator(data: Octets)
    ensures '~' !in Encode(data) && '.' !in Encode(data)
  {
    EncodeLength(data);
    assert Val('~').None? && Val('.').None?;
  }
}
