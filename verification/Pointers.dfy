/** Claim pointers (`src/jwp.rs`): escaping by sections 3 and 4 of RFC 6901, and the text a path of
    member names is written as. */
module Pointers {
  import opened Text

  // ---- Replacing ----

  /** `s.replace(ch, to)` */
  function ReplaceChar(s: string, ch: char, to: string): string {
    if s == "" then "" else (if s[0] == ch then to else [s[0]]) + ReplaceChar(s[1..], ch, to)
  }

  /** `s.replace(pair, to)` for a pattern of two characters: left to right, without overlap. */
  function ReplacePair(s: string, pair: string, to: string): string
    requires |pair| == 2
  {
    if |s| < 2 then s
    else if s[..2] == pair then to + ReplacePair(s[2..], pair, to)
    else [s[0]] + ReplacePair(s[1..], pair, to)
  }

  /** First `~` becomes `~0`, then `/` becomes `~1`. */
  function Escape(name: string): string {
    ReplaceChar(ReplaceChar(name, '~', "~0"), '/', "~1")
  }

  /** First `~1` becomes `/`, then `~0` becomes `~`. */
  function Unescape(segment: string): string {
    ReplacePair(ReplacePair(segment, "~1", "/"), "~0", "~")
  }

  lemma ReplaceHead(ch: char, s: string, what: char, to: string)
    ensures ReplaceChar([ch] + s, what, to) == (if ch == what then to else [ch]) + ReplaceChar(s, what, to)
  {
    assert ([ch] + s)[1..] == s;
  }

  lemma PairMatch(s: string, pair: string, to: string)
    requires |pair| == 2
    ensures ReplacePair(pair + s, pair, to) == to + ReplacePair(s, pair, to)
  {
    assert (pair + s)[..2] == pair && (pair + s)[2..] == s;
  }

  lemma PairSkip(ch: char, s: string, pair: string, to: string)
    requires |pair| == 2
    requires ch != pair[0] || s == "" || s[0] != pair[1]
    ensures ReplacePair([ch] + s, pair, to) == [ch] + ReplacePair(s, pair, to)
  {
    if s != "" {
      assert ([ch] + s)[..2] == [ch, s[0]] && ([ch] + s)[1..] == s;
    }
  }

  /** The second escaping pass is undone by the first unescaping pass. */
  lemma {:induction false} SlashesRestored(name: string)
    ensures var t := ReplaceChar(name, '~', "~0"); ReplacePair(ReplaceChar(t, '/', "~1"), "~1", "/") == t
  {
    if name != "" {
      var rest := ReplaceChar(name[1..], '~', "~0");
      var escaped := ReplaceChar(rest, '/', "~1");
      SlashesRestored(name[1..]);
      if name[0] == '~' {
        assert "~0" + rest == ['~'] + (['0'] + rest);
        ReplaceHead('0', rest, '/', "~1");
        ReplaceHead('~', ['0'] + rest, '/', "~1");
        PairSkip('0', escaped, "~1", "/");
        PairSkip('~', ['0'] + escaped, "~1", "/");
      } else {
        ReplaceHead(name[0], rest, '/', "~1");
        if name[0] == '/' {
          PairMatch(escaped, "~1", "/");
        } else {
          PairSkip(name[0], escaped, "~1", "/");
        }
      }
    }
  }

  lemma {:induction false} TildesRestored(name: string)
    ensures ReplacePair(ReplaceChar(name, '~', "~0"), "~0", "~") == name
  {
    if name != "" {
      var rest := ReplaceChar(name[1..], '~', "~0");
      TildesRestored(name[1..]);
      if name[0] == '~' {
        PairMatch(rest, "~0", "~");
      } else {
        PairSkip(name[0], rest, "~0", "~");
      }
      assert [name[0]] + name[1..] == name;
    }
  }

  /** Unescaping undoes escaping, for every name. */
  lemma UnescapeOfEscape(name: string)
    ensures Unescape(Escape(name)) == name
  {
    SlashesRestored(name);
    TildesRestored(name);
  }

  lemma EscapeInjective(a: string, b: string)
    requires Escape(a) == Escape(b)
    ensures a == b
  {
    UnescapeOfEscape(a);
    UnescapeOfEscape(b);
  }

  lemma {:induction false} ReplacedIsGone(s: string, ch: char, to: string)
    requires ch !in to
    ensures ch !in ReplaceChar(s, ch, to)
    ensures |to| >= 1 ==> |ReplaceChar(s, ch, to)| >= |s|
  {
    if s != "" {
      ReplacedIsGone(s[1..], ch, to);
    }
  }

  lemma {:induction false} ReplaceNothing(s: string, ch: char, to: string)
    ensures ch !in s ==> ReplaceChar(s, ch, to) == s
    ensures ch in s && |to| >= 2 ==> |ReplaceChar(s, ch, to)| > |s|
    ensures |to| >= 1 ==> |ReplaceChar(s, ch, to)| >= |s|
  {
    if s != "" {
      ReplaceNothing(s[1..], ch, to);
      assert s == [s[0]] + s[1..];
    }
  }

  /** No escaped name holds a slash, and escaping changes exactly the names that hold a tilde or a
      slash. */
  lemma EscapeChangesIff(name: string)
    ensures '/' !in Escape(name)
    ensures |Escape(name)| >= |name|
    ensures Escape(name) == name <==> '~' !in name && '/' !in name
  {
    var t := ReplaceChar(name, '~', "~0");
    ReplacedIsGone(t, '/', "~1");
    ReplaceNothing(name, '~', "~0");
    ReplaceNothing(t, '/', "~1");
  }

  // ---- Paths of member names ----

  type Path = seq<string>

  function Escaped(path: Path): (r: seq<string>)
    ensures |r| == |path|
    ensures forall i :: 0 <= i < |path| ==> r[i] == Escape(path[i])
  {
    seq(|path|, i requires 0 <= i < |path| => Escape(path[i]))
  }

  /** `{prefix}/{escaped}`, once per name. */
  function Render(path: Path): string {
    if path == [] then "" else "/" + Escape(path[0]) + Render(path[1..])
  }

  /** A pointer is never written empty. */
  function PointerOf(prefix: string): string {
    if prefix == "" then "/" else prefix
  }

  lemma RenderSplits(prefix: string, name: string, rest: Path)
    ensures (prefix + "/" + Escape(name)) + Render(rest) == prefix + Render([name] + rest)
  {
    assert ([name] + rest)[1..] == rest;
  }

  lemma {:induction false} RenderIsJoin(path: Path)
    requires path != []
    ensures Render(path) == "/" + Join(Escaped(path), '/')
  {
    hide Escape;
    if |path| > 1 {
      RenderIsJoin(path[1..]);
      assert Escaped(path)[1..] == Escaped(path[1..]);
      assert Join(Escaped(path), '/') == Escape(path[0]) + "/" + Join(Escaped(path[1..]), '/');
    } else {
      assert Render(path[1..]) == "";
    }
  }

  lemma EscapedIsFree(path: Path)
    ensures Free(Escaped(path), '/')
  {
    forall i | 0 <= i < |path| ensures '/' !in Escaped(path)[i] {
      EscapeChangesIff(path[i]);
    }
  }

  lemma EscapedInjective(a: Path, b: Path)
    requires Escaped(a) == Escaped(b)
    ensures a == b
  {
    assert |Escaped(a)| == |a| && |Escaped(b)| == |b|;
    forall i | 0 <= i < |a| ensures a[i] == b[i] {
      assert Escaped(a)[i] == Escaped(b)[i];
      EscapeInjective(a[i], b[i]);
    }
  }

  /** Two paths are written alike only when they are the same path. */
  lemma RenderInjective(a: Path, b: Path)
    requires Render(a) == Render(b)
    ensures a == b
  {
    if a == [] || b == [] {
    } else {
      RenderIsJoin(a);
      RenderIsJoin(b);
      SplitEqualTails(Join(Escaped(a), '/'), Join(Escaped(b), '/'));
      EscapedIsFree(a);
      EscapedIsFree(b);
      JoinInjective(Escaped(a), Escaped(b), '/');
      EscapedInjective(a, b);
    }
  }

  lemma SplitEqualTails(a: string, b: string)
    requires "/" + a == "/" + b
    ensures a == b
  {
    assert ("/" + a)[1..] == a && ("/" + b)[1..] == b;
  }

  /** `s.trim_start_matches('/')` */
  function TrimSlashes(s: string): string {
    if s != "" && s[0] == '/' then TrimSlashes(s[1..]) else s
  }

  /** The parts `insert_at_pointer` works through. */
  function Parts(pointer: string): (parts: seq<string>)
    ensures parts != []
  {
    Split(TrimSlashes(pointer), '/')
  }

  lemma JoinHead(parts: seq<string>, sep: char)
    requires parts != [] && parts[0] != ""
    ensures Join(parts, sep) != "" && Join(parts, sep)[0] == parts[0][0]
  {
  }

  lemma TrimOne(s: string)
    requires s == "" || s[0] != '/'
    ensures TrimSlashes("/" + s) == s
    ensures s != "" ==> "/" + s != "/"
  {
    assert ("/" + s)[1..] == s;
    assert |"/" + s| == 1 + |s|;
  }

  /** The parts of a written path are its escaped names, once the first name is not empty. */
  lemma PartsOfRender(path: Path)
    requires path != [] && path[0] != ""
    ensures Parts(Render(path)) == Escaped(path)
    ensures Render(path) != "/"
  {
    hide Render, Join, Split, Escape;
    RenderIsJoin(path);
    EscapedIsFree(path);
    EscapeChangesIff(path[0]);
    var joined := Join(Escaped(path), '/');
    JoinHead(Escaped(path), '/');
    assert Escaped(path)[0][0] in Escape(path[0]);
    TrimOne(joined);
    SplitOfJoin(Escaped(path), '/');
  }

  /** A path whose first name is empty is read as if its leading empty names were absent. */
  lemma {:induction false} PartsOfEmptyHead(path: Path)
    requires path != [] && path[0] == ""
    ensures |path| == 1 ==> Render(path) == "/" && Parts(Render(path)) == [""]
    ensures |path| > 1 ==> Parts(Render(path)) == Parts(Render(path[1..])) && Render(path) == "/" + Render(path[1..])
  {
    hide Escape, Split;
    EmptyEscapes();
    assert Render(path) == "/" + Render(path[1..]) by {
      assert "/" + "" == "/";
    }
    if |path| == 1 {
      assert Render(path[1..]) == "";
      TrimOne("");
      SplitNothing();
    } else {
      assert Render(path)[1..] == Render(path[1..]);
    }
  }

  lemma EmptyEscapes()
    ensures Escape("") == ""
  {
  }

  lemma SplitNothing()
    ensures Split("", '/') == [""]
  {
  }

  // ---- Array positions as names ----

  function Digit(d: nat): char
    requires d < 10
  {
    "0123456789"[d]
  }

  /** A position in decimal. */
  function Decimal(n: nat): (s: string)
    ensures s != ""
  {
    if n < 10 then [Digit(n)] else Decimal(n / 10) + [Digit(n % 10)]
  }

  lemma DigitInjective(a: nat, b: nat)
    requires a < 10 && b < 10 && Digit(a) == Digit(b)
    ensures a == b
  {
  }

  lemma {:induction false} DecimalInjective(m: nat, n: nat)
    requires Decimal(m) == Decimal(n)
    ensures m == n
  {
    var s := Decimal(m);
    if m >= 10 && n >= 10 {
      assert s[..|s| - 1] == Decimal(m / 10) && s[..|s| - 1] == Decimal(n / 10);
      DecimalInjective(m / 10, n / 10);
      DigitInjective(m % 10, n % 10);
    } else if m < 10 && n < 10 {
      DigitInjective(m, n);
    }
  }

  lemma {:induction false} DecimalIsPlain(n: nat)
    ensures Escape(Decimal(n)) == Decimal(n)
  {
    NoSpecials(n);
    EscapeChangesIff(Decimal(n));
  }

  lemma {:induction false} NoSpecials(n: nat)
    ensures '~' !in Decimal(n) && '/' !in Decimal(n)
  {
    if n >= 10 {
      NoSpecials(n / 10);
      DigitIsPlain(n % 10);
    } else {
      DigitIsPlain(n);
    }
  }

  lemma DigitIsPlain(d: nat)
    requires d < 10
    ensures Digit(d) != '~' && Digit(d) != '/'
  {
  }
}
