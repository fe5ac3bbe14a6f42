/** Splitting, joining and replacing in text, as the standard library of the source does it. */
module Text {

  /** `s.split(sep)`: always at least one part. */
  function Split(s: string, sep: char): (parts: seq<string>)
    ensures |parts| >= 1
  {
    if s == "" then [""]
    else
      var rest := Split(s[1..], sep);
      if s[0] == sep then [""] + rest else [[s[0]] + rest[0]] + rest[1..]
  }

  /** `parts.join(sep)` */
  function Join(parts: seq<string>, sep: char): string {
    if parts == [] then ""
    else if |parts| == 1 then parts[0]
    else parts[0] + [sep] + Join(parts[1..], sep)
  }

  predicate Free(parts: seq<string>, sep: char) {
    forall i :: 0 <= i < |parts| ==> sep !in parts[i]
  }

  lemma SplitChar(ch: char, s: string, sep: char)
    ensures Split([ch] + s, sep)
         == if ch == sep then [""] + Split(s, sep) else [[ch] + Split(s, sep)[0]] + Split(s, sep)[1..]
  {
    assert ([ch] + s)[1..] == s;
  }

  /** Splitting after a part free of the separator yields that part first. */
  lemma {:induction false} SplitAfter(part: string, s: string, sep: char)
    requires sep !in part
    ensures Split(part + [sep] + s, sep) == [part] + Split(s, sep)
  {
    if part == "" {
      assert part + [sep] + s == [sep] + s;
      SplitChar(sep, s, sep);
    } else {
      assert sep !in part[1..];
      SplitAfter(part[1..], s, sep);
      assert part + [sep] + s == [part[0]] + (part[1..] + [sep] + s);
      SplitChar(part[0], part[1..] + [sep] + s, sep);
      assert Split(part[1..] + [sep] + s, sep)[1..] == Split(s, sep);
      assert [part[0]] + part[1..] == part;
    }
  }

  lemma {:induction false} SplitFree(part: string, sep: char)
    requires sep !in part
    ensures Split(part, sep) == [part]
  {
    if part != "" {
      assert sep !in part[1..];
      SplitFree(part[1..], sep);
      assert part == [part[0]] + part[1..];
    }
  }

  /** Splitting undoes joining, on every non-empty list of parts free of the separator. */
  lemma {:induction false} SplitOfJoin(parts: seq<string>, sep: char)
    requires parts != [] && Free(parts, sep)
    ensures Split(Join(parts, sep), sep) == parts
  {
    if |parts| == 1 {
      SplitFree(parts[0], sep);
    } else {
      SplitOfJoin(parts[1..], sep);
      SplitAfter(parts[0], Join(parts[1..], sep), sep);
    }
  }

  /** Joining undoes splitting, on every text. */
  lemma {:induction false} JoinOfSplit(s: string, sep: char)
    ensures Free(Split(s, sep), sep)
    ensures Join(Split(s, sep), sep) == s
  {
    if s != "" {
      var rest := Split(s[1..], sep);
      JoinOfSplit(s[1..], sep);
      if s[0] == sep {
        assert Split(s, sep)[1..] == rest;
        assert s == "" + [sep] + s[1..];
      } else {
        assert Split(s, sep) == [[s[0]] + rest[0]] + rest[1..];
        if |rest| > 1 {
          assert Split(s, sep)[1..] == rest[1..];
          assert Join(Split(s, sep), sep) == [s[0]] + (rest[0] + [sep] + Join(rest[1..], sep));
        }
      }
    }
  }

  lemma JoinInjective(a: seq<string>, b: seq<string>, sep: char)
    requires a != [] && b != [] && Free(a, sep) && Free(b, sep)
    requires Join(a, sep) == Join(b, sep)
    ensures a == b
  {
    SplitOfJoin(a, sep);
    SplitOfJoin(b, sep);
  }
}
