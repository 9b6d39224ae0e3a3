/** The parts of Go's `strings` package that exterror.go relies on:
    `Split` with a one-character separator, `Join` and `TrimLeft` with a
    one-character cut set. A Go string is a sequence of bytes; here each byte
    is one `char`. */
module GoStrings {

  /** Number of occurrences of `c` in `s`. */
  function Count(s: string, c: char): (n: nat)
    ensures n <= |s|
    ensures n == 0 <==> c !in s
  {
    if s == [] then 0 else (if s[0] == c then 1 else 0) + Count(s[1..], c)
  }

  /** strings.Split(s, sep) for a one-character `sep`: the pieces of `s`
      between separators, in order. There is always at least one piece; the
      empty string splits into one empty piece. */
  function Split(s: string, sep: char): (parts: seq<string>)
    ensures |parts| == Count(s, sep) + 1
    ensures forall i :: 0 <= i < |parts| ==> sep !in parts[i]
  {
    if s == [] then [""]
    else
      var rest := Split(s[1..], sep);
      if s[0] == sep then [""] + rest
      else [[s[0]] + rest[0]] + rest[1..]
  }

  /** strings.Join(parts, sep). */
  function Join(parts: seq<string>, sep: string): string
  {
    if |parts| == 0 then ""
    else if |parts| == 1 then parts[0]
    else parts[0] + sep + Join(parts[1..], sep)
  }

  /** strings.TrimLeft(s, cutset) for a one-character cut set. */
  function TrimLeft(s: string, c: char): (r: string)
    ensures |r| <= |s| && r == s[|s| - |r|..]
    ensures r == [] || r[0] != c
    ensures forall i :: 0 <= i < |s| - |r| ==> s[i] == c
  {
    if s != [] && s[0] == c then TrimLeft(s[1..], c) else s
  }

  /** Joining starts with the first piece and ends with the last one. */
  lemma {:induction false} JoinEnds(parts: seq<string>, sep: string)
    requires |parts| > 0
    ensures parts[0] <= Join(parts, sep)
    ensures var s, last := Join(parts, sep), parts[|parts| - 1];
            |last| <= |s| && s[|s| - |last|..] == last
  {
    if |parts| > 1 {
      var rest := parts[1..];
      assert rest[|rest| - 1] == parts[|parts| - 1];
      JoinEnds(rest, sep);
      var lead, joined := parts[0] + sep, Join(rest, sep);
      assert Join(parts, sep) == lead + joined;
      ConcatAssoc(parts[0], sep, joined);
      SuffixCarries(lead, joined, parts[|parts| - 1]);
    }
  }

  /** A suffix of `b` is a suffix of `a + b`. */
  lemma SuffixCarries(a: string, b: string, t: string)
    requires |t| <= |b| && b[|b| - |t|..] == t
    ensures |t| <= |a + b| && (a + b)[|a + b| - |t|..] == t
  {
    assert (a + b)[|a + b| - |t|..] == b[|b| - |t|..];
  }

  lemma JoinCons(x: string, rest: seq<string>, sep: string)
    requires |rest| > 0
    ensures Join([x] + rest, sep) == x + sep + Join(rest, sep)
  {
    assert ([x] + rest)[1..] == rest;
  }

  /** Join of four pieces, written out. */
  lemma JoinFour(a: string, b: string, c: string, d: string, sep: string)
    ensures Join([a, b, c, d], sep) == a + sep + b + sep + c + sep + d
  {
    JoinCons(c, [d], sep);
    assert [b, c, d] == [b] + [c, d];
    JoinCons(b, [c, d], sep);
    assert [a, b, c, d] == [a] + [b, c, d];
    JoinCons(a, [b, c, d], sep);
  }

  /** Join of eight pieces, written out. */
  lemma JoinEight(a: string, b: string, c: string, d: string, e: string, f: string, g: string, h: string,
                  sep: string)
    ensures Join([a, b, c, d, e, f, g, h], sep)
            == a + sep + b + sep + c + sep + d + sep + e + sep + f + sep + g + sep + h
  {
    assert [a, b, c, d, e, f, g, h] == [a, b, c, d] + [e, f, g, h];
    JoinConcat([a, b, c, d], [e, f, g, h], sep);
    JoinFour(a, b, c, d, sep);
    JoinFour(e, f, g, h, sep);
    var l, r := a + sep + b + sep + c + sep + d, e + sep + f + sep + g + sep + h;
    assert l + sep + r == a + sep + b + sep + c + sep + d + sep + e + sep + f + sep + g + sep + h;
  }

  /** The last two pieces of a join, with the separator between them. */
  lemma JoinLastTwo(p: seq<string>, sep: string)
    requires |p| >= 3
    ensures Join(p, sep) == Join(p[..|p| - 2], sep) + sep + (p[|p| - 2] + sep + p[|p| - 1])
  {
    var n := |p|;
    assert p == p[..n - 2] + [p[n - 2], p[n - 1]];
    JoinConcat(p[..n - 2], [p[n - 2], p[n - 1]], sep);
    JoinCons(p[n - 2], [p[n - 1]], sep);
  }

  /** Joining two non-empty lists puts one separator between their joins. */
  lemma {:induction false} JoinConcat(a: seq<string>, b: seq<string>, sep: string)
    requires |a| > 0 && |b| > 0
    ensures Join(a + b, sep) == Join(a, sep) + sep + Join(b, sep)
  {
    if |a| == 1 {
      assert (a + b)[1..] == b;
    } else {
      assert (a + b)[1..] == a[1..] + b;
      JoinConcat(a[1..], b, sep);
    }
  }

  /** Growing the first piece by one character grows the join by it. */
  lemma JoinConsChar(c: char, parts: seq<string>, sep: string)
    requires |parts| > 0
    ensures Join([[c] + parts[0]] + parts[1..], sep) == [c] + Join(parts, sep)
  {
    var grown := [[c] + parts[0]] + parts[1..];
    if |parts| > 1 {
      assert grown[1..] == parts[1..];
    }
  }

  /** An empty first piece contributes only its separator. */
  lemma JoinConsEmpty(parts: seq<string>, sep: string)
    requires |parts| > 0
    ensures Join([""] + parts, sep) == sep + Join(parts, sep)
  {
    assert ([""] + parts)[1..] == parts;
  }

  /** Splitting and joining again on the same separator gives back the text. */
  lemma {:induction false} JoinSplit(s: string, sep: char)
    ensures Join(Split(s, sep), [sep]) == s
  {
    if s != [] {
      var rest := Split(s[1..], sep);
      JoinSplit(s[1..], sep);
      if s[0] == sep {
        JoinConsEmpty(rest, [sep]);
      } else {
        JoinConsChar(s[0], rest, [sep]);
      }
      assert [s[0]] + s[1..] == s;
    }
  }

  /** A text without the separator is a single piece. */
  lemma {:induction false} SplitNoSep(s: string, sep: char)
    requires sep !in s
    ensures Split(s, sep) == [s]
  {
    if s != [] {
      assert s[0] != sep && sep !in s[1..];
      SplitNoSep(s[1..], sep);
      assert [s[0]] + s[1..] == s;
    }
  }

  /** Split of a text that starts with the character `c`. */
  lemma SplitCons(c: char, t: string, sep: char)
    ensures Split([c] + t, sep)
            == if c == sep then [""] + Split(t, sep) else [[c] + Split(t, sep)[0]] + Split(t, sep)[1..]
  {
    assert ([c] + t)[0] == c && ([c] + t)[1..] == t;
  }

  lemma HeadTail<T>(a: seq<T>, b: seq<T>)
    requires |a| > 0
    ensures (a + b)[0] == a[0] && (a + b)[1..] == a[1..] + b
  {
  }

  lemma ConcatAssoc<T>(a: seq<T>, b: seq<T>, c: seq<T>)
    ensures a + (b + c) == a + b + c
  {
  }

  /** Splitting at one separator splits the two sides independently. */
  lemma {:induction false} SplitAtSep(x: string, y: string, sep: char)
    ensures Split(x + [sep] + y, sep) == Split(x, sep) + Split(y, sep)
  {
    if x == [] {
      assert x + [sep] + y == [sep] + y;
      SplitCons(sep, y, sep);
    } else {
      var t := x[1..] + [sep] + y;
      assert x + [sep] + y == [x[0]] + t;
      assert x == [x[0]] + x[1..];
      SplitAtSep(x[1..], y, sep);
      SplitCons(x[0], t, sep);
      SplitCons(x[0], x[1..], sep);
      var a, b := Split(x[1..], sep), Split(y, sep);
      HeadTail(a, b);
      ConcatAssoc([""], a, b);
      ConcatAssoc([[x[0]] + a[0]], a[1..], b);
    }
  }

  /** Joining pieces that hold no separator and splitting again gives back
      the pieces. */
  lemma {:induction false} SplitJoin(parts: seq<string>, sep: char)
    requires |parts| > 0
    requires forall i :: 0 <= i < |parts| ==> sep !in parts[i]
    ensures Split(Join(parts, [sep]), sep) == parts
  {
    if |parts| == 1 {
      SplitNoSep(parts[0], sep);
    } else {
      SplitNoSep(parts[0], sep);
      SplitJoin(parts[1..], sep);
      SplitAtSep(parts[0], Join(parts[1..], [sep]), sep);
    }
  }

  /** The last piece of a split is what follows the last separator: it is
      the whole text, or the text ends with the separator and that piece. */
  lemma LastPiece(s: string, sep: char)
    ensures var parts := Split(s, sep);
            var last := parts[|parts| - 1];
            |last| <= |s| && s[|s| - |last|..] == last
            && (|last| == |s| || s[|s| - |last| - 1] == sep)
  {
    var parts := Split(s, sep);
    var n := |parts|;
    var last := parts[n - 1];
    JoinSplit(s, sep);
    if n > 1 {
      var init := parts[..n - 1];
      assert init + [last] == parts;
      JoinConcat(init, [last], [sep]);
      assert s == Join(init, [sep]) + [sep] + last;
      assert s[|s| - |last| - 1] == sep;
    }
  }
}
