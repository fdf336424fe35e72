/** String operations the modelled code takes from its host language, with their round trips. */
module Text {

  /** The pieces of `s` between occurrences of `sep`; never empty. */
  function Split(s: string, sep: char): (parts: seq<string>)
    ensures |parts| > 0
    ensures forall p :: p in parts ==> sep !in p
    ensures forall p, c :: p in parts && c in p ==> c in s
  {
    if s == "" then [""]
    else
      var rest := Split(s[1..], sep);
      if s[0] == sep then [""] + rest else [[s[0]] + rest[0]] + rest[1..]
  }

  function Join(parts: seq<string>, sep: char): string
  {
    if |parts| == 0 then ""
    else if |parts| == 1 then parts[0]
    else parts[0] + [sep] + Join(parts[1..], sep)
  }

  lemma {:induction false} JoinSplit(s: string, sep: char)
    ensures Join(Split(s, sep), sep) == s
  {
    if s != "" {
      JoinSplit(s[1..], sep);
      var rest := Split(s[1..], sep);
      var parts := Split(s, sep);
      if s[0] == sep {
        assert parts[1..] == rest;
      } else if |rest| > 1 {
        assert parts[1..] == rest[1..];
      }
    }
  }

  lemma {:induction false} SplitPiece(p: string, sep: char)
    requires sep !in p
    ensures Split(p, sep) == [p]
  {
    if p != "" {
      SplitPiece(p[1..], sep);
      assert p == [p[0]] + p[1..];
    }
  }

  lemma SplitCons(c: char, s: string, sep: char)
    ensures Split([c] + s, sep) == if c == sep then [""] + Split(s, sep) else [[c] + Split(s, sep)[0]] + Split(s, sep)[1..]
  {
    assert ([c] + s)[1..] == s;
  }

  lemma HeadOfConcat(a: seq<string>, b: seq<string>)
    requires a != []
    ensures (a + b)[0] == a[0] && (a + b)[1..] == a[1..] + b
  {
  }

  lemma SplitBoth(c: char, a: string, all: string, after: seq<string>, sep: char)
    requires Split(all, sep) == Split(a, sep) + after
    ensures Split([c] + all, sep) == Split([c] + a, sep) + after
  {
    var before := Split(a, sep);
    SplitCons(c, a, sep);
    SplitCons(c, all, sep);
    HeadOfConcat(before, after);
    Reassociate([""], before, after);
    Reassociate([[c] + before[0]], before[1..], after);
  }

  lemma Reassociate(a: seq<string>, b: seq<string>, c: seq<string>)
    ensures (a + b) + c == a + (b + c)
  {
  }

  lemma {:induction false} SplitBefore(a: string, tail: string, sep: char)
    requires tail != "" && tail[0] == sep
    ensures Split(a + tail, sep) == Split(a, sep) + Split(tail[1..], sep)
  {
    if a == "" {
      assert a + tail == tail;
    } else {
      SplitBefore(a[1..], tail, sep);
      assert a + tail == [a[0]] + (a[1..] + tail) && a == [a[0]] + a[1..];
      SplitBoth(a[0], a[1..], a[1..] + tail, Split(tail[1..], sep), sep);
    }
  }

  /** Splitting at one known separator splits both sides. */
  lemma SplitConcat(a: string, b: string, sep: char)
    ensures Split(a + [sep] + b, sep) == Split(a, sep) + Split(b, sep)
  {
    assert a + [sep] + b == a + ([sep] + b);
    SplitBefore(a, [sep] + b, sep);
  }

  lemma {:induction false} SplitJoin(parts: seq<string>, sep: char)
    requires |parts| > 0
    requires forall p :: p in parts ==> sep !in p
    ensures Split(Join(parts, sep), sep) == parts
  {
    if |parts| == 1 {
      SplitPiece(parts[0], sep);
    } else {
      SplitPiece(parts[0], sep);
      SplitJoin(parts[1..], sep);
      SplitConcat(parts[0], Join(parts[1..], sep), sep);
      assert parts == [parts[0]] + parts[1..];
    }
  }

  lemma {:induction false} JoinConcat(a: seq<string>, b: seq<string>, sep: char)
    requires |a| > 0 && |b| > 0
    ensures Join(a + b, sep) == Join(a, sep) + [sep] + Join(b, sep)
  {
    if |a| == 1 {
      assert (a + b)[1..] == b;
    } else {
      JoinConcat(a[1..], b, sep);
      assert (a + b)[1..] == a[1..] + b;
    }
  }

  /** Two records cut at their first separator agree exactly when both halves agree. */
  lemma {:induction false} CutInjective(a: string, b: string, c: string, d: string, sep: char)
    requires sep !in a && sep !in c
    requires a + [sep] + b == c + [sep] + d
    ensures a == c && b == d
  {
    SplitConcat(a, b, sep);
    SplitConcat(c, d, sep);
    SplitPiece(a, sep);
    SplitPiece(c, sep);
    assert a == Split(a + [sep] + b, sep)[0];
    assert b == (a + [sep] + b)[|a| + 1..] && d == (c + [sep] + d)[|c| + 1..];
  }

  predicate StartsWith(s: string, prefix: string)
  {
    prefix <= s
  }

  /** Python's `str.replace`: leftmost, non-overlapping occurrences. */
  function Replace(s: string, old_: string, by_: string): string
    requires |old_| > 0
  {
    if |s| < |old_| then s
    else if s[..|old_|] == old_ then by_ + Replace(s[|old_|..], old_, by_)
    else [s[0]] + Replace(s[1..], old_, by_)
  }

  /** Characters removed by Python's `str.strip()`. */
  predicate IsSpace(c: char)
  {
    var n := c as int;
    9 <= n <= 13 || 28 <= n <= 32 || n == 0x85 || n == 0xa0 || n == 0x1680
    || 0x2000 <= n <= 0x200a || n == 0x2028 || n == 0x2029 || n == 0x202f || n == 0x205f || n == 0x3000
  }

  /** They are these 29: tabs and line breaks, the four separators, the space, and Unicode's other spaces and separators. */
  lemma SpacesExactly(c: char)
    ensures IsSpace(c) <==>
              c as int in {0x9, 0xa, 0xb, 0xc, 0xd, 0x1c, 0x1d, 0x1e, 0x1f, 0x20, 0x85, 0xa0, 0x1680, 0x2000, 0x2001, 0x2002,
                           0x2003, 0x2004, 0x2005, 0x2006, 0x2007, 0x2008, 0x2009, 0x200a, 0x2028, 0x2029, 0x202f, 0x205f, 0x3000}
  {
  }

  function TrimLeft(s: string, drop: char -> bool): string
  {
    if s != "" && drop(s[0]) then TrimLeft(s[1..], drop) else s
  }

  function TrimRight(s: string, drop: char -> bool): string
  {
    if s != "" && drop(s[|s| - 1]) then TrimRight(s[..|s| - 1], drop) else s
  }

  function Trim(s: string, drop: char -> bool): string
  {
    TrimRight(TrimLeft(s, drop), drop)
  }

  lemma {:induction false} TrimBounds(s: string, drop: char -> bool)
    ensures |Trim(s, drop)| <= |s|
    ensures Trim(s, drop) == s <==> (s == "" || (!drop(s[0]) && !drop(s[|s| - 1])))
    ensures |Trim(s, drop)| == |s| ==> Trim(s, drop) == s
  {
    TrimLeftBound(s, drop);
    TrimRightBound(TrimLeft(s, drop), drop);
  }

  lemma TrimLeftBound(s: string, drop: char -> bool)
    ensures |TrimLeft(s, drop)| <= |s|
    ensures TrimLeft(s, drop) == s <==> (s == "" || !drop(s[0]))
    ensures |TrimLeft(s, drop)| == |s| ==> TrimLeft(s, drop) == s
  {
    if s != "" && drop(s[0]) { TrimLeftBound(s[1..], drop); }
  }

  lemma TrimRightBound(s: string, drop: char -> bool)
    ensures |TrimRight(s, drop)| <= |s|
    ensures TrimRight(s, drop) == s <==> (s == "" || !drop(s[|s| - 1]))
    ensures |TrimRight(s, drop)| == |s| ==> TrimRight(s, drop) == s
    ensures TrimRight(s, drop) <= s
  {
    if s != "" && drop(s[|s| - 1]) { TrimRightBound(s[..|s| - 1], drop); }
  }
}
