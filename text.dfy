/** The Python string operations the service relies on: slicing `s[:n]`,
    `str.strip`, `str.split`, `str.join` and `str(int)`. */
module Text {

  /** The characters for which Python's `str.isspace()` holds; `str.strip()`
      with no argument removes exactly these. */
  const Whitespace: set<char> := {
    '\t', '\n', '\U{b}', '\U{c}', '\r', '\U{1c}', '\U{1d}', '\U{1e}', '\U{1f}', ' ',
    '\U{85}', '\U{a0}', '\U{1680}',
    '\U{2000}', '\U{2001}', '\U{2002}', '\U{2003}', '\U{2004}', '\U{2005}',
    '\U{2006}', '\U{2007}', '\U{2008}', '\U{2009}', '\U{200a}',
    '\U{2028}', '\U{2029}', '\U{202f}', '\U{205f}', '\U{3000}'
  }

  /** `s[:n]` for a non-negative `n`. */
  function Take<T>(s: seq<T>, n: nat): (r: seq<T>)
    ensures |r| == if |s| < n then |s| else n
    ensures r == s[..|r|]
  {
    if |s| < n then s else s[..n]
  }

  /** The `n` characters of `s` from position `i` on. */
  function Piece(s: string, i: nat, n: nat): string
    requires i + n <= |s|
  {
    s[i..i + n]
  }

  /** `r` occurs in `s` as a contiguous piece. */
  ghost predicate IsSlice(r: string, s: string) {
    exists i: nat :: i <= |s| - |r| && Piece(s, i, |r|) == r
  }

  /** `s.lstrip(cs)` */
  function StripStart(s: string, cs: set<char>): (r: string)
    ensures |r| <= |s| && r == s[|s| - |r|..]
    ensures forall k :: 0 <= k < |s| - |r| ==> s[k] in cs
    ensures r != [] ==> r[0] !in cs
  {
    if s != [] && s[0] in cs then
      var r := StripStart(s[1..], cs);
      assert s[1..][|s| - 1 - |r|..] == s[|s| - |r|..];
      r
    else s
  }

  /** `s.rstrip(cs)` */
  function StripEnd(s: string, cs: set<char>): (r: string)
    ensures |r| <= |s| && r == s[..|r|]
    ensures forall k :: |r| <= k < |s| ==> s[k] in cs
    ensures r != [] ==> r[|r| - 1] !in cs
  {
    if s != [] && s[|s| - 1] in cs then
      var r := StripEnd(s[..|s| - 1], cs);
      assert s[..|s| - 1][..|r|] == s[..|r|];
      r
    else s
  }

  /** `r` is `s` from position `i` on, with everything before and after it
      in `cs`. */
  ghost predicate StrippedAt(s: string, cs: set<char>, i: nat, r: string) {
    && i + |r| <= |s| && Piece(s, i, |r|) == r
    && (forall k :: 0 <= k < i ==> s[k] in cs)
    && (forall k :: i + |r| <= k < |s| ==> s[k] in cs)
  }

  /** `s.strip(cs)`: the longest leading and trailing runs of characters in
      `cs` are removed, and nothing else. */
  function Strip(s: string, cs: set<char>): (r: string)
    ensures exists i: nat :: StrippedAt(s, cs, i, r)
    ensures r != [] ==> r[0] !in cs && r[|r| - 1] !in cs
  {
    var t := StripStart(s, cs);
    var r := StripEnd(t, cs);
    StripIsStrippedAt(s, cs, t, r);
    r
  }

  lemma StripIsStrippedAt(s: string, cs: set<char>, t: string, r: string)
    requires |t| <= |s| && t == s[|s| - |t|..] && forall k :: 0 <= k < |s| - |t| ==> s[k] in cs
    requires |r| <= |t| && r == t[..|r|] && forall k :: |r| <= k < |t| ==> t[k] in cs
    ensures StrippedAt(s, cs, |s| - |t|, r)
  {
    var i := |s| - |t|;
    assert Piece(s, i, |r|) == r by {
      assert t == s[i..] && r == t[..|r|];
      assert s[i..][..|r|] == s[i..i + |r|];
    }
    assert forall k :: i + |r| <= k < |s| ==> s[k] in cs by {
      forall k | i + |r| <= k < |s| ensures s[k] in cs {
        assert s[k] == t[k - i];
      }
    }
  }

  /** A stripped string is a piece of the original. */
  lemma StripIsSlice(s: string, cs: set<char>)
    ensures IsSlice(Strip(s, cs), s)
  {
    var r := Strip(s, cs);
    var i: nat :| StrippedAt(s, cs, i, r);
    assert Piece(s, i, |r|) == r;
  }

  lemma PrefixIsSlice(a: string, b: string)
    requires a <= b
    ensures IsSlice(a, b)
  {
    assert Piece(b, 0, |a|) == a;
  }

  lemma SliceTransitive(a: string, b: string, c: string)
    requires IsSlice(a, b) && IsSlice(b, c)
    ensures IsSlice(a, c)
  {
    var i: nat :| i <= |b| - |a| && Piece(b, i, |a|) == a;
    var j: nat :| j <= |c| - |b| && Piece(c, j, |b|) == b;
    assert b == c[j..j + |b|];
    assert a == b[i..i + |a|];
    assert forall k :: 0 <= k < |a| ==> a[k] == c[j + i + k];
    assert Piece(c, j + i, |a|) == a;
  }

  /** Stripping twice removes nothing more. */
  lemma StripIdempotent(s: string, cs: set<char>)
    ensures Strip(Strip(s, cs), cs) == Strip(s, cs)
  {
    var r := Strip(s, cs);
    if r != [] {
      assert StripStart(r, cs) == r;
      assert StripEnd(r, cs) == r;
    }
  }

  /** A string that neither starts nor ends with a character of `cs` is
      left as it is. */
  lemma StripKeepsBare(s: string, cs: set<char>)
    requires s != [] ==> s[0] !in cs && s[|s| - 1] !in cs
    ensures Strip(s, cs) == s
  {
    if s != [] {
      assert StripStart(s, cs) == s;
    }
  }

  /** One step of the leading strip. */
  lemma StripStartStep(s: string, cs: set<char>)
    requires s != [] && s[0] in cs
    ensures StripStart(s, cs) == StripStart(s[1..], cs)
  {
  }

  /** One step of the trailing strip. */
  lemma StripEndStep(s: string, cs: set<char>)
    requires s != [] && s[|s| - 1] in cs
    ensures StripEnd(s, cs) == StripEnd(s[..|s| - 1], cs)
  {
  }

  /** Stripping `q` from `q + core + q` leaves `core` when `core` neither
      starts nor ends with `q`. */
  lemma StripOneLayer(core: string, q: char)
    requires core != [] ==> core[0] != q && core[|core| - 1] != q
    ensures Strip([q] + core + [q], {q}) == core
  {
    var quoted := [q] + core + [q];
    assert quoted[1..] == core + [q];
    StripStartStep(quoted, {q});
    if core == [] {
      StripStartStep(core + [q], {q});
    } else {
      StripKeepsBare(core, {q});
      assert StripStart(core + [q], {q}) == core + [q];
      assert (core + [q])[..|core|] == core;
      StripEndStep(core + [q], {q});
    }
  }

  /** Two strips in a row remove, from either end, only characters of the
      two sets. */
  lemma StrippedAtCompose(s: string, a: set<char>, i: nat, t: string, b: set<char>, j: nat, r: string)
    requires StrippedAt(s, a, i, t) && StrippedAt(t, b, j, r)
    ensures StrippedAt(s, a + b, i + j, r)
  {
    assert t == s[i..i + |t|];
    assert Piece(s, i + j, |r|) == r by {
      assert r == t[j..j + |r|];
      forall k | 0 <= k < |r| ensures s[i + j + k] == r[k] {
        assert r[k] == t[j + k];
      }
    }
    forall k | 0 <= k < i + j ensures s[k] in a + b {
      if k >= i {
        assert s[k] == t[k - i];
      }
    }
    forall k | i + j + |r| <= k < |s| ensures s[k] in a + b {
      if k < i + |t| {
        assert s[k] == t[k - i];
      }
    }
  }

  /** Number of occurrences of `c` in `s`. */
  function Count(s: string, c: char): nat {
    if s == [] then 0 else (if s[0] == c then 1 else 0) + Count(s[1..], c)
  }

  /** `sep.join(parts)` */
  function JoinWith(parts: seq<string>, sep: string): (s: string)
    ensures parts == [] ==> s == ""
    ensures |parts| == 1 ==> s == parts[0]
    ensures |parts| > 1 ==> parts[0] + sep <= s
  {
    if |parts| == 0 then ""
    else if |parts| == 1 then parts[0]
    else parts[0] + sep + JoinWith(parts[1..], sep)
  }

  /** `s.split(c)` for a one-character separator: never empty, and no part
      holds the separator. */
  function Split(s: string, c: char): (parts: seq<string>)
    ensures |parts| >= 1
    ensures forall k :: 0 <= k < |parts| ==> c !in parts[k]
  {
    if s == [] then [""]
    else
      var rest := Split(s[1..], c);
      if s[0] == c then [""] + rest
      else [[s[0]] + rest[0]] + rest[1..]
  }

  /** Joining the parts with the separator gives back the input. */
  lemma JoinCons(first: string, rest: seq<string>, sep: string)
    requires rest != []
    ensures JoinWith([first] + rest, sep) == first + sep + JoinWith(rest, sep)
  {
    assert ([first] + rest)[1..] == rest;
  }

  lemma {:induction false} JoinSplit(s: string, c: char)
    ensures JoinWith(Split(s, c), [c]) == s
  {
    if s != [] {
      var rest := Split(s[1..], c);
      JoinSplit(s[1..], c);
      if s[0] == c {
        JoinCons("", rest, [c]);
        assert s == [c] + s[1..];
      } else {
        if |rest| > 1 {
          JoinCons([s[0]] + rest[0], rest[1..], [c]);
          assert [rest[0]] + rest[1..] == rest;
          JoinCons(rest[0], rest[1..], [c]);
        }
        assert s == [s[0]] + s[1..];
      }
    }
  }

  /** One part more than there are separators. */
  lemma {:induction false} SplitLength(s: string, c: char)
    ensures |Split(s, c)| == Count(s, c) + 1
  {
    if s != [] {
      SplitLength(s[1..], c);
    }
  }

  lemma {:induction false} SplitNoSeparator(p: string, c: char)
    requires c !in p
    ensures Split(p, c) == [p]
  {
    if p != [] {
      SplitNoSeparator(p[1..], c);
      assert [p[0]] + p[1..] == p;
    }
  }

  lemma {:induction false} SplitAfterPart(p: string, c: char, rest: string)
    requires c !in p
    ensures Split(p + [c] + rest, c) == [p] + Split(rest, c)
  {
    if p == [] {
      assert p + [c] + rest == [c] + rest;
      assert ([c] + rest)[1..] == rest;
    } else {
      SplitAfterPart(p[1..], c, rest);
      var s := p + [c] + rest;
      assert s[0] == p[0] && s[0] != c;
      assert s[1..] == p[1..] + [c] + rest;
      var tail := Split(s[1..], c);
      assert tail == [p[1..]] + Split(rest, c);
      assert tail[0] == p[1..] && tail[1..] == Split(rest, c);
      assert [p[0]] + p[1..] == p;
      assert Split(s, c) == [[p[0]] + tail[0]] + tail[1..];
    }
  }

  /** Splitting undoes joining, when no part holds the separator. */
  lemma {:induction false} SplitJoin(parts: seq<string>, c: char)
    requires |parts| >= 1
    requires forall k :: 0 <= k < |parts| ==> c !in parts[k]
    ensures Split(JoinWith(parts, [c]), c) == parts
  {
    if |parts| == 1 {
      SplitNoSeparator(parts[0], c);
    } else {
      SplitJoin(parts[1..], c);
      SplitAfterPart(parts[0], c, JoinWith(parts[1..], [c]));
      assert [parts[0]] + parts[1..] == parts;
    }
  }

  function DigitChar(d: nat): (ch: char)
    requires d < 10
    ensures '0' <= ch <= '9'
    ensures ch as int - '0' as int == d
  {
    ('0' as int + d) as char
  }

  /** The number a string of decimal digits denotes, read left to right
      (a character that is not a digit counts as 0). */
  function DecimalValue(s: string): nat {
    if s == [] then 0
    else
      var c := s[|s| - 1];
      DecimalValue(s[..|s| - 1]) * 10 + (if '0' <= c <= '9' then c as int - '0' as int else 0)
  }

  /** `s` is how `str` writes a natural number: at least one decimal digit,
      and no leading zero unless the number is 0 itself. */
  ghost predicate Canonical(s: string) {
    && |s| >= 1
    && (forall k :: 0 <= k < |s| ==> '0' <= s[k] <= '9')
    && (|s| > 1 ==> s[0] != '0')
  }

  /** `str(n)` for a natural number: decimal digits that denote `n`, with no
      leading zero. */
  function NatToString(n: nat): (s: string)
    ensures Canonical(s)
    ensures DecimalValue(s) == n
  {
    if n < 10 then [DigitChar(n)]
    else
      var p := NatToString(n / 10);
      assert (p + [DigitChar(n % 10)])[..|p|] == p;
      p + [DigitChar(n % 10)]
  }

  /** A canonical digit string of more than one digit denotes at least 10. */
  lemma {:induction false} CanonicalValue(s: string)
    requires Canonical(s) && |s| > 1
    ensures DecimalValue(s) >= 10
  {
    var p := s[..|s| - 1];
    assert p[0] == s[0];
    if |p| > 1 {
      CanonicalValue(p);
    }
  }

  /** There is one way to write a number: a canonical digit string that
      denotes `n` is `str(n)`. */
  lemma {:induction false} CanonicalUnique(s: string, n: nat)
    requires Canonical(s) && DecimalValue(s) == n
    ensures s == NatToString(n)
  {
    var c := s[|s| - 1];
    var d := c as int - '0' as int;
    if |s| == 1 {
      assert DigitChar(n) == c;
    } else {
      var p := s[..|s| - 1];
      assert p[0] == s[0];
      assert Canonical(p);
      CanonicalValue(s);
      assert n / 10 == DecimalValue(p) && n % 10 == d;
      CanonicalUnique(p, n / 10);
      assert DigitChar(n % 10) == c;
      assert s == p + [c];
    }
  }

  /** `str(i)`: a minus sign before the digits of a negative number. */
  function IntToString(i: int): (s: string)
    ensures |s| >= 1
    ensures (s[0] == '-') <==> i < 0
    ensures i < 0 ==> Canonical(s[1..]) && DecimalValue(s[1..]) == -i
    ensures i >= 0 ==> Canonical(s) && DecimalValue(s) == i
  {
    if i < 0 then
      var p := NatToString(-i);
      assert ("-" + p)[1..] == p;
      "-" + p
    else NatToString(i)
  }

  /** Different integers render differently: the digits read back to the
      number, and the sign tells the two halves apart. */
  lemma IntToStringInjective(a: int, b: int)
    requires IntToString(a) == IntToString(b)
    ensures a == b
  {
  }
}
