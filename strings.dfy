/** The handful of Rust `str` operations the configuration module relies on,
    written out over `seq<char>`, and a substring search (`Find`) that only
    the model's own commit-header reader uses. */
module Strings {
  import opened Wrappers

  /** `char::is_whitespace`: the Unicode White_Space property, which
      `str::trim` and `str::split_whitespace` use. */
  predicate IsWhitespace(c: char)
  {
    || ('\t' <= c <= '\r')
    || c == ' '
    || c == '\U{0085}' || c == '\U{00A0}' || c == '\U{1680}'
    || ('\U{2000}' <= c <= '\U{200A}')
    || c == '\U{2028}' || c == '\U{2029}' || c == '\U{202F}'
    || c == '\U{205F}' || c == '\U{3000}'
  }

  predicate AllWhitespace(s: string)
  {
    forall i :: 0 <= i < |s| ==> IsWhitespace(s[i])
  }

  /** `str::trim_start`: drops the leading whitespace and nothing else. */
  function TrimStart(s: string): (r: string)
    ensures |r| <= |s| && r == s[|s| - |r|..]
    ensures AllWhitespace(s[..|s| - |r|])
    ensures r != [] ==> !IsWhitespace(r[0])
  {
    if s != [] && IsWhitespace(s[0]) then
      var r := TrimStart(s[1..]);
      assert s[..|s| - |r|] == [s[0]] + s[1..][..|s| - 1 - |r|];
      r
    else
      s
  }

  /** `str::trim_end`: drops the trailing whitespace and nothing else. */
  function TrimEnd(s: string): (r: string)
    ensures |r| <= |s| && r == s[..|r|]
    ensures AllWhitespace(s[|r|..])
    ensures r != [] ==> !IsWhitespace(r[|r| - 1])
  {
    if s != [] && IsWhitespace(s[|s| - 1]) then
      var r := TrimEnd(s[..|s| - 1]);
      assert s[|r|..] == s[..|s| - 1][|r|..] + [s[|s| - 1]];
      r
    else
      s
  }

  /** Number of characters `str::trim` drops at the front. */
  function LeadingWhitespace(s: string): nat
  {
    |s| - |TrimStart(s)|
  }

  /** `str::trim`: both ends stripped of whitespace. The result is empty
      exactly when the text is all whitespace, and otherwise neither starts
      nor ends with whitespace. */
  function Trim(s: string): (r: string)
    ensures |r| <= |s|
    ensures r != [] ==> !IsWhitespace(r[0]) && !IsWhitespace(r[|r| - 1])
    ensures r == [] <==> AllWhitespace(s)
  {
    var t := TrimStart(s);
    var r := TrimEnd(t);
    assert AllWhitespace(s) ==> t == [] by {
      if t != [] { assert t[0] == s[|s| - |t|]; }
    }
    assert r == [] ==> AllWhitespace(s) by {
      if r == [] {
        assert t[|r|..] == t;
        assert t == [];
        assert s[..|s| - |t|] == s;
      }
    }
    r
  }

  /** What `str::trim` keeps is an infix of the text, starting after the
      leading whitespace. */
  lemma TrimIsInfix(s: string)
    ensures LeadingWhitespace(s) + |Trim(s)| <= |s|
    ensures Trim(s) == s[LeadingWhitespace(s)..LeadingWhitespace(s) + |Trim(s)|]
  {
    var t := TrimStart(s);
    var r := TrimEnd(t);
    assert Trim(s) == r;
    InfixParts(s, LeadingWhitespace(s), t, r);
  }

  /** What `str::trim` drops on either side of that infix is whitespace. */
  lemma TrimDropsWhitespace(s: string)
    ensures LeadingWhitespace(s) + |Trim(s)| <= |s|
    ensures AllWhitespace(s[..LeadingWhitespace(s)])
    ensures AllWhitespace(s[LeadingWhitespace(s) + |Trim(s)|..])
  {
    var t := TrimStart(s);
    var r := TrimEnd(t);
    assert Trim(s) == r;
    InfixParts(s, LeadingWhitespace(s), t, r);
  }

  /** A prefix `r` of the suffix `t` of `s` starting at `k` is the infix at
      `k`, and what follows it in `t` is what follows it in `s`. */
  lemma InfixParts(s: string, k: nat, t: string, r: string)
    requires k <= |s| && t == s[k..] && |r| <= |t| && r == t[..|r|]
    requires AllWhitespace(t[|r|..])
    ensures k + |r| <= |s| && r == s[k..k + |r|] && AllWhitespace(s[k + |r|..])
  {
    assert s[k + |r|..] == t[|r|..];
  }

  /** Trimming is idempotent. */
  lemma TrimIdempotent(s: string)
    ensures Trim(Trim(s)) == Trim(s)
  {
    var r := Trim(s);
    assert TrimStart(r) == r;
    assert TrimEnd(r) == r;
  }

  /** Text whose ends are not whitespace is its own trim. */
  lemma TrimUnchanged(s: string)
    requires s != [] ==> !IsWhitespace(s[0]) && !IsWhitespace(s[|s| - 1])
    ensures Trim(s) == s
  {
    assert TrimStart(s) == s;
    assert TrimEnd(s) == s;
  }

  /** `str::replace` with a one-character pattern: every `c` becomes `t`.
      The empty text stays empty, and a one-character text becomes `t`
      when it is `c` and stays as it is otherwise; with `ReplaceAppend`
      this fixes the result on every text. */
  function Replace(s: string, c: char, t: string): (r: string)
    ensures s == [] ==> r == []
    ensures |s| == 1 ==> r == (if s[0] == c then t else s)
  {
    if s == [] then []
    else
      var rest := Replace(s[1..], c, t);
      assert |s| == 1 ==> rest == [];
      (if s[0] == c then t else [s[0]]) + rest
  }

  /** Every character of a replaced text comes from `t` or is a character
      of `s` other than `c`; without a `c` the text is returned as it is. */
  lemma {:induction false} ReplaceChars(s: string, c: char, t: string)
    ensures forall d :: d in Replace(s, c, t) ==> d in t || (d in s && d != c)
    ensures c !in s ==> Replace(s, c, t) == s
  {
    if s != [] {
      ReplaceChars(s[1..], c, t);
      assert forall d :: d in s[1..] ==> d in s;
      if c !in s {
        assert s == [s[0]] + s[1..];
      }
    }
  }

  /** Replacing works piece by piece: replacing in a concatenation is
      concatenating the replaced pieces. */
  lemma {:induction false} ReplaceAppend(a: string, b: string, c: char, t: string)
    ensures Replace(a + b, c, t) == Replace(a, c, t) + Replace(b, c, t)
  {
    if a == [] {
      assert a + b == b;
    } else {
      assert (a + b)[1..] == a[1..] + b;
      ReplaceAppend(a[1..], b, c, t);
      var head := if a[0] == c then t else [a[0]];
      assert Replace(a + b, c, t) == head + Replace(a[1..] + b, c, t);
    }
  }

  /** ASCII lower-casing of one character. */
  function LowerChar(c: char): char
  {
    if 'A' <= c <= 'Z' then (c as int + 32) as char else c
  }

  /** ASCII upper-casing of one character. */
  function UpperChar(c: char): char
  {
    if 'a' <= c <= 'z' then (c as int - 32) as char else c
  }

  /** `str::to_lowercase`, restricted to ASCII letters: a character-wise map. */
  function ToLower(s: string): (r: string)
    ensures |r| == |s| && forall i :: 0 <= i < |s| ==> r[i] == LowerChar(s[i])
  {
    if s == [] then [] else [LowerChar(s[0])] + ToLower(s[1..])
  }

  /** `str::to_uppercase`, restricted to ASCII letters: a character-wise map. */
  function ToUpper(s: string): (r: string)
    ensures |r| == |s| && forall i :: 0 <= i < |s| ==> r[i] == UpperChar(s[i])
  {
    if s == [] then [] else [UpperChar(s[0])] + ToUpper(s[1..])
  }

  /** Lower-casing leaves no ASCII upper-case letter and never produces a
      character that is not a lower-case letter unless it was already in the
      text. */
  lemma ToLowerChars(s: string)
    ensures forall i :: 0 <= i < |s| ==> !('A' <= ToLower(s)[i] <= 'Z')
    ensures forall d :: d in ToLower(s) && !('a' <= d <= 'z') ==> d in s
  {
    forall d | d in ToLower(s) && !('a' <= d <= 'z') ensures d in s {
      var i :| 0 <= i < |s| && ToLower(s)[i] == d;
      assert s[i] == d;
    }
  }

  /** Lower-casing twice is lower-casing once. */
  lemma ToLowerIdempotent(s: string)
    ensures ToLower(ToLower(s)) == ToLower(s)
  {
  }

  /** `str::split` on a character: the pieces between the separators, in
      order. There is always at least one piece, no piece holds the
      separator, and joining the pieces back gives the text again. */
  function Split(s: string, sep: char): (r: seq<string>)
    ensures |r| >= 1
    ensures forall k :: 0 <= k < |r| ==> sep !in r[k]
    ensures Join(r, sep) == s
  {
    if s == [] then [[]]
    else
      var rest := Split(s[1..], sep);
      if s[0] == sep then
        [[]] + rest
      else
        JoinPrepend(s[0], rest, sep);
        [[s[0]] + rest[0]] + rest[1..]
  }

  /** The pieces glued back together with `sep` between them. */
  function Join(pieces: seq<string>, sep: char): string
    requires |pieces| >= 1
  {
    if |pieces| == 1 then pieces[0] else pieces[0] + [sep] + Join(pieces[1..], sep)
  }

  lemma JoinPrepend(c: char, pieces: seq<string>, sep: char)
    requires |pieces| >= 1
    ensures Join([[c] + pieces[0]] + pieces[1..], sep) == [c] + Join(pieces, sep)
  {
    var p := [[c] + pieces[0]] + pieces[1..];
    if |pieces| > 1 {
      assert p[1..] == pieces[1..];
    }
  }

  /** A separator-free prefix followed by the separator becomes its own piece. */
  lemma {:induction false} SplitPrefix(a: string, rest: string, sep: char)
    requires sep !in a
    ensures Split(a + [sep] + rest, sep) == [a] + Split(rest, sep)
  {
    if a == [] {
      assert ([sep] + rest)[1..] == rest;
    } else {
      assert (a + [sep] + rest)[1..] == a[1..] + [sep] + rest;
      assert [a[0]] + a[1..] == a;
      SplitPrefix(a[1..], rest, sep);
    }
  }

  /** Text without the separator is a single piece. */
  lemma {:induction false} SplitNone(a: string, sep: char)
    requires sep !in a
    ensures Split(a, sep) == [a]
  {
    if a != [] {
      SplitNone(a[1..], sep);
    }
  }

  /** Splitting undoes joining, for pieces that do not hold the separator. */
  lemma {:induction false} SplitJoin(pieces: seq<string>, sep: char)
    requires |pieces| >= 1
    requires forall k :: 0 <= k < |pieces| ==> sep !in pieces[k]
    ensures Split(Join(pieces, sep), sep) == pieces
  {
    if |pieces| == 1 {
      SplitNone(pieces[0], sep);
    } else {
      SplitJoin(pieces[1..], sep);
      SplitPrefix(pieces[0], Join(pieces[1..], sep), sep);
    }
  }

  /** `pat` sits in `s` at position `j`. */
  predicate OccursAt(s: string, pat: string, j: nat)
  {
    j + |pat| <= |s| && s[j..j + |pat|] == pat
  }

  /** `str::find`: the first position where `pat` occurs, if any. */
  function Find(s: string, pat: string): (r: Option<nat>)
    ensures r.Some? ==> OccursAt(s, pat, r.value)
    ensures r.Some? ==> forall j: nat :: j < r.value ==> !OccursAt(s, pat, j)
    ensures r.None? ==> forall j: nat :: !OccursAt(s, pat, j)
    decreases |s|
  {
    if |s| < |pat| then None
    else if s[..|pat|] == pat then Some(0)
    else
      var r := Find(s[1..], pat);
      forall j: nat | j >= 1 ensures OccursAt(s, pat, j) <==> OccursAt(s[1..], pat, j - 1) {
        OccursShift(s, pat, j - 1);
      }
      assert !OccursAt(s, pat, 0);
      match r
      case Some(i) => Some(i + 1)
      case None => None
  }

  lemma OccursShift(s: string, pat: string, j: nat)
    requires s != []
    ensures OccursAt(s, pat, j + 1) <==> OccursAt(s[1..], pat, j)
  {
    if j + 1 + |pat| <= |s| {
      assert s[1..][j..j + |pat|] == s[j + 1..j + 1 + |pat|];
    }
  }

  /** The leading run of non-whitespace characters. */
  function TakeWord(s: string): (r: string)
    ensures |r| <= |s| && r == s[..|r|]
    ensures forall i :: 0 <= i < |r| ==> !IsWhitespace(r[i])
    ensures |r| < |s| ==> IsWhitespace(s[|r|])
  {
    if s == [] || IsWhitespace(s[0]) then [] else [s[0]] + TakeWord(s[1..])
  }

  /** The first item of `str::split_whitespace`: after the leading
      whitespace, the longest run of non-whitespace characters ("" when the
      text has none). */
  function FirstWord(s: string): (r: string)
    ensures var t := TrimStart(s); |r| <= |t| && r == t[..|r|] && (|r| < |t| ==> IsWhitespace(t[|r|]))
    ensures forall i :: 0 <= i < |r| ==> !IsWhitespace(r[i])
    ensures r == [] <==> AllWhitespace(s)
  {
    var t := TrimStart(s);
    assert AllWhitespace(s) ==> t == [] by {
      if t != [] { assert t[0] == s[|s| - |t|]; }
    }
    assert t == [] ==> AllWhitespace(s) by {
      if t == [] { assert s == s[..|s|]; }
    }
    TakeWord(t)
  }

  /** A text that starts with the word `w` followed by whitespace has `w` as
      its first word. */
  lemma FirstWordIs(w: string, tail: string)
    requires w != [] && forall i :: 0 <= i < |w| ==> !IsWhitespace(w[i])
    requires tail != [] && IsWhitespace(tail[0])
    ensures FirstWord(w + tail) == w
  {
    var s := w + tail;
    assert s[0] == w[0] && s[|w|] == tail[0];
    assert TrimStart(s) == s;
    assert s[..|w|] == w;
  }

  /** `n` spaces. */
  function Spaces(n: nat): (r: string)
    ensures |r| == n && forall i :: 0 <= i < n ==> r[i] == ' '
  {
    if n == 0 then [] else [' '] + Spaces(n - 1)
  }
}
