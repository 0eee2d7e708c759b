/** The JavaScript string operations the core relies on, over `seq<char>`.
    A `char` is a Unicode scalar value, while a JavaScript string is a sequence
    of UTF-16 code units: the two agree on text inside the Basic Multilingual
    Plane, and a character above U+FFFF is one `char` here but two code units
    there. */
module Text {

  // ---------------------------------------------------------------------------
  // split / join on a one-character separator
  // ---------------------------------------------------------------------------

  /** `s.split(c)`: the maximal runs between separators, always at least one
      (the empty string splits into `[""]`). */
  function Split(s: string, c: char): (parts: seq<string>)
    ensures |parts| >= 1
  {
    if s == [] then [""]
    else
      var rest := Split(s[1..], c);
      if s[0] == c then [""] + rest
      else [[s[0]] + rest[0]] + rest[1..]
  }

  /** `parts.join(sep)`; joining the empty array gives `""`. */
  function Join(parts: seq<string>, sep: string): string
  {
    if parts == [] then ""
    else if |parts| == 1 then parts[0]
    else parts[0] + sep + Join(parts[1..], sep)
  }

  /** Joining what was split on `c` with `c` gives back the string. */
  lemma {:induction false} JoinSplit(s: string, c: char)
    ensures Join(Split(s, c), [c]) == s
  {
    if s != [] {
      var rest := Split(s[1..], c);
      JoinSplit(s[1..], c);
      assert s == [s[0]] + s[1..];
      if s[0] == c {
        assert Split(s, c) == [""] + rest;
        assert ([""] + rest)[1..] == rest;
      } else {
        JoinExtendHead(s[0], rest, [c]);
      }
    }
  }

  /** Prefixing the first part with `ch` prefixes the joined text with `ch`. */
  lemma JoinExtendHead(ch: char, rest: seq<string>, sep: string)
    requires |rest| >= 1
    ensures Join([[ch] + rest[0]] + rest[1..], sep) == [ch] + Join(rest, sep)
  {
    var parts := [[ch] + rest[0]] + rest[1..];
    if |rest| == 1 {
      assert parts == [[ch] + rest[0]];
    } else {
      assert parts[1..] == rest[1..];
      var tail := sep + Join(rest[1..], sep);
      assert Join(rest, sep) == rest[0] + tail;
      assert Join(parts, sep) == ([ch] + rest[0]) + tail;
    }
  }

  /** No part of a split contains the separator. */
  lemma {:induction false} SplitPartsFree(s: string, c: char)
    ensures forall k :: 0 <= k < |Split(s, c)| ==> c !in Split(s, c)[k]
  {
    if s != [] {
      SplitPartsFree(s[1..], c);
      var rest := Split(s[1..], c);
      var parts := Split(s, c);
      if s[0] == c {
        assert forall k :: 1 <= k < |parts| ==> parts[k] == rest[k - 1];
      } else {
        assert forall k :: 1 <= k < |parts| ==> parts[k] == rest[k];
        assert parts[0] == [s[0]] + rest[0];
      }
    }
  }

  /** Appending one more part adds the separator and that part. */
  lemma {:induction false} JoinSnoc(p: seq<string>, x: string, sep: string)
    requires |p| >= 1
    ensures Join(p + [x], sep) == Join(p, sep) + sep + x
  {
    if |p| == 1 {
      assert (p + [x])[1..] == [x];
    } else {
      assert (p + [x])[1..] == p[1..] + [x];
      JoinSnoc(p[1..], x, sep);
    }
  }

  // ---------------------------------------------------------------------------
  // lastIndexOf / indexOf
  // ---------------------------------------------------------------------------

  /** `s.lastIndexOf(c)`: the position of the last `c`, or -1 when there is none. */
  function LastIndexOf(s: string, c: char): (i: int)
    ensures -1 <= i < |s|
    ensures i >= 0 ==> s[i] == c && c !in s[i + 1..]
    ensures i == -1 <==> c !in s
  {
    if s == [] then -1
    else if s[|s| - 1] == c then |s| - 1
    else
      var j := LastIndexOf(s[..|s| - 1], c);
      LastIndexOfExtend(s, c, j);
      j
  }

  /** The step of LastIndexOf: a last character other than `c` changes nothing. */
  lemma LastIndexOfExtend(s: string, c: char, j: int)
    requires s != [] && s[|s| - 1] != c && -1 <= j < |s| - 1
    requires j >= 0 ==> s[..|s| - 1][j] == c && c !in s[..|s| - 1][j + 1..]
    requires j == -1 <==> c !in s[..|s| - 1]
    ensures j >= 0 ==> s[j] == c && c !in s[j + 1..]
    ensures j == -1 <==> c !in s
  {
    var init := s[..|s| - 1];
    assert s == init + [s[|s| - 1]];
    if j >= 0 {
      assert s[j + 1..] == init[j + 1..] + [s[|s| - 1]];
    }
  }

  /** A `c` followed only by non-`c` characters is the last `c`. */
  lemma LastIndexOfAt(s: string, c: char, i: nat)
    requires i < |s| && s[i] == c && c !in s[i + 1..]
    ensures LastIndexOf(s, c) == i
  {
  }

  /** Splitting off the last part: it is exactly the text after the last `c`, and
      the other parts join to the text before it. */
  lemma SplitLast(s: string, c: char)
    ensures var parts := Split(s, c); var n := |parts|; var i := LastIndexOf(s, c);
      && (i == -1 <==> n == 1)
      && (i == -1 ==> parts[0] == s)
      && (i >= 0 ==> Join(parts[..n - 1], [c]) == s[..i] && parts[n - 1] == s[i + 1..])
  {
    var parts := Split(s, c);
    var n := |parts|;
    JoinSplit(s, c);
    SplitPartsFree(s, c);
    if n == 1 {
      assert Join(parts, [c]) == parts[0];
      assert c !in parts[0];
    } else {
      var init := parts[..n - 1];
      var last := parts[n - 1];
      assert c !in last;
      assert parts == init + [last];
      JoinSnoc(init, last, [c]);
      LastAround(Join(init, [c]), c, last);
    }
  }

  /** In `a + [c] + b` with no `c` in `b`, the last `c` sits right after `a`. */
  lemma LastAround(a: string, c: char, b: string)
    requires c !in b
    ensures var s := a + [c] + b;
      LastIndexOf(s, c) == |a| && s[..|a|] == a && s[|a| + 1..] == b
  {
    var s := a + [c] + b;
    assert s[|a|] == c;
    assert s[..|a|] == a;
    assert s[|a| + 1..] == b;
    LastIndexOfAt(s, c, |a|);
  }

  /** The last part of a split is the text after the last separator (all of
      `s` when there is none). */
  lemma SplitLastPart(s: string, c: char)
    ensures Split(s, c)[|Split(s, c)| - 1] == s[LastIndexOf(s, c) + 1..]
  {
    SplitLast(s, c);
    if LastIndexOf(s, c) == -1 {
      assert s[0..] == s;
    }
  }

  /** `pat` occurs in `s` starting at position `j`. */
  predicate OccursAt(s: string, pat: string, j: int)
  {
    0 <= j && j + |pat| <= |s| && s[j..j + |pat|] == pat
  }

  /** `s.indexOf(pat)`: the first position where `pat` occurs, or -1. */
  function IndexOf(s: string, pat: string): (r: int)
    ensures r == -1 || OccursAt(s, pat, r)
    ensures r >= 0 ==> forall j :: 0 <= j < r ==> !OccursAt(s, pat, j)
    ensures r == -1 ==> forall j :: !OccursAt(s, pat, j)
    decreases |s|
  {
    if |s| < |pat| then -1
    else if s[..|pat|] == pat then 0
    else
      var r := IndexOf(s[1..], pat);
      assert forall j :: OccursAt(s, pat, j + 1) <==> OccursAt(s[1..], pat, j) by {
        forall j ensures OccursAt(s, pat, j + 1) <==> OccursAt(s[1..], pat, j) {
          if 0 <= j && j + 1 + |pat| <= |s| {
            assert s[1..][j..j + |pat|] == s[j + 1..j + 1 + |pat|];
          }
        }
      }
      assert !OccursAt(s, pat, 0);
      if r == -1 then
        assert forall j :: !OccursAt(s, pat, j) by {
          forall j ensures !OccursAt(s, pat, j) {
            if j > 0 { assert !OccursAt(s[1..], pat, j - 1); }
          }
        }
        -1
      else
        assert forall j :: 0 <= j < r + 1 ==> !OccursAt(s, pat, j) by {
          forall j | 0 <= j < r + 1 ensures !OccursAt(s, pat, j) {
            if j > 0 { assert !OccursAt(s[1..], pat, j - 1); }
          }
        }
        r + 1
  }

  /** `s.replace(pat, rep)` with a string pattern: only the first occurrence is
      replaced (the replacement here never holds a `$` pattern). */
  function ReplaceFirst(s: string, pat: string, rep: string): string
  {
    var i := IndexOf(s, pat);
    if i < 0 then s else s[..i] + rep + s[i + |pat|..]
  }

  // ---------------------------------------------------------------------------
  // substring, case mapping, character classes
  // ---------------------------------------------------------------------------

  function Clamp(x: int, hi: nat): (r: nat)
    ensures r <= hi
  {
    if x < 0 then 0 else if x > hi then hi else x
  }

  /** `s.substring(start, end)`: both bounds are clamped into `[0, |s|]` and
      swapped when out of order. */
  function Substring(s: string, start: int, end: int): string
  {
    var a := Clamp(start, |s|);
    var b := Clamp(end, |s|);
    if a <= b then s[a..b] else s[b..a]
  }

  function LowerChar(ch: char): char
  {
    if 'A' <= ch <= 'Z' then (ch as int + 32) as char else ch
  }

  function UpperChar(ch: char): char
  {
    if 'a' <= ch <= 'z' then (ch as int - 32) as char else ch
  }

  /** `toLowerCase()`, restricted to ASCII letters. */
  function Lower(s: string): (r: string)
    ensures |r| == |s| && forall k :: 0 <= k < |s| ==> r[k] == LowerChar(s[k])
  {
    seq(|s|, k requires 0 <= k < |s| => LowerChar(s[k]))
  }

  /** Lowercasing creates no character that is not a letter. */
  lemma LowerAbsent(s: string, c: char)
    requires c !in s && !('a' <= c <= 'z')
    ensures c !in Lower(s)
  {
    var r := Lower(s);
    forall k | 0 <= k < |r|
      ensures r[k] != c
    {
      assert r[k] == LowerChar(s[k]) && s[k] != c;
    }
  }

  /** `toUpperCase()`, restricted to ASCII letters. */
  function Upper(s: string): (r: string)
    ensures |r| == |s| && forall k :: 0 <= k < |s| ==> r[k] == UpperChar(s[k])
  {
    seq(|s|, k requires 0 <= k < |s| => UpperChar(s[k]))
  }

  predicate IsAsciiAlnum(ch: char)
  {
    'a' <= ch <= 'z' || 'A' <= ch <= 'Z' || '0' <= ch <= '9'
  }

  // ---------------------------------------------------------------------------
  // decimal rendering of integers (Number.prototype.toString for integers)
  // ---------------------------------------------------------------------------

  predicate IsDigit(ch: char)
  {
    '0' <= ch <= '9'
  }

  function DigitChar(d: nat): char
    requires d < 10
  {
    ('0' as int + d) as char
  }

  /** Decimal digits of `n`, without leading zeros. */
  function NatToString(n: nat): (r: string)
    ensures |r| >= 1 && (forall k :: 0 <= k < |r| ==> IsDigit(r[k]))
    ensures r[0] == '0' ==> n == 0
  {
    if n < 10 then [DigitChar(n)] else NatToString(n / 10) + [DigitChar(n % 10)]
  }

  /** The value of a string of decimal digits. */
  function ParseDigits(s: string): nat
    requires forall k :: 0 <= k < |s| ==> IsDigit(s[k])
  {
    if s == [] then 0
    else
      assert IsDigit(s[|s| - 1]);
      ParseDigits(s[..|s| - 1]) * 10 + (s[|s| - 1] as int - '0' as int)
  }

  /** Reading the digits back gives the number: decimal rendering is injective. */
  lemma {:induction false} ParseNatToString(n: nat)
    ensures ParseDigits(NatToString(n)) == n
  {
    if n >= 10 {
      ParseNatToString(n / 10);
      var r := NatToString(n);
      assert r[..|r| - 1] == NatToString(n / 10);
    }
  }

  lemma NatToStringInjective(a: nat, b: nat)
    requires NatToString(a) == NatToString(b)
    ensures a == b
  {
    ParseNatToString(a);
    ParseNatToString(b);
  }

  /** Decimal rendering of an integer, with a leading `-` for negatives. */
  function IntToString(i: int): string
  {
    if i < 0 then "-" + NatToString(-i) else NatToString(i)
  }

  lemma IntToStringInjective(a: int, b: int)
    requires IntToString(a) == IntToString(b)
    ensures a == b
  {
    if a < 0 && b < 0 {
      assert NatToString(-a) == IntToString(a)[1..];
      assert NatToString(-b) == IntToString(b)[1..];
      NatToStringInjective(-a, -b);
    } else if a >= 0 && b >= 0 {
      NatToStringInjective(a, b);
    }
  }
}
