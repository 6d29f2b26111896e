/**
 * Python string operations the pipeline relies on, written out so that their
 * behaviour on every input is part of the model: `str.split` on a one-character
 * separator, `str.join`, `str.endswith`, substring tests (`a in b`), `str.strip`,
 * and `str.isdigit` restricted to ASCII digits.
 */
module Strs {

  /** Python `s.split(c)`: the pieces of `s` between occurrences of `c`, always at least one. */
  function Split(s: string, c: char): (r: seq<string>)
    ensures |r| >= 1
    decreases |s|
  {
    if |s| == 0 then [""]
    else
      var rest := Split(s[1..], c);
      if s[0] == c then [""] + rest
      else [[s[0]] + rest[0]] + rest[1..]
  }

  lemma AppendAssoc<T>(a: seq<T>, b: seq<T>, c: seq<T>)
    ensures a + (b + c) == (a + b) + c
  {
  }

  /** Python `sep.join(parts)`. */
  function Join(parts: seq<string>, sep: string): string
  {
    if |parts| == 0 then ""
    else if |parts| == 1 then parts[0]
    else parts[0] + sep + Join(parts[1..], sep)
  }

  /** Number of occurrences of `c` in `s`. */
  function Count(s: string, c: char): nat
  {
    if |s| == 0 then 0 else (if s[0] == c then 1 else 0) + Count(s[1..], c)
  }

  /** Python `s.split(c)[0]`: the text before the first `c` (all of `s` if there is none). */
  function BeforeFirst(s: string, c: char): string
  {
    Split(s, c)[0]
  }

  /** Python `s.split(c)[-1]`: the text after the last `c` (all of `s` if there is none). */
  function AfterLast(s: string, c: char): string
  {
    var parts := Split(s, c);
    parts[|parts| - 1]
  }

  /** Python `s.endswith(suffix)`. */
  predicate EndsWith(s: string, suffix: string)
  {
    |suffix| <= |s| && s[|s| - |suffix|..] == suffix
  }

  /** Python `a in b` on two strings: `a` occurs contiguously in `b` (the empty string occurs in every string). */
  predicate IsSubstring(a: string, b: string)
  {
    exists i | 0 <= i <= |b| - |a| :: OccursAt(a, b, i)
  }

  predicate OccursAt(a: string, b: string, i: int)
  {
    0 <= i <= |b| - |a| && b[i..i + |a|] == a
  }

  predicate IsAsciiDigit(ch: char)
  {
    '0' <= ch <= '9'
  }

  /** Python `s.isdigit()` on ASCII text: non-empty and digits only. */
  predicate IsDigits(s: string)
  {
    |s| > 0 && forall i :: 0 <= i < |s| ==> IsAsciiDigit(s[i])
  }

  /** The characters for which Python's `str.isspace()` holds. */
  predicate IsSpace(ch: char)
  {
    ('\t' <= ch <= '\r') || ('\U{1C}' <= ch <= ' ') || ch == '\U{85}' || ch == '\U{A0}'
    || ch == '\U{1680}' || ('\U{2000}' <= ch <= '\U{200A}') || ch == '\U{2028}' || ch == '\U{2029}'
    || ch == '\U{202F}' || ch == '\U{205F}' || ch == '\U{3000}'
  }

  /** Python `s.lstrip()`. */
  function LStrip(s: string): (r: string)
    ensures |r| <= |s| && r == s[|s| - |r|..]
    ensures forall i :: 0 <= i < |s| - |r| ==> IsSpace(s[i])
    ensures |r| > 0 ==> !IsSpace(r[0])
  {
    if |s| > 0 && IsSpace(s[0]) then LStrip(s[1..]) else s
  }

  /** Python `s.rstrip()`. */
  function RStrip(s: string): (r: string)
    ensures |r| <= |s| && r == s[..|r|]
    ensures forall i :: |r| <= i < |s| ==> IsSpace(s[i])
    ensures |r| > 0 ==> !IsSpace(r[|r| - 1])
  {
    if |s| > 0 && IsSpace(s[|s| - 1]) then RStrip(s[..|s| - 1]) else s
  }

  /** `r` is `s[lo..]` cut short, with only whitespace cut off at either end. */
  predicate StrippedAt(s: string, r: string, lo: int)
  {
    0 <= lo <= |s| - |r| && r == s[lo..lo + |r|]
    && (forall i :: 0 <= i < lo ==> IsSpace(s[i]))
    && (forall i :: lo + |r| <= i < |s| ==> IsSpace(s[i]))
  }

  /**
   * Python `s.strip()`: `s` without its leading and trailing whitespace. The result
   * is the slice `s[lo..lo+|r|]`, everything cut off is whitespace, and the result
   * neither starts nor ends with whitespace.
   */
  function Strip(s: string): (r: string)
    ensures exists lo :: StrippedAt(s, r, lo)
    ensures |r| > 0 ==> !IsSpace(r[0]) && !IsSpace(r[|r| - 1])
  {
    var l := LStrip(s);
    var r := RStrip(l);
    assert StrippedAt(s, r, |s| - |l|);
    r
  }

  /** Leading whitespace is all that `lstrip` removes. */
  lemma {:induction false} LStripSpaces(l: string, t: string)
    requires forall i :: 0 <= i < |l| ==> IsSpace(l[i])
    requires |t| > 0 ==> !IsSpace(t[0])
    ensures LStrip(l + t) == t
    decreases |l|
  {
    if |l| > 0 {
      assert (l + t)[1..] == l[1..] + t;
      LStripSpaces(l[1..], t);
    } else {
      assert l + t == t;
    }
  }

  /** Trailing whitespace is all that `rstrip` removes. */
  lemma {:induction false} RStripSpaces(t: string, r: string)
    requires forall i :: 0 <= i < |r| ==> IsSpace(r[i])
    requires |t| > 0 ==> !IsSpace(t[|t| - 1])
    ensures RStrip(t + r) == t
    decreases |r|
  {
    if |r| > 0 {
      assert (t + r)[..|t + r| - 1] == t + r[..|r| - 1];
      RStripSpaces(t, r[..|r| - 1]);
    } else {
      assert t + r == t;
    }
  }

  /** `strip` removes exactly the whitespace around text that neither starts nor ends with whitespace. */
  lemma StripPadded(l: string, t: string, r: string)
    requires forall i :: 0 <= i < |l| ==> IsSpace(l[i])
    requires forall i :: 0 <= i < |r| ==> IsSpace(r[i])
    requires |t| > 0 ==> !IsSpace(t[0]) && !IsSpace(t[|t| - 1])
    ensures Strip(l + t + r) == t
  {
    assert l + t + r == l + (t + r);
    if |t| > 0 {
      assert (t + r)[0] == t[0];
      LStripSpaces(l, t + r);
    } else {
      assert t + r == r;
      assert |r| > 0 ==> (t + r)[0] == r[0];
      LStripSpaces(l + r, "");
      assert l + r + "" == l + (t + r);
    }
    RStripSpaces(t, r);
  }

  // ---------------------------------------------------------------------------
  // split / join

  lemma {:induction false} JoinCons(p: string, rest: seq<string>, sep: string)
    requires |rest| >= 1
    ensures Join([p] + rest, sep) == p + sep + Join(rest, sep)
  {
    assert ([p] + rest)[1..] == rest;
  }

  /** Joining the pieces of a split with the separator gives back the original text. */
  lemma {:induction false} JoinSplit(s: string, c: char)
    ensures Join(Split(s, c), [c]) == s
    decreases |s|
  {
    if |s| > 0 {
      var rest := Split(s[1..], c);
      JoinSplit(s[1..], c);
      if s[0] == c {
        JoinCons("", rest, [c]);
        assert [c] + s[1..] == s;
      } else if |rest| == 1 {
        assert [s[0]] + s[1..] == s;
      } else {
        var head := [s[0]] + rest[0];
        JoinCons(head, rest[1..], [c]);
        assert rest == [rest[0]] + rest[1..];
        JoinCons(rest[0], rest[1..], [c]);
        assert [s[0]] + s[1..] == s;
      }
    }
  }

  /** A text with no separator splits into itself alone. */
  lemma {:induction false} SplitNoSep(s: string, c: char)
    requires c !in s
    ensures Split(s, c) == [s]
    decreases |s|
  {
    if |s| > 0 {
      assert c !in s[1..] by { forall i | 0 <= i < |s| - 1 ensures s[1..][i] != c { assert s[1..][i] == s[i + 1]; } }
      SplitNoSep(s[1..], c);
      assert [s[0]] + s[1..] == s;
    }
  }

  /** Splitting `a + c + b` with `c` not in `a` cuts exactly after `a`. */
  lemma {:induction false} SplitAt(a: string, c: char, b: string)
    requires c !in a
    ensures Split(a + [c] + b, c) == [a] + Split(b, c)
    decreases |a|
  {
    var s := a + [c] + b;
    if |a| == 0 {
      assert s[0] == c && s[1..] == b;
    } else {
      assert c !in a[1..] by { forall i | 0 <= i < |a| - 1 ensures a[1..][i] != c { assert a[1..][i] == a[i + 1]; } }
      SplitAt(a[1..], c, b);
      assert s[1..] == a[1..] + [c] + b;
      assert s[0] == a[0] != c;
      assert [a[0]] + a[1..] == a;
    }
  }

  /** Splitting a join of separator-free pieces gives back the pieces. */
  lemma {:induction false} SplitJoin(parts: seq<string>, c: char)
    requires |parts| >= 1
    requires forall i :: 0 <= i < |parts| ==> c !in parts[i]
    ensures Split(Join(parts, [c]), c) == parts
    decreases |parts|
  {
    if |parts| == 1 {
      SplitNoSep(parts[0], c);
    } else {
      SplitJoin(parts[1..], c);
      SplitAt(parts[0], c, Join(parts[1..], [c]));
      assert parts == [parts[0]] + parts[1..];
    }
  }

  lemma {:induction false} CountAppend(a: string, b: string, c: char)
    ensures Count(a + b, c) == Count(a, c) + Count(b, c)
    decreases |a|
  {
    if |a| > 0 {
      assert (a + b)[1..] == a[1..] + b;
      CountAppend(a[1..], b, c);
    } else {
      assert a + b == b;
    }
  }

  lemma {:induction false} CountZero(s: string, c: char)
    ensures Count(s, c) == 0 <==> c !in s
    decreases |s|
  {
    if |s| > 0 {
      CountZero(s[1..], c);
      assert s == [s[0]] + s[1..];
    }
  }

  /** A split has one piece more than the text has separators. */
  lemma {:induction false} SplitLength(s: string, c: char)
    ensures |Split(s, c)| == Count(s, c) + 1
    decreases |s|
  {
    if |s| > 0 {
      SplitLength(s[1..], c);
    }
  }

  /**
   * `"<a>-<b>".split('-')` gives back exactly `[a, b]` if and only if neither
   * part contains the separator.
   */
  lemma {:induction false} SplitPair(a: string, b: string, c: char)
    ensures Split(a + [c] + b, c) == [a, b] <==> (c !in a && c !in b)
  {
    var s := a + [c] + b;
    if c !in a && c !in b {
      SplitJoin([a, b], c);
      assert Join([a, b], [c]) == s by { JoinCons(a, [b], [c]); }
    } else {
      SplitLength(s, c);
      CountAppend(a + [c], b, c);
      CountAppend(a, [c], c);
      assert Count([c], c) == 1;
      CountZero(a, c);
      CountZero(b, c);
      assert |Split(s, c)| > 2;
    }
  }

  /** The text before the first separator is a separator-free prefix, ended by the separator when shorter. */
  lemma {:induction false} BeforeFirstIsPrefix(s: string, c: char)
    ensures |BeforeFirst(s, c)| <= |s| && BeforeFirst(s, c) == s[..|BeforeFirst(s, c)|]
    ensures c !in BeforeFirst(s, c)
    ensures |BeforeFirst(s, c)| < |s| ==> s[|BeforeFirst(s, c)|] == c
    decreases |s|
  {
    if |s| > 0 && s[0] != c {
      BeforeFirstIsPrefix(s[1..], c);
      var rest := BeforeFirst(s[1..], c);
      var b := [s[0]] + rest;
      assert BeforeFirst(s, c) == b;
      assert s[..|b|] == [s[0]] + s[1..][..|rest|];
      assert |b| < |s| ==> s[|b|] == s[1..][|rest|];
    }
  }

  /** A text that is a separator-free prefix followed by the separator has that prefix before its first separator. */
  lemma BeforeFirstOf(a: string, c: char, b: string)
    requires c !in a
    ensures BeforeFirst(a + [c] + b, c) == a
  {
    SplitAt(a, c, b);
  }

  lemma BeforeFirstNoSep(a: string, c: char)
    requires c !in a
    ensures BeforeFirst(a, c) == a
  {
    SplitNoSep(a, c);
  }

  /** The text after the last separator is separator-free. */
  lemma {:induction false} AfterLastNoSep(s: string, c: char)
    ensures c !in AfterLast(s, c)
    ensures |AfterLast(s, c)| <= |s| && AfterLast(s, c) == s[|s| - |AfterLast(s, c)|..]
    decreases |s|
  {
    if |s| > 0 {
      AfterLastNoSep(s[1..], c);
      var rest := Split(s[1..], c);
      if s[0] != c && |rest| == 1 {
        SplitLength(s[1..], c);
        CountZero(s[1..], c);
        SplitNoSep(s[1..], c);
        assert AfterLast(s, c) == [s[0]] + s[1..] == s;
      } else {
        assert AfterLast(s, c) == AfterLast(s[1..], c);
      }
    }
  }

  /** The text after the last separator of `a + c + b`, when `b` has none, is `b`. */
  lemma {:induction false} AfterLastOf(a: string, c: char, b: string)
    requires c !in b
    ensures AfterLast(a + [c] + b, c) == b
    decreases |a|
  {
    var s := a + [c] + b;
    if |a| == 0 {
      assert s[1..] == b;
      SplitNoSep(b, c);
    } else {
      assert s[1..] == a[1..] + [c] + b;
      AfterLastOf(a[1..], c, b);
      var rest := Split(s[1..], c);
      SplitLength(s[1..], c);
      CountAppend(a[1..] + [c], b, c);
      CountAppend(a[1..], [c], c);
      assert |rest| >= 2;
    }
  }
}
