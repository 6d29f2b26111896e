/**
 * Decimal text for natural numbers: Python's `str(n)`, the zero-padded
 * `f'{n:03}'` used for page and volume file names, and `int(s)` in base 10 on
 * ASCII digits.
 */
module Decimal {
  import opened Wrappers
  import Strs

  function DigitChar(d: nat): char
    requires d < 10
  {
    ['0', '1', '2', '3', '4', '5', '6', '7', '8', '9'][d]
  }

  function DigitValue(ch: char): nat
    requires Strs.IsAsciiDigit(ch)
  {
    (ch as int - '0' as int) as nat
  }

  /** Python `str(n)` for a natural number: its decimal digits, no leading zero. */
  function NatToStr(n: nat): (r: string)
    ensures Strs.IsDigits(r)
    ensures |r| > 1 ==> r[0] != '0'
    decreases n
  {
    if n < 10 then [DigitChar(n)] else NatToStr(n / 10) + [DigitChar(n % 10)]
  }

  /** The value of a run of ASCII digits (leading zeros allowed). */
  function ParseNat(s: string): nat
    requires forall i :: 0 <= i < |s| ==> Strs.IsAsciiDigit(s[i])
    decreases |s|
  {
    if |s| == 0 then 0 else ParseNat(s[..|s| - 1]) * 10 + DigitValue(s[|s| - 1])
  }

  /** `int(str(n)) == n`. */
  lemma {:induction false} ParseNatToStr(n: nat)
    ensures ParseNat(NatToStr(n)) == n
    decreases n
  {
    if n >= 10 {
      ParseNatToStr(n / 10);
      var s := NatToStr(n);
      assert s[..|s| - 1] == NatToStr(n / 10);
    }
  }

  /** A leading zero does not change the value. */
  lemma {:induction false} ParseNatLeadingZero(s: string)
    requires forall i :: 0 <= i < |s| ==> Strs.IsAsciiDigit(s[i])
    ensures ParseNat(['0'] + s) == ParseNat(s)
    decreases |s|
  {
    if |s| > 0 {
      var t := ['0'] + s;
      assert t[..|t| - 1] == ['0'] + s[..|s| - 1];
      ParseNatLeadingZero(s[..|s| - 1]);
    }
  }

  function Zeros(k: nat): (r: string)
    ensures |r| == k && forall i :: 0 <= i < k ==> r[i] == '0'
  {
    if k == 0 then "" else "0" + Zeros(k - 1)
  }

  lemma {:induction false} ParseNatZeros(k: nat, s: string)
    requires forall i :: 0 <= i < |s| ==> Strs.IsAsciiDigit(s[i])
    ensures forall i :: 0 <= i < |Zeros(k) + s| ==> Strs.IsAsciiDigit((Zeros(k) + s)[i])
    ensures ParseNat(Zeros(k) + s) == ParseNat(s)
    decreases k
  {
    if k > 0 {
      ParseNatZeros(k - 1, s);
      var t := Zeros(k - 1) + s;
      assert Zeros(k) + s == ['0'] + t;
      ParseNatLeadingZero(t);
      calc {
        ParseNat(Zeros(k) + s);
        ParseNat(['0'] + t);
        ParseNat(t);
        ParseNat(s);
      }
    } else {
      assert Zeros(k) + s == s;
    }
  }

  /** Python `f'{n:03}'`: the decimal digits of `n`, left-padded with zeros to at least three. */
  function Pad3(n: nat): (r: string)
  {
    var d := NatToStr(n);
    if |d| < 3 then Zeros(3 - |d|) + d else d
  }

  /**
   * The padded name reads back as the number it was made from, so different
   * page numbers never share a file name.
   */
  lemma Pad3RoundTrip(n: nat)
    ensures |Pad3(n)| >= 3 && Strs.IsDigits(Pad3(n))
    ensures ParseNat(Pad3(n)) == n
  {
    var d := NatToStr(n);
    ParseNatToStr(n);
    if |d| < 3 {
      ParseNatZeros(3 - |d|, d);
    }
  }

  lemma Pad3Injective(m: nat, n: nat)
    requires Pad3(m) == Pad3(n)
    ensures m == n
  {
    Pad3RoundTrip(m);
    Pad3RoundTrip(n);
  }

  /** Digits as `int` reads them: ASCII digits, an underscore allowed only between two digits. */
  predicate IsDigitGroups(s: string)
  {
    && |s| > 0 && s[0] != '_' && s[|s| - 1] != '_'
    && (forall i :: 0 <= i < |s| ==> Strs.IsAsciiDigit(s[i]) || s[i] == '_')
    && !Strs.IsSubstring("__", s)
  }

  /** `s` without its underscores. */
  function DropUnderscores(s: string): (r: string)
    ensures (forall i :: 0 <= i < |s| ==> Strs.IsAsciiDigit(s[i]) || s[i] == '_') ==>
              forall i :: 0 <= i < |r| ==> Strs.IsAsciiDigit(r[i])
    decreases |s|
  {
    if |s| == 0 then ""
    else if s[0] == '_' then DropUnderscores(s[1..])
    else [s[0]] + DropUnderscores(s[1..])
  }

  lemma {:induction false} DropUnderscoresAppend(a: string, b: string)
    ensures DropUnderscores(a + b) == DropUnderscores(a) + DropUnderscores(b)
    decreases |a|
  {
    if |a| > 0 {
      assert (a + b)[1..] == a[1..] + b;
      DropUnderscoresAppend(a[1..], b);
    } else {
      assert a + b == b;
    }
  }

  lemma {:induction false} DropUnderscoresNone(a: string)
    requires forall i :: 0 <= i < |a| ==> a[i] != '_'
    ensures DropUnderscores(a) == a
    decreases |a|
  {
    if |a| > 0 {
      DropUnderscoresNone(a[1..]);
      assert a == [a[0]] + a[1..];
    }
  }

  /** What `int` reads from text with no surrounding whitespace. */
  function ReadInt(t: string): Option<int>
  {
    if IsDigitGroups(t) then Some(ParseNat(DropUnderscores(t)))
    else if |t| > 0 && t[0] == '-' && IsDigitGroups(t[1..]) then Some(0 - ParseNat(DropUnderscores(t[1..])))
    else if |t| > 0 && t[0] == '+' && IsDigitGroups(t[1..]) then Some(ParseNat(DropUnderscores(t[1..])))
    else None
  }

  /**
   * Python `int(s)` in base 10: whitespace around the number is ignored; what is
   * left is an optional `+` or `-` and ASCII digits, with single underscores
   * allowed between digits. Anything else raises ValueError.
   */
  function ParseInt(s: string): (r: Option<int>)
    ensures var t := Strs.Strip(s);
      r.Some? <==> (IsDigitGroups(t) || (|t| > 0 && (t[0] == '-' || t[0] == '+') && IsDigitGroups(t[1..])))
    ensures var t := Strs.Strip(s);
      r.Some? && |t| > 0 && t[0] == '-' ==> r.value <= 0
    ensures var t := Strs.Strip(s);
      r.Some? && (|t| == 0 || t[0] != '-') ==> r.value >= 0
  {
    ReadInt(Strs.Strip(s))
  }

  /** A run of ASCII digits is a valid digit text for `int`. */
  lemma DigitsAreGroups(d: string)
    requires Strs.IsDigits(d)
    ensures IsDigitGroups(d)
  {
    forall i | 0 <= i <= |d| - 2 ensures !Strs.OccursAt("__", d, i) {
      assert d[i..i + 2][0] == d[i];
    }
  }

  /** Text that neither starts nor ends with whitespace strips to itself. */
  lemma StripsToItself(t: string)
    requires |t| > 0 ==> !Strs.IsSpace(t[0]) && !Strs.IsSpace(t[|t| - 1])
    ensures Strs.Strip(t) == t
  {
    Strs.StripPadded("", t, "");
    assert "" + t + "" == t;
  }

  /** What `int` reads from a run of ASCII digits is their value. */
  lemma ReadDigits(d: string)
    requires Strs.IsDigits(d)
    ensures ReadInt(d) == Some(ParseNat(d))
  {
    DigitsAreGroups(d);
    DropUnderscoresNone(d);
  }

  /** A sign in front of a run of ASCII digits reads as that sign. */
  lemma ReadSigned(sign: char, d: string)
    requires sign == '-' || sign == '+'
    requires Strs.IsDigits(d)
    ensures ReadInt([sign] + d) == Some(if sign == '-' then -(ParseNat(d) as int) else ParseNat(d))
  {
    var t := [sign] + d;
    assert t[0] == sign && t[1..] == d;
    assert !IsDigitGroups(t);
    DigitsAreGroups(d);
    DropUnderscoresNone(d);
  }

  /** `int(str(n)) == n`. */
  lemma ParseIntNatToStr(n: nat)
    ensures ParseInt(NatToStr(n)) == Some(n)
  {
    var d := NatToStr(n);
    assert ParseNat(d) == n by {
      ParseNatToStr(n);
    }
    assert ReadInt(d) == Some(ParseNat(d)) by {
      ReadDigits(d);
    }
    assert Strs.Strip(d) == d by {
      StripsToItself(d);
    }
  }

  /** A sign in front of `str(n)` reads as that sign: `int("-" + str(n)) == -n`. */
  lemma ParseIntSigned(sign: char, n: nat)
    requires sign == '-' || sign == '+'
    ensures ParseInt([sign] + NatToStr(n)) == Some(if sign == '-' then -(n as int) else n)
  {
    var t := [sign] + NatToStr(n);
    SignedStripsToItself(sign, n);
    SignedReadsBack(sign, n);
    ParseIntStripped(t);
  }

  lemma SignedStripsToItself(sign: char, n: nat)
    requires sign == '-' || sign == '+'
    ensures Strs.Strip([sign] + NatToStr(n)) == [sign] + NatToStr(n)
  {
    var d := NatToStr(n);
    var t := [sign] + d;
    assert t[0] == sign && t[|t| - 1] == d[|d| - 1];
    StripsToItself(t);
  }

  lemma SignedReadsBack(sign: char, n: nat)
    requires sign == '-' || sign == '+'
    ensures ReadInt([sign] + NatToStr(n)) == Some(if sign == '-' then -(n as int) else n)
  {
    ParseNatToStr(n);
    ReadSigned(sign, NatToStr(n));
  }

  /** On text with no surrounding whitespace `int` reads what `ReadInt` does. */
  lemma ParseIntStripped(t: string)
    requires Strs.Strip(t) == t
    ensures ParseInt(t) == ReadInt(t)
  {
  }

  /** Whitespace around a number does not change what `int` reads. */
  lemma ParseIntPadded(l: string, s: string, r: string)
    requires forall i :: 0 <= i < |l| ==> Strs.IsSpace(l[i])
    requires forall i :: 0 <= i < |r| ==> Strs.IsSpace(r[i])
    requires |s| > 0 ==> !Strs.IsSpace(s[0]) && !Strs.IsSpace(s[|s| - 1])
    ensures ParseInt(l + s + r) == ParseInt(s)
  {
    Strs.StripPadded(l, s, r);
    Strs.StripPadded("", s, "");
    assert "" + s + "" == s;
  }

  /** Two runs of digits joined by one underscore are a valid digit text for `int`. */
  lemma UnderscoreJoinIsGroups(a: string, b: string)
    requires Strs.IsDigits(a) && Strs.IsDigits(b)
    ensures IsDigitGroups(a + "_" + b)
  {
    var t := a + "_" + b;
    assert forall i :: 0 <= i < |t| ==> (t[i] == '_' <==> i == |a|);
    forall i | 0 <= i <= |t| - 2 ensures !Strs.OccursAt("__", t, i) {
      assert t[i..i + 2][0] == t[i] && t[i..i + 2][1] == t[i + 1];
    }
  }

  /** Dropping the underscore of two joined runs of digits gives the runs side by side. */
  lemma UnderscoreJoinDropped(a: string, b: string)
    requires Strs.IsDigits(a) && Strs.IsDigits(b)
    ensures DropUnderscores(a + "_" + b) == a + b
  {
    DropUnderscoresAppend(a + "_", b);
    DropUnderscoresAppend(a, "_");
    DropUnderscoresNone(a);
    DropUnderscoresNone(b);
    assert DropUnderscores("_") == "";
  }

  /** An underscore between two runs of digits is ignored: `int("3_5") == int("35") == 35`. */
  lemma ParseIntUnderscore(a: string, b: string)
    requires Strs.IsDigits(a) && Strs.IsDigits(b)
    ensures ParseInt(a + "_" + b) == ParseInt(a + b) == Some(ParseNat(a + b))
  {
    var t := a + "_" + b;
    assert ReadInt(t) == Some(ParseNat(a + b)) by {
      UnderscoreJoinIsGroups(a, b);
      UnderscoreJoinDropped(a, b);
    }
    assert ParseInt(t) == ReadInt(t) by {
      StripsToItself(t);
    }
    assert ParseInt(a + b) == Some(ParseNat(a + b)) by {
      assert Strs.IsDigits(a + b);
      StripsToItself(a + b);
      ReadDigits(a + b);
    }
  }
}
