/**
 * The pieces of `java.lang.String` behaviour that the servlet helpers rely on:
 * `String.replace(CharSequence, CharSequence)`, the rendering of a `null`
 * operand in string concatenation, and the decimal rendering of an `int`.
 */
module JavaStrings {
  import opened Wrappers

  /** True when `t` occurs somewhere in `s` as a contiguous block. */
  predicate OccursIn(t: string, s: string)
    decreases |s|
  {
    |t| <= |s| && (s[..|t|] == t || OccursIn(t, s[1..]))
  }

  /**
   * `s.replace(t, rep)`: scans `s` left to right and replaces every
   * non-overlapping occurrence of `t`, the leftmost first.
   */
  function Replace(s: string, t: string, rep: string): (r: string)
    requires |t| > 0
    decreases |s|
  {
    if |s| < |t| then s
    else if s[..|t|] == t then rep + Replace(s[|t|..], t, rep)
    else [s[0]] + Replace(s[1..], t, rep)
  }

  /** A string in which `t` does not occur is left as it is. */
  lemma {:induction false} ReplaceAbsent(s: string, t: string, rep: string)
    requires |t| > 0 && !OccursIn(t, s)
    ensures Replace(s, t, rep) == s
    decreases |s|
  {
    if |s| >= |t| {
      assert s[..|t|] != t;
      ReplaceAbsent(s[1..], t, rep);
      assert [s[0]] + s[1..] == s;
    }
  }

  /**
   * The scan is left to right and does not overlap: in "aaa" the first two
   * letters are replaced, and the third, left over, is kept.
   */
  lemma ReplaceLeftToRight()
    ensures Replace("aaa", "aa", "b") == "ba"
  {
    assert "aaa"[..2] == "aa";
    assert "aaa"[2..] == "a";
    assert Replace("a", "aa", "b") == "a";
  }

  /** Deleting occurrences never lengthens, and shortens exactly when `t` occurs. */
  lemma {:induction false} RemoveShortens(s: string, t: string)
    requires |t| > 0
    ensures |Replace(s, t, "")| <= |s|
    ensures |Replace(s, t, "")| == |s| <==> !OccursIn(t, s)
    ensures |Replace(s, t, "")| == |s| ==> Replace(s, t, "") == s
    decreases |s|
  {
    if !OccursIn(t, s) {
      ReplaceAbsent(s, t, "");
    }
    if |s| >= |t| {
      if s[..|t|] == t {
        RemoveShortens(s[|t|..], t);
      } else {
        RemoveShortens(s[1..], t);
      }
    }
  }

  /**
   * A leading `t` followed by text in which `t` does not occur comes back
   * as that text alone: the way a proxy context path is stripped from an
   * application context.
   */
  lemma StripLeading(t: string, rest: string)
    requires |t| > 0 && !OccursIn(t, rest)
    ensures Replace(t + rest, t, "") == rest
  {
    var s := t + rest;
    assert s[..|t|] == t;
    assert s[|t|..] == rest;
    ReplaceAbsent(rest, t, "");
  }

  /** Java renders a `null` operand of `+` on strings as the four letters "null". */
  function ConcatOperand(o: Option<string>): (r: string)
    ensures o.Some? ==> r == o.value
    ensures o.None? ==> r == "null"
  {
    match o
    case Some(s) => s
    case None => "null"
  }

  /** The decimal digit for `d`. */
  function DigitChar(d: nat): (c: char)
    requires d < 10
  {
    "0123456789"[d]
  }

  /** The value of a decimal digit character. */
  function DigitValue(c: char): (d: nat)
  {
    if '0' <= c <= '9' then (c as int - '0' as int) else 0
  }

  predicate IsDigit(c: char) { '0' <= c <= '9' }

  /** Decimal digits only, at least one, and no leading zero unless the whole is "0". */
  predicate CanonicalNat(s: string)
  {
    && |s| > 0
    && (forall k :: 0 <= k < |s| ==> IsDigit(s[k]))
    && (s[0] == '0' ==> s == "0")
  }

  /** A canonical natural, or a minus sign before a canonical natural other than "0". */
  predicate CanonicalInt(s: string)
  {
    if |s| > 0 && s[0] == '-' then CanonicalNat(s[1..]) && s[1..] != "0" else CanonicalNat(s)
  }

  /** Decimal rendering of a natural number, without leading zeros. */
  function NatToString(n: nat): (r: string)
    ensures |r| > 0
    decreases n
  {
    if n < 10 then [DigitChar(n)] else NatToString(n / 10) + [DigitChar(n % 10)]
  }

  /** Java's `"" + i` for an `int`: a minus sign before the digits of a negative value. */
  function IntToString(i: int): (r: string)
  {
    if i < 0 then "-" + NatToString(-i) else NatToString(i)
  }

  /** Reads a string of decimal digits back into a number. */
  function ParseNat(s: string): (n: nat)
  {
    if s == [] then 0 else 10 * ParseNat(s[..|s| - 1]) + DigitValue(s[|s| - 1])
  }

  /** Reads an optional minus sign and decimal digits back into a number. */
  function ParseInt(s: string): (i: int)
  {
    if |s| > 0 && s[0] == '-' then -(ParseNat(s[1..]) as int) else ParseNat(s)
  }

  /**
   * The rendering is made of digits only, has no leading zero unless it is
   * "0", and reads back as the number rendered.
   */
  lemma {:induction false} NatToStringRoundTrip(n: nat)
    ensures CanonicalNat(NatToString(n))
    ensures NatToString(n) == "0" <==> n == 0
    ensures ParseNat(NatToString(n)) == n
    decreases n
  {
    if n >= 10 {
      NatToStringRoundTrip(n / 10);
      var s := NatToString(n);
      assert s[..|s| - 1] == NatToString(n / 10);
      assert s[0] == NatToString(n / 10)[0];
    }
  }

  /**
   * The `int` rendering is canonical, starts with a minus sign exactly for a
   * negative value, and reads back as the number rendered.
   */
  lemma IntToStringRoundTrip(i: int)
    ensures CanonicalInt(IntToString(i))
    ensures IntToString(i)[0] == '-' <==> i < 0
    ensures ParseInt(IntToString(i)) == i
  {
    if i < 0 {
      NatToStringRoundTrip(-i);
      SignedDigits(NatToString(-i));
    } else {
      NatToStringRoundTrip(i);
      assert IsDigit(NatToString(i)[0]);
    }
  }

  /** A minus sign before canonical digits other than "0" is a canonical negative number. */
  lemma SignedDigits(d: string)
    requires CanonicalNat(d) && d != "0"
    ensures CanonicalInt("-" + d)
    ensures ParseInt("-" + d) == -(ParseNat(d) as int)
  {
    assert ("-" + d)[1..] == d;
  }
}
