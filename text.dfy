/**
 * Python's `str.strip()` and `str.title()` on ASCII text, and `str()` of an
 * integer. Letters are the ASCII letters; whitespace is what Python counts as
 * whitespace below code point 128.
 */
module Text {

  predicate IsSpace(c: char)
  {
    9 <= c as int <= 13 || 28 <= c as int <= 32
  }

  predicate IsUpper(c: char) { 'A' <= c <= 'Z' }

  predicate IsLower(c: char) { 'a' <= c <= 'z' }

  /** A cased character is a letter; title-casing resets after anything else. */
  predicate IsCased(c: char) { IsUpper(c) || IsLower(c) }

  function ToUpper(c: char): (d: char)
    ensures IsCased(d) == IsCased(c) && !IsLower(d)
    ensures IsSpace(d) == IsSpace(c)
  {
    if IsLower(c) then (c as int - 32) as char else c
  }

  function ToLower(c: char): (d: char)
    ensures IsCased(d) == IsCased(c) && !IsUpper(d)
    ensures IsSpace(d) == IsSpace(c)
  {
    if IsUpper(c) then (c as int + 32) as char else c
  }

  /** No whitespace at either end. */
  predicate Trimmed(s: string)
  {
    s == [] || (!IsSpace(s[0]) && !IsSpace(s[|s| - 1]))
  }

  /** Index of the first non-whitespace character at or after `i`, or |s| when there is none. */
  function ContentStart(s: string, i: nat): (a: nat)
    requires i <= |s|
    ensures i <= a <= |s|
    ensures forall k :: i <= k < a ==> IsSpace(s[k])
    ensures a < |s| ==> !IsSpace(s[a])
    decreases |s| - i
  {
    if i < |s| && IsSpace(s[i]) then ContentStart(s, i + 1) else i
  }

  /** One past the last non-whitespace character in s[lo..j], or `lo` when there is none. */
  function ContentEnd(s: string, lo: nat, j: nat): (b: nat)
    requires lo <= j <= |s|
    ensures lo <= b <= j
    ensures forall k :: b <= k < j ==> IsSpace(s[k])
    ensures b > lo ==> !IsSpace(s[b - 1])
  {
    if j > lo && IsSpace(s[j - 1]) then ContentEnd(s, lo, j - 1) else j
  }

  /**
   * `str.strip()`: the text between the leading and the trailing whitespace.
   * What is dropped is whitespace, and what is kept starts and ends with
   * something else.
   */
  function Strip(s: string): (r: string)
    ensures Trimmed(r)
    ensures |r| <= |s|
    ensures exists a, b :: 0 <= a <= b <= |s| && r == s[a..b] && AllSpace(s[..a]) && AllSpace(s[b..])
  {
    var a := ContentStart(s, 0);
    var b := ContentEnd(s, a, |s|);
    assert AllSpace(s[..a]) && AllSpace(s[b..]);
    s[a..b]
  }

  /** Every character is whitespace. */
  predicate AllSpace(w: string)
  {
    forall k :: 0 <= k < |w| ==> IsSpace(w[k])
  }

  /** The bounds of the stripped text: whitespace outside them, none at their ends. */
  lemma StripBounds(s: string) returns (a: nat, b: nat)
    ensures a <= b <= |s| && Strip(s) == s[a..b]
    ensures forall k :: 0 <= k < a ==> IsSpace(s[k])
    ensures forall k :: b <= k < |s| ==> IsSpace(s[k])
    ensures a < b ==> !IsSpace(s[a]) && !IsSpace(s[b - 1])
  {
    a := ContentStart(s, 0);
    b := ContentEnd(s, a, |s|);
  }

  /**
   * The stripped text is determined by its defining property: any slice that
   * has only whitespace outside it and none at its own ends is `Strip(s)`.
   */
  lemma StripUnique(s: string, a: nat, b: nat)
    requires a <= b <= |s|
    requires AllSpace(s[..a]) && AllSpace(s[b..])
    requires Trimmed(s[a..b])
    ensures Strip(s) == s[a..b]
  {
    forall k | 0 <= k < a
      ensures IsSpace(s[k])
    {
      assert s[..a][k] == s[k];
    }
    forall k | b <= k < |s|
      ensures IsSpace(s[k])
    {
      assert s[b..][k - b] == s[k];
    }
    if a < b {
      assert s[a..b][0] == s[a] && s[a..b][b - a - 1] == s[b - 1];
    }
    var a0, b0 := StripBounds(s);
  }

  /** Whitespace added around a text is stripped away again. */
  lemma StripPadded(w1: string, s: string, w2: string)
    requires AllSpace(w1) && AllSpace(w2)
    ensures Strip(w1 + s + w2) == Strip(s)
  {
    var a, b := StripBounds(s);
    var p := w1 + s + w2;
    var a', b' := |w1| + a, |w1| + b;
    assert p[a'..b'] == s[a..b];
    assert p[..a'] == w1 + s[..a];
    assert p[b'..] == s[b..] + w2;
    assert AllSpace(p[..a']) by {
      forall k | 0 <= k < a'
        ensures IsSpace(p[..a'][k])
      {
        if k >= |w1| {
          assert p[..a'][k] == s[k - |w1|];
        } else {
          assert p[..a'][k] == w1[k];
        }
      }
    }
    assert AllSpace(p[b'..]) by {
      forall k | 0 <= k < |p| - b'
        ensures IsSpace(p[b'..][k])
      {
        if k >= |s| - b {
          assert p[b'..][k] == w2[k - (|s| - b)];
        } else {
          assert p[b'..][k] == s[b + k];
        }
      }
    }
    if a < b {
      assert p[a'..b'][0] == s[a] && p[a'..b'][b - a - 1] == s[b - 1];
    }
    StripUnique(p, a', b');
  }

  /** Text that is already trimmed is left alone. */
  lemma StripTrimmed(s: string)
    requires Trimmed(s)
    ensures Strip(s) == s
  {
  }

  /**
   * `str.title()` from a given state: a letter is upper-cased when the
   * character before it is not a letter, and lower-cased when it is.
   * Characters that are not letters pass through.
   */
  function TitleFrom(s: string, afterCased: bool): (r: string)
    ensures |r| == |s|
  {
    if s == [] then []
    else [if afterCased then ToLower(s[0]) else ToUpper(s[0])] + TitleFrom(s[1..], IsCased(s[0]))
  }

  /** Title-casing keeps whitespace and letters at the same places. */
  lemma {:induction false} TitleFromShape(s: string, afterCased: bool)
    ensures forall i :: 0 <= i < |s| ==>
      IsSpace(TitleFrom(s, afterCased)[i]) == IsSpace(s[i]) && IsCased(TitleFrom(s, afterCased)[i]) == IsCased(s[i])
  {
    if s != [] {
      TitleFromShape(s[1..], IsCased(s[0]));
      forall i | 1 <= i < |s|
        ensures TitleFrom(s, afterCased)[i] == TitleFrom(s[1..], IsCased(s[0]))[i - 1]
      {
      }
    }
  }

  /** `str.title()`: title-casing from the start of the text. */
  function Title(s: string): (r: string)
    ensures |r| == |s|
  {
    TitleFrom(s, false)
  }

  /** Title-casing twice is title-casing once. */
  lemma {:induction false} TitleFromIdempotent(s: string, afterCased: bool)
    ensures TitleFrom(TitleFrom(s, afterCased), afterCased) == TitleFrom(s, afterCased)
  {
    if s != [] {
      var r := TitleFrom(s, afterCased);
      assert r[1..] == TitleFrom(s[1..], IsCased(s[0]));
      assert IsCased(r[0]) == IsCased(s[0]);
      TitleFromIdempotent(s[1..], IsCased(s[0]));
    }
  }

  /**
   * Which letters `str.title()` upper-cases: a letter at the start (unless the
   * state says a letter came before) or after a character that is not a
   * letter; every other letter is lower-cased.
   */
  lemma {:induction false} TitleFromAt(s: string, afterCased: bool, i: nat)
    requires i < |s|
    ensures TitleFrom(s, afterCased)[i] ==
      if (if i == 0 then afterCased else IsCased(s[i - 1])) then ToLower(s[i]) else ToUpper(s[i])
  {
    if i > 0 {
      TitleFromAt(s[1..], IsCased(s[0]), i - 1);
      assert TitleFrom(s, afterCased)[i] == TitleFrom(s[1..], IsCased(s[0]))[i - 1];
      if i > 1 {
        assert s[1..][i - 2] == s[i - 1];
      }
    }
  }

  /** Two texts that differ at most in the case of their letters. */
  predicate SameUpToCase(s: string, t: string)
  {
    |s| == |t| && forall i :: 0 <= i < |s| ==> ToLower(s[i]) == ToLower(t[i])
  }

  /** Characters equal up to case have the same class and the same upper-case form. */
  lemma SameCharUpToCase(x: char, y: char)
    requires ToLower(x) == ToLower(y)
    ensures IsCased(x) == IsCased(y) && IsSpace(x) == IsSpace(y) && ToUpper(x) == ToUpper(y)
  {
  }

  /** Title-casing forgets the case the letters had. */
  lemma {:induction false} TitleFromIgnoresCase(s: string, t: string, afterCased: bool)
    requires SameUpToCase(s, t)
    ensures TitleFrom(s, afterCased) == TitleFrom(t, afterCased)
  {
    if s != [] {
      SameCharUpToCase(s[0], t[0]);
      assert SameUpToCase(s[1..], t[1..]) by {
        forall i | 0 <= i < |s| - 1
          ensures ToLower(s[1..][i]) == ToLower(t[1..][i])
        {
          assert s[1..][i] == s[i + 1] && t[1..][i] == t[i + 1];
        }
      }
      TitleFromIgnoresCase(s[1..], t[1..], IsCased(s[0]));
    }
  }

  /** Texts equal up to case have their whitespace in the same places, so they strip alike. */
  lemma StripIgnoresCase(s: string, t: string)
    requires SameUpToCase(s, t)
    ensures SameUpToCase(Strip(s), Strip(t))
  {
    forall i | 0 <= i < |s|
      ensures IsSpace(s[i]) == IsSpace(t[i])
    {
      SameCharUpToCase(s[i], t[i]);
    }
    var a, b := StripBounds(s);
    assert AllSpace(t[..a]) by {
      forall k | 0 <= k < a
        ensures IsSpace(t[..a][k])
      {
        assert t[..a][k] == t[k];
      }
    }
    assert AllSpace(t[b..]) by {
      forall k | 0 <= k < |t| - b
        ensures IsSpace(t[b..][k])
      {
        assert t[b..][k] == t[b + k];
      }
    }
    if a < b {
      assert t[a..b][0] == t[a] && t[a..b][b - a - 1] == t[b - 1];
    }
    StripUnique(t, a, b);
    assert forall i :: 0 <= i < b - a ==> s[a..b][i] == s[a + i] && t[a..b][i] == t[a + i];
  }

  /**
   * Texts that differ only in surrounding whitespace and in the case of their
   * letters normalise to the same text.
   */
  lemma NormalizeIgnoresSpacingAndCase(w1: string, s: string, w2: string, t: string)
    requires AllSpace(w1) && AllSpace(w2)
    requires SameUpToCase(s, t)
    ensures Normalize(w1 + s + w2) == Normalize(t)
  {
    StripPadded(w1, s, w2);
    StripIgnoresCase(s, t);
    TitleFromIgnoresCase(Strip(s), Strip(t), false);
  }

  /** Text without letters is left unchanged by title-casing. */
  lemma TitleFromUncased(s: string, afterCased: bool)
    requires forall k :: 0 <= k < |s| ==> !IsCased(s[k])
    ensures TitleFrom(s, afterCased) == s
  {
    forall i | 0 <= i < |s|
      ensures TitleFrom(s, afterCased)[i] == s[i]
    {
      TitleFromAt(s, afterCased, i);
    }
  }

  /** The cleaning step applied to each text cell: strip, then title-case. */
  function Normalize(s: string): (r: string)
    ensures |r| <= |s|
  {
    Title(Strip(s))
  }

  /** Normalised text has no whitespace at either end. */
  lemma NormalizeTrimmed(s: string)
    ensures Trimmed(Normalize(s))
  {
    TitleFromShape(Strip(s), false);
  }

  /** Normalising a normalised string changes nothing. */
  lemma NormalizeIdempotent(s: string)
    ensures Normalize(Normalize(s)) == Normalize(s)
  {
    var t := Normalize(s);
    NormalizeTrimmed(s);
    StripTrimmed(t);
    TitleFromIdempotent(Strip(s), false);
  }

  /** Different texts can normalise alike: a leading space and a lower-case initial are both normalised away. */
  lemma NormalizeMergesSpacingAndCase()
    ensures Normalize(" study") == "Study"
    ensures Normalize("Study") == "Study"
  {
    assert AllSpace(" ") && AllSpace("");
    assert SameUpToCase("study", "Study");
    assert " " + "study" + "" == " study";
    NormalizeIgnoresSpacingAndCase(" ", "study", "", "Study");
    StripTrimmed("Study");
    assert TitleFrom("", true) == "";
    assert TitleFrom("y", true) == "y";
    assert TitleFrom("dy", true) == "dy";
    assert TitleFrom("udy", true) == "udy";
    assert TitleFrom("tudy", true) == "tudy";
  }

  predicate IsDigit(c: char) { '0' <= c <= '9' }

  /** Text made of decimal digits only. */
  predicate AllDigits(s: string)
  {
    forall k :: 0 <= k < |s| ==> IsDigit(s[k])
  }

  /** The number a string of decimal digits denotes, most significant first. */
  function DigitsValue(s: string): int
  {
    if s == [] then 0 else DigitsValue(s[..|s| - 1]) * 10 + (s[|s| - 1] as int - '0' as int)
  }

  /** The number an optional minus sign followed by decimal digits denotes. */
  function IntValue(s: string): int
  {
    if s != [] && s[0] == '-' then -DigitsValue(s[1..]) else DigitsValue(s)
  }

  /** Decimal digits of a natural number, most significant first, with no leading zero. */
  function NatToString(n: nat): (r: string)
    ensures r != [] && AllDigits(r)
    ensures DigitsValue(r) == n
    ensures |r| > 1 ==> r[0] != '0'
  {
    var d := ('0' as int + n % 10) as char;
    if n < 10 then [d]
    else
      var p := NatToString(n / 10);
      assert (p + [d])[..|p + [d]| - 1] == p;
      p + [d]
  }

  /** Text with no whitespace and no letters. */
  predicate NoSpaceOrLetter(s: string)
  {
    forall k :: 0 <= k < |s| ==> !IsSpace(s[k]) && !IsCased(s[k])
  }

  /**
   * `str()` of an integer: a minus sign exactly for negative numbers, then
   * decimal digits without a leading zero that read back as the number. It
   * holds no whitespace and no letters, so neither stripping nor
   * title-casing changes it.
   */
  function IntToString(n: int): (r: string)
    ensures IntValue(r) == n
    ensures r != [] && NoSpaceOrLetter(r)
    ensures (r[0] == '-' <==> n < 0)
    ensures var d := if n < 0 then r[1..] else r; d != [] && AllDigits(d) && (|d| > 1 ==> d[0] != '0')
  {
    if n < 0 then
      var p := NatToString(-n);
      assert ("-" + p)[1..] == p;
      "-" + p
    else NatToString(n)
  }

  /** Normalising the text of an integer changes nothing. */
  lemma NormalizeIntText(n: int)
    ensures Normalize(IntToString(n)) == IntToString(n)
  {
    var r := IntToString(n);
    StripTrimmed(r);
    TitleFromUncased(r, false);
  }
}
