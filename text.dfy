/**
 * The three pieces of the Java string library the version store relies on:
 * rendering an int in decimal (`String.valueOf(int)`, also what `%d` prints),
 * parsing one back (`Integer.parseInt`) and stripping padding (`String.trim`).
 */
module Text {
  import opened Wrappers

  /** Bounds of a Java `int`. */
  const MinInt: int := -0x8000_0000
  const MaxInt: int := 0x7fff_ffff

  predicate InInt32(n: int) { MinInt <= n <= MaxInt }

  predicate IsDigit(c: char) { '0' <= c <= '9' }

  predicate IsDigits(s: string) { forall i :: 0 <= i < |s| ==> IsDigit(s[i]) }

  function DigitValue(c: char): (d: nat)
    requires IsDigit(c)
    ensures d < 10
  {
    c as int - '0' as int
  }

  function DigitChar(d: nat): (c: char)
    requires d < 10
    ensures IsDigit(c) && DigitValue(c) == d
  {
    ('0' as int + d) as char
  }

  /** The value of a run of decimal digits, most significant digit first. */
  function DigitsValue(s: string): nat
    requires IsDigits(s)
  {
    if s == [] then 0 else DigitsValue(s[..|s| - 1]) * 10 + DigitValue(s[|s| - 1])
  }

  /** Canonical decimal digits of a natural number: no sign and no leading zero. */
  function NatToString(n: nat): (s: string)
    ensures s != [] && IsDigits(s)
    ensures DigitsValue(s) == n
    ensures s[0] == '0' ==> s == "0"
  {
    if n < 10 then [DigitChar(n)]
    else
      var prefix := NatToString(n / 10);
      assert (prefix + [DigitChar(n % 10)])[..|prefix|] == prefix;
      prefix + [DigitChar(n % 10)]
  }

  /** `String.valueOf(int)`: a minus sign for negative values, then the canonical digits. */
  function IntToString(n: int): (s: string)
    ensures s != [] && (s[0] == '-' <==> n < 0)
  {
    if n < 0 then "-" + NatToString(-n) else NatToString(n)
  }

  /** The text of an int is digits, with a minus sign in front only. */
  lemma IntToStringChars(n: int)
    ensures forall i :: 0 <= i < |IntToString(n)| ==>
      IsDigit(IntToString(n)[i]) || (i == 0 && IntToString(n)[i] == '-')
  {
  }

  /** A single digit renders as that one character. */
  lemma IntToStringOfDigit(d: int)
    requires 0 <= d < 10
    ensures IntToString(d) == [DigitChar(d)]
  {
  }

  /**
   * `Integer.parseInt(s)`: an optional '+' or '-' followed by at least one
   * decimal digit, whose value must fit in an int; anything else is the
   * NumberFormatException case, here None.
   */
  function ParseInt(s: string): (r: Option<int>)
    ensures r.Some? ==> InInt32(r.value)
  {
    if s == [] then None
    else
      var digits := if s[0] == '-' || s[0] == '+' then s[1..] else s;
      if digits == [] || !IsDigits(digits) then None
      else
        var n: int := if s[0] == '-' then 0 - DigitsValue(digits) else DigitsValue(digits);
        if InInt32(n) then Some(n) else None
  }

  /** Round trip: parsing what `String.valueOf` wrote gives the int back. */
  lemma {:induction false} ParseIntOfIntToString(n: int)
    requires InInt32(n)
    ensures ParseInt(IntToString(n)) == Some(n)
  {
    var s := IntToString(n);
    if n < 0 {
      assert s[1..] == NatToString(-n);
    } else {
      assert s == NatToString(n);
      assert s[0] != '-' && s[0] != '+' by { assert IsDigit(s[0]); }
    }
  }

  /**
   * A character that is not a digit, anywhere except as a leading sign,
   * makes `Integer.parseInt` fail.
   */
  lemma ParseIntRejectsNonDigit(s: string, i: nat)
    requires i < |s| && !IsDigit(s[i])
    requires i > 0 || (s[0] != '-' && s[0] != '+')
    ensures ParseInt(s) == None
  {
    if i > 0 && (s[0] == '-' || s[0] == '+') {
      assert s[1..][i - 1] == s[i];
    }
  }

  /** `String.valueOf` never maps two ints to the same text. */
  lemma {:induction false} IntToStringInjective(a: int, b: int)
    ensures IntToString(a) == IntToString(b) ==> a == b
  {
    if IntToString(a) == IntToString(b) {
      var s := IntToString(a);
      if a < 0 {
        assert s[1..] == NatToString(-a) == NatToString(-b);
      }
    }
  }

  /** The characters `String.trim` removes: every code point up to and including the space. */
  predicate IsTrimmable(c: char) { c <= ' ' }

  predicate AllTrimmable(s: string) { forall i :: 0 <= i < |s| ==> IsTrimmable(s[i]) }

  /** Drops the longest prefix of trimmable characters. */
  function TrimStart(s: string): (r: string)
    ensures |r| <= |s|
  {
    if s != [] && IsTrimmable(s[0]) then TrimStart(s[1..]) else s
  }

  /** Drops the longest suffix of trimmable characters. */
  function TrimEnd(s: string): (r: string)
    ensures |r| <= |s|
  {
    if s != [] && IsTrimmable(s[|s| - 1]) then TrimEnd(s[..|s| - 1]) else s
  }

  /** `String.trim`; TrimPadded below says what it returns. */
  function Trim(s: string): (r: string)
    ensures |r| <= |s|
    ensures s == [] || (!IsTrimmable(s[0]) && !IsTrimmable(s[|s| - 1])) ==> r == s
  {
    TrimEnd(TrimStart(s))
  }

  /** Leading padding makes no difference to TrimStart. */
  lemma {:induction false} TrimStartPadded(before: string, rest: string)
    requires AllTrimmable(before)
    ensures TrimStart(before + rest) == TrimStart(rest)
  {
    if before != [] {
      assert (before + rest)[1..] == before[1..] + rest;
      TrimStartPadded(before[1..], rest);
    } else {
      assert before + rest == rest;
    }
  }

  /** Trailing padding makes no difference to TrimEnd. */
  lemma {:induction false} TrimEndPadded(rest: string, after: string)
    requires AllTrimmable(after)
    ensures TrimEnd(rest + after) == TrimEnd(rest)
  {
    if after != [] {
      var last := |after| - 1;
      assert (rest + after)[..|rest + after| - 1] == rest + after[..last];
      TrimEndPadded(rest, after[..last]);
    } else {
      assert rest + after == rest;
    }
  }

  /**
   * Trim removes exactly the padding around a word that has none of its
   * own.  Every string splits this way, so this fixes Trim everywhere.
   */
  lemma {:induction false} TrimPadded(before: string, word: string, after: string)
    requires AllTrimmable(before) && AllTrimmable(after)
    requires word == [] || (!IsTrimmable(word[0]) && !IsTrimmable(word[|word| - 1]))
    ensures Trim(before + word + after) == word
  {
    var rest := word + after;
    assert before + word + after == before + rest;
    TrimStartPadded(before, rest);
    if word == [] {
      assert rest == after + [];
      TrimStartPadded(after, []);
      assert TrimStart(rest) == [];
    } else {
      assert rest[0] == word[0];
      assert TrimStart(rest) == rest;
      TrimEndPadded(word, after);
      assert TrimEnd(word) == word;
    }
  }

  /** What `String.valueOf` writes comes back unchanged through `trim`. */
  lemma {:induction false} TrimIntToString(n: int)
    ensures Trim(IntToString(n)) == IntToString(n)
  {
    var s := IntToString(n);
    IntToStringChars(n);
    assert !IsTrimmable(s[0]) && !IsTrimmable(s[|s| - 1]);
    assert [] + s + [] == s;
    TrimPadded([], s, []);
  }
}
