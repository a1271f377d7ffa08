/** Option, used for lookups that may fail (a size that cannot be read, a hash that is absent). */
module Wrappers {
  datatype Option<+T> = None | Some(value: T)
}

/**
 * The small part of Python's `str` behaviour that file-name normalisation relies on,
 * restricted to ASCII: the `\d` class, `str.isspace`, `str.lower`, `str.strip` and
 * `str(n)` for a natural number.
 */
module Text {

  predicate IsDigit(c: char) { '0' <= c <= '9' }

  /** `str.isspace` on ASCII: tab, line feed, vertical tab, form feed, carriage return,
      the four separators 0x1C-0x1F and the space. */
  predicate IsSpace(c: char) { c == ' ' || 9 <= c as int <= 13 || 28 <= c as int <= 31 }

  predicate IsUpper(c: char) { 'A' <= c <= 'Z' }

  predicate AllDigits(s: string) { forall k :: 0 <= k < |s| ==> IsDigit(s[k]) }

  predicate AllSpaces(s: string) { forall k :: 0 <= k < |s| ==> IsSpace(s[k]) }

  function LowerChar(c: char): (r: char)
    ensures !IsUpper(r)
    ensures IsUpper(c) || r == c
  {
    if IsUpper(c) then (c as int + 32) as char else c
  }

  /** `s.lower()` */
  function Lower(s: string): (r: string)
    decreases |s|
  {
    if s == [] then [] else Lower(s[..|s| - 1]) + [LowerChar(s[|s| - 1])]
  }

  /** `lower` works character by character. */
  lemma {:induction false} LowerSpec(s: string)
    ensures |Lower(s)| == |s|
    ensures forall k :: 0 <= k < |s| ==> Lower(s)[k] == LowerChar(s[k])
    decreases |s|
  {
    if s != [] {
      LowerSpec(s[..|s| - 1]);
    }
  }

  /** `re.sub(r'\d+$', '', s)`: removes the longest run of digits that ends the string. */
  function DropTrailingDigits(s: string): (r: string)
    decreases |s|
  {
    if s != [] && IsDigit(s[|s| - 1]) then DropTrailingDigits(s[..|s| - 1]) else s
  }

  /** `s.rstrip()` */
  function TrimEnd(s: string): (r: string)
    decreases |s|
  {
    if s != [] && IsSpace(s[|s| - 1]) then TrimEnd(s[..|s| - 1]) else s
  }

  /** `s.lstrip()` */
  function TrimStart(s: string): (r: string)
    decreases |s|
  {
    if s != [] && IsSpace(s[0]) then TrimStart(s[1..]) else s
  }

  /** `s.strip()`: the result is a slice of `s` with only whitespace cut on either side,
      and it neither starts nor ends with whitespace. */
  function Strip(s: string): (r: string)
  {
    var t := TrimEnd(s);
    var r := TrimStart(t);
    r
  }

  /** The digits removed are exactly the longest digit run at the end: what is kept is a
      prefix, everything after it is a digit and the prefix does not itself end in a digit. */
  lemma {:induction false} DropTrailingDigitsSpec(s: string)
    ensures DropTrailingDigits(s) <= s
    ensures AllDigits(s[|DropTrailingDigits(s)|..])
    ensures DropTrailingDigits(s) == [] || !IsDigit(DropTrailingDigits(s)[|DropTrailingDigits(s)| - 1])
    decreases |s|
  {
    if s != [] && IsDigit(s[|s| - 1]) {
      var t := s[..|s| - 1];
      DropTrailingDigitsSpec(t);
      var r := DropTrailingDigits(t);
      assert s[|r|..] == t[|r|..] + [s[|s| - 1]];
    }
  }

  /** `rstrip` keeps a prefix, removes only whitespace and leaves no whitespace at the end. */
  lemma {:induction false} TrimEndSpec(s: string)
    ensures TrimEnd(s) <= s
    ensures AllSpaces(s[|TrimEnd(s)|..])
    ensures TrimEnd(s) == [] || !IsSpace(TrimEnd(s)[|TrimEnd(s)| - 1])
    decreases |s|
  {
    if s != [] && IsSpace(s[|s| - 1]) {
      var t := s[..|s| - 1];
      TrimEndSpec(t);
      var r := TrimEnd(t);
      assert s[|r|..] == t[|r|..] + [s[|s| - 1]];
    }
  }

  /** `lstrip` keeps a suffix, removes only whitespace and leaves no whitespace at the start. */
  lemma {:induction false} TrimStartSpec(s: string)
    ensures |TrimStart(s)| <= |s| && TrimStart(s) == s[|s| - |TrimStart(s)|..]
    ensures AllSpaces(s[..|s| - |TrimStart(s)|])
    ensures TrimStart(s) == [] || !IsSpace(TrimStart(s)[0])
    decreases |s|
  {
    if s != [] && IsSpace(s[0]) {
      var t := s[1..];
      TrimStartSpec(t);
      var r := TrimStart(t);
      assert s[..|s| - |r|] == [s[0]] + t[..|t| - |r|];
    }
  }

  /** `strip` cuts only whitespace, on either side, and what it keeps neither starts
      nor ends with whitespace. */
  lemma StripSpec(s: string)
    ensures Strip(s) == [] || (!IsSpace(Strip(s)[0]) && !IsSpace(Strip(s)[|Strip(s)| - 1]))
    ensures exists i :: 0 <= i <= i + |Strip(s)| <= |s| && Strip(s) == s[i..i + |Strip(s)|]
                        && AllSpaces(s[..i]) && AllSpaces(s[i + |Strip(s)|..])
  {
    var t := TrimEnd(s);
    TrimEndSpec(s);
    TrimStartSpec(t);
    var r := Strip(s);
    var i := |t| - |r|;
    assert s[..i] == t[..i] && r == s[i..i + |r|];
    assert s[i + |r|..] == s[|t|..];
    if r != [] {
      assert r[|r| - 1] == t[|t| - 1];
    }
  }

  function DigitChar(d: nat): (c: char)
    requires d < 10
    ensures IsDigit(c)
  {
    ('0' as int + d) as char
  }

  /** The value of a string of decimal digits. */
  function ParseNat(s: string): nat
    requires AllDigits(s)
    decreases |s|
  {
    if s == [] then 0 else ParseNat(s[..|s| - 1]) * 10 + (s[|s| - 1] as int - '0' as int)
  }

  /** `str(n)` for a natural number: non-empty decimal digits that read back as `n`. */
  function NatToString(n: nat): (r: string)
    ensures |r| >= 1 && AllDigits(r)
    ensures ParseNat(r) == n
    decreases n
  {
    if n < 10 then [DigitChar(n)]
    else
      var r := NatToString(n / 10) + [DigitChar(n % 10)];
      assert r[..|r| - 1] == NatToString(n / 10);
      r
  }

  /** Decimal representations of distinct numbers are distinct. */
  lemma NatToStringInjective(m: nat, n: nat)
    requires NatToString(m) == NatToString(n)
    ensures m == n
  {
    assert ParseNat(NatToString(m)) == m;
  }
}
