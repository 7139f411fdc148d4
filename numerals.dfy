/**
 * Python's `int()` applied to a `str`, as the tracker applies it to the
 * frequency field of a medicine, together with the canonical decimal
 * numeral that `str()` produces for an integer.
 */
module Numerals {
  import opened Wrappers

  predicate IsDigit(c: char) { '0' <= c <= '9' }

  predicate AllDigits(s: string) {
    forall i :: 0 <= i < |s| ==> IsDigit(s[i])
  }

  predicate IsSpace(c: char) {
    c == ' ' || c == '\t' || c == '\n' || c == '\r' || c == '\U{0B}' || c == '\U{0C}'
  }

  /** The string with leading and trailing ASCII white space removed. */
  function Trim(s: string): (t: string)
    ensures |t| <= |s|
    ensures t != [] ==> !IsSpace(t[0]) && !IsSpace(t[|t| - 1])
  {
    if s == [] then []
    else if IsSpace(s[0]) then Trim(s[1..])
    else if IsSpace(s[|s| - 1]) then Trim(s[..|s| - 1])
    else s
  }

  /** The value of a run of decimal digits, most significant digit first. */
  function DigitsValue(s: string): nat
    requires AllDigits(s)
  {
    if s == [] then 0
    else DigitsValue(s[..|s| - 1]) * 10 + (s[|s| - 1] as int - '0' as int)
  }

  /**
   * Python's default limit on the digits of a decimal numeral that `int()`
   * converts and `str()` produces (`sys.get_int_max_str_digits()`).
   */
  const MaxStrDigits: nat := 4300

  /**
   * `int(s)`: optional white space, an optional sign, at least one decimal
   * digit and at most `MaxStrDigits` of them, optional white space. `None`
   * is the `ValueError` Python raises.
   */
  function ParseInt(s: string): Option<int> {
    var t := Trim(s);
    if |t| > 0 && (t[0] == '+' || t[0] == '-') then
      if |t| > 1 && AllDigits(t[1..]) && |t| - 1 <= MaxStrDigits then
        var v: int := DigitsValue(t[1..]);
        Some(if t[0] == '-' then -v else v)
      else None
    else if |t| > 0 && AllDigits(t) && |t| <= MaxStrDigits then Some(DigitsValue(t))
    else None
  }

  function Digit(d: nat): (c: char)
    requires d < 10
    ensures IsDigit(c) && c as int - '0' as int == d
  {
    ('0' as int + d) as char
  }

  /** `str(n)` for a natural number: its digits, without leading zeros. */
  function NatToString(n: nat): (s: string)
    ensures |s| > 0 && AllDigits(s)
    ensures !IsSpace(s[0]) && !IsSpace(s[|s| - 1])
  {
    if n < 10 then [Digit(n)] else NatToString(n / 10) + [Digit(n % 10)]
  }

  /** `str(n)` for any integer. */
  function IntToString(n: int): string {
    if n < 0 then "-" + NatToString(-n) else NatToString(n)
  }

  lemma {:induction false} NatToStringValue(n: nat)
    ensures DigitsValue(NatToString(n)) == n
  {
    if n >= 10 {
      var s := NatToString(n);
      assert s[..|s| - 1] == NatToString(n / 10);
      NatToStringValue(n / 10);
    }
  }

  /**
   * `int(str(n)) == n`: every canonical decimal numeral parses to its value.
   * `str()` itself refuses integers of more than `MaxStrDigits` digits.
   */
  lemma {:induction false} ParseIntToString(n: int)
    requires |NatToString(if n < 0 then -n else n)| <= MaxStrDigits
    ensures ParseInt(IntToString(n)) == Some(n)
  {
    var s := IntToString(n);
    if n < 0 {
      NatToStringValue(-n);
      assert Trim(s) == s;
      assert s[1..] == NatToString(-n);
    } else {
      NatToStringValue(n);
      assert Trim(s) == s;
    }
  }

  /** White space after the text is removed with the rest of the trailing white space. */
  lemma {:induction false} TrimSpaceAfter(s: string, c: char)
    requires IsSpace(c)
    ensures Trim(s + [c]) == Trim(s)
  {
    if s == [] {
      assert ([] + [c])[1..] == [];
    } else if IsSpace(s[0]) {
      assert (s + [c])[1..] == s[1..] + [c];
      TrimSpaceAfter(s[1..], c);
    } else {
      assert (s + [c])[..|s|] == s;
    }
  }

  /** White space before the text is removed with the rest of the leading white space. */
  lemma {:induction false} TrimPrefix(a: string, s: string)
    requires forall i :: 0 <= i < |a| ==> IsSpace(a[i])
    ensures Trim(a + s) == Trim(s)
  {
    if a == [] {
      assert a + s == s;
    } else {
      assert (a + s)[1..] == a[1..] + s;
      TrimPrefix(a[1..], s);
    }
  }

  /** White space after the text is removed with the rest of the trailing white space. */
  lemma {:induction false} TrimSuffix(s: string, b: string)
    requires forall i :: 0 <= i < |b| ==> IsSpace(b[i])
    ensures Trim(s + b) == Trim(s)
  {
    if b == [] {
      assert s + b == s;
    } else {
      var init := b[..|b| - 1];
      assert s + b == (s + init) + [b[|b| - 1]];
      TrimSpaceAfter(s + init, b[|b| - 1]);
      TrimSuffix(s, init);
    }
  }

  /** `int()` ignores white space around the numeral: a padded text parses as the bare one. */
  lemma ParseIntPadded(a: string, s: string, b: string)
    requires forall i :: 0 <= i < |a| ==> IsSpace(a[i])
    requires forall i :: 0 <= i < |b| ==> IsSpace(b[i])
    ensures ParseInt(a + s + b) == ParseInt(s)
  {
    assert a + s + b == a + (s + b);
    TrimPrefix(a, s + b);
    TrimSuffix(s, b);
  }

  /** A run of more than `MaxStrDigits` digits is refused, whatever its value. */
  lemma ParseIntTooLong(s: string)
    requires AllDigits(s) && |s| > MaxStrDigits
    ensures ParseInt(s) == None
  {
    assert Trim(s) == s by {
      assert !IsSpace(s[0]) && !IsSpace(s[|s| - 1]);
    }
  }

  /** Texts that are not integers make `int()` fail: empty text, a decimal fraction, a word. */
  lemma ParseIntRejects()
    ensures ParseInt("") == None
    ensures ParseInt("1.5") == None
    ensures ParseInt("ten") == None
  {
    assert Trim("1.5") == "1.5";
    assert !IsDigit("1.5"[1]);
    assert Trim("ten") == "ten";
    assert !IsDigit("ten"[0]);
  }
}
