/** Base-ten printing and parsing of 64-bit integers, as the codecs and the store keys use them. */
module Decimal {
  import opened Wrappers
  import Int64

  function DigitChar(d: nat): (c: char)
    requires d < 10
    ensures IsDigit(c) && DigitValue(c) == d
  {
    '0' + d as char
  }

  predicate IsDigit(c: char) {
    '0' <= c <= '9'
  }

  function DigitValue(c: char): (d: nat)
    requires IsDigit(c)
    ensures d < 10
  {
    (c - '0') as int
  }

  predicate AllDigits(s: string) {
    forall c :: c in s ==> IsDigit(c)
  }

  function Digits(n: nat): (s: string)
    ensures s != "" && AllDigits(s)
  {
    if n < 10 then [DigitChar(n)] else Digits(n / 10) + [DigitChar(n % 10)]
  }

  /** The number a run of digits denotes, most significant first. */
  function Value(s: string): nat
    requires AllDigits(s)
  {
    if s == "" then 0 else Value(s[..|s| - 1]) * 10 + DigitValue(s[|s| - 1])
  }

  function FormatInt(n: int): string {
    if n < 0 then "-" + Digits(-n) else Digits(n)
  }

  /** Accepts an optional sign and at least one digit, and only values that fit in 64 bits. */
  function ParseInt(s: string): (r: Option<int>)
    ensures r.Some? ==> Int64.Fits(r.value)
  {
    var negative := s != "" && s[0] == '-';
    var body := if s != "" && (s[0] == '-' || s[0] == '+') then s[1..] else s;
    if body == "" || !AllDigits(body) then None
    else
      var n: int := if negative then 0 - Value(body) else Value(body);
      if Int64.Fits(n) then Some(n) else None
  }

  lemma {:induction false} ValueOfDigits(n: nat)
    ensures Value(Digits(n)) == n
  {
    if n >= 10 {
      ValueOfDigits(n / 10);
      var s := Digits(n);
      assert s[..|s| - 1] == Digits(n / 10);
    }
  }

  /** Every 64-bit integer survives printing and parsing. */
  lemma ParseFormat(n: int)
    requires Int64.Fits(n)
    ensures ParseInt(FormatInt(n)) == Some(n)
  {
    var magnitude := if n < 0 then -n else n;
    ValueOfDigits(magnitude);
    var s := FormatInt(n);
    if n < 0 {
      assert s[1..] == Digits(magnitude);
    } else {
      assert IsDigit(s[0]);
    }
  }

  /** A number that needs more than 64 bits is refused. */
  lemma ParseTooLarge(n: int)
    requires !Int64.Fits(n)
    ensures ParseInt(FormatInt(n)) == None
  {
    var magnitude := if n < 0 then -n else n;
    ValueOfDigits(magnitude);
    var s := FormatInt(n);
    if n < 0 {
      assert s[1..] == Digits(magnitude);
    } else {
      assert IsDigit(s[0]);
    }
  }

  /** Leading zeros and a plus sign are accepted and change nothing; a minus sign negates what it stands before. */
  lemma ParseSigned(body: string)
    requires body != "" && AllDigits(body)
    ensures ParseInt("0" + body) == ParseInt("+" + body) == ParseInt(body)
    ensures ParseInt(body).Some? ==> ParseInt("-" + body) == Some(-ParseInt(body).value)
  {
    ZeroInFront(body);
    assert IsDigit(body[0]) && ("0" + body)[0] == '0';
    assert ("+" + body)[1..] == body && ("-" + body)[1..] == body;
  }

  lemma {:induction false} ZeroInFront(body: string)
    requires AllDigits(body)
    ensures AllDigits("0" + body) && Value("0" + body) == Value(body)
  {
    var s := "0" + body;
    if body == "" {
      assert s[..|s| - 1] == "" && s[|s| - 1] == '0';
    } else {
      var k := |body| - 1;
      assert s[..|s| - 1] == "0" + body[..k];
      ZeroInFront(body[..k]);
    }
  }

  /** Nothing is a number without a digit, or with anything but digits behind its sign. */
  lemma ParseRefuses(s: string)
    requires s in ["", "+", "-"]
          || (exists i :: 1 <= i < |s| && !('0' <= s[i] <= '9'))
          || (s != "" && s[0] != '+' && s[0] != '-' && !('0' <= s[0] <= '9'))
    ensures ParseInt(s) == None
  {
    if i :| 1 <= i < |s| && !('0' <= s[i] <= '9') {
      assert s[1..][i - 1] == s[i] && s[i] in s;
      assert !IsDigit(s[i]);
    } else if s != "" && !IsDigit(s[0]) {
      assert s[0] in s;
    }
  }

  /** Printing is injective on all integers, 64-bit or not. */
  lemma FormatInjective(m: int, n: int)
    requires FormatInt(m) == FormatInt(n)
    ensures m == n
  {
    var a, b := FormatInt(m), FormatInt(n);
    assert m < 0 <==> a[0] == '-' by {
      if m >= 0 { assert IsDigit(Digits(m)[0]); }
    }
    assert n < 0 <==> b[0] == '-' by {
      if n >= 0 { assert IsDigit(Digits(n)[0]); }
    }
    if m < 0 {
      assert a[1..] == Digits(-m) && b[1..] == Digits(-n);
      ValueOfDigits(-m);
      ValueOfDigits(-n);
    } else {
      ValueOfDigits(m);
      ValueOfDigits(n);
    }
  }

  /** Printing is in base ten: a further digit at the end is ten times the number and that digit. */
  lemma PrintsDecimal(n: nat, d: nat)
    requires d < 10
    ensures FormatInt(10 * n + d) == (if n == 0 then "" else FormatInt(n)) + ["0123456789"[d]]
    ensures n > 0 ==> FormatInt(-(n as int)) == "-" + FormatInt(n)
  {
    assert (10 * n + d) / 10 == n && (10 * n + d) % 10 == d;
  }

  /** A printed integer never holds a slash. */
  lemma FormatHasNoSlash(n: int)
    ensures '/' !in FormatInt(n)
  {
    var magnitude := if n < 0 then -n else n;
    assert AllDigits(Digits(magnitude));
  }

  /** A printed integer never holds a colon, so it can be a colon-separated field. */
  lemma FormatHasNoColon(n: int)
    ensures ':' !in FormatInt(n)
  {
    var magnitude := if n < 0 then -n else n;
    assert AllDigits(Digits(magnitude));
  }
}
