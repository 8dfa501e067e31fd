/**
 * The few JavaScript string operations the calendar relies on, on integers:
 * `Number.prototype.toString`, `String.prototype.padStart(2, '0')`,
 * `Number(text)` and `String.prototype.split`.
 */
module Text {
  import opened Wrappers

  predicate IsDigit(c: char) {
    '0' <= c <= '9'
  }

  predicate AllDigits(s: string) {
    forall i :: 0 <= i < |s| ==> IsDigit(s[i])
  }

  function DigitChar(d: nat): (c: char)
    requires d < 10
    ensures IsDigit(c) && c as int - '0' as int == d
  {
    (d + '0' as int) as char
  }

  /** Decimal digits of `n`, most significant first, without leading zeros. */
  function Digits(n: nat): (s: string)
    ensures 1 <= |s| && AllDigits(s)
    ensures |s| == 1 <==> n < 10
    decreases n
  {
    if n < 10 then [DigitChar(n)] else Digits(n / 10) + [DigitChar(n % 10)]
  }

  /** The number a string of decimal digits denotes (leading zeros allowed). */
  function DigitsValue(s: string): nat
    requires AllDigits(s)
  {
    if s == [] then 0 else DigitsValue(s[..|s| - 1]) * 10 + (s[|s| - 1] as int - '0' as int)
  }

  lemma {:induction false} DigitsRoundTrip(n: nat)
    ensures DigitsValue(Digits(n)) == n
    decreases n
  {
    if n >= 10 {
      var s := Digits(n);
      assert s[..|s| - 1] == Digits(n / 10);
      DigitsRoundTrip(n / 10);
    }
  }

  /** `n.toString()` for an integer `n`. */
  function IntString(n: int): (s: string)
    ensures 1 <= |s|
    ensures n >= 0 ==> AllDigits(s)
    ensures n < 0 ==> 2 <= |s| && s[0] == '-' && AllDigits(s[1..])
    ensures forall i :: 0 <= i < |s| ==> IsDigit(s[i]) || s[i] == '-'
  {
    if n < 0 then "-" + Digits(-n) else Digits(n)
  }

  /** `s.padStart(2, '0')`: zeros are added at the front until the string has two characters. */
  function PadStart2(s: string): (r: string)
    ensures |r| == if |s| < 2 then 2 else |s|
    ensures forall i :: 0 <= i < |r| - |s| ==> r[i] == '0'
    ensures |s| >= 2 ==> r == s
    ensures |s| == 1 ==> r[1] == s[0]
  {
    if |s| >= 2 then s else if |s| == 1 then ['0'] + s else ['0', '0']
  }

  /**
   * `Number(s)` on the strings this calendar produces or reads from a time field:
   * the empty string is 0, an optional minus sign followed by decimal digits is that
   * integer, and anything else is NaN (`None`).
   */
  function NumberValue(s: string): (r: Option<int>)
    ensures AllDigits(s) ==> r == Some(DigitsValue(s))
  {
    if s == [] then Some(0)
    else if s[0] == '-' then
      if |s| > 1 && AllDigits(s[1..]) then Some(-(DigitsValue(s[1..]) as int)) else None
    else if AllDigits(s) then Some(DigitsValue(s))
    else None
  }

  /** A padded integer holds only digits and possibly a minus sign, so no other character occurs in it. */
  lemma PaddedAvoids(n: int, c: char)
    requires !IsDigit(c) && c != '-'
    ensures c !in PadStart2(IntString(n))
  {
  }

  /** Writing an integer with `toString().padStart(2, '0')` and reading it with `Number` gives it back. */
  lemma PaddedRoundTrip(n: int)
    ensures NumberValue(PadStart2(IntString(n))) == Some(n)
  {
    if n < 0 {
      NegativeRoundTrip(-n);
    } else if n < 10 {
      SingleDigitRoundTrip(n);
    } else {
      assert PadStart2(IntString(n)) == Digits(n);
      DigitsRoundTrip(n);
    }
  }

  /** A negative number is written as a minus sign and its digits, and reads back. */
  lemma NegativeRoundTrip(m: nat)
    requires m > 0
    ensures NumberValue(PadStart2(IntString(-(m as int)))) == Some(-(m as int))
  {
    var s := IntString(-(m as int));
    assert s == "-" + Digits(m) && PadStart2(s) == s;
    assert s[1..] == Digits(m);
    DigitsRoundTrip(m);
  }

  /** A single digit gets a leading zero, which `Number` ignores. */
  lemma SingleDigitRoundTrip(n: nat)
    requires n < 10
    ensures NumberValue(PadStart2(IntString(n))) == Some(n)
  {
    var r := PadStart2(IntString(n));
    assert r == ['0', DigitChar(n)];
    assert r[..1] == ['0'] && DigitsValue(['0']) == 0;
    assert DigitsValue(r) == n;
  }

  /** `parts.join(sep)`. */
  function Join(parts: seq<string>, sep: char): string {
    if |parts| == 0 then []
    else if |parts| == 1 then parts[0]
    else parts[0] + [sep] + Join(parts[1..], sep)
  }

  /**
   * `s.split(sep)` for a one-character separator: the pieces between separators,
   * in order, including empty ones.
   */
  function Split(s: string, sep: char): (r: seq<string>)
    ensures 1 <= |r|
    ensures forall i :: 0 <= i < |r| ==> sep !in r[i]
    ensures Join(r, sep) == s
  {
    if s == [] then [[]]
    else
      var rest := Split(s[1..], sep);
      if s[0] == sep then
        assert Join([[]] + rest, sep) == [sep] + Join(rest, sep);
        [[]] + rest
      else
        var r := [[s[0]] + rest[0]] + rest[1..];
        assert r[1..] == rest[1..];
        assert s == [s[0]] + s[1..];
        r
  }

  lemma {:induction false} SplitNoSeparator(s: string, sep: char)
    requires sep !in s
    ensures Split(s, sep) == [s]
  {
    if s != [] {
      SplitNoSeparator(s[1..], sep);
    }
  }

  /** Splitting two separator-free pieces joined by the separator gives the two pieces back. */
  lemma {:induction false} SplitPair(a: string, b: string, sep: char)
    requires sep !in a && sep !in b
    ensures Split(a + [sep] + b, sep) == [a, b]
  {
    var s := a + [sep] + b;
    if a == [] {
      assert s[1..] == b;
      SplitNoSeparator(b, sep);
    } else {
      assert s[1..] == a[1..] + [sep] + b;
      SplitPair(a[1..], b, sep);
      assert [a[0]] + a[1..] == a;
    }
  }
}
