/** Decimal numerals: what `str(n)` prints and `int(s)` reads. */
module Decimal {
  predicate IsDigit(c: char) { '0' <= c <= '9' }

  predicate AllDigits(s: string) { forall i :: 0 <= i < |s| ==> IsDigit(s[i]) }

  function DigitChar(d: int): (c: char)
    requires 0 <= d < 10
    ensures IsDigit(c) && DigitValue(c) == d
  {
    (48 + d) as char
  }

  function DigitValue(c: char): (d: int)
    requires IsDigit(c)
    ensures 0 <= d < 10
  {
    c as int - 48
  }

  function Numeral(n: nat): (s: string)
    ensures s != "" && AllDigits(s)
  {
    if n < 10 then [DigitChar(n)] else Numeral(n / 10) + [DigitChar(n % 10)]
  }

  /** No numeral but "0" starts with a zero. */
  lemma {:induction false} NumeralNonzero(n: nat)
    requires n > 0
    ensures Numeral(n)[0] != '0'
  {
    if n >= 10 {
      NumeralNonzero(n / 10);
    }
  }

  function Value(s: string): nat
    requires AllDigits(s)
  {
    if s == "" then 0 else Value(s[..|s| - 1]) * 10 + DigitValue(s[|s| - 1])
  }

  lemma {:induction false} ValueOfNumeral(n: nat)
    ensures Value(Numeral(n)) == n
  {
    if n >= 10 {
      ValueOfNumeral(n / 10);
      assert Numeral(n)[..|Numeral(n)| - 1] == Numeral(n / 10);
    }
  }

  /** A text of digits is a numeral unless it has a zero too many in front. */
  lemma {:induction false} NumeralOfValue(s: string)
    requires s != "" && AllDigits(s) && (s == "0" || s[0] != '0')
    ensures Numeral(Value(s)) == s
    ensures s[0] != '0' ==> Value(s) > 0
  {
    var init, last := s[..|s| - 1], s[|s| - 1];
    assert s == init + [last];
    var d := DigitValue(last);
    assert Value(s) == Value(init) * 10 + d && DigitChar(d) == last;
    if init == "" {
      assert Value(init) == 0;
    } else {
      NumeralOfValue(init);
      var v := Value(init);
      LastDigit(v, d);
      hide Value, AllDigits;
      assert Numeral(v * 10 + d) == Numeral(v) + [DigitChar(d)];
    }
  }

  lemma LastDigit(v: nat, d: int)
    requires 0 <= d < 10
    ensures (v * 10 + d) / 10 == v && (v * 10 + d) % 10 == d
  {
  }

  /** Each digit counts for what it is. */
  lemma DigitsExactly(n: nat, d: int)
    requires 0 <= d < 10
    ensures Numeral(d) == ["0123456789"[d]] && Value(["0123456789"[d]]) == d
    ensures n > 0 ==> Numeral(10 * n + d) == Numeral(n) + ["0123456789"[d]]
  {
    assert DigitChar(d) == "0123456789"[d];
    assert ["0123456789"[d]][..0] == "";
    LastDigit(n, d);
  }

  /** How many digits a text starts with. */
  function Span(s: string): (n: nat)
    ensures n <= |s| && AllDigits(s[..n])
    ensures n < |s| ==> !IsDigit(s[n])
  {
    if s == "" || !IsDigit(s[0]) then 0 else 1 + Span(s[1..])
  }

  lemma {:induction false} SpanOf(d: string, rest: string)
    requires AllDigits(d)
    requires rest == "" || !IsDigit(rest[0])
    ensures Span(d + rest) == |d|
  {
    if d == "" {
      assert d + rest == rest;
    } else {
      SpanOf(d[1..], rest);
      assert (d + rest)[1..] == d[1..] + rest;
    }
  }
}
