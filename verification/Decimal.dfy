// Decimal notation: what `str(n)` prints and `int(digits)` reads back.

module Decimal {

  predicate IsDigit(c: char) {
    '0' <= c <= '9'
  }

  /** A match of `\d+` over ASCII text: at least one character and nothing but digits. */
  predicate AllDigits(s: string) {
    s != [] && forall i | 0 <= i < |s| :: IsDigit(s[i])
  }

  function DigitValue(c: char): nat
    requires IsDigit(c)
  {
    (c as int - '0' as int) as nat
  }

  /** Reads a run of digits; leading zeros are allowed, so different texts can name one number. */
  function Parse(s: string): nat
    requires AllDigits(s)
  {
    var last := DigitValue(s[|s| - 1]);
    if |s| == 1 then last else 10 * Parse(s[..|s| - 1]) + last
  }

  /** Prints a natural number without leading zeros. */
  function Print(n: nat): string
    ensures AllDigits(Print(n))
  {
    var last := [('0' as int + n % 10) as char];
    if n < 10 then last else Print(n / 10) + last
  }

  /** Only zero is printed with a zero in front. */
  lemma {:induction false} NoLeadingZero(n: nat)
    ensures Print(n)[0] == '0' ==> n == 0 && Print(n) == "0"
  {
    if n >= 10 {
      NoLeadingZero(n / 10);
      assert Print(n)[0] == Print(n / 10)[0];
    }
  }

  /** A zero in front does not change the number. */
  lemma {:induction false} ParseZero(s: string)
    requires AllDigits(s)
    ensures AllDigits("0" + s) && Parse("0" + s) == Parse(s)
  {
    var longer := "0" + s;
    var init := longer[..|longer| - 1];
    if |s| == 1 {
      assert init == "0" && Parse(init) == 0;
    } else {
      ParseZero(s[..|s| - 1]);
      assert init == "0" + s[..|s| - 1];
    }
  }

  /** Printing gives back every run of digits that has no zero in front of another digit. */
  lemma {:induction false} PrintParse(s: string)
    requires AllDigits(s)
    ensures Print(Parse(s)) == s <==> |s| == 1 || s[0] != '0'
  {
    if |s| == 1 {
      assert Print(Parse(s)) == s;
    } else {
      var init, last := s[..|s| - 1], s[|s| - 1];
      PrintParse(init);
      assert Parse(s) == 10 * Parse(init) + DigitValue(last);
      if s[0] == '0' {
        NoLeadingZero(Parse(s));
      } else {
        FirstDigit(init);
        assert Parse(s) / 10 == Parse(init) && Parse(s) % 10 == DigitValue(last);
        assert Print(Parse(s)) == Print(Parse(init)) + [last];
      }
    }
  }

  lemma {:induction false} FirstDigit(s: string)
    requires AllDigits(s) && s[0] != '0'
    ensures Parse(s) >= 1
  {
    if |s| > 1 { FirstDigit(s[..|s| - 1]); }
  }

  function PrintInt(n: int): string {
    if n < 0 then "-" + Print(-n) else Print(n)
  }

  /** Reading back a printed number gives the number, for every natural number. */
  lemma {:induction false} ParsePrint(n: nat)
    ensures Parse(Print(n)) == n
  {
    var s := Print(n);
    assert DigitValue(s[|s| - 1]) == n % 10;
    if n >= 10 {
      ParsePrint(n / 10);
      assert s[..|s| - 1] == Print(n / 10);
    }
  }
}
