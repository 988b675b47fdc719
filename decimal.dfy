/** Decimal numerals: how `operator<<` writes the Content-Length value and
    how `std::stoi` reads the digits of a port. */
module Decimal {

  import opened Chars

  function Digit(d: nat): (c: char)
    requires d < 10
    ensures IsDigit(c) && DigitValue(c) == d
  {
    ('0' as int + d) as char
  }

  function DigitValue(c: char): nat
    requires IsDigit(c)
  {
    c as int - '0' as int
  }

  predicate AllDigits(s: string)
  {
    forall i :: 0 <= i < |s| ==> IsDigit(s[i])
  }

  /** A canonical numeral: at least one digit and no leading zero, except "0" itself. */
  predicate Canonical(s: string)
  {
    |s| >= 1 && AllDigits(s) && (s[0] == '0' ==> s == "0")
  }

  /** The text `operator<<` writes for an unsigned value: no sign, no padding. */
  function Render(n: nat): (s: string)
    ensures Canonical(s)
  {
    if n < 10 then [Digit(n)] else Render(n / 10) + [Digit(n % 10)]
  }

  /** The value of a run of digits, most significant first, accumulated as `strtol` does. */
  function Value(s: string): nat
    requires AllDigits(s)
  {
    if s == [] then 0 else Value(s[..|s| - 1]) * 10 + DigitValue(s[|s| - 1])
  }

  /** Reading back what `Render` wrote gives the number. */
  lemma {:induction false} ValueOfRender(n: nat)
    ensures Value(Render(n)) == n
  {
    if n >= 10 {
      var s := Render(n);
      assert s[..|s| - 1] == Render(n / 10);
      ValueOfRender(n / 10);
    }
  }

  /** A numeral without a leading zero has a positive value, unless it is "0". */
  lemma {:induction false} ValuePositive(s: string)
    requires |s| >= 1 && AllDigits(s) && s[0] != '0'
    ensures Value(s) >= 1
  {
    if |s| > 1 {
      ValuePositive(s[..|s| - 1]);
    }
  }

  /** Rendering the value of a canonical numeral gives the numeral back, so
      every canonical numeral is the rendering of exactly one number. */
  lemma {:induction false} RenderOfValue(s: string)
    requires Canonical(s)
    ensures Render(Value(s)) == s
  {
    var init := s[..|s| - 1];
    if init != [] {
      assert init[0] == s[0] != '0';
      ValuePositive(init);
      RenderOfValue(init);
      assert s == init + [s[|s| - 1]];
    }
  }
}
