/**
 * The stringisation customisation point `stringizer::to_string`. Strings and
 * `char` have their own overloads, `int` goes to `std::to_string`, and every
 * other type (here `bool` and the opaque class, which the catch-all template
 * matches exactly) falls back to the implementation-defined type name, which
 * the model takes as a parameter.
 */
module Stringizer {
  import opened Values

  predicate IsDigit(c: char) {
    '0' <= c <= '9'
  }

  predicate AllDigits(s: string) {
    forall i | 0 <= i < |s| :: IsDigit(s[i])
  }

  function DigitChar(d: nat): (c: char)
    requires d < 10
    ensures IsDigit(c) && DigitValue(c) == d
  {
    (d + '0' as int) as char
  }

  function DigitValue(c: char): nat
    requires IsDigit(c)
  {
    c as int - '0' as int
  }

  /** The decimal digits of `n`, most significant first, with no leading zero. */
  function NatDigits(n: nat): (s: string)
    ensures |s| >= 1 && AllDigits(s)
    ensures s[0] == '0' ==> n == 0
    decreases n
  {
    if n < 10 then [DigitChar(n)] else NatDigits(n / 10) + [DigitChar(n % 10)]
  }

  /** Reads a string of decimal digits back as a number. */
  function ParseNat(s: string): nat
    requires AllDigits(s)
  {
    if s == [] then 0 else ParseNat(s[..|s| - 1]) * 10 + DigitValue(s[|s| - 1])
  }

  lemma {:induction false} ParseNatDigits(n: nat)
    ensures ParseNat(NatDigits(n)) == n
    decreases n
  {
    if n >= 10 {
      var s := NatDigits(n);
      assert s[..|s| - 1] == NatDigits(n / 10);
      ParseNatDigits(n / 10);
    }
  }

  /** `std::to_string(int)`: an optional minus sign followed by the magnitude's digits. */
  function IntToString(i: int): (s: string)
    ensures |s| >= 1
    ensures s[0] == '-' <==> i < 0
  {
    if i < 0 then "-" + NatDigits(-i) else NatDigits(i)
  }

  /** Reads an optionally signed decimal numeral. */
  function ParseInt(s: string): int
    requires |s| >= 1
    requires AllDigits(if s[0] == '-' then s[1..] else s)
  {
    if s[0] == '-' then -(ParseNat(s[1..]) as int) else ParseNat(s)
  }

  /** `std::to_string` on `int` loses nothing: parsing the text gives the number back. */
  lemma IntToStringRoundTrip(i: int)
    ensures var s := IntToString(i); AllDigits(if s[0] == '-' then s[1..] else s) && ParseInt(s) == i
  {
    var s := IntToString(i);
    if i < 0 {
      assert s[1..] == NatDigits(-i);
      ParseNatDigits(-i);
    } else {
      ParseNatDigits(i);
    }
  }

  /** `stringizer::to_string` applied to the held value. */
  function ToString(v: Val, typeName: Ty -> string): (s: string)
    ensures v.VInt? ==> |s| >= 1 && AllDigits(if s[0] == '-' then s[1..] else s) && ParseInt(s) == v.i
    ensures v.VChar? ==> s == [v.c]
    ensures v.VStr? ==> s == v.s
    ensures v.VBool? || v.VOpaque? ==> s == typeName(TypeOf(v))
  {
    match v
    case VInt(i) => IntToStringRoundTrip(i); IntToString(i)
    case VChar(c) => [c]
    case VStr(s) => s
    case VBool(_) => typeName(TypeOf(v))
    case VOpaque(_) => typeName(TypeOf(v))
  }

  /** Appending a digit to a positive number appends its character to the rendering. */
  lemma NatDigitsAppend(n: nat, d: nat)
    requires n >= 1 && d < 10
    ensures NatDigits(n * 10 + d) == NatDigits(n) + [DigitChar(d)]
  {
    assert (n * 10 + d) / 10 == n && (n * 10 + d) % 10 == d;
  }

  /** The rendering `std::to_string` gives for the numbers the tests print. */
  lemma IntToStringExamples()
    ensures IntToString(123456789) == "123456789"
    ensures IntToString(-333) == "-333"
  {
    NineDigits();
    NatDigitsAppend(3, 3);
    NatDigitsAppend(33, 3);
  }

  lemma NineDigits()
    ensures NatDigits(123456789) == "123456789"
  {
    assert NatDigits(12) == "12" by {
      NatDigitsAppend(1, 2);
    }
    assert NatDigits(123) == "123" by {
      NatDigitsAppend(12, 3);
    }
    assert NatDigits(1234) == "1234" by {
      NatDigitsAppend(123, 4);
    }
    assert NatDigits(12345) == "12345" by {
      NatDigitsAppend(1234, 5);
    }
    assert NatDigits(123456) == "123456" by {
      NatDigitsAppend(12345, 6);
    }
    assert NatDigits(1234567) == "1234567" by {
      NatDigitsAppend(123456, 7);
    }
    assert NatDigits(12345678) == "12345678" by {
      NatDigitsAppend(1234567, 8);
    }
    assert NatDigits(123456789) == "123456789" by {
      NatDigitsAppend(12345678, 9);
    }
  }

  lemma ToStringExamples(typeName: Ty -> string)
    ensures ToString(VInt(123456789), typeName) == "123456789"
    ensures ToString(VChar('A'), typeName) == "A"
    ensures ToString(VStr("Hello World!"), typeName) == "Hello World!"
  {
    IntToStringExamples();
  }

}
