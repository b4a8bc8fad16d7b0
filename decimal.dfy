// Decimal rendering of integers, as Rust's `{}` formatting writes them:
// no leading zeros, a leading '-' for negative values.

module Decimal {

  predicate IsDigit(c: char) {
    '0' <= c <= '9'
  }

  function DigitChar(d: nat): (c: char)
    requires d < 10
    ensures IsDigit(c)
  {
    (48 + d) as char  // '0' is code point 48
  }

  /** The decimal digits of `n`. */
  function NatToString(n: nat): (s: string)
    ensures |s| >= 1
    ensures forall i :: 0 <= i < |s| ==> IsDigit(s[i])
    ensures n >= 10 ==> |s| >= 2
  {
    if n < 10 then [DigitChar(n)] else NatToString(n / 10) + [DigitChar(n % 10)]
  }

  /** The value of a digit character (other characters count as zero). */
  function DigitValue(c: char): nat {
    if IsDigit(c) then (c as int) - 48 else 0
  }

  /** Reads a string of decimal digits back as a number. */
  function ParseNat(s: string): nat {
    if |s| == 0 then 0 else ParseNat(s[..|s| - 1]) * 10 + DigitValue(s[|s| - 1])
  }

  /** Reading a rendered number gives the number back. */
  lemma {:induction false} ParseNatToString(n: nat)
    ensures ParseNat(NatToString(n)) == n
  {
    var s := NatToString(n);
    if n >= 10 {
      assert s[..|s| - 1] == NatToString(n / 10);
      ParseNatToString(n / 10);
    }
    assert DigitValue(s[|s| - 1]) == n % 10;
  }

  /** Rendering of a signed integer. */
  function IntToString(v: int): (s: string)
    ensures |s| >= 1
    ensures forall i :: 0 <= i < |s| ==> s[i] == '-' || IsDigit(s[i])
    ensures (s[0] == '-') <==> v < 0
  {
    if v < 0 then "-" + NatToString(-v) else NatToString(v)
  }

  /** Only zero renders with a leading '0'. */
  lemma {:induction false} NatToStringNoLeadingZero(n: nat)
    ensures NatToString(n)[0] == '0' ==> n == 0
  {
    if n >= 10 {
      assert NatToString(n)[0] == NatToString(n / 10)[0];
      NatToStringNoLeadingZero(n / 10);
    }
  }

  /**
   * A rendered integer is canonical: after the optional sign come only
   * digits, the first digit is '0' only for zero, and zero is the single
   * digit "0".
   */
  lemma IntToStringCanonical(v: int)
    ensures forall i :: 1 <= i < |IntToString(v)| ==> IsDigit(IntToString(v)[i])
    ensures v >= 0 ==> IsDigit(IntToString(v)[0]) && (IntToString(v)[0] == '0' ==> v == 0)
    ensures v < 0 ==> |IntToString(v)| >= 2 && IntToString(v)[1] != '0'
    ensures v == 0 ==> IntToString(v) == "0"
  {
    if v < 0 {
      NatToStringNoLeadingZero(-v);
      assert IntToString(v)[1..] == NatToString(-v);
    } else {
      NatToStringNoLeadingZero(v);
    }
  }

  /** The digits of a rendered integer spell its magnitude. */
  lemma IntToStringSpells(v: int)
    ensures v >= 0 ==> ParseNat(IntToString(v)) == v
    ensures v < 0 ==> ParseNat(IntToString(v)[1..]) == -v
  {
    if v < 0 {
      var s := NatToString(-v);
      assert IntToString(v) == "-" + s;
      assert ("-" + s)[1..] == s;
      ParseNatToString(-v);
    } else {
      assert IntToString(v) == NatToString(v);
      ParseNatToString(v);
    }
  }
}
