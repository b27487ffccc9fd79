/**
 * Decimal numerals as the resource handler uses them: Ruby's `String#to_i`
 * (how an id path segment becomes an integer) and `Integer#to_s` (how a
 * Serial id is written into the `Location` header).
 */
module Numerals {

  predicate IsDigit(c: char) {
    '0' <= c <= '9'
  }

  predicate AllDigits(s: string) {
    forall i :: 0 <= i < |s| ==> IsDigit(s[i])
  }

  function DigitValue(c: char): (d: nat)
    requires IsDigit(c)
    ensures d < 10
  {
    c as int - '0' as int
  }

  function DigitChar(d: nat): (c: char)
    requires d < 10
    ensures IsDigit(c) && DigitValue(c) == d
  {
    (d + '0' as int) as char
  }

  /** The value of a string of decimal digits, most significant digit first. */
  function DecimalValue(s: string): nat
    requires AllDigits(s)
    decreases |s|
  {
    if s == [] then 0 else DecimalValue(s[..|s| - 1]) * 10 + DigitValue(s[|s| - 1])
  }

  /** `Integer#to_s` on a non-negative integer: its digits, no leading zero. */
  function NatToDecimal(n: nat): (s: string)
    ensures s != [] && AllDigits(s)
    ensures s[0] == '0' ==> n == 0 && s == "0"
    decreases n
  {
    if n < 10 then [DigitChar(n)] else NatToDecimal(n / 10) + [DigitChar(n % 10)]
  }

  /** Reading back what `NatToDecimal` wrote gives the number again. */
  lemma {:induction false} DecimalOfNatToDecimal(n: nat)
    ensures DecimalValue(NatToDecimal(n)) == n
    decreases n
  {
    if n >= 10 {
      var s := NatToDecimal(n);
      assert s[..|s| - 1] == NatToDecimal(n / 10);
      DecimalOfNatToDecimal(n / 10);
    }
  }

  /** A canonical numeral (no leading zero) is what `NatToDecimal` writes for its value. */
  lemma {:induction false} NatToDecimalOfDecimal(s: string)
    requires s != [] && AllDigits(s)
    requires s[0] == '0' ==> s == "0"
    ensures NatToDecimal(DecimalValue(s)) == s
    decreases |s|
  {
    var n := DecimalValue(s);
    var init := s[..|s| - 1];
    if init == [] {
      assert s == [s[0]];
    } else {
      assert init[0] == s[0];
      NatToDecimalOfDecimal(init);
      if DecimalValue(init) == 0 {
        // `init` would be "0", a leading zero of `s`
        assert false;
      }
      assert n / 10 == DecimalValue(init) && n % 10 == DigitValue(s[|s| - 1]);
      assert s == init + [s[|s| - 1]];
    }
  }

  /** The white space `String#to_i` skips: space, \t, \n, \v, \f, \r. */
  predicate IsSpace(c: char) {
    c == ' ' || 9 <= c as int <= 13
  }

  function SkipSpace(s: string): (t: string)
    ensures |t| <= |s| && t == s[|s| - |t|..]
    ensures t == [] || !IsSpace(t[0])
    decreases |s|
  {
    if s != [] && IsSpace(s[0]) then SkipSpace(s[1..]) else s
  }

  /**
   * The digits of the longest prefix of `s` of the form `\d+(_\d+)*`, with the
   * underscores dropped: `String#to_i` accepts one underscore between two
   * digits and stops at anything else.
   */
  function LeadingDigits(s: string): (d: string)
    ensures AllDigits(d)
    ensures |d| <= |s|
    ensures d == [] <==> (s == [] || !IsDigit(s[0]))
    decreases |s|
  {
    if s == [] || !IsDigit(s[0]) then []
    else if |s| >= 3 && s[1] == '_' && IsDigit(s[2]) then [s[0]] + LeadingDigits(s[2..])
    else [s[0]] + LeadingDigits(s[1..])
  }

  /** Ruby's `String#to_i` (base 10): leading white space, an optional sign, then digits; 0 when there are none. */
  function ToI(s: string): int {
    var t := SkipSpace(s);
    if t != [] && t[0] == '-' then -(DecimalValue(LeadingDigits(t[1..])) as int)
    else if t != [] && t[0] == '+' then DecimalValue(LeadingDigits(t[1..]))
    else DecimalValue(LeadingDigits(t))
  }

  lemma {:induction false} LeadingDigitsOfDigitsThen(d: string, rest: string)
    requires AllDigits(d)
    requires rest == [] || (!IsDigit(rest[0]) && rest[0] != '_')
    ensures LeadingDigits(d + rest) == d
    decreases |d|
  {
    if d != [] {
      assert (d + rest)[1..] == d[1..] + rest;
      if |d| == 1 {
        assert d[1..] + rest == rest;
      } else {
        assert (d + rest)[1] == d[1];
      }
      LeadingDigitsOfDigitsThen(d[1..], rest);
      assert d == [d[0]] + d[1..];
    }
  }

  /**
   * `to_i` reads a leading run of digits and ignores what follows it, so
   * "12abc" reads as 12 and "7" as 7.
   */
  lemma ToIOfDigitsThen(d: string, rest: string)
    requires d != [] && AllDigits(d)
    requires rest == [] || (!IsDigit(rest[0]) && rest[0] != '_')
    ensures ToI(d + rest) == DecimalValue(d)
  {
    assert SkipSpace(d + rest) == d + rest;
    LeadingDigitsOfDigitsThen(d, rest);
  }

  // The two steps of `LeadingDigits` over a digit, as lemmas: the inductive
  // proofs below then need only these instances, which keeps solver time stable.

  /** One step of `LeadingDigits` past a digit that no underscore follows. */
  lemma LeadingDigitsStep(s: string)
    requires s != [] && IsDigit(s[0])
    requires |s| < 2 || s[1] != '_'
    ensures LeadingDigits(s) == [s[0]] + LeadingDigits(s[1..])
  {
  }

  /** One step of `LeadingDigits` past a digit, an underscore and a digit. */
  lemma LeadingDigitsSkip(s: string)
    requires |s| >= 3 && IsDigit(s[0]) && s[1] == '_' && IsDigit(s[2])
    ensures LeadingDigits(s) == [s[0]] + LeadingDigits(s[2..])
  {
  }

  /** Digits followed by more digits stay in one run. */
  lemma {:induction false} LeadingDigitsAppend(a: string, x: string)
    requires AllDigits(a)
    requires x == [] || IsDigit(x[0])
    ensures LeadingDigits(a + x) == a + LeadingDigits(x)
    decreases |a|
  {
    if a == [] {
      assert a + x == x;
    } else {
      var s := a + x;
      assert s[0] == a[0] && s[1..] == a[1..] + x;
      assert |s| >= 2 ==> IsDigit(s[1]);
      LeadingDigitsStep(s);
      LeadingDigitsAppend(a[1..], x);
      assert [a[0]] + (a[1..] + LeadingDigits(x)) == a + LeadingDigits(x);
    }
  }

  /** One underscore between two digits is skipped: "1_000" has the digits "1000". */
  lemma {:induction false} LeadingDigitsUnderscore(a: string, y: string)
    requires a != [] && AllDigits(a)
    requires y != [] && IsDigit(y[0])
    ensures LeadingDigits(a + "_" + y) == a + LeadingDigits(y)
    decreases |a|
  {
    var s := a + "_" + y;
    if |a| == 1 {
      assert s[0] == a[0] && s[1] == '_' && s[2..] == y;
      LeadingDigitsSkip(s);
      assert a == [a[0]];
    } else {
      assert s[0] == a[0] && s[1] == a[1] && s[1..] == a[1..] + "_" + y;
      LeadingDigitsStep(s);
      LeadingDigitsUnderscore(a[1..], y);
      assert a == [a[0]] + a[1..];
    }
  }

  /** Leading white space is skipped up to the first other character. */
  lemma {:induction false} SkipSpaceOf(w: string, t: string)
    requires forall k :: 0 <= k < |w| ==> IsSpace(w[k])
    requires t == [] || !IsSpace(t[0])
    ensures SkipSpace(w + t) == t
    decreases |w|
  {
    if w != [] {
      assert (w + t)[1..] == w[1..] + t;
      SkipSpaceOf(w[1..], t);
    }
  }

  /** White space in front of a string does not change what `to_i` reads. */
  lemma ToIAfterSpace(w: string, t: string)
    requires forall k :: 0 <= k < |w| ==> IsSpace(w[k])
    requires t == [] || !IsSpace(t[0])
    ensures ToI(w + t) == ToI(t)
  {
    SkipSpaceOf(w, t);
    assert SkipSpace(t) == t;
  }

  /** How `to_i` reads a string that starts with no white space. */
  lemma ToIUnfold(t: string)
    requires t == [] || !IsSpace(t[0])
    ensures t != [] && t[0] == '-' ==> ToI(t) == -(DecimalValue(LeadingDigits(t[1..])) as int)
    ensures t != [] && t[0] == '+' ==> ToI(t) == DecimalValue(LeadingDigits(t[1..]))
    ensures t == [] || (t[0] != '-' && t[0] != '+') ==> ToI(t) == DecimalValue(LeadingDigits(t))
  {
  }

  /** After a sign (or none), `to_i` reads the leading digits of what follows. */
  lemma ToIOfSigned(sign: string, u: string)
    requires sign == "" || sign == "+" || sign == "-"
    requires u != [] && IsDigit(u[0])
    ensures ToI(sign + u) == if sign == "-" then -(DecimalValue(LeadingDigits(u)) as int) else DecimalValue(LeadingDigits(u))
  {
    // The case split keeps solver time stable across seeds.
    var t := sign + u;
    if sign == "" {
      assert t == u;
      ToIUnfold(u);
    } else {
      assert t[0] == sign[0] && t[1..] == u;
      ToIUnfold(t);
    }
  }

  /** `to_i` of a sign (or none) and digits that are followed by neither a digit nor '_'. */
  lemma ToIOfSignedDigits(sign: string, d: string, rest: string)
    requires sign == "" || sign == "+" || sign == "-"
    requires d != [] && AllDigits(d)
    requires rest == [] || (!IsDigit(rest[0]) && rest[0] != '_')
    ensures ToI(sign + d + rest) == if sign == "-" then -(DecimalValue(d) as int) else DecimalValue(d)
  {
    var u := d + rest;
    assert sign + d + rest == sign + u;
    assert u[0] == d[0];
    LeadingDigitsOfDigitsThen(d, rest);
    ToIOfSigned(sign, u);
  }

  /**
   * `to_i` of a numeral: white space, then no sign, '+' or '-', then digits
   * that are followed by neither a digit nor '_'. So " 12" reads as 12 and
   * "-12" as -12.
   */
  lemma ToIOfNumeral(w: string, sign: string, d: string, rest: string)
    requires forall k :: 0 <= k < |w| ==> IsSpace(w[k])
    requires sign == "" || sign == "+" || sign == "-"
    requires d != [] && AllDigits(d)
    requires rest == [] || (!IsDigit(rest[0]) && rest[0] != '_')
    ensures ToI(w + sign + d + rest) == if sign == "-" then -(DecimalValue(d) as int) else DecimalValue(d)
  {
    var t := sign + d + rest;
    assert w + sign + d + rest == w + t;
    assert t[0] == if sign == "" then d[0] else sign[0];
    ToIAfterSpace(w, t);
    ToIOfSignedDigits(sign, d, rest);
  }

  /**
   * A single underscore between two digits does not change what `to_i`
   * reads, wherever it stands in the numeral: "1_000" reads as "1000".
   */
  lemma ToIIgnoresUnderscore(w: string, sign: string, a: string, y: string)
    requires forall k :: 0 <= k < |w| ==> IsSpace(w[k])
    requires sign == "" || sign == "+" || sign == "-"
    requires a != [] && AllDigits(a)
    requires y != [] && IsDigit(y[0])
    ensures ToI(w + sign + a + "_" + y) == ToI(w + sign + a + y)
  {
    var u1, u2 := a + "_" + y, a + y;
    var t1, t2 := sign + u1, sign + u2;
    assert w + sign + a + "_" + y == w + t1;
    assert w + sign + a + y == w + t2;
    assert t1[0] == if sign == "" then a[0] else sign[0];
    assert t2[0] == if sign == "" then a[0] else sign[0];
    ToIAfterSpace(w, t1);
    ToIAfterSpace(w, t2);
    LeadingDigitsUnderscore(a, y);
    LeadingDigitsAppend(a, y);
    assert u1[0] == a[0] && u2[0] == a[0];
    ToIOfSigned(sign, u1);
    ToIOfSigned(sign, u2);
  }

  /** The decimal values the worked readings below need. */
  lemma DecimalExamples()
    ensures DecimalValue("12") == 12
    ensures DecimalValue("1000") == 1000
  {
    assert "12"[..1] == "1" && "1"[..0] == [];
    assert "1000"[..3] == "100" && "100"[..2] == "10" && "10"[..1] == "1";
  }

  /** Leading white space is skipped: " 12" reads as 12. */
  lemma ToIOfSpacedNumeral()
    ensures ToI(" 12") == 12
  {
    var spaced := " 12";
    assert " " + "" + "12" + "" == spaced;
    ToIOfNumeral(" ", "", "12", "");
    DecimalExamples();
  }

  /** A leading '-' negates: "-12" reads as -12. */
  lemma ToIOfNegativeNumeral()
    ensures ToI("-12") == -12
  {
    var negative := "-12";
    assert "" + "-" + "12" + "" == negative;
    ToIOfNumeral("", "-", "12", "");
    DecimalExamples();
  }

  /** "1000" reads as 1000. */
  lemma ToIOfThousand()
    ensures ToI("1000") == 1000
  {
    ToIOfDigits("1000");
    DecimalExamples();
  }

  /** One underscore between digits is skipped: "1_000" reads as 1000. */
  lemma ToIOfGroupedNumeral()
    ensures ToI("1_000") == 1000
  {
    var grouped, plain := "1_000", "1000";
    assert "" + "" + "1" + "_" + "000" == grouped;
    assert "" + "" + "1" + "000" == plain;
    ToIIgnoresUnderscore("", "", "1", "000");
    ToIOfThousand();
  }

  /** A second underscore ends the numeral: "1__2" reads as 1. */
  lemma ToIStopsAtDoubleUnderscore()
    ensures ToI("1__2") == 1
  {
    // Naming the run's end keeps solver time stable across seeds.
    var s := "1__2";
    assert LeadingDigits(s[1..]) == [];
    ToIUnfold(s);
  }

  /** A string of digits reads as its decimal value. */
  lemma ToIOfDigits(d: string)
    requires d != [] && AllDigits(d)
    ensures ToI(d) == DecimalValue(d)
  {
    ToIOfDigitsThen(d, []);
    assert d + [] == d;
  }

  /**
   * `to_i` is non-zero only when a digit follows the leading white space,
   * directly or after one sign, and negative only after a '-'.
   */
  lemma ToINeedsDigits(s: string)
    ensures var t := SkipSpace(s);
      ToI(s) != 0 ==> t != [] && (IsDigit(t[0]) || (|t| > 1 && (t[0] == '-' || t[0] == '+') && IsDigit(t[1])))
    ensures ToI(s) < 0 ==> SkipSpace(s)[0] == '-'
  {
  }

  /** Without a digit (after white space and a sign) `to_i` gives 0, e.g. for "abc". */
  lemma ToIWithoutDigits(s: string)
    requires var t := SkipSpace(s);
      t == [] || (t[0] != '-' && t[0] != '+' && !IsDigit(t[0]))
    ensures ToI(s) == 0
  {
  }
}
