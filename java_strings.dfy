/** The parts of java.lang.String and of Apache Commons StringUtils that the
    actions rely on: null-able strings, ASCII case folding, blank and empty
    checks, substring search and the decimal rendering of an int
    (String.valueOf), together with a parser that inverts that rendering. */
module JavaStrings {

  /** A Java reference that may be null. */
  datatype Option<+T> = None | Some(value: T)

  // ----- Case folding (ASCII only) -----

  predicate IsUpperAscii(c: char) { 'A' <= c <= 'Z' }

  predicate IsLowerAscii(c: char) { 'a' <= c <= 'z' }

  function LowerChar(c: char): (d: char)
    ensures !IsUpperAscii(d)
    ensures IsUpperAscii(c) ==> IsLowerAscii(d)
    ensures !IsUpperAscii(c) ==> d == c
  {
    if IsUpperAscii(c) then (c as int + 32) as char else c
  }

  function UpperChar(c: char): (d: char)
    ensures !IsLowerAscii(d)
    ensures IsLowerAscii(c) ==> IsUpperAscii(d)
    ensures !IsLowerAscii(c) ==> d == c
  {
    if IsLowerAscii(c) then (c as int - 32) as char else c
  }

  /** String.toLowerCase restricted to ASCII letters: no upper-case letter
      is left, and every character that is not one is kept. */
  function ToLower(s: string): (r: string)
    ensures |r| == |s|
    ensures forall i :: 0 <= i < |s| ==> r[i] == LowerChar(s[i])
    ensures forall i :: 0 <= i < |r| ==> !IsUpperAscii(r[i])
    ensures forall i :: 0 <= i < |s| && !IsUpperAscii(s[i]) ==> r[i] == s[i]
  {
    seq(|s|, i requires 0 <= i < |s| => LowerChar(s[i]))
  }

  /** String.toUpperCase restricted to ASCII letters: no lower-case letter
      is left, and every character that is not one is kept. */
  function ToUpper(s: string): (r: string)
    ensures |r| == |s|
    ensures forall i :: 0 <= i < |s| ==> r[i] == UpperChar(s[i])
    ensures forall i :: 0 <= i < |r| ==> !IsLowerAscii(r[i])
    ensures forall i :: 0 <= i < |s| && !IsLowerAscii(s[i]) ==> r[i] == s[i]
  {
    seq(|s|, i requires 0 <= i < |s| => UpperChar(s[i]))
  }

  /** String.equalsIgnoreCase: same length, and at every position the two
      characters are equal, or equal once upper-cased, or equal once
      lower-cased. Every string equals itself ignoring case, and strings
      of different lengths never do; `EqualsIgnoreCaseIff` characterises it
      fully. */
  predicate EqualsIgnoreCase(a: string, b: string): (r: bool)
    ensures a == b ==> r
    ensures |a| != |b| ==> !r
  {
    |a| == |b| &&
    forall i :: 0 <= i < |a| ==>
      a[i] == b[i] || UpperChar(a[i]) == UpperChar(b[i]) || LowerChar(a[i]) == LowerChar(b[i])
  }

  /** For ASCII folding, the two characters agree upper-cased exactly when
      they agree lower-cased. */
  lemma FoldCharAgree(x: char, y: char)
    ensures UpperChar(x) == UpperChar(y) <==> LowerChar(x) == LowerChar(y)
  {
  }

  /** equalsIgnoreCase is the same relation as "equal after toLowerCase" and
      as "equal after toUpperCase". */
  lemma EqualsIgnoreCaseIff(a: string, b: string)
    ensures EqualsIgnoreCase(a, b) <==> ToLower(a) == ToLower(b)
    ensures EqualsIgnoreCase(a, b) <==> ToUpper(a) == ToUpper(b)
  {
    if EqualsIgnoreCase(a, b) {
      forall i | 0 <= i < |a| ensures ToLower(a)[i] == ToLower(b)[i] && ToUpper(a)[i] == ToUpper(b)[i] {
        FoldCharAgree(a[i], b[i]);
      }
    }
    if ToLower(a) == ToLower(b) {
      forall i | 0 <= i < |a| ensures LowerChar(a[i]) == LowerChar(b[i]) {
        assert ToLower(a)[i] == ToLower(b)[i];
      }
    }
    if ToUpper(a) == ToUpper(b) {
      forall i | 0 <= i < |a| ensures UpperChar(a[i]) == UpperChar(b[i]) {
        assert ToUpper(a)[i] == ToUpper(b)[i];
      }
    }
  }

  /** Lower-casing is idempotent and forgets a prior upper-casing. */
  lemma ToLowerIdempotent(s: string)
    ensures ToLower(ToLower(s)) == ToLower(s)
    ensures ToLower(ToUpper(s)) == ToLower(s)
  {
    assert forall i :: 0 <= i < |s| ==> ToLower(ToLower(s))[i] == ToLower(s)[i];
    forall i | 0 <= i < |s| ensures ToLower(ToUpper(s))[i] == ToLower(s)[i] {
      FoldCharAgree(UpperChar(s[i]), s[i]);
    }
  }

  /** Upper-casing is idempotent and forgets a prior lower-casing. */
  lemma ToUpperIdempotent(s: string)
    ensures ToUpper(ToUpper(s)) == ToUpper(s)
    ensures ToUpper(ToLower(s)) == ToUpper(s)
  {
    assert forall i :: 0 <= i < |s| ==> ToUpper(ToUpper(s))[i] == ToUpper(s)[i];
    forall i | 0 <= i < |s| ensures ToUpper(ToLower(s))[i] == ToUpper(s)[i] {
      FoldCharAgree(LowerChar(s[i]), s[i]);
    }
  }

  // ----- Blank and empty (StringUtils.isBlank / isEmpty) -----

  /** Character.isWhitespace: the space separators other than the
      non-breaking ones (U+00A0, U+2007, U+202F), the line and paragraph
      separators U+2028 and U+2029, and the controls tab, line feed,
      vertical tab, form feed, carriage return and the four information
      separators U+001C..U+001F. U+180E is left out (see README). A
      whitespace character is no letter or digit, and case folding keeps it. */
  predicate IsWhitespace(c: char): (r: bool)
    ensures r ==> !IsUpperAscii(c) && !IsLowerAscii(c) && !IsDigit(c)
    ensures r ==> LowerChar(c) == c && UpperChar(c) == c
  {
    var n := c as int;
    n == 0x20 || 0x09 <= n <= 0x0D || 0x1C <= n <= 0x1F ||
    n == 0x1680 || 0x2000 <= n <= 0x2006 || 0x2008 <= n <= 0x200A ||
    n == 0x2028 || n == 0x2029 || n == 0x205F || n == 0x3000
  }

  /** StringUtils.isBlank: null, empty, or whitespace only. A blank string
      holds no ASCII letter or digit. */
  predicate IsBlank(s: Option<string>): (b: bool)
    ensures b && s.Some? ==>
      forall i :: 0 <= i < |s.value| ==>
        !IsUpperAscii(s.value[i]) && !IsLowerAscii(s.value[i]) && !IsDigit(s.value[i])
  {
    s.None? || forall i :: 0 <= i < |s.value| ==> IsWhitespace(s.value[i])
  }

  /** StringUtils.isEmpty: null or empty; whitespace is not empty. Every
      empty string is blank, and any string with a character is not empty. */
  predicate IsEmpty(s: Option<string>): (b: bool)
    ensures b ==> IsBlank(s)
    ensures s.Some? && |s.value| > 0 ==> !b
  {
    s.None? || s.value == ""
  }

  /** Case folding never turns a non-blank string into a blank one. */
  lemma BlankUnderFolding(s: string)
    ensures IsBlank(Some(ToLower(s))) <==> IsBlank(Some(s))
    ensures IsBlank(Some(ToUpper(s))) <==> IsBlank(Some(s))
  {
    if !IsBlank(Some(s)) {
      var i :| 0 <= i < |s| && !IsWhitespace(s[i]);
      assert !IsWhitespace(ToLower(s)[i]);
      assert !IsWhitespace(ToUpper(s)[i]);
    }
  }

  // ----- Substring search (String.contains) -----

  /** t occurs in s starting at position i. */
  predicate OccursAt(s: string, t: string, i: int)
  {
    0 <= i && i + |t| <= |s| && s[i..i + |t|] == t
  }

  /** String.contains: a left-to-right scan for t. The empty string is in
      every string, and a longer string is in none; `ContainsIff`
      characterises it fully. */
  predicate Contains(s: string, t: string): (r: bool)
    ensures t == [] ==> r
    ensures |s| < |t| ==> !r
    decreases |s|
  {
    |t| <= |s| && (s[..|t|] == t || (|s| > 0 && Contains(s[1..], t)))
  }

  /** The scan finds t exactly when t occurs somewhere in s. */
  lemma {:induction false} ContainsIff(s: string, t: string)
    ensures Contains(s, t) <==> exists i :: OccursAt(s, t, i)
    decreases |s|
  {
    if |t| <= |s| {
      if s[..|t|] == t {
        assert OccursAt(s, t, 0);
      } else if |s| > 0 {
        ContainsIff(s[1..], t);
        if Contains(s[1..], t) {
          var j :| OccursAt(s[1..], t, j);
          assert s[1..][j..j + |t|] == s[j + 1..j + 1 + |t|];
          assert OccursAt(s, t, j + 1);
        }
        if exists i :: OccursAt(s, t, i) {
          var i :| OccursAt(s, t, i);
          assert i != 0;
          assert s[1..][i - 1..i - 1 + |t|] == s[i..i + |t|];
          assert OccursAt(s[1..], t, i - 1);
        }
      }
    }
  }

  // ----- Decimal rendering of an int (String.valueOf(int)) -----

  predicate IsDigit(c: char) { '0' <= c <= '9' }

  function DigitChar(d: nat): (c: char)
    requires d < 10
    ensures IsDigit(c) && c as int - '0' as int == d
  {
    ('0' as int + d) as char
  }

  /** The shortest decimal numeral of n: no sign, no leading zero. */
  function NatToDecimal(n: nat): (r: string)
    decreases n
  {
    if n < 10 then [DigitChar(n)] else NatToDecimal(n / 10) + [DigitChar(n % 10)]
  }

  /** String.valueOf(int): a minus sign for negative values, then the numeral
      of the magnitude. */
  function IntToDecimal(n: int): (r: string)
    ensures |r| > 0
    ensures r[0] == '-' <==> n < 0
    ensures n < 0 ==> AllDigits(r[1..])
    ensures n >= 0 ==> AllDigits(r)
  {
    if n < 0 then
      NatToDecimalValue(-n);
      var r := "-" + NatToDecimal(-n);
      assert r[1..] == NatToDecimal(-n);
      r
    else
      NatToDecimalValue(n);
      NatToDecimal(n)
  }

  predicate AllDigits(s: string)
  {
    forall i :: 0 <= i < |s| ==> IsDigit(s[i])
  }

  /** The value of a string of decimal digits. */
  function DigitsValue(s: string): nat
    requires AllDigits(s)
  {
    if s == [] then 0
    else DigitsValue(s[..|s| - 1]) * 10 + (s[|s| - 1] as int - '0' as int)
  }

  /** Integer.parseInt on the decimal forms String.valueOf produces: an
      optional minus sign followed by at least one digit. */
  function ParseDecimal(s: string): Option<int>
  {
    if |s| > 1 && s[0] == '-' && AllDigits(s[1..]) then Some(-(DigitsValue(s[1..]) as int))
    else if |s| > 0 && AllDigits(s) then Some(DigitsValue(s))
    else None
  }

  /** The numeral of n is a non-empty digit string whose value is n. */
  lemma {:induction false} NatToDecimalValue(n: nat)
    ensures |NatToDecimal(n)| > 0 && AllDigits(NatToDecimal(n))
    ensures DigitsValue(NatToDecimal(n)) == n
    decreases n
  {
    if n >= 10 {
      NatToDecimalValue(n / 10);
      var r := NatToDecimal(n);
      assert r[..|r| - 1] == NatToDecimal(n / 10);
    }
  }

  /** Parsing undoes String.valueOf: the rendered count can be read back. */
  lemma IntToDecimalRoundTrip(n: int)
    ensures ParseDecimal(IntToDecimal(n)) == Some(n)
  {
    if n < 0 {
      NatToDecimalValue(-n);
      var r := IntToDecimal(n);
      assert r[1..] == NatToDecimal(-n);
    } else {
      NatToDecimalValue(n);
      assert IntToDecimal(n)[0] != '-';
    }
  }

  /** A numeral without sign or leading zero: "0", or digits starting with
      a non-zero digit. */
  predicate IsCanonicalNumeral(s: string)
  {
    |s| > 0 && AllDigits(s) && (s[0] != '0' || |s| == 1)
  }

  /** The form String.valueOf(int) writes: a canonical numeral, with a
      minus sign in front only when the value is not zero. */
  predicate IsCanonicalDecimal(s: string)
  {
    IsCanonicalNumeral(s) ||
    (|s| > 1 && s[0] == '-' && IsCanonicalNumeral(s[1..]) && s[1..] != "0")
  }

  /** The numeral of n has no leading zero. */
  lemma {:induction false} NatToDecimalCanonical(n: nat)
    ensures IsCanonicalNumeral(NatToDecimal(n))
    ensures NatToDecimal(n)[0] != '0' || n == 0
    decreases n
  {
    NatToDecimalValue(n);
    if n >= 10 {
      NatToDecimalCanonical(n / 10);
      assert NatToDecimal(n)[0] == NatToDecimal(n / 10)[0];
    }
  }

  /** String.valueOf writes the canonical form, with a minus sign exactly
      for negative values. */
  lemma IntToDecimalCanonical(n: int)
    ensures IsCanonicalDecimal(IntToDecimal(n))
    ensures IntToDecimal(n)[0] == '-' <==> n < 0
  {
    if n < 0 {
      NatToDecimalCanonical(-n);
      assert IntToDecimal(n)[1..] == NatToDecimal(-n);
    } else {
      NatToDecimalCanonical(n);
    }
  }

  /** A numeral that starts with a non-zero digit has a positive value. */
  lemma {:induction false} LeadingDigitPositive(s: string)
    requires IsCanonicalNumeral(s) && s[0] != '0'
    ensures DigitsValue(s) >= 1
    decreases |s|
  {
    if |s| > 1 {
      var p := s[..|s| - 1];
      assert p[0] == s[0];
      LeadingDigitPositive(p);
    }
  }

  /** A canonical numeral is the rendering of its own value. */
  lemma {:induction false} CanonicalNumeralUnique(s: string)
    requires IsCanonicalNumeral(s)
    ensures NatToDecimal(DigitsValue(s)) == s
    decreases |s|
  {
    var v := DigitsValue(s);
    if |s| == 1 {
      assert s[..0] == [];
      assert DigitsValue(s) == DigitsValue(s[..0]) * 10 + (s[0] as int - '0' as int);
      assert IsDigit(s[0]);
      assert s == [DigitChar(v)];
    } else {
      var p := s[..|s| - 1];
      var d := s[|s| - 1] as int - '0' as int;
      assert p[0] == s[0];
      CanonicalNumeralUnique(p);
      LeadingDigitPositive(p);
      assert v == DigitsValue(p) * 10 + d;
      assert v / 10 == DigitsValue(p) && v % 10 == d;
      assert s == p + [DigitChar(d)];
    }
  }

  /** A canonical decimal is the String.valueOf rendering of the value it
      parses to: together with the round trip, the canonical form and the
      value pin down the text. */
  lemma CanonicalDecimalUnique(s: string, n: int)
    requires IsCanonicalDecimal(s) && ParseDecimal(s) == Some(n)
    ensures s == IntToDecimal(n)
  {
    if IsCanonicalNumeral(s) {
      CanonicalNumeralUnique(s);
    } else {
      var m := s[1..];
      CanonicalNumeralUnique(m);
      assert m[0] != '0';
      LeadingDigitPositive(m);
      assert s == "-" + m;
    }
  }

  /** Different ints render to different strings. */
  lemma IntToDecimalInjective(m: int, n: int)
    requires IntToDecimal(m) == IntToDecimal(n)
    ensures m == n
  {
    IntToDecimalRoundTrip(m);
    IntToDecimalRoundTrip(n);
  }
}
