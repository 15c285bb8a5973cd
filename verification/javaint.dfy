/** Java's 32-bit int as the vault command sees it: Integer.parseInt(s)
    (radix 10) and String.valueOf(int). */
module JavaInt {
  import opened Options

  const MinInt: int := -0x8000_0000
  const MaxInt: int := 0x7fff_ffff

  predicate InInt32Range(n: int) {
    MinInt <= n <= MaxInt
  }

  /** ASCII decimal digit (Character.digit also accepts other Unicode digits;
      the model does not). */
  predicate IsDigit(c: char) {
    '0' <= c <= '9'
  }

  predicate AllDigits(s: string) {
    forall i :: 0 <= i < |s| ==> IsDigit(s[i])
  }

  function DigitValue(c: char): (d: nat)
    requires IsDigit(c)
    ensures d < 10
  {
    c as int - '0' as int
  }

  function DigitChar(d: nat): (c: char)
    requires d < 10
    ensures IsDigit(c) && DigitValue(c) == d
  {
    ('0' as int + d) as char
  }

  /** Value of a run of decimal digits, most significant first. */
  function DigitsValue(ds: string): nat
    requires AllDigits(ds)
    decreases |ds|
  {
    if |ds| == 0 then 0 else DigitsValue(ds[..|ds| - 1]) * 10 + DigitValue(ds[|ds| - 1])
  }

  /** Java's integer division, which truncates toward zero (Dafny's is Euclidean). */
  function TruncDiv(a: int, b: int): (q: int)
    requires b > 0
    ensures a >= 0 ==> q * b <= a < q * b + b
    ensures a < 0 ==> q * b - b < a <= q * b
  {
    if a >= 0 then a / b else -((-a) / b)
  }

  /** Where the digits start: after one optional leading sign. */
  function SignLength(s: string): (k: nat)
    ensures k <= |s|
  {
    if |s| > 0 && (s[0] == '-' || s[0] == '+') then 1 else 0
  }

  /** Integer.parseInt(s), stated declaratively: one optional '+' or '-', then
      at least one digit and nothing else, and a value that fits in an int.
      None stands for NumberFormatException. */
  function ParseInt(s: string): (r: Option<int>)
    ensures r.Some? ==> InInt32Range(r.value)
    ensures r.Some? ==> |s| > 0 && IsDigit(s[|s| - 1])
    ensures r.Some? && r.value < 0 ==> s[0] == '-'
  {
    var digits := s[SignLength(s)..];
    if |digits| == 0 || !AllDigits(digits) then None
    else
      var v: int := if s[0] == '-' then -(DigitsValue(digits) as int) else DigitsValue(digits);
      if InInt32Range(v) then Some(v) else None
  }

  /** A longer run of digits is worth at least as much as any of its prefixes. */
  lemma {:induction false} DigitsValuePrefix(ds: string, k: nat)
    requires AllDigits(ds)
    requires k <= |ds|
    ensures DigitsValue(ds[..k]) <= DigitsValue(ds)
    decreases |ds| - k
  {
    if k < |ds| {
      DigitsValuePrefix(ds, k + 1);
      assert ds[..k + 1][..k] == ds[..k];
    } else {
      assert ds[..k] == ds;
    }
  }

  /** Integer.parseInt as the Java library computes it: accumulate negatively,
      guarding against overflow with `multmin` before each multiplication and
      against `limit` before each subtraction.  Every intermediate value
      stays inside the int range, so unbounded arithmetic computes what Java does. */
  method ParseIntAccumulating(s: string) returns (r: Option<int>)
    ensures r == ParseInt(s)
  {
    if |s| == 0 {
      return None;
    }
    var negative := false;
    var i := 0;
    var limit := -MaxInt;
    var first := s[0];
    if first < '0' {
      if first == '-' {
        negative := true;
        limit := MinInt;
      } else if first != '+' {
        NonDigitRejected(s, 0);
        return None;
      }
      if |s| == 1 {
        return None;
      }
      i := 1;
    }
    var start := i;
    assert start == SignLength(s);
    var multmin := TruncDiv(limit, 10);
    assert multmin == -214748364;
    var result: int := 0;
    while i < |s|
      invariant start <= i <= |s|
      invariant AllDigits(s[start..i])
      invariant result == -(DigitsValue(s[start..i]) as int)
      invariant limit <= result <= 0
    {
      var c := s[i];
      if !IsDigit(c) {
        NonDigitRejected(s, i);
        return None;
      }
      var digit := DigitValue(c);
      DigitsValueStep(s, start, i);
      if result < multmin {
        OverflowRejected(s, start, i + 1);
        return None;
      }
      result := result * 10;
      assert InInt32Range(result) && InInt32Range(limit + digit);
      if result < limit + digit {
        OverflowRejected(s, start, i + 1);
        return None;
      }
      result := result - digit;
      i := i + 1;
    }
    assert s[start..i] == s[SignLength(s)..];
    r := Some(if negative then result else -result);
  }

  /** Appending one digit to a run multiplies its value by ten and adds the digit. */
  lemma DigitsValueStep(s: string, start: nat, i: nat)
    requires start <= i < |s|
    requires AllDigits(s[start..i]) && IsDigit(s[i])
    ensures AllDigits(s[start..i + 1])
    ensures DigitsValue(s[start..i + 1]) == DigitsValue(s[start..i]) * 10 + DigitValue(s[i])
  {
    assert s[start..i + 1][..i - start] == s[start..i];
  }

  /** A character other than a digit after the optional sign is rejected. */
  lemma NonDigitRejected(s: string, i: nat)
    requires SignLength(s) <= i < |s|
    requires !IsDigit(s[i])
    ensures ParseInt(s) == None
  {
    assert s[SignLength(s)..][i - SignLength(s)] == s[i];
  }

  /** Once a prefix of the digits is worth more than the int range allows for
      the sign in front, the whole string is rejected. */
  lemma OverflowRejected(s: string, start: nat, k: nat)
    requires start == SignLength(s)
    requires start < k <= |s|
    requires AllDigits(s[start..k])
    requires DigitsValue(s[start..k]) > (if s[0] == '-' then -MinInt else MaxInt)
    ensures ParseInt(s) == None
  {
    var digits := s[start..];
    if AllDigits(digits) {
      assert digits[..k - start] == s[start..k];
      DigitsValuePrefix(digits, k - start);
    }
  }

  /** Decimal digits of a natural number, most significant first, with no
      leading zero. */
  function NatToDecimal(n: nat): (s: string)
    ensures |s| > 0 && AllDigits(s)
    ensures s[0] == '0' ==> n == 0 && |s| == 1
    ensures DigitsValue(s) == n
    decreases n
  {
    if n < 10 then [DigitChar(n)]
    else
      var prefix := NatToDecimal(n / 10);
      var s := prefix + [DigitChar(n % 10)];
      assert s[..|s| - 1] == prefix;
      s
  }

  /** String.valueOf(int) */
  function ToDecimal(n: int): (s: string)
    ensures IsCanonicalDecimal(s)
  {
    if n < 0 then "-" + NatToDecimal(-n) else NatToDecimal(n)
  }

  /** The form String.valueOf produces: an optional '-', then digits with no
      leading zero, where zero is written "0" and never "-0"; no '+'. */
  predicate IsCanonicalDecimal(s: string) {
    var magnitude := if |s| > 0 && s[0] == '-' then s[1..] else s;
    && |magnitude| > 0
    && AllDigits(magnitude)
    && (magnitude[0] == '0' ==> s == "0")
  }

  /** Parsing what valueOf printed gives the int back. */
  lemma ParseToDecimal(n: int)
    requires InInt32Range(n)
    ensures ParseInt(ToDecimal(n)) == Some(n)
  {
    var s := ToDecimal(n);
    if n < 0 {
      assert s[1..] == NatToDecimal(-n);
    } else {
      assert s[0..] == s;
    }
  }

  /** A digit run without a leading zero is exactly what valueOf prints for its value. */
  lemma {:induction false} NatToDecimalOfValue(ds: string)
    requires |ds| > 0 && AllDigits(ds)
    requires ds[0] == '0' ==> |ds| == 1
    ensures NatToDecimal(DigitsValue(ds)) == ds
    decreases |ds|
  {
    var last := ds[|ds| - 1];
    if |ds| == 1 {
      assert ds == [DigitChar(DigitValue(last))];
    } else {
      var prefix := ds[..|ds| - 1];
      assert prefix[..1] == ds[..1];
      assert DigitsValue(ds[..1]) == DigitValue(ds[0]) by {
        assert ds[..1][..0] == [];
      }
      DigitsValuePrefix(prefix, 1);
      NatToDecimalOfValue(prefix);
      var v := DigitsValue(ds);
      assert v / 10 == DigitsValue(prefix) && v % 10 == DigitValue(last);
      assert ds == prefix + [DigitChar(DigitValue(last))];
    }
  }

  /** Parsing then printing gives the input back exactly when the input is in
      canonical form: "+7", "007" and "-0" parse but print differently. */
  lemma ToDecimalOfParse(s: string)
    requires ParseInt(s).Some?
    ensures ToDecimal(ParseInt(s).value) == s <==> IsCanonicalDecimal(s)
  {
    if IsCanonicalDecimal(s) {
      if s[0] == '-' {
        CanonicalNegativeRoundTrip(s);
      } else {
        CanonicalNonNegativeRoundTrip(s);
      }
    }
  }

  lemma CanonicalNegativeRoundTrip(s: string)
    requires ParseInt(s).Some? && IsCanonicalDecimal(s)
    requires s[0] == '-'
    ensures ToDecimal(ParseInt(s).value) == s
  {
    var digits := s[1..];
    assert AllDigits(digits) && digits[0] != '0';
    var m := DigitsValue(digits);
    assert ParseInt(s) == Some(-(m as int)) by {
      assert SignLength(s) == 1;
    }
    NatToDecimalOfValue(digits);
    assert m != 0 by {
      assert NatToDecimal(0) == "0";
    }
    assert "-" + digits == s;
  }

  lemma CanonicalNonNegativeRoundTrip(s: string)
    requires ParseInt(s).Some? && IsCanonicalDecimal(s)
    requires s[0] != '-'
    ensures ToDecimal(ParseInt(s).value) == s
  {
    assert IsDigit(s[0]);
    assert SignLength(s) == 0;
    assert s[0..] == s;
    NatToDecimalOfValue(s);
    assert ParseInt(s).value == DigitsValue(s);
  }
}
