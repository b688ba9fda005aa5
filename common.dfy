/** Small value types and the handful of Python string and integer operations
    that the registry relies on: str(int), s[-n:], str.zfill, str.upper and int(str). */
module Common {

  datatype Option<T> = None | Some(value: T)

  // ---------------------------------------------------------------------------
  // Decimal digits
  // ---------------------------------------------------------------------------

  predicate IsDigit(c: char) {
    '0' <= c <= '9'
  }

  function DigitValue(c: char): (d: nat)
    requires IsDigit(c)
    ensures d < 10
  {
    c as int - '0' as int
  }

  function DigitChar(d: nat): (c: char)
    requires d < 10
    ensures IsDigit(c) && DigitValue(c) == d
  {
    ('0' as int + d) as char
  }

  /** Python's str(n) for a non-negative integer: the shortest decimal spelling. */
  function NatToDecimal(n: nat): (s: string)
    ensures |s| > 0
    ensures forall i :: 0 <= i < |s| ==> IsDigit(s[i])
    ensures n < 10 <==> |s| == 1
    decreases n
  {
    if n < 10 then [DigitChar(n)] else NatToDecimal(n / 10) + [DigitChar(n % 10)]
  }

  /** Python's str(i) for any integer: a minus sign before the magnitude when negative. */
  function IntToDecimal(i: int): (s: string)
    ensures |s| > 0
    ensures s[0] == '-' <==> i < 0
    ensures forall k :: 0 < k < |s| ==> IsDigit(s[k])
    ensures i >= 0 ==> IsDigit(s[0])
  {
    if i < 0 then "-" + NatToDecimal(-i) else NatToDecimal(i)
  }

  // ---------------------------------------------------------------------------
  // Slicing and padding
  // ---------------------------------------------------------------------------

  /** Python's s[-n:] for n > 0: the last n characters, or all of s when it is shorter. */
  function Suffix(s: string, n: nat): (r: string)
    requires n > 0
    ensures |r| == if |s| < n then |s| else n
    ensures s == s[..|s| - |r|] + r
  {
    if |s| <= n then s else s[|s| - n..]
  }

  function Zeros(n: nat): (r: string)
    ensures |r| == n
    ensures forall i :: 0 <= i < n ==> r[i] == '0'
  {
    seq(n, _ => '0')
  }

  /** Python's str.zfill: pad with zeros on the left up to `width`; a leading sign stays in front. */
  function ZFill(s: string, width: nat): (r: string)
    ensures |r| == if |s| >= width then |s| else width
    ensures |s| > 0 ==> (r[0] == '+' || r[0] == '-' <==> s[0] == '+' || s[0] == '-')
  {
    if |s| >= width then s
    else if |s| > 0 && (s[0] == '+' || s[0] == '-') then [s[0]] + Zeros(width - |s|) + s[1..]
    else Zeros(width - |s|) + s
  }

  // ---------------------------------------------------------------------------
  // Upper-casing (ASCII letters only)
  // ---------------------------------------------------------------------------

  function ToUpper(c: char): (u: char)
    ensures 'a' <= c <= 'z' ==> 'A' <= u <= 'Z' && u as int == c as int - 32
    ensures !('a' <= c <= 'z') ==> u == c
  {
    if 'a' <= c <= 'z' then (c as int - 32) as char else c
  }

  /** Python's str.upper, restricted to ASCII letters. */
  function Upper(s: string): (r: string)
    ensures |r| == |s|
    ensures forall i :: 0 <= i < |s| ==> r[i] == ToUpper(s[i])
  {
    seq(|s|, i requires 0 <= i < |s| => ToUpper(s[i]))
  }

  // ---------------------------------------------------------------------------
  // Python's int(str) in base 10
  // ---------------------------------------------------------------------------

  /** The ASCII characters that Python's int() skips around a number. */
  predicate IsSpace(c: char) {
    9 <= c as int <= 13 || 28 <= c as int <= 32
  }

  function StripLeft(s: string): (r: string)
    ensures |r| <= |s|
    ensures |r| > 0 ==> !IsSpace(r[0])
    ensures r == s[|s| - |r|..]
  {
    if |s| > 0 && IsSpace(s[0]) then StripLeft(s[1..]) else s
  }

  function StripRight(s: string): (r: string)
    ensures |r| <= |s|
    ensures |r| > 0 ==> !IsSpace(r[|r| - 1])
    ensures r == s[..|r|]
  {
    if |s| > 0 && IsSpace(s[|s| - 1]) then StripRight(s[..|s| - 1]) else s
  }

  function Strip(s: string): string {
    StripRight(StripLeft(s))
  }

  /** A run of decimal digits in which single underscores may separate digits, as int() accepts. */
  predicate IsDigitRun(s: string) {
    && |s| > 0
    && IsDigit(s[0])
    && IsDigit(s[|s| - 1])
    && (forall i :: 0 <= i < |s| ==> IsDigit(s[i]) || s[i] == '_')
    && (forall i :: 0 <= i < |s| - 1 && s[i] == '_' ==> s[i + 1] != '_')
  }

  /** The value of a digit run, underscores ignored. */
  function DigitsValue(s: string): nat
    requires forall i :: 0 <= i < |s| ==> IsDigit(s[i]) || s[i] == '_'
  {
    if s == [] then 0
    else if s[|s| - 1] == '_' then DigitsValue(s[..|s| - 1])
    else DigitsValue(s[..|s| - 1]) * 10 + DigitValue(s[|s| - 1])
  }

  /** Python's int(s): surrounding blanks, an optional sign, then a digit run; None where int() raises ValueError. */
  function ParseInt(s: string): (r: Option<int>)
    ensures r.Some? ==> |Strip(s)| > 0
  {
    var t := Strip(s);
    if |t| > 0 && (t[0] == '+' || t[0] == '-') then
      var body := t[1..];
      var v: int := if IsDigitRun(body) then DigitsValue(body) else 0;
      if IsDigitRun(body) then Some(if t[0] == '-' then -v else v) else None
    else if IsDigitRun(t) then Some(DigitsValue(t))
    else None
  }

  // ---------------------------------------------------------------------------
  // Lemmas: int() reads back what str() and zfill() write
  // ---------------------------------------------------------------------------

  lemma {:induction false} DigitsValueOfDecimal(n: nat)
    ensures DigitsValue(NatToDecimal(n)) == n
    decreases n
  {
    if n >= 10 {
      var p := NatToDecimal(n / 10);
      var s := p + [DigitChar(n % 10)];
      assert s[..|s| - 1] == p;
      DigitsValueOfDecimal(n / 10);
    }
  }

  lemma {:induction false} DigitsValueOfZeros(k: nat)
    ensures DigitsValue(Zeros(k)) == 0
  {
    if k > 0 {
      assert Zeros(k)[..k - 1] == Zeros(k - 1);
      DigitsValueOfZeros(k - 1);
    }
  }

  /** Leading zeros do not change the value of a run of digits. */
  lemma {:induction false} DigitsValueLeadingZeros(k: nat, d: string)
    requires forall i :: 0 <= i < |d| ==> IsDigit(d[i])
    ensures DigitsValue(Zeros(k) + d) == DigitsValue(d)
    decreases |d|
  {
    var s := Zeros(k) + d;
    if d == [] {
      assert s == Zeros(k);
      DigitsValueOfZeros(k);
    } else {
      assert s[..|s| - 1] == Zeros(k) + d[..|d| - 1];
      DigitsValueLeadingZeros(k, d[..|d| - 1]);
    }
  }

  lemma StripNoBlanks(s: string)
    requires |s| > 0 && !IsSpace(s[0]) && !IsSpace(s[|s| - 1])
    ensures Strip(s) == s
  {
  }

  /** int() reads an unsigned digit run as its value. */
  lemma ParseUnsignedRun(t: string)
    requires IsDigitRun(t)
    ensures ParseInt(t) == Some(DigitsValue(t))
  {
    StripNoBlanks(t);
  }

  /** int() reads a minus sign followed by a digit run as the negated value. */
  lemma ParseNegativeRun(t: string, v: int)
    requires IsDigitRun(t) && DigitsValue(t) == v
    ensures ParseInt("-" + t) == Some(-v)
  {
    var s := "-" + t;
    StripNoBlanks(s);
    assert s[1..] == t;
  }

  /** The zero-padded spelling of a magnitude is a digit run of the same value. */
  lemma ZeroPaddedDigits(k: nat, m: nat)
    ensures IsDigitRun(Zeros(k) + NatToDecimal(m))
    ensures DigitsValue(Zeros(k) + NatToDecimal(m)) == m
  {
    DigitsValueOfDecimal(m);
    DigitsValueLeadingZeros(k, NatToDecimal(m));
  }

  /** int(str(n)) == n. */
  lemma ParseDecimal(n: nat)
    ensures ParseInt(NatToDecimal(n)) == Some(n)
  {
    DigitsValueOfDecimal(n);
    ParseUnsignedRun(NatToDecimal(n));
  }

  /** zfill on an unsigned digit string only adds zeros in front. */
  lemma ZFillUnsigned(d: string, width: nat)
    requires |d| > 0 && IsDigit(d[0])
    ensures ZFill(d, width) == Zeros(if |d| >= width then 0 else width - |d|) + d
  {
    if |d| >= width { assert Zeros(0) + d == d; }
  }

  /** zfill on a minus sign and digits puts the zeros between the sign and the digits. */
  lemma ZFillNegative(d: string, width: nat)
    ensures ZFill("-" + d, width) == "-" + (Zeros(if |d| + 1 >= width then 0 else width - |d| - 1) + d)
  {
    var s := "-" + d;
    assert s[0] == '-' && s[1..] == d;
    if |s| >= width { assert Zeros(0) + d == d; }
  }

  lemma ParseZFilledNegative(i: int, width: nat)
    requires i < 0
    ensures ParseInt(ZFill(IntToDecimal(i), width)) == Some(i)
  {
    var d := NatToDecimal(-i);
    var k: nat := if |d| + 1 >= width then 0 else width - |d| - 1;
    assert IntToDecimal(i) == "-" + d;
    ZFillNegative(d, width);
    ZeroPaddedDigits(k, -i);
    ParseNegativeRun(Zeros(k) + d, -i);
  }

  lemma ParseZFilledNatural(n: nat, width: nat)
    ensures ParseInt(ZFill(IntToDecimal(n), width)) == Some(n)
  {
    var d := NatToDecimal(n);
    var k: nat := if |d| >= width then 0 else width - |d|;
    assert IntToDecimal(n) == d;
    ZFillUnsigned(d, width);
    ZeroPaddedDigits(k, n);
    ParseUnsignedRun(Zeros(k) + d);
  }

  /** int(str(i).zfill(w)) == i: zero padding never changes the value that int() reads. */
  lemma ParseZFilledDecimal(i: int, width: nat)
    ensures ParseInt(ZFill(IntToDecimal(i), width)) == Some(i)
  {
    if i < 0 {
      ParseZFilledNegative(i, width);
    } else {
      ParseZFilledNatural(i, width);
    }
  }
}
