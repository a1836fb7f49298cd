/**
  Decimal text: the numerals that `snprintf("%0Nd")` and `ostream << setfill('0') << setw(N)`
  produce, and the integer parsing of `std::stoi`, which the date converter starts with.
 */
module Text {
  import opened Wrappers

  const MinInt: int := -0x8000_0000
  const MaxInt: int := 0x7FFF_FFFF

  predicate IsDigit(c: char) {
    '0' <= c <= '9'
  }

  predicate AllDigits(s: string) {
    forall i :: 0 <= i < |s| ==> IsDigit(s[i])
  }

  function DigitChar(d: nat): (c: char)
    requires d < 10
    ensures IsDigit(c) && c as int - '0' as int == d
  {
    ('0' as int + d) as char
  }

  /** The value of a decimal digit; callers apply it to digits only. */
  function DigitValue(c: char): nat {
    if IsDigit(c) then c as int - '0' as int else 0
  }

  function Pow10(k: nat): (p: nat)
    ensures p >= 1
  {
    if k == 0 then 1 else 10 * Pow10(k - 1)
  }

  /** The value of a run of decimal digits, most significant first (the empty run is 0). */
  function DigitsValue(s: string): nat {
    if s == [] then 0 else DigitsValue(s[..|s| - 1]) * 10 + DigitValue(s[|s| - 1])
  }

  /** The shortest decimal numeral of `n`: no leading zero, "0" for zero. */
  function Digits(n: nat): (s: string)
    ensures |s| >= 1
    decreases n
  {
    if n < 10 then [DigitChar(n)] else Digits(n / 10) + [DigitChar(n % 10)]
  }

  /** The numeral is made of digits, has no leading zero, and has the value `n`. */
  lemma {:induction false} DigitsFacts(n: nat)
    ensures var s := Digits(n); AllDigits(s) && DigitsValue(s) == n && (|s| > 1 ==> s[0] != '0')
    decreases n
  {
    if n >= 10 {
      DigitsFacts(n / 10);
      var s := Digits(n);
      assert s[..|s| - 1] == Digits(n / 10);
    }
  }

  function Zeros(k: nat): (s: string)
    ensures |s| == k && AllDigits(s)
  {
    seq(k, _ => '0')
  }

  /** `s` padded on the left with '0' up to `width` characters; a longer `s` is kept whole. */
  function ZeroFill(s: string, width: nat): (r: string)
    ensures |r| == if |s| < width then width else |s|
  {
    if |s| < width then Zeros(width - |s|) + s else s
  }

  /** The text `printf` gives for `%0<width>d`: the sign first, then the zero-padded magnitude. */
  function PrintfZeroPad(n: int, width: nat): (r: string)
    ensures |r| >= width
  {
    if n >= 0 then ZeroFill(Digits(n), width)
    else "-" + ZeroFill(Digits(-n), if width == 0 then 0 else width - 1)
  }

  /**
    The text an `ostream` gives for `setfill('0') << setw(width) << n` with the default
    (right) adjustment: the fill goes in front of the whole numeral, sign included.
   */
  function StreamZeroPad(n: int, width: nat): (r: string)
    ensures |r| >= width
  {
    ZeroFill(if n >= 0 then Digits(n) else "-" + Digits(-n), width)
  }

  /** Leading zeros do not change the value of a digit run. */
  lemma {:induction false} DigitsValueZeros(k: nat, s: string)
    requires AllDigits(s)
    ensures AllDigits(Zeros(k) + s)
    ensures DigitsValue(Zeros(k) + s) == DigitsValue(s)
    decreases |s|, k
  {
    var t := Zeros(k) + s;
    assert AllDigits(t) by {
      forall i | 0 <= i < |t| ensures IsDigit(t[i]) {
        if i < k { assert t[i] == '0'; } else { assert t[i] == s[i - k]; }
      }
    }
    if s == [] {
      if k > 0 {
        assert t[..|t| - 1] == Zeros(k - 1) + [];
        DigitsValueZeros(k - 1, []);
      }
    } else {
      var init := s[..|s| - 1];
      assert AllDigits(init);
      assert t[..|t| - 1] == Zeros(k) + init;
      DigitsValueZeros(k, init);
    }
  }

  /** A number below 10^width has a numeral of at most `width` digits. */
  lemma {:induction false} DigitsLength(n: nat, width: nat)
    requires 1 <= width && n < Pow10(width)
    ensures |Digits(n)| <= width
    decreases n
  {
    if n >= 10 {
      assert Pow10(1) == 10;
      assert width >= 2;
      assert n / 10 < Pow10(width - 1);
      DigitsLength(n / 10, width - 1);
    }
  }

  /** A zero-padded field of a number that fits reads back as that number. */
  lemma ZeroPaddedRoundTrip(n: nat, width: nat)
    requires 1 <= width && n < Pow10(width)
    ensures |PrintfZeroPad(n, width)| == width
    ensures PrintfZeroPad(n, width) == StreamZeroPad(n, width)
    ensures AllDigits(PrintfZeroPad(n, width))
    ensures DigitsValue(PrintfZeroPad(n, width)) == n
  {
    var d := Digits(n);
    DigitsFacts(n);
    DigitsLength(n, width);
    DigitsValueZeros(width - |d|, d);
    if |d| == width {
      assert Zeros(0) + d == d;
    }
  }

  predicate IsSpace(c: char) {
    c == ' ' || c == '\t' || c == '\n' || c == '\r' || c == '\U{B}' || c == '\U{C}'
  }

  /** `s` without its leading white space. */
  function SkipSpaces(s: string): string {
    if s != [] && IsSpace(s[0]) then SkipSpaces(s[1..]) else s
  }

  /** The longest prefix of `s` made of decimal digits. */
  function DigitRun(s: string): string {
    if s != [] && IsDigit(s[0]) then [s[0]] + DigitRun(s[1..]) else []
  }

  /**
    `std::stoi(s)` in base 10: white space is skipped, one sign is allowed, and the longest run
    of digits after it is converted; the rest of the text is ignored. None stands for the two
    exceptions it throws: no digits at all (invalid_argument) and a value outside the 32-bit
    `int` range (out_of_range).
   */
  function StoI(s: string): (r: Option<int>)
    ensures r.Some? ==> MinInt <= r.value <= MaxInt
  {
    var t := SkipSpaces(s);
    if DigitRun(SignStripped(t)) == [] then None
    else if MinInt <= SignedValue(t) <= MaxInt then Some(SignedValue(t))
    else None
  }

  /** What is left of `s` after the white space: a suffix of it that does not start with a space. */
  lemma {:induction false} SkipSpacesFacts(s: string)
    ensures var r := SkipSpaces(s); |r| <= |s| && r == s[|s| - |r|..] && (r == [] || !IsSpace(r[0]))
    decreases |s|
  {
    if s != [] && IsSpace(s[0]) {
      SkipSpacesFacts(s[1..]);
      var r := SkipSpaces(s[1..]);
      assert s[1..][|s[1..]| - |r|..] == s[|s| - |r|..];
    }
  }

  /** The digit run is a prefix of `s`, and the character after it, if any, is not a digit. */
  lemma {:induction false} DigitRunFacts(s: string)
    ensures var r := DigitRun(s); AllDigits(r) && r <= s && (|r| < |s| ==> !IsDigit(s[|r|]))
    decreases |s|
  {
    if s != [] && IsDigit(s[0]) {
      DigitRunFacts(s[1..]);
      var r := DigitRun(s[1..]);
      assert DigitRun(s) == [s[0]] + r;
      assert s == [s[0]] + s[1..];
    }
  }

  function SignStripped(t: string): string {
    if t != [] && (t[0] == '-' || t[0] == '+') then t[1..] else t
  }

  function SignedValue(t: string): int {
    var v := DigitsValue(DigitRun(SignStripped(t)));
    if t != [] && t[0] == '-' then -(v as int) else v
  }

  /** The numeral of an integer, with a '-' for negative numbers. */
  function IntText(n: int): string {
    if n < 0 then "-" + Digits(-n) else Digits(n)
  }

  lemma {:induction false} DigitRunOfDigits(d: string, rest: string)
    requires AllDigits(d)
    requires rest == [] || !IsDigit(rest[0])
    ensures DigitRun(d + rest) == d
    decreases |d|
  {
    if d != [] {
      assert (d + rest)[1..] == d[1..] + rest;
      DigitRunOfDigits(d[1..], rest);
    }
  }

  /** The numeral of `n` followed by `rest`, seen by `stoi`: no space to skip, the sign, the digits. */
  lemma IntTextShape(n: int, rest: string)
    ensures var s := IntText(n) + rest;
      && SkipSpaces(s) == s
      && SignStripped(s) == Digits(if n < 0 then -n else n) + rest
      && (s != [] && s[0] == '-' <==> n < 0)
  {
    var m := if n < 0 then -n else n;
    var d := Digits(m);
    DigitsFacts(m);
    assert IsDigit(d[0]);
    var s := IntText(n) + rest;
    if n < 0 {
      assert s == ['-'] + (d + rest);
      assert s[0] == '-' && s[1..] == d + rest;
    } else {
      assert s == d + rest;
      assert s[0] == d[0];
    }
    assert !IsSpace(s[0]);
  }

  /**
    `stoi` reads back any 32-bit integer from its numeral, whatever non-digit text
    follows it.
   */
  lemma StoIRoundTrip(n: int, rest: string)
    requires MinInt <= n <= MaxInt
    requires rest == [] || !IsDigit(rest[0])
    ensures StoI(IntText(n) + rest) == Some(n)
  {
    var s := IntText(n) + rest;
    var d := Digits(if n < 0 then -n else n);
    IntTextShape(n, rest);
    DigitsFacts(if n < 0 then -n else n);
    DigitRunOfDigits(d, rest);
    assert DigitRun(SignStripped(s)) == d;
    assert SignedValue(s) == n;
  }

  /** Where the three fields of `a<sep>b<sep>c` sit. */
  lemma JoinedFields(a: string, b: string, c: string, sep: char)
    ensures var s := a + [sep] + b + [sep] + c;
      && |s| == |a| + |b| + |c| + 2
      && s[..|a|] == a && s[|a|] == sep
      && s[|a| + 1..|a| + 1 + |b|] == b && s[|a| + 1 + |b|] == sep
      && s[|a| + 2 + |b|..] == c
  {
    var s := a + [sep] + b + [sep] + c;
    assert s[..|a|] == a;
    assert s[|a| + 1..|a| + 1 + |b|] == b;
    assert s[|a| + 2 + |b|..] == c;
  }
}
