/** Decimal text: strconv.FormatInt / strconv.ParseInt in base 10, and the
    zero-padded digits a timestamp is made of. A Go string is a sequence of
    bytes, here one char per byte. */
module Decimal {
  import opened Wrappers

  predicate IsDigit(c: char) { '0' <= c <= '9' }

  predicate AllDigits(s: string) { forall i :: 0 <= i < |s| ==> IsDigit(s[i]) }

  function DigitChar(d: nat): char
    requires d < 10
  {
    ('0' as int + d) as char
  }

  function DigitValue(c: char): nat
    requires IsDigit(c)
  {
    c as int - '0' as int
  }

  /** The number a run of digits denotes, most significant digit first. */
  function DigitsValue(s: string): nat
    requires AllDigits(s)
  {
    if s == "" then 0 else DigitsValue(s[..|s| - 1]) * 10 + DigitValue(s[|s| - 1])
  }

  function FormatUint(n: nat): string {
    if n < 10 then [DigitChar(n)] else FormatUint(n / 10) + [DigitChar(n % 10)]
  }

  /** strconv.FormatInt(i, 10). */
  function FormatInt(i: int): string {
    if i < 0 then "-" + FormatUint(-i) else FormatUint(i)
  }

  function Pow2(n: nat): nat { if n == 0 then 1 else 2 * Pow2(n - 1) }

  /** The values of a signed integer of the given width. */
  predicate InSigned(i: int, bits: nat)
    requires bits > 0
  {
    0 - Pow2(bits - 1) <= i < Pow2(bits - 1)
  }

  /** strconv.ParseInt(s, 10, bits): an optional sign, then at least one digit,
      and nothing else; a value outside the width is an error. */
  function ParseInt(s: string, bits: nat): Option<int>
    requires bits > 0
  {
    var negative := s != "" && s[0] == '-';
    var digits := if s != "" && (s[0] == '-' || s[0] == '+') then s[1..] else s;
    if digits == "" || !AllDigits(digits) then None
    else
      var value := if negative then 0 - DigitsValue(digits) else DigitsValue(digits);
      if InSigned(value, bits) then Some(value) else None
  }

  function Zeros(n: nat): string { seq(n, _ => '0') }

  /** Go's time.appendInt: the number's digits, left-padded with zeros to a width. */
  function AppendInt(x: int, width: nat): string {
    var digits := FormatUint(if x < 0 then -x else x);
    (if x < 0 then "-" else "") + (if |digits| < width then Zeros(width - |digits|) else "") + digits
  }

  /** n * 10^k, one factor at a time. */
  function Scale(n: nat, k: nat): nat
    decreases k
  {
    if k == 0 then n else Scale(n * 10, k - 1)
  }

  // ---- Laws ----

  lemma {:induction false} FormatUintValue(n: nat)
    ensures FormatUint(n) != "" && AllDigits(FormatUint(n))
    ensures DigitsValue(FormatUint(n)) == n
    ensures n > 0 ==> FormatUint(n)[0] != '0'
  {
    if n >= 10 {
      FormatUintValue(n / 10);
      var head := FormatUint(n / 10);
      assert FormatUint(n)[..|FormatUint(n)| - 1] == head;
    } else {
      assert FormatUint(n)[..0] == "";
    }
  }

  /** Formatting inverts parsing exactly on the integers that fit the width. */
  lemma ParseFormatInt(i: int, bits: nat)
    requires bits > 0
    ensures ParseInt(FormatInt(i), bits) == if InSigned(i, bits) then Some(i) else None
  {
    FormatUintValue(if i < 0 then -i else i);
    if i < 0 {
      assert FormatInt(i)[1..] == FormatUint(-i);
    }
  }

  lemma {:induction false} LeadingZeros(k: nat, s: string)
    requires AllDigits(s)
    ensures AllDigits(Zeros(k) + s) && DigitsValue(Zeros(k) + s) == DigitsValue(s)
    decreases |s|, k
  {
    if s != "" {
      LeadingZeros(k, s[..|s| - 1]);
      assert (Zeros(k) + s)[..|Zeros(k) + s| - 1] == Zeros(k) + s[..|s| - 1];
    } else if k > 0 {
      LeadingZeros(k - 1, s);
      assert Zeros(k) + s == Zeros(k);
      assert Zeros(k)[..k - 1] == Zeros(k - 1) + s;
    }
  }

  lemma {:induction false} FormatUintLength(n: nat, width: nat)
    requires width > 0 && n < Scale(1, width)
    ensures |FormatUint(n)| <= width
    decreases width
  {
    if n >= 10 {
      ScaleLinear(1, width - 1);
      if width > 1 {
        FormatUintLength(n / 10, width - 1);
      }
    }
  }

  lemma {:induction false} ScaleLinear(n: nat, k: nat)
    ensures Scale(n, k + 1) == 10 * Scale(n, k)
    decreases k
  {
    if k > 0 {
      ScaleLinear(n * 10, k - 1);
    }
  }

  /** A value that fits the width is written in exactly that many digits. */
  lemma AppendIntFixed(x: nat, width: nat)
    requires width > 0 && x < Scale(1, width)
    ensures |AppendInt(x, width)| == width && AllDigits(AppendInt(x, width))
    ensures DigitsValue(AppendInt(x, width)) == x
  {
    FormatUintValue(x);
    FormatUintLength(x, width);
    var digits := FormatUint(x);
    LeadingZeros(width - |digits|, digits);
    assert AppendInt(x, width) == Zeros(width - |digits|) + digits;
  }

  /** Digits are the number they denote behind their leading zeros. */
  lemma {:induction false} FormatDigits(s: string)
    requires s != "" && AllDigits(s)
    ensures |FormatUint(DigitsValue(s))| <= |s|
    ensures Zeros(|s| - |FormatUint(DigitsValue(s))|) + FormatUint(DigitsValue(s)) == s
  {
    var front, last := s[..|s| - 1], s[|s| - 1];
    var number := FormatUint(DigitsValue(s));
    assert s == front + [last] && DigitChar(DigitValue(last)) == last;
    if front != "" {
      FormatDigits(front);
      if DigitsValue(front) == 0 {
        assert front == Zeros(|front| - 1) + "0" == Zeros(|front|);
      } else {
        assert number == FormatUint(DigitsValue(front)) + [last];
        assert |s| - |number| == |front| - |FormatUint(DigitsValue(front))|;
      }
    }
  }

  lemma AppendPadded(x: nat, width: nat)
    requires |FormatUint(x)| <= width
    ensures AppendInt(x, width) == Zeros(width - |FormatUint(x)|) + FormatUint(x)
  {
    hide FormatUint;
    assert Zeros(0) + FormatUint(x) == FormatUint(x);
  }

  /** Digits of a width are what AppendInt writes for their value at that width. */
  lemma AppendDigits(s: string)
    requires s != "" && AllDigits(s)
    ensures AppendInt(DigitsValue(s), |s|) == s
  {
    hide FormatUint, DigitsValue, AppendInt, Zeros;
    FormatDigits(s);
    AppendPadded(DigitsValue(s), |s|);
  }

  /** A decimal text: digits without a sign and without a leading zero. */
  predicate CanonicalPositive(s: string) { s != "" && AllDigits(s) && s[0] != '0' }

  /** Parsing accepts signs and leading zeros that formatting never writes: a
      text of a positive number is what formatting writes exactly without them. */
  lemma FormatParseIntExactly(s: string, bits: nat)
    requires bits > 0 && ParseInt(s, bits).Some? && ParseInt(s, bits).value >= 1
    ensures FormatInt(ParseInt(s, bits).value) == s <==> CanonicalPositive(s)
  {
    var value := ParseInt(s, bits).value;
    FormatUintValue(value);
    if CanonicalPositive(s) {
      FormatDigits(s);
    }
  }

  lemma {:induction false} TrailingZeros(s: string, k: nat)
    requires AllDigits(s)
    ensures AllDigits(s + Zeros(k)) && DigitsValue(s + Zeros(k)) == Scale(DigitsValue(s), k)
    decreases k
  {
    if k == 0 {
      assert s + Zeros(0) == s;
    } else {
      TrailingZeros(s, k - 1);
      assert (s + Zeros(k))[..|s| + k - 1] == s + Zeros(k - 1);
      ScaleLinear(DigitsValue(s), k - 1);
    }
  }
}
