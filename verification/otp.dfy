/** The one-time code of the forgot-password flow: how a code is generated
    from a random draw, and how the OTP input field filters what is typed. */
module Otp {

  /** The length of a code, and the cap the input filter applies. */
  const CodeLength: nat := 6

  predicate IsDigit(c: char)
  {
    '0' <= c <= '9'
  }

  predicate AllDigits(s: string)
  {
    forall k :: 0 <= k < |s| ==> IsDigit(s[k])
  }

  /** `s.replace(/\D/g, '')`: the digits of `s`, in order. */
  function Digits(s: string): (r: string)
    ensures AllDigits(r)
    ensures |r| <= |s|
    ensures AllDigits(s) ==> r == s
  {
    if |s| == 0 then ""
    else if IsDigit(s[|s| - 1]) then Digits(s[..|s| - 1]) + [s[|s| - 1]]
    else Digits(s[..|s| - 1])
  }

  /** Filtering distributes over concatenation: the digit subsequence of a
      text is the digit subsequence of each part, joined. */
  lemma {:induction false} DigitsAppend(a: string, b: string)
    ensures Digits(a + b) == Digits(a) + Digits(b)
    decreases |b|
  {
    if |b| == 0 {
      assert a + b == a;
    } else {
      var b' := b[..|b| - 1];
      assert (a + b)[..|a + b| - 1] == a + b';
      DigitsAppend(a, b');
    }
  }

  /** A non-digit character contributes nothing to the filter, a digit
      contributes itself. */
  lemma DigitsOfChar(c: char)
    ensures Digits([c]) == if IsDigit(c) then [c] else []
  {
    assert [c][..0] == [];
  }

  /** The OTP input's change handler (alert.tsx line 798): strip every
      non-digit, then keep at most the first six characters. */
  function SanitizeOtpInput(raw: string): (r: string)
    ensures AllDigits(r)
    ensures |r| <= CodeLength
    ensures r <= Digits(raw)
    ensures |r| == if |Digits(raw)| < CodeLength then |Digits(raw)| else CodeLength
  {
    var d := Digits(raw);
    if |d| <= CodeLength then d else d[..CodeLength]
  }

  /** Typing the filtered value back into the field leaves it alone. */
  lemma SanitizeIdempotent(raw: string)
    ensures SanitizeOtpInput(SanitizeOtpInput(raw)) == SanitizeOtpInput(raw)
  {
  }

  /** Any string of at most six digits passes the filter unchanged. */
  lemma SanitizeKeepsShortCodes(code: string)
    requires AllDigits(code) && |code| <= CodeLength
    ensures SanitizeOtpInput(code) == code
  {
  }

  function DigitChar(d: nat): (c: char)
    requires d < 10
    ensures IsDigit(c)
  {
    "0123456789"[d]
  }

  function DigitValue(c: char): (d: nat)
    requires IsDigit(c)
    ensures d < 10
    ensures DigitChar(d) == c
  {
    (c as int - '0' as int) as nat
  }

  /** `n.toString()` for a non-negative integer: decimal, no leading zeros. */
  function DecimalString(n: nat): (s: string)
    ensures |s| >= 1
    ensures AllDigits(s)
    decreases n
  {
    if n < 10 then [DigitChar(n)] else DecimalString(n / 10) + [DigitChar(n % 10)]
  }

  /** The number a string of decimal digits denotes. */
  function DecimalValue(s: string): nat
    requires AllDigits(s)
  {
    if |s| == 0 then 0 else 10 * DecimalValue(s[..|s| - 1]) + DigitValue(s[|s| - 1])
  }

  /** Reading back the decimal text of `n` gives `n`. */
  lemma {:induction false} DecimalRoundTrip(n: nat)
    ensures DecimalValue(DecimalString(n)) == n
    decreases n
  {
    var s := DecimalString(n);
    if n < 10 {
      assert s[..0] == [];
      assert DigitValue(DigitChar(n)) == n;
    } else {
      DecimalRoundTrip(n / 10);
      assert s[..|s| - 1] == DecimalString(n / 10);
      assert DigitValue(DigitChar(n % 10)) == n % 10;
    }
  }

  /** The decimal text of a number in [10^(k-1), 10^k) has exactly k digits
      and no leading zero. */
  lemma {:induction false} DecimalLength(n: nat, k: nat, lo: nat)
    requires k >= 1 && lo == Pow10(k - 1) && lo <= n < 10 * lo
    ensures |DecimalString(n)| == k
    ensures DecimalString(n)[0] != '0'
    decreases k
  {
    if k == 1 {
      assert n < 10 && n >= 1;
    } else {
      Pow10Positive(k - 2);
      assert Pow10(k - 1) == 10 * Pow10(k - 2);
      DivBounds(n, Pow10(k - 2));
      DecimalLength(n / 10, k - 1, Pow10(k - 2));
    }
  }

  function Pow10(k: nat): (p: nat)
  {
    if k == 0 then 1 else 10 * Pow10(k - 1)
  }

  lemma {:induction false} Pow10Positive(k: nat)
    ensures Pow10(k) >= 1
  {
    if k > 0 {
      Pow10Positive(k - 1);
    }
  }

  lemma DivBounds(n: nat, lo: nat)
    requires lo >= 1 && 10 * lo <= n < 100 * lo
    ensures lo <= n / 10 < 10 * lo
  {
  }

  /** `generateOTP`: `Math.floor(100000 + Math.random() * 900000)` is an
      integer `draw` in [100000, 999999]; the code is its decimal text. */
  function GenerateOtp(draw: int): (code: string)
    requires 100000 <= draw <= 999999
    ensures |code| == CodeLength
    ensures AllDigits(code)
    ensures code[0] != '0'
    ensures DecimalValue(code) == draw
  {
    DecimalRoundTrip(draw);
    assert Pow10(5) == 100000;
    DecimalLength(draw, 6, 100000);
    DecimalString(draw)
  }

  /** A generated code survives the input filter, so the user can always
      type the code they were shown. */
  lemma GeneratedCodeIsTypable(draw: int)
    requires 100000 <= draw <= 999999
    ensures SanitizeOtpInput(GenerateOtp(draw)) == GenerateOtp(draw)
  {
    SanitizeKeepsShortCodes(GenerateOtp(draw));
  }
}
