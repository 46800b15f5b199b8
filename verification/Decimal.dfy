/**
 * Decimal text of 64-bit signed integers: the printer every encoder uses, and the
 * parser behind integer replies, length headers, command arguments and the
 * integer encodings of strings and sets.
 */
module Decimal {
  import opened Base

  const MINUS: byte := 45
  const PLUS: byte := 43

  /** The digits of `n`, most significant first, without leading zeros. */
  function Digits(n: nat): (s: Bytes)
    ensures |s| >= 1
  {
    if n < 10 then [(48 + n) as byte] else Digits(n / 10) + [(48 + n % 10) as byte]
  }

  function Print(n: int): Bytes {
    if n < 0 then [MINUS] + Digits(-n) else Digits(n)
  }

  predicate IsDigit(b: byte) {
    48 <= b <= 57
  }

  predicate AllDigits(s: Bytes) {
    forall i :: 0 <= i < |s| ==> IsDigit(s[i])
  }

  function DigitValue(b: byte): nat
    requires IsDigit(b)
  {
    b as int - 48
  }

  /** The number a digit string denotes, leading zeros allowed. */
  function Value(s: Bytes): nat
    requires AllDigits(s)
  {
    if s == [] then 0 else Value(s[..|s| - 1]) * 10 + DigitValue(s[|s| - 1])
  }

  function Unsigned(s: Bytes): Bytes {
    if s != [] && (s[0] == MINUS || s[0] == PLUS) then s[1..] else s
  }

  /** An optional sign followed by at least one digit. */
  predicate SignedDigits(s: Bytes) {
    Unsigned(s) != [] && AllDigits(Unsigned(s))
  }

  function SignedValue(s: Bytes): int
    requires SignedDigits(s)
  {
    if s[0] == MINUS then -(Value(Unsigned(s)) as int) else Value(Unsigned(s))
  }

  /** What text-to-i64 conversion must return: the denoted number when it fits. */
  function ParseI64(s: Bytes): Option<int> {
    if SignedDigits(s) && I64_MIN <= SignedValue(s) <= I64_MAX then Some(SignedValue(s)) else None
  }

  function Checked(n: int): Option<int> {
    if I64_MIN <= n <= I64_MAX then Some(n) else None
  }

  /** Multiply by ten and move one digit away from zero, failing on overflow at either step. */
  function CheckedDigit(acc: int, digit: nat, negative: bool): Option<int> {
    match Checked(acc * 10)
    case None => None
    case Some(m) => Checked(if negative then m - digit else m + digit)
  }

  /** The accumulating parser: overflow is detected digit by digit, yet it accepts exactly what fits. */
  method ParseI64Loop(raw: Bytes) returns (r: Option<int>)
    ensures r == ParseI64(raw)
  {
    hide Value;
    if |raw| == 0 { return None; }
    var start := if raw[0] == MINUS || raw[0] == PLUS then 1 else 0;
    var negative := raw[0] == MINUS;
    assert Unsigned(raw) == raw[start..];
    if start >= |raw| { return None; }
    var acc := 0;
    ghost var body := raw[start..];
    ValueEmpty();
    for i := start to |raw|
      invariant start <= i <= |raw|
      invariant AllDigits(body[..i - start])
      invariant acc == (if negative then -(Value(body[..i - start]) as int) else Value(body[..i - start]))
      invariant I64_MIN <= acc <= I64_MAX
    {
      if !IsDigit(raw[i]) {
        assert !IsDigit(body[i - start]);
        return None;
      }
      ValueStep(body, i - start);
      var next := CheckedDigit(acc, DigitValue(raw[i]), negative);
      if next == None {
        if AllDigits(body) { PrefixValueBound(body, i - start + 1); }
        return None;
      }
      acc := next.value;
    }
    assert body[..|raw| - start] == body;
    return Some(acc);
  }

  lemma ValueEmpty()
    ensures Value([]) == 0
  {
  }

  lemma ValueStep(s: Bytes, k: nat)
    requires k < |s| && AllDigits(s[..k]) && IsDigit(s[k])
    ensures AllDigits(s[..k + 1]) && Value(s[..k + 1]) == Value(s[..k]) * 10 + DigitValue(s[k])
  {
    assert s[..k + 1][..k] == s[..k];
  }

  lemma {:induction false} PrefixValueBound(s: Bytes, k: nat)
    requires k <= |s| && AllDigits(s)
    ensures Value(s[..k]) <= Value(s)
    decreases |s| - k
  {
    if k == |s| {
      assert s[..k] == s;
    } else {
      assert s[..k + 1][..k] == s[..k];
      PrefixValueBound(s, k + 1);
    }
  }

  // ---- printing and parsing are inverse -------------------------------------

  lemma {:induction false} DigitsAreDigits(n: nat)
    ensures AllDigits(Digits(n)) && Value(Digits(n)) == n
  {
    if n >= 10 {
      DigitsAreDigits(n / 10);
      var d := Digits(n);
      assert d[..|d| - 1] == Digits(n / 10);
    } else {
      assert Digits(n)[..0] == [];
    }
  }

  lemma PrintParses(n: i64)
    ensures ParseI64(Print(n)) == Some(n)
  {
    var m: int := n;
    if m < 0 {
      DigitsAreDigits(-m);
      assert Print(n)[1..] == Digits(-m);
    } else {
      DigitsAreDigits(n);
      assert IsDigit(Digits(n)[0]);
    }
  }

  /** Printed integers contain neither CR nor LF. */
  lemma PrintIsPlain(n: int)
    ensures forall i :: 0 <= i < |Print(n)| ==> Print(n)[i] == MINUS || IsDigit(Print(n)[i])
  {
    if n < 0 { DigitsAreDigits(-n); } else { DigitsAreDigits(n); }
  }

  lemma {:induction false} DigitsNoLeadingZero(n: nat)
    ensures Digits(n)[0] == 48 <==> n == 0
    ensures n < 10 <==> |Digits(n)| == 1
  {
    if n >= 10 { DigitsNoLeadingZero(n / 10); }
  }

  /** A digit string without a leading zero is the printed form of its value. */
  lemma {:induction false} DigitsUnique(s: Bytes)
    requires s != [] && AllDigits(s) && (|s| > 1 ==> s[0] != 48)
    ensures Digits(Value(s)) == s
  {
    var init := s[..|s| - 1];
    if |s| == 1 {
      assert init == [];
    } else {
      DigitsUnique(init);
      DigitsNoLeadingZero(Value(init));
      assert s == init + [s[|s| - 1]];
    }
  }

  function Pow10(k: nat): nat {
    if k == 0 then 1 else 10 * Pow10(k - 1)
  }

  lemma {:induction false} DigitsLength(n: nat, k: nat)
    requires k >= 1 && n < Pow10(k)
    ensures |Digits(n)| <= k
  {
    if n >= 10 { DigitsLength(n / 10, k - 1); }
  }

  /** An i64 prints in at most twenty bytes. */
  lemma PrintLength(n: i64)
    ensures |Print(n)| <= 20
  {
    assert Pow10(5) == 100000;
    assert Pow10(10) == 100000 * Pow10(5);
    assert Pow10(15) == 100000 * Pow10(10);
    assert Pow10(19) == 10000 * Pow10(15);
    var m: int := n;
    DigitsLength(if m < 0 then -m else m, 19);
  }
}
