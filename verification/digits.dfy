/**
  Decimal text: the value of a digit string, zero-padded rendering (what
  `strftime` writes for `%Y` and `%m`), plain rendering (`str(n)`), and the
  subset of Python's `int(text)` the analyser exercises.
 */
module Digits {
  import opened Wrappers
  import opened Seqs

  predicate IsDigit(c: char) { '0' <= c <= '9' }

  predicate AllDigits(s: string) {
    forall i :: 0 <= i < |s| ==> IsDigit(s[i])
  }

  function DigitOf(c: char): nat
    requires IsDigit(c)
  {
    c as int - '0' as int
  }

  function CharOf(d: nat): (c: char)
    requires d < 10
    ensures IsDigit(c) && DigitOf(c) == d
  {
    ('0' as int + d) as char
  }

  function Pow10(w: nat): (p: nat)
    ensures p >= 1
  {
    if w == 0 then 1 else 10 * Pow10(w - 1)
  }

  /** The number a digit string denotes, most significant digit first. */
  function Value(s: string): (n: nat)
    requires AllDigits(s)
    ensures n < Pow10(|s|)
    decreases |s|
  {
    if s == [] then 0 else Value(s[..|s| - 1]) * 10 + DigitOf(s[|s| - 1])
  }

  /** `n` written with exactly `w` digits, zero-padded on the left. */
  function Pad(n: nat, w: nat): (s: string)
    ensures |s| == w && AllDigits(s)
    decreases w
  {
    if w == 0 then [] else Pad(n / 10, w - 1) + [CharOf(n % 10)]
  }

  /** `str(n)` for a natural number: no leading zeros. */
  function Decimal(n: nat): (s: string)
    ensures |s| >= 1 && AllDigits(s)
    decreases n
  {
    if n < 10 then [CharOf(n)] else Decimal(n / 10) + [CharOf(n % 10)]
  }

  /** `str(n)` for any integer. */
  function IntText(n: int): string {
    if n < 0 then "-" + Decimal(-n) else Decimal(n)
  }

  /** `int(text)`: an optional sign followed by ASCII digits; anything else raises `ValueError`. */
  function ParseInt(s: string): (r: Option<int>)
    ensures |s| > 0 && AllDigits(s) ==> r == Some(Value(s))
    ensures |s| >= 2 && s[0] == '-' && AllDigits(s[1..]) ==> r == Some(-(Value(s[1..]) as int))
    ensures |s| >= 2 && s[0] == '+' && AllDigits(s[1..]) ==> r == Some(Value(s[1..]))
    ensures r.Some? ==>
              (|s| >= 1 && AllDigits(s)) ||
              (|s| >= 2 && (s[0] == '+' || s[0] == '-') && AllDigits(s[1..]))
  {
    if |s| >= 2 && (s[0] == '+' || s[0] == '-') && AllDigits(s[1..]) then
      var magnitude: int := Value(s[1..]);
      Some(if s[0] == '-' then -magnitude else magnitude)
    else if |s| >= 1 && AllDigits(s) then Some(Value(s))
    else None
  }

  lemma {:induction false} PadValue(n: nat, w: nat)
    requires n < Pow10(w)
    ensures Value(Pad(n, w)) == n
    decreases w
  {
    if w > 0 {
      PadValue(n / 10, w - 1);
      var s := Pad(n, w);
      assert s[..|s| - 1] == Pad(n / 10, w - 1);
    }
  }

  /** Reading a digit string and writing it back at the same width gives it back. */
  lemma {:induction false} ValuePad(s: string)
    requires AllDigits(s)
    ensures Pad(Value(s), |s|) == s
    decreases |s|
  {
    if s != [] {
      var init := s[..|s| - 1];
      ValuePad(init);
      var n := Value(s);
      assert n / 10 == Value(init) && n % 10 == DigitOf(s[|s| - 1]);
      assert CharOf(DigitOf(s[|s| - 1])) == s[|s| - 1];
      assert s == init + [s[|s| - 1]];
    }
  }

  lemma {:induction false} DecimalValue(n: nat)
    ensures Value(Decimal(n)) == n
    decreases n
  {
    if n >= 10 {
      DecimalValue(n / 10);
      var s := Decimal(n);
      assert s[..|s| - 1] == Decimal(n / 10);
    }
  }

  /** `int(str(n)) == n`. */
  lemma ParseIntText(n: int)
    ensures ParseInt(IntText(n)) == Some(n)
  {
    var text := IntText(n);
    if n < 0 {
      DecimalValue(-n);
      assert text[0] == '-' && text[1..] == Decimal(-n);
    } else {
      DecimalValue(n);
      assert text == Decimal(n) && IsDigit(text[0]);
    }
  }

  /** For a number with exactly `w` digits, `str(n)` and the `w`-wide padding agree. */
  lemma {:induction false} DecimalIsPad(n: nat, w: nat)
    requires w >= 1 && Pow10(w - 1) <= n < Pow10(w)
    ensures Decimal(n) == Pad(n, w)
    decreases w
  {
    if w == 1 {
      assert n < 10;
      assert Pad(n, 1) == Pad(n / 10, 0) + [CharOf(n % 10)];
    } else {
      assert n >= 10;
      DecimalIsPad(n / 10, w - 1);
    }
  }

  lemma {:induction false} PadInjective(n: nat, m: nat, w: nat)
    requires n < Pow10(w) && m < Pow10(w)
    ensures Pad(n, w) == Pad(m, w) <==> n == m
  {
    PadValue(n, w);
    PadValue(m, w);
  }

  /** Zero-padded numbers of one width compare as text exactly as they compare as numbers. */
  lemma {:induction false} PadOrder(n: nat, m: nat, w: nat)
    requires n < Pow10(w) && m < Pow10(w)
    ensures StrLt(Pad(n, w), Pad(m, w)) <==> n < m
    decreases w
  {
    if w == 0 {
      assert n == 0 && m == 0;
    } else {
      var a1, b1 := Pad(n / 10, w - 1), Pad(m / 10, w - 1);
      var a2, b2 := [CharOf(n % 10)], [CharOf(m % 10)];
      LexConcat(a1, a2, b1, b2, CharLt);
      PadOrder(n / 10, m / 10, w - 1);
      PadInjective(n / 10, m / 10, w - 1);
      assert Lex(a2, b2, CharLt) <==> n % 10 < m % 10;
    }
  }
}
