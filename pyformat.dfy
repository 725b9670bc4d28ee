/** Python's decimal rendering of integers: `str(n)` and the zero-padded
    `format(n, '0<width>')`, with the value a digit string denotes. */
module PyFormat {
  import opened PyStr

  predicate IsDigit(c: char)
  {
    '0' <= c <= '9'
  }

  predicate AllDigits(s: string)
  {
    forall i :: 0 <= i < |s| ==> IsDigit(s[i])
  }

  function DigitChar(d: nat): (c: char)
    requires d < 10
    ensures IsDigit(c)
  {
    ('0' as int + d) as char
  }

  function DigitValue(c: char): nat
    requires IsDigit(c)
  {
    c as int - '0' as int
  }

  function Pow10(k: nat): (r: nat)
    ensures r >= 1
  {
    if k == 0 then 1 else 10 * Pow10(k - 1)
  }

  /** `str(n)` for a non-negative integer: decimal digits, no leading zero. */
  function NatToString(n: nat): (r: string)
    ensures |r| >= 1 && AllDigits(r)
    ensures r[0] == '0' ==> n == 0
  {
    if n < 10 then [DigitChar(n)] else NatToString(n / 10) + [DigitChar(n % 10)]
  }

  /** `str(n)` for any integer. */
  function IntToString(n: int): string
  {
    if n < 0 then "-" + NatToString(-n) else NatToString(n)
  }

  /** The number a string of decimal digits denotes (leading zeros allowed). */
  function DigitsValue(s: string): nat
    requires AllDigits(s)
  {
    if s == [] then 0 else DigitsValue(s[..|s| - 1]) * 10 + DigitValue(s[|s| - 1])
  }

  function Zeros(k: nat): (r: string)
    ensures |r| == k && AllDigits(r)
  {
    seq(k, _ => '0')
  }

  /** `format(n, '0<width>')`: `str(n)`, left-filled with zeros up to `width`
      characters, never truncated. */
  function ZeroPad(n: nat, width: int): string
  {
    var s := NatToString(n);
    if |s| >= width then s else Zeros(width - |s|) + s
  }

  /** Reading back the digits of `str(n)` gives `n`. */
  lemma {:induction false} NatToStringValue(n: nat)
    ensures DigitsValue(NatToString(n)) == n
  {
    if n >= 10 {
      NatToStringValue(n / 10);
      var s := NatToString(n);
      assert s[..|s| - 1] == NatToString(n / 10);
    }
  }

  /** `str(n)` has `d` digits exactly when 10^(d-1) <= n < 10^d. */
  lemma {:induction false} NatToStringLength(n: nat)
    requires n >= 1
    ensures Pow10(|NatToString(n)| - 1) <= n < Pow10(|NatToString(n)|)
  {
    if n >= 10 {
      NatToStringLength(n / 10);
      var k := |NatToString(n / 10)|;
      assert |NatToString(n)| == k + 1;
      assert Pow10(k) == 10 * Pow10(k - 1);
      assert Pow10(k + 1) == 10 * Pow10(k);
    }
  }

  /** A larger number never has fewer digits. */
  lemma {:induction false} NatToStringLengthMonotone(m: nat, n: nat)
    requires m <= n
    ensures |NatToString(m)| <= |NatToString(n)|
  {
    if m >= 10 {
      NatToStringLengthMonotone(m / 10, n / 10);
    }
  }

  lemma {:induction false} DigitsValueBound(s: string)
    requires AllDigits(s)
    ensures DigitsValue(s) < Pow10(|s|)
  {
    if s != [] {
      DigitsValueBound(s[..|s| - 1]);
    }
  }

  /** The value of `x + y` is that of `x` shifted by `|y|` digits plus that of `y`. */
  lemma {:induction false} DigitsValueConcat(x: string, y: string)
    requires AllDigits(x) && AllDigits(y)
    ensures AllDigits(x + y)
    ensures DigitsValue(x + y) == DigitsValue(x) * Pow10(|y|) + DigitsValue(y)
  {
    assert AllDigits(x + y) by {
      forall i | 0 <= i < |x + y| ensures IsDigit((x + y)[i]) {
        if i >= |x| { assert (x + y)[i] == y[i - |x|]; }
      }
    }
    if y == [] {
      assert x + y == x;
    } else {
      var y' := y[..|y| - 1];
      var d := DigitValue(y[|y| - 1]);
      DigitsValueConcat(x, y');
      assert (x + y)[..|x + y| - 1] == x + y';
      var vx, vy', p := DigitsValue(x), DigitsValue(y'), Pow10(|y'|);
      assert DigitsValue(x + y) == DigitsValue(x + y') * 10 + d;
      assert DigitsValue(x + y') == vx * p + vy';
      assert DigitsValue(y) == vy' * 10 + d;
      assert Pow10(|y|) == 10 * p;
      Distribute(vx, p, vy', d);
    }
  }

  lemma Distribute(a: int, b: int, c: int, d: int)
    ensures (a * b + c) * 10 + d == a * (10 * b) + (c * 10 + d)
  {
  }

  lemma {:induction false} ZerosValue(k: nat)
    ensures DigitsValue(Zeros(k)) == 0
  {
    if k > 0 {
      ZerosValue(k - 1);
      assert Zeros(k)[..k - 1] == Zeros(k - 1);
    }
  }

  /** `format(n, '0<width>')` is `width` long unless `str(n)` is longer, is
      all digits, and still denotes `n`. */
  lemma ZeroPadFacts(n: nat, width: int)
    ensures |ZeroPad(n, width)| == if width > |NatToString(n)| then width else |NatToString(n)|
    ensures AllDigits(ZeroPad(n, width))
    ensures DigitsValue(ZeroPad(n, width)) == n
  {
    var s := NatToString(n);
    NatToStringValue(n);
    if |s| < width {
      var z := Zeros(width - |s|);
      DigitsValueConcat(z, s);
      ZerosValue(width - |s|);
      var p := Pow10(|s|);
      assert DigitsValue(z + s) == 0 * p + n;
    }
  }

  /** Among equally long digit strings, string order is numeric order. */
  lemma {:induction false} DigitsOrder(a: string, b: string)
    requires AllDigits(a) && AllDigits(b) && |a| == |b|
    ensures StrLt(a, b) <==> DigitsValue(a) < DigitsValue(b)
  {
    if a != [] {
      var a', b' := a[1..], b[1..];
      var p := Pow10(|a'|);
      DigitsValueConcat([a[0]], a');
      DigitsValueConcat([b[0]], b');
      assert a == [a[0]] + a' && b == [b[0]] + b';
      assert DigitsValue([a[0]]) == DigitValue(a[0]) by { assert [a[0]][..0] == []; }
      assert DigitsValue([b[0]]) == DigitValue(b[0]) by { assert [b[0]][..0] == []; }
      var da, db := DigitValue(a[0]), DigitValue(b[0]);
      assert DigitsValue(a) == da * p + DigitsValue(a');
      assert DigitsValue(b) == db * p + DigitsValue(b');
      DigitsValueBound(a');
      DigitsValueBound(b');
      if a[0] == b[0] {
        DigitsOrder(a', b');
      } else if a[0] < b[0] {
        ScaledLess(da, db, p, DigitsValue(a'), DigitsValue(b'));
      } else {
        ScaledLess(db, da, p, DigitsValue(b'), DigitsValue(a'));
      }
    }
  }

  /** A smaller leading digit wins whatever follows it. */
  lemma ScaledLess(da: nat, db: nat, p: nat, ra: nat, rb: nat)
    requires da < db && ra < p
    ensures da * p + ra < db * p + rb
  {
    assert (da + 1) * p <= db * p;
  }
}
