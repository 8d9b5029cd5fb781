/** Decimal digit strings: reading them as Python's `int()` does and writing
    natural numbers back as `str()` and `'%0*d'` do. Only the ASCII digits are modelled. */
module Decimal {

  predicate IsDigit(c: char) {
    '0' <= c <= '9'
  }

  predicate AllDigits(s: string) {
    forall i :: 0 <= i < |s| ==> IsDigit(s[i])
  }

  function DigitValue(c: char): nat
    requires IsDigit(c)
  {
    c as int - '0' as int
  }

  function DigitChar(d: nat): (c: char)
    requires d < 10
    ensures IsDigit(c) && DigitValue(c) == d
  {
    ('0' as int + d) as char
  }

  /** The number a digit string denotes, most significant digit first. */
  function Value(s: string): nat
    requires AllDigits(s)
  {
    if |s| == 0 then 0 else Value(s[..|s| - 1]) * 10 + DigitValue(s[|s| - 1])
  }

  function Pow10(k: nat): (p: nat)
    ensures p >= 1
  {
    if k == 0 then 1 else 10 * Pow10(k - 1)
  }

  /** `str(n)`: the shortest decimal spelling of `n`. */
  function Show(n: nat): (r: string)
    ensures |r| >= 1 && AllDigits(r)
    ensures Value(r) == n
    ensures |r| > 1 ==> r[0] != '0'
    ensures n < Pow10(|r|) && (|r| > 1 ==> Pow10(|r| - 1) <= n)
  {
    if n < 10 then [DigitChar(n)]
    else
      var r := Show(n / 10) + [DigitChar(n % 10)];
      assert r[..|r| - 1] == Show(n / 10);
      r
  }

  function Zeros(k: nat): (z: string)
    ensures |z| == k && AllDigits(z)
    ensures forall i :: 0 <= i < k ==> z[i] == '0'
  {
    if k == 0 then [] else Zeros(k - 1) + ['0']
  }

  /** `'%0wd' % n`: `str(n)` padded on the left with zeros to at least `w` characters. */
  function Pad(n: nat, w: nat): (r: string)
    ensures AllDigits(r) && Value(r) == n
    ensures 1 <= w && n < Pow10(w) ==> |r| == w
    ensures |r| >= w
  {
    var s := Show(n);
    ShowShortIfSmall(n, w);
    if |s| < w then
      LeadingZerosAddNothing(Zeros(w - |s|), s);
      Zeros(w - |s|) + s
    else s
  }

  /** A number below `10^w` needs at most `w` digits. */
  lemma ShowShortIfSmall(n: nat, w: nat)
    ensures 1 <= w && n < Pow10(w) ==> |Show(n)| <= w
  {
    if 1 <= w && n < Pow10(w) && |Show(n)| > w {
      Pow10Monotone(w, |Show(n)| - 1);
    }
  }

  lemma {:induction false} Pow10Monotone(a: nat, b: nat)
    requires a <= b
    ensures Pow10(a) <= Pow10(b)
  {
    if a < b {
      Pow10Monotone(a, b - 1);
    }
  }

  /** Leading zeros do not change the value of a digit string. */
  lemma {:induction false} LeadingZerosAddNothing(z: string, s: string)
    requires AllDigits(z) && AllDigits(s)
    requires forall i :: 0 <= i < |z| ==> z[i] == '0'
    ensures AllDigits(z + s) && Value(z + s) == Value(s)
    decreases |s|
  {
    assert AllDigits(z + s) by {
      forall i | 0 <= i < |z + s| ensures IsDigit((z + s)[i]) {
        if i < |z| { assert (z + s)[i] == z[i]; } else { assert (z + s)[i] == s[i - |z|]; }
      }
    }
    if |s| == 0 {
      assert z + s == z;
      ZerosAreZero(z);
    } else {
      var s' := s[..|s| - 1];
      assert (z + s)[..|z + s| - 1] == z + s';
      LeadingZerosAddNothing(z, s');
    }
  }

  lemma {:induction false} ZerosAreZero(z: string)
    requires AllDigits(z)
    requires forall i :: 0 <= i < |z| ==> z[i] == '0'
    ensures Value(z) == 0
  {
    if |z| > 0 {
      ZerosAreZero(z[..|z| - 1]);
    }
  }
}
