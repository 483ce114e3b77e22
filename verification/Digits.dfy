/** Decimal notation: the canonical digits of a number, and reading digits back. */
module Digits {
  import opened Text

  const ZERO: byte := 48
  const BLANK: byte := 32

  function Digit(d: int): byte
    requires 0 <= d < 10
  {
    (48 + d) as byte
  }

  function Decimal(n: nat): (s: Str)
    ensures |s| >= 1
  {
    if n < 10 then [Digit(n)] else Decimal(n / 10) + [Digit(n % 10)]
  }

  /** A digit's value; padding counts as zero. */
  function DigitValue(c: byte): int {
    if 48 <= c <= 57 then c as int - 48 else 0
  }

  function Value(s: Str): int {
    if s == [] then 0 else 10 * Value(s[..|s| - 1]) + DigitValue(s[|s| - 1])
  }

  function Pow10(k: nat): (p: int)
    ensures p >= 1
  {
    if k == 0 then 1 else 10 * Pow10(k - 1)
  }

  predicate IsDigit(c: byte) {
    48 <= c <= 57
  }

  /** Digits only, and no zero in front of others. */
  predicate Canonical(s: Str) {
    && s != []
    && (forall k :: 0 <= k < |s| ==> IsDigit(s[k]))
    && (s[0] == ZERO ==> |s| == 1)
  }

  lemma {:induction false} DecimalIsCanonical(n: nat)
    ensures Canonical(Decimal(n)) && Value(Decimal(n)) == n
    ensures Decimal(n)[0] == ZERO <==> n == 0
  {
    if n >= 10 {
      DecimalIsCanonical(n / 10);
      assert Decimal(n)[..|Decimal(n)| - 1] == Decimal(n / 10);
    } else {
      assert Value([]) == 0;
      assert Decimal(n)[..0] == [];
    }
  }

  /** The digits are the ten characters, each with the value of its place. */
  lemma DigitsMean(c: byte)
    ensures IsDigit(c) <==> c as int as char in "0123456789"
    ensures forall d: nat :: d < 10 && c as int as char == "0123456789"[d] ==> DigitValue(c) == d && c == Digit(d)
    ensures ZERO as int as char == '0' && BLANK as int as char == ' '
  {
  }

  /** There is one canonical notation for each number. */
  lemma {:induction false} DecimalOfValue(s: Str)
    requires Canonical(s)
    ensures Value(s) >= 0 && Decimal(Value(s)) == s
    ensures Value(s) == 0 ==> s == [ZERO]
  {
    var init, last := s[..|s| - 1], s[|s| - 1];
    assert IsDigit(last);
    assert s == init + [last];
    if init == [] {
      assert Value(s) == DigitValue(last);
    } else {
      assert forall k :: 0 <= k < |init| ==> init[k] == s[k];
      DecimalOfValue(init);
      assert Value(s) / 10 == Value(init) && Value(s) % 10 == DigitValue(last);
    }
  }

  lemma {:induction false} DecimalLength(n: nat, k: nat)
    requires k >= 1 && n < Pow10(k)
    ensures |Decimal(n)| <= k
  {
    if n >= 10 {
      assert Pow10(1) == 10 * Pow10(0);
      assert n / 10 < Pow10(k - 1);
      DecimalLength(n / 10, k - 1);
    }
  }

  // ---- Fixed width ----

  /** n places, right-aligned; places the number does not reach hold the padding. */
  function Padded(n: nat, d: int, pad: byte): (s: Str)
    ensures |s| == n
  {
    if n == 0 then []
    else if d > 0 then Padded(n - 1, d / 10, pad) + [Digit(d % 10)]
    else Padded(n - 1, 0, pad) + [pad]
  }

  lemma ModStep(d: nat, p: int)
    requires p > 0
    ensures d % (10 * p) == 10 * (d / 10 % p) + d % 10
  {
    var q := d / 10;
    var a, b := q / p, q % p;
    assert q == a * p + b;
    assert d == 10 * (a * p + b) + d % 10 == a * (10 * p) + (10 * b + d % 10);
    ModUnique(d, 10 * p, a, 10 * b + d % 10);
  }

  lemma ModUnique(d: int, m: int, a: int, x: int)
    requires 0 <= x < m && d == a * m + x
    ensures d % m == x
  {
    var q, r := d / m, d % m;
    assert d == q * m + r;
    assert (q - a) * m == x - r;
    MultipleIsZero(q - a, m, x - r);
  }

  lemma MultipleIsZero(k: int, m: int, y: int)
    requires k * m == y && -m < y < m
    ensures y == 0
  {
    assert k >= 1 ==> k * m >= m;
    assert k <= -1 ==> k * m <= -m;
  }

  /** A fixed-width field reads back as the number's last n digits, zero- or blank-padded alike. */
  lemma {:induction false} PaddedReadsBack(n: nat, d: nat, pad: byte)
    requires pad == ZERO || pad == BLANK
    ensures Value(Padded(n, d, pad)) == d % Pow10(n)
  {
    if n > 0 {
      var s := Padded(n, d, pad);
      var d' := if d > 0 then d / 10 else 0;
      PaddedReadsBack(n - 1, d', pad);
      assert s[..n - 1] == Padded(n - 1, d', pad);
      ModStep(d, Pow10(n - 1));
    }
  }

  function Repeat(c: byte, n: nat): (s: Str)
    ensures |s| == n
  {
    if n == 0 then [] else Repeat(c, n - 1) + [c]
  }

  lemma {:induction false} PaddedZero(n: nat, pad: byte)
    ensures Padded(n, 0, pad) == Repeat(pad, n)
  {
    if n > 0 {
      PaddedZero(n - 1, pad);
    }
  }

  /** When the number fits, the field is padding and then its canonical notation (padding only,
      for zero). */
  lemma {:induction false} PaddedAligns(n: nat, d: int, pad: byte)
    requires 0 < d < Pow10(n)
    ensures |Decimal(d)| <= n && Padded(n, d, pad) == Repeat(pad, n - |Decimal(d)|) + Decimal(d)
  {
    if d < 10 {
      PaddedZero(n - 1, pad);
    } else {
      assert d / 10 < Pow10(n - 1);
      PaddedAligns(n - 1, d / 10, pad);
      Assoc(Repeat(pad, n - |Decimal(d)|), Decimal(d / 10), [Digit(d % 10)]);
    }
  }
}
