/** Decimal numerals: digits of a number, the number of digits, and dropping low digits. */
module Decimal {
  import opened Wire

  const ZERO: byte := '0' as int
  const NINE: byte := '9' as int

  function Pow10(k: nat): (p: nat)
    ensures p > 0
  {
    if k == 0 then 1 else 10 * Pow10(k - 1)
  }

  /** Digits of numbers up to base 16. */
  function HexDigit(v: nat, upper: bool): byte
    requires v < 16
  {
    if v < 10 then ZERO + v else (if upper then 'A' as int else 'a' as int) + (v - 10)
  }

  // 0 to 9, then a to f or A to F
  const LOWER_DIGITS: bytes :=
    [0x30, 0x31, 0x32, 0x33, 0x34, 0x35, 0x36, 0x37, 0x38, 0x39, 0x61, 0x62, 0x63, 0x64, 0x65, 0x66]
  const UPPER_DIGITS: bytes :=
    [0x30, 0x31, 0x32, 0x33, 0x34, 0x35, 0x36, 0x37, 0x38, 0x39, 0x41, 0x42, 0x43, 0x44, 0x45, 0x46]

  lemma HexDigitIs(v: nat, upper: bool)
    requires v < 16
    ensures HexDigit(v, upper) == (if upper then UPPER_DIGITS else LOWER_DIGITS)[v]
  {
  }

  predicate IsDigit(c: byte) { ZERO <= c <= NINE }

  predicate AllDigits(s: bytes) { forall k | 0 <= k < |s| :: IsDigit(s[k]) }

  /** The digits of `n`, no leading zeros. */
  function Digits(n: nat): (s: bytes)
    ensures |s| > 0 && AllDigits(s) && (n > 0 ==> s[0] != ZERO)
  {
    if n < 10 then [ZERO + n] else Digits(n / 10) + [ZERO + n % 10]
  }

  /** The number digits stand for. */
  function Number(s: bytes): int {
    if s == [] then 0 else Number(s[..|s| - 1]) * 10 + (s[|s| - 1] - ZERO)
  }

  lemma {:induction false} DigitsNumber(n: nat)
    ensures Number(Digits(n)) == n
  {
    if n >= 10 {
      DigitsNumber(n / 10);
      assert Digits(n)[..|Digits(n)| - 1] == Digits(n / 10);
    } else {
      assert Number(Digits(n)[..0]) == 0;
    }
  }

  lemma {:induction false} NumberDigits(s: bytes)
    requires AllDigits(s) && s != [] && (|s| == 1 || s[0] != ZERO)
    ensures Number(s) >= 0 && Digits(Number(s)) == s && (|s| > 1 ==> Number(s) > 0)
    decreases |s|
  {
    var init := s[..|s| - 1];
    if |s| == 1 {
      assert Number(init) == 0;
      assert s == [s[0]];
    } else {
      NumberDigits(init);
      assert s == init + [s[|s| - 1]];
    }
  }

  lemma {:induction false} DigitCount(n: nat, k: nat)
    requires k > 0
    ensures |Digits(n)| <= k <==> n < Pow10(k)
    decreases k
  {
    if k > 1 && n >= 10 {
      DigitCount(n / 10, k - 1);
    } else if k == 1 {
      assert Pow10(1) == 10 * Pow10(0);
    } else {
      assert Pow10(k) == 10 * Pow10(k - 1);
      Pow10AtLeast(k - 1);
    }
  }

  lemma {:induction false} Pow10AtLeast(k: nat)
    requires k > 0
    ensures Pow10(k) >= 10
  {
    if k > 1 {
      Pow10AtLeast(k - 1);
    }
  }

  lemma {:induction false} Pow10Add(j: nat, k: nat)
    ensures Pow10(j + k) == Pow10(j) * Pow10(k)
  {
    if j > 0 {
      Pow10Add(j - 1, k);
      assert j + k - 1 == j - 1 + k;
      TimesTen(Pow10(j - 1), Pow10(k));
    }
  }

  lemma TimesTen(x: nat, y: nat)
    ensures 10 * (x * y) == (10 * x) * y
  {
  }

  /** `n` without its `k` lowest digits. */
  function Drop(n: nat, k: nat): nat
    decreases k
  {
    if k == 0 then n else Drop(n / 10, k - 1)
  }

  lemma {:induction false} DropBounds(n: nat, k: nat)
    ensures Drop(n, k) * Pow10(k) <= n < (Drop(n, k) + 1) * Pow10(k)
    decreases k
  {
    if k > 0 {
      DropBounds(n / 10, k - 1);
      TenTimes(n, Drop(n, k), Pow10(k - 1));
    }
  }

  lemma TenTimes(n: nat, q: nat, p: nat)
    requires q * p <= n / 10 < (q + 1) * p
    ensures q * (10 * p) <= n < (q + 1) * (10 * p)
  {
    assert q * (10 * p) == 10 * (q * p) && (q + 1) * (10 * p) == 10 * ((q + 1) * p);
  }

  /** Taking leading digits is dropping the others. */
  lemma {:induction false} LeadingDigits(n: nat, k: nat)
    requires k < |Digits(n)|
    ensures Digits(n)[..|Digits(n)| - k] == Digits(Drop(n, k))
    decreases k
  {
    if k > 0 {
      LeadingDigits(n / 10, k - 1);
      assert Digits(n)[..|Digits(n)| - 1] == Digits(n / 10);
      assert Digits(n)[..|Digits(n)| - k] == Digits(n)[..|Digits(n)| - 1][..|Digits(n)| - k];
    }
  }

  /** Changing one digit changes the number by its place. */
  lemma {:induction false} NumberUpdate(s: bytes, k: nat, c: byte)
    requires k < |s|
    ensures Number(s[k := c]) == Number(s) + (c - s[k]) * Pow10(|s| - 1 - k)
    decreases |s|
  {
    var init := s[..|s| - 1];
    if k == |s| - 1 {
      assert s[k := c][..|s| - 1] == init;
    } else {
      assert s[k := c][..|s| - 1] == init[k := c];
      NumberUpdate(init, k, c);
      var p := Pow10(|s| - 2 - k);
      assert (c - s[k]) * (10 * p) == 10 * ((c - s[k]) * p);
    }
  }

  lemma {:induction false} LeadingZero(s: bytes)
    ensures Number([ZERO] + s) == Number(s)
    decreases |s|
  {
    var z := [ZERO] + s;
    if s == [] {
      assert z[..|z| - 1] == [];
    } else {
      LeadingZero(s[..|s| - 1]);
      assert z[..|z| - 1] == [ZERO] + s[..|s| - 1];
    }
  }

  /** Length of the run of digits at the front. */
  function Run(s: bytes): (n: nat)
    ensures n <= |s|
  {
    if s == [] || !IsDigit(s[0]) then 0 else 1 + Run(s[1..])
  }

  lemma {:induction false} RunOf(ds: bytes, rest: bytes)
    requires AllDigits(ds) && (rest == [] || !IsDigit(rest[0]))
    ensures Run(ds + rest) == |ds|
  {
    if ds == [] {
      assert ds + rest == rest;
    } else {
      assert (ds + rest)[1..] == ds[1..] + rest;
      RunOf(ds[1..], rest);
    }
  }
}
