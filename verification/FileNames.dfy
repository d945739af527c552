/** Names of rotated files: a number, zero-padded, between a prefix and a suffix. */
module FileNames {
  import opened Wire
  import opened Rules
  import Decimal

  /** What a file name pattern is split into. `width` and `radix` are the number's format. */
  datatype Pattern = Pattern(pref: bytes, suff: bytes, width: nat, radix: nat, upper: bool) {
    predicate Valid() { width > 0 && radix in {10, 16} }
  }

  function Power(r: nat, k: nat): nat {
    if k == 0 then 1 else r * Power(r, k - 1)
  }

  predicate Fits(p: Pattern, n: nat) { n < Power(p.radix, p.width) }

  /** The number with at least `w` digits. */
  function Padded(n: nat, w: nat, p: Pattern): bytes
    requires p.Valid()
    decreases w + n
  {
    if w == 0 && n == 0 then []
    else Padded(n / p.radix, if w == 0 then 0 else w - 1, p) + [Decimal.HexDigit(n % p.radix, p.upper)]
  }

  function Name(p: Pattern, n: nat): bytes
    requires p.Valid()
  {
    p.pref + Padded(n, p.width, p) + p.suff
  }

  predicate Before(x: bytes, y: bytes) { CmpBytes(x, y) < 0 }

  // ----- names sort as their numbers -----

  function Order(m: int, n: int, tie: int): int { if m < n then -1 else if m > n then 1 else tie }

  lemma {:induction false} PaddedOrder(p: Pattern, w: nat, m: nat, n: nat, x: bytes, y: bytes)
    requires p.Valid() && m < Power(p.radix, w) && n < Power(p.radix, w)
    ensures CmpBytes(Padded(m, w, p) + x, Padded(n, w, p) + y) == Order(m, n, CmpBytes(x, y))
    decreases w
  {
    if w == 0 {
      assert [] + x == x && [] + y == y;
    } else {
      var r := p.radix;
      var dx, dy := [Decimal.HexDigit(m % r, p.upper)] + x, [Decimal.HexDigit(n % r, p.upper)] + y;
      PaddedOrder(p, w - 1, m / r, n / r, dx, dy);
      assert Padded(m, w, p) + x == Padded(m / r, w - 1, p) + dx;
      assert Padded(n, w, p) + y == Padded(n / r, w - 1, p) + dy;
      assert dx[1..] == x && dy[1..] == y;
    }
  }

  lemma {:induction false} SamePrefix(pref: bytes, x: bytes, y: bytes)
    ensures CmpBytes(pref + x, pref + y) == CmpBytes(x, y)
  {
    if pref == [] {
      assert pref + x == x && pref + y == y;
    } else {
      assert (pref + x)[1..] == pref[1..] + x && (pref + y)[1..] == pref[1..] + y;
      SamePrefix(pref[1..], x, y);
    }
  }

  lemma NameOrder(p: Pattern, m: nat, n: nat)
    requires p.Valid() && Fits(p, m) && Fits(p, n)
    ensures CmpBytes(Name(p, m), Name(p, n)) == Order(m, n, 0)
  {
    hide CmpBytes, Padded;
    PaddedOrder(p, p.width, m, n, p.suff, p.suff);
    SamePrefix(p.pref, Padded(m, p.width, p) + p.suff, Padded(n, p.width, p) + p.suff);
    Assoc(p.pref, Padded(m, p.width, p), p.suff);
    Assoc(p.pref, Padded(n, p.width, p), p.suff);
    CmpBytesOrder(p.suff, p.suff, p.suff);
  }

  /** The first digit of the last number that fits, and of the next one. */
  lemma {:induction false} FirstDigits(p: Pattern, w: nat)
    requires p.Valid() && w > 0
    ensures Power(p.radix, w) > 0
    ensures var x := Padded(Power(p.radix, w) - 1, w, p); x != [] && x[0] == Decimal.HexDigit(p.radix - 1, p.upper)
    ensures var y := Padded(Power(p.radix, w), w, p); y != [] && y[0] == '1' as int
    decreases w
  {
    hide Padded;
    var r := p.radix;
    var n := Power(r, w);
    LastDigitOff(p, n, w);
    if w == 1 {
      assert n == r * Power(r, 0) == r;
      LastDigitOff(p, n - 1, w);
      NoDigits(p);
      OneDigit(p);
    } else {
      FirstDigits(p, w - 1);
      Quotients(r, Power(r, w - 1));
      LastDigitOff(p, n - 1, w);
    }
  }

  lemma OneDigit(p: Pattern)
    requires p.Valid()
    ensures Padded(1, 0, p) == ['1' as int]
  {
    assert Padded(1, 0, p) == Padded(0, 0, p) + [Decimal.HexDigit(1, p.upper)];
  }

  lemma Quotients(r: nat, q: nat)
    requires r in {10, 16} && q > 0
    ensures (r * q - 1) / r == q - 1 && (r * q - 2) / r == q - 1 && r * q / r == q && r * q > 0
  {
  }

  /** Names of all numbers up to a bound sort as the numbers do exactly when the bound fits the padded width. */
  lemma NamesSortIffFit(p: Pattern, bound: nat)
    requires p.Valid()
    ensures (forall m: nat, n: nat | m < n <= bound :: Before(Name(p, m), Name(p, n))) <==> Fits(p, bound)
  {
    hide CmpBytes, Name, Padded;
    if Fits(p, bound) {
      forall m: nat, n: nat | m < n <= bound
        ensures Before(Name(p, m), Name(p, n))
      {
        NameOrder(p, m, n);
      }
    } else {
      var n := Power(p.radix, p.width);
      FirstDigits(p, p.width);
      Overtaken(p);
      CmpBytesOrder(Name(p, n - 1), Name(p, n), []);
      assert n - 1 < n <= bound && !Before(Name(p, n - 1), Name(p, n));
    }
  }

  lemma Overtaken(p: Pattern)
    requires p.Valid() && Power(p.radix, p.width) > 0
    ensures Before(Name(p, Power(p.radix, p.width)), Name(p, Power(p.radix, p.width) - 1))
  {
    var n := Power(p.radix, p.width);
    FirstDigits(p, p.width);
    FirstCharOrder(p, Padded(n, p.width, p), Padded(n - 1, p.width, p));
  }

  // ----- names back to numbers -----

  /** The value of a digit; hexadecimal digits are read in either case. */
  function DigitValue(c: byte, radix: nat): Option<nat> {
    var v: int := if '0' as int <= c <= '9' as int then c - '0' as int
                  else if 'A' as int <= c <= 'F' as int then c - 'A' as int + 10
                  else if 'a' as int <= c <= 'f' as int then c - 'a' as int + 10
                  else radix;
    if v < radix then Some(v) else None
  }

  /** The characters that are digits, and their values. */
  lemma DigitsInBytes(p: Pattern, v: nat)
    requires p.Valid() && v < p.radix
    ensures DigitValue(Decimal.LOWER_DIGITS[v], p.radix) == DigitValue(Decimal.UPPER_DIGITS[v], p.radix) == Some(v)
  {
  }

  lemma OnlyDigits(c: byte, radix: nat)
    requires radix <= 16 && DigitValue(c, radix).Some?
    ensures c in Decimal.LOWER_DIGITS || c in Decimal.UPPER_DIGITS
  {
    if c < 0x3A {
      assert Decimal.LOWER_DIGITS[c - 0x30] == c;
    } else if c >= 0x61 {
      assert Decimal.LOWER_DIGITS[c - 0x57] == c;
    } else {
      assert Decimal.UPPER_DIGITS[c - 0x37] == c;
    }
  }

  /** The last character written for a number. */
  lemma LastDigit(p: Pattern, n: nat, w: nat)
    requires p.Valid() && w > 0
    ensures Padded(n, w, p) ==
            Padded(n / p.radix, w - 1, p)
            + [(if p.upper then Decimal.UPPER_DIGITS else Decimal.LOWER_DIGITS)[n % p.radix]]
  {
    hide Decimal.HexDigit;
    Decimal.HexDigitIs(n % p.radix, p.upper);
  }

  /** Digits at the front, `w` at most. */
  function Run(s: bytes, w: nat, radix: nat): (n: nat)
    ensures n <= |s| && n <= w
    ensures forall k | 0 <= k < n :: DigitValue(s[k], radix).Some?
    decreases w
  {
    if w == 0 || s == [] || DigitValue(s[0], radix).None? then 0 else 1 + Run(s[1..], w - 1, radix)
  }

  function Value(s: bytes, radix: nat): nat
    requires forall k | 0 <= k < |s| :: DigitValue(s[k], radix).Some?
  {
    if s == [] then 0 else Value(s[..|s| - 1], radix) * radix + DigitValue(s[|s| - 1], radix).value
  }

  /** Formatted input of one number: no digits is an error, what follows the digits is not. */
  function Scan(s: bytes, p: Pattern): Option<nat> {
    var n := Run(s, p.width, p.radix);
    if n == 0 then None else Some(Value(s[..n], p.radix))
  }

  const LATEST := Ascii("LATEST")

  /** `Panics`: the name is too short to hold both the prefix and the suffix, and is sliced out of bounds. */
  datatype Parsed = Numbered(num: nat) | NotNumbered | Panics

  predicate HasPrefix(s: bytes, x: bytes) { x <= s }
  predicate HasSuffix(s: bytes, x: bytes) { |x| <= |s| && s[|s| - |x|..] == x }

  function ParseName(p: Pattern, name: bytes): Parsed {
    if !HasPrefix(name, p.pref) || !HasSuffix(name, p.suff) || name == p.pref + LATEST + p.suff then NotNumbered
    else if |p.pref| > |name| - |p.suff| then Panics
    else match Scan(name[|p.pref|..|name| - |p.suff|], p)
      case None => NotNumbered
      case Some(n) => Numbered(n)
  }

  /** Reading a name panics exactly when prefix and suffix overlap in it. */
  lemma PanicsIffOverlap(p: Pattern, name: bytes)
    ensures ParseName(p, name) == Panics <==>
            HasPrefix(name, p.pref) && HasSuffix(name, p.suff) && |name| < |p.pref| + |p.suff|
  {
    var latest := p.pref + LATEST + p.suff;
    assert |latest| >= |p.pref| + |p.suff|;
  }

  /** With the prefix `app.` and the suffix `.log`, a file named `app.log` is such a name. */
  lemma OverlapExists(p: Pattern)
    requires p.pref == Ascii("app.") && p.suff == Ascii(".log")
    ensures ParseName(p, Ascii("app.log")) == Panics
  {
    var n := Ascii("app.log");
    assert n[..4] == p.pref && n[3..] == p.suff;
    PanicsIffOverlap(p, n);
  }

  /** Between prefix and suffix the digits at the front count, no more than the format is wide; the rest does not. */
  lemma {:induction false} DigitsThenRest(p: Pattern, ds: bytes, rest: bytes)
    requires p.Valid() && 0 < |ds| <= p.width && forall k | 0 <= k < |ds| :: DigitValue(ds[k], p.radix).Some?
    requires |ds| == p.width || rest == [] || DigitValue(rest[0], p.radix) == None
    ensures ParseName(p, p.pref + (ds + rest) + p.suff) == Numbered(Value(ds, p.radix))
  {
    hide DigitValue, Value, Scan, HasPrefix, HasSuffix;
    Between(p.pref, ds + rest, p.suff);
    NotLatest(ds[0], p.radix);
    assert (ds + rest)[0] == ds[0];
    ScanIs(p, ds, rest);
  }

  lemma Between(pref: bytes, uniq: bytes, suff: bytes)
    ensures var name := pref + uniq + suff;
            && HasPrefix(name, pref) && HasSuffix(name, suff) && name[|pref|..|name| - |suff|] == uniq
            && (name == pref + LATEST + suff ==> uniq == LATEST)
  {
    var name := pref + uniq + suff;
    assert name[..|pref|] == pref && name[|name| - |suff|..] == suff;
    if name == pref + LATEST + suff {
      assert uniq == name[|pref|..|name| - |suff|] == LATEST;
    }
  }

  lemma {:induction false} ScanIs(p: Pattern, ds: bytes, rest: bytes)
    requires 0 < |ds| <= p.width && forall k | 0 <= k < |ds| :: DigitValue(ds[k], p.radix).Some?
    requires |ds| == p.width || rest == [] || DigitValue(rest[0], p.radix) == None
    ensures Scan(ds + rest, p) == Some(Value(ds, p.radix))
  {
    hide DigitValue, Value, Run;
    RunIs(p, ds, rest, p.width);
    assert (ds + rest)[..|ds|] == ds;
  }

  lemma NotLatest(c: byte, radix: nat)
    requires DigitValue(c, radix).Some? && radix <= 16
    ensures c != LATEST[0]
  {
  }

  lemma {:induction false} RunIs(p: Pattern, ds: bytes, rest: bytes, w: nat)
    requires |ds| <= w && forall k | 0 <= k < |ds| :: DigitValue(ds[k], p.radix).Some?
    requires |ds| == w || rest == [] || DigitValue(rest[0], p.radix) == None
    ensures Run(ds + rest, w, p.radix) == |ds|
    decreases w
  {
    hide DigitValue;
    if ds == [] {
      assert ds + rest == rest;
    } else {
      assert (ds + rest)[1..] == ds[1..] + rest;
      RunIs(p, ds[1..], rest, w - 1);
    }
  }

  lemma {:induction false} PaddedLength(p: Pattern, w: nat, n: nat)
    requires p.Valid() && n < Power(p.radix, w)
    ensures |Padded(n, w, p)| == w
    ensures forall k | 0 <= k < w :: DigitValue(Padded(n, w, p)[k], p.radix).Some?
    ensures Value(Padded(n, w, p), p.radix) == n
    decreases w
  {
    hide DigitValue, Decimal.HexDigit;
    if w > 0 {
      var q := n / p.radix;
      OneDigitLess(p.radix, w, n);
      PaddedLength(p, w - 1, q);
      var s := Padded(n, w, p);
      assert s == Padded(q, w - 1, p) + [Decimal.HexDigit(n % p.radix, p.upper)];
      assert s[..w - 1] == Padded(q, w - 1, p);
      DigitRead(n % p.radix, p);
    }
  }

  lemma OneDigitLess(r: nat, w: nat, n: nat)
    requires r in {10, 16} && w > 0 && n < Power(r, w)
    ensures n / r < Power(r, w - 1) && n / r * r + n % r == n
  {
  }

  lemma DigitRead(v: nat, p: Pattern)
    requires p.Valid() && v < p.radix
    ensures DigitValue(Decimal.HexDigit(v, p.upper), p.radix) == Some(v)
  {
  }

  lemma {:induction false} RunOfDigits(s: bytes, w: nat, radix: nat)
    requires |s| == w && forall k | 0 <= k < w :: DigitValue(s[k], radix).Some?
    ensures Run(s, w, radix) == w
    decreases w
  {
    if w > 0 {
      assert DigitValue(s[0], radix).Some?;
      RunOfDigits(s[1..], w - 1, radix);
    }
  }

  /** A name made from a number that fits is read back as that number. */
  lemma NameReadsBack(p: Pattern, n: nat)
    requires p.Valid() && Fits(p, n)
    ensures ParseName(p, Name(p, n)) == Numbered(n)
  {
    hide Padded, Value, Run;
    var s, name := Padded(n, p.width, p), Name(p, n);
    PaddedLength(p, p.width, n);
    RunOfDigits(s, p.width, p.radix);
    assert name[|p.pref|..|name| - |p.suff|] == s && s[..p.width] == s;
    assert name[..|p.pref|] == p.pref && name[|name| - |p.suff|..] == p.suff;
    LatestIsNoNumber(p, s);
  }

  lemma LatestIsNoNumber(p: Pattern, s: bytes)
    requires p.Valid() && s != [] && DigitValue(s[0], p.radix).Some?
    ensures p.pref + s + p.suff != p.pref + LATEST + p.suff
  {
    assert (p.pref + s + p.suff)[|p.pref|] == s[0];
    assert (p.pref + LATEST + p.suff)[|p.pref|] == LATEST[0];
  }

  /** A number one digit too long sorts before the last two that fit, and is read as a smaller one. */
  lemma TooLong(p: Pattern, n: nat)
    requires p.Valid() && n == Power(p.radix, p.width)
    ensures n >= 10 && Before(Name(p, n), Name(p, n - 1)) && Before(Name(p, n), Name(p, n - 2))
    ensures ParseName(p, Name(p, n)).Numbered?
  {
    hide CmpBytes, Scan;
    var w, r := p.width, p.radix;
    FirstDigits(p, w);
    assert n == r * Power(r, w - 1) && Power(r, w - 1) > 0 by { if w > 1 { FirstDigits(p, w - 1); } }
    var s := Padded(n, w, p);
    FirstOfTwoLess(p, n);
    FirstCharOrder(p, s, Padded(n - 1, w, p));
    FirstCharOrder(p, s, Padded(n - 2, w, p));
    var name := Name(p, n);
    assert name[|p.pref|..|name| - |p.suff|] == s;
    assert name[..|p.pref|] == p.pref && name[|name| - |p.suff|..] == p.suff;
    LatestIsNoNumber(p, s);
    StartsWithDigit(s, p);
  }

  lemma StartsWithDigit(s: bytes, p: Pattern)
    requires p.Valid() && s != [] && DigitValue(s[0], p.radix).Some?
    ensures Scan(s, p).Some?
  {
  }

  lemma LastDigitOff(p: Pattern, n: nat, w: nat)
    requires p.Valid() && w > 0
    ensures Padded(n, w, p) == Padded(n / p.radix, w - 1, p) + [Decimal.HexDigit(n % p.radix, p.upper)]
  {
  }

  lemma NoDigits(p: Pattern)
    requires p.Valid()
    ensures Padded(0, 0, p) == []
  {
  }

  lemma FirstOfTwoLess(p: Pattern, n: nat)
    requires p.Valid() && n == Power(p.radix, p.width) && n >= 10
    ensures var x := Padded(n - 2, p.width, p); x != [] && x[0] > '1' as int
  {
    hide Padded;
    var w, r := p.width, p.radix;
    if w == 1 {
      NoDigits(p);
      assert Power(r, 1) == r * Power(r, 0);
      LastDigitOff(p, n - 2, w);
    } else {
      FirstDigits(p, w - 1);
      Quotients(r, Power(r, w - 1));
      LastDigitOff(p, n - 2, w);
    }
  }

  lemma FirstCharOrder(p: Pattern, x: bytes, y: bytes)
    requires x != [] && y != [] && x[0] < y[0]
    ensures Before(p.pref + x + p.suff, p.pref + y + p.suff)
  {
    SamePrefix(p.pref, x + p.suff, y + p.suff);
    Assoc(p.pref, x, p.suff);
    Assoc(p.pref, y, p.suff);
    FirstDecides(x + p.suff, y + p.suff);
  }

  lemma FirstDecides(x: bytes, y: bytes)
    requires x != [] && y != [] && x[0] < y[0]
    ensures CmpBytes(x, y) == -1
  {
  }
}
