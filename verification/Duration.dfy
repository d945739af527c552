/** Printing a duration: three leading digits in a fixed buffer, rounded with carries, or two whole groups. */
module Durations {
  import opened Wire
  import opened Decimal

  const MINUS: byte := '-' as int
  const POINT: byte := '.' as int
  const SPACE: byte := ' ' as int

  const SECOND := 1_000_000_000
  const MINUTE := 60 * SECOND
  const HOUR := 60 * MINUTE
  const DAY := 24 * HOUR
  const LIMIT := 99 * SECOND

  function Abs(d: int): nat { if d < 0 then -d else d }

  // ----- short durations: what is printed -----

  /** Digits below the three leading ones. */
  function Low(d: nat): nat { if |Digits(d)| <= 3 then 0 else |Digits(d)| - 3 }

  /** The three leading digits: four are kept and the last of them is rounded away. */
  function Lead(d: nat): nat {
    if Low(d) == 0 then d else (Drop(d, Low(d) - 1) + 5) / 10
  }

  /** Number of digits of the rounded duration. */
  function Length(d: nat): (m: nat)
    ensures m > 0
  {
    |Digits(Lead(d))| + Low(d)
  }

  /** The unit, as a power of a thousand nanoseconds, and the digits before the point. */
  function UnitOf(d: nat): nat { (Length(d) - 1) / 3 }
  function Whole(d: nat): (w: nat) ensures 1 <= w <= 3 { Length(d) - 3 * UnitOf(d) }

  /** One digit after the point is shown next to a single digit before it, unless it is a zero. */
  predicate HasTenths(d: nat) { UnitOf(d) > 0 && Whole(d) == 1 }

  lemma LeadLength(d: nat)
    ensures Low(d) > 0 ==> 3 <= |Digits(Lead(d))| <= 4
    ensures |Digits(d)| <= Length(d) <= |Digits(d)| + 1
    ensures Whole(d) + (if HasTenths(d) then 1 else 0) <= |Digits(Lead(d))|
    ensures Low(d) == 0 ==> UnitOf(d) == 0
  {
    if Low(d) > 0 {
      var k, four := Low(d) - 1, Drop(d, Low(d) - 1);
      LeadingDigits(d, k);
      assert |Digits(four)| == 4;
      assert Pow10(3) == 1000 && Pow10(4) == 10000 && Pow10(2) == 100;
      DigitCount(four, 4);
      DigitCount(four, 3);
      DigitCount(Lead(d), 2);
      DigitCount(Lead(d), 4);
    }
  }

  function Tenths(d: nat): bytes {
    LeadLength(d);
    if !HasTenths(d) || Digits(Lead(d))[1] == ZERO then [] else [POINT, Digits(Lead(d))[1]]
  }

  function WholeDigits(d: nat): (s: bytes)
    ensures |s| == Whole(d)
  {
    LeadLength(d);
    Digits(Lead(d))[..Whole(d)]
  }

  function Spaces(n: int): (s: bytes)
    ensures |s| == if n < 0 then 0 else n
  {
    seq(if n < 0 then 0 else n, _ => SPACE)
  }

  const NS := ['n' as int, 's' as int]
  const US := [0xC2, 0xB5, 's' as int]
  const MS := ['m' as int, 's' as int]
  const S := ['s' as int]
  const M := ['m' as int]

  function Suffix(u: nat): bytes {
    if u == 0 then NS else if u == 1 then US else if u == 2 then MS else if u == 3 then S else M
  }

  function Sign(d: int): bytes { if d < 0 then [MINUS] else [] }

  function ShortText(d: int): bytes {
    var a := Abs(d);
    Spaces(3 - Whole(a) - |Sign(d)|) + Sign(d) + WholeDigits(a) + Tenths(a) + Suffix(UnitOf(a))
  }

  // ----- long durations: what is printed -----

  datatype Unit = Unit(size: int, suffix: byte)

  const DAYS := Unit(DAY, 'd' as int)
  const HOURS := Unit(HOUR, 'h' as int)
  const MINUTES := Unit(MINUTE, 'm' as int)
  const SECONDS := Unit(SECOND, 's' as int)

  /** The largest unit that fits, and the next. */
  function Units(d: nat): (Unit, Unit) {
    if d >= DAY then (DAYS, HOURS) else if d >= HOUR then (HOURS, MINUTES) else (MINUTES, SECONDS)
  }

  /** The second unit's count, rounded to the nearest. */
  function Nearest(d: nat, unit: int): nat
    requires unit > 0
  {
    d / unit + if d % unit >= unit / 2 then 1 else 0
  }

  function Group(n: nat, suffix: byte): bytes { Digits(n) + [suffix] }

  function LongText(d: int): bytes {
    var a := Abs(d);
    var (first, second) := Units(a);
    Sign(d) + Group(a / first.size, first.suffix) + Group(Nearest(a % first.size, second.size), second.suffix)
  }

  function DurationText(d: int): bytes {
    if d == 0 then [SPACE, SPACE, ZERO, 's' as int]
    else if Abs(d) >= LIMIT then LongText(d)
    else ShortText(d)
  }

  // ----- the printer -----

  const SIZE := 32
  const END := 28

  method AppendDuration(b: bytes, d: int) returns (r: bytes)
    requires -MAX_INT <= d <= MAX_INT
    ensures r == b + DurationText(d)
  {
    if d == 0 {
      return b + [SPACE, SPACE, ZERO, 's' as int];
    }
    var buf := new byte[SIZE](_ => 0);
    if d >= LIMIT || -d >= LIMIT {
      r := appendLong(b, d, buf);
    } else {
      r := appendShort(b, d, buf);
    }
  }

  method appendShort(b: bytes, d: int, buf: array<byte>) returns (r: bytes)
    requires buf.Length == SIZE && 0 < Abs(d) < LIMIT
    requires forall k | 0 <= k < SIZE :: buf[k] == 0
    modifies buf
    ensures r == b + ShortText(d)
  {
    hide Lead, Low, Digits, Drop;
    var n := Abs(d);
    var i := writeDigits(buf, n);
    ghost var top := round(buf, i, n);
    var u;
    i, u := findUnit(buf, top);
    var digit := blank(buf, i, top);
    r := layout(b, buf, i, digit, u, d);
  }

  /** The digits of `n`, right-aligned at `END`. */
  method writeDigits(buf: array<byte>, n: nat) returns (i: nat)
    requires buf.Length == SIZE && 0 < n < LIMIT
    requires forall k | 0 <= k < SIZE :: buf[k] == 0
    modifies buf
    ensures 17 <= i == END - |Digits(n)| && buf[i..END] == Digits(n)
    ensures forall k | 0 <= k < SIZE && !(i <= k < END) :: buf[k] == 0
  {
    hide Digits;
    var d: nat := n;
    i := END;
    assert |Digits(n)| <= 11 by {
      DigitCount(n, 11);
      assert Pow10(11) == 100_000_000_000;
    }
    assert Digits(n) + buf[END..END] == Digits(n);
    while d != 0
      invariant 17 <= i <= END
      invariant Digits(n) == (if d == 0 then [] else Digits(d)) + buf[i..END]
      invariant forall k | 0 <= k < SIZE && !(i <= k < END) :: buf[k] == 0
    {
      OneDigit(n, d, buf[i..END]);
      i := i - 1;
      buf[i] := d % 10 + ZERO;
      d := d / 10;
    }
  }

  lemma OneDigit(n: nat, d: nat, s: bytes)
    requires Digits(n) == Digits(d) + s
    ensures Digits(n) == (if d < 10 then [] else Digits(d / 10)) + ([d % 10 + ZERO] + s)
  {
    assert d >= 10 ==> Digits(d / 10) + ([d % 10 + ZERO] + s) == Digits(d) + s;
  }

  /** Digits up to `END` that start at `top`; before them nothing, or the zero kept for a carry. */
  predicate Standing(s: bytes, top: nat) {
    && |s| == SIZE && 16 <= top < END
    && (forall k | top <= k < END :: IsDigit(s[k])) && s[top] != ZERO
    && (forall k | 0 <= k < top - 1 :: s[k] == 0)
    && (s[top - 1] == ZERO || (s[top - 1] == 0 && s[top] == ZERO + 1))
  }

  predicate Leads(s: bytes, top: nat, n: nat) {
    && top == END - Length(n)
    && At(s, top, Digits(Lead(n)))
  }

  /** While rounding: the digit at `j` has grown by five, or by one from a carry, and the rest are digits. */
  predicate Rounding(s: bytes, i: nat, j: nat, n: nat) {
    && |s| == SIZE && 17 <= i == END - |Digits(n)| && i - 1 <= j <= i + 3
    && (j == i + 3 ==> s[j] == (if Low(n) > 0 then Digits(n)[3] else 0) + 5)
    && (j < i + 3 ==> Low(n) > 0 && ZERO <= s[j] <= NINE + 1)
    && (forall k | i - 1 <= k < END && k != j :: IsDigit(s[k]))
    && s[i - 1] == (if j == i - 1 then ZERO + 1 else ZERO)
    && (j > i - 1 ==> s[i] > ZERO)
    && (forall k | 0 <= k < i - 1 :: s[k] == 0)
    && (Low(n) == 0 ==> s[i..END] == Digits(n))
    && (Low(n) > 0 ==> Number(s[i - 1..i + 3]) + (if j == i + 3 && s[j] > NINE then 1 else 0) == Lead(n))
  }

  lemma RoundingCarries(s: bytes, i: nat, j: nat, n: nat)
    requires (Low(n) > 0 ==> |Digits(n)| > 3) && Rounding(s, i, j, n) && s[j] > NINE
    ensures j > i - 1 && IsDigit(s[j - 1]) && Rounding(s[j := ZERO][j - 1 := s[j - 1] + 1], i, j - 1, n)
  {
    hide Digits, Number, Lead;
    var was, at := s[i - 1..i + 3], j - (i - 1);
    var next := s[j := ZERO][j - 1 := s[j - 1] + 1];
    if at == 4 {
      CarryIn(was);
      assert next[i - 1..i + 3] == was[3 := was[3] + 1];
    } else {
      Carry(was, at);
      assert next[i - 1..i + 3] == was[at := ZERO][at - 1 := was[at - 1] + 1];
    }
  }

  /** Rounds at the fourth digit, carrying to the left. */
  method round(buf: array<byte>, i: nat, n: nat) returns (ghost top: nat)
    requires buf.Length == SIZE && n > 0 && 17 <= i == END - |Digits(n)| && buf[i..END] == Digits(n)
    requires forall k | 0 <= k < SIZE && !(i <= k < END) :: buf[k] == 0
    modifies buf
    ensures Standing(buf[..], top) && Leads(buf[..], top, n)
  {
    hide Digits, Number, Lead, Standing, Leads, Length, Rounding;
    FourthDigit(n);
    var j := i + 3;
    buf[i - 1] := ZERO;
    buf[j] := buf[j] + 5;
    RoundingStarts(old(buf[..]), i, n);
    while j >= i - 1 && buf[j] > NINE
      invariant i - 1 <= j <= i + 3 && Rounding(buf[..], i, j, n)
      decreases j
    {
      ghost var s := buf[..];
      RoundingCarries(s, i, j, n);
      buf[j] := ZERO;
      j := j - 1;
      buf[j] := buf[j] + 1;
      assert buf[..] == s[j + 1 := ZERO][j := s[j] + 1];
    }
    top := if buf[i - 1] == ZERO + 1 then i - 1 else i;
    RoundingEnds(buf[..], i, j, n);
  }

  lemma RoundingStarts(s: bytes, i: nat, n: nat)
    requires n > 0 && |s| == SIZE && 17 <= i == END - |Digits(n)| && s[i..END] == Digits(n)
    requires forall k | 0 <= k < SIZE && !(i <= k < END) :: s[k] == 0
    ensures s[i + 3] < 250 && Rounding(s[i - 1 := ZERO][i + 3 := s[i + 3] + 5], i, i + 3, n)
  {
    hide Digits, Number, Lead;
    FourthDigit(n);
    var d, next := Digits(n), s[i - 1 := ZERO][i + 3 := s[i + 3] + 5];
    assert forall k | i <= k < END :: s[k] == d[k - i];
    assert Low(n) > 0 ==> next[i - 1..i + 3] == [ZERO] + d[..3];
    assert Low(n) == 0 ==> next[i..END] == d;
  }

  lemma RoundingEnds(s: bytes, i: nat, j: nat, n: nat)
    requires Rounding(s, i, j, n) && s[j] <= NINE
    ensures var top := if s[i - 1] == ZERO + 1 then i - 1 else i; Standing(s, top) && Leads(s, top, n)
  {
    hide Digits, Number, Lead, Standing, Leads;
    AfterCarries(s, i, n);
  }

  lemma AfterCarries(s: bytes, i: nat, n: nat)
    requires |s| == SIZE && 17 <= i == END - |Digits(n)|
    requires forall k | i - 1 <= k < END :: IsDigit(s[k])
    requires s[i - 1] in {ZERO, ZERO + 1} && (s[i - 1] == ZERO ==> s[i] > ZERO)
    requires forall k | 0 <= k < i - 1 :: s[k] == 0
    requires if Low(n) > 0 then Number(s[i - 1..i + 3]) == Lead(n) else s[i - 1] == ZERO && s[i..END] == Digits(n)
    ensures var top := if s[i - 1] == ZERO + 1 then i - 1 else i; Standing(s, top) && Leads(s, top, n)
  {
    hide Number, Lead, Digits;
    if Low(n) > 0 {
      LeadFound(s[i - 1..i + 3], n);
    } else {
      ShortLead(n);
    }
  }

  lemma CarryIn(s: bytes)
    requires |s| == 4 && IsDigit(s[3])
    ensures Number(s[3 := s[3] + 1]) == Number(s) + 1
  {
    NumberUpdate(s, 3, s[3] + 1);
  }

  lemma Carry(s: bytes, k: nat)
    requires 0 < k < |s| && s[k] == NINE + 1 && s[k - 1] < 255
    ensures Number(s[k := ZERO][k - 1 := s[k - 1] + 1]) == Number(s)
  {
    hide Number, Pow10;
    NumberUpdate(s, k, ZERO);
    NumberUpdate(s[k := ZERO], k - 1, s[k - 1] + 1);
    NextPower(|s| - 1 - k);
    var p: int := Pow10(|s| - 1 - k);
    assert ZERO - s[k] == -10 && (s[k - 1] + 1) - s[k := ZERO][k - 1] == 1;
    assert -10 * p + 1 * (10 * p) == 0;
  }

  lemma NextPower(k: nat)
    ensures Pow10(k + 1) == 10 * Pow10(k)
  {
  }

  /** The first three digits and the rounding of the fourth make the leading digits. */
  lemma FourthDigit(n: nat)
    ensures Low(n) > 0 ==> |Digits(n)| > 3
    ensures Low(n) > 0 ==>
        Number([ZERO] + Digits(n)[..3]) + (if Digits(n)[3] + 5 > NINE then 1 else 0) == Lead(n)
  {
    if Low(n) > 0 {
      var four := Drop(n, Low(n) - 1);
      LeadingDigits(n, Low(n) - 1);
      var s := Digits(n)[..4];
      assert s == Digits(four) && s[..3] == Digits(n)[..3];
      DigitsNumber(four);
      LeadingZero(s[..3]);
      assert Number(s) == Number(s[..3]) * 10 + (s[3] - ZERO);
    }
  }

  lemma LeadFound(s: bytes, n: nat)
    requires |s| == 4 && AllDigits(s) && Number(s) == Lead(n) && s[0] in {ZERO, ZERO + 1}
             && (s[0] == ZERO ==> s[1] != ZERO)
    ensures Digits(Lead(n)) == if s[0] == ZERO then s[1..] else s
  {
    if s[0] == ZERO {
      assert s == [ZERO] + s[1..];
      LeadingZero(s[1..]);
      NumberDigits(s[1..]);
    } else {
      NumberDigits(s);
    }
  }

  lemma ShortLead(n: nat)
    requires Low(n) == 0
    ensures Lead(n) == n && Length(n) == |Digits(n)|
  {
  }

  method findUnit(buf: array<byte>, ghost top: nat) returns (j: nat, u: int)
    requires buf.Length == SIZE && Standing(buf[..], top)
    ensures 0 <= u <= 3 && j == END - 3 * (u + 1) && j <= top < j + 3
  {
    j, u := END, -1;
    while buf[j - 2] != 0 || buf[j - 1] == ZERO + 1
      invariant 13 <= j <= END && j == END - 3 * (u + 1)
      invariant top < j + 3
      decreases j
    {
      j := j - 3;
      u := u + 1;
    }
  }

  method blank(buf: array<byte>, i: nat, ghost top: nat) returns (j: nat)
    requires buf.Length == SIZE && Standing(buf[..], top) && i <= top
    modifies buf
    ensures j == top && forall k | 0 <= k < SIZE :: buf[k] == if i <= k < top then SPACE else old(buf[k])
  {
    j := i;
    while buf[j] == ZERO || buf[j] == 0
      invariant i <= j <= top
      invariant forall k | 0 <= k < SIZE :: buf[k] == if i <= k < j then SPACE else old(buf[k])
      decreases top - j
    {
      buf[j] := SPACE;
      j := j + 1;
    }
  }

  method layout(b: bytes, buf: array<byte>, at: nat, digit: nat, u: nat, d: int) returns (r: bytes)
    requires buf.Length == SIZE && 16 <= digit < END && u <= 3
    requires at == END - 3 * (u + 1) && at <= digit < at + 3
    requires Leads(buf[..], digit, Abs(d)) && forall k | at <= k < digit :: buf[k] == SPACE
    modifies buf
    ensures r == b + ShortText(d)
  {
    hide Lead, Low, Digits, Tenths, WholeDigits, UnitOf, Whole, HasTenths, Leads, ShortText, Suffix;
    Layout(buf[..], digit, u, Abs(d));
    ghost var point := at + 3;
    assert buf[digit..point] == WholeDigits(Abs(d));
    var j := putPoint(buf, at, digit);
    var end := putSuffix(buf, j, u);
    var i := putSign(buf, at, digit, d);
    assert buf[digit..point] == WholeDigits(Abs(d));
    Assemble(buf[..], i, digit, point, j, end, d);
    r := b + buf[i..end];
  }

  /** The sign takes the last space, or one place more when there is none. */
  method putSign(buf: array<byte>, at: nat, digit: nat, d: int) returns (i: nat)
    requires 0 < at <= digit <= buf.Length && forall k | at <= k < digit :: buf[k] == SPACE
    modifies buf
    ensures i <= digit && buf[i..digit] == Spaces(digit - at - |Sign(d)|) + Sign(d)
    ensures forall k | digit <= k < buf.Length :: buf[k] == old(buf[k])
  {
    i := at;
    if d < 0 {
      buf[digit - 1] := MINUS;
      if digit == i {
        i := i - 1;
      }
    }
  }

  method putSuffix(buf: array<byte>, j: nat, u: nat) returns (end: nat)
    requires j + 3 <= buf.Length
    modifies buf
    ensures j < end == j + |Suffix(u)| <= buf.Length && buf[j..end] == Suffix(u)
    ensures forall k | 0 <= k < j :: buf[k] == old(buf[k])
  {
    var suffix := Suffix(u);
    var c := 0;
    while c < |suffix|
      invariant 0 <= c <= |suffix|
      invariant buf[j..j + c] == suffix[..c] && forall k | 0 <= k < j :: buf[k] == old(buf[k])
    {
      buf[j + c] := suffix[c];
      c := c + 1;
    }
    end := j + c;
  }

  /** Moves the digits after the point, sets the point, and drops zeros after it. */
  method putPoint(buf: array<byte>, i: nat, digit: nat) returns (j: nat)
    requires buf.Length == SIZE && 16 <= i + 3 <= END && i <= digit <= i + 3
    requires i + 3 == END || i + 6 <= END
    requires i + 3 < END && digit == i + 2 ==> IsDigit(buf[i + 3])
    modifies buf
    ensures i + 3 <= j <= END
    ensures var c := old(buf[i + 3]);
            digit < i + 3 ==> buf[i + 3..j] == if i + 3 < END && digit == i + 2 && c != ZERO then [POINT, c] else []
    ensures forall k | 0 <= k < i + 3 :: buf[k] == old(buf[k])
  {
    j := digit + 3;
    if j - 1 > i + 3 {
      buf[j - 1] := buf[j - 2];
    }
    if j - 2 > i + 3 {
      buf[j - 2] := buf[j - 3];
    }
    buf[i + 3] := POINT;
    if j > END {
      j := END;
    }
    while j > i + 3 && (buf[j - 1] == ZERO || buf[j - 1] == POINT)
      invariant i + 3 <= j <= digit + 3 && j <= END
      invariant digit < i + 3 ==> buf[i + 3] == POINT
      invariant i + 3 < END && digit == i + 2 ==> j <= i + 4 ==> old(buf[i + 3]) == ZERO
      invariant i + 3 < END && digit == i + 2 && old(buf[i + 3]) != ZERO ==> j == i + 5
    {
      j := j - 1;
    }
  }

  lemma Assemble(s: bytes, i: nat, digit: nat, point: nat, j: nat, end: nat, d: int)
    requires i <= digit <= point <= j <= end <= |s|
    requires s[i..digit] == Spaces(3 - Whole(Abs(d)) - |Sign(d)|) + Sign(d) && s[digit..point] == WholeDigits(Abs(d))
    requires s[point..j] == Tenths(Abs(d)) && s[j..end] == Suffix(UnitOf(Abs(d)))
    ensures s[i..end] == ShortText(d)
  {
    hide Spaces, Whole, UnitOf, Sign, WholeDigits, Tenths, Suffix;
    assert s[i..end] == s[i..digit] + s[digit..end];
    assert s[digit..end] == s[digit..point] + (s[point..j] + s[j..end]);
  }

  /** Where the printed digits are in the buffer. */
  lemma Layout(s: bytes, digit: nat, u: nat, n: nat)
    requires |s| == SIZE && 16 <= digit < END && Leads(s, digit, n)
    requires var i := END - 3 * (u + 1); i <= digit < i + 3
    ensures var point := END - 3 * u;
            && u == UnitOf(n) && Whole(n) == point - digit && s[digit..point] == WholeDigits(n)
            && (HasTenths(n) <==> u > 0 && digit + 1 == point)
            && (HasTenths(n) ==> IsDigit(s[point]) && Tenths(n) == if s[point] == ZERO then [] else [POINT, s[point]])
            && (!HasTenths(n) ==> Tenths(n) == [])
  {
    LeadLength(n);
    var lead := Digits(Lead(n));
    var point := END - 3 * u;
    assert s[digit..digit + |lead|] == lead;
    assert s[digit..point] == lead[..point - digit];
  }

  method appendLong(b: bytes, d: int, buf: array<byte>) returns (r: bytes)
    requires buf.Length == SIZE && LIMIT <= Abs(d) <= MAX_INT
    modifies buf
    ensures r == b + LongText(d)
  {
    hide Digits, Group, Nearest, Sign, LongText;
    var n := Abs(d);
    r := b + Sign(d);
    var i, group := 0, 0;
    ghost var a, day, hour, minute: bytes := n, [], [], [];
    n, i, group := add(buf, i, group, n, DAY, 'd' as int);
    if a >= DAY {
      day := Group(a / DAY, 'd' as int);
      assert group == 1 && n == a % DAY && buf[..i] == day;
    }
    n, i, group := add(buf, i, group, n, HOUR, 'h' as int);
    if HOUR <= a < DAY {
      hour := Group(a / HOUR, 'h' as int);
      assert group == 1 && n == a % HOUR && buf[..i] == hour;
    }
    n, i, group := add(buf, i, group, n, MINUTE, 'm' as int);
    if a < HOUR {
      minute := Group(a / MINUTE, 'm' as int);
      assert group == 1 && n == a % MINUTE && buf[..i] == minute;
    }
    n, i, group := add(buf, i, group, n, SECOND, 's' as int);
    assert a >= DAY ==> buf[..i] == day + Group(Nearest(a % DAY, HOUR), 'h' as int);
    assert HOUR <= a < DAY ==> buf[..i] == hour + Group(Nearest(a % HOUR, MINUTE), 'm' as int);
    assert a < HOUR ==> buf[..i] == minute + Group(Nearest(a % MINUTE, SECOND), 's' as int);
    LongOf(d, b, buf[..i]);
    r := r + buf[..i];
  }

  lemma LongOf(d: int, b: bytes, groups: bytes)
    requires var (first, second) := Units(Abs(d));
      groups == Group(Abs(d) / first.size, first.suffix)
                + Group(Nearest(Abs(d) % first.size, second.size), second.suffix)
    ensures b + Sign(d) + groups == b + LongText(d)
  {
    hide Group, Nearest, Sign;
    assert b + Sign(d) + groups == b + (Sign(d) + groups);
    var (first, second) := Units(Abs(d));
    Assoc(Sign(d), Group(Abs(d) / first.size, first.suffix),
          Group(Nearest(Abs(d) % first.size, second.size), second.suffix));
  }

  const MAX_GROUPS := 2

  /** Writes one group unless it would be a leading zero or a third group. */
  method add(buf: array<byte>, i0: nat, group0: nat, n: nat, unit: int, suffix: byte)
    returns (left: nat, i: nat, group: nat)
    requires buf.Length == SIZE && unit >= SECOND && n <= MAX_INT && group0 <= MAX_GROUPS && i0 <= 11 * group0
    modifies buf
    ensures i0 <= i <= 11 * group && group <= MAX_GROUPS && left <= n
    ensures var skip := (group0 == 0 && n < unit && unit > SECOND) || group0 >= MAX_GROUPS;
            var x := if group0 + 1 == MAX_GROUPS then Nearest(n, unit) else n / unit;
            && (skip ==> left == n && i == i0 && group == group0 && buf[..] == old(buf[..]))
            && (!skip ==> left == n % unit && group == group0 + 1 && buf[..i] == old(buf[..i0]) + Group(x, suffix))
  {
    hide Digits;
    left, i, group := n, i0, group0;
    if (group == 0 && left < unit && unit > SECOND) || group >= MAX_GROUPS {
      return;
    }
    var x := left / unit;
    left := left % unit;
    group := group + 1;
    if group == MAX_GROUPS && left >= unit / 2 {
      x := x + 1;
    }
    SmallCount(n, unit);
    i := putNumber(buf, i, x);
    buf[i] := suffix;
    i := i + 1;
    assert buf[..i] == buf[..i - 1] + [suffix];
  }

  method putNumber(buf: array<byte>, i0: nat, n: nat) returns (i: nat)
    requires i0 + |Digits(n)| <= buf.Length
    modifies buf
    ensures i == i0 + |Digits(n)| && buf[..i] == old(buf[..i0]) + Digits(n)
  {
    hide Digits;
    var x := n;
    var w := width(x);
    i := i0 + w;
    var j := 1;
    ghost var front, done := buf[..i0], [];
    assert Digits(x) + done == Digits(x);
    while j <= w
      invariant 1 <= j <= w + 1 && x >= 0 && |done| == j - 1
      invariant Digits(n) == (if j > w then [] else Digits(x)) + done
      invariant buf[..i0] == front && buf[i - |done|..i] == done
    {
      OneDigit(n, x, done);
      DigitCount(x, 1);
      buf[i - j] := x % 10 + ZERO;
      done := [x % 10 + ZERO] + done;
      assert buf[i - j..i] == done;
      x := x / 10;
      j := j + 1;
    }
    assert buf[..i] == buf[..i0] + buf[i0..i];
  }

  lemma SmallCount(n: nat, unit: int)
    requires unit >= SECOND && n <= MAX_INT
    ensures |Digits(n / unit)| <= 10 && |Digits(Nearest(n, unit))| <= 10
  {
    assert Pow10(10) == 10_000_000_000;
    assert n / unit <= n / SECOND;
    DigitCount(n / unit, 10);
    DigitCount(Nearest(n, unit), 10);
  }

  /** The number of decimal digits. */
  method width(n: nat) returns (w: nat)
    ensures w == |Digits(n)|
  {
    var q := 10;
    w := 1;
    while q <= n
      invariant w > 0 && q == Pow10(w)
      invariant w > 1 ==> n >= Pow10(w - 1)
      decreases n - q
    {
      w := w + 1;
      q := q * 10;
    }
    DigitCount(n, w);
    if w > 1 {
      DigitCount(n, w - 1);
    }
  }
}
