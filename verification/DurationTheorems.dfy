/** What a printed duration says: read back, it is close to the duration. */
module DurationTheorems {
  import opened Wire
  import opened Decimal
  import opened Durations

  // ----- reading a duration -----

  /** A number read from the front of a text, and the length it took. */
  datatype Parsed = Parsed(value: int, length: nat) | Unread

  /** The unit named at the front, in nanoseconds. */
  function UnitAt(s: bytes): (r: Parsed)
    ensures r.Parsed? ==> 0 < r.length <= |s|
  {
    if NS <= s then Parsed(1, 2)
    else if US <= s then Parsed(1_000, 3)
    else if MS <= s then Parsed(1_000_000, 2)
    else if [DAYS.suffix] <= s then Parsed(DAY, 1)
    else if [HOURS.suffix] <= s then Parsed(HOUR, 1)
    else if M <= s then Parsed(MINUTE, 1)
    else if S <= s then Parsed(SECOND, 1)
    else Unread
  }

  /** A number with a unit at the front, with at most one digit after the point. */
  function First(s: bytes): (r: Parsed)
    ensures r.Parsed? ==> 0 < r.length <= |s|
  {
    var n := Run(s);
    var dot := n + 1 < |s| && s[n] == POINT && IsDigit(s[n + 1]);
    var k := if dot then n + 2 else n;
    var unit := UnitAt(s[k..]);
    if n == 0 || unit.Unread? then Unread
    else Parsed(Value(Number(s[..n]), if dot then s[n + 1] - ZERO else 0, unit.value), k + unit.length)
  }

  function Value(whole: int, tenth: int, size: int): int { whole * size + tenth * (size / 10) }

  /** A sum of such groups. */
  function Groups(s: bytes): Option<int> {
    if s == [] then Some(0)
    else match First(s)
      case Unread => None
      case Parsed(v, n) =>
        var more := Groups(s[n..]);
        if more.None? then None else Some(v + more.value)
  }

  function Reading(s: bytes): Option<int> {
    if s == [] then None
    else if s[0] == SPACE then Reading(s[1..])
    else if s[0] != MINUS then Groups(s)
    else match Groups(s[1..]) case None => None case Some(v) => Some(-v)
  }

  /** The digit after the point, zero if there is none. */
  function TenthOf(tenths: bytes): int {
    if |tenths| == 2 then tenths[1] - ZERO else 0
  }

  predicate IsTenths(s: bytes) {
    s == [] || (|s| == 2 && s[0] == POINT && IsDigit(s[1]))
  }

  lemma FirstGroup(ds: bytes, tenths: bytes, name: bytes, size: int, rest: bytes)
    requires ds != [] && AllDigits(ds) && IsTenths(tenths)
    requires name != [] && !IsDigit(name[0]) && name[0] != POINT && UnitAt(name + rest) == Parsed(size, |name|)
    ensures First(ds + (tenths + (name + rest))) ==
            Parsed(Value(Number(ds), TenthOf(tenths), size), |ds| + |tenths| + |name|)
  {
    hide First, UnitAt, Number, Value, AllDigits, Run;
    Slices(ds, tenths, name + rest);
    FirstAt(ds + (tenths + (name + rest)), tenths != [], size, |name|);
  }

  lemma {:induction false} FirstAt(s: bytes, dot: bool, size: int, len: nat)
    requires var n := Run(s); 0 < n && (dot <==> n + 1 < |s| && s[n] == POINT && IsDigit(s[n + 1]))
    requires UnitAt(s[Run(s) + (if dot then 2 else 0)..]) == Parsed(size, len)
    ensures First(s) == Parsed(Value(Number(s[..Run(s)]), if dot then s[Run(s) + 1] - ZERO else 0, size),
                               Run(s) + (if dot then 2 else 0) + len)
  {
    hide UnitAt, Number, Value, Run, IsDigit;
    var n := Run(s);
    if dot {
      assert UnitAt(s[n + 2..]) == Parsed(size, len);
    } else {
      assert n + 0 == n && UnitAt(s[n..]) == Parsed(size, len);
    }
  }

  lemma Slices(ds: bytes, tenths: bytes, tail: bytes)
    requires AllDigits(ds) && IsTenths(tenths) && tail != [] && !IsDigit(tail[0])
    ensures var s, n := ds + (tenths + tail), |ds|;
            && Run(s) == n && s[..n] == ds && s[n + |tenths|..] == tail
            && s[n] == (if tenths == [] then tail[0] else POINT) && (tenths != [] ==> s[n + 1] == tenths[1])
  {
    RunOf(ds, tenths + tail);
  }

  lemma ReadGroup(ds: bytes, tenths: bytes, name: bytes, size: int, rest: bytes)
    requires ds != [] && AllDigits(ds) && IsTenths(tenths)
    requires name != [] && !IsDigit(name[0]) && name[0] != POINT && UnitAt(name + rest) == Parsed(size, |name|)
    requires Groups(rest).Some?
    ensures Groups(ds + (tenths + (name + rest))) ==
            Some(Value(Number(ds), TenthOf(tenths), size) + Groups(rest).value)
  {
    hide First, Groups, UnitAt, Number, TenthOf, Value, AllDigits, IsTenths, IsDigit;
    FirstGroup(ds, tenths, name, size, rest);
    var s := ds + (tenths + (name + rest));
    assert s[|ds| + |tenths| + |name|..] == rest;
    GroupsStep(s);
  }

  lemma {:induction false} GroupsStep(s: bytes)
    requires First(s).Parsed? && Groups(s[First(s).length..]).Some?
    ensures Groups(s) == Some(First(s).value + Groups(s[First(s).length..]).value)
  {
    hide First, Number, Run, UnitAt, Value;
    assert s != [];
  }

  lemma {:induction false} ReadPad(n: int, d: int, body: bytes)
    requires body != [] && IsDigit(body[0]) && Groups(body).Some?
    ensures Reading(Spaces(n) + Sign(d) + body) == Some(if d < 0 then -Groups(body).value else Groups(body).value)
    decreases if n < 0 then 0 else n
  {
    hide Groups;
    var s := Spaces(n) + Sign(d) + body;
    if n > 0 {
      ReadPad(n - 1, d, body);
      assert s[1..] == Spaces(n - 1) + Sign(d) + body;
    } else if d < 0 {
      assert s[1..] == body;
    } else {
      assert s == body;
    }
  }

  // ----- short durations -----

  /** Nanoseconds in the last place that can be shown. */
  function Place(n: nat): nat {
    Pow10(if HasTenths(n) then 3 * UnitOf(n) - 1 else 3 * UnitOf(n))
  }

  /** The digits that can be shown. */
  function Kept(n: nat): (s: bytes)
    ensures s != []
  {
    LeadLength(n);
    Digits(Lead(n))[..Whole(n) + if HasTenths(n) then 1 else 0]
  }

  function ShownShort(n: nat): int { Number(Kept(n)) * Place(n) }

  /** Rounding to three digits moves the number by at most half of the last of them. */
  lemma LeadIsNear(n: nat)
    ensures 2 * Abs(Lead(n) * Pow10(Low(n)) - n) <= Pow10(Low(n))
  {
    if Low(n) > 0 {
      var k := Low(n) - 1;
      DropBounds(n, k);
      Rounding(n, Drop(n, k), Pow10(k));
    }
  }

  lemma Rounding(n: nat, four: nat, r: nat)
    requires four * r <= n < (four + 1) * r
    ensures 2 * Abs((four + 5) / 10 * (10 * r) - n) <= 10 * r
  {
    var t := (four + 5) / 10 * 10;
    assert (four + 5) / 10 * (10 * r) == t * r;
    assert four - 4 <= t <= four + 5;
    Times(four - 4, t, r);
    Times(t, four + 5, r);
    assert (four - 4) * r == four * r - 4 * r && (four + 5) * r == four * r + 5 * r && (four + 1) * r == four * r + r;
  }

  lemma Times(x: int, y: int, r: nat)
    requires x <= y
    ensures x * r <= y * r
  {
  }

  /** What is printed is within one unit of the last place it can show, and within half of it with three digits. */
  lemma ShortIsNear(n: nat)
    requires n > 0
    ensures Abs(ShownShort(n) - n) < Place(n)
    ensures Whole(n) == 3 ==> 2 * Abs(ShownShort(n) - n) <= Place(n)
  {
    hide ShownShort, Place, Lead, Low, Digits, Drop, Pow10, Whole, Kept;
    var t, p, c := Lead(n), Pow10(Low(n)), |Digits(Lead(n))| - |Kept(n)|;
    KeptPart(n, c);
    LeadIsNear(n);
    DropBounds(t, c);
    Near(n, t, Drop(t, c), Pow10(c), p);
  }

  lemma KeptPart(n: nat, c: int)
    requires c == |Digits(Lead(n))| - |Kept(n)|
    ensures c >= 0 && ShownShort(n) == Drop(Lead(n), c) * Place(n) && Place(n) == Pow10(c) * Pow10(Low(n))
    ensures Whole(n) == 3 ==> Lead(n) == Drop(Lead(n), c) * Pow10(c)
  {
    hide Lead, Low, Digits, Drop, Pow10;
    LeadLength(n);
    LeadingDigits(Lead(n), c);
    DigitsNumber(Drop(Lead(n), c));
    Pow10Add(c, Low(n));
    if Whole(n) == 3 {
      FullLead(n, c);
    }
  }

  /** A fourth leading digit only comes from a carry: nothing is lost with it. */
  lemma FullLead(n: nat, c: nat)
    requires c == |Digits(Lead(n))| - 3
    ensures Lead(n) == Drop(Lead(n), c) * Pow10(c)
  {
    LeadLength(n);
    assert Pow10(0) == 1 && Pow10(1) == 10;
    assert Drop(Lead(n), 0) == Lead(n);
    if c > 0 {
      LeadingDigits(n, Low(n) - 1);
      assert Pow10(4) == 10000 && Pow10(3) == 1000;
      DigitCount(Drop(n, Low(n) - 1), 4);
      DigitCount(Lead(n), 3);
      assert Lead(n) == 1000 && Drop(1000, 1) == Drop(100, 0) == 100;
    }
  }

  lemma Near(n: int, t: int, kept: int, q: int, p: int)
    requires q > 0 && p > 0 && kept * q <= t < (kept + 1) * q && 2 * Abs(t * p - n) <= p
    ensures Abs(kept * (q * p) - n) < q * p
    ensures t == kept * q ==> 2 * Abs(kept * (q * p) - n) <= q * p
  {
    Times(kept * q, t, p);
    Times(t, (kept + 1) * q - 1, p);
    assert kept * q * p == kept * (q * p);
    assert ((kept + 1) * q - 1) * p == kept * (q * p) + q * p - p;
    Times(1, q, p);
  }

  lemma UnitName(u: nat)
    requires u <= 3
    ensures UnitAt(Suffix(u)) ==
            Parsed(if u == 0 then 1 else if u == 1 then 1_000 else if u == 2 then 1_000_000 else SECOND, |Suffix(u)|)
  {
    assert NS[0] == 'n' as int && US[0] == 0xC2 && MS[0] == M[0] == 'm' as int && S[0] == 's' as int;
    assert [DAYS.suffix][0] == 'd' as int && [HOURS.suffix][0] == 'h' as int;
  }

  lemma UnitNames(u: nat)
    requires u <= 3
    ensures UnitAt(Suffix(u) + []) == Parsed(Pow10(3 * u), |Suffix(u)|)
    ensures !IsDigit(Suffix(u)[0]) && Suffix(u)[0] != POINT
    ensures u > 0 ==> Pow10(3 * u) / 10 == Pow10(3 * u - 1)
  {
    assert Suffix(u) + [] == Suffix(u);
    var p0, p3, p6, p9 := Pow10(0), Pow10(3), Pow10(6), Pow10(9);
    assert p0 == 1 && p3 == 1000 && p6 == 1000 * p3 && p9 == 1000 * p6;
    assert Pow10(3 * u) == if u == 0 then p0 else if u == 1 then p3 else if u == 2 then p6 else p9;
    UnitName(u);
  }

  /** The digits shown stand for the number shown. */
  lemma ShownValue(n: nat)
    requires UnitOf(n) <= 3
    ensures IsTenths(Tenths(n)) && AllDigits(WholeDigits(n))
    ensures Value(Number(WholeDigits(n)), TenthOf(Tenths(n)), Pow10(3 * UnitOf(n))) == ShownShort(n)
  {
    hide Lead, Digits, Whole, UnitOf, Pow10;
    LeadLength(n);
    UnitNames(UnitOf(n));
    if HasTenths(n) {
      var whole, lead := WholeDigits(n), Digits(Lead(n));
      assert Kept(n)[..1] == whole && Kept(n)[1] == lead[1];
      var size := Pow10(3 * UnitOf(n) - 1);
      assert Pow10(3 * UnitOf(n)) == 10 * size by { Pow10Next(3 * UnitOf(n)); }
      Distribute(Number(whole), lead[1] - ZERO, size);
    }
  }

  lemma Pow10Next(k: nat)
    requires k > 0
    ensures Pow10(k) == 10 * Pow10(k - 1)
  {
  }

  lemma Distribute(whole: int, tenth: int, size: int)
    ensures Value(whole, tenth, 10 * size) == (whole * 10 + tenth) * size
    ensures Value(whole, 0, 10 * size) == (whole * 10) * size
  {
    assert 10 * size / 10 == size;
  }

  lemma ReadOneGroup(pad: int, d: int, ds: bytes, tenths: bytes, name: bytes, size: int)
    requires ds != [] && AllDigits(ds) && IsTenths(tenths)
    requires name != [] && !IsDigit(name[0]) && name[0] != POINT && UnitAt(name + []) == Parsed(size, |name|)
    ensures var v := Value(Number(ds), TenthOf(tenths), size);
            Reading(Spaces(pad) + Sign(d) + (ds + (tenths + (name + [])))) == Some(if d < 0 then -v else v)
  {
    hide Reading, Groups, Number, Value, TenthOf, UnitAt, Sign, Spaces, IsTenths;
    NoGroups();
    ReadGroup(ds, tenths, name, size, []);
    var body := ds + (tenths + (name + []));
    assert body[0] == ds[0];
    ReadPad(pad, d, body);
  }

  lemma ShortReads(d: int)
    requires 0 < Abs(d) < LIMIT
    ensures Reading(ShortText(d)) == Some(if d < 0 then -ShownShort(Abs(d)) else ShownShort(Abs(d)))
  {
    hide Reading, Groups, ShownShort, WholeDigits, Tenths, Suffix, Whole, UnitOf, Number, Value, TenthOf, UnitAt,
      Sign, Spaces;
    var n := Abs(d);
    ShortUnit(n);
    ShownValue(n);
    UnitNames(UnitOf(n));
    ReadOneGroup(3 - Whole(n) - |Sign(d)|, d, WholeDigits(n), Tenths(n), Suffix(UnitOf(n)), Pow10(3 * UnitOf(n)));
    Regroup(Spaces(3 - Whole(n) - |Sign(d)|) + Sign(d), WholeDigits(n), Tenths(n), Suffix(UnitOf(n)));
  }

  lemma NoGroups()
    ensures Groups([]) == Some(0)
  {
  }

  lemma Regroup(front: bytes, x: bytes, y: bytes, z: bytes)
    ensures front + x + y + z == front + (x + (y + (z + [])))
  {
    assert front + x + y + z == front + (x + y + z) && x + y + z == x + (y + z) && z + [] == z;
  }

  lemma ShortUnit(n: nat)
    requires n < LIMIT
    ensures UnitOf(n) <= 3
  {
    LeadLength(n);
    DigitCount(n, 11);
    assert Pow10(11) == 100_000_000_000;
  }

  // ----- long durations -----

  lemma LongReads(d: int)
    requires LIMIT <= Abs(d)
    ensures var (first, second) := Units(Abs(d));
            var v := Abs(d) / first.size * first.size + Nearest(Abs(d) % first.size, second.size) * second.size;
            Reading(LongText(d)) == Some(if d < 0 then -v else v)
  {
    hide Reading, Groups, Number, UnitAt, Digits, Sign, Nearest;
    var (first, second) := Units(Abs(d));
    var x, y := Digits(Abs(d) / first.size), Digits(Nearest(Abs(d) % first.size, second.size));
    DigitsNumber(Abs(d) / first.size);
    DigitsNumber(Nearest(Abs(d) % first.size, second.size));
    var tail := y + ([] + ([second.suffix] + []));
    LongUnits(Abs(d), tail);
    NoGroups();
    ReadGroup(y, [], [second.suffix], second.size, []);
    ReadGroup(x, [], [first.suffix], first.size, tail);
    var body := x + ([] + ([first.suffix] + tail));
    assert body[0] == x[0];
    ReadPad(0, d, body);
    LongRegroup(Sign(d), x, [first.suffix], y, [second.suffix]);
  }

  lemma LongUnits(n: nat, tail: bytes)
    requires tail != [] && IsDigit(tail[0])
    ensures var (first, second) := Units(n);
            && UnitAt([first.suffix] + tail) == Parsed(first.size, 1) && !IsDigit(first.suffix) && first.suffix != POINT
            && UnitAt([second.suffix] + []) == Parsed(second.size, 1) && !IsDigit(second.suffix)
            && second.suffix != POINT
  {
    var (first, second) := Units(n);
    var s := [first.suffix] + tail;
    assert s[0] == first.suffix && s[1] == tail[0];
    assert [second.suffix] + [] == [second.suffix];
  }

  lemma LongRegroup(sign: bytes, x: bytes, p: bytes, y: bytes, q: bytes)
    ensures sign + (x + p) + (y + q) == Spaces(0) + sign + (x + ([] + (p + (y + ([] + (q + []))))))
  {
    assert Spaces(0) + sign == sign && q + [] == q && [] + q == q;
    var r := y + q;
    assert [] + (p + r) == p + r;
    assert sign + (x + p) + r == sign + ((x + p) + r) && (x + p) + r == x + (p + r);
  }

  lemma NearestIsNear(n: nat, unit: int)
    requires unit > 0 && unit % 2 == 0
    ensures 2 * Abs(Nearest(n, unit) * unit - n) <= unit
  {
    var q := n / unit;
    assert n == q * unit + n % unit;
    assert (q + 1) * unit == q * unit + unit;
  }

  // ----- the theorem -----

  /** Every duration prints as a text that reads back close to it: below 99s within one unit of the last place the
      text can show, and within half of it when three digits are shown; from 99s within half of the second unit. */
  lemma DurationReadsBack(d: int)
    ensures var r := Reading(DurationText(d));
            && r.Some? && (d == 0 ==> r.value == 0)
            && (0 < Abs(d) < LIMIT ==> Abs(r.value - d) < Place(Abs(d)))
            && (0 < Abs(d) < LIMIT && Whole(Abs(d)) == 3 ==> 2 * Abs(r.value - d) <= Place(Abs(d)))
            && (Abs(d) >= LIMIT ==> 2 * Abs(r.value - d) <= Units(Abs(d)).1.size)
  {
    hide Reading, ShortText, LongText, ShownShort, Place, Whole, Nearest;
    var n := Abs(d);
    if d == 0 {
      ZeroReads();
    } else if n < LIMIT {
      ShortReads(d);
      ShortIsNear(n);
    } else {
      LongReads(d);
      var (first, second) := Units(n);
      NearestIsNear(n % first.size, second.size);
      assert n == n / first.size * first.size + n % first.size;
    }
  }

  lemma ZeroReads()
    ensures Reading(DurationText(0)) == Some(0)
  {
    hide Reading, Groups, Number, UnitAt, Spaces, Sign, DurationText;
    DigitsNumber(0);
    UnitName(3);
    EmptyTail(S);
    ReadOneGroup(2, 0, [ZERO], [], S, SECOND);
    ZeroPad();
  }

  lemma EmptyTail(s: bytes)
    ensures s + [] == s
  {
  }

  lemma ZeroPad()
    ensures Spaces(2) + Sign(0) + ([ZERO] + ([] + (S + []))) == DurationText(0)
  {
  }

  // ----- in numbers -----

  /** The names of the units, and their sizes in nanoseconds. */
  lemma {:induction false} UnitsInBytes(rest: bytes)
    ensures UnitAt([0x6E, 0x73] + rest) == Parsed(1, 2) && UnitAt([0xC2, 0xB5, 0x73] + rest) == Parsed(1_000, 3)
    ensures UnitAt([0x6D, 0x73] + rest) == Parsed(1_000_000, 2) && UnitAt([0x73] + rest) == Parsed(1_000_000_000, 1)
    ensures rest == [] || rest[0] != 0x73 ==> UnitAt([0x6D] + rest) == Parsed(60_000_000_000, 1)
    ensures UnitAt([0x68] + rest) == Parsed(3_600_000_000_000, 1)
    ensures UnitAt([0x64] + rest) == Parsed(86_400_000_000_000, 1)
  {
    var d, h, m, s := [0x64] + rest, [0x68] + rest, [0x6D] + rest, [0x73] + rest;
    assert d[0] == 0x64 && h[0] == 0x68 && m[0] == 0x6D && s[0] == 0x73;
    assert m[..1] == M && (rest != [] ==> m[1] == rest[0]) && (MS <= m ==> m[..2][1] == 0x73);
    var ns, us, ms := [0x6E, 0x73] + rest, [0xC2, 0xB5, 0x73] + rest, [0x6D, 0x73] + rest;
    assert ns[..2] == NS && us[..3] == US && ms[..2] == MS && us[0] == 0xC2 && ms[0] == 0x6D;
  }

  /** Below a thousand nanoseconds the text is exact. */
  lemma ExactBelowThousand(n: nat)
    requires 0 < n < 1000
    ensures Place(n) == 1
  {
    DigitCount(n, 3);
    assert Pow10(3) == 1000 && Pow10(0) == 1;
    LeadLength(n);
  }

  /** From there on at least two digits are shown. */
  lemma TwoDigits(n: nat)
    requires n >= 1000
    ensures ShownShort(n) >= 10 * Place(n)
  {
    hide Place;
    DigitCount(n, 3);
    assert Pow10(3) == 1000;
    LeadLength(n);
    var k := Kept(n);
    LeadNotZero(n);
    assert UnitOf(n) > 0 && |k| >= 2;
    NumberDigits(k);
    assert Number(k) >= 10;
    Times(10, Number(k), Place(n));
  }

  lemma LeadNotZero(n: nat)
    requires n > 0
    ensures Lead(n) > 0
  {
    LeadLength(n);
    if Low(n) > 0 {
      assert |Digits(0)| == 1;
    }
  }

  /** What is read back, in nanoseconds: exact below a microsecond, within a tenth below 99s, and from there within
      half a second, half a minute from an hour on and half an hour from a day on. */
  lemma DurationInNumbers(d: int)
    ensures var r, n := Reading(DurationText(d)), if d < 0 then -d else d;
            && r.Some?
            && var off := if r.value < d then d - r.value else r.value - d;
               && (n < 1_000 ==> off == 0)
               && (n < 99_000_000_000 ==> 10 * off <= if r.value < 0 then -r.value else r.value)
               && (99_000_000_000 <= n < 3_600_000_000_000 ==> off <= 500_000_000)
               && (3_600_000_000_000 <= n < 86_400_000_000_000 ==> off <= 30_000_000_000)
               && (86_400_000_000_000 <= n ==> off <= 1_800_000_000_000)
  {
    hide Reading, DurationText, ShownShort, Place, Whole;
    DurationReadsBack(d);
    var n := Abs(d);
    if 0 < n < 1000 {
      ExactBelowThousand(n);
    } else if 1000 <= n < LIMIT {
      TwoDigits(n);
      ShortIsPrinted(d);
      ShortReads(d);
      ShortIsNear(n);
    }
  }

  lemma ShortIsPrinted(d: int)
    requires 0 < Abs(d) < LIMIT
    ensures DurationText(d) == ShortText(d)
  {
    hide ShortText;
  }

  /** The two forms meet at 99 seconds: ` 99s`, a nanosecond below, and `1m39s`. */
  lemma AtTheLimit()
    ensures DurationText(98_999_999_999) == [0x20, 0x39, 0x39, 0x73]
    ensures DurationText(99_000_000_000) == [0x31, 0x6D, 0x33, 0x39, 0x73]
  {
    hide Digits, Drop;
    var n := 98_999_999_999;
    DigitCount(n, 11);
    DigitCount(n, 10);
    assert Pow10(10) == 10_000_000_000 && Pow10(11) == 100_000_000_000;
    assert Low(n) == 8;
    assert Drop(n, 7) == 9899 by { DropIs(n); }
    assert Lead(n) == 990;
    SmallDigits();
    assert Length(n) == 11 && UnitOf(n) == 3 && Whole(n) == 2;
    assert WholeDigits(n) == [0x39, 0x39] && Tenths(n) == [];
    assert Spaces(1) == [0x20];
    assert DurationText(n) == ShortText(n);
    assert LongText(99_000_000_000) == [] + ([0x31] + [0x6D]) + ([0x33, 0x39] + [0x73]);
  }

  lemma DropIs(n: nat)
    requires n == 98_999_999_999
    ensures Drop(n, 7) == 9899
  {
    assert Drop(n, 7) == Drop(9_899_999_999, 6) == Drop(989_999_999, 5) == Drop(98_999_999, 4);
    assert Drop(98_999_999, 4) == Drop(9_899_999, 3) == Drop(989_999, 2) == Drop(98_999, 1) == Drop(9_899, 0);
  }

  lemma SmallDigits()
    ensures Digits(990) == [0x39, 0x39, 0x30] && Digits(1) == [0x31] && Digits(39) == [0x33, 0x39]
    ensures Digits(5) == [0x35] && Digits(120) == [0x31, 0x32, 0x30] && Digits(150) == [0x31, 0x35, 0x30]
    ensures Digits(100) == [0x31, 0x30, 0x30] && Digits(101) == [0x31, 0x30, 0x31]
  {
    assert Digits(9) == [0x39] && Digits(99) == [0x39, 0x39] && Digits(3) == [0x33];
    assert Digits(12) == [0x31, 0x32] && Digits(15) == [0x31, 0x35] && Digits(10) == [0x31, 0x30];
  }

  /** Three columns before the unit and the sign next to the digits, in `  5ns`, `-120ns` and ` -1.5us`. */
  lemma Alignment()
    ensures DurationText(5) == [0x20, 0x20, 0x35, 0x6E, 0x73]
    ensures DurationText(-120) == [0x2D, 0x31, 0x32, 0x30, 0x6E, 0x73]
    ensures DurationText(-1_500) == [0x20, 0x2D, 0x31, 0x2E, 0x35, 0xC2, 0xB5, 0x73]
  {
    hide Digits, DurationText, Spaces;
    SmallDigits();
    SomeSpaces();
    Sample(5, 5, 0, 1);
    Sample(-120, 120, 0, 3);
    Sample(-1_500, 150, 1, 1);
  }

  /** No tenth is shown if it is a zero, and halves are rounded up: `  1us`, `101us` and `1h1m`. */
  lemma RoundedUp()
    ensures DurationText(1_000) == [0x20, 0x20, 0x31, 0xC2, 0xB5, 0x73]
    ensures DurationText(100_500) == [0x31, 0x30, 0x31, 0xC2, 0xB5, 0x73]
    ensures DurationText(3_630_000_000_000) == [0x31, 0x68, 0x31, 0x6D]
  {
    hide Digits, DurationText, Spaces;
    SmallDigits();
    SomeSpaces();
    Sample(1_000, 100, 1, 1);
    Sample(100_500, 101, 1, 3);
    LongSample();
  }

  lemma SomeSpaces()
    ensures Spaces(2) == [0x20, 0x20] && Spaces(1) == [0x20] && Spaces(0) == [] && Spaces(-1) == []
  {
  }

  lemma LongSample()
    ensures DurationText(3_630_000_000_000) == [0x31, 0x68, 0x31, 0x6D]
  {
    hide Digits;
    SmallDigits();
    assert LongText(3_630_000_000_000) == [] + ([0x31] + [0x68]) + ([0x31] + [0x6D]);
  }

  /** A short text in its parts: `lead` are the leading digits, of which `whole` are before the point. */
  lemma {:induction false} Sample(d: int, lead: nat, unit: nat, whole: nat)
    requires (d, lead, unit, whole)
             in [(5, 5, 0, 1), (-120, 120, 0, 3), (-1500, 150, 1, 1), (1000, 100, 1, 1), (100500, 101, 1, 3)]
    ensures |Digits(lead)| >= whole && (unit > 0 ==> |Digits(lead)| == 3)
    ensures DurationText(d) ==
            Spaces(3 - whole - (if d < 0 then 1 else 0)) + (if d < 0 then [0x2D] else []) + Digits(lead)[..whole]
            + (if unit > 0 && whole == 1 && Digits(lead)[1] != 0x30 then [0x2E, Digits(lead)[1]] else [])
            + (if unit == 0 then [0x6E, 0x73] else [0xC2, 0xB5, 0x73])
  {
    hide Digits, Spaces, Lead, Low, Whole, UnitOf, Length, DurationText, ShortText;
    SmallDigits();
    var n := Abs(d);
    Shown(n, lead, if unit == 0 then 0 else if whole == 3 then 3 else 1);
    LengthIs(n);
    assert UnitOf(n) == unit && Whole(n) == whole;
    LeadLength(n);
    InParts(d);
  }

  lemma LengthIs(n: nat)
    ensures Length(n) == |Digits(Lead(n))| + Low(n)
    ensures UnitOf(n) == (Length(n) - 1) / 3 && Whole(n) == Length(n) - 3 * UnitOf(n)
  {
    hide Digits, Lead, Low;
  }

  lemma InParts(d: int)
    requires 0 < Abs(d) < LIMIT
    ensures var a := Abs(d);
            DurationText(d) ==
            Spaces(3 - Whole(a) - |Sign(d)|) + Sign(d) + WholeDigits(a) + Tenths(a) + Suffix(UnitOf(a))
  {
    hide Whole, UnitOf, WholeDigits, Tenths, Suffix, Spaces, Sign;
  }

  lemma {:induction false} Shown(n: nat, lead: nat, low: nat)
    requires (n, lead, low) in [(5, 5, 0), (120, 120, 0), (1500, 150, 1), (1000, 100, 1), (100500, 101, 3)]
    ensures Low(n) == low && Lead(n) == lead
  {
    hide Digits;
    assert Pow10(1) == 10 && Pow10(2) == 100 && Pow10(3) == 1000 && Pow10(4) == 10000;
    assert Pow10(5) == 100000 && Pow10(6) == 1000000;
    DigitCount(n, low + 3);
    if low > 0 {
      DigitCount(n, low + 2);
    }
    assert Drop(n, 0) == n && (n == 100500 ==> Drop(n, 2) == Drop(10050, 1) == Drop(1005, 0));
  }
}
