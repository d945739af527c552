/** Span ids as text: formatted into a buffer, whole or cut short, and parsed back. */
module Ids {
  import opened Wire
  import opened Loggers
  import Decimal

  const DASH: byte := '-' as int
  const BLANK: byte := '_' as int

  /** `Hex`: only digits. `Visible`: underscores for the zero id. `Uuid`: digits in five groups. */
  datatype Style = Hex | Visible | Uuid

  datatype Format = Format(style: Style, upper: bool)

  /** The digits of the bytes from the `j`-th on, with a dash before each group of a UUID but the first. */
  function Digits(id: ID, j: nat, f: Format): bytes
    requires j <= 16
    decreases 16 - j
  {
    if j == 16 then []
    else
      (if f.style == Uuid && j in {4, 6, 8, 10} then [DASH] else [])
      + [Decimal.HexDigit(id[j] / 16, f.upper), Decimal.HexDigit(id[j] % 16, f.upper)] + Digits(id, j + 1, f)
  }

  function Text(id: ID, f: Format): bytes {
    if id == NO_ID && f.style == Visible then seq(32, _ => BLANK) else Digits(id, 0, f)
  }

  function FullLength(f: Format): nat { if f.style == Uuid then 36 else 32 }

  predicate DashBefore(j: nat, f: Format) { f.style == Uuid && j in {4, 6, 8, 10} }

  /** Where the digits of the `j`-th byte, and the dash before them, start in the text. */
  function Offset(j: nat, f: Format): nat {
    2 * j + if f.style != Uuid || j <= 4 then 0
            else if j <= 6 then 1 else if j <= 8 then 2 else if j <= 10 then 3 else 4
  }

  lemma {:induction false} DigitsFrom(id: ID, j: nat, f: Format)
    requires j <= 16
    ensures |Digits(id, 0, f)| >= Offset(j, f) && Digits(id, 0, f)[Offset(j, f)..] == Digits(id, j, f)
    ensures Offset(16, f) == FullLength(f)
    decreases j
  {
    hide Digits;
    if j > 0 {
      DigitsFrom(id, j - 1, f);
      DigitsStep(id, j - 1, f);
      var text, from := Digits(id, 0, f), Offset(j - 1, f);
      assert text[from..][Offset(j, f) - from..] == text[Offset(j, f)..];
    }
  }

  lemma DigitsStep(id: ID, j: nat, f: Format)
    requires j < 16
    ensures var n := if DashBefore(j, f) then 1 else 0;
      && |Digits(id, j, f)| >= n + 2 && (n == 1 ==> Digits(id, j, f)[0] == DASH)
      && Digits(id, j, f)[n] == Decimal.HexDigit(id[j] / 16, f.upper)
      && Digits(id, j, f)[n + 1] == Decimal.HexDigit(id[j] % 16, f.upper)
      && Digits(id, j, f)[n + 2..] == Digits(id, j + 1, f)
  {
  }

  /** The characters of the `j`-th byte. */
  lemma CharsAt(id: ID, j: nat, f: Format)
    requires j < 16
    ensures |Digits(id, 0, f)| == FullLength(f)
    ensures var text, at, n := Digits(id, 0, f), Offset(j, f), if DashBefore(j, f) then 1 else 0;
      && at + n + 2 == Offset(j + 1, f) <= FullLength(f)
      && (n == 1 ==> text[at] == DASH)
      && text[at + n] == Decimal.HexDigit(id[j] / 16, f.upper)
      && text[at + n + 1] == Decimal.HexDigit(id[j] % 16, f.upper)
  {
    hide Digits;
    DigitsFrom(id, j, f);
    DigitsFrom(id, 16, f);
    DigitsFrom(id, j + 1, f);
    DigitsStep(id, j, f);
    NoDigits(id, f);
  }

  lemma NoDigits(id: ID, f: Format)
    ensures Digits(id, 16, f) == []
  {
  }

  /** The text in bytes: two digits for each byte of the id, and a UUID's dashes before bytes 4, 6, 8 and 10. */
  lemma TextInBytes(id: ID, f: Format, j: nat)
    requires j < 16 && (f.style != Visible || exists k | 0 <= k < 16 :: id[k] != 0)
    ensures var t, d := Text(id, f), if f.upper then Decimal.UPPER_DIGITS else Decimal.LOWER_DIGITS;
            var dashes := if j < 4 then 0 else if j < 6 then 1 else if j < 8 then 2 else if j < 10 then 3 else 4;
            var at := 2 * j + if f.style == Uuid then dashes else 0;
            && |t| == (if f.style == Uuid then 36 else 32)
            && t[at] == d[id[j] / 16] && t[at + 1] == d[id[j] % 16]
  {
    hide Digits, Decimal.HexDigit;
    Decimal.HexDigitIs(id[j] / 16, f.upper);
    Decimal.HexDigitIs(id[j] % 16, f.upper);
    CharsAt(id, j, f);
  }

  lemma DashesInText(id: ID, f: Format)
    requires f.style == Uuid
    ensures |Text(id, f)| == 36 && forall k | k in [8, 13, 18, 23] :: Text(id, f)[k] == 0x2D
  {
    hide Digits, Decimal.HexDigit;
    CharsAt(id, 4, f);
    CharsAt(id, 6, f);
    CharsAt(id, 8, f);
    CharsAt(id, 10, f);
  }

  /** The zero id is 32 underscores in the visible style. */
  lemma ZeroInText(id: ID, f: Format)
    requires f.style == Visible && forall k | 0 <= k < 16 :: id[k] == 0
    ensures Text(id, f) == seq(32, _ => 0x5F)
  {
    assert id == NO_ID;
  }

  function Min(x: nat, y: nat): nat { if x < y then x else y }

  /** Writes as much of the text as there is room for. */
  method FormatTo(b: array<byte>, st: nat, id: ID, f: Format) returns (i: nat)
    requires st <= b.Length
    modifies b
    ensures |Text(id, f)| == FullLength(f)
    ensures i == st + Min(b.Length - st, FullLength(f))
    ensures b[st..i] == Text(id, f)[..i - st]
    ensures b[..st] == old(b[..st]) && b[i..] == old(b[i..])
  {
    hide Digits, Offset, Decimal.HexDigit, FullLength, Text, DashBefore;
    i := st;
    if id == NO_ID {
      ZeroIsText(f);
      i := copyText(b, st, ZeroText(f));
      assert Text(id, f) == ZeroText(f);
      return;
    }
    var limit := st + Min(b.Length - st, FullLength(f));
    var j := 0;
    ghost var text := Text(id, f);
    TextIsDigits(id, f);
    LastByte(0, f);
    while i < limit
      invariant st <= i <= limit && |text| == FullLength(f)
      invariant i < limit ==> j < 16 && i == st + Offset(j, f)
      invariant forall k | st <= k < i :: b[k] == text[k - st]
      invariant forall k | 0 <= k < st || i <= k < b.Length :: b[k] == old(b[k])
      decreases limit - i
    {
      CharsAt(id, j, f);
      if DashBefore(j, f) {
        b[i] := DASH;
        i := i + 1;
      }
      if i == limit { break; }
      b[i] := Decimal.HexDigit(id[j] / 16, f.upper);
      i := i + 1;
      if i == limit { break; }
      b[i] := Decimal.HexDigit(id[j] % 16, f.upper);
      i := i + 1;
      j := j + 1;
      LastByte(j, f);
    }
    Pieces(b[..], old(b[..]), text, st, i);
    assert b[st..i] == b[..][st..i] && b[..st] == b[..][..st] && b[i..] == b[..][i..];
    assert old(b[..st]) == old(b[..])[..st] && old(b[i..]) == old(b[..])[i..];
  }

  lemma Pieces(now: bytes, was: bytes, text: bytes, st: nat, i: nat)
    requires |now| == |was| && st <= i <= |now| && i - st <= |text|
    requires forall k | st <= k < i :: now[k] == text[k - st]
    requires forall k | 0 <= k < st || i <= k < |now| :: now[k] == was[k]
    ensures now[st..i] == text[..i - st] && now[..st] == was[..st] && now[i..] == was[i..]
  {
  }

  lemma TextIsDigits(id: ID, f: Format)
    requires id != NO_ID
    ensures Text(id, f) == Digits(id, 0, f) && |Text(id, f)| == FullLength(f)
  {
    CharsAt(id, 0, f);
  }

  lemma LastByte(j: nat, f: Format)
    requires j <= 16
    ensures Offset(16, f) == FullLength(f) && Offset(0, f) == 0
    ensures Offset(j, f) < FullLength(f) ==> j < 16
  {
  }

  /** The constants written for the zero id. */
  function ZeroText(f: Format): bytes {
    match f.style
    case Visible => seq(32, _ => BLANK)
    case Uuid => seq(36, k => if k in {8, 13, 18, 23} then DASH else '0' as int)
    case Hex => seq(32, _ => '0' as int)
  }

  lemma ZeroIsText(f: Format)
    ensures ZeroText(f) == Text(NO_ID, f) && |ZeroText(f)| == FullLength(f)
  {
    hide Digits;
    if f.style != Visible {
      ZeroDigits(16, f);
      NoDigits(NO_ID, f);
      DigitsFrom(NO_ID, 16, f);
    }
  }

  lemma {:induction false} ZeroDigits(j: nat, f: Format)
    requires j <= 16 && f.style != Visible
    ensures Offset(j, f) <= |Digits(NO_ID, 0, f)| && Offset(j, f) <= |ZeroText(f)|
    ensures Digits(NO_ID, 0, f)[..Offset(j, f)] == ZeroText(f)[..Offset(j, f)]
  {
    hide Digits;
    if j > 0 {
      ZeroDigits(j - 1, f);
      CharsAt(NO_ID, j - 1, f);
    }
  }

  method copyText(b: array<byte>, st: nat, text: bytes) returns (i: nat)
    requires st <= b.Length
    modifies b
    ensures i == st + Min(b.Length - st, |text|) && b[st..i] == text[..i - st]
    ensures b[..st] == old(b[..st]) && b[i..] == old(b[i..])
  {
    i := st;
    while i < b.Length && i - st < |text|
      invariant st <= i <= st + Min(b.Length - st, |text|)
      invariant b[st..i] == text[..i - st]
      invariant b[..st] == old(b[..st]) && forall k | i <= k < b.Length :: b[k] == old(b[k])
    {
      b[i] := text[i - st];
      i := i + 1;
    }
  }

  // ----- parsing -----

  /** `Panics`: more digits than an id has room for. */
  datatype Parsed = Parsed(id: bytes) | TooShort(id: bytes, n: nat) | BadByte(id: bytes, c: byte) | Panics

  type nibble = x: int | 0 <= x < 16

  /** The value of a digit; an underscore counts as a zero. */
  function Nibble(c: byte): Option<nibble> {
    if '0' as int <= c <= '9' as int then Some(c - '0' as int)
    else if 'a' as int <= c <= 'f' as int then Some(c - 'a' as int + 10)
    else if 'A' as int <= c <= 'F' as int then Some(c - 'A' as int + 10)
    else if c == BLANK then Some(0)
    else None
  }

  /** The bytes that count as digits. */
  lemma NibblesInBytes(v: nat, c: byte)
    requires v < 16
    ensures Nibble(Decimal.LOWER_DIGITS[v]) == Nibble(Decimal.UPPER_DIGITS[v]) == Some(v)
    ensures Nibble(0x5F) == Some(0) && Nibble(0x2D) == None
    ensures Nibble(c).Some? ==> c == 0x5F || 0x30 <= c < 0x3A || 0x61 <= c < 0x67 || 0x41 <= c < 0x47
  {
  }

  /** The id in a text of 32 digits: a byte for every two of them, the first one its high half. */
  lemma DigitsParsed(s: bytes, k: nat)
    requires |s| == 32 && k < 16 && forall i | 0 <= i < 32 :: Nibble(s[i]).Some?
    ensures Parse(s).Parsed? && Parse(s).id[k] == 16 * (Nibble(s[2 * k]).value as int) + Nibble(s[2 * k + 1]).value
  {
    hide Nibble;
    AllNibbles(s);
    assert s[..32] == s;
  }

  lemma {:induction false} AllNibbles(s: bytes)
    requires forall i | 0 <= i < |s| :: Nibble(s[i]).Some?
    ensures Stop(s) == |s| == |Nibbles(s)| && forall i | 0 <= i < |s| :: Nibbles(s)[i] == Nibble(s[i]).value
  {
    hide Nibble;
    if s != [] {
      AllNibbles(s[..|s| - 1]);
    }
  }

  /** Length of the part before the first byte that is neither a digit nor a dash. */
  function Stop(s: bytes): (n: nat)
    ensures n <= |s|
  {
    if s == [] then 0
    else
      var n := Stop(s[..|s| - 1]);
      if n == |s| - 1 && (s[n] == DASH || Nibble(s[n]).Some?) then |s| else n
  }

  /** The digits, without the dashes. */
  function Nibbles(s: bytes): seq<nibble> {
    if s == [] then []
    else
      var c := s[|s| - 1];
      Nibbles(s[..|s| - 1]) + if Nibble(c).Some? then [Nibble(c).value] else []
  }

  /** Two digits a byte, zeros where there are none. */
  function Pack(ns: seq<nibble>): (id: bytes)
    ensures |id| == 16
  {
    seq(16, k requires 0 <= k < 16 => High(ns, k) + Low(ns, k))
  }

  function High(ns: seq<nibble>, k: nat): (v: int)
    ensures 0 <= v <= 240
  {
    if 2 * k >= |ns| then 0
    else
      var d: int := ns[2 * k];
      16 * d
  }

  function Low(ns: seq<nibble>, k: nat): nibble {
    if 2 * k + 1 < |ns| then ns[2 * k + 1] else 0
  }

  /** Digits are packed up to the first bad byte. */
  function Parse(s: bytes): Parsed {
    var n := Stop(s);
    var ns := Nibbles(s[..n]);
    if |ns| > 32 then Panics
    else if n < |s| then BadByte(Pack(ns), s[n])
    else if |ns| < 32 then TooShort(Pack(ns), |ns| / 2)
    else Parsed(Pack(ns))
  }

  method IDFromString(s: bytes) returns (r: Parsed)
    ensures r == Parse(s)
  {
    var id: bytes := NO_ID;
    var j := 0;
    assert s[..0] == [] && Pack([]) == NO_ID;
    for i := 0 to |s|
      invariant Stop(s[..i]) == i && |Nibbles(s[..i])| == j <= 32
      invariant id == Pack(Nibbles(s[..i]))
    {
      var c := s[i];
      ghost var ns := Nibbles(s[..i]);
      assert s[..i + 1][..i] == s[..i];
      if c == DASH {
        continue;
      }
      if Nibble(c).None? {
        StopsAt(s, i);
        return BadByte(id, c);
      }
      if j == 32 {
        TooMany(s, i + 1);
        return Panics;
      }
      var v: int := Nibble(c).value;
      id := id[j / 2 := id[j / 2] + if j % 2 == 0 then 16 * v else v];
      PackOne(ns, v);
      j := j + 1;
    }
    assert s[..|s|] == s;
    r := if j != 32 then TooShort(id, j / 2) else Parsed(id);
  }

  lemma PackOne(ns: seq<nibble>, v: nibble)
    requires |ns| < 32
    ensures var j := |ns|;
      Pack(ns + [v]) == Pack(ns)[j / 2 := Pack(ns)[j / 2] + if j % 2 == 0 then 16 * (v as int) else v]
  {
  }

  lemma {:induction false} StopsAt(s: bytes, i: nat)
    requires i < |s| && Stop(s[..i]) == i && s[i] != DASH && Nibble(s[i]).None?
    ensures Stop(s) == i
    decreases |s|
  {
    if i == |s| - 1 {
    } else {
      assert s[..|s| - 1][..i] == s[..i];
      StopsAt(s[..|s| - 1], i);
    }
  }

  lemma {:induction false} NibblesGrow(s: bytes, i: nat)
    requires i <= |s|
    ensures Nibbles(s[..i]) <= Nibbles(s)
    ensures Stop(s[..i]) == i ==> Stop(s) >= i
    decreases |s|
  {
    if i == |s| {
      assert s[..i] == s;
    } else {
      assert s[..|s| - 1][..i] == s[..i];
      NibblesGrow(s[..|s| - 1], i);
    }
  }

  lemma TooMany(s: bytes, i: nat)
    requires i <= |s| && Stop(s[..i]) == i && |Nibbles(s[..i])| > 32
    ensures |Nibbles(s[..Stop(s)])| > 32
  {
    NibblesGrow(s, i);
    assert s[..Stop(s)][..i] == s[..i];
    NibblesGrow(s[..Stop(s)], i);
  }

  // ----- the round trip -----

  /** The digits of the first `j` bytes of an id. */
  function DigitsOf(id: ID, j: nat): (ns: seq<nibble>)
    requires j <= 16
    ensures |ns| == 2 * j
  {
    seq(2 * j, k requires 0 <= k < 2 * j => if k % 2 == 0 then id[k / 2] / 16 else id[k / 2] % 16)
  }

  lemma NibbleBack(v: nat, upper: bool)
    requires v < 16
    ensures Nibble(Decimal.HexDigit(v, upper)) == Some(v) && Nibble(DASH) == None && Nibble(BLANK) == Some(0)
  {
  }

  lemma OneMoreByte(s: bytes, c: byte)
    ensures Nibbles(s + [c]) == Nibbles(s) + if Nibble(c).Some? then [Nibble(c).value] else []
    ensures Stop(s + [c]) == if Stop(s) == |s| && (c == DASH || Nibble(c).Some?) then |s| + 1 else Stop(s)
  {
    assert (s + [c])[..|s|] == s;
  }

  lemma {:induction false} TextDigits(id: ID, j: nat, f: Format)
    requires j <= 16
    ensures |Digits(id, 0, f)| == FullLength(f) && Offset(j, f) <= FullLength(f)
    ensures var s := Digits(id, 0, f)[..Offset(j, f)]; Stop(s) == |s| && Nibbles(s) == DigitsOf(id, j)
    decreases j
  {
    hide Digits, Decimal.HexDigit, Nibble, Stop, Nibbles, Offset, FullLength, DigitsOf;
    CharsAt(id, 0, f);
    LastByte(0, f);
    if j == 0 {
      Nothing();
      assert Digits(id, 0, f)[..0] == [];
    } else {
      TextDigits(id, j - 1, f);
      CharsAt(id, j - 1, f);
      var text, at, n := Digits(id, 0, f), Offset(j - 1, f), if DashBefore(j - 1, f) then 1 else 0;
      var hi, lo := text[at + n], text[at + n + 1];
      NibbleBack(id[j - 1] / 16, f.upper);
      NibbleBack(id[j - 1] % 16, f.upper);
      OneByte(text[..at], n == 1, hi, lo);
      Extend(text, at, n, hi, lo);
      NextDigits(id, j);
    }
  }

  lemma Extend(text: bytes, at: nat, n: nat, hi: byte, lo: byte)
    requires n <= 1 && at + n + 2 <= |text| && text[at + n] == hi && text[at + n + 1] == lo
             && (n == 1 ==> text[at] == DASH)
    ensures text[..at + n + 2] == text[..at] + (if n == 1 then [DASH] else []) + [hi] + [lo]
  {
  }

  lemma NextDigits(id: ID, j: nat)
    requires 0 < j <= 16
    ensures DigitsOf(id, j) == DigitsOf(id, j - 1) + [id[j - 1] / 16] + [id[j - 1] % 16]
  {
  }

  lemma OneByte(s: bytes, dash: bool, hi: byte, lo: byte)
    requires Stop(s) == |s| && Nibble(hi).Some? && Nibble(lo).Some?
    ensures var s' := s + (if dash then [DASH] else []) + [hi] + [lo];
      Stop(s') == |s'| && Nibbles(s') == Nibbles(s) + [Nibble(hi).value] + [Nibble(lo).value]
  {
    hide Stop, Nibbles;
    OneMoreByte(s, DASH);
    var d := s + if dash then [DASH] else [];
    assert Nibble(DASH) == None;
    assert Nibbles(s) + [] == Nibbles(s) && s + [] == s;
    OneMoreByte(d, hi);
    OneMoreByte(d + [hi], lo);
  }

  lemma Nothing()
    ensures Stop([]) == 0 && Nibbles([]) == []
  {
  }

  lemma {:induction false} Blanks(n: nat)
    ensures var s := seq(n, _ => BLANK); Stop(s) == n && |Nibbles(s)| == n && forall v | v in Nibbles(s) :: v == 0
  {
    var s := seq(n, _ => BLANK);
    if n > 0 {
      Blanks(n - 1);
      assert s[..n - 1] == seq(n - 1, _ => BLANK);
    }
  }

  lemma PackDigits(id: ID)
    ensures Pack(DigitsOf(id, 16)) == id
  {
  }

  /** Every id is parsed back from its full text, in every format. */
  lemma FullTextParses(id: ID, f: Format)
    ensures Parse(Text(id, f)) == Parsed(id)
  {
    hide Digits, Stop, Nibbles, Pack, Text, DigitsOf;
    TextNibbles(id, f);
    PackDigits(id);
    assert Text(id, f)[..|Text(id, f)|] == Text(id, f);
  }

  /** One digit more than an id has, and the original indexes past its end. */
  lemma OneDigitMore(id: ID, f: Format, c: byte)
    requires Nibble(c).Some?
    ensures Parse(Text(id, f) + [c]) == Panics
  {
    hide Digits, Stop, Nibbles, Pack, Text, Nibble, DigitsOf;
    var s := Text(id, f) + [c];
    TextNibbles(id, f);
    OneMoreByte(Text(id, f), c);
    assert s[..|s|] == s;
  }

  /** How many dashes are among the first `n` characters of a text. */
  function Dashes(n: nat, f: Format): (d: nat)
    ensures d <= n
  {
    if f.style != Uuid || n <= 8 then 0 else if n <= 13 then 1 else if n <= 18 then 2 else if n <= 23 then 3 else 4
  }

  /** An id of which only the first `d` digits are kept. */
  function FirstDigits(id: ID, d: nat): bytes {
    seq(16, k requires 0 <= k < 16 => if 2 * k + 1 < d then id[k] else if 2 * k < d then id[k] - id[k] % 16 else 0)
  }

  /** A text cut short is too short, and gives exactly the digits that are left. */
  lemma CutTextParses(id: ID, f: Format, n: nat)
    requires n < |Text(id, f)|
    ensures |Text(id, f)| == FullLength(f)
    ensures var d := n - Dashes(n, f); d < 32 && Parse(Text(id, f)[..n]) == TooShort(FirstDigits(id, d), d / 2)
  {
    hide Digits, Stop, Nibbles, Text, Pack, FirstDigits;
    var text := Text(id, f);
    TextNibbles(id, f);
    assert text[..|text|] == text;
    PrefixStops(text, n);
    DigitCount(id, f, n);
    NibblesGrow(text, n);
    assert text[..n][..n] == text[..n];
    PackFirst(id, n - Dashes(n, f));
    assert Nibbles(text[..n]) == Nibbles(text)[..n - Dashes(n, f)];
  }

  lemma PackFirst(id: ID, d: nat)
    requires d <= 32
    ensures Pack(DigitsOf(id, 16)[..d]) == FirstDigits(id, d)
  {
  }

  lemma TextNibbles(id: ID, f: Format)
    ensures |Text(id, f)| == FullLength(f)
    ensures Stop(Text(id, f)) == |Text(id, f)| && Nibbles(Text(id, f)) == DigitsOf(id, 16)
  {
    hide Digits, Stop, Nibbles;
    if id == NO_ID && f.style == Visible {
      Blanks(32);
      SameZeros(Nibbles(Text(id, f)), DigitsOf(id, 16));
    } else {
      TextDigits(id, 16, f);
      assert Digits(id, 0, f)[..FullLength(f)] == Digits(id, 0, f);
    }
  }

  lemma SameZeros(a: seq<nibble>, b: seq<nibble>)
    requires |a| == |b| && (forall v | v in a :: v == 0) && (forall v | v in b :: v == 0)
    ensures a == b
  {
    assert forall k | 0 <= k < |a| :: a[k] in a && b[k] in b;
  }

  lemma {:induction false} DigitCount(id: ID, f: Format, n: nat)
    requires n <= |Text(id, f)|
    ensures |Nibbles(Text(id, f)[..n])| == n - Dashes(n, f)
    decreases n
  {
    hide Nibble, Text, FullLength;
    if n > 0 {
      var text := Text(id, f);
      DigitCount(id, f, n - 1);
      assert text[..n][..n - 1] == text[..n - 1];
      CharKind(id, f, n - 1);
    }
  }

  lemma CharKind(id: ID, f: Format, k: nat)
    requires k < |Text(id, f)|
    ensures Nibble(Text(id, f)[k]).Some? <==> f.style != Uuid || k !in {8, 13, 18, 23}
  {
    hide Digits, Decimal.HexDigit, Nibble;
    if id == NO_ID && f.style == Visible {
      NibbleBack(0, f.upper);
    } else {
      CharsAt(id, 0, f);
      var j := (k - Dashes(k, f)) / 2;
      CharsAt(id, j, f);
      NibbleBack(id[j] / 16, f.upper);
      NibbleBack(id[j] % 16, f.upper);
    }
  }

  lemma {:induction false} PrefixStops(s: bytes, n: nat)
    requires n <= |s| && Stop(s) == |s|
    ensures Stop(s[..n]) == n
    decreases |s|
  {
    if n == |s| {
      assert s[..n] == s;
    } else {
      PrefixStops(s[..|s| - 1], n);
      assert s[..|s| - 1][..n] == s[..n];
    }
  }
}
