/** Escaping of byte strings: the result is well-formed UTF-8 whatever the bytes were, and can be read back. */
module SafeStrings {
  import opened Wire
  import Decimal

  const QUOTE: byte := '\"' as int
  const SLASH: byte := '\\' as int
  const HEX_MARK: byte := 'x' as int

  // ----- UTF-8, section 4 of RFC 3629 -----

  predicate Tail(s: bytes, i: nat) { i < |s| && 0x80 <= s[i] <= 0xBF }

  predicate Between(s: bytes, i: nat, lo: byte, hi: byte) { i < |s| && lo <= s[i] <= hi }

  /** Length of the well-formed sequence at the front, zero if there is none. */
  function RuneLength(s: bytes): (n: nat)
    ensures n <= 4 && n <= |s|
  {
    if s == [] then 0
    else
      var c := s[0];
      if c <= 0x7F then 1
      else if 0xC2 <= c <= 0xDF && Tail(s, 1) then 2
      else if Tail(s, 2) && ((c == 0xE0 && Between(s, 1, 0xA0, 0xBF)) || (0xE1 <= c <= 0xEC && Tail(s, 1))
                             || (c == 0xED && Between(s, 1, 0x80, 0x9F)) || (0xEE <= c <= 0xEF && Tail(s, 1))) then 3
      else if Tail(s, 2) && Tail(s, 3) && ((c == 0xF0 && Between(s, 1, 0x90, 0xBF)) || (0xF1 <= c <= 0xF3 && Tail(s, 1))
                                           || (c == 0xF4 && Between(s, 1, 0x80, 0x8F))) then 4
      else 0
  }

  predicate Utf8(s: bytes) {
    s == [] || (RuneLength(s) > 0 && Utf8(s[RuneLength(s)..]))
  }

  // ----- escaping -----

  /** The letter after the backslash, for the bytes that have one. */
  function Letter(c: byte): Option<byte> {
    if c == QUOTE || c == SLASH then Some(c)
    else if c == 10 then Some('n' as int) else if c == 9 then Some('t' as int)
    else if c == 11 then Some('v' as int) else if c == 13 then Some('r' as int)
    else if c == 7 then Some('a' as int) else if c == 8 then Some('b' as int)
    else if c == 12 then Some('f' as int)
    else None
  }

  predicate Plain(c: byte) { c != QUOTE && c != SLASH && 0x20 <= c <= 0x7E }

  /** How many bytes are taken from the front at once. */
  function Taken(s: bytes): (n: nat)
    requires s != []
    ensures 0 < n <= |s|
  {
    if Letter(s[0]).Some? || RuneLength(s) == 0 then 1 else RuneLength(s)
  }

  /** What they become. */
  function Escaped(s: bytes): bytes
    requires s != []
  {
    if Letter(s[0]).Some? then [SLASH, Letter(s[0]).value]
    else if RuneLength(s) == 0 then
      [SLASH, HEX_MARK, Decimal.HexDigit(s[0] / 16, false), Decimal.HexDigit(s[0] % 16, false)]
    else s[..RuneLength(s)]
  }

  function Safe(s: bytes): bytes {
    if s == [] then [] else Escaped(s) + Safe(s[Taken(s)..])
  }

  lemma {:induction false} PlainRun(s: bytes, i: nat)
    requires i <= |s| && forall k | 0 <= k < i :: Plain(s[k])
    ensures Safe(s) == s[..i] + Safe(s[i..])
    decreases i
  {
    hide Safe, Escaped, Taken, RuneLength;
    if i > 0 {
      PlainRun(s[1..], i - 1);
      PlainByte(s);
      assert s[..i] == [s[0]] + s[1..][..i - 1] && s[1..][i - 1..] == s[i..];
    } else {
      assert s[..0] == [] && s[0..] == s;
    }
  }

  lemma PlainByte(s: bytes)
    requires s != [] && Plain(s[0])
    ensures Safe(s) == [s[0]] + Safe(s[1..])
  {
    hide Escaped, Taken, RuneLength, Letter;
    PlainEscape(s);
  }

  lemma PlainEscape(s: bytes)
    requires s != [] && Plain(s[0])
    ensures Escaped(s) == [s[0]] && Taken(s) == 1
  {
    assert s[..1] == [s[0]];
  }

  method AppendSafeString(b: bytes, str: bytes) returns (r: bytes)
    ensures r == b + Safe(str)
  {
    hide Safe, RuneLength;
    r := b;
    var s := str;
    assert str[0..] == str && b + Safe(str) == r + Safe(s);
    while true
      invariant b + Safe(str) == r + Safe(s)
      decreases |s|
    {
      var i := 0;
      while i < |s| && Plain(s[i])
        invariant i <= |s| && forall k | 0 <= k < i :: Plain(s[k])
      {
        i := i + 1;
      }
      PlainRun(s, i);
      Concatenate(r, s[..i], Safe(s[i..]));
      r := r + s[..i];
      if i == |s| {
        NothingLeft(r, s[i..]);
        return;
      }
      s := s[i..];
      Unfold(r, s);
      var width := 1;
      var letter := Letter(s[0]);
      if letter.Some? {
        r := r + [SLASH, letter.value];
      } else {
        var rune := RuneLength(s);
        if rune == 0 {
          r := r + [SLASH, HEX_MARK, Decimal.HexDigit(s[0] / 16, false), Decimal.HexDigit(s[0] % 16, false)];
        } else {
          width := rune;
          r := r + s[..width];
        }
      }
      s := s[width..];
    }
  }

  lemma Concatenate(r: bytes, x: bytes, y: bytes)
    ensures r + (x + y) == r + x + y
  {
  }

  lemma NothingLeft(r: bytes, s: bytes)
    requires s == []
    ensures r + Safe(s) == r
  {
  }

  lemma Unfold(r: bytes, s: bytes)
    requires s != []
    ensures r + Safe(s) == r + Escaped(s) + Safe(s[Taken(s)..])
  {
  }

  function Quoted(s: bytes): bytes { [QUOTE] + Safe(s) + [QUOTE] }

  method AppendQuoteString(b: bytes, s: bytes) returns (r: bytes)
    ensures r == b + Quoted(s)
  {
    r := b + [QUOTE];
    r := AppendSafeString(r, s);
    r := r + [QUOTE];
    assert r == b + ([QUOTE] + Safe(s) + [QUOTE]);
  }

  // ----- reading back -----

  /** The text up to the first quote that is not escaped, and what follows the quote. */
  datatype Reading = Ended(value: bytes, rest: bytes) | Broken

  function Push(s: bytes, r: Reading): Reading {
    if r.Ended? then Ended(s + r.value, r.rest) else r
  }

  function HexValue(c: byte): (v: int)
    ensures -1 <= v < 16
  {
    if '0' as int <= c <= '9' as int then c - '0' as int
    else if 'a' as int <= c <= 'f' as int then c - 'a' as int + 10 else -1
  }

  function Unletter(c: byte): Option<byte> {
    if c == QUOTE || c == SLASH then Some(c)
    else if c == 'n' as int then Some(10) else if c == 't' as int then Some(9)
    else if c == 'v' as int then Some(11) else if c == 'r' as int then Some(13)
    else if c == 'a' as int then Some(7) else if c == 'b' as int then Some(8)
    else if c == 'f' as int then Some(12)
    else None
  }

  function Read(t: bytes): (r: Reading)
    ensures r.Ended? ==> |r.rest| < |t|
  {
    if t == [] then Broken
    else if t[0] == QUOTE then Ended([], t[1..])
    else if t[0] != SLASH then Push([t[0]], Read(t[1..]))
    else if |t| > 1 && Unletter(t[1]).Some? then Push([Unletter(t[1]).value], Read(t[2..]))
    else if |t| > 3 && t[1] == HEX_MARK && HexValue(t[2]) >= 0 && HexValue(t[3]) >= 0 then
      Push([HexValue(t[2]) * 16 + HexValue(t[3])], Read(t[4..]))
    else Broken
  }

  lemma LetterBack(c: byte)
    ensures Letter(c).Some? ==> Unletter(Letter(c).value) == Some(c)
    ensures Unletter(HEX_MARK) == None
    ensures HexValue(Decimal.HexDigit(c / 16, false)) * 16 + HexValue(Decimal.HexDigit(c % 16, false)) == c
            && HexValue(Decimal.HexDigit(c / 16, false)) >= 0
  {
  }

  /** The bytes of a rune that are not escaped are read one by one. */
  lemma {:induction false} ReadRaw(s: bytes, t: bytes)
    requires forall k | 0 <= k < |s| :: s[k] != QUOTE && s[k] != SLASH
    ensures Read(s + t) == Push(s, Read(t))
  {
    if s == [] {
      assert s + t == t;
      assert Read(t).Ended? ==> [] + Read(t).value == Read(t).value;
    } else {
      ReadRaw(s[1..], t);
      assert (s + t)[1..] == s[1..] + t;
      assert Read(t).Ended? ==> [s[0]] + (s[1..] + Read(t).value) == s + Read(t).value;
    }
  }

  lemma RawRune(s: bytes)
    requires s != [] && Letter(s[0]).None?
    ensures forall k | 0 <= k < RuneLength(s) :: s[k] != QUOTE && s[k] != SLASH
  {
  }

  lemma ReadEscaped(s: bytes, t: bytes)
    requires s != []
    ensures Read(Escaped(s) + t) == Push(s[..Taken(s)], Read(t))
  {
    hide RuneLength;
    LetterBack(s[0]);
    var e := Escaped(s);
    if Letter(s[0]).Some? {
      assert (e + t)[2..] == t && s[..1] == [s[0]];
    } else if RuneLength(s) == 0 {
      assert (e + t)[4..] == t && s[..1] == [s[0]];
    } else {
      RawRune(s);
      ReadRaw(e, t);
    }
  }

  /** Escaping can be undone: what is between the quotes is read back, and reading stops at the closing quote. */
  lemma {:induction false} ReadSafe(s: bytes, rest: bytes)
    ensures Read(Safe(s) + [QUOTE] + rest) == Ended(s, rest)
    decreases |s|
  {
    hide Escaped, Taken;
    if s == [] {
      assert Safe(s) + [QUOTE] + rest == [QUOTE] + rest;
      assert ([QUOTE] + rest)[1..] == rest;
    } else {
      var n := Taken(s);
      var tail := Safe(s[n..]) + [QUOTE] + rest;
      ReadSafe(s[n..], rest);
      ReadEscaped(s, tail);
      assert Safe(s) + [QUOTE] + rest == Escaped(s) + tail;
      assert s[..n] + s[n..] == s;
    }
  }

  lemma SafeInjective(s: bytes, t: bytes)
    ensures Safe(s) == Safe(t) ==> s == t
  {
    ReadSafe(s, []);
    ReadSafe(t, []);
  }

  /** The quoted form ends exactly at its last quote. */
  lemma QuotedEnds(s: bytes, rest: bytes)
    ensures Quoted(s)[0] == QUOTE && Read((Quoted(s) + rest)[1..]) == Ended(s, rest)
  {
    hide Safe, Read;
    ReadSafe(s, rest);
    assert (Quoted(s) + rest)[1..] == Safe(s) + [QUOTE] + rest;
  }

  // ----- UTF-8 in, UTF-8 out: whatever comes in -----

  lemma RuneAlone(s: bytes, t: bytes)
    requires RuneLength(s) > 0
    ensures RuneLength(s[..RuneLength(s)] + t) == RuneLength(s)
  {
  }

  lemma {:induction false} AsciiThen(s: bytes, t: bytes)
    requires Utf8(t) && forall k | 0 <= k < |s| :: s[k] <= 0x7F
    ensures Utf8(s + t)
  {
    if s == [] {
      assert s + t == t;
    } else {
      AsciiThen(s[1..], t);
      assert (s + t)[1..] == s[1..] + t;
    }
  }

  lemma EscapedUtf8(s: bytes, t: bytes)
    requires s != [] && Utf8(t)
    ensures Utf8(Escaped(s) + t)
  {
    if Letter(s[0]).None? && RuneLength(s) > 0 {
      RuneAlone(s, t);
      assert (Escaped(s) + t)[RuneLength(s)..] == t;
    } else {
      AsciiThen(Escaped(s), t);
    }
  }

  lemma {:induction false} SafeIsUtf8(s: bytes)
    ensures Utf8(Safe(s))
    decreases |s|
  {
    if s != [] {
      SafeIsUtf8(s[Taken(s)..]);
      EscapedUtf8(s, Safe(s[Taken(s)..]));
    }
  }

  /** No line feed is left. */
  lemma {:induction false} SafeIsOneLine(s: bytes)
    ensures 10 !in Safe(s)
    decreases |s|
  {
    if s != [] {
      SafeIsOneLine(s[Taken(s)..]);
      EscapedIsOneLine(s);
    }
  }

  lemma EscapedIsOneLine(s: bytes)
    requires s != []
    ensures 10 !in Escaped(s)
  {
    if Letter(s[0]).None? {
      forall k | 0 <= k < RuneLength(s)
        ensures s[k] != 10
      {
      }
    }
  }

  // ----- JSON strings, section 7 of RFC 8259 -----

  /** The letters JSON allows after a backslash, but for `u`. */
  predicate JsonLetter(c: byte) {
    c in {QUOTE, SLASH, '/' as int, 'b' as int, 'f' as int, 'n' as int, 'r' as int, 't' as int}
  }

  predicate HexDigits(s: bytes) {
    forall c | c in s :: '0' as int <= c <= '9' as int || 'a' as int <= c <= 'f' as int || 'A' as int <= c <= 'F' as int
  }

  /** Characters that may stand between the quotes: runes but controls, quotes and backslashes, or escapes. */
  predicate JsonChars(t: bytes) {
    if t == [] then true
    else if t[0] == SLASH then
      (|t| >= 2 && JsonLetter(t[1]) && JsonChars(t[2..]))
      || (|t| >= 6 && t[1] == 'u' as int && HexDigits(t[2..6]) && JsonChars(t[6..]))
    else t[0] >= 0x20 && t[0] != QUOTE && RuneLength(t) > 0 && JsonChars(t[RuneLength(t)..])
  }

  predicate JsonString(t: bytes) {
    |t| >= 2 && t[0] == QUOTE && t[|t| - 1] == QUOTE && JsonChars(t[1..|t| - 1])
  }

  /** Control bytes are fine only if JSON has a letter for them. */
  predicate JsonControl(c: byte) { c >= 0x20 || c in {8, 9, 10, 12, 13} }

  /** The quoted form is a JSON string exactly when the text is UTF-8 and its control bytes are `\b`, `\t`, `\n`, `\f`
      or `\r`: JSON has no `\a`, `\v` or `\x..`, and no raw control bytes. */
  lemma JsonIffPlainUtf8(s: bytes)
    ensures JsonString(Quoted(s)) <==> Utf8(s) && forall k | 0 <= k < |s| :: s[k] >= 0x20 || s[k] in {8, 9, 10, 12, 13}
  {
    hide Safe, JsonChars;
    JsonSafe(s);
    assert Quoted(s)[1..|Quoted(s)| - 1] == Safe(s);
  }

  lemma {:induction false} JsonSafe(s: bytes)
    ensures JsonChars(Safe(s)) <==> Utf8(s) && forall k | 0 <= k < |s| :: JsonControl(s[k])
    decreases |s|
  {
    hide Escaped, RuneLength, Letter;
    if s == [] {
    } else {
      var n, rest := Taken(s), s[Taken(s)..];
      JsonSafe(rest);
      JsonEscaped(s, Safe(rest));
      FirstTaken(s);
      assert forall k | n <= k < |s| :: s[k] == rest[k - n];
      assert forall k | 0 <= k < |rest| :: rest[k] == s[k + n];
    }
  }

  /** What is taken first is one rune or one byte that is no rune. */
  lemma FirstTaken(s: bytes)
    requires s != []
    ensures RuneLength(s) > 0 ==> RuneLength(s) == Taken(s)
    ensures Taken(s) > 1 ==> forall k | 0 <= k < Taken(s) :: JsonControl(s[k])
  {
  }

  lemma JsonEscaped(s: bytes, t: bytes)
    requires s != []
    ensures JsonChars(Escaped(s) + t) <==> RuneLength(s) > 0 && JsonControl(s[0]) && JsonChars(t)
  {
    var e := Escaped(s);
    if Letter(s[0]).Some? {
      assert (e + t)[2..] == t;
    } else if RuneLength(s) == 0 {
      assert (e + t)[1] == HEX_MARK;
    } else {
      RuneAlone(s, t);
      assert (e + t)[RuneLength(s)..] == t;
    }
  }
}
