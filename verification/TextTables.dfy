/** Escapes, UTF-8 and JSON in bytes: what single bytes, code points and wire values become. */
module TextTables {
  import opened Wire
  import opened SafeStrings
  import opened JsonText
  import opened JsonConverter
  import Decimal
  import FormatTables
  import JsonGrammar

  // ----- escapes -----

  /** A byte below 0x80 at the front: a line feed becomes a backslash and the letter n, and so on. */
  lemma ByteEscaped(c: byte, rest: bytes)
    requires c < 0x80
    ensures Safe([c] + rest) ==
            (if c == 0x0A then [0x5C, 0x6E] else if c == 0x09 then [0x5C, 0x74] else if c == 0x0B then [0x5C, 0x76]
             else if c == 0x0D then [0x5C, 0x72] else if c == 0x07 then [0x5C, 0x61] else if c == 0x08 then [0x5C, 0x62]
             else if c == 0x0C then [0x5C, 0x66] else if c == 0x22 then [0x5C, 0x22] else if c == 0x5C then [0x5C, 0x5C]
             else [c]) + Safe(rest)
  {
    var s := [c] + rest;
    assert s[1..] == rest && s[..1] == [c];
  }

  /** A byte that no UTF-8 sequence starts at: a backslash, the letter x and two hexadecimal digits. */
  lemma ByteInHex(s: bytes)
    requires s != [] && s[0] >= 0x80 && RuneLength(s) == 0
    ensures Safe(s) == [0x5C, 0x78, Decimal.LOWER_DIGITS[s[0] / 16], Decimal.LOWER_DIGITS[s[0] % 16]] + Safe(s[1..])
  {
    hide RuneLength, Decimal.HexDigit;
    Decimal.HexDigitIs(s[0] / 16, false);
    Decimal.HexDigitIs(s[0] % 16, false);
  }

  // ----- UTF-8 -----

  /** Code points that have an encoding: all up to 0x10FFFF but the surrogates. */
  predicate CodePoint(cp: nat) { cp < 0xD800 || 0xE000 <= cp <= 0x10FFFF }

  /** Section 3 of RFC 3629: the bits of the code point, spread over one to four bytes. */
  function Encoded(cp: nat): bytes
    requires CodePoint(cp)
  {
    if cp < 0x80 then [cp]
    else if cp < 0x800 then [0xC0 + cp / 0x40, 0x80 + cp % 0x40]
    else if cp < 0x1_0000 then [0xE0 + cp / 0x1000, 0x80 + cp / 0x40 % 0x40, 0x80 + cp % 0x40]
    else [0xF0 + cp / 0x4_0000, 0x80 + cp / 0x1000 % 0x40, 0x80 + cp / 0x40 % 0x40, 0x80 + cp % 0x40]
  }

  /** The encoding of a code point is found whole, and escaped as `ByteEscaped` says or not at all. */
  lemma CodePointFound(cp: nat, rest: bytes)
    requires CodePoint(cp)
    ensures RuneLength(Encoded(cp) + rest) == |Encoded(cp)|
    ensures cp >= 0x80 ==> Safe(Encoded(cp) + rest) == Encoded(cp) + Safe(rest)
  {
    hide Safe, Decimal.HexDigit;
    FoundWhole(cp, rest);
    if cp >= 0x80 {
      KeptWhole(Encoded(cp), rest);
    }
  }

  lemma FoundWhole(cp: nat, rest: bytes)
    requires CodePoint(cp)
    ensures RuneLength(Encoded(cp) + rest) == |Encoded(cp)|
    ensures cp >= 0x80 ==> Encoded(cp)[0] >= 0xC0
  {
    if cp < 0x80 {
    } else if cp < 0x800 {
      assert 2 <= cp / 0x40 < 0x20;
    } else if cp < 0x1_0000 {
      assert cp / 0x1000 < 0x10 && (cp / 0x1000 == 0 ==> cp / 0x40 % 0x40 >= 0x20);
      assert cp / 0x1000 == 0xD ==> cp / 0x40 % 0x40 < 0x20;
    } else {
      assert cp / 0x4_0000 < 5 && (cp / 0x4_0000 == 0 ==> cp / 0x1000 % 0x40 >= 0x10);
      assert cp / 0x4_0000 == 4 ==> cp / 0x1000 % 0x40 < 0x10;
    }
  }

  lemma KeptWhole(x: bytes, rest: bytes)
    requires x != [] && x[0] >= 0x80 && RuneLength(x + rest) == |x|
    ensures Safe(x + rest) == x + Safe(rest)
  {
    hide RuneLength, Safe, Letter;
    NoLetter(x[0]);
    SafeStep(x + rest);
    assert (x + rest)[|x|..] == rest && (x + rest)[..|x|] == x;
  }

  lemma NoLetter(c: byte)
    ensures c >= 0x80 ==> Letter(c).None?
  {
  }

  lemma SafeStep(s: bytes)
    requires s != []
    ensures Safe(s) == Escaped(s) + Safe(s[Taken(s)..])
  {
    hide RuneLength, Escaped, Taken;
  }

  /** Whatever is found is the encoding of a code point. */
  lemma FoundIsCodePoint(s: bytes) returns (cp: nat)
    requires RuneLength(s) > 0
    ensures CodePoint(cp) && Encoded(cp) == s[..RuneLength(s)]
  {
    var n := RuneLength(s);
    if n == 1 {
      cp := s[0];
      assert s[..1] == [s[0]];
    } else if n == 2 {
      cp := Joined(0, 0, s[0] - 0xC0, s[1] - 0x80);
      assert s[..2] == [s[0], s[1]];
    } else if n == 3 {
      cp := Joined(0, s[0] - 0xE0, s[1] - 0x80, s[2] - 0x80);
      assert s[..3] == [s[0], s[1], s[2]];
    } else {
      cp := Joined(s[0] - 0xF0, s[1] - 0x80, s[2] - 0x80, s[3] - 0x80);
      assert s[..4] == [s[0], s[1], s[2], s[3]];
    }
  }

  /** The code point with the given groups of six bits. */
  lemma Joined(a: nat, b: nat, c: nat, d: nat) returns (cp: nat)
    requires b < 0x40 && c < 0x40 && d < 0x40
    ensures cp == a * 0x4_0000 + b * 0x1000 + c * 0x40 + d
    ensures cp % 0x40 == d && cp / 0x40 % 0x40 == c && cp / 0x1000 % 0x40 == b && cp / 0x4_0000 == a
    ensures a == 0 ==> cp / 0x1000 == b && (b == 0 ==> cp / 0x40 == c)
  {
    cp := a * 0x4_0000 + b * 0x1000 + c * 0x40 + d;
    assert cp / 0x40 == a * 0x1000 + b * 0x40 + c;
    assert cp / 0x1000 == a * 0x40 + b;
  }

  // ----- JSON strings -----

  /** What may stand in a JSON string, by section 7 of RFC 8259: after a backslash a quote, another backslash, a slash,
      one of the letters b, f, n, r and t, or u and four hexadecimal digits; no control bytes. */
  lemma JsonEscapes(c: byte, t: bytes)
    ensures c in {0x22, 0x5C, 0x2F, 0x62, 0x66, 0x6E, 0x72, 0x74} ==>
              JsonGrammar.StringEnd([0x5C, c] + t) == JsonGrammar.StringEnd(t)
    ensures c !in {0x22, 0x5C, 0x2F, 0x62, 0x66, 0x6E, 0x72, 0x74, 0x75} ==>
              JsonGrammar.StringEnd([0x5C, c] + t) == None
    ensures JsonGrammar.StringEnd([0x22] + t) == Some(t) && (c < 0x20 ==> JsonGrammar.StringEnd([c] + t) == None)
    ensures 0x20 <= c < 0x80 && c != 0x22 && c != 0x5C ==>
              JsonGrammar.StringEnd([c] + t) == JsonGrammar.StringEnd(t)
  {
    var x, y, z := [0x5C, c] + t, [c] + t, [0x22] + t;
    assert x[2..] == t && y[1..] == t && z[1..] == t;
  }

  // ----- wire values as JSON -----

  /** The words for the specials, from their bytes. */
  lemma WordAsText(v: Value)
    requires v.Simple? && Valid(Full, v)
    ensures JsonConverter.Plain(v)
    ensures Print(Meaning(v)) ==
            if Enc(v) == [0xF5] then [0x74, 0x72, 0x75, 0x65]
            else if Enc(v) == [0xF4] then [0x66, 0x61, 0x6C, 0x73, 0x65]
            else [0x6E, 0x75, 0x6C, 0x6C]
  {
    hide Valid;
    ValidSpecial(v);
    Words();
    FormatTables.SpecialsWritten();
    assert Enc(v) == [224 + v.sub];
  }

  lemma ValidSpecial(v: Value)
    requires v.Simple? && Valid(Full, v)
    ensures v.sub < 32
  {
  }

  lemma Words()
    ensures TRUE_WORD == [0x74, 0x72, 0x75, 0x65] && FALSE_WORD == [0x66, 0x61, 0x6C, 0x73, 0x65]
    ensures NULL_WORD == [0x6E, 0x75, 0x6C, 0x6C]
  {
  }

  /** Numbers in decimal, most significant digit first, and strings between quotes; a tag does not show. */
  lemma LeafAsText(v: Value)
    requires JsonConverter.Plain(v)
    ensures v.Num? ==>
              Print(Meaning(v)) ==
              if v.neg then [0x2D] + Decimal.Digits(v.head.arg + 1) else Decimal.Digits(v.head.arg)
    ensures v.Str? ==> Print(Meaning(v)) == [0x22] + Safe(v.data) + [0x22]
    ensures v.Sem? ==> Print(Meaning(v)) == Print(Meaning(v.inner))
  {
    hide Safe, Decimal.Digits;
  }

  lemma DigitByDigit(n: nat)
    ensures Decimal.Digits(n) == if n < 10 then [0x30 + n] else Decimal.Digits(n / 10) + [0x30 + n % 10]
  {
  }

  /** Arrays stand between brackets and objects between braces. */
  lemma ContainerAsText(v: Value)
    requires JsonConverter.Plain(v) && (v.Closed? || v.Open?)
    ensures Print(Meaning(v)) ==
            if v.isMap then [0x7B] + PrintItems(true, Meanings(true, v.items), true) + [0x7D]
            else [0x5B] + PrintItems(false, Meanings(false, v.items), true) + [0x5D]
  {
    hide PrintItems;
  }

  /** Items are separated by commas; in an object each has its key in quotes and a colon before it. */
  lemma ItemsAsText(isMap: bool, items: seq<Value>, first: bool)
    requires PlainItems(isMap, items)
    ensures items == [] ==> PrintItems(isMap, Meanings(isMap, items), first) == []
    ensures items != [] && isMap ==>
              && |items| >= 2 && items[0].Str? && JsonConverter.Plain(items[1]) && PlainItems(true, items[2..])
              && PrintItems(true, Meanings(true, items), first) ==
                 (if first then [] else [0x2C]) + ([0x22] + Safe(items[0].data) + [0x22] + [0x3A])
                 + Print(Meaning(items[1])) + PrintItems(true, Meanings(true, items[2..]), false)
    ensures items != [] && !isMap ==>
              && JsonConverter.Plain(items[0]) && PlainItems(false, items[1..])
              && PrintItems(false, Meanings(false, items), first) ==
                 (if first then [] else [0x2C]) + [] + Print(Meaning(items[0]))
                 + PrintItems(false, Meanings(false, items[1..]), false)
  {
    hide Safe, Print, Meaning, JsonConverter.Plain;
    if items != [] {
      var n := if isMap then 2 else 1;
      assert Meanings(isMap, items)[1..] == Meanings(isMap, items[n..]);
    }
  }

  /** Each event is a line of its own. */
  lemma LinesAsText(items: seq<Item>, item: Item)
    ensures Lines([]) == [] && Lines(items + [item]) == Lines(items) + (Print(item.value) + [0x0A])
  {
    hide Print;
    assert (items + [item])[..|items|] == items;
  }
}
