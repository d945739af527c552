/** The format in numbers: what heads, specials, floats and values are, byte by byte. */
module FormatTables {
  import opened Wire
  import opened Framing

  /** The major types by their numbers, which stand in the top three bits of a first byte. */
  const MAJORS := [Int, Neg, Bytes, Text, Array, Map, Semantic, Special]

  // ----- reading -----

  lemma OneMore(s: bytes, k: nat)
    requires k < |s|
    ensures FromBigEndian(s[..k + 1]) == FromBigEndian(s[..k]) * 256 + s[k]
  {
    assert s[..k + 1][..k] == s[..k];
  }

  lemma TwoBytes(s: bytes)
    requires |s| >= 2
    ensures FromBigEndian(s[..1]) == s[0] && FromBigEndian(s[..2]) == s[0] as int * 0x100 + s[1]
  {
    OneMore(s, 0);
    OneMore(s, 1);
  }

  lemma FourBytes(s: bytes)
    requires |s| >= 4
    ensures FromBigEndian(s[..4]) == s[0] as int * 0x100_0000 + s[1] as int * 0x1_0000 + s[2] as int * 0x100 + s[3]
  {
    hide FromBigEndian;
    TwoBytes(s);
    OneMore(s, 2);
    OneMore(s, 3);
  }

  lemma EightBytes(s: bytes)
    requires |s| >= 8
    ensures FromBigEndian(s[..8]) ==
            s[0] as int * 0x100_0000_0000_0000 + s[1] as int * 0x1_0000_0000_0000 + s[2] as int * 0x100_0000_0000
            + s[3] as int * 0x1_0000_0000 + s[4] as int * 0x100_0000 + s[5] as int * 0x1_0000 + s[6] as int * 0x100
            + s[7]
  {
    hide FromBigEndian;
    FourBytes(s);
    OneMore(s, 4);
    OneMore(s, 5);
    OneMore(s, 6);
    OneMore(s, 7);
  }

  lemma Behind(c: byte, rest: bytes, n: nat)
    requires n <= |rest|
    ensures ([c] + rest)[1..1 + n] == rest[..n]
  {
  }

  /** A head with its argument in the first byte, or without one. */
  lemma ShortHeadRead(c: byte, rest: bytes)
    ensures c < 0xE0 && c % 32 < 24 ==> ReadTag([c] + rest, 0) == Tag(MAJORS[c / 32], c % 32, 1)
    ensures c < 0xE0 && 28 <= c % 32 < 31 ==> ReadTag([c] + rest, 0) == TagBadFormat
    ensures c < 0xE0 && c % 32 == 31 ==> ReadTag([c] + rest, 0) == Tag(MAJORS[c / 32], -1, 1)
    ensures c >= 0xE0 ==> ReadTag([c] + rest, 0) == Tag(Special, 0, 1)
  {
  }

  /** A head with its argument in the bytes after the first, most significant first, taken for an int64. */
  lemma LongHeadRead(c: byte, r: bytes)
    requires c < 0xE0 && 24 <= c % 32 < 28
    ensures var k := if c % 32 == 24 then 1 else if c % 32 == 25 then 2 else if c % 32 == 26 then 4 else 8;
            && (|r| < k ==> ReadTag([c] + r, 0) == TagEOF)
            && (|r| >= k ==>
                var n :=
                  if k == 1 then r[0] as int
                  else if k == 2 then r[0] as int * 0x100 + r[1]
                  else if k == 4 then r[0] as int * 0x100_0000 + r[1] as int * 0x1_0000 + r[2] as int * 0x100 + r[3]
                  else
                    r[0] as int * 0x100_0000_0000_0000 + r[1] as int * 0x1_0000_0000_0000
                    + r[2] as int * 0x100_0000_0000 + r[3] as int * 0x1_0000_0000
                    + r[4] as int * 0x100_0000 + r[5] as int * 0x1_0000 + r[6] as int * 0x100 + r[7];
                ReadTag([c] + r, 0)
                == Tag(MAJORS[c / 32], if k == 8 && r[0] >= 0x80 then n - 0x1_0000_0000_0000_0000 else n, 1 + k))
  {
    hide FromBigEndian;
    var k := if c % 32 == 24 then 1 else if c % 32 == 25 then 2 else if c % 32 == 26 then 4 else 8;
    if |r| >= k {
      Behind(c, r, k);
      if k == 1 {
        OneMore(r, 0);
        NoBytes(r[..0]);
      } else if k == 2 {
        TwoBytes(r);
      } else if k == 4 {
        FourBytes(r);
      } else {
        EightBytes(r);
      }
    }
  }

  lemma NoBytes(s: bytes)
    ensures s == [] ==> FromBigEndian(s) == 0
  {
  }

  /** Where the stream reader finds the end of a special: in one byte, after a float, or nowhere. */
  lemma SpecialEnds(c: byte, rest: bytes)
    requires c >= 0xE0
    ensures Skip(Stream, [c] + rest, 0) ==
            if c in {0xF4, 0xF5, 0xF6, 0xF7, 0xFF} then End(1)
            else if c < 0xF8 || c > 0xFB then BadSpecial
            else
              var w := if c == 0xF8 then 1 else if c == 0xF9 then 2 else if c == 0xFA then 4 else 8;
              if |rest| < w then UnexpectedEOF else End(1 + w)
    ensures Skip(Full, [c] + rest, 0) ==
            if c in {0xEA, 0xEB, 0xF3} then End(1) else Skip(Stream, [c] + rest, 0)
  {
    hide ReadTag, SkipItems, Skip, SkipSpecial, Upto;
    ShortHeadRead(c, rest);
    SkipLevel(Stream, [c] + rest, 0);
    SkipLevel(Full, [c] + rest, 0);
    SpecialStep(Stream, c, rest);
    SpecialStep(Full, c, rest);
  }

  lemma SpecialStep(g: Grammar, c: byte, rest: bytes)
    requires c >= 0xE0
    ensures SkipSpecial(g, [c] + rest, 0) ==
            if c in {0xF4, 0xF5, 0xF6, 0xF7, 0xFF} || (g == Full && c in {0xEA, 0xEB, 0xF3}) then End(1)
            else if c < 0xF8 || c > 0xFB then BadSpecial
            else
              var w := if c == 0xF8 then 1 else if c == 0xF9 then 2 else if c == 0xFA then 4 else 8;
              if |rest| < w then UnexpectedEOF else End(1 + w)
  {
  }

  /** A float ends behind its payload: of one byte, two, four or eight, by its first byte. */
  lemma FloatEnds(g: Grammar, c: byte, payload: bytes, rest: bytes)
    requires (c, |payload|) in [(0xF8, 1), (0xF9, 2), (0xFA, 4), (0xFB, 8)]
    ensures Skip(g, [c] + payload + rest, 0) == End(1 + |payload|)
    ensures Valid(g, Float(c - 224, payload)) && Enc(Float(c - 224, payload)) == [c] + payload
  {
    Assoc([c], payload, rest);
    SpecialEnds(c, payload + rest);
  }

  // ----- what is well formed -----

  /** Which arguments fit which heads. */
  lemma HeadsThatFit(n: nat)
    ensures (ValidHead(Head(W0, n)) <==> n < 24) && (ValidHead(Head(W1, n)) <==> n < 0x100)
    ensures (ValidHead(Head(W2, n)) <==> n < 0x1_0000) && (ValidHead(Head(W4, n)) <==> n < 0x1_0000_0000)
    ensures ValidHead(Head(W8, n)) <==> n < 0x1_0000_0000_0000_0000
  {
    assert Pow256(1) == 0x100 && Pow256(2) == 0x1_0000;
    assert Pow256(4) == 0x100 * (0x100 * Pow256(2)) && Pow256(5) == 0x100 * Pow256(4);
    assert Pow256(8) == 0x100 * (0x100 * (0x100 * Pow256(5)));
  }

  /** Which trees are well formed: lengths are announced as they are, and below 2^63; a map of either form has as many
      values as keys; the specials are those of the format, or of the stream reader; floats have their payload. */
  lemma ValidTrees(g: Grammar, h: Head, x: bool, s: bytes, items: seq<Value>, v: Value, sub: byte)
    requires ValidHead(h)
    ensures Valid(g, Num(x, h)) && (Valid(g, Sem(h, v)) <==> Valid(g, v))
    ensures Valid(g, Str(x, h, s)) <==> h.arg == |s| < 0x8000_0000_0000_0000
    ensures Valid(g, Closed(x, h, items)) <==>
            && h.arg < 0x8000_0000_0000_0000 && |items| == (if x then 2 * h.arg else h.arg)
            && forall i <- items :: Valid(g, i)
    ensures Valid(g, Open(x, items)) <==> (x ==> |items| % 2 == 0) && forall i <- items :: Valid(g, i)
    ensures Valid(g, Simple(sub)) <==> 20 <= sub <= 23 || (g == Full && (sub == 10 || sub == 11 || sub == 19))
    ensures Valid(g, Float(sub, s)) <==> (sub, |s|) in [(24, 1), (25, 2), (26, 4), (27, 8)]
  {
    ValidAllIs(g, items);
  }

  lemma {:induction false} ValidAllIs(g: Grammar, items: seq<Value>)
    ensures ValidAll(g, items) <==> forall i <- items :: Valid(g, i)
  {
    hide Valid;
    if items != [] {
      ValidAllIs(g, items[1..]);
      assert items[0] in items && (forall i <- items :: i == items[0] || i in items[1..]);
      assert forall i <- items[1..] :: i in items;
    }
  }

  // ----- writing -----

  /** The bytes of a head of each width: the number of the major type, then the argument. */
  lemma HeadWritten(k: nat, n: nat)
    requires k < 8 && n < 0x1_0000_0000_0000_0000
    ensures n < 24 ==> HeadBytes(MAJORS[k], Head(W0, n)) == [32 * k + n]
    ensures n < 0x100 ==> HeadBytes(MAJORS[k], Head(W1, n)) == [32 * k + 24, n]
    ensures n < 0x1_0000 ==> HeadBytes(MAJORS[k], Head(W2, n)) == [32 * k + 25, n / 0x100, n % 0x100]
    ensures n < 0x1_0000_0000 ==>
              HeadBytes(MAJORS[k], Head(W4, n)) ==
              [32 * k + 26, n / 0x100_0000, n / 0x1_0000 % 0x100, n / 0x100 % 0x100, n % 0x100]
    ensures HeadBytes(MAJORS[k], Head(W8, n)) ==
            [32 * k + 27, n / 0x100_0000_0000_0000, n / 0x1_0000_0000_0000 % 0x100, n / 0x100_0000_0000 % 0x100,
             n / 0x1_0000_0000 % 0x100, n / 0x100_0000 % 0x100, n / 0x1_0000 % 0x100, n / 0x100 % 0x100, n % 0x100]
  {
    hide BigEndian;
    assert MajorCode(MAJORS[k]) == k;
    Written(n);
  }

  lemma Written(n: nat)
    requires n < 0x1_0000_0000_0000_0000
    ensures BigEndian(n, 0) == [] && BigEndian(n, 1) == [n % 0x100]
    ensures BigEndian(n, 2) == [n / 0x100 % 0x100, n % 0x100]
    ensures BigEndian(n, 4) == [n / 0x100_0000 % 0x100, n / 0x1_0000 % 0x100, n / 0x100 % 0x100, n % 0x100]
    ensures BigEndian(n, 8) == HighBytes(n) + BigEndian(n, 4)
  {
    hide BigEndian, HighBytes;
    WrittenTwo(n);
    WrittenFour(n);
    FourMore(n, 4);
    HighWritten(n);
  }

  function HighBytes(n: nat): bytes
    requires n < 0x1_0000_0000_0000_0000
  {
    [n / 0x100_0000_0000_0000, n / 0x1_0000_0000_0000 % 0x100, n / 0x100_0000_0000 % 0x100,
     n / 0x1_0000_0000 % 0x100]
  }

  lemma HighWritten(n: nat)
    requires n < 0x1_0000_0000_0000_0000
    ensures BigEndian(n / 0x1_0000_0000, 4) == HighBytes(n)
  {
    hide BigEndian;
    HighDigits(n);
    WrittenFour(n / 0x1_0000_0000);
  }

  lemma HighDigits(n: nat)
    requires n < 0x1_0000_0000_0000_0000
    ensures var h := n / 0x1_0000_0000;
            && h / 0x100_0000 % 0x100 == n / 0x100_0000_0000_0000 < 0x100
            && h / 0x1_0000 % 0x100 == n / 0x1_0000_0000_0000 % 0x100
            && h / 0x100 % 0x100 == n / 0x100_0000_0000 % 0x100
  {
  }

  lemma WrittenFour(n: nat)
    ensures BigEndian(n, 4) == [n / 0x100_0000 % 0x100, n / 0x1_0000 % 0x100, n / 0x100 % 0x100, n % 0x100]
  {
    hide BigEndian;
    FourMore(n, 0);
    WrittenTwo(n / 0x1_0000_0000);
  }

  lemma FourMore(n: nat, k: nat)
    ensures BigEndian(n, k + 4) ==
            BigEndian(n / 0x1_0000_0000, k)
            + [n / 0x100_0000 % 0x100, n / 0x1_0000 % 0x100, n / 0x100 % 0x100, n % 0x100]
  {
    hide BigEndian;
    TwoMore(n, k + 2);
    TwoMore(n / 0x1_0000, k);
    assert n / 0x1_0000 / 0x100 == n / 0x100_0000 && n / 0x1_0000 / 0x1_0000 == n / 0x1_0000_0000;
  }

  lemma TwoMore(n: nat, k: nat)
    ensures BigEndian(n, k + 2) == BigEndian(n / 0x1_0000, k) + [n / 0x100 % 0x100, n % 0x100]
  {
    hide BigEndian;
    Last(n, k + 2);
    Last(n / 0x100, k + 1);
    assert n / 0x100 / 0x100 == n / 0x1_0000;
  }

  lemma Last(n: nat, k: nat)
    requires k > 0
    ensures BigEndian(n, k) == BigEndian(n / 0x100, k - 1) + [n % 0x100]
  {
  }

  lemma WrittenTwo(n: nat)
    ensures BigEndian(n, 0) == [] && BigEndian(n, 1) == [n % 0x100]
    ensures BigEndian(n, 2) == [n / 0x100 % 0x100, n % 0x100]
  {
    hide BigEndian;
    NoDigits(n);
    NoDigits(n / 0x100);
    NoDigits(n / 0x1_0000);
    Last(n, 1);
    TwoMore(n, 0);
  }

  lemma NoDigits(n: nat)
    ensures BigEndian(n, 0) == []
  {
  }

  /** The shortest head, the one that is written for a number or a length. */
  lemma ShortestHead(k: nat, n: nat)
    requires k < 8 && n < 0x1_0000_0000_0000_0000
    ensures var h := HeadBytes(MAJORS[k], MinHead(n));
            if n < 24 then h == [32 * k + n]
            else if n < 0x100 then h == [32 * k + 24, n]
            else if n < 0x1_0000 then h == [32 * k + 25, n / 0x100, n % 0x100]
            else if n < 0x1_0000_0000 then
              h == [32 * k + 26, n / 0x100_0000, n / 0x1_0000 % 0x100, n / 0x100 % 0x100, n % 0x100]
            else
              h == [32 * k + 27, n / 0x100_0000_0000_0000, n / 0x1_0000_0000_0000 % 0x100, n / 0x100_0000_0000 % 0x100,
                    n / 0x1_0000_0000 % 0x100, n / 0x100_0000 % 0x100, n / 0x1_0000 % 0x100, n / 0x100 % 0x100,
                    n % 0x100]
  {
    hide HeadBytes;
    HeadWritten(k, n);
  }

  /** Numbers, strings, containers, tags and specials, for arguments below 24. */
  lemma ValuesWritten(n: nat, s: bytes, items: seq<Value>, v: Value)
    requires n < 24 && |s| < 24
    ensures Enc(NumTree(n)) == [n] && Enc(NumTree(-1 - n)) == [0x20 + n]
    ensures Enc(Str(false, MinHead(|s|), s)) == [0x40 + |s|] + s && Enc(TextTree(s)) == [0x60 + |s|] + s
    ensures Enc(Closed(false, MinHead(n), items)) == [0x80 + n] + EncAll(items)
    ensures Enc(Closed(true, MinHead(n), items)) == [0xA0 + n] + EncAll(items)
    ensures Enc(Open(false, items)) == [0x9F] + EncAll(items) + [0xFF]
    ensures Enc(Open(true, items)) == [0xBF] + EncAll(items) + [0xFF]
    ensures Enc(Sem(MinHead(n), v)) == [0xC0 + n] + Enc(v)
  {
    hide HeadBytes, EncAll, MinHead;
    ShortestHead(0, n);
    ShortestHead(1, n);
    ShortestHead(2, |s|);
    ShortestHead(3, |s|);
    ShortestHead(4, n);
    ShortestHead(5, n);
    ShortestHead(6, n);
  }

  /** Numbers and texts of any size: the shortest head, whose bytes `ShortestHead` gives. */
  lemma LongValuesWritten(n: nat, s: bytes)
    ensures Enc(NumTree(n)) == HeadBytes(MAJORS[0], MinHead(n))
    ensures Enc(NumTree(-1 - n)) == HeadBytes(MAJORS[1], MinHead(n))
    ensures Enc(TextTree(s)) == HeadBytes(MAJORS[3], MinHead(|s|)) + s
  {
    hide HeadBytes, MinHead;
  }

  lemma SpecialsWritten()
    ensures Enc(Simple(SELF_REF)) == [0xEA] && Enc(Simple(HIDDEN)) == [0xEB] && Enc(Simple(NONE)) == [0xF3]
    ensures Enc(Simple(FALSE)) == [0xF4] && Enc(Simple(TRUE)) == [0xF5]
    ensures Enc(Simple(NIL)) == [0xF6] && Enc(Simple(UNDEFINED)) == [0xF7]
  {
  }
}
