/** Finding the end of an encoded value: `readTag` and `skip`. */
module Framing {
  import opened Wire

  datatype TagResult = Tag(major: Major, sub: int, next: nat) | TagEOF | TagBadFormat

  /** Conversion of an unsigned 64-bit number to int64. */
  function WrapInt64(n: nat): int
    requires n < Pow256(8)
  {
    if n <= MAX_INT then n else n - 0x1_0000_0000_0000_0000
  }

  lemma {:induction false} FromBigEndianBound(s: bytes)
    ensures FromBigEndian(s) < Pow256(|s|)
    decreases |s|
  {
    if s != [] {
      FromBigEndianBound(s[..|s| - 1]);
    }
  }

  /** Reads the `n` argument bytes that follow a head's first byte. */
  function ReadArg(b: bytes, m: Major, i: nat, n: nat): (r: TagResult)
    requires i <= |b| && n <= 8
    ensures r.Tag? ==> i <= r.next <= |b|
  {
    if i + n > |b| then TagEOF
    else
      FromBigEndianBound(b[i..i + n]);
      Pow256Monotone(n, 8);
      Tag(m, WrapInt64(FromBigEndian(b[i..i + n])), i + n)
  }

  lemma {:induction false} Pow256Monotone(m: nat, n: nat)
    requires m <= n
    ensures Pow256(m) <= Pow256(n)
    decreases n
  {
    if m < n {
      Pow256Monotone(m, n - 1);
    }
  }

  function ArgLen(sub: int): (n: nat)
    ensures n <= 8
  {
    if sub == LEN1 then 1 else if sub == LEN2 then 2 else if sub == LEN4 then 4 else 8
  }

  function ReadTag(b: bytes, st: nat): (r: TagResult)
    ensures r.Tag? ==> st < r.next <= |b|
  {
    if st >= |b| then TagEOF
    else
      var m, sub := MajorOf(b[st]), b[st] % 32;
      if m == Special then Tag(m, 0, st + 1)
      else if sub < LEN1 then Tag(m, sub, st + 1)
      else if sub == BREAK then Tag(m, -1, st + 1)
      else if sub <= LEN8 then ReadArg(b, m, st + 1, ArgLen(sub))
      else TagBadFormat
  }

  /** `Rewound`: the announced string length is negative (indefinite, or 2^63 and above), which moves
      the index backwards; the model does not follow the index there. */
  datatype Skipped = End(end: nat) | UnexpectedEOF | BadFormat | BadSpecial | Rewound

  function Upto(b: bytes, i: nat): Skipped {
    if i > |b| then UnexpectedEOF else End(i)
  }

  function SkipSpecial(g: Grammar, b: bytes, st: nat): (r: Skipped)
    requires st < |b|
    ensures r.End? ==> st < r.end <= |b|
  {
    var sub := b[st] % 32;
    if OneByteSpecial(g, sub) || sub == BREAK then Upto(b, st + 1)
    else if FLOAT8 <= sub <= FLOAT64 then Upto(b, st + 1 + FloatWidth(sub))
    else BadSpecial
  }

  function Skip(g: Grammar, b: bytes, st: nat): (r: Skipped)
    ensures r.End? ==> st < r.end <= |b|
    decreases |b| - st, 0
  {
    match ReadTag(b, st)
    case TagEOF => UnexpectedEOF
    case TagBadFormat => BadFormat
    case Tag(m, sub, i) =>
      match m
      case Int => Upto(b, i)
      case Neg => Upto(b, i)
      case Bytes => if sub < 0 then Rewound else Upto(b, i + sub)
      case Text => if sub < 0 then Rewound else Upto(b, i + sub)
      case Array => SkipItems(g, b, i, false, sub, 0)
      case Map => SkipItems(g, b, i, true, sub, 0)
      case Semantic => Skip(g, b, i)
      case Special => SkipSpecial(g, b, st)
  }

  /** One turn of the element loop: a key and a value in a map, a value in an array. */
  function SkipElement(g: Grammar, b: bytes, i: nat, isMap: bool): (r: Skipped)
    requires i <= |b|
    ensures r.End? ==> i < r.end <= |b|
    decreases |b| - i, 1
  {
    var k := if isMap then Skip(g, b, i) else End(i);
    if k.End? then Skip(g, b, k.end) else k
  }

  /** The element loop of `skip`, entered at index `i` with `el` elements done. */
  function SkipItems(g: Grammar, b: bytes, i: nat, isMap: bool, sub: int, el: nat): (r: Skipped)
    requires i <= |b|
    ensures r.End? ==> i <= r.end <= |b|
    decreases |b| - i, 2
  {
    if sub != -1 && el >= sub then End(i)
    else if i == |b| then UnexpectedEOF
    else if sub == -1 && b[i] == BREAK_BYTE then End(i + 1)
    else
      var v := SkipElement(g, b, i, isMap);
      if v.End? then SkipItems(g, b, v.end, isMap, sub, el + 1) else v
  }

  /** `Skip` and the element loop, one level down. */
  lemma SkipLevel(g: Grammar, b: bytes, st: nat)
    ensures ReadTag(b, st) == TagEOF ==> Skip(g, b, st) == UnexpectedEOF
    ensures ReadTag(b, st) == TagBadFormat ==> Skip(g, b, st) == BadFormat
    ensures var t := ReadTag(b, st);
            t.Tag? ==>
              Skip(g, b, st) ==
              if t.major == Bytes || t.major == Text then (if t.sub < 0 then Rewound else Upto(b, t.next + t.sub))
              else if t.major == Array || t.major == Map then SkipItems(g, b, t.next, t.major == Map, t.sub, 0)
              else if t.major == Semantic then Skip(g, b, t.next)
              else if t.major == Special then SkipSpecial(g, b, st)
              else Upto(b, t.next)
  {
    hide ReadTag, SkipItems, SkipSpecial;
  }

  lemma SpecialNext(b: bytes, st: nat)
    ensures ReadTag(b, st).Tag? && ReadTag(b, st).major == Special ==> ReadTag(b, st).next == st + 1
  {
  }

  lemma SkipTurn(g: Grammar, b: bytes, i: nat, isMap: bool, sub: int, el: nat)
    requires i <= |b|
    ensures SkipItems(g, b, i, isMap, sub, el) ==
            if sub != -1 && el >= sub then End(i)
            else if i == |b| then UnexpectedEOF
            else if sub == -1 && b[i] == BREAK_BYTE then End(i + 1)
            else
              var v := SkipElement(g, b, i, isMap);
              if v.End? then SkipItems(g, b, v.end, isMap, sub, el + 1) else v
  {
    hide SkipElement;
  }

  // ----- stability: only UnexpectedEOF depends on what follows -----

  lemma ReadTagStable(b: bytes, x: bytes, st: nat)
    requires ReadTag(b, st) != TagEOF
    ensures ReadTag(b + x, st) == ReadTag(b, st)
  {
    assert (b + x)[st] == b[st];
    var n := ArgLen(b[st] % 32);
    if st + 1 + n <= |b| {
      assert (b + x)[st + 1..st + 1 + n] == b[st + 1..st + 1 + n];
    }
  }

  lemma {:induction false} SkipStable(g: Grammar, b: bytes, x: bytes, st: nat)
    requires Skip(g, b, st) != UnexpectedEOF
    ensures Skip(g, b + x, st) == Skip(g, b, st)
    decreases |b| - st, 0
  {
    ReadTagStable(b, x, st);
    match ReadTag(b, st)
    case Tag(Array, sub, i) => SkipItemsStable(g, b, x, i, false, sub, 0);
    case Tag(Map, sub, i) => SkipItemsStable(g, b, x, i, true, sub, 0);
    case Tag(Semantic, _, i) => SkipStable(g, b, x, i);
    case _ =>
  }

  lemma {:induction false} SkipElementStable(g: Grammar, b: bytes, x: bytes, i: nat, isMap: bool)
    requires i <= |b| && SkipElement(g, b, i, isMap) != UnexpectedEOF
    ensures SkipElement(g, b + x, i, isMap) == SkipElement(g, b, i, isMap)
    decreases |b| - i, 1
  {
    if isMap {
      SkipStable(g, b, x, i);
    }
    var k := if isMap then Skip(g, b, i) else End(i);
    if k.End? {
      SkipStable(g, b, x, k.end);
    }
  }

  lemma {:induction false} SkipItemsStable(g: Grammar, b: bytes, x: bytes, i: nat, isMap: bool, sub: int, el: nat)
    requires i <= |b| && SkipItems(g, b, i, isMap, sub, el) != UnexpectedEOF
    ensures SkipItems(g, b + x, i, isMap, sub, el) == SkipItems(g, b, i, isMap, sub, el)
    decreases |b| - i, 2
  {
    if (sub != -1 && el >= sub) || (sub == -1 && b[i] == BREAK_BYTE) {
    } else {
      SkipElementStable(g, b, x, i, isMap);
      var v := SkipElement(g, b, i, isMap);
      if v.End? {
        SkipItemsStable(g, b, x, v.end, isMap, sub, el + 1);
      }
    }
  }

  /** The central fact of incremental framing: on a prefix of a buffer whose first value ends at `e`, the
      answer is `e` when the prefix reaches it and UnexpectedEOF otherwise, whatever follows `e`. */
  lemma SkipOnPrefix(g: Grammar, b: bytes, st: nat, n: nat)
    requires n <= |b| && Skip(g, b, st).End?
    ensures var e := Skip(g, b, st).end;
            Skip(g, b[..n], st) == if e <= n then End(e) else UnexpectedEOF
  {
    var e := Skip(g, b, st).end;
    assert b == b[..n] + b[n..];
    if Skip(g, b[..n], st) != UnexpectedEOF {
      SkipStable(g, b[..n], b[n..], st);
    } else if e <= n {
      SkipCut(g, b, st, n);
    }
  }

  /** A value that ends at or before `n` is found without looking past `n`. */
  lemma {:induction false} SkipCut(g: Grammar, b: bytes, st: nat, n: nat)
    requires n <= |b| && Skip(g, b, st).End? && Skip(g, b, st).end <= n
    ensures Skip(g, b[..n], st) == Skip(g, b, st)
    decreases |b| - st, 0
  {
    ReadTagCut(b, st, n);
    match ReadTag(b, st)
    case Tag(Array, sub, i) => SkipItemsCut(g, b, i, false, sub, 0, n);
    case Tag(Map, sub, i) => SkipItemsCut(g, b, i, true, sub, 0, n);
    case Tag(Semantic, _, i) => SkipCut(g, b, i, n);
    case _ =>
  }

  lemma {:induction false} SkipElementCut(g: Grammar, b: bytes, i: nat, isMap: bool, n: nat)
    requires i <= n <= |b| && SkipElement(g, b, i, isMap).End? && SkipElement(g, b, i, isMap).end <= n
    ensures SkipElement(g, b[..n], i, isMap) == SkipElement(g, b, i, isMap)
    decreases |b| - i, 1
  {
    var k := if isMap then Skip(g, b, i) else End(i);
    SkipCut(g, b, k.end, n);
    if isMap {
      SkipCut(g, b, i, n);
    }
  }

  lemma {:induction false} SkipItemsCut(g: Grammar, b: bytes, i: nat, isMap: bool, sub: int, el: nat, n: nat)
    requires i <= n <= |b|
    requires SkipItems(g, b, i, isMap, sub, el).End? && SkipItems(g, b, i, isMap, sub, el).end <= n
    ensures SkipItems(g, b[..n], i, isMap, sub, el) == SkipItems(g, b, i, isMap, sub, el)
    decreases |b| - i, 2
  {
    if (sub != -1 && el >= sub) || (sub == -1 && b[i] == BREAK_BYTE) {
    } else {
      var v := SkipElement(g, b, i, isMap);
      SkipItemsCut(g, b, v.end, isMap, sub, el + 1, n);
      SkipElementCut(g, b, i, isMap, n);
    }
  }

  lemma ReadTagCut(b: bytes, st: nat, n: nat)
    requires n <= |b| && ReadTag(b, st).Tag? && ReadTag(b, st).next <= n
    ensures ReadTag(b[..n], st) == ReadTag(b, st)
  {
    var k := ArgLen(b[st] % 32);
    if st + 1 + k <= n {
      assert b[..n][st + 1..st + 1 + k] == b[st + 1..st + 1 + k];
    }
  }

  // ----- position independence -----

  function Shift(r: Skipped, k: nat): Skipped {
    if r.End? then End(r.end + k) else r
  }

  function ShiftTag(r: TagResult, k: nat): TagResult {
    if r.Tag? then Tag(r.major, r.sub, r.next + k) else r
  }

  lemma ReadTagShift(b: bytes, k: nat, st: nat)
    requires k <= |b|
    ensures ReadTag(b, k + st) == ShiftTag(ReadTag(b[k..], st), k)
  {
    if k + st < |b| {
      assert b[k..][st] == b[k + st];
      var n := ArgLen(b[k + st] % 32);
      if k + st + 1 + n <= |b| {
        assert b[k..][st + 1..st + 1 + n] == b[k + st + 1..k + st + 1 + n];
      }
    }
  }

  lemma SkipSpecialShift(g: Grammar, b: bytes, k: nat, st: nat)
    requires k + st < |b|
    ensures SkipSpecial(g, b, k + st) == Shift(SkipSpecial(g, b[k..], st), k)
  {
  }

  lemma {:induction false} SkipShift(g: Grammar, b: bytes, c: bytes, k: nat, st: nat)
    requires k <= |b| && c == b[k..]
    ensures Skip(g, b, k + st) == Shift(Skip(g, c, st), k)
    decreases |b| - st, 0
  {
    hide ReadTag, SkipItems, SkipSpecial;
    ReadTagShift(b, k, st);
    var t := ReadTag(c, st);
    if t.Tag? {
      if t.major == Special {
        SkipSpecialShift(g, b, k, st);
      } else if t.major in {Array, Map} {
        SkipItemsShift(g, b, c, k, t.next, t.major == Map, t.sub, 0);
      } else if t.major == Semantic {
        SkipShift(g, b, c, k, t.next);
      }
    }
  }

  lemma {:induction false} SkipElementShift(g: Grammar, b: bytes, c: bytes, k: nat, i: nat, isMap: bool)
    requires k + i <= |b| && c == b[k..]
    ensures SkipElement(g, b, k + i, isMap) == Shift(SkipElement(g, c, i, isMap), k)
    decreases |b| - i, 1
  {
    hide Skip;
    if isMap {
      SkipShift(g, b, c, k, i);
    }
    var r := if isMap then Skip(g, c, i) else End(i);
    if r.End? {
      SkipShift(g, b, c, k, r.end);
    }
  }

  lemma {:induction false} SkipItemsShift(g: Grammar, b: bytes, c: bytes, k: nat, i: nat, isMap: bool,
                                            sub: int, el: nat)
    requires k + i <= |b| && c == b[k..]
    ensures SkipItems(g, b, k + i, isMap, sub, el) == Shift(SkipItems(g, c, i, isMap, sub, el), k)
    decreases |b| - i, 2
  {
    hide Skip, SkipElement;
    if (sub != -1 && el >= sub) || i == |c| || (sub == -1 && b[k + i] == BREAK_BYTE) {
    } else {
      SkipElementShift(g, b, c, k, i, isMap);
      var v := SkipElement(g, c, i, isMap);
      if v.End? {
        SkipItemsShift(g, b, c, k, v.end, isMap, sub, el + 1);
      }
    }
  }

  // ----- exactness on trees -----

  /** The first byte of a head holds its major type and the form of its argument. */
  lemma HeadFirstByte(m: Major, h: Head)
    requires ValidHead(h)
    ensures MajorOf(HeadBytes(m, h)[0]) == m
    ensures var low := HeadBytes(m, h)[0] % 32;
            if h.width == W0 then low == h.arg < LEN1 else LEN1 <= low <= LEN8 && ArgLen(low) == ArgBytes(h.width)
    ensures HeadBytes(m, h)[0] % 32 != BREAK
  {
    var first := HeadBytes(m, h)[0];
    var low := first - MajorCode(m) * 32;
    assert 0 <= low < BREAK;
    ByteParts(MajorCode(m), low);
    MajorOfCode(m);
  }

  lemma ByteParts(c: nat, low: nat)
    requires c < 8 && low < 32
    ensures (c * 32 + low) / 32 == c && (c * 32 + low) % 32 == low
  {
  }

  lemma MajorOfCode(m: Major)
    ensures forall b: byte | b / 32 == MajorCode(m) :: MajorOf(b) == m
  {
  }

  lemma ReadTagExact(b: bytes, st: nat, m: Major, h: Head)
    requires m != Special && ValidHead(h) && At(b, st, HeadBytes(m, h))
    ensures h.arg < Pow256(8)
    ensures ReadTag(b, st) == Tag(m, WrapInt64(h.arg), st + |HeadBytes(m, h)|)
  {
    hide HeadBytes, BigEndian, FromBigEndian, Pow256;
    var s, n := HeadBytes(m, h), ArgBytes(h.width);
    HeadFirstByte(m, h);
    ArgumentFits(h);
    assert b[st] == b[st..st + |s|][0] == s[0];
    if h.width != W0 {
      assert b[st + 1..st + 1 + n] == b[st..st + |s|][1..] == s[1..];
      HeadArgument(m, h);
    }
  }

  lemma ArgumentFits(h: Head)
    requires ValidHead(h)
    ensures h.arg < Pow256(8) && (h.width == W0 ==> h.arg <= MAX_INT)
  {
    Pow256Monotone(ArgBytes(h.width), 8);
    assert Pow256(0) <= LEN1 < Pow256(1) <= Pow256(8) by { Pow256Monotone(1, 8); }
  }

  /** The bytes after a head's first one hold its argument. */
  lemma HeadArgument(m: Major, h: Head)
    requires ValidHead(h) && h.width != W0
    ensures FromBigEndian(HeadBytes(m, h)[1..]) == h.arg
  {
    hide BigEndian, FromBigEndian;
    assert HeadBytes(m, h)[1..] == BigEndian(h.arg, ArgBytes(h.width));
    BigEndianRoundTrip(h.arg, ArgBytes(h.width));
  }

  /** No encoded value starts with the break byte. */
  lemma {:induction false} FirstByte(g: Grammar, v: Value)
    requires Valid(g, v)
    ensures Enc(v)[0] != BREAK_BYTE
  {
    match v
    case Num(neg, h) => assert HeadBytes(if neg then Neg else Int, h)[0] < 255;
    case Str(text, h, _) => assert HeadBytes(StrMajor(text), h)[0] < 255;
    case Closed(isMap, h, _) => assert HeadBytes(ContainerMajor(isMap), h)[0] < 255;
    case Open(_, _) =>
    case Sem(h, _) => assert HeadBytes(Semantic, h)[0] < 255;
    case _ =>
  }

  lemma SkipSpecialExact(g: Grammar, b: bytes, st: nat, v: Value)
    requires (v.Simple? || v.Float?) && Valid(g, v) && At(b, st, Enc(v))
    ensures Skip(g, b, st) == End(st + |Enc(v)|)
  {
    assert b[st] == b[st..st + |Enc(v)|][0] == 224 + v.sub;
  }

  lemma SkipFlatExact(g: Grammar, b: bytes, st: nat, v: Value)
    requires (v.Num? || v.Str?) && Valid(g, v) && At(b, st, Enc(v))
    ensures Skip(g, b, st) == End(st + |Enc(v)|)
  {
    hide ReadTag, HeadBytes, Skip, ValidHead;
    if v.Num? {
      NumTag(b, st, v.neg, v.head);
    } else {
      StrTag(b, st, v.text, v.head, v.data);
    }
    SkipFlat(g, b, st);
  }

  lemma NumTag(b: bytes, st: nat, neg: bool, h: Head)
    requires ValidHead(h) && At(b, st, Enc(Num(neg, h)))
    ensures var t := ReadTag(b, st);
            t.Tag? && t.major == (if neg then Neg else Int) && t.next == st + |Enc(Num(neg, h))|
  {
    hide ReadTag, HeadBytes, ValidHead;
    ReadTagExact(b, st, if neg then Neg else Int, h);
  }

  lemma StrTag(b: bytes, st: nat, text: bool, h: Head, data: bytes)
    requires ValidHead(h) && h.arg == |data| <= MAX_INT && At(b, st, Enc(Str(text, h, data)))
    ensures var t := ReadTag(b, st);
            t.Tag? && t.major == StrMajor(text) && t.sub == |data| && t.next + t.sub == st + |Enc(Str(text, h, data))|
  {
    hide ReadTag, HeadBytes, ValidHead;
    AtConcat(b, st, HeadBytes(StrMajor(text), h), data);
    ReadTagExact(b, st, StrMajor(text), h);
  }

  lemma SkipFlat(g: Grammar, b: bytes, st: nat)
    requires ReadTag(b, st).Tag? && ReadTag(b, st).major in {Int, Neg, Bytes, Text}
    ensures var t := ReadTag(b, st);
            Skip(g, b, st) == if t.major in {Int, Neg} then Upto(b, t.next)
                              else if t.sub < 0 then Rewound else Upto(b, t.next + t.sub)
  {
    hide ReadTag;
  }

  lemma SkipUnfold(g: Grammar, b: bytes, st: nat, m: Major, sub: int, i: nat)
    requires ReadTag(b, st) == Tag(m, sub, i)
    ensures m in {Array, Map} ==> Skip(g, b, st) == SkipItems(g, b, i, m == Map, sub, 0)
    ensures m == Semantic ==> Skip(g, b, st) == Skip(g, b, i)
  {
  }

  lemma ClosedParts(b: bytes, st: nat, isMap: bool, h: Head, items: seq<Value>)
    requires ValidHead(h) && h.arg <= MAX_INT && At(b, st, Enc(Closed(isMap, h, items)))
    ensures var i := st + |HeadBytes(ContainerMajor(isMap), h)|;
            && ReadTag(b, st) == Tag(ContainerMajor(isMap), h.arg, i)
            && At(b, i, EncAll(items)) && st + |Enc(Closed(isMap, h, items))| == i + |EncAll(items)|
  {
    AtConcat(b, st, HeadBytes(ContainerMajor(isMap), h), EncAll(items));
    ReadTagExact(b, st, ContainerMajor(isMap), h);
  }

  lemma OpenParts(b: bytes, st: nat, isMap: bool, items: seq<Value>)
    requires At(b, st, Enc(Open(isMap, items)))
    ensures ReadTag(b, st) == Tag(ContainerMajor(isMap), -1, st + 1)
    ensures At(b, st + 1, EncAll(items)) && At(b, st + 1 + |EncAll(items)|, [BREAK_BYTE])
    ensures st + |Enc(Open(isMap, items))| == st + 1 + |EncAll(items)| + 1
  {
    var hb := [MajorCode(ContainerMajor(isMap)) * 32 + BREAK];
    AtConcat(b, st, hb + EncAll(items), [BREAK_BYTE]);
    AtConcat(b, st, hb, EncAll(items));
    assert b[st] == b[st..st + 1][0] == hb[0];
  }

  lemma SemParts(b: bytes, st: nat, h: Head, inner: Value)
    requires ValidHead(h) && At(b, st, Enc(Sem(h, inner)))
    ensures ReadTag(b, st).Tag? && ReadTag(b, st).major == Semantic
    ensures var i := ReadTag(b, st).next;
            && i == st + |HeadBytes(Semantic, h)| && b[st..i] == HeadBytes(Semantic, h)
            && At(b, i, Enc(inner)) && st + |Enc(Sem(h, inner))| == i + |Enc(inner)|
  {
    AtConcat(b, st, HeadBytes(Semantic, h), Enc(inner));
    ReadTagExact(b, st, Semantic, h);
  }

  // ----- arriving at a value -----

  /** What the decoder finds where `v` is encoded. */
  ghost predicate Found(p: bytes, st: nat, v: Value, t: TagResult) {
    t.Tag? && t.next <= |p| &&
    var end := st + |Enc(v)|;
    match v
    case Num(neg, h) => h.arg < Pow256(8) && t == Tag(if neg then Neg else Int, WrapInt64(h.arg), end)
    case Str(text, _, data) => t == Tag(StrMajor(text), |data|, end - |data|) && At(p, t.next, data)
    case Closed(isMap, h, items) =>
      t == Tag(ContainerMajor(isMap), h.arg, end - |EncAll(items)|) && At(p, t.next, EncAll(items))
    case Open(isMap, items) =>
      t == Tag(ContainerMajor(isMap), -1, end - |EncAll(items)| - 1) && At(p, t.next, EncAll(items))
      && At(p, t.next + |EncAll(items)|, [BREAK_BYTE])
    case Sem(_, inner) => t.major == Semantic && At(p, t.next, Enc(inner)) && t.next + |Enc(inner)| == end
    case Simple(sub) => t == Tag(Special, 0, end) && st < |p| && p[st] % 32 == sub
    case Float(_, _) => t.major == Special
  }

  lemma Arrive(p: bytes, st: nat, v: Value)
    requires Valid(Full, v) && At(p, st, Enc(v))
    ensures Found(p, st, v, ReadTag(p, st))
  {
    hide ReadTag, HeadBytes, ValidHead, EncAll, At;
    match v
    case Num(neg, h) => ReadTagExact(p, st, if neg then Neg else Int, h);
    case Str(text, h, data) => AtHead(p, st, StrMajor(text), h, data);
    case Closed(isMap, h, items) => ClosedParts(p, st, isMap, h, items);
    case Open(isMap, items) => OpenParts(p, st, isMap, items);
    case Sem(h, inner) => SemParts(p, st, h, inner);
    case _ => SpecialTag(p, st, v);
  }

  lemma ByteAt(p: bytes, i: nat, c: byte)
    requires At(p, i, [c])
    ensures i < |p| && p[i] == c
  {
    assert p[i] == p[i..i + 1][0];
  }

  lemma AtHead(p: bytes, st: nat, m: Major, h: Head, rest: bytes)
    requires m != Special && ValidHead(h) && At(p, st, HeadBytes(m, h) + rest)
    ensures ReadTag(p, st).Tag? && ReadTag(p, st).major == m && ReadTag(p, st).next == st + |HeadBytes(m, h)| <= |p|
    ensures p[st..ReadTag(p, st).next] == HeadBytes(m, h) && At(p, ReadTag(p, st).next, rest)
    ensures h.arg <= MAX_INT ==> ReadTag(p, st).sub == h.arg
  {
    AtConcat(p, st, HeadBytes(m, h), rest);
    ReadTagExact(p, st, m, h);
  }

  lemma SpecialTag(p: bytes, st: nat, v: Value)
    requires At(p, st, Enc(v)) && Valid(Full, v) && (v.Simple? || v.Float?)
    ensures st < |p| && ReadTag(p, st) == Tag(Special, 0, st + 1) && p[st] % 32 == v.sub
  {
    assert p[st] == p[st..st + |Enc(v)|][0] == 224 + v.sub;
  }

  /** The decoder's `Bytes`: where the string that starts at `i` begins and ends. */
  function StringAt(p: bytes, i: nat): (r: (nat, nat))
    requires ReadTag(p, i).Tag? && ReadTag(p, i).sub >= 0
  {
    var t := ReadTag(p, i);
    (t.next, t.next + t.sub)
  }

  lemma StringAtKey(p: bytes, i: nat, key: Value)
    requires key.Str? && Valid(Full, key) && At(p, i, Enc(key))
    ensures ReadTag(p, i).Tag? && ReadTag(p, i).sub >= 0
    ensures var (from, to) := StringAt(p, i); from <= to == i + |Enc(key)| <= |p| && p[from..to] == key.data
  {
    AtConcat(p, i, HeadBytes(StrMajor(key.text), key.head), key.data);
    ReadTagExact(p, i, StrMajor(key.text), key.head);
  }

  /** `skip` is exact: where a well-formed value is encoded it returns that value's end. */
  lemma {:induction false} SkipExact(g: Grammar, b: bytes, st: nat, v: Value)
    requires Valid(g, v) && At(b, st, Enc(v))
    ensures Skip(g, b, st) == End(st + |Enc(v)|)
    decreases v, 1
  {
    hide Skip, SkipItems, ReadTag, Enc, EncAll, ValidAll, HeadBytes, At;
    match v
    case Closed(isMap, h, items) =>
      ClosedParts(b, st, isMap, h, items);
      var i := st + |HeadBytes(ContainerMajor(isMap), h)|;
      SkipUnfold(g, b, st, ContainerMajor(isMap), h.arg, i);
      SkipItemsExact(g, b, i, isMap, h.arg, 0, items, h.arg);
    case Open(isMap, items) =>
      OpenParts(b, st, isMap, items);
      SkipUnfold(g, b, st, ContainerMajor(isMap), -1, st + 1);
      SkipItemsExact(g, b, st + 1, isMap, -1, 0, items, if isMap then |items| / 2 else |items|);
    case Sem(h, inner) =>
      SemParts(b, st, h, inner);
      var t := ReadTag(b, st);
      SkipUnfold(g, b, st, Semantic, t.sub, t.next);
      SkipExact(g, b, t.next, inner);
    case Num(_, _) => SkipFlatExact(g, b, st, v);
    case Str(_, _, _) => SkipFlatExact(g, b, st, v);
    case _ => SkipSpecialExact(g, b, st, v);
  }

  /** One turn of the element loop consumes the first `n` children. */
  lemma {:induction false} SkipElementExact(g: Grammar, b: bytes, i: nat, isMap: bool, items: seq<Value>, n: nat)
    requires ValidAll(g, items) && n == (if isMap then 2 else 1) <= |items| && At(b, i, EncAll(items))
    ensures SkipElement(g, b, i, isMap) == End(i + |EncAll(items[..n])|)
    ensures At(b, i + |EncAll(items[..n])|, EncAll(items[n..]))
    ensures |EncAll(items)| == |EncAll(items[..n])| + |EncAll(items[n..])|
    ensures i < |b| && b[i] != BREAK_BYTE && ValidAll(g, items[n..])
    decreases items, 0
  {
    hide Skip, ReadTag, Enc, Valid;
    SkipStart(g, b, i, items);
    SkipExact(g, b, i, items[0]);
    EncAllPair(items);
    if isMap {
      var j := i + |Enc(items[0])|;
      SkipStart(g, b, j, items[1..]);
      SkipExact(g, b, j, items[1]);
      assert items[1..][1..] == items[2..];
    }
  }

  lemma EncAllPair(items: seq<Value>)
    requires items != []
    ensures EncAll(items[..1]) == Enc(items[0])
    ensures |items| > 1 ==> EncAll(items[..2]) == Enc(items[0]) + Enc(items[1])
    ensures |items| > 1 ==> EncAll(items) == Enc(items[0]) + (Enc(items[1]) + EncAll(items[2..]))
  {
    EncAllOne(items[0]);
    assert items[..1] == [items[0]];
    if |items| > 1 {
      EncAllOne(items[1]);
      assert items[..2] == [items[0], items[1]] && items[..2][1..] == [items[1]];
      assert items[1..][1..] == items[2..];
    }
  }

  /** `left` elements remain. */
  lemma {:induction false} SkipItemsExact(g: Grammar, b: bytes, i: nat, isMap: bool, sub: int, el: nat,
                                          items: seq<Value>, left: nat)
    requires ValidAll(g, items) && |items| == (if isMap then 2 * left else left)
    requires At(b, i, EncAll(items))
    requires if sub == -1 then At(b, i + |EncAll(items)|, [BREAK_BYTE]) else sub == el + left
    ensures SkipItems(g, b, i, isMap, sub, el) == End(i + |EncAll(items)| + if sub == -1 then 1 else 0)
    decreases items, 1
  {
    hide Enc, EncAll, Valid, SkipItems, Skip, SkipElement;
    if left == 0 {
      SkipNoItems(g, b, i, isMap, sub, el, items);
    } else {
      var n := if isMap then 2 else 1;
      SkipElementExact(g, b, i, isMap, items, n);
      var e := i + |EncAll(items[..n])|;
      SkipItemsExact(g, b, e, isMap, sub, el + 1, items[n..], left - 1);
      SkipOneItem(g, b, i, isMap, sub, el, e);
    }
  }

  lemma SkipNoItems(g: Grammar, b: bytes, i: nat, isMap: bool, sub: int, el: nat, items: seq<Value>)
    requires items == [] && i <= |b| && if sub == -1 then At(b, i + |EncAll(items)|, [BREAK_BYTE]) else sub == el
    ensures EncAll(items) == []
    ensures SkipItems(g, b, i, isMap, sub, el) == End(i + if sub == -1 then 1 else 0)
  {
    if sub == -1 {
      assert b[i] == b[i..i + 1][0];
    }
  }

  lemma SkipOneItem(g: Grammar, b: bytes, i: nat, isMap: bool, sub: int, el: nat, e: nat)
    requires i < |b| && b[i] != BREAK_BYTE && (sub == -1 || el < sub) && SkipElement(g, b, i, isMap) == End(e)
    ensures SkipItems(g, b, i, isMap, sub, el) == SkipItems(g, b, e, isMap, sub, el + 1)
  {
  }

  lemma SkipStart(g: Grammar, b: bytes, i: nat, items: seq<Value>)
    requires items != [] && ValidAll(g, items) && At(b, i, EncAll(items))
    ensures At(b, i, Enc(items[0])) && At(b, i + |Enc(items[0])|, EncAll(items[1..]))
    ensures i < |b| && b[i] != BREAK_BYTE
  {
    AtConcat(b, i, Enc(items[0]), EncAll(items[1..]));
    FirstByte(g, items[0]);
    assert b[i] == b[i..i + |Enc(items[0])|][0];
  }

  // ----- consequences -----

  /** `skip` on every prefix of a buffer that starts with a value: the value's end, or UnexpectedEOF. */
  lemma SkipPrefixOfValue(g: Grammar, v: Value, rest: bytes, n: nat)
    requires Valid(g, v) && n <= |Enc(v) + rest|
    ensures Skip(g, (Enc(v) + rest)[..n], 0) == if |Enc(v)| <= n then End(|Enc(v)|) else UnexpectedEOF
  {
    SkipExact(g, Enc(v) + rest, 0, v);
    SkipOnPrefix(g, Enc(v) + rest, 0, n);
  }

  /** The encoding is prefix-free. */
  lemma PrefixFree(g: Grammar, v: Value, w: Value, x: bytes)
    requires Valid(g, v) && Valid(g, w) && Enc(v) + x == Enc(w)
    ensures x == []
  {
    SkipExact(g, Enc(v) + x, 0, v);
    SkipExact(g, Enc(w), 0, w);
  }
}
