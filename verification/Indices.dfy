/** `skip` as it computes with int64 indices: a string's announced length may be negative, or carry the index past the
    largest int64; the index then goes wherever the sum says. */
module Indices {
  import opened Wire
  import opened Framing

  /** An index and an int64 added, with wrap-around. */
  function WrapAdd(i: nat, sub: int): int {
    if i + sub > MAX_INT then i + sub - 0x1_0000_0000_0000_0000 else i + sub
  }

  /** The answers of `skip`. What is left of `Rewound` is not an answer. */
  function Code(r: Skipped): int {
    match r
    case End(e) => e
    case UnexpectedEOF => -1
    case BadFormat => -2
    case BadSpecial => -3
    case Rewound => 0
  }

  function Within(b: bytes, i: int): int {
    if i > |b| then -1 else i
  }

  /** The index `skip` returns. It may not return at all: None, as long as `n` turns and calls, one inside or after the
      other, are not enough. */
  function SkipIndex(b: bytes, st: nat, n: nat): (r: Option<int>)
    ensures r.Some? ==> r.value <= |b|
    decreases n, 0
  {
    if n == 0 then None
    else match ReadTag(b, st)
      case TagEOF => Some(-1)
      case TagBadFormat => Some(-2)
      case Tag(m, sub, i) =>
        match m
        case Int => Some(i)
        case Neg => Some(i)
        case Bytes => Some(Within(b, WrapAdd(i, sub)))
        case Text => Some(Within(b, WrapAdd(i, sub)))
        case Array => ItemsIndex(b, i, false, sub, 0, n - 1)
        case Map => ItemsIndex(b, i, true, sub, 0, n - 1)
        case Semantic => SkipIndex(b, i, n - 1)
        case Special => Some(Code(SkipSpecial(Stream, b, st)))
  }

  function ElementIndex(b: bytes, i: nat, isMap: bool, n: nat): (r: Option<int>)
    requires i <= |b|
    ensures r.Some? ==> r.value <= |b|
    decreases n, 1
  {
    var k := if isMap then SkipIndex(b, i, n) else Some(i);
    if k.Some? && k.value >= 0 then SkipIndex(b, k.value, n) else k
  }

  function ItemsIndex(b: bytes, i: nat, isMap: bool, sub: int, el: nat, n: nat): (r: Option<int>)
    requires i <= |b|
    ensures r.Some? ==> r.value <= |b|
    decreases n, 2
  {
    if sub != -1 && el >= sub then Some(i)
    else if n == 0 then None
    else if i == |b| then Some(-1)
    else if sub == -1 && b[i] == BREAK_BYTE then Some(i + 1)
    else
      var v := ElementIndex(b, i, isMap, n - 1);
      if v.Some? && v.value >= 0 then ItemsIndex(b, v.value, isMap, sub, el + 1, n - 1) else v
  }

  /** More turns do not change an answer. */
  lemma {:induction false} IndexSettled(b: bytes, st: nat, n: nat, more: nat)
    requires n <= more && SkipIndex(b, st, n).Some?
    ensures SkipIndex(b, st, more) == SkipIndex(b, st, n)
    decreases n
  {
    hide ReadTag, SkipSpecial, ItemsIndex;
    var t := ReadTag(b, st);
    if t.Tag? && t.major in {Array, Map} {
      ItemsSettled(b, t.next, t.major == Map, t.sub, 0, n - 1, more - 1);
    } else if t.Tag? && t.major == Semantic {
      IndexSettled(b, t.next, n - 1, more - 1);
    }
  }

  lemma {:induction false} ItemsSettled(b: bytes, i: nat, isMap: bool, sub: int, el: nat, n: nat, more: nat)
    requires i <= |b| && n <= more && ItemsIndex(b, i, isMap, sub, el, n).Some?
    ensures ItemsIndex(b, i, isMap, sub, el, more) == ItemsIndex(b, i, isMap, sub, el, n)
    decreases n
  {
    hide SkipIndex;
    if (sub != -1 && el >= sub) || i == |b| || (sub == -1 && b[i] == BREAK_BYTE) {
    } else {
      if isMap {
        IndexSettled(b, i, n - 1, more - 1);
      }
      var k := if isMap then SkipIndex(b, i, n - 1) else Some(i);
      if k.value >= 0 {
        IndexSettled(b, k.value, n - 1, more - 1);
      }
      var v := ElementIndex(b, i, isMap, n - 1);
      if v.value >= 0 {
        ItemsSettled(b, v.value, isMap, sub, el + 1, n - 1, more - 1);
      }
    }
  }

  // ----- when it finds the end of the value -----

  /** A string met on the way announces a negative length (indefinite, or 2^63 and above), or ends past `lim`. */
  predicate Strays(b: bytes, st: nat, lim: int)
    decreases |b| - st, 0
  {
    match ReadTag(b, st)
    case Tag(Bytes, sub, i) => sub < 0 || i + sub > lim
    case Tag(Text, sub, i) => sub < 0 || i + sub > lim
    case Tag(Array, sub, i) => StraysItems(b, i, false, sub, 0, lim)
    case Tag(Map, sub, i) => StraysItems(b, i, true, sub, 0, lim)
    case Tag(Semantic, _, i) => Strays(b, i, lim)
    case _ => false
  }

  predicate StraysElement(b: bytes, i: nat, isMap: bool, lim: int)
    requires i <= |b|
    decreases |b| - i, 1
  {
    Strays(b, i, lim) || (isMap && Skip(Stream, b, i).End? && Strays(b, Skip(Stream, b, i).end, lim))
  }

  predicate StraysItems(b: bytes, i: nat, isMap: bool, sub: int, el: nat, lim: int)
    requires i <= |b|
    decreases |b| - i, 2
  {
    if (sub != -1 && el >= sub) || i == |b| || (sub == -1 && b[i] == BREAK_BYTE) then false
    else
      StraysElement(b, i, isMap, lim)
      || (var v := SkipElement(Stream, b, i, isMap); v.End? && StraysItems(b, v.end, isMap, sub, el + 1, lim))
  }

  /** Turns and calls that are enough when no string strays. */
  function Enough(b: bytes, i: nat): nat {
    if i <= |b| then 2 * (|b| - i) + 1 else 1
  }

  /** If no string strays, `skip` gives the answer it should. If the first to stray ends past the largest int64, the
      answer is a negative number that stands for no error or a wrong one, instead of a request for more bytes. */
  predicate Told(b: bytes, strays: bool, r: Option<int>, s: Skipped) {
    if strays then s == Rewound || (s == UnexpectedEOF && r.Some? && r.value <= -2)
    else s != Rewound && r == Some(Code(s))
  }

  lemma {:induction false} IndexOfSkip(b: bytes, st: nat, n: nat)
    requires n >= Enough(b, st) && (Strays(b, st, MAX_INT) ==> |b| <= MAX_INT)
    ensures Told(b, Strays(b, st, MAX_INT), SkipIndex(b, st, n), Skip(Stream, b, st))
    decreases |b| - st, 0
  {
    hide ReadTag, SkipSpecial, ItemsIndex, SkipItems, StraysItems;
    var t := ReadTag(b, st);
    SkipLevel(Stream, b, st);
    TagSubFits(b, st);
    if t.Tag? && t.major in {Array, Map} {
      ItemsIndexOfSkip(b, t.next, t.major == Map, t.sub, 0, n - 1);
    } else if t.Tag? && t.major == Semantic {
      IndexOfSkip(b, t.next, n - 1);
    } else if t.Tag? && t.major == Special {
      NeverRewound(b, st);
    }
  }

  lemma NeverRewound(b: bytes, st: nat)
    requires st < |b|
    ensures SkipSpecial(Stream, b, st) != Rewound
  {
  }

  lemma TagSubFits(b: bytes, st: nat)
    ensures ReadTag(b, st).Tag? ==> -MAX_INT - 1 <= ReadTag(b, st).sub <= MAX_INT
  {
    hide FromBigEndian;
    assert Pow256(8) == 0x1_0000_0000_0000_0000;
    if st < |b| {
      var n := ArgLen(b[st] % 32);
      if st + 1 + n <= |b| {
        FromBigEndianBound(b[st + 1..st + 1 + n]);
        Pow256Monotone(n, 8);
      }
    }
  }

  lemma {:induction false} ElementIndexOfSkip(b: bytes, i: nat, isMap: bool, n: nat)
    requires i <= |b| && n >= Enough(b, i) && (StraysElement(b, i, isMap, MAX_INT) ==> |b| <= MAX_INT)
    ensures Told(b, StraysElement(b, i, isMap, MAX_INT), ElementIndex(b, i, isMap, n), SkipElement(Stream, b, i, isMap))
    decreases |b| - i, 1
  {
    hide Skip, SkipIndex, Strays;
    IndexOfSkip(b, i, n);
    if isMap && Skip(Stream, b, i).End? {
      IndexOfSkip(b, Skip(Stream, b, i).end, n);
    }
  }

  lemma {:induction false} ItemsIndexOfSkip(b: bytes, i: nat, isMap: bool, sub: int, el: nat, n: nat)
    requires i <= |b| && n >= Enough(b, i) + 1 && (StraysItems(b, i, isMap, sub, el, MAX_INT) ==> |b| <= MAX_INT)
    ensures Told(b, StraysItems(b, i, isMap, sub, el, MAX_INT), ItemsIndex(b, i, isMap, sub, el, n),
                 SkipItems(Stream, b, i, isMap, sub, el))
    decreases |b| - i, 2
  {
    hide SkipElement, ElementIndex, StraysElement;
    if (sub != -1 && el >= sub) || i == |b| || (sub == -1 && b[i] == BREAK_BYTE) {
    } else {
      ElementIndexOfSkip(b, i, isMap, n - 1);
      var v := SkipElement(Stream, b, i, isMap);
      if v.End? {
        ItemsIndexOfSkip(b, v.end, isMap, sub, el + 1, n - 1);
      }
    }
  }

  /** The index agrees with the end of the value, or the error, that there should be. */
  ghost predicate Agrees(b: bytes, st: nat) {
    Skip(Stream, b, st) != Rewound && exists n :: SkipIndex(b, st, n) == Some(Code(Skip(Stream, b, st)))
  }

  /** That is so exactly when no string that is met announces a negative length or an end past the largest int64. The
      buffer is shorter than that by the width of a number, so that no other index passes it. */
  lemma AgreesIffNoneStrays(b: bytes, st: nat)
    requires |b| <= MAX_INT - 8
    ensures Agrees(b, st) <==> !Strays(b, st, MAX_INT)
  {
    hide Skip, SkipIndex, Strays;
    var n := Enough(b, st);
    IndexOfSkip(b, st, n);
    if Agrees(b, st) {
      var m :| SkipIndex(b, st, m) == Some(Code(Skip(Stream, b, st)));
      if m <= n {
        IndexSettled(b, st, m, n);
      } else if SkipIndex(b, st, n).Some? {
        IndexSettled(b, st, n, m);
      }
    }
  }

  // ----- straying on a prefix, at another place, below another limit -----

  lemma {:induction false} StraysLess(b: bytes, st: nat, lim: int, more: int)
    requires lim <= more && Strays(b, st, more)
    ensures Strays(b, st, lim)
    decreases |b| - st, 0
  {
    hide ReadTag, StraysItems;
    var t := ReadTag(b, st);
    if t.major in {Array, Map} {
      StraysLessItems(b, t.next, t.major == Map, t.sub, 0, lim, more);
    } else if t.major == Semantic {
      StraysLess(b, t.next, lim, more);
    }
  }

  lemma {:induction false} StraysLessItems(b: bytes, i: nat, isMap: bool, sub: int, el: nat, lim: int, more: int)
    requires i <= |b| && lim <= more && StraysItems(b, i, isMap, sub, el, more)
    ensures StraysItems(b, i, isMap, sub, el, lim)
    decreases |b| - i, 1
  {
    hide Strays, Skip, SkipElement;
    if StraysElement(b, i, isMap, more) {
      if Strays(b, i, more) {
        StraysLess(b, i, lim, more);
      } else {
        StraysLess(b, Skip(Stream, b, i).end, lim, more);
      }
    } else {
      StraysLessItems(b, SkipElement(Stream, b, i, isMap).end, isMap, sub, el + 1, lim, more);
    }
  }

  /** Bytes that follow take no string away. */
  lemma {:induction false} StraysPrefix(b: bytes, x: bytes, st: nat, lim: int)
    requires Strays(b, st, lim)
    ensures Strays(b + x, st, lim)
    decreases |b| - st, 0
  {
    hide ReadTag, StraysItems;
    ReadTagStable(b, x, st);
    var t := ReadTag(b, st);
    if t.major in {Array, Map} {
      StraysPrefixItems(b, x, t.next, t.major == Map, t.sub, 0, lim);
    } else if t.major == Semantic {
      StraysPrefix(b, x, t.next, lim);
    }
  }

  lemma {:induction false} StraysPrefixItems(b: bytes, x: bytes, i: nat, isMap: bool, sub: int, el: nat, lim: int)
    requires i <= |b| && StraysItems(b, i, isMap, sub, el, lim)
    ensures StraysItems(b + x, i, isMap, sub, el, lim)
    decreases |b| - i, 1
  {
    hide Strays, Skip, SkipElement;
    if StraysElement(b, i, isMap, lim) {
      if Strays(b, i, lim) {
        StraysPrefix(b, x, i, lim);
      } else {
        SkipStable(Stream, b, x, i);
        StraysPrefix(b, x, Skip(Stream, b, i).end, lim);
      }
    } else {
      SkipElementStable(Stream, b, x, i, isMap);
      StraysPrefixItems(b, x, SkipElement(Stream, b, i, isMap).end, isMap, sub, el + 1, lim);
    }
  }

  lemma {:induction false} StraysShift(b: bytes, c: bytes, k: nat, st: nat, lim: int)
    requires k <= |b| && c == b[k..]
    ensures Strays(b, k + st, lim + k) == Strays(c, st, lim)
    decreases |b| - st, 0
  {
    hide ReadTag, StraysItems;
    ReadTagShift(b, k, st);
    var t := ReadTag(c, st);
    if t.Tag? {
      if t.major in {Array, Map} {
        StraysShiftItems(b, c, k, t.next, t.major == Map, t.sub, 0, lim);
      } else if t.major == Semantic {
        StraysShift(b, c, k, t.next, lim);
      }
    }
  }

  lemma {:induction false} StraysShiftItems(b: bytes, c: bytes, k: nat, i: nat, isMap: bool, sub: int, el: nat,
                                            lim: int)
    requires k + i <= |b| && c == b[k..]
    ensures StraysItems(b, k + i, isMap, sub, el, lim + k) == StraysItems(c, i, isMap, sub, el, lim)
    decreases |b| - i, 1
  {
    hide Strays, Skip, SkipElement;
    if (sub != -1 && el >= sub) || i == |c| || (sub == -1 && b[k + i] == BREAK_BYTE) {
    } else {
      StraysShift(b, c, k, i, lim);
      SkipShift(Stream, b, c, k, i);
      if isMap && Skip(Stream, c, i).End? {
        StraysShift(b, c, k, Skip(Stream, c, i).end, lim);
      }
      SkipElementShift(Stream, b, c, k, i, isMap);
      var v := SkipElement(Stream, c, i, isMap);
      if v.End? {
        StraysShiftItems(b, c, k, v.end, isMap, sub, el + 1, lim);
      }
    }
  }

  /** A value whose end is found has no string that ends later, or announces a negative length. */
  lemma {:induction false} FoundWithin(b: bytes, st: nat)
    requires Skip(Stream, b, st).End?
    ensures !Strays(b, st, Skip(Stream, b, st).end)
    decreases |b| - st, 0
  {
    hide ReadTag, StraysItems, SkipItems, SkipSpecial;
    SkipLevel(Stream, b, st);
    var t := ReadTag(b, st);
    if t.major in {Array, Map} {
      FoundWithinItems(b, t.next, t.major == Map, t.sub, 0);
    } else if t.major == Semantic {
      FoundWithin(b, t.next);
    }
  }

  lemma {:induction false} FoundWithinItems(b: bytes, i: nat, isMap: bool, sub: int, el: nat)
    requires i <= |b| && SkipItems(Stream, b, i, isMap, sub, el).End?
    ensures !StraysItems(b, i, isMap, sub, el, SkipItems(Stream, b, i, isMap, sub, el).end)
    decreases |b| - i, 1
  {
    hide Strays, Skip;
    if (sub != -1 && el >= sub) || i == |b| || (sub == -1 && b[i] == BREAK_BYTE) {
    } else {
      var end := SkipItems(Stream, b, i, isMap, sub, el).end;
      var k := Skip(Stream, b, i);
      FoundWithin(b, i);
      if Strays(b, i, end) { StraysLess(b, i, k.end, end); }
      if isMap {
        FoundWithin(b, k.end);
        if Strays(b, k.end, end) { StraysLess(b, k.end, Skip(Stream, b, k.end).end, end); }
      }
      FoundWithinItems(b, SkipElement(Stream, b, i, isMap).end, isMap, sub, el + 1);
    }
  }

  /** Of a value at the start of a buffer, cut anywhere: `skip` finds its end once it is there, and asks for more
      before that, if the value ends within the range of indices. */
  lemma IndexOnPrefix(v: Value, rest: bytes, k: nat, n: nat)
    requires Valid(Stream, v) && |Enc(v)| <= MAX_INT && k <= |Enc(v) + rest| && n >= 2 * k + 1
    ensures SkipIndex((Enc(v) + rest)[..k], 0, n) == Some(if |Enc(v)| <= k then |Enc(v)| else -1)
  {
    hide Skip, SkipIndex, Strays;
    var b := Enc(v) + rest;
    SkipPrefixOfValue(Stream, v, rest, k);
    SkipPrefixOfValue(Stream, v, rest, |b|);
    assert b[..|b|] == b && b == b[..k] + b[k..];
    FoundWithin(b, 0);
    if Strays(b[..k], 0, MAX_INT) {
      StraysPrefix(b[..k], b[k..], 0, MAX_INT);
      StraysLess(b, 0, |Enc(v)|, MAX_INT);
    }
    IndexOfSkip(b[..k], 0, n);
  }

  // ----- strings that stray -----

  /** Where a string's head takes the index: any announced length, as the int64 with the same bits. */
  lemma StringIndex(b: bytes, st: nat, text: bool, length: nat, n: nat)
    requires length < Pow256(8) && n > 0 && At(b, st, HeadBytes(StrMajor(text), Head(W8, length)))
    ensures var to := st + 9 + if length < 0x8000_0000_0000_0000 then length else length - 0x1_0000_0000_0000_0000;
            SkipIndex(b, st, n) ==
            Some(if to >= 0x8000_0000_0000_0000 then to - 0x1_0000_0000_0000_0000 else if to > |b| then -1 else to)
    ensures Strays(b, st, MAX_INT) <==> st + 9 + length > MAX_INT
  {
    hide HeadBytes, ReadTag;
    ReadTagExact(b, st, StrMajor(text), Head(W8, length));
  }

  /** A string of indefinite length ends where it starts. */
  lemma IndefiniteString(b: bytes, st: nat, n: nat)
    requires st < |b| && st <= MAX_INT && b[st] in {0x5F, 0x7F} && n > 0
    ensures SkipIndex(b, st, n) == Some(st) && Strays(b, st, MAX_INT)
  {
  }

  /** And a head can be made that takes the index back to any place before. */
  lemma AnyIndexBefore(b: bytes, st: nat, to: nat, n: nat)
    requires to < st + 9 <= MAX_INT && n > 0 && At(b, st, HeadBytes(Text, Head(W8, Pow256(8) - (st + 9 - to))))
    ensures SkipIndex(b, st, n) == Some(to)
  {
    hide SkipIndex, HeadBytes, WrapInt64, WrapAdd;
    var length := Pow256(8) - (st + 9 - to);
    WrapsBack(st + 9, to);
    StringIndex(b, st, true, length, n);
  }

  lemma WrapsBack(from: nat, to: nat)
    requires to < from <= MAX_INT
    ensures Pow256(8) >= from - to > 0 && WrapAdd(from, WrapInt64(Pow256(8) - (from - to))) == to
  {
    assert Pow256(8) == 0x1_0000_0000_0000_0000;
  }

  /** A string of the greatest length an int64 holds: past its head the index wraps, and what should be a request for
      more bytes is bad format. */
  lemma OverflowIsBadFormat(n: nat)
    requires n > 0
    ensures var b := HeadBytes(Text, Head(W8, MAX_INT));
            && |b| == 9 && Skip(Stream, b, 0) == UnexpectedEOF
            && SkipIndex(b, 0, n).Some? && SkipIndex(b, 0, n).value < -1
  {
    hide HeadBytes;
    var b := HeadBytes(Text, Head(W8, MAX_INT));
    assert Pow256(8) == 0x1_0000_0000_0000_0000 && b[0..0 + |b|] == b;
    StringIndex(b, 0, true, MAX_INT, n);
    ReadTagExact(b, 0, Text, Head(W8, MAX_INT));
  }

  /** In an array of indefinite length, such a string is met again and again: `skip` does not return. */
  lemma {:induction false} NeverReturns(n: nat)
    ensures var b: bytes := [0x9F, 0x5F]; SkipIndex(b, 0, n).None?
  {
    var b: bytes := [0x9F, 0x5F];
    assert ReadTag(b, 0) == Tag(Array, -1, 1);
    if n > 0 {
      NeverEnds(b, n - 1, 0);
    }
  }

  lemma {:induction false} NeverEnds(b: bytes, n: nat, el: nat)
    requires b == [0x9F, 0x5F]
    ensures ItemsIndex(b, 1, false, -1, el, n).None?
  {
    if n > 0 {
      if n > 1 { IndefiniteString(b, 1, n - 1); }
      NeverEnds(b, n - 1, el + 1);
    }
  }
}
