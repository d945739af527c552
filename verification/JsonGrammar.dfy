/** JSON texts as RFC 8259 defines them, and which of the converter's lines are JSON. */
module JsonGrammar {
  import opened Wire
  import opened Decimal
  import opened SafeStrings
  import opened JsonText
  import JsonConverter

  // ----- the grammar: what is left after one value -----

  /** White space, section 2 of RFC 8259. */
  predicate IsBlank(c: byte) { c in {9, 10, 13, 32} }

  function Blanks(t: bytes): (r: bytes)
    ensures |r| <= |t|
  {
    if t != [] && IsBlank(t[0]) then Blanks(t[1..]) else t
  }

  /** After the opening quote, section 7. */
  function StringEnd(t: bytes): (r: Option<bytes>)
    ensures r.Some? ==> |r.value| < |t|
  {
    if t == [] then None
    else if t[0] == QUOTE then Some(t[1..])
    else if t[0] == SLASH then
      if |t| >= 2 && JsonLetter(t[1]) then StringEnd(t[2..])
      else if |t| >= 6 && t[1] == 'u' as int && HexDigits(t[2..6]) then StringEnd(t[6..])
      else None
    else if t[0] >= 0x20 && RuneLength(t) > 0 then StringEnd(t[RuneLength(t)..])
    else None
  }

  const POINT: byte := '.' as int

  /** Numbers, section 6: no leading zeros, then a fraction, then an exponent. */
  function NumberEnd(t: bytes): (r: Option<bytes>)
    ensures r.Some? ==> |r.value| < |t|
  {
    var s := if t != [] && t[0] == MINUS then t[1..] else t;
    if s == [] || !IsDigit(s[0]) then None
    else
      var whole := if s[0] == ZERO then s[1..] else s[Run(s)..];
      var frac := FractionEnd(whole);
      if frac.None? then None else ExponentEnd(frac.value)
  }

  function FractionEnd(t: bytes): (r: Option<bytes>)
    ensures r.Some? ==> |r.value| <= |t|
  {
    if t == [] || t[0] != POINT then Some(t)
    else if Run(t[1..]) == 0 then None
    else Some(t[1..][Run(t[1..])..])
  }

  function ExponentEnd(t: bytes): (r: Option<bytes>)
    ensures r.Some? ==> |r.value| <= |t|
  {
    if t == [] || t[0] !in {'e' as int, 'E' as int} then Some(t)
    else
      var s := if |t| > 1 && t[1] in {'+' as int, MINUS} then t[2..] else t[1..];
      if Run(s) == 0 then None else Some(s[Run(s)..])
  }

  function WordEnd(t: bytes): (r: Option<bytes>)
    ensures r.Some? ==> |r.value| < |t|
  {
    if TRUE_WORD <= t || NULL_WORD <= t then Some(t[4..]) else if FALSE_WORD <= t then Some(t[5..]) else None
  }

  /** Values, section 3; objects and arrays, sections 4 and 5. */
  function ValueEnd(t: bytes): (r: Option<bytes>)
    ensures r.Some? ==> |r.value| < |t|
    decreases |t|, 0
  {
    if t == [] then None
    else if t[0] == QUOTE then StringEnd(t[1..])
    else if t[0] == Opening(true) || t[0] == Opening(false) then
      ItemsEnd(t[0] == Opening(true), Blanks(t[1..]), true)
    else if t[0] == MINUS || IsDigit(t[0]) then NumberEnd(t)
    else WordEnd(t)
  }

  /** A member's name and the colon. */
  function KeyEnd(isObject: bool, t: bytes): (r: Option<bytes>)
    ensures r.Some? ==> |r.value| <= |t|
  {
    if !isObject then Some(t)
    else if t == [] || t[0] != QUOTE then None
    else
      var key := StringEnd(t[1..]);
      if key.None? || Blanks(key.value) == [] || Blanks(key.value)[0] != COLON then None
      else Some(Blanks(Blanks(key.value)[1..]))
  }

  function ItemsEnd(isObject: bool, t: bytes, first: bool): (r: Option<bytes>)
    ensures r.Some? ==> |r.value| < |t|
    decreases |t|, 1
  {
    if t == [] then None
    else if t[0] == Closing(isObject) then Some(t[1..])
    else if !first && t[0] != COMMA then None
    else
      var key := KeyEnd(isObject, if first then t else Blanks(t[1..]));
      if key.None? then None
      else
        var value := ValueEnd(key.value);
        if value.None? then None else ItemsEnd(isObject, Blanks(value.value), false)
  }

  /** A JSON text: one value, and white space around it. */
  predicate IsJson(t: bytes) {
    var v := ValueEnd(Blanks(t));
    v.Some? && Blanks(v.value) == []
  }

  // ----- which printed values are in it -----

  /** UTF-8, with control bytes that JSON has a letter for. */
  predicate Clean(s: bytes) {
    Utf8(s) && forall k | 0 <= k < |s| :: JsonControl(s[k])
  }

  /** All its strings are such, and all keys. */
  predicate CleanValue(j: Json)
    decreases j, 1
  {
    match j
    case JString(s) => Clean(s)
    case JContainer(isObject, items) => CleanItems(isObject, items)
    case _ => true
  }

  predicate CleanItems(isObject: bool, items: seq<Item>)
    decreases items, 0
  {
    items == []
    || ((isObject ==> Clean(items[0].key)) && CleanValue(items[0].value) && CleanItems(isObject, items[1..]))
  }

  function Left(clean: bool, rest: bytes): Option<bytes> {
    if clean then Some(rest) else None
  }

  lemma {:induction false} StringEndSafe(s: bytes, rest: bytes)
    ensures StringEnd(Safe(s) + [QUOTE] + rest) == Left(Clean(s), rest)
    decreases |s|
  {
    hide Escaped, RuneLength, Letter, StringEnd;
    if s == [] {
      assert Safe(s) + [QUOTE] + rest == [QUOTE] + rest;
      NothingQuoted(rest);
    } else {
      var n, more := Taken(s), s[Taken(s)..];
      var tail := Safe(more) + [QUOTE] + rest;
      StringEndSafe(more, rest);
      StringEndEscaped(s, tail);
      FirstTaken(s);
      assert Safe(s) + [QUOTE] + rest == Escaped(s) + tail;
      assert forall k | n <= k < |s| :: s[k] == more[k - n];
      assert forall k | 0 <= k < |more| :: more[k] == s[k + n];
    }
  }

  lemma NothingQuoted(rest: bytes)
    ensures StringEnd([QUOTE] + rest) == Some(rest)
  {
    assert ([QUOTE] + rest)[1..] == rest;
  }

  lemma StringEndEscaped(s: bytes, t: bytes)
    requires s != []
    ensures StringEnd(Escaped(s) + t) == if RuneLength(s) > 0 && JsonControl(s[0]) then StringEnd(t) else None
  {
    var e := Escaped(s);
    if Letter(s[0]).Some? {
      assert (e + t)[2..] == t;
    } else if RuneLength(s) == 0 {
      assert (e + t)[1] == HEX_MARK;
    } else {
      RuneAlone(s, t);
      assert (e + t)[RuneLength(s)..] == t;
    }
  }

  /** What can follow a value. */
  predicate After(rest: bytes) {
    rest == [] || rest[0] in {COMMA, Closing(true), Closing(false)}
  }

  lemma NumberEndDigits(n: int, rest: bytes)
    requires After(rest)
    ensures ValueEnd(PrintNumber(n) + rest) == Some(rest)
  {
    hide Run, Digits, NumberEnd, ItemsEnd, StringEnd, WordEnd;
    var m: nat := if n < 0 then -n else n;
    var ds, t := Digits(m), PrintNumber(n) + rest;
    OnlyZero(m);
    WholeEnd(ds, rest);
    if n < 0 {
      assert t == [MINUS] + (ds + rest);
    } else {
      assert t == ds + rest;
    }
  }

  lemma OnlyZero(n: nat)
    ensures Digits(n)[0] == ZERO ==> Digits(n) == [ZERO]
  {
  }

  lemma WholeEnd(ds: bytes, rest: bytes)
    requires ds != [] && AllDigits(ds) && (ds[0] == ZERO ==> ds == [ZERO]) && After(rest)
    ensures NumberEnd(ds + rest) == NumberEnd([MINUS] + (ds + rest)) == Some(rest)
  {
    hide Run, FractionEnd, ExponentEnd;
    var s := ds + rest;
    RunOf(ds, rest);
    NothingMore(rest);
    assert s[|ds|..] == rest && s[0] == ds[0];
    assert ([MINUS] + s)[1..] == s;
  }

  lemma NothingMore(rest: bytes)
    requires After(rest)
    ensures FractionEnd(rest) == ExponentEnd(rest) == Some(rest)
  {
  }

  lemma WordEndWord(j: Json, rest: bytes)
    requires j.JBool? || j.JNull?
    ensures ValueEnd(Print(j) + rest) == Some(rest)
  {
    var word := Print(j);
    var t := word + rest;
    assert t[|word|..] == rest && t[0] == word[0];
    assert TRUE_WORD[0] == 't' as int && FALSE_WORD[0] == 'f' as int && NULL_WORD[0] == 'n' as int;
  }

  lemma StringEndQuoted(s: bytes, rest: bytes)
    ensures ValueEnd(Quoted(s) + rest) == Left(Clean(s), rest)
    ensures StringEnd((Quoted(s) + rest)[1..]) == Left(Clean(s), rest) && (Quoted(s) + rest)[0] == QUOTE
  {
    hide Safe, StringEnd, Clean;
    StringEndSafe(s, rest);
    assert (Quoted(s) + rest)[1..] == Safe(s) + [QUOTE] + rest;
  }

  lemma KeyEndPrinted(isObject: bool, key: bytes, tail: bytes)
    requires tail != [] && !IsBlank(tail[0])
    ensures KeyEnd(isObject, PrintKey(isObject, key) + tail) == Left(isObject ==> Clean(key), tail)
  {
    hide Safe, StringEnd, Clean;
    var t := PrintKey(isObject, key) + tail;
    if isObject {
      StringEndQuoted(key, [COLON] + tail);
      assert t == Quoted(key) + ([COLON] + tail);
      assert ([COLON] + tail)[1..] == tail;
    } else {
      assert t == tail;
    }
  }

  /** The text of a value is left behind exactly when all its strings and keys are clean. */
  lemma {:induction false} ValueEndPrinted(j: Json, rest: bytes)
    requires After(rest)
    ensures ValueEnd(Print(j) + rest) == Left(CleanValue(j), rest)
    decreases j, 1
  {
    hide ItemsEnd, PrintItems, StringEnd, NumberEnd, WordEnd, CleanItems, Clean, Quoted, ValueEnd;
    match j
    case JNumber(n) => NumberEndDigits(n, rest);
    case JString(s) => StringEndQuoted(s, rest);
    case JContainer(isObject, items) =>
      var t, inner := Print(j) + rest, PrintItems(isObject, items, true) + ([Closing(isObject)] + rest);
      assert t[0] == Opening(isObject) && t[1..] == inner;
      NoBlankFirst(isObject, items, true, rest);
      ContainerEnd(t, isObject, inner);
      ItemsEndPrinted(isObject, items, true, rest);
    case _ => WordEndWord(j, rest);
  }

  lemma ContainerEnd(t: bytes, isObject: bool, inner: bytes)
    requires t != [] && t[0] == Opening(isObject) && t[1..] == inner && Blanks(inner) == inner
    ensures ValueEnd(t) == ItemsEnd(isObject, inner, true)
  {
    hide ItemsEnd, Blanks;
  }

  lemma NoBlankFirst(isObject: bool, items: seq<Item>, first: bool, rest: bytes)
    ensures var t := PrintItems(isObject, items, first) + ([Closing(isObject)] + rest); t != [] && Blanks(t) == t
    ensures items == [] || !first ==>
              After(PrintItems(isObject, items, first) + ([Closing(isObject)] + rest))
  {
    hide Print, Quoted;
    if items != [] {
      ValueFirst(items[0].value);
      QuoteFirst(items[0].key);
    }
  }

  lemma QuoteFirst(key: bytes)
    ensures Quoted(key) != [] && Quoted(key)[0] == QUOTE
  {
  }

  lemma ValueFirst(j: Json)
    ensures Print(j) != [] && !IsBlank(Print(j)[0]) && Print(j)[0] !in {Closing(true), Closing(false), COMMA}
  {
    hide PrintItems, Safe;
    assert TRUE_WORD[0] == 't' as int && FALSE_WORD[0] == 'f' as int && NULL_WORD[0] == 'n' as int;
  }

  lemma {:induction false} ItemsEndPrinted(isObject: bool, items: seq<Item>, first: bool, rest: bytes)
    ensures ItemsEnd(isObject, PrintItems(isObject, items, first) + ([Closing(isObject)] + rest), first)
            == Left(CleanItems(isObject, items), rest)
    decreases items, 0
  {
    hide ValueEnd, Print, KeyEnd, PrintKey, Clean, CleanValue, ItemsEnd;
    var close := [Closing(isObject)] + rest;
    if items == [] {
      assert [] + close == close;
      ClosedAtOnce(isObject, first, rest);
    } else {
      var item, more := items[0], PrintItems(isObject, items[1..], false) + close;
      ItemsEndPrinted(isObject, items[1..], false, rest);
      NoBlankFirst(isObject, items[1..], false, rest);
      ValueFirst(item.value);
      ValueEndPrinted(item.value, more);
      KeyEndPrinted(isObject, item.key, Print(item.value) + more);
      var comma: bytes := if first then [] else [COMMA];
      var body := PrintKey(isObject, item.key) + (Print(item.value) + more);
      BodyFirst(isObject, item, more);
      Regroup(comma, PrintKey(isObject, item.key), Print(item.value), PrintItems(isObject, items[1..], false), close);
      OneItem(isObject, first, comma + body, body, Print(item.value) + more, item, more);
    }
  }

  lemma ClosedAtOnce(isObject: bool, first: bool, rest: bytes)
    ensures ItemsEnd(isObject, [Closing(isObject)] + rest, first) == Some(rest)
  {
    assert ([Closing(isObject)] + rest)[1..] == rest;
  }

  lemma BodyFirst(isObject: bool, item: Item, more: bytes)
    ensures var t := PrintKey(isObject, item.key) + (Print(item.value) + more);
            t != [] && !IsBlank(t[0]) && t[0] !in {Closing(isObject), COMMA}
  {
    hide Print, Safe;
    ValueFirst(item.value);
  }

  /** One turn over the items. */
  lemma OneItem(isObject: bool, first: bool, t: bytes, body: bytes, value: bytes, item: Item, more: bytes)
    requires body != [] && !IsBlank(body[0]) && body[0] !in {Closing(isObject), COMMA}
    requires t == (if first then [] else [COMMA]) + body && more != [] && Blanks(more) == more
    requires KeyEnd(isObject, body) == Left(isObject ==> Clean(item.key), value)
    requires ValueEnd(value) == Left(CleanValue(item.value), more)
    ensures ItemsEnd(isObject, t, first) ==
            if (isObject ==> Clean(item.key)) && CleanValue(item.value) then ItemsEnd(isObject, more, false) else None
  {
    hide KeyEnd, ValueEnd, Clean, CleanValue;
    if first {
      assert t == body;
    } else {
      assert t[1..] == body && Blanks(body) == body;
    }
  }

  /** A line is a JSON text exactly when every string and key of the event is UTF-8 with JSON's control letters. */
  lemma LineIsJsonIff(v: Value)
    requires JsonConverter.Plain(v)
    ensures IsJson(Print(JsonConverter.Meaning(v))) <==> CleanValue(JsonConverter.Meaning(v))
  {
    hide ValueEnd, Print, CleanValue;
    var j := JsonConverter.Meaning(v);
    ValueEndPrinted(j, []);
    ValueFirst(j);
    assert Print(j) + [] == Print(j) && Blanks(Print(j)) == Print(j);
  }
}
