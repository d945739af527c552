/** JSON texts with the string syntax of the safe escaper: a printer and a parser that undo each other. */
module JsonText {
  import opened Wire
  import opened Decimal
  import opened SafeStrings

  /** Keys are used in objects only. */
  datatype Json =
    | JNumber(n: int)
    | JBool(b: bool)
    | JNull
    | JString(s: bytes)
    | JContainer(isObject: bool, items: seq<Item>)

  datatype Item = Item(key: bytes, value: Json)

  /** Items of arrays have no keys. */
  predicate Proper(j: Json)
    decreases j, 1
  {
    j.JContainer? ==> ProperItems(j.isObject, j.items)
  }

  predicate ProperItems(isObject: bool, items: seq<Item>)
    decreases items, 0
  {
    items == [] || ((!isObject ==> items[0].key == []) && Proper(items[0].value) && ProperItems(isObject, items[1..]))
  }

  const COMMA: byte := ',' as int
  const COLON: byte := ':' as int
  const MINUS: byte := '-' as int

  function Opening(isObject: bool): byte { if isObject then '{' as int else '[' as int }
  function Closing(isObject: bool): byte { if isObject then '}' as int else ']' as int }

  const TRUE_WORD := Ascii("true")
  const FALSE_WORD := Ascii("false")
  const NULL_WORD := Ascii("null")

  // ----- printing -----

  function PrintNumber(n: int): (s: bytes)
    ensures s != []
  {
    if n < 0 then [MINUS] + Digits(-n) else Digits(n)
  }

  function Print(j: Json): bytes
    decreases j, 1
  {
    match j
    case JNumber(n) => PrintNumber(n)
    case JBool(b) => if b then TRUE_WORD else FALSE_WORD
    case JNull => NULL_WORD
    case JString(s) => Quoted(s)
    case JContainer(isObject, items) => [Opening(isObject)] + PrintItems(isObject, items, true) + [Closing(isObject)]
  }

  function PrintKey(isObject: bool, key: bytes): bytes {
    if isObject then Quoted(key) + [COLON] else []
  }

  /** `first`: no item has been printed before these. */
  function PrintItems(isObject: bool, items: seq<Item>, first: bool): bytes
    decreases items, 0
  {
    if items == [] then []
    else
      (if first then [] else [COMMA]) + PrintKey(isObject, items[0].key) + Print(items[0].value)
      + PrintItems(isObject, items[1..], false)
  }

  // ----- parsing -----

  datatype Parsed = Parsed(j: Json, rest: bytes) | NoValue
  datatype ParsedItems = ParsedItems(items: seq<Item>, rest: bytes) | NoItems

  function ParseNumber(t: bytes): (r: Parsed)
    ensures r.Parsed? ==> |r.rest| < |t|
  {
    var neg := t != [] && t[0] == MINUS;
    var s := if neg then t[1..] else t;
    var n := Run(s);
    if n == 0 then NoValue else Parsed(JNumber(if neg then -Number(s[..n]) else Number(s[..n])), s[n..])
  }

  function ParseWord(t: bytes): (r: Parsed)
    ensures r.Parsed? ==> |r.rest| < |t|
  {
    if TRUE_WORD <= t then Parsed(JBool(true), t[4..])
    else if FALSE_WORD <= t then Parsed(JBool(false), t[5..])
    else if NULL_WORD <= t then Parsed(JNull, t[4..])
    else NoValue
  }

  function Parse(t: bytes): (r: Parsed)
    ensures r.Parsed? ==> |r.rest| < |t|
    decreases |t|, 0
  {
    if t == [] then NoValue
    else if t[0] == QUOTE then
      var s := Read(t[1..]);
      if s.Broken? then NoValue else Parsed(JString(s.value), s.rest)
    else if t[0] == Opening(true) || t[0] == Opening(false) then
      var isObject := t[0] == Opening(true);
      var items := ParseItems(isObject, t[1..], true);
      if items.NoItems? then NoValue else Parsed(JContainer(isObject, items.items), items.rest)
    else if t[0] == MINUS || IsDigit(t[0]) then ParseNumber(t)
    else ParseWord(t)
  }

  /** The key and the colon in front of an item, or nothing in an array. */
  function ParseKey(isObject: bool, t: bytes): (r: Reading)
    ensures r.Ended? ==> |r.rest| <= |t|
  {
    if !isObject then Ended([], t)
    else if t == [] || t[0] != QUOTE then Broken
    else
      var key := Read(t[1..]);
      if key.Broken? || key.rest == [] || key.rest[0] != COLON then Broken else Ended(key.value, key.rest[1..])
  }

  function ParseItems(isObject: bool, t: bytes, first: bool): (r: ParsedItems)
    ensures r.ParsedItems? ==> |r.rest| < |t|
    decreases |t|, 1
  {
    if t == [] then NoItems
    else if t[0] == Closing(isObject) then ParsedItems([], t[1..])
    else if !first && t[0] != COMMA then NoItems
    else
      var key := ParseKey(isObject, if first then t else t[1..]);
      if key.Broken? then NoItems
      else
        var value := Parse(key.rest);
        if value.NoValue? then NoItems
        else
          var more := ParseItems(isObject, value.rest, false);
          if more.NoItems? then NoItems else ParsedItems([Item(key.value, value.j)] + more.items, more.rest)
  }

  // ----- parsing undoes printing -----

  /** A value's text ends where the next byte cannot continue a number. */
  predicate Ends(rest: bytes) { rest == [] || !IsDigit(rest[0]) }

  lemma ParsePrintNumber(n: int, rest: bytes)
    requires Ends(rest)
    ensures Parse(PrintNumber(n) + rest) == Parsed(JNumber(n), rest)
  {
    hide Number, Run, Digits;
    var ds := Digits(if n < 0 then -n else n);
    DigitsNumber(if n < 0 then -n else n);
    RunOf(ds, rest);
    var t := PrintNumber(n) + rest;
    assert (ds + rest)[..|ds|] == ds && (ds + rest)[|ds|..] == rest;
    if n < 0 {
      assert t[1..] == ds + rest;
    } else {
      assert t == ds + rest;
    }
  }

  lemma ParsePrintWord(j: Json, rest: bytes)
    requires j.JBool? || j.JNull?
    ensures Parse(Print(j) + rest) == Parsed(j, rest)
  {
    var word := Print(j);
    var t := word + rest;
    assert t[|word|..] == rest && t[0] == word[0];
    assert TRUE_WORD[0] == 't' as int && FALSE_WORD[0] == 'f' as int && NULL_WORD[0] == 'n' as int;
  }

  lemma ParsePrintString(s: bytes, rest: bytes)
    ensures Parse(Quoted(s) + rest) == Parsed(JString(s), rest)
  {
    hide Safe, Read;
    QuotedEnds(s, rest);
    assert (Quoted(s) + rest)[0] == QUOTE;
  }

  /** A printed value does not start with a closing bracket or a comma. */
  lemma StartsValue(j: Json)
    ensures Print(j) != [] && Print(j)[0] !in {Closing(true), Closing(false), COMMA}
  {
    hide PrintItems, Safe;
    assert TRUE_WORD[0] == 't' as int && FALSE_WORD[0] == 'f' as int && NULL_WORD[0] == 'n' as int;
  }

  lemma ParsePrintKey(isObject: bool, key: bytes, tail: bytes)
    requires !isObject ==> key == []
    ensures ParseKey(isObject, PrintKey(isObject, key) + tail) == Ended(key, tail)
  {
    hide Safe, Read;
    if isObject {
      var t := PrintKey(isObject, key) + tail;
      QuotedEnds(key, [COLON] + tail);
      assert t == Quoted(key) + ([COLON] + tail);
      assert ([COLON] + tail)[1..] == tail;
    } else {
      assert [] + tail == tail;
    }
  }

  lemma {:induction false} ParsePrint(j: Json, rest: bytes)
    requires Proper(j) && Ends(rest)
    ensures Parse(Print(j) + rest) == Parsed(j, rest)
    decreases j, 1
  {
    hide ParseItems, PrintItems, Read, Safe, ParseNumber, ParseWord;
    match j
    case JNumber(n) => ParsePrintNumber(n, rest);
    case JString(s) => ParsePrintString(s, rest);
    case JContainer(isObject, items) =>
      ParsePrintItems(isObject, items, true, rest);
      var t := Print(j) + rest;
      assert t[0] == Opening(isObject);
      assert t[1..] == PrintItems(isObject, items, true) + ([Closing(isObject)] + rest);
    case _ => ParsePrintWord(j, rest);
  }

  lemma {:induction false} ParsePrintItems(isObject: bool, items: seq<Item>, first: bool, rest: bytes)
    requires ProperItems(isObject, items)
    ensures ParseItems(isObject, PrintItems(isObject, items, first) + ([Closing(isObject)] + rest), first)
            == ParsedItems(items, rest)
    decreases items, 0
  {
    hide Parse, Print, ParseKey, PrintKey;
    var close := [Closing(isObject)] + rest;
    if items == [] {
      assert [] + close == close && close[1..] == rest;
    } else {
      var item, more := items[0], PrintItems(isObject, items[1..], false) + close;
      ParsePrintItems(isObject, items[1..], false, rest);
      EndsAfterItem(isObject, items[1..], rest);
      ParsePrint(item.value, more);
      ParsePrintKey(isObject, item.key, Print(item.value) + more);
      StartsItem(isObject, item, more);
      var comma := if first then [] else [COMMA];
      var body := PrintKey(isObject, item.key) + (Print(item.value) + more);
      Regroup(comma, PrintKey(isObject, item.key), Print(item.value), PrintItems(isObject, items[1..], false), close);
      assert (comma + body)[|comma|..] == body;
      assert items == [Item(item.key, item.value)] + items[1..];
    }
  }

  lemma Regroup(a: bytes, b: bytes, c: bytes, d: bytes, e: bytes)
    ensures a + b + c + d + e == a + (b + (c + (d + e)))
  {
    assert a + b + c + d + e == a + b + c + (d + e);
    assert a + b + c + (d + e) == a + b + (c + (d + e));
  }

  lemma StartsItem(isObject: bool, item: Item, more: bytes)
    ensures var t := PrintKey(isObject, item.key) + (Print(item.value) + more);
            t != [] && t[0] !in {Closing(isObject), COMMA}
  {
    hide Print, Safe;
    StartsValue(item.value);
  }

  lemma EndsAfterItem(isObject: bool, items: seq<Item>, rest: bytes)
    ensures Ends(PrintItems(isObject, items, false) + ([Closing(isObject)] + rest))
  {
    hide Print, PrintKey;
  }

  // ----- no line feed inside -----

  const LF: byte := 10

  lemma {:induction false} PrintIsOneLine(j: Json)
    ensures LF !in Print(j)
    decreases j, 1
  {
    hide PrintItems, Safe, Digits;
    match j
    case JString(s) => SafeIsOneLine(s);
    case JContainer(isObject, items) => ItemsAreOneLine(isObject, items, true);
    case _ =>
  }

  lemma {:induction false} ItemsAreOneLine(isObject: bool, items: seq<Item>, first: bool)
    ensures LF !in PrintItems(isObject, items, first)
    decreases items, 0
  {
    hide Print, Safe;
    if items != [] {
      SafeIsOneLine(items[0].key);
      PrintIsOneLine(items[0].value);
      ItemsAreOneLine(isObject, items[1..], false);
    }
  }
}
