/** The JSON converter: wire events to lines of JSON. */
module JsonConverter {
  import opened Wire
  import opened Framing
  import opened Decimal
  import opened SafeStrings
  import opened JsonText
  import StreamReader

  // ----- what is converted, and what it means -----

  /** Trees the converter keeps the meaning of: no floats, byte strings or tags that are formatted specially,
      and strings for keys. */
  predicate Plain(v: Value)
    decreases v, 1
  {
    match v
    case Num(neg, h) => neg ==> h.arg <= MAX_INT
    case Str(text, _, _) => text
    case Closed(isMap, _, items) => PlainItems(isMap, items)
    case Open(isMap, items) => PlainItems(isMap, items)
    case Sem(h, inner) => h.arg !in {SEM_TIME, WIRE_ID, SEM_CALLER} && Plain(inner)
    case Simple(_) => true
    case Float(_, _) => false
  }

  predicate PlainItems(isMap: bool, items: seq<Value>)
    decreases items, 0
  {
    items == [] ||
    var n := if isMap then 2 else 1;
    n <= |items| && (isMap ==> items[0].Str?) && Plain(items[n - 1]) && PlainItems(isMap, items[n..])
  }

  function Meaning(v: Value): Json
    requires Plain(v)
    decreases v, 1
  {
    match v
    case Num(neg, h) => JNumber(if neg then -1 - h.arg else h.arg)
    case Str(_, _, data) => JString(data)
    case Closed(isMap, _, items) => JContainer(isMap, Meanings(isMap, items))
    case Open(isMap, items) => JContainer(isMap, Meanings(isMap, items))
    case Sem(_, inner) => Meaning(inner)
    case Simple(sub) => if sub == TRUE then JBool(true) else if sub == FALSE then JBool(false) else JNull
  }

  function Meanings(isMap: bool, items: seq<Value>): seq<Item>
    requires PlainItems(isMap, items)
    decreases items, 0
  {
    if items == [] then []
    else
      var n := if isMap then 2 else 1;
      [Item(if isMap then items[0].data else [], Meaning(items[n - 1]))] + Meanings(isMap, items[n..])
  }

  lemma {:induction false} MeaningProper(v: Value)
    requires Plain(v)
    ensures Proper(Meaning(v))
    decreases v, 1
  {
    match v
    case Closed(isMap, _, items) => MeaningsProper(isMap, items);
    case Open(isMap, items) => MeaningsProper(isMap, items);
    case Sem(_, inner) => MeaningProper(inner);
    case _ =>
  }

  lemma {:induction false} MeaningsProper(isMap: bool, items: seq<Value>)
    requires PlainItems(isMap, items)
    ensures ProperItems(isMap, Meanings(isMap, items))
    decreases items, 0
  {
    if items != [] {
      var n := if isMap then 2 else 1;
      MeaningProper(items[n - 1]);
      MeaningsProper(isMap, items[n..]);
    }
  }

  // ----- 64-bit integers -----

  function ToUint64(l: int): int { if l < 0 then l + 0x1_0000_0000_0000_0000 else l }

  /** `-l - 1` in int64 arithmetic. */
  function Negated(l: int): int {
    var n := -l - 1;
    if n > MAX_INT then n - 0x1_0000_0000_0000_0000
    else if n < -MAX_INT - 1 then n + 0x1_0000_0000_0000_0000
    else n
  }

  /** A negative integer is printed as itself exactly when it fits an int64. */
  lemma NegatedIsExact(arg: nat)
    requires arg < Pow256(8)
    ensures Negated(WrapInt64(arg)) == -1 - arg <==> arg <= MAX_INT
    ensures arg > MAX_INT ==> Negated(WrapInt64(arg)) == 0x1_0000_0000_0000_0000 - 1 - arg
    ensures ToUint64(WrapInt64(arg)) == arg
  {
    assert Pow256(8) == 0x1_0000_0000_0000_0000;
  }

  // ----- the elements of a container -----

  /** From `i` on the input holds the last `items` of a container, `el` elements being done. */
  ghost predicate Elements(p: bytes, i: nat, isMap: bool, l: int, el: nat, items: seq<Value>) {
    && At(p, i, EncAll(items)) && ValidAll(Full, items) && PlainItems(isMap, items)
    && (if l == -1 then At(p, i + |EncAll(items)|, [BREAK_BYTE])
        else el <= l && |items| == if isMap then 2 * (l - el) else l - el)
  }

  /** What a turn of the loop finds. */
  lemma ElementsNext(p: bytes, i: nat, isMap: bool, l: int, el: nat, items: seq<Value>)
    requires Elements(p, i, isMap, l, el, items)
    ensures if l == -1 then i < |p| && (p[i] == BREAK_BYTE <==> items == []) else el <= l && (el == l <==> items == [])
    ensures items == [] ==> EncAll(items) == []
    ensures items != [] ==> var n := if isMap then 2 else 1;
      && |items| >= n && (isMap ==> items[0].Str? && Valid(Full, items[0]) && At(p, i, Enc(items[0])))
      && var j := if isMap then i + |Enc(items[0])| else i;
         && Valid(Full, items[n - 1]) && Plain(items[n - 1]) && At(p, j, Enc(items[n - 1]))
         && Elements(p, j + |Enc(items[n - 1])|, isMap, l, el + 1, items[n..])
         && |EncAll(items)| == j - i + |Enc(items[n - 1])| + |EncAll(items[n..])|
  {
    hide Enc, EncAll, Valid, ValidAll, Plain, PlainItems, At;
    Parts(isMap, items);
    if items == [] {
      if l == -1 {
        ByteAt(p, i, BREAK_BYTE);
      }
    } else {
      SkipStart(Full, p, i, items);
      if isMap {
        SkipStart(Full, p, i + |Enc(items[0])|, items[1..]);
      }
    }
  }

  lemma Parts(isMap: bool, items: seq<Value>)
    requires ValidAll(Full, items) && PlainItems(isMap, items)
    ensures items == [] ==> EncAll(items) == []
    ensures items != [] ==>
              Valid(Full, items[0]) && ValidAll(Full, items[1..])
              && EncAll(items) == Enc(items[0]) + EncAll(items[1..])
    ensures items != [] && !isMap ==> Plain(items[0]) && PlainItems(isMap, items[1..])
    ensures items != [] && isMap ==>
      && |items| > 1 && items[0].Str? && Valid(Full, items[1]) && Plain(items[1])
      && items[1..][1..] == items[2..] && items[1..][0] == items[1]
      && ValidAll(Full, items[2..]) && PlainItems(isMap, items[2..])
      && EncAll(items[1..]) == Enc(items[1]) + EncAll(items[2..])
  {
    hide Enc, Valid, Plain;
    if items != [] && isMap {
      assert items[1..][1..] == items[2..];
    }
  }

  /** The text still to come at a turn of the loop, taken apart. */
  lemma PrintNext(isMap: bool, items: seq<Value>, first: bool, b: bytes)
    requires PlainItems(isMap, items) && items != []
    ensures var n := if isMap then 2 else 1;
      && n <= |items| && PlainItems(isMap, items[n..]) && Plain(items[n - 1])
      && b + PrintItems(isMap, Meanings(isMap, items), first) ==
         b + (if first then [] else [COMMA]) + (if isMap then Quoted(items[0].data) + [COLON] else [])
         + Print(Meaning(items[n - 1])) + PrintItems(isMap, Meanings(isMap, items[n..]), false)
  {
    hide Print, Quoted, Plain, Meaning;
    var n := if isMap then 2 else 1;
    var all, rest := Meanings(isMap, items), Meanings(isMap, items[n..]);
    assert all[1..] == rest;
    Concat5(b, if first then [] else [COMMA], PrintKey(isMap, all[0].key), Print(all[0].value),
      PrintItems(isMap, rest, false));
  }

  lemma Concat5(b: bytes, w: bytes, x: bytes, y: bytes, z: bytes)
    ensures b + (w + x + y + z) == b + w + x + y + z
  {
  }

  // ----- the converter -----

  method ConvertKey(b: bytes, p: bytes, st: nat, ghost v: Value) returns (r: bytes, i: nat)
    requires v.Str? && Valid(Full, v) && At(p, st, Enc(v))
    ensures r == b + Quoted(v.data) && i == st + |Enc(v)|
  {
    hide Enc, Safe, ReadTag, Valid;
    StringAtKey(p, st, v);
    var (from, to) := StringAt(p, st);
    r := b + [QUOTE];
    r := AppendSafeString(r, p[from..to]);
    r := r + [QUOTE];
    i := to;
    QuotedParts(b, v.data);
  }

  lemma QuotedParts(b: bytes, s: bytes)
    ensures b + [QUOTE] + Safe(s) + [QUOTE] == b + Quoted(s)
  {
  }

  method ConvertValue(b: bytes, p: bytes, st: nat, ghost v: Value) returns (r: bytes, i: nat)
    requires Valid(Full, v) && Plain(v) && At(p, st, Enc(v))
    ensures r == b + Print(Meaning(v)) && i == st + |Enc(v)|
    decreases v, 1
  {
    hide ReadTag, Enc, EncAll, HeadBytes, Quoted, PrintItems, Meanings, Digits;
    Arrive(p, st, v);
    var t := ReadTag(p, st);
    i := t.next;
    if t.major == Int {
      NegatedIsExact(v.head.arg);
      r := b + PrintNumber(ToUint64(t.sub));
    } else if t.major == Neg {
      NegatedIsExact(v.head.arg);
      r := b + PrintNumber(Negated(t.sub));
    } else if t.major == Text {
      r := AppendQuoteString(b, p[i..i + t.sub]);
      i := i + t.sub;
    } else if t.major == Array || t.major == Map {
      r := b + [Opening(t.major == Map)];
      r, i := convertItems(r, p, t.major == Map, t.sub, i, v.items);
      r := r + [Closing(t.major == Map)];
      Assoc4(b, [Opening(v.isMap)], PrintItems(v.isMap, Meanings(v.isMap, v.items), true), [Closing(v.isMap)]);
    } else if t.major == Semantic {
      r, i := ConvertValue(b, p, i, v.inner);
    } else {
      var sub := p[st] % 32;
      r := b + if sub == FALSE then FALSE_WORD else if sub == TRUE then TRUE_WORD else NULL_WORD;
    }
  }

  /** The loop over a container's elements; `l` is the announced number, or -1. */
  method convertItems(b: bytes, p: bytes, isMap: bool, l: int, st: nat, ghost items: seq<Value>)
    returns (r: bytes, i: nat)
    requires Elements(p, st, isMap, l, 0, items)
    ensures r == b + PrintItems(isMap, Meanings(isMap, items), true)
    ensures i == st + |EncAll(items)| + if l == -1 then 1 else 0
    decreases items, 0
  {
    hide Enc, EncAll, Valid, ValidAll, Plain, PlainItems, Print, Quoted, PrintItems, Meaning, Meanings, Elements;
    ElementsPlain(p, st, isMap, l, 0, items);
    ghost var rest, c, text := items, 0, b + PrintItems(isMap, Meanings(isMap, items), true);
    r, i := b, st;
    var el := 0;
    while l == -1 || el < l
      invariant c <= |items| && rest == items[c..]
      invariant Elements(p, i, isMap, l, el, rest) && PlainItems(isMap, rest)
      invariant i + |EncAll(rest)| == st + |EncAll(items)|
      invariant text == r + PrintItems(isMap, Meanings(isMap, rest), el == 0)
      decreases |rest|
    {
      ElementsNext(p, i, isMap, l, el, rest);
      if l == -1 && p[i] == BREAK_BYTE {
        i := i + 1;
        NoMore(isMap, rest, el == 0, r);
        return;
      }
      ghost var n := if isMap then 2 else 1;
      PrintNext(isMap, rest, el == 0, r);
      ghost var comma: bytes, front := if el == 0 then [] else [COMMA], r;
      ghost var key: bytes := if isMap then Quoted(rest[0].data) + [COLON] else [];
      if el != 0 {
        r := r + [COMMA];
      }
      assert r == front + comma;
      if isMap {
        r, i := ConvertKey(r, p, i, rest[0]);
        r := r + [COLON];
      }
      assert r == front + comma + key;
      r, i := ConvertValue(r, p, i, items[c + n - 1]);
      rest, c := rest[n..], c + n;
      el := el + 1;
    }
    ElementsNext(p, i, isMap, l, el, rest);
    NoMore(isMap, rest, el == 0, r);
  }

  lemma ElementsPlain(p: bytes, i: nat, isMap: bool, l: int, el: nat, items: seq<Value>)
    requires Elements(p, i, isMap, l, el, items)
    ensures PlainItems(isMap, items)
  {
  }

  lemma NoMore(isMap: bool, items: seq<Value>, first: bool, r: bytes)
    requires items == []
    ensures PlainItems(isMap, items) && r + PrintItems(isMap, Meanings(isMap, items), first) == r
  {
  }

  // ----- whole inputs -----

  /** One line for each event. */
  function Lines(events: seq<Item>): bytes {
    if events == [] then [] else Lines(events[..|events| - 1]) + (Print(events[|events| - 1].value) + [LF])
  }

  predicate AllMaps(events: seq<Value>) {
    forall k | 0 <= k < |events| :: IsMap(events[k])
  }

  predicate IsMap(v: Value) { (v.Closed? || v.Open?) && v.isMap }

  datatype Err = Nothing | MapExpected | WriteFailed

  /** The loop over the events of `p`: the first that is not a map stops it before anything is written. */
  method Write(sink: StreamReader.Sink, p: bytes, ghost events: seq<Value>) returns (n: nat, err: Err)
    requires events != [] && p == EncAll(events) && ValidAll(Full, events) && PlainItems(false, events)
    modifies sink
    ensures err == MapExpected <==> !AllMaps(events)
    ensures sink.writes == if err == Nothing then old(sink.writes) + [Lines(Meanings(false, events))]
            else old(sink.writes)
    ensures err == Nothing ==> n == |p|
    ensures err == WriteFailed ==> n == 0 && old(sink.budget) == 0
  {
    hide Enc, EncAll, Valid, ValidAll, Plain, PlainItems, Print, Meaning, Meanings, ReadTag, Lines, Found;
    var b: bytes := [];
    var i: nat := 0;
    ghost var k: nat := 0;
    EventsStart(p, events);
    while true
      invariant k < |events| && AllMaps(events[..k]) && unchanged(sink)
      invariant Events(p, i, events, k)
      invariant PlainItems(false, events[..k]) && b == Lines(Meanings(false, events[..k]))
      decreases |events| - k
    {
      ghost var v := events[k];
      EventsNext(p, i, events, k);
      Arrive(p, i, v);
      FoundMap(p, i, v);
      var t := ReadTag(p, i);
      i := t.next;
      if t.major != Map {
        return i, MapExpected;
      }
      ghost var had := b;
      b := b + [Opening(true)];
      b, i := convertItems(b, p, true, t.sub, i, v.items);
      b := b + [Closing(true)];
      b := b + [LF];
      Assoc4(had, [Opening(true)], PrintItems(true, Meanings(true, v.items), true), [Closing(true)]);
      NextLine(had, events, k);
      k := k + 1;
      if i >= |p| {
        break;
      }
    }
    assert events[..k] == events;
    var m, e := sink.Write(b);
    if e == StreamReader.Failed {
      return 0, WriteFailed;
    }
    return |p|, Nothing;
  }

  ghost predicate Events(p: bytes, i: nat, events: seq<Value>, k: nat) {
    && k <= |events| && At(p, i, EncAll(events[k..])) && i + |EncAll(events[k..])| == |p|
    && ValidAll(Full, events[k..]) && PlainItems(false, events[k..])
  }

  lemma EventsStart(p: bytes, events: seq<Value>)
    requires p == EncAll(events) && ValidAll(Full, events) && PlainItems(false, events)
    ensures Events(p, 0, events, 0) && PlainItems(false, events[..0]) && Lines(Meanings(false, events[..0])) == []
  {
    assert events[0..] == events;
  }

  lemma EventsNext(p: bytes, i: nat, events: seq<Value>, k: nat)
    requires Events(p, i, events, k) && k < |events|
    ensures var v := events[k];
      && Valid(Full, v) && Plain(v) && At(p, i, Enc(v))
      && Events(p, i + |Enc(v)|, events, k + 1)
      && (i + |Enc(v)| >= |p| <==> k + 1 == |events|)
  {
    hide Enc, Valid, Plain;
    var rest := events[k..];
    SkipStart(Full, p, i, rest);
    assert rest[1..] == events[k + 1..] && rest[0] == events[k];
    if k + 1 < |events| {
      SkipStart(Full, p, i + |Enc(events[k])|, events[k + 1..]);
    }
  }

  /** A map, and the elements after its head. */
  lemma FoundMap(p: bytes, i: nat, v: Value)
    requires Valid(Full, v) && Plain(v) && Found(p, i, v, ReadTag(p, i))
    ensures var t := ReadTag(p, i);
      && t.Tag? && (t.major == Map <==> IsMap(v))
      && (IsMap(v) ==> Elements(p, t.next, true, t.sub, 0, v.items)
                       && t.next + |EncAll(v.items)| + (if t.sub == -1 then 1 else 0) == i + |Enc(v)|)
  {
    hide ReadTag, EncAll, HeadBytes;
  }

  lemma NextLine(b: bytes, events: seq<Value>, k: nat)
    requires k < |events| && Plain(events[k]) && IsMap(events[k])
    requires PlainItems(false, events[..k]) && b == Lines(Meanings(false, events[..k])) && AllMaps(events[..k])
    ensures PlainItems(true, events[k].items) && PlainItems(false, events[..k + 1]) && AllMaps(events[..k + 1])
    ensures b + ([Opening(true)] + PrintItems(true, Meanings(true, events[k].items), true) + [Closing(true)]) + [LF] ==
            Lines(Meanings(false, events[..k + 1]))
  {
    hide Print, PrintItems, Plain, PlainItems, Meaning, Meanings, Lines;
    var init, v := events[..k], events[k];
    assert events[..k + 1] == init + [v];
    MeaningsAppend(init, v);
    MapText(v);
    LinesAppend(Meanings(false, init), Item([], Meaning(v)));
    var text := Print(Meaning(v));
    assert b + text + [LF] == b + (text + [LF]);
  }

  lemma MapText(v: Value)
    requires Plain(v) && IsMap(v)
    ensures PlainItems(true, v.items)
    ensures Print(Meaning(v)) == [Opening(true)] + PrintItems(true, Meanings(true, v.items), true) + [Closing(true)]
  {
    hide PrintItems;
  }

  lemma LinesAppend(items: seq<Item>, item: Item)
    ensures Lines(items + [item]) == Lines(items) + (Print(item.value) + [LF])
  {
    hide Print;
    assert (items + [item])[..|items|] == items;
  }

  lemma {:induction false} MeaningsAppend(events: seq<Value>, v: Value)
    requires PlainItems(false, events) && Plain(v)
    ensures PlainItems(false, events + [v])
    ensures Meanings(false, events + [v]) == Meanings(false, events) + [Item([], Meaning(v))]
    decreases |events|
  {
    hide Plain, Meaning;
    if events == [] {
      assert events + [v] == [v] && [v][1..] == [];
    } else {
      assert (events + [v])[1..] == events[1..] + [v];
      MeaningsAppend(events[1..], v);
    }
  }

  // ----- lines back to events -----

  /** Reads values, each ended by a line feed. */
  function ParseLines(t: bytes): Option<seq<Json>>
    decreases |t|
  {
    if t == [] then Some([])
    else
      var first := Parse(t);
      if first.NoValue? || first.rest == [] || first.rest[0] != LF then None
      else match ParseLines(first.rest[1..])
        case None => None
        case Some(more) => Some([first.j] + more)
  }

  function Values(items: seq<Item>): (r: seq<Json>)
    ensures |r| == |items|
  {
    seq(|items|, k requires 0 <= k < |items| => items[k].value)
  }

  lemma {:induction false} LinesFront(item: Item, items: seq<Item>)
    ensures Lines([item] + items) == Print(item.value) + [LF] + Lines(items)
    decreases |items|
  {
    hide Print;
    var all := [item] + items;
    if items == [] {
      assert all[..0] == [] && all[0] == item;
      assert Lines(all) == [] + (Print(item.value) + [LF]);
    } else {
      var last := items[|items| - 1];
      assert all[..|all| - 1] == [item] + items[..|items| - 1];
      LinesFront(item, items[..|items| - 1]);
      var x := Print(item.value) + [LF];
      assert x + Lines(items[..|items| - 1]) + (Print(last.value) + [LF])
        == x + (Lines(items[..|items| - 1]) + (Print(last.value) + [LF]));
    }
  }

  lemma {:induction false} ParseLinesBack(items: seq<Item>)
    requires ProperItems(false, items)
    ensures ParseLines(Lines(items)) == Some(Values(items))
    decreases |items|
  {
    hide Parse, Print, Proper;
    if items == [] {
      assert Values(items) == [];
    } else {
      var item, rest := items[0], Lines(items[1..]);
      assert items == [item] + items[1..];
      LinesFront(item, items[1..]);
      ParsePrint(item.value, [LF] + rest);
      StartsValue(item.value);
      assert Lines(items) == Print(item.value) + ([LF] + rest);
      assert ([LF] + rest)[1..] == rest;
      ParseLinesBack(items[1..]);
      assert Values(items) == [item.value] + Values(items[1..]);
    }
  }

  function LineFeeds(s: bytes): nat {
    if s == [] then 0 else LineFeeds(s[..|s| - 1]) + if s[|s| - 1] == LF then 1 else 0
  }

  lemma {:induction false} LineFeedsConcat(s: bytes, t: bytes)
    ensures LineFeeds(s + t) == LineFeeds(s) + LineFeeds(t)
    ensures LF !in t ==> LineFeeds(t) == 0
    decreases |t|
  {
    if t == [] {
      assert s + t == s;
    } else {
      assert (s + t)[..|s + t| - 1] == s + t[..|t| - 1];
      LineFeedsConcat(s, t[..|t| - 1]);
    }
  }

  lemma {:induction false} OneLineEach(items: seq<Item>)
    ensures LineFeeds(Lines(items)) == |items|
    decreases |items|
  {
    hide Print;
    if items != [] {
      var init, text := Lines(items[..|items| - 1]), Print(items[|items| - 1].value);
      OneLineEach(items[..|items| - 1]);
      PrintIsOneLine(items[|items| - 1].value);
      LineFeedsConcat(init, text + [LF]);
      LineFeedsConcat(text, [LF]);
      LineFeedsConcat([], text);
      assert [LF][..0] == [] && LineFeeds([LF]) == LineFeeds([]) + 1;
    }
  }

  lemma {:induction false} MeaningsCount(events: seq<Value>)
    requires PlainItems(false, events)
    ensures |Meanings(false, events)| == |events|
    ensures forall k | 0 <= k < |events| :: Plain(events[k]) && Meanings(false, events)[k].value == Meaning(events[k])
  {
    hide Meaning, Plain;
    if events != [] {
      MeaningsCount(events[1..]);
      forall k | 0 < k < |events|
        ensures Plain(events[k]) && Meanings(false, events)[k].value == Meaning(events[k])
      {
        assert events[k] == events[1..][k - 1];
      }
    }
  }

  /** The lines written for a sequence of events parse back to what the events mean, in order, and there is exactly
      one line feed for each of them. */
  lemma LinesAreTheEvents(events: seq<Value>)
    requires PlainItems(false, events)
    ensures ParseLines(Lines(Meanings(false, events))) == Some(Values(Meanings(false, events)))
    ensures LineFeeds(Lines(Meanings(false, events))) == |events| == |Meanings(false, events)|
    ensures forall k | 0 <= k < |events| :: Plain(events[k]) && Values(Meanings(false, events))[k] == Meaning(events[k])
  {
    hide Plain, Meaning, Meanings, Lines;
    MeaningsProper(false, events);
    ParseLinesBack(Meanings(false, events));
    OneLineEach(Meanings(false, events));
    MeaningsCount(events);
  }

  // ----- definite and indefinite length -----

  /** The same tree with every container of indefinite length. */
  function Opened(v: Value): Value
    decreases v, 1
  {
    match v
    case Closed(isMap, _, items) => Open(isMap, OpenedAll(items))
    case Open(isMap, items) => Open(isMap, OpenedAll(items))
    case Sem(h, inner) => Sem(h, Opened(inner))
    case _ => v
  }

  function OpenedAll(items: seq<Value>): (r: seq<Value>)
    ensures |r| == |items|
    decreases items, 0
  {
    if items == [] then [] else [Opened(items[0])] + OpenedAll(items[1..])
  }

  /** The length form makes no difference to the text. */
  lemma {:induction false} LengthFormIsLost(v: Value)
    requires Plain(v)
    ensures Plain(Opened(v)) && Meaning(Opened(v)) == Meaning(v)
    decreases v, 1
  {
    match v
    case Closed(isMap, _, items) => LengthFormsAreLost(isMap, items);
    case Open(isMap, items) => LengthFormsAreLost(isMap, items);
    case Sem(_, inner) => LengthFormIsLost(inner);
    case _ =>
  }

  lemma {:induction false} LengthFormsAreLost(isMap: bool, items: seq<Value>)
    requires PlainItems(isMap, items)
    ensures PlainItems(isMap, OpenedAll(items)) && Meanings(isMap, OpenedAll(items)) == Meanings(isMap, items)
    decreases items, 0
  {
    if items != [] {
      var n := if isMap then 2 else 1;
      LengthFormIsLost(items[n - 1]);
      LengthFormsAreLost(isMap, items[n..]);
      OpenedParts(items, n);
    }
  }

  lemma OpenedParts(items: seq<Value>, n: nat)
    requires 1 <= n <= 2 && n <= |items|
    ensures OpenedAll(items)[0] == Opened(items[0]) && OpenedAll(items)[n - 1] == Opened(items[n - 1])
    ensures OpenedAll(items)[n..] == OpenedAll(items[n..])
  {
    if n == 2 {
      assert items[1..][1..] == items[2..];
      assert OpenedAll(items)[2..] == OpenedAll(items[1..])[1..];
    }
  }
}
