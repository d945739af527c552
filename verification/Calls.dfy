/** The logger's calls with their arguments: what each writes, and that it is made of key-value pairs. */
module Calls {
  import opened Wire
  import opened Events
  import opened Labels
  import opened Loggers

  datatype Call =
    | Message(id: ID, now: Option<int>, caller: Option<Value>, msg: Option<bytes>, kvs: seq<Arg>)
    | NewSpan(id: ID, now: Option<int>, caller: Option<Value>, parent: ID, name: bytes, kvs: seq<Arg>)
    | Finish(id: ID, now: Option<int>, started: int, kvs: seq<Arg>)
    | LogEvent(id: ID, kvs: seq<Arg>)
    | SetLabels(kvs: seq<Arg>)

  /** The header of a call that writes an event. */
  function Header(c: Call): seq<Value> {
    match c
    case Message(id, now, caller, msg, _) => MessageHeader(id, now, caller, msg)
    case NewSpan(id, now, caller, parent, name, _) => StartHeader(id, now, caller, parent, name)
    case Finish(id, now, started, _) => FinishHeader(id, now, started)
    case LogEvent(id, _) => EventHeader(id)
    case SetLabels(_) => []
  }

  /** The items of the event, without labels; or the new labels. */
  function CallItems(fmt: Formatter, c: Call): seq<Value> {
    if c.SetLabels? then LabelledAll(Items(fmt, c.kvs)) else Header(c) + Items(fmt, c.kvs)
  }

  predicate Fits64(n: int) { -MAX_INT - 1 <= n <= MAX_INT }

  /** Times are 64-bit, texts have a length, arguments are those a program can pass. New labels fit their gap. */
  ghost predicate GoodCall(g: Grammar, fmt: Formatter, c: Call) {
    && (forall a <- c.kvs :: GoodArg(g, a))
    && match c
       case Message(_, now, caller, msg, _) =>
         && (now.Some? ==> Fits64(now.value)) && (caller.Some? ==> Valid(g, caller.value))
         && (msg.Some? ==> |msg.value| <= MAX_INT)
       case NewSpan(_, now, caller, _, name, _) =>
         && (now.Some? ==> Fits64(now.value)) && (caller.Some? ==> Valid(g, caller.value)) && |name| <= MAX_INT
       case Finish(_, now, started, _) => now.Some? ==> Fits64(now.value) && Fits64(now.value - started)
       case LogEvent(_, _) => true
       case SetLabels(kvs) => Missing(Items(fmt, kvs)) <= |kvs| / 2 + 1
  }

  // ----- pairs -----

  /** Alternating keys and values, all well formed. */
  ghost predicate GoodPairs(g: Grammar, items: seq<Value>) {
    Pairs(items) && ValidAll(g, items)
  }

  lemma {:induction false} PairsEven(items: seq<Value>)
    requires Pairs(items)
    ensures |items| % 2 == 0
  {
    if items != [] {
      PairsEven(items[2..]);
    }
  }

  lemma {:induction false} PairsConcat(x: seq<Value>, y: seq<Value>)
    requires Pairs(x)
    ensures Pairs(x + y) <==> Pairs(y)
  {
    if x == [] {
      assert x + y == y;
    } else {
      assert (x + y)[2..] == x[2..] + y;
      PairsConcat(x[2..], y);
    }
  }

  lemma GoodConcat(g: Grammar, x: seq<Value>, y: seq<Value>)
    requires GoodPairs(g, x) && GoodPairs(g, y)
    ensures GoodPairs(g, x + y)
  {
    PairsConcat(x, y);
    ValidAllConcat(g, x, y);
  }

  lemma OnePair(key: Value, v: Value)
    ensures Pairs([key, v]) <==> key.Str? && key.text
  {
    assert [key, v][2..] == [];
    assert Pairs([]);
  }

  lemma GoodPair(g: Grammar, key: bytes, v: Value)
    requires |key| <= MAX_INT && Valid(g, v)
    ensures GoodPairs(g, Pair(key, v))
  {
    hide TextTree, Valid;
    KeyValid(g, key);
    ValidPair(g, TextTree(key), v);
    OnePair(TextTree(key), v);
  }

  /** The labels made from pairs are pairs. */
  lemma {:induction false} LabelsAreGood(g: Grammar, items: seq<Value>)
    requires GoodPairs(g, items)
    ensures GoodPairs(g, LabelledAll(items))
    decreases |items|
  {
    hide Valid;
    if items != [] {
      var key, v, rest := items[0], items[1], items[2..];
      assert items == [key, v] + rest;
      ValidAllConcat(g, [key, v], rest);
      ValidPair(g, key, v);
      LabelsAreGood(g, rest);
      LabelledValid(g, v);
      ValidPair(g, key, Labelled(v));
      OnePair(key, Labelled(v));
      GoodConcat(g, [key, Labelled(v)], LabelledAll(rest));
    }
  }

  lemma LabelledValid(g: Grammar, v: Value)
    requires Valid(g, v)
    ensures Valid(g, Labelled(v))
  {
  }

  // ----- headers -----

  lemma SmallValues(g: Grammar, id: ID, kind: byte)
    ensures Valid(g, IDTree(id)) && Valid(g, KindTree(kind))
  {
    TextValid(g, id);
    TextValid(g, [kind]);
  }

  lemma TimeValid(g: Grammar, ns: int)
    requires Fits64(ns)
    ensures Valid(g, TimeTree(ns)) && Valid(g, DurationTree(ns))
  {
    NumFits(ns);
    NumValid(g, ns);
  }

  lemma NumFits(n: int)
    requires Fits64(n)
    ensures 0 <= n < Pow256(8) || 0 <= -1 - n < Pow256(8)
  {
    assert Pow256(8) == 0x1_0000_0000_0000_0000;
  }

  lemma TaggedValid(g: Grammar, sem: nat, v: Value)
    requires sem < 24 && Valid(g, v)
    ensures Valid(g, Tagged(sem, v))
  {
  }

  lemma MessageValid(g: Grammar, text: bytes)
    requires |text| <= MAX_INT
    ensures Valid(g, Tagged(WIRE_MESSAGE, TextTree(text)))
  {
    TextValid(g, text);
  }

  /** One more pair at the end of a header. */
  lemma MorePair(g: Grammar, h: seq<Value>, key: bytes, v: Value)
    requires GoodPairs(g, h) && |key| <= MAX_INT && Valid(g, v)
    ensures GoodPairs(g, h + Pair(key, v))
  {
    hide GoodPairs, Valid, Pair;
    GoodPair(g, key, v);
    GoodConcat(g, h, Pair(key, v));
  }

  /** Every header is made of pairs. */
  lemma HeaderIsGood(g: Grammar, fmt: Formatter, c: Call)
    requires GoodCall(g, fmt, c)
    ensures GoodPairs(g, Header(c))
  {
    hide GoodPairs, Valid, Pair, IDTree, TimeTree, KindTree, DurationTree, Tagged, TextTree;
    Empty(g);
    match c
    case Message(id, now, caller, msg, _) => MessageIsGood(g, id, now, caller, msg);
    case NewSpan(id, now, caller, parent, name, _) => StartIsGood(g, id, now, caller, parent, name);
    case Finish(id, now, started, _) => FinishIsGood(g, id, now, started);
    case LogEvent(id, _) =>
      if id != NO_ID {
        SmallValues(g, id, SPAN_START);
        GoodPair(g, KEY_SPAN, IDTree(id));
      }
    case SetLabels(_) =>
  }

  lemma Empty(g: Grammar)
    ensures GoodPairs(g, []) && forall x: seq<Value> :: [] + x == x
  {
  }

  lemma MessageIsGood(g: Grammar, id: ID, now: Option<int>, caller: Option<Value>, msg: Option<bytes>)
    requires (now.Some? ==> Fits64(now.value)) && (caller.Some? ==> Valid(g, caller.value))
    requires msg.Some? ==> |msg.value| <= MAX_INT
    ensures GoodPairs(g, MessageHeader(id, now, caller, msg))
  {
    hide GoodPairs, Valid, Pair, IDTree, TimeTree, Tagged, TextTree;
    Empty(g);
    SmallValues(g, id, SPAN_START);
    var h := if id != NO_ID then [] + Pair(KEY_SPAN, IDTree(id)) else [];
    if id != NO_ID {
      MorePair(g, [], KEY_SPAN, IDTree(id));
    }
    if now.Some? {
      TimeValid(g, now.value);
      MorePair(g, h, KEY_TIMESTAMP, TimeTree(now.value));
      h := h + Pair(KEY_TIMESTAMP, TimeTree(now.value));
    }
    if caller.Some? {
      TaggedValid(g, SEM_CALLER, caller.value);
      MorePair(g, h, KEY_CALLER, Tagged(SEM_CALLER, caller.value));
      h := h + Pair(KEY_CALLER, Tagged(SEM_CALLER, caller.value));
    }
    if msg.Some? {
      MessageValid(g, msg.value);
      MorePair(g, h, KEY_MESSAGE, Tagged(WIRE_MESSAGE, TextTree(msg.value)));
      h := h + Pair(KEY_MESSAGE, Tagged(WIRE_MESSAGE, TextTree(msg.value)));
    }
  }

  lemma StartIsGood(g: Grammar, id: ID, now: Option<int>, caller: Option<Value>, parent: ID, name: bytes)
    requires (now.Some? ==> Fits64(now.value)) && (caller.Some? ==> Valid(g, caller.value)) && |name| <= MAX_INT
    ensures GoodPairs(g, StartHeader(id, now, caller, parent, name))
  {
    hide GoodPairs, Valid, Pair, IDTree, TimeTree, KindTree, Tagged, TextTree;
    SmallValues(g, id, SPAN_START);
    SmallValues(g, parent, SPAN_START);
    var h := Pair(KEY_SPAN, IDTree(id));
    GoodPair(g, KEY_SPAN, IDTree(id));
    if now.Some? {
      TimeValid(g, now.value);
      MorePair(g, h, KEY_TIMESTAMP, TimeTree(now.value));
      h := h + Pair(KEY_TIMESTAMP, TimeTree(now.value));
    }
    if caller.Some? {
      TaggedValid(g, SEM_CALLER, caller.value);
      MorePair(g, h, KEY_CALLER, Tagged(SEM_CALLER, caller.value));
      h := h + Pair(KEY_CALLER, Tagged(SEM_CALLER, caller.value));
    }
    MorePair(g, h, KEY_EVENT_KIND, KindTree(SPAN_START));
    h := h + Pair(KEY_EVENT_KIND, KindTree(SPAN_START));
    if parent != NO_ID {
      MorePair(g, h, KEY_PARENT, IDTree(parent));
      h := h + Pair(KEY_PARENT, IDTree(parent));
    }
    if name != [] {
      MessageValid(g, name);
      MorePair(g, h, KEY_MESSAGE, Tagged(WIRE_MESSAGE, TextTree(name)));
      h := h + Pair(KEY_MESSAGE, Tagged(WIRE_MESSAGE, TextTree(name)));
    }
  }

  lemma FinishIsGood(g: Grammar, id: ID, now: Option<int>, started: int)
    requires now.Some? ==> Fits64(now.value) && Fits64(now.value - started)
    ensures GoodPairs(g, FinishHeader(id, now, started))
  {
    hide GoodPairs, Valid, Pair, IDTree, TimeTree, KindTree, DurationTree;
    Empty(g);
    SmallValues(g, id, SPAN_FINISH);
    var h := if id != NO_ID then [] + Pair(KEY_SPAN, IDTree(id)) else [];
    if id != NO_ID {
      MorePair(g, [], KEY_SPAN, IDTree(id));
    }
    if now.Some? {
      TimeValid(g, now.value);
      MorePair(g, h, KEY_TIMESTAMP, TimeTree(now.value));
      h := h + Pair(KEY_TIMESTAMP, TimeTree(now.value));
    }
    MorePair(g, h, KEY_EVENT_KIND, KindTree(SPAN_FINISH));
    h := h + Pair(KEY_EVENT_KIND, KindTree(SPAN_FINISH));
    if now.Some? {
      TimeValid(g, now.value - started);
      MorePair(g, h, KEY_ELAPSED, DurationTree(now.value - started));
    }
  }

  // ----- calls -----

  /** With labels that are pairs, the whole event is made of pairs exactly when none of the call's arguments appends
      itself in a key's place. */
  lemma EventIsPairsIff(g: Grammar, fmt: Formatter, c: Call, labels: seq<Value>)
    requires GoodFormatter(fmt) && GoodCall(g, fmt, c) && !c.SetLabels? && GoodPairs(g, labels)
    ensures ValidAll(g, CallItems(fmt, c) + labels)
    ensures Pairs(CallItems(fmt, c) + labels) <==> NoSelfAppendingKey(fmt, c.kvs)
  {
    hide Header, Items, NoSelfAppendingKey, Valid;
    var items := Items(fmt, c.kvs);
    HeaderIsGood(g, fmt, c);
    ItemsArePairs(g, fmt, c.kvs);
    ItemsThenPairs(g, fmt, c.kvs, labels);
    PairsConcat(Header(c), items + labels);
    ValidAllConcat(g, Header(c), items);
    ValidAllConcat(g, Header(c) + items, labels);
    assert Header(c) + items + labels == Header(c) + (items + labels);
  }

  /** Pairs that follow do not mend an argument in the wrong place. */
  lemma {:induction false} ItemsThenPairs(g: Grammar, fmt: Formatter, kvs: seq<Arg>, more: seq<Value>)
    requires (forall a <- kvs :: GoodArg(g, a)) && Pairs(more)
    ensures Pairs(Items(fmt, kvs) + more) <==> NoSelfAppendingKey(fmt, kvs)
    decreases |kvs|
  {
    hide ValueOf, Valid, TextTree, Items;
    if kvs == [] {
      NoItems(fmt, kvs);
      assert [] + more == more;
    } else {
      assert GoodArg(g, kvs[0]) && kvs[0..] == kvs;
      ItemsStep(fmt, kvs, 0);
      if SelfAppending(kvs[0]) {
        assert (Items(fmt, kvs) + more)[0] == kvs[0].tree;
      } else {
        var from := if kvs[0].AText? then 1 else 0;
        var (v, n) := ValueOf(fmt, kvs[from..]);
        DropDrop(kvs, from, n);
        ItemsThenPairs(g, fmt, kvs[from + n..], more);
        assert (Items(fmt, kvs) + more)[2..] == Items(fmt, kvs[from + n..]) + more;
        TextKey((Items(fmt, kvs) + more)[0]);
      }
    }
  }

  lemma TextKey(v: Value)
    ensures forall s: bytes | v == TextTree(s) :: v.Str? && v.text
  {
  }

  /** New labels are pairs, if none of the arguments appends itself in a key's place. */
  lemma NewLabelsAreGood(g: Grammar, fmt: Formatter, c: Call)
    requires GoodFormatter(fmt) && GoodCall(g, fmt, c) && c.SetLabels? && NoSelfAppendingKey(fmt, c.kvs)
    ensures GoodPairs(g, CallItems(fmt, c))
  {
    ItemsArePairs(g, fmt, c.kvs);
    LabelsAreGood(g, Items(fmt, c.kvs));
  }

  // ----- what a stream reader can read of them -----

  function CallerOf(c: Call): Option<Value> {
    match c
    case Message(_, _, caller, _, _) => caller
    case NewSpan(_, _, caller, _, _, _) => caller
    case _ => None
  }

  /** The trees the call is given are of the stream format, and the keys without values among its items even out. */
  ghost predicate StreamCall(fmt: Formatter, c: Call) {
    && StreamTrees(c.kvs) && SelfKeys(fmt, c.kvs) % 2 == 0
    && (CallerOf(c).Some? ==> Valid(Stream, CallerOf(c).value))
  }

  lemma {:induction false} ValidIn(g: Grammar, vs: seq<Value>, v: Value)
    requires ValidAll(g, vs) && v in vs
    ensures Valid(g, v)
  {
    if v != vs[0] {
      ValidIn(g, vs[1..], v);
    }
  }

  lemma CallerIn(c: Call)
    requires CallerOf(c).Some?
    ensures Tagged(SEM_CALLER, CallerOf(c).value) in Header(c)
  {
    hide IDTree, TimeTree, TextTree, KindTree;
    var v := Tagged(SEM_CALLER, CallerOf(c).value);
    match c
    case Message(id, now, caller, msg, _) =>
      var h := if id != NO_ID then Pair(KEY_SPAN, IDTree(id)) else [];
      h := if now.Some? then h + Pair(KEY_TIMESTAMP, TimeTree(now.value)) else h;
      assert (h + Pair(KEY_CALLER, v))[|h| + 1] == v;
    case NewSpan(id, now, caller, parent, name, _) =>
      var h := Pair(KEY_SPAN, IDTree(id));
      h := if now.Some? then h + Pair(KEY_TIMESTAMP, TimeTree(now.value)) else h;
      assert (h + Pair(KEY_CALLER, v))[|h| + 1] == v;
  }

  lemma StreamHeaderIff(fmt: Formatter, c: Call)
    requires GoodCall(Full, fmt, c)
    ensures ValidAll(Stream, Header(c)) <==> (CallerOf(c).Some? ==> Valid(Stream, CallerOf(c).value))
  {
    hide Valid, ValidAll, Header, Tagged;
    if CallerOf(c).Some? && ValidAll(Stream, Header(c)) {
      CallerIn(c);
      ValidIn(Stream, Header(c), Tagged(SEM_CALLER, CallerOf(c).value));
      TaggedInside(CallerOf(c).value);
    } else if CallerOf(c).Some? ==> Valid(Stream, CallerOf(c).value) {
      HeaderIsGoodToo(fmt, c);
    }
  }

  lemma TaggedInside(v: Value)
    requires Valid(Stream, Tagged(SEM_CALLER, v))
    ensures Valid(Stream, v)
  {
  }

  lemma HeaderIsGoodToo(fmt: Formatter, c: Call)
    requires GoodCall(Full, fmt, c) && (CallerOf(c).Some? ==> Valid(Stream, CallerOf(c).value))
    ensures ValidAll(Stream, Header(c))
  {
    var bare := match c
      case Message(id, now, caller, msg, _) => Message(id, now, caller, msg, [])
      case NewSpan(id, now, caller, parent, name, _) => NewSpan(id, now, caller, parent, name, [])
      case Finish(id, now, started, _) => Finish(id, now, started, [])
      case LogEvent(id, _) => LogEvent(id, [])
      case SetLabels(_) => LogEvent(NO_ID, []);
    HeaderIsGood(Stream, fmt, bare);
    assert c.SetLabels? ==> Header(c) == [];
  }

  /** The reader can read the event of a call exactly when the call is such, and the labels are of the stream format. */
  lemma EventReadableIff(fmt: Formatter, c: Call, labels: seq<Value>)
    requires GoodFormatter(fmt) && GoodCall(Full, fmt, c) && !c.SetLabels?
    requires ValidAll(Full, labels) && |labels| % 2 == 0
    ensures ValidAll(Full, CallItems(fmt, c) + labels)
    ensures Valid(Stream, Event(CallItems(fmt, c), labels)) <==> StreamCall(fmt, c) && ValidAll(Stream, labels)
  {
    hide Header, Items, Valid, ValidAll, StreamTrees, SelfKeys, Pairs;
    var items := Items(fmt, c.kvs);
    HeaderIsGood(Full, fmt, c);
    PairsEven(Header(c));
    ItemsArePairs(Full, fmt, c.kvs);
    OddItemsIff(fmt, c.kvs);
    StreamItemsIff(fmt, c.kvs);
    StreamHeaderIff(fmt, c);
    ValidAllConcat(Full, Header(c), items);
    ValidAllConcat(Full, Header(c) + items, labels);
    ValidAllConcat(Stream, Header(c), items);
    ValidAllConcat(Stream, Header(c) + items, labels);
    OpenMapIff(Header(c) + items + labels);
  }

  lemma OpenMapIff(items: seq<Value>)
    ensures Valid(Stream, Open(true, items)) <==> |items| % 2 == 0 && ValidAll(Stream, items)
  {
  }

  /** New labels with as many values as keys are well formed, and of the stream format exactly when the trees they are
      made from are. */
  lemma LabelsReadableIff(fmt: Formatter, c: Call)
    requires GoodFormatter(fmt) && GoodCall(Full, fmt, c) && c.SetLabels? && SelfKeys(fmt, c.kvs) % 2 == 0
    ensures ValidAll(Full, CallItems(fmt, c)) && |CallItems(fmt, c)| % 2 == 0
    ensures ValidAll(Stream, CallItems(fmt, c)) <==> StreamTrees(c.kvs)
  {
    hide Items, Valid, ValidAll, StreamTrees;
    ItemsArePairs(Full, fmt, c.kvs);
    OddItemsIff(fmt, c.kvs);
    StreamItemsIff(fmt, c.kvs);
    LabelledIff(Full, Items(fmt, c.kvs));
    LabelledIff(Stream, Items(fmt, c.kvs));
  }

  lemma {:induction false} LabelledIff(g: Grammar, items: seq<Value>)
    requires |items| % 2 == 0
    ensures ValidAll(g, LabelledAll(items)) <==> ValidAll(g, items)
    ensures |LabelledAll(items)| == |items|
    decreases |items|
  {
    hide Valid;
    if items != [] {
      var key, v, rest := items[0], items[1], items[2..];
      assert items == [key, v] + rest;
      ValidAllConcat(g, [key, v], rest);
      ValidAllConcat(g, [key, Labelled(v)], LabelledAll(rest));
      ValidPair(g, key, v);
      ValidPair(g, key, Labelled(v));
      LabelledInside(g, v);
      LabelledIff(g, rest);
    }
  }

  lemma LabelledInside(g: Grammar, v: Value)
    ensures Valid(g, Labelled(v)) <==> Valid(g, v)
  {
  }
}
