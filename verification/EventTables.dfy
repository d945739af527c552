/** What stands under which key in the events of the logger's calls, and what arguments are written as, in bytes. */
module EventTables {
  import opened Wire
  import opened Events
  import opened Labels
  import opened Loggers
  import opened Calls
  import FormatTables
  import StreamReader

  // ----- looking up a key -----

  /** The bytes of the value under the first key that is encoded as `k`. */
  function Under(items: seq<Value>, k: bytes): Option<bytes> {
    if |items| < 2 then None
    else if Enc(items[0]) == k then Some(Enc(items[1]))
    else Under(items[2..], k)
  }

  function OrElse(x: Option<bytes>, y: Option<bytes>): Option<bytes> { if x.Some? then x else y }

  lemma {:induction false} UnderConcat(x: seq<Value>, y: seq<Value>, k: bytes)
    requires |x| % 2 == 0
    ensures Under(x + y, k) == OrElse(Under(x, k), Under(y, k))
    decreases |x|
  {
    hide Enc;
    if x == [] {
      assert x + y == y;
    } else {
      assert (x + y)[2..] == x[2..] + y;
      UnderConcat(x[2..], y, k);
    }
  }

  lemma UnderPair(key: bytes, v: Value, k: bytes)
    ensures Under(Pair(key, v), k) == if Enc(TextTree(key)) == k then Some(Enc(v)) else None
  {
    hide Enc, TextTree;
    assert Pair(key, v)[2..] == [];
  }

  /** A header with one more pair. */
  lemma MorePairUnder(h: seq<Value>, key: bytes, v: Value, k: bytes)
    requires |h| % 2 == 0
    ensures |h + Pair(key, v)| % 2 == 0
    ensures Under(h + Pair(key, v), k) ==
            OrElse(Under(h, k), if Enc(TextTree(key)) == k then Some(Enc(v)) else None)
  {
    hide Under;
    UnderConcat(h, Pair(key, v), k);
    UnderPair(key, v, k);
  }

  /** The keys as bytes: a text of two letters. */
  lemma KeysWritten()
    ensures Enc(TextTree(KEY_SPAN)) == [0x62, 0x5F, 0x73] && Enc(TextTree(KEY_PARENT)) == [0x62, 0x5F, 0x70]
    ensures Enc(TextTree(KEY_TIMESTAMP)) == [0x62, 0x5F, 0x74] && Enc(TextTree(KEY_ELAPSED)) == [0x62, 0x5F, 0x65]
    ensures Enc(TextTree(KEY_CALLER)) == [0x62, 0x5F, 0x63] && Enc(TextTree(KEY_MESSAGE)) == [0x62, 0x5F, 0x6D]
    ensures Enc(TextTree(KEY_EVENT_KIND)) == [0x62, 0x5F, 0x6B] && Enc(TextTree(KEY_LOG_LEVEL)) == [0x62, 0x5F, 0x6C]
    ensures Enc(TextTree(KEY_TAG)) == [0x62, 0x5F, 0x54]
  {
    hide Enc, TextTree;
    KeyWritten(KEY_SPAN, 0x73);
    KeyWritten(KEY_PARENT, 0x70);
    KeyWritten(KEY_TIMESTAMP, 0x74);
    KeyWritten(KEY_ELAPSED, 0x65);
    KeyWritten(KEY_CALLER, 0x63);
    KeyWritten(KEY_MESSAGE, 0x6D);
    KeyWritten(KEY_EVENT_KIND, 0x6B);
    KeyWritten(KEY_LOG_LEVEL, 0x6C);
    KeyWritten(KEY_TAG, 0x54);
  }

  lemma KeyWritten(key: bytes, c: byte)
    requires key == [0x5F, c]
    ensures Enc(TextTree(key)) == [0x62, 0x5F, c]
  {
    hide Enc, TextTree;
    FormatTables.ValuesWritten(0, key, [], UNDEFINED_VALUE);
  }

  /** Ids, times, durations, kinds, texts and callers, each behind its tag. */
  lemma TaggedWritten(id: ID, n: int, c: byte, s: bytes, v: Value)
    ensures Enc(IDTree(id)) == [0xCB, 0x50] + id
    ensures Enc(TimeTree(n)) == [0xC2] + Enc(NumTree(n)) && Enc(DurationTree(n)) == [0xC3] + Enc(NumTree(n))
    ensures Enc(KindTree(c)) == [0xCD, 0x61, c]
    ensures Enc(Tagged(SEM_CALLER, v)) == [0xC5] + Enc(v)
    ensures Enc(Tagged(WIRE_MESSAGE, TextTree(s))) == [0xCC] + Enc(TextTree(s))
  {
    hide Enc, NumTree, TextTree;
    OneTag(SEM_TIME, NumTree(n));
    OneTag(SEM_DURATION, NumTree(n));
    OneTag(SEM_CALLER, v);
    OneTag(WIRE_MESSAGE, TextTree(s));
    OneTag(WIRE_EVENT_KIND, TextTree([c]));
    OneTag(WIRE_ID, Str(false, MinHead(16), id));
    FormatTables.ValuesWritten(0, id, [], v);
    FormatTables.ValuesWritten(0, [c], [], v);
  }

  lemma OneTag(sem: nat, v: Value)
    requires sem < 24
    ensures Enc(Tagged(sem, v)) == [0xC0 + sem] + Enc(v)
  {
    hide HeadBytes;
    FormatTables.HeadWritten(6, sem);
  }

  lemma AllZeroID(id: ID)
    ensures id != NO_ID <==> exists k | 0 <= k < 16 :: id[k] != 0
  {
    if forall k | 0 <= k < 16 :: id[k] == 0 {
      assert id == NO_ID;
    }
  }

  // ----- the four kinds of events -----

  /** One more pair of a header, if there is one. */
  function WithPair(h: seq<Value>, given: bool, key: bytes, v: Value): seq<Value> {
    if given then h + Pair(key, v) else h
  }

  lemma WithPairUnder(h: seq<Value>, given: bool, key: bytes, v: Value, k: bytes)
    requires |h| % 2 == 0
    ensures |WithPair(h, given, key, v)| % 2 == 0
    ensures Under(WithPair(h, given, key, v), k) ==
            OrElse(Under(h, k), if given && Enc(TextTree(key)) == k then Some(Enc(v)) else None)
  {
    hide Under;
    MorePairUnder(h, key, v, k);
  }

  /** The event of a call: header, argument pairs and labels, between the bytes 0xBF and 0xFF. */
  lemma EventWritten(fmt: Formatter, c: Call, labels: seq<Value>)
    ensures Enc(Event(CallItems(fmt, c), labels)) == [0xBF] + EncAll(CallItems(fmt, c) + labels) + [0xFF]
  {
    hide Enc, EncAll, CallItems;
    FormatTables.ValuesWritten(0, [], CallItems(fmt, c) + labels, UNDEFINED_VALUE);
  }

  lemma HeaderThenItems(fmt: Formatter, c: Call, labels: seq<Value>, k: bytes)
    requires !c.SetLabels? && |Header(c)| % 2 == 0
    ensures Under(CallItems(fmt, c) + labels, k) == OrElse(Under(Header(c), k), Under(Items(fmt, c.kvs) + labels, k))
  {
    hide Under, Items, Header;
    assert Header(c) + Items(fmt, c.kvs) + labels == Header(c) + (Items(fmt, c.kvs) + labels);
    UnderConcat(Header(c), Items(fmt, c.kvs) + labels, k);
  }

  /** The event that starts a span: `_s` its id, `_t` the time, `_c` the caller, `_k` the letter s, `_p` the parent's id
      if that is not zero, `_m` the name if it is not empty. Any other key is among the arguments and labels. */
  lemma StartUnder(fmt: Formatter, c: Call, labels: seq<Value>, k: bytes)
    requires c.NewSpan?
    ensures Under(CallItems(fmt, c) + labels, k) ==
            if k == [0x62, 0x5F, 0x73] then Some([0xCB, 0x50] + c.id)
            else if k == [0x62, 0x5F, 0x74] && c.now.Some? then Some([0xC2] + Enc(NumTree(c.now.value)))
            else if k == [0x62, 0x5F, 0x63] && c.caller.Some? then Some([0xC5] + Enc(c.caller.value))
            else if k == [0x62, 0x5F, 0x6B] then Some([0xCD, 0x61, 0x73])
            else if k == [0x62, 0x5F, 0x70] && (exists j | 0 <= j < 16 :: c.parent[j] != 0) then
              Some([0xCB, 0x50] + c.parent)
            else if k == [0x62, 0x5F, 0x6D] && c.name != [] then Some([0xCC] + Enc(TextTree(c.name)))
            else Under(Items(fmt, c.kvs) + labels, k)
  {
    hide Enc, Under, Items, TextTree, NumTree, IDTree, TimeTree, KindTree, Tagged, Pair, CallItems;
    var now := if c.now.Some? then c.now.value else 0;
    var caller := if c.caller.Some? then c.caller.value else UNDEFINED_VALUE;
    KeysWritten();
    TaggedWritten(c.id, now, 0x73, c.name, caller);
    TaggedWritten(c.parent, now, 0x73, c.name, caller);
    AllZeroID(c.parent);
    NothingUnder(k);
    WithPairUnder([], true, KEY_SPAN, IDTree(c.id), k);
    var h1 := WithPair([], true, KEY_SPAN, IDTree(c.id));
    WithPairUnder(h1, c.now.Some?, KEY_TIMESTAMP, TimeTree(now), k);
    var h2 := WithPair(h1, c.now.Some?, KEY_TIMESTAMP, TimeTree(now));
    WithPairUnder(h2, c.caller.Some?, KEY_CALLER, Tagged(SEM_CALLER, caller), k);
    var h3 := WithPair(h2, c.caller.Some?, KEY_CALLER, Tagged(SEM_CALLER, caller));
    WithPairUnder(h3, true, KEY_EVENT_KIND, KindTree(SPAN_START), k);
    var h4 := WithPair(h3, true, KEY_EVENT_KIND, KindTree(SPAN_START));
    WithPairUnder(h4, c.parent != NO_ID, KEY_PARENT, IDTree(c.parent), k);
    var h5 := WithPair(h4, c.parent != NO_ID, KEY_PARENT, IDTree(c.parent));
    WithPairUnder(h5, c.name != [], KEY_MESSAGE, Tagged(WIRE_MESSAGE, TextTree(c.name)), k);
    assert Header(c) == WithPair(h5, c.name != [], KEY_MESSAGE, Tagged(WIRE_MESSAGE, TextTree(c.name)));
    HeaderThenItems(fmt, c, labels, k);
  }

  lemma NothingUnder(k: bytes)
    ensures Under([], k) == None && forall x: seq<Value> :: [] + x == x
  {
  }

  /** A message: `_s` the span's id if that is not zero, `_t` the time, `_c` the caller, `_m` the text. */
  lemma MessageUnder(fmt: Formatter, c: Call, labels: seq<Value>, k: bytes)
    requires c.Message?
    ensures Under(CallItems(fmt, c) + labels, k) ==
            if k == [0x62, 0x5F, 0x73] && (exists j | 0 <= j < 16 :: c.id[j] != 0) then Some([0xCB, 0x50] + c.id)
            else if k == [0x62, 0x5F, 0x74] && c.now.Some? then Some([0xC2] + Enc(NumTree(c.now.value)))
            else if k == [0x62, 0x5F, 0x63] && c.caller.Some? then Some([0xC5] + Enc(c.caller.value))
            else if k == [0x62, 0x5F, 0x6D] && c.msg.Some? then Some([0xCC] + Enc(TextTree(c.msg.value)))
            else Under(Items(fmt, c.kvs) + labels, k)
  {
    hide Enc, Under, Items, TextTree, NumTree, IDTree, TimeTree, Tagged, Pair, CallItems;
    var now := if c.now.Some? then c.now.value else 0;
    var caller := if c.caller.Some? then c.caller.value else UNDEFINED_VALUE;
    var text := if c.msg.Some? then c.msg.value else [];
    KeysWritten();
    TaggedWritten(c.id, now, 0x73, text, caller);
    AllZeroID(c.id);
    NothingUnder(k);
    WithPairUnder([], c.id != NO_ID, KEY_SPAN, IDTree(c.id), k);
    var h1 := WithPair([], c.id != NO_ID, KEY_SPAN, IDTree(c.id));
    WithPairUnder(h1, c.now.Some?, KEY_TIMESTAMP, TimeTree(now), k);
    var h2 := WithPair(h1, c.now.Some?, KEY_TIMESTAMP, TimeTree(now));
    WithPairUnder(h2, c.caller.Some?, KEY_CALLER, Tagged(SEM_CALLER, caller), k);
    var h3 := WithPair(h2, c.caller.Some?, KEY_CALLER, Tagged(SEM_CALLER, caller));
    WithPairUnder(h3, c.msg.Some?, KEY_MESSAGE, Tagged(WIRE_MESSAGE, TextTree(text)), k);
    assert Header(c) == WithPair(h3, c.msg.Some?, KEY_MESSAGE, Tagged(WIRE_MESSAGE, TextTree(text)));
    HeaderThenItems(fmt, c, labels, k);
  }

  /** The event that finishes a span: `_s` its id if that is not zero, `_t` the time, `_k` the letter f, and `_e` the
      time since the start. */
  lemma FinishUnder(fmt: Formatter, c: Call, labels: seq<Value>, k: bytes)
    requires c.Finish?
    ensures Under(CallItems(fmt, c) + labels, k) ==
            if k == [0x62, 0x5F, 0x73] && (exists j | 0 <= j < 16 :: c.id[j] != 0) then Some([0xCB, 0x50] + c.id)
            else if k == [0x62, 0x5F, 0x74] && c.now.Some? then Some([0xC2] + Enc(NumTree(c.now.value)))
            else if k == [0x62, 0x5F, 0x6B] then Some([0xCD, 0x61, 0x66])
            else if k == [0x62, 0x5F, 0x65] && c.now.Some? then Some([0xC3] + Enc(NumTree(c.now.value - c.started)))
            else Under(Items(fmt, c.kvs) + labels, k)
  {
    hide Enc, Under, Items, TextTree, NumTree, IDTree, TimeTree, KindTree, DurationTree, Tagged, Pair, CallItems;
    var now := if c.now.Some? then c.now.value else 0;
    KeysWritten();
    TaggedWritten(c.id, now, 0x66, [], UNDEFINED_VALUE);
    TaggedWritten(c.id, now - c.started, 0x66, [], UNDEFINED_VALUE);
    AllZeroID(c.id);
    NothingUnder(k);
    WithPairUnder([], c.id != NO_ID, KEY_SPAN, IDTree(c.id), k);
    var h1 := WithPair([], c.id != NO_ID, KEY_SPAN, IDTree(c.id));
    WithPairUnder(h1, c.now.Some?, KEY_TIMESTAMP, TimeTree(now), k);
    var h2 := WithPair(h1, c.now.Some?, KEY_TIMESTAMP, TimeTree(now));
    WithPairUnder(h2, true, KEY_EVENT_KIND, KindTree(SPAN_FINISH), k);
    var h3 := WithPair(h2, true, KEY_EVENT_KIND, KindTree(SPAN_FINISH));
    WithPairUnder(h3, c.now.Some?, KEY_ELAPSED, DurationTree(now - c.started), k);
    assert Header(c) == WithPair(h3, c.now.Some?, KEY_ELAPSED, DurationTree(now - c.started));
    HeaderThenItems(fmt, c, labels, k);
  }

  /** An event of arguments only: `_s` the span's id if that is not zero. */
  lemma EventUnder(fmt: Formatter, c: Call, labels: seq<Value>, k: bytes)
    requires c.LogEvent?
    ensures Under(CallItems(fmt, c) + labels, k) ==
            if k == [0x62, 0x5F, 0x73] && (exists j | 0 <= j < 16 :: c.id[j] != 0) then Some([0xCB, 0x50] + c.id)
            else Under(Items(fmt, c.kvs) + labels, k)
  {
    hide Enc, Under, Items, TextTree, IDTree, Pair, CallItems;
    KeysWritten();
    TaggedWritten(c.id, 0, 0x73, [], UNDEFINED_VALUE);
    AllZeroID(c.id);
    NothingUnder(k);
    WithPairUnder([], c.id != NO_ID, KEY_SPAN, IDTree(c.id), k);
    assert Header(c) == WithPair([], c.id != NO_ID, KEY_SPAN, IDTree(c.id));
    HeaderThenItems(fmt, c, labels, k);
  }

  // ----- the headers in bytes, which also fix their order -----

  lemma WithPairBytes(h: seq<Value>, given: bool, key: bytes, v: Value, k: bytes, t: bytes, e: bytes)
    requires given ==> Enc(TextTree(key)) == k && Enc(v) == t + e
    ensures EncAll(WithPair(h, given, key, v)) == EncAll(h) + if given then k + t + e else []
  {
    hide Enc, EncAll, TextTree;
    if given {
      EncAllConcat(h, Pair(key, v));
      EncPair(TextTree(key), v);
      assert k + (t + e) == k + t + e;
    } else {
      assert EncAll(h) + [] == EncAll(h);
    }
  }

  lemma NoBytes()
    ensures EncAll([]) == [] && forall x: bytes :: [] + x == x
  {
  }

  lemma StartInBytes(c: Call)
    requires c.NewSpan?
    ensures EncAll(Header(c)) ==
            [0x62, 0x5F, 0x73] + [0xCB, 0x50] + c.id
            + (if c.now.Some? then [0x62, 0x5F, 0x74] + [0xC2] + Enc(NumTree(c.now.value)) else [])
            + (if c.caller.Some? then [0x62, 0x5F, 0x63] + [0xC5] + Enc(c.caller.value) else [])
            + ([0x62, 0x5F, 0x6B] + [0xCD] + [0x61, 0x73])
            + (if (exists j | 0 <= j < 16 :: c.parent[j] != 0) then [0x62, 0x5F, 0x70] + [0xCB, 0x50] + c.parent
               else [])
            + (if c.name != [] then [0x62, 0x5F, 0x6D] + [0xCC] + Enc(TextTree(c.name)) else [])
  {
    hide Enc, EncAll, TextTree, NumTree, IDTree, TimeTree, KindTree, Tagged, Pair;
    var now := if c.now.Some? then c.now.value else 0;
    var caller := if c.caller.Some? then c.caller.value else UNDEFINED_VALUE;
    KeysWritten();
    TaggedWritten(c.id, now, 0x73, c.name, caller);
    TaggedWritten(c.parent, now, 0x73, c.name, caller);
    AllZeroID(c.parent);
    NoBytes();
    NothingUnder([]);
    WithPairBytes([], true, KEY_SPAN, IDTree(c.id), [0x62, 0x5F, 0x73], [0xCB, 0x50], c.id);
    var h1 := WithPair([], true, KEY_SPAN, IDTree(c.id));
    WithPairBytes(h1, c.now.Some?, KEY_TIMESTAMP, TimeTree(now), [0x62, 0x5F, 0x74], [0xC2], Enc(NumTree(now)));
    var h2 := WithPair(h1, c.now.Some?, KEY_TIMESTAMP, TimeTree(now));
    WithPairBytes(h2, c.caller.Some?, KEY_CALLER, Tagged(SEM_CALLER, caller), [0x62, 0x5F, 0x63], [0xC5], Enc(caller));
    var h3 := WithPair(h2, c.caller.Some?, KEY_CALLER, Tagged(SEM_CALLER, caller));
    WithPairBytes(h3, true, KEY_EVENT_KIND, KindTree(SPAN_START), [0x62, 0x5F, 0x6B], [0xCD], [0x61, 0x73]);
    var h4 := WithPair(h3, true, KEY_EVENT_KIND, KindTree(SPAN_START));
    WithPairBytes(h4, c.parent != NO_ID, KEY_PARENT, IDTree(c.parent), [0x62, 0x5F, 0x70], [0xCB, 0x50], c.parent);
    var h5 := WithPair(h4, c.parent != NO_ID, KEY_PARENT, IDTree(c.parent));
    var msg := Tagged(WIRE_MESSAGE, TextTree(c.name));
    WithPairBytes(h5, c.name != [], KEY_MESSAGE, msg, [0x62, 0x5F, 0x6D], [0xCC], Enc(TextTree(c.name)));
    assert Header(c) == WithPair(h5, c.name != [], KEY_MESSAGE, msg);
  }

  lemma MessageInBytes(c: Call)
    requires c.Message?
    ensures EncAll(Header(c)) ==
            (if (exists j | 0 <= j < 16 :: c.id[j] != 0) then [0x62, 0x5F, 0x73] + [0xCB, 0x50] + c.id else [])
            + (if c.now.Some? then [0x62, 0x5F, 0x74] + [0xC2] + Enc(NumTree(c.now.value)) else [])
            + (if c.caller.Some? then [0x62, 0x5F, 0x63] + [0xC5] + Enc(c.caller.value) else [])
            + (if c.msg.Some? then [0x62, 0x5F, 0x6D] + [0xCC] + Enc(TextTree(c.msg.value)) else [])
  {
    hide Enc, EncAll, TextTree, NumTree, IDTree, TimeTree, Tagged, Pair;
    var now := if c.now.Some? then c.now.value else 0;
    var caller := if c.caller.Some? then c.caller.value else UNDEFINED_VALUE;
    var text := if c.msg.Some? then c.msg.value else [];
    KeysWritten();
    TaggedWritten(c.id, now, 0x73, text, caller);
    AllZeroID(c.id);
    NoBytes();
    NothingUnder([]);
    WithPairBytes([], c.id != NO_ID, KEY_SPAN, IDTree(c.id), [0x62, 0x5F, 0x73], [0xCB, 0x50], c.id);
    var h1 := WithPair([], c.id != NO_ID, KEY_SPAN, IDTree(c.id));
    assert EncAll(h1) == if c.id != NO_ID then [0x62, 0x5F, 0x73] + [0xCB, 0x50] + c.id else [];
    WithPairBytes(h1, c.now.Some?, KEY_TIMESTAMP, TimeTree(now), [0x62, 0x5F, 0x74], [0xC2], Enc(NumTree(now)));
    var h2 := WithPair(h1, c.now.Some?, KEY_TIMESTAMP, TimeTree(now));
    WithPairBytes(h2, c.caller.Some?, KEY_CALLER, Tagged(SEM_CALLER, caller), [0x62, 0x5F, 0x63], [0xC5], Enc(caller));
    var h3 := WithPair(h2, c.caller.Some?, KEY_CALLER, Tagged(SEM_CALLER, caller));
    var msg := Tagged(WIRE_MESSAGE, TextTree(text));
    WithPairBytes(h3, c.msg.Some?, KEY_MESSAGE, msg, [0x62, 0x5F, 0x6D], [0xCC], Enc(TextTree(text)));
    MessageHeaderIs(c, now, caller, text);
  }

  lemma MessageHeaderIs(c: Call, now: int, caller: Value, text: bytes)
    requires c.Message? && (c.now.Some? ==> c.now.value == now) && (c.caller.Some? ==> c.caller.value == caller)
    requires c.msg.Some? ==> c.msg.value == text
    ensures var h1 := WithPair([], c.id != NO_ID, KEY_SPAN, IDTree(c.id));
            var h2 := WithPair(h1, c.now.Some?, KEY_TIMESTAMP, TimeTree(now));
            var h3 := WithPair(h2, c.caller.Some?, KEY_CALLER, Tagged(SEM_CALLER, caller));
            Header(c) == WithPair(h3, c.msg.Some?, KEY_MESSAGE, Tagged(WIRE_MESSAGE, TextTree(text)))
  {
    hide TextTree, IDTree, TimeTree, Tagged, Pair;
    assert forall x: seq<Value> :: [] + x == x;
  }

  lemma FinishInBytes(c: Call)
    requires c.Finish?
    ensures EncAll(Header(c)) ==
            (if (exists j | 0 <= j < 16 :: c.id[j] != 0) then [0x62, 0x5F, 0x73] + [0xCB, 0x50] + c.id else [])
            + (if c.now.Some? then [0x62, 0x5F, 0x74] + [0xC2] + Enc(NumTree(c.now.value)) else [])
            + ([0x62, 0x5F, 0x6B] + [0xCD] + [0x61, 0x66])
            + (if c.now.Some? then [0x62, 0x5F, 0x65] + [0xC3] + Enc(NumTree(c.now.value - c.started)) else [])
  {
    hide Enc, EncAll, TextTree, NumTree, IDTree, TimeTree, KindTree, DurationTree, Tagged, Pair;
    var now := if c.now.Some? then c.now.value else 0;
    var since := now - c.started;
    KeysWritten();
    TaggedWritten(c.id, now, 0x66, [], UNDEFINED_VALUE);
    TaggedWritten(c.id, since, 0x66, [], UNDEFINED_VALUE);
    AllZeroID(c.id);
    NoBytes();
    NothingUnder([]);
    WithPairBytes([], c.id != NO_ID, KEY_SPAN, IDTree(c.id), [0x62, 0x5F, 0x73], [0xCB, 0x50], c.id);
    var h1 := WithPair([], c.id != NO_ID, KEY_SPAN, IDTree(c.id));
    WithPairBytes(h1, c.now.Some?, KEY_TIMESTAMP, TimeTree(now), [0x62, 0x5F, 0x74], [0xC2], Enc(NumTree(now)));
    var h2 := WithPair(h1, c.now.Some?, KEY_TIMESTAMP, TimeTree(now));
    WithPairBytes(h2, true, KEY_EVENT_KIND, KindTree(SPAN_FINISH), [0x62, 0x5F, 0x6B], [0xCD], [0x61, 0x66]);
    var h3 := WithPair(h2, true, KEY_EVENT_KIND, KindTree(SPAN_FINISH));
    WithPairBytes(h3, c.now.Some?, KEY_ELAPSED, DurationTree(since), [0x62, 0x5F, 0x65], [0xC3], Enc(NumTree(since)));
    assert Header(c) == WithPair(h3, c.now.Some?, KEY_ELAPSED, DurationTree(since));
  }

  /** The calls, made on a logger: what each gives the writer is its event in bytes, with the labels in force. */
  method Make(l: Logger, c: Call) returns (err: StreamReader.Err)
    requires l.Valid() && !c.SetLabels?
    modifies l`b, l`items, l.sink
    ensures l.Valid() && (err == StreamReader.NoError || old(l.sink.budget) == 0)
    ensures l.sink.writes == old(l.sink.writes) + if err != StreamReader.NoError then [] else
              [[0xBF] + EncAll(CallItems(l.fmt, c) + l.labels) + [0xFF]]
  {
    hide Enc, EncAll, Event, MessageHeader, StartHeader, FinishHeader, EventHeader, Items, Logger.Valid;
    EventWritten(l.fmt, c, l.labels);
    match c
    case Message(id, now, caller, msg, kvs) => err := l.message(id, now, caller, msg, kvs);
    case NewSpan(id, now, caller, parent, name, kvs) => err := l.newspan(id, now, caller, parent, name, kvs);
    case Finish(id, now, started, kvs) => err := l.Finish(id, now, started, kvs);
    case LogEvent(id, kvs) => err := l.LogEvent(id, kvs);
  }

  // ----- arguments -----

  /** The first item of an argument list. An id, level, kind or tag in a key's place is an item of its own; any other
      argument there that is no text leaves the key missing; an empty text stands for a key by the kind of the value. */
  lemma FirstKey(fmt: Formatter, kvs: seq<Arg>)
    requires kvs != []
    ensures Items(fmt, kvs) != []
    ensures var a, k := kvs[0], Items(fmt, kvs)[0];
      match a
      case AOther(KindID, t) => k == t
      case AOther(KindLevel, t) => k == t
      case AOther(KindEvent, t) => k == t
      case AOther(KindTag, t) => k == t
      case AText(s) => s != [] ==> k == TextTree(s)
      case _ => k == TextTree(Ascii("MISSING_KEY"))
    ensures kvs[0] == AText([]) ==>
      var k := Items(fmt, kvs)[0];
      if |kvs| == 1 then k == TextTree(Ascii("MISSING_VALUE"))
      else match kvs[1]
        case AModify(h) => k == TextTree(if h == Head(W0, 12) then [0x5F, 0x6D] else Ascii("UNSUPPORTED_AUTO_KEY"))
        case AOther(KindID, _) => k == TextTree([0x5F, 0x73])
        case AOther(KindLevel, _) => k == TextTree([0x5F, 0x6C])
        case AOther(KindEvent, _) => k == TextTree([0x5F, 0x6B])
        case AOther(KindCaller, _) => k == TextTree([0x5F, 0x63])
        case AOther(KindTag, _) => k == TextTree([0x5F, 0x54])
        case _ => k == TextTree(Ascii("UNSUPPORTED_AUTO_KEY"))
  {
    hide Enc, TextTree, ValueOf, Ascii;
    TwoLetters();
  }

  lemma TwoLetters()
    ensures KEY_SPAN == [0x5F, 0x73] && KEY_LOG_LEVEL == [0x5F, 0x6C] && KEY_EVENT_KIND == [0x5F, 0x6B]
    ensures KEY_CALLER == [0x5F, 0x63] && KEY_TAG == [0x5F, 0x54] && KEY_MESSAGE == [0x5F, 0x6D]
  {
  }

  /** What follows a key: the value at the front of the rest, and the pairs after it. An item without a key is followed
      by the next argument's. */
  lemma AfterKey(fmt: Formatter, kvs: seq<Arg>)
    requires kvs != []
    ensures var a := kvs[0];
      if a.AOther? && (a.kind == KindID || a.kind == KindLevel || a.kind == KindEvent || a.kind == KindTag) then
        EncAll(Items(fmt, kvs)) == Enc(a.tree) + EncAll(Items(fmt, kvs[1..]))
      else
        var rest := if a.AText? then kvs[1..] else kvs;
        var (v, n) := ValueOf(fmt, rest);
        Items(fmt, kvs) != []
        && EncAll(Items(fmt, kvs)) == Enc(Items(fmt, kvs)[0]) + (Enc(v) + EncAll(Items(fmt, rest[n..])))
  {
    hide Enc, EncAll, TextTree, ValueOf, Items, AutoKey;
    assert kvs[0..] == kvs;
    ItemsStep(fmt, kvs, 0);
    if SelfAppending(kvs[0]) {
      ItemFirst(kvs[0].tree, Items(fmt, kvs[1..]));
    } else {
      var from := if kvs[0].AText? then 1 else 0;
      var (v, n) := ValueOf(fmt, kvs[from..]);
      DropDrop(kvs, from, n);
      var more := Items(fmt, kvs[from + n..]);
      var k := Items(fmt, kvs)[0];
      assert Items(fmt, kvs) == [k] + ([v] + more);
      ItemFirst(k, [v] + more);
      ItemFirst(v, more);
    }
  }

  lemma ItemFirst(v: Value, vs: seq<Value>)
    ensures EncAll([v] + vs) == Enc(v) + EncAll(vs)
  {
    hide Enc;
    assert ([v] + vs)[1..] == vs;
  }

  /** The value at the front of a list in bytes, and how many arguments it takes. */
  lemma ValueWritten(fmt: Formatter, kvs: seq<Arg>)
    ensures var (v, n) := ValueOf(fmt, kvs);
      if kvs == [] then Enc(v) == [0xF7] && n == 0
      else match kvs[0]
        case AInt(i) => n == 1 && (0 <= i < 24 ==> Enc(v) == [i]) && (-24 <= i < 0 ==> Enc(v) == [0x20 - 1 - i])
        case AText(s) => n == 1 && (|s| < 24 ==> Enc(v) == [0x60 + |s|] + s)
        case ABytes(data) => n == 1 && (|data| < 24 ==> Enc(v) == [0x40 + |data|] + data)
        case AModify(h) =>
          n == 1 + ValueOf(fmt, kvs[1..]).1 && Enc(v) == HeadBytes(Semantic, h) + Enc(ValueOf(fmt, kvs[1..]).0)
        case AFormat(f) =>
          if |kvs| == 1 then n == 1 && Enc(v) == [0xF7]
          else n == 2 && (|fmt(f, kvs[1])| < 24 ==> Enc(v) == [0x60 + |fmt(f, kvs[1])|] + fmt(f, kvs[1]))
        case AOther(_, t) => n == 1 && v == t
  {
    hide Enc, HeadBytes, NumTree, TextTree, MinHead;
    FormatTables.SpecialsWritten();
    if kvs != [] {
      match kvs[0]
      case AInt(i) =>
        if 0 <= i < 24 { FormatTables.ValuesWritten(i, [], [], UNDEFINED_VALUE); }
        if -24 <= i < 0 { FormatTables.ValuesWritten(-1 - i, [], [], UNDEFINED_VALUE); }
      case AText(s) => if |s| < 24 { FormatTables.ValuesWritten(0, s, [], UNDEFINED_VALUE); }
      case ABytes(s) => if |s| < 24 { FormatTables.ValuesWritten(0, s, [], UNDEFINED_VALUE); }
      case AFormat(f) =>
        if |kvs| > 1 && |fmt(f, kvs[1])| < 24 { FormatTables.ValuesWritten(0, fmt(f, kvs[1]), [], UNDEFINED_VALUE); }
      case AModify(h) => TagWritten(h, ValueOf(fmt, kvs[1..]).0);
      case _ =>
    }
  }

  lemma TagWritten(h: Head, v: Value)
    ensures Enc(Sem(h, v)) == HeadBytes(Semantic, h) + Enc(v)
  {
  }

  /** A label: the byte 0xCA comes between key and value, unless the value starts with it. */
  lemma LabelWritten(key: Value, v: Value, rest: seq<Value>)
    requires Valid(Full, v)
    ensures EncAll(LabelledAll([key, v] + rest)) ==
            Enc(key) + ((if Enc(v)[0] == 0xCA then [] else [0xCA]) + Enc(v) + EncAll(LabelledAll(rest)))
  {
    hide Enc, Valid;
    LabelByte(Full, v);
    assert ([key, v] + rest)[2..] == rest;
    var all := [key, Labelled(v)] + LabelledAll(rest);
    assert all[1..] == [Labelled(v)] + LabelledAll(rest) && all[1..][1..] == LabelledAll(rest);
    assert [] + Enc(v) == Enc(v);
  }
}
