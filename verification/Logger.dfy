/** The logger: each call builds one event in a shared buffer and writes it whole. */
module Loggers {
  import opened Wire
  import opened Events
  import opened Labels
  import StreamReader

  // ----- events as trees -----

  /** An event: an indefinite-length map of header pairs, argument pairs and labels. */
  function Event(items: seq<Value>, labels: seq<Value>): Value {
    Open(true, items + labels)
  }

  function Tagged(sem: nat, v: Value): Value {
    Sem(Head(W0, sem), v)
  }

  /** A 16-byte span id. */
  type ID = s: bytes | |s| == 16 witness [0, 0, 0, 0, 0, 0, 0, 0, 0, 0, 0, 0, 0, 0, 0, 0]

  const NO_ID: ID := [0, 0, 0, 0, 0, 0, 0, 0, 0, 0, 0, 0, 0, 0, 0, 0]

  function IDTree(id: ID): Value { Tagged(WIRE_ID, Str(false, MinHead(16), id)) }
  function TimeTree(ns: int): Value { Tagged(SEM_TIME, NumTree(ns)) }
  function KindTree(kind: byte): Value { Tagged(WIRE_EVENT_KIND, TextTree([kind])) }
  function DurationTree(ns: int): Value { Tagged(SEM_DURATION, NumTree(ns)) }

  const SPAN_START: byte := 's' as int
  const SPAN_FINISH: byte := 'f' as int

  function Pair(key: bytes, v: Value): seq<Value> { [TextTree(key), v] }

  /** A message's header: span, time, caller and text, each if there is one. */
  function MessageHeader(id: ID, now: Option<int>, caller: Option<Value>, msg: Option<bytes>): seq<Value> {
    var h := if id != NO_ID then Pair(KEY_SPAN, IDTree(id)) else [];
    var h := if now.Some? then h + Pair(KEY_TIMESTAMP, TimeTree(now.value)) else h;
    var h := if caller.Some? then h + Pair(KEY_CALLER, Tagged(SEM_CALLER, caller.value)) else h;
    if msg.Some? then h + Pair(KEY_MESSAGE, Tagged(WIRE_MESSAGE, TextTree(msg.value))) else h
  }

  function StartHeader(id: ID, now: Option<int>, caller: Option<Value>, parent: ID, name: bytes): seq<Value> {
    var h := Pair(KEY_SPAN, IDTree(id));
    var h := if now.Some? then h + Pair(KEY_TIMESTAMP, TimeTree(now.value)) else h;
    var h := if caller.Some? then h + Pair(KEY_CALLER, Tagged(SEM_CALLER, caller.value)) else h;
    var h := h + Pair(KEY_EVENT_KIND, KindTree(SPAN_START));
    var h := if parent != NO_ID then h + Pair(KEY_PARENT, IDTree(parent)) else h;
    if name != [] then h + Pair(KEY_MESSAGE, Tagged(WIRE_MESSAGE, TextTree(name))) else h
  }

  function FinishHeader(id: ID, now: Option<int>, started: int): seq<Value> {
    var h := if id != NO_ID then Pair(KEY_SPAN, IDTree(id)) else [];
    var h := if now.Some? then h + Pair(KEY_TIMESTAMP, TimeTree(now.value)) else h;
    var h := h + Pair(KEY_EVENT_KIND, KindTree(SPAN_FINISH));
    if now.Some? then h + Pair(KEY_ELAPSED, DurationTree(now.value - started)) else h
  }

  function EventHeader(id: ID): seq<Value> {
    if id != NO_ID then Pair(KEY_SPAN, IDTree(id)) else []
  }

  // ----- the logger -----

  const OPEN: bytes := [MajorCode(Map) * 32 + BREAK]

  class Logger {
    const fmt: Formatter
    const sink: StreamReader.Sink
    var b: bytes   // the event being built
    var ls: bytes  // encoded labels

    ghost var items: seq<Value>   // what is in the event so far
    ghost var labels: seq<Value>

    ghost predicate Valid()
      reads this
    {
      ls == EncAll(labels)
    }

    ghost predicate Building()
      reads this
    {
      Valid() && b == OPEN + EncAll(items)
    }

    constructor (fmt: Formatter, sink: StreamReader.Sink)
      ensures Valid() && labels == [] && this.fmt == fmt && this.sink == sink
    {
      this.fmt, this.sink := fmt, sink;
      b, ls, items, labels := [], [], [], [];
    }

    method openEvent()
      requires Valid()
      modifies this`b, this`items
      ensures Building() && items == []
    {
      b, items := OPEN, [];
      assert b == OPEN + EncAll([]);
    }

    method pair(key: bytes, v: Value)
      requires Building()
      modifies this`b, this`items
      ensures Building() && items == old(items) + Pair(key, v)
    {
      hide Enc, EncAll, TextTree;
      Advance(OPEN, items, Pair(key, v), []);
      b := b + Enc(TextTree(key));
      b := b + Enc(v);
      items := items + Pair(key, v);
    }

    /** Arguments, labels, the closing break, and one write of the whole buffer. */
    method closeEvent(kvs: seq<Arg>) returns (err: StreamReader.Err)
      requires Building()
      modifies this`b, this`items, sink
      ensures Valid() && (err == StreamReader.NoError || old(sink.budget) == 0)
      ensures sink.writes == old(sink.writes) + if err != StreamReader.NoError then [] else
                [Enc(Event(old(items) + Items(fmt, kvs), labels))]
    {
      hide Enc, EncAll, Items;
      ghost var all := items + Items(fmt, kvs);
      b := appendKVs(fmt, b, kvs);
      b := b + ls;
      b := b + [BREAK_BYTE];
      EventBytes(items, Items(fmt, kvs), labels);
      var n;
      n, err := sink.Write(b);
    }

    method message(id: ID, now: Option<int>, caller: Option<Value>, msg: Option<bytes>, kvs: seq<Arg>)
      returns (err: StreamReader.Err)
      requires Valid()
      modifies this`b, this`items, sink
      ensures Valid() && (err == StreamReader.NoError || old(sink.budget) == 0)
      ensures sink.writes == old(sink.writes) + if err != StreamReader.NoError then [] else
                [Enc(Event(MessageHeader(id, now, caller, msg) + Items(fmt, kvs), labels))]
    {
      hide Enc, EncAll, Items, Pair, IDTree, TimeTree, TextTree, Event, Logger.Valid, Logger.Building;
      openEvent();
      if id != NO_ID {
        pair(KEY_SPAN, IDTree(id));
      }
      if now.Some? {
        pair(KEY_TIMESTAMP, TimeTree(now.value));
      }
      if caller.Some? {
        pair(KEY_CALLER, Tagged(SEM_CALLER, caller.value));
      }
      if msg.Some? {
        pair(KEY_MESSAGE, Tagged(WIRE_MESSAGE, TextTree(msg.value)));
      }
      assert items == MessageHeader(id, now, caller, msg);
      err := closeEvent(kvs);
    }

    method newspan(id: ID, now: Option<int>, caller: Option<Value>, parent: ID, name: bytes, kvs: seq<Arg>)
      returns (err: StreamReader.Err)
      requires Valid()
      modifies this`b, this`items, sink
      ensures Valid() && (err == StreamReader.NoError || old(sink.budget) == 0)
      ensures sink.writes == old(sink.writes) + if err != StreamReader.NoError then [] else
                [Enc(Event(StartHeader(id, now, caller, parent, name) + Items(fmt, kvs), labels))]
    {
      hide Enc, EncAll, Items, Pair, IDTree, TimeTree, TextTree, KindTree, Event, Logger.Valid, Logger.Building;
      openEvent();
      pair(KEY_SPAN, IDTree(id));
      assert items == Pair(KEY_SPAN, IDTree(id));
      if now.Some? {
        pair(KEY_TIMESTAMP, TimeTree(now.value));
      }
      if caller.Some? {
        pair(KEY_CALLER, Tagged(SEM_CALLER, caller.value));
      }
      pair(KEY_EVENT_KIND, KindTree(SPAN_START));
      assert items == StartHeader(id, now, caller, NO_ID, []);
      if parent != NO_ID {
        pair(KEY_PARENT, IDTree(parent));
      }
      if name != [] {
        pair(KEY_MESSAGE, Tagged(WIRE_MESSAGE, TextTree(name)));
      }
      assert items == StartHeader(id, now, caller, parent, name);
      err := closeEvent(kvs);
    }

    method Finish(id: ID, now: Option<int>, started: int, kvs: seq<Arg>) returns (err: StreamReader.Err)
      requires Valid()
      modifies this`b, this`items, sink
      ensures Valid() && (err == StreamReader.NoError || old(sink.budget) == 0)
      ensures sink.writes == old(sink.writes) + if err != StreamReader.NoError then [] else
                [Enc(Event(FinishHeader(id, now, started) + Items(fmt, kvs), labels))]
    {
      hide Enc, EncAll, Items, Pair, IDTree, TimeTree, TextTree, KindTree, DurationTree, Event, Logger.Valid,
        Logger.Building;
      openEvent();
      if id != NO_ID {
        pair(KEY_SPAN, IDTree(id));
      }
      if now.Some? {
        pair(KEY_TIMESTAMP, TimeTree(now.value));
      }
      pair(KEY_EVENT_KIND, KindTree(SPAN_FINISH));
      if now.Some? {
        pair(KEY_ELAPSED, DurationTree(now.value - started));
      }
      assert items == FinishHeader(id, now, started);
      err := closeEvent(kvs);
    }

    /** `id` is the span's, or none for the logger's own events. */
    method LogEvent(id: ID, kvs: seq<Arg>) returns (err: StreamReader.Err)
      requires Valid()
      modifies this`b, this`items, sink
      ensures Valid() && (err == StreamReader.NoError || old(sink.budget) == 0)
      ensures sink.writes == old(sink.writes) + if err != StreamReader.NoError then [] else
                [Enc(Event(EventHeader(id) + Items(fmt, kvs), labels))]
    {
      hide Enc, EncAll, Items, Pair, IDTree, Event, Logger.Valid, Logger.Building;
      openEvent();
      if id != NO_ID {
        pair(KEY_SPAN, IDTree(id));
      }
      assert items == EventHeader(id);
      err := closeEvent(kvs);
    }

    method SetLabels(kvs: seq<Arg>)
      requires Valid() && ValidAll(Full, Items(fmt, kvs)) && |Items(fmt, kvs)| % 2 == 0
      requires Missing(Items(fmt, kvs)) <= |kvs| / 2 + 1
      modifies this`ls, this`labels
      ensures Valid() && labels == LabelledAll(Items(fmt, kvs))
    {
      var out, overrun := AppendLabels(fmt, [], kvs);
      ls := out;
      labels := LabelledAll(Items(fmt, kvs));
      assert [] + EncAll(labels) == EncAll(labels);
    }
  }

  /** The pieces make one event. */
  lemma EventBytes(header: seq<Value>, items: seq<Value>, labels: seq<Value>)
    ensures OPEN + EncAll(header) + EncAll(items) + EncAll(labels) + [BREAK_BYTE] == Enc(Event(header + items, labels))
  {
    hide Enc, EncAll;
    EncAllConcat(header, items);
    EncAllConcat(header + items, labels);
    OpenBytes(header + items + labels);
    var h, i, l := EncAll(header), EncAll(items), EncAll(labels);
    assert OPEN + h + i + l == OPEN + (h + i + l);
  }

  lemma OpenBytes(items: seq<Value>)
    ensures Enc(Open(true, items)) == OPEN + EncAll(items) + [BREAK_BYTE]
  {
  }
}
