/** What the stream reader makes of events that it cannot read: specials it does not know, and maps with a key that has
    no value. */
module Recovery {
  import opened Wire
  import opened Framing
  import opened Indices
  import opened StreamReader

  // ----- specials that the stream reader does not know -----

  /** Where a tree with such a special is encoded, the reader finds a bad special, whatever follows, and no string
      strays before. */
  lemma {:induction false} ForeignIsBad(b: bytes, st: nat, v: Value)
    requires Valid(Full, v) && !Valid(Stream, v) && At(b, st, Enc(v))
    ensures Skip(Stream, b, st) == BadSpecial && !Strays(b, st, |b|)
    decreases v, 1
  {
    hide Skip, SkipItems, ReadTag, Enc, EncAll, ValidAll, HeadBytes, At, StraysItems;
    match v
    case Closed(isMap, h, items) =>
      ClosedParts(b, st, isMap, h, items);
      var i := st + |HeadBytes(ContainerMajor(isMap), h)|;
      SkipUnfold(Stream, b, st, ContainerMajor(isMap), h.arg, i);
      ForeignItems(b, i, isMap, h.arg, 0, items);
    case Open(isMap, items) =>
      OpenParts(b, st, isMap, items);
      SkipUnfold(Stream, b, st, ContainerMajor(isMap), -1, st + 1);
      ForeignItems(b, st + 1, isMap, -1, 0, items);
    case Sem(h, inner) =>
      SemParts(b, st, h, inner);
      var t := ReadTag(b, st);
      SkipUnfold(Stream, b, st, Semantic, t.sub, t.next);
      ForeignIsBad(b, t.next, inner);
    case _ => ForeignSpecial(b, st, v);
  }

  lemma ForeignSpecial(b: bytes, st: nat, v: Value)
    requires v.Simple? && v.sub in {SELF_REF, HIDDEN, NONE} && At(b, st, Enc(v))
    ensures Skip(Stream, b, st) == BadSpecial && !Strays(b, st, |b|)
  {
    assert b[st] == b[st..st + |Enc(v)|][0] == 224 + v.sub;
  }

  /** The loop over elements comes to the bad one, even if the last key has no value. */
  lemma {:induction false} ForeignItems(b: bytes, i: nat, isMap: bool, sub: int, el: nat, items: seq<Value>)
    requires ValidAll(Full, items) && !ValidAll(Stream, items) && At(b, i, EncAll(items))
    requires sub == -1 || (el <= sub && |items| == if isMap then 2 * (sub - el) else sub - el)
    ensures SkipItems(Stream, b, i, isMap, sub, el) == BadSpecial && !StraysItems(b, i, isMap, sub, el, |b|)
    decreases items, 0
  {
    hide Skip, SkipItems, Enc, EncAll, Valid, Strays, StraysItems;
    SkipStart(Full, b, i, items);
    TurnOf(b, i, isMap, sub, el);
    var n := if isMap then 2 else 1;
    if !Valid(Stream, items[0]) {
      ForeignIsBad(b, i, items[0]);
    } else {
      FoundThere(b, i, items[0]);
      var j := i + |Enc(items[0])|;
      if isMap {
        SkipStart(Full, b, j, items[1..]);
        assert items[1..][1..] == items[2..];
        if !Valid(Stream, items[1]) {
          ForeignIsBad(b, j, items[1]);
        } else {
          FoundThere(b, j, items[1]);
          ForeignItems(b, j + |Enc(items[1])|, isMap, sub, el + 1, items[2..]);
        }
      } else {
        ForeignItems(b, j, isMap, sub, el + 1, items[1..]);
      }
    }
  }

  lemma FoundThere(b: bytes, st: nat, v: Value)
    requires Valid(Stream, v) && At(b, st, Enc(v))
    ensures Skip(Stream, b, st) == End(st + |Enc(v)|) && !Strays(b, st, |b|)
  {
    hide Skip, Strays, Enc;
    SkipExact(Stream, b, st, v);
    FoundWithin(b, st);
    if Strays(b, st, |b|) {
      StraysLess(b, st, st + |Enc(v)|, |b|);
    }
  }

  /** One turn of the loop, and what strays in it. */
  lemma TurnOf(b: bytes, i: nat, isMap: bool, sub: int, el: nat)
    requires i < |b| && b[i] != BREAK_BYTE && (sub == -1 || el < sub)
    ensures var k := if isMap then Skip(Stream, b, i) else End(i);
            var v := if k.End? then Skip(Stream, b, k.end) else k;
            && SkipItems(Stream, b, i, isMap, sub, el) ==
               (if v.End? then SkipItems(Stream, b, v.end, isMap, sub, el + 1) else v)
            && (StraysItems(b, i, isMap, sub, el, |b|) <==>
                Strays(b, i, |b|) || (isMap && k.End? && Strays(b, k.end, |b|))
                || (v.End? && StraysItems(b, v.end, isMap, sub, el + 1, |b|)))
  {
    hide Skip, Strays;
    SkipTurn(Stream, b, i, isMap, sub, el);
  }

  // ----- maps with a key that has no value -----

  /** The break of such a map is taken for the value, and the loop goes on behind it. */
  lemma {:induction false} BreakTaken(b: bytes, i: nat, el: nat, items: seq<Value>) returns (el': nat)
    requires ValidAll(Stream, items) && |items| % 2 == 1
    requires At(b, i, EncAll(items)) && At(b, i + |EncAll(items)|, [BREAK_BYTE])
    ensures var e := i + |EncAll(items)| + 1;
            && e <= |b|
            && SkipItems(Stream, b, i, true, -1, el) == SkipItems(Stream, b, e, true, -1, el')
            && (StraysItems(b, i, true, -1, el, |b|) <==> StraysItems(b, e, true, -1, el', |b|))
    decreases |items|
  {
    hide Skip, SkipItems, Enc, EncAll, Valid, ValidAll, Strays, StraysItems;
    SkipStart(Stream, b, i, items);
    OddItems(items);
    FoundThere(b, i, items[0]);
    var j := i + |Enc(items[0])|;
    if |items| == 1 {
      BreakAsValue(b, j);
      PairPassed(b, i, el, j, j + 1);
      el' := el + 1;
    } else {
      SkipStart(Stream, b, j, items[1..]);
      FoundThere(b, j, items[1]);
      PairPassed(b, i, el, j, j + |Enc(items[1])|);
      el' := BreakTaken(b, j + |Enc(items[1])|, el + 1, items[2..]);
    }
  }

  lemma OddItems(items: seq<Value>)
    requires ValidAll(Stream, items) && |items| % 2 == 1
    ensures Valid(Stream, items[0]) && |EncAll(items)| == |Enc(items[0])| + |EncAll(items[1..])|
    ensures |items| == 1 ==> EncAll(items[1..]) == []
    ensures |items| > 1 ==>
              && |items| > 2 && Valid(Stream, items[1]) && ValidAll(Stream, items[1..]) && ValidAll(Stream, items[2..])
              && items[1..][0] == items[1] && items[1..][1..] == items[2..] && |items[2..]| % 2 == 1
              && |EncAll(items[1..])| == |Enc(items[1])| + |EncAll(items[2..])|
  {
    hide Enc, Valid;
    if |items| > 1 {
      assert items[1..][1..] == items[2..];
    }
  }

  /** A turn that finds a key and a value. */
  lemma PairPassed(b: bytes, i: nat, el: nat, j: nat, e: nat)
    requires i < |b| && b[i] != BREAK_BYTE
    requires Skip(Stream, b, i) == End(j) && Skip(Stream, b, j) == End(e) && !Strays(b, i, |b|) && !Strays(b, j, |b|)
    ensures e <= |b| && SkipItems(Stream, b, i, true, -1, el) == SkipItems(Stream, b, e, true, -1, el + 1)
    ensures StraysItems(b, i, true, -1, el, |b|) <==> StraysItems(b, e, true, -1, el + 1, |b|)
  {
    hide Skip, Strays, SkipItems, StraysItems;
    TurnOf(b, i, true, -1, el);
  }

  lemma BreakAsValue(b: bytes, i: nat)
    requires At(b, i, [BREAK_BYTE])
    ensures Skip(Stream, b, i) == End(i + 1) && !Strays(b, i, |b|)
  {
    ByteAt(b, i, BREAK_BYTE);
  }

  // ----- streams of events -----

  /** An event as a logger writes it: an indefinite-length map, its items well formed, though perhaps not pairs. */
  ghost predicate EventLike(e: Value) {
    e.Open? && e.isMap && ValidAll(Full, e.items)
  }

  /** Some event holds a special that the reader does not know. */
  ghost predicate ForeignEvents(events: seq<Value>) {
    events != [] && ((events[0].Open? && !ValidAll(Stream, events[0].items)) || ForeignEvents(events[1..]))
  }

  /** Where the reader stops. */
  ghost function Stopped(events: seq<Value>): Skipped {
    if ForeignEvents(events) then BadSpecial else UnexpectedEOF
  }

  /** What is found at the first event: its end if the reader can read it. Otherwise, a bad special if there is one from
      there on, and else a request for more. */
  ghost predicate SeenAt(b: bytes, i: nat, events: seq<Value>)
    requires events != []
  {
    && !Strays(b, i, |b|)
    && Skip(Stream, b, i) == if Valid(Stream, events[0]) then End(i + |Enc(events[0])|) else Stopped(events)
  }

  lemma {:induction false} EventSeen(b: bytes, i: nat, events: seq<Value>)
    requires events != [] && (forall e <- events :: EventLike(e))
    requires At(b, i, EncAll(events)) && i + |EncAll(events)| == |b|
    ensures SeenAt(b, i, events)
    decreases |events|, 0
  {
    hide Skip, SkipItems, Enc, EncAll, Valid, ValidAll, Strays, StraysItems;
    var e := events[0];
    assert EventLike(e);
    FirstOf(b, i, events);
    if Valid(Stream, e) {
      FoundThere(b, i, e);
    } else if !ValidAll(Stream, e.items) {
      ForeignEvent(b, i, e);
    } else {
      OpenParts(b, i, true, e.items);
      OddEvent(e);
      SkipUnfold(Stream, b, i, Map, -1, i + 1);
      var el := BreakTaken(b, i + 1, 0, e.items);
      StraysOpen(b, i);
      NeverEnded(b, i + |Enc(e)|, el, events[1..]);
    }
  }

  lemma ForeignEvent(b: bytes, i: nat, e: Value)
    requires EventLike(e) && !ValidAll(Stream, e.items) && At(b, i, Enc(e))
    ensures Skip(Stream, b, i) == BadSpecial && !Strays(b, i, |b|)
  {
    hide Skip, SkipItems, Enc, EncAll, Valid, ValidAll, StraysItems;
    OpenParts(b, i, true, e.items);
    SkipUnfold(Stream, b, i, Map, -1, i + 1);
    ForeignItems(b, i + 1, true, -1, 0, e.items);
    StraysOpen(b, i);
  }

  lemma StraysOpen(b: bytes, i: nat)
    requires ReadTag(b, i) == Tag(Map, -1, i + 1)
    ensures Strays(b, i, |b|) <==> StraysItems(b, i + 1, true, -1, 0, |b|)
  {
    hide StraysItems;
  }

  lemma OddEvent(e: Value)
    requires EventLike(e)
    ensures Valid(Stream, e) <==> |e.items| % 2 == 0 && ValidAll(Stream, e.items)
  {
  }

  lemma FirstOf(b: bytes, i: nat, events: seq<Value>)
    requires events != [] && At(b, i, EncAll(events)) && EventLike(events[0])
    ensures At(b, i, Enc(events[0])) && At(b, i + |Enc(events[0])|, EncAll(events[1..]))
    ensures |EncAll(events)| == |Enc(events[0])| + |EncAll(events[1..])|
    ensures i < |b| && b[i] == MajorCode(Map) * 32 + BREAK
  {
    hide EncAll;
    assert EncAll(events) == Enc(events[0]) + EncAll(events[1..]) by { EncAllFront(events); }
    AtConcat(b, i, Enc(events[0]), EncAll(events[1..]));
    assert b[i] == b[i..i + |Enc(events[0])|][0] == Enc(events[0])[0];
  }

  lemma EncAllFront(events: seq<Value>)
    requires events != []
    ensures EncAll(events) == Enc(events[0]) + EncAll(events[1..])
  {
  }

  /** A map that takes whole events for its keys and values never ends. */
  lemma {:induction false} NeverEnded(b: bytes, i: nat, el: nat, events: seq<Value>)
    requires forall e <- events :: EventLike(e)
    requires At(b, i, EncAll(events)) && i + |EncAll(events)| == |b|
    ensures SkipItems(Stream, b, i, true, -1, el) == Stopped(events)
    ensures !StraysItems(b, i, true, -1, el, |b|)
    decreases |events|, 1
  {
    hide Skip, Enc, Valid, ValidAll, Strays, EventLike, Stopped;
    NothingThere(b, |b|, []);
    if events == [] {
      assert i == |b|;
    } else {
      hide SkipItems, StraysItems, EncAll, SeenAt;
      assert EventLike(events[0]);
      FirstOf(b, i, events);
      TurnOf(b, i, true, -1, el);
      EventSeen(b, i, events);
      Seen(b, i, events);
      var j, more := i + |Enc(events[0])|, events[1..];
      if Valid(Stream, events[0]) {
        ReadablePassed(events);
        if more == [] {
          NothingThere(b, j, more);
        } else {
          assert EventLike(more[0]);
          FirstOf(b, j, more);
          EventSeen(b, j, more);
          Seen(b, j, more);
          if Valid(Stream, more[0]) {
            ReadablePassed(more);
            NeverEnded(b, j + |Enc(more[0])|, el + 1, more[1..]);
          }
        }
      }
    }
  }

  lemma Seen(b: bytes, i: nat, events: seq<Value>)
    requires events != [] && SeenAt(b, i, events)
    ensures !Strays(b, i, |b|) && Stopped(events) in {BadSpecial, UnexpectedEOF}
    ensures Skip(Stream, b, i) == if Valid(Stream, events[0]) then End(i + |Enc(events[0])|) else Stopped(events)
  {
    hide Skip, Strays, Valid, ValidAll, Enc;
  }

  lemma ReadablePassed(events: seq<Value>)
    requires events != [] && EventLike(events[0]) && Valid(Stream, events[0])
    ensures Stopped(events) == Stopped(events[1..])
  {
    OddEvent(events[0]);
  }

  lemma NothingThere(b: bytes, i: nat, events: seq<Value>)
    requires events == [] && i + |EncAll(events)| == |b|
    ensures Skip(Stream, b, i) == UnexpectedEOF == Stopped(events) && !Strays(b, i, |b|)
  {
  }

  /** How many events there are before the first that the reader cannot read. */
  ghost function Clear(events: seq<Value>): (k: nat)
    ensures k <= |events|
  {
    if events == [] || !Valid(Stream, events[0]) then 0 else 1 + Clear(events[1..])
  }

  /** The reader cuts off exactly the events before the first it cannot read. There it stops: at a bad special if there
      is one from there on, and else asking for more, as if every later event were part of that one. */
  lemma {:induction false} FramesStop(events: seq<Value>, base: nat)
    requires forall e <- events :: EventLike(e)
    ensures var s, k := EncAll(events), Clear(events);
            && Frames(s) == Encodings(events[..k]) && Tail(s) == EncAll(events[k..])
            && (base + |s| <= MAX_INT ==> Steady(s, base))
            && Skip(Stream, Tail(s), 0) == Stopped(events[k..])
            && (k == |events| ==> Tail(s) == [])
    decreases |events|
  {
    hide Skip, Enc, Valid, ValidAll, Strays, EventLike, EncAll, SeenAt, Stopped;
    var s, k := EncAll(events), Clear(events);
    if events == [] {
      NoEvents(base);
      assert events[..k] == [] && events[k..] == [];
    } else {
      assert s[0..] == s && EventLike(events[0]);
      EventSeen(s, 0, events);
      FirstSeen(s, base, events);
      if Valid(Stream, events[0]) {
        var e := Enc(events[0]);
        EncAllFront(events);
        assert s[..|e|] == e && s[|e|..] == EncAll(events[1..]);
        FramesStop(events[1..], base + |e|);
        assert events[..k] == [events[0]] + events[1..][..k - 1] && events[k..] == events[1..][k - 1..];
        assert Encodings(events[..k]) == [e] + Encodings(events[1..][..k - 1]);
      } else {
        assert events[..k] == [] && events[k..] == events;
      }
    }
  }

  lemma NoEvents(base: nat)
    ensures EncAll([]) == [] && Frames([]) == [] && Tail([]) == [] && Steady([], base)
    ensures Skip(Stream, [], 0) == UnexpectedEOF == Stopped([])
  {
  }

  lemma FirstSeen(s: bytes, base: nat, events: seq<Value>)
    requires events != [] && SeenAt(s, 0, events)
    ensures base + |s| <= MAX_INT ==> !Strays(s, 0, MAX_INT - base)
    ensures Skip(Stream, s, 0) == if Valid(Stream, events[0]) then End(|Enc(events[0])|) else Stopped(events)
    ensures Stopped(events) in {BadSpecial, UnexpectedEOF}
  {
    hide Skip, Strays, Valid, ValidAll, Enc;
    if base + |s| <= MAX_INT && Strays(s, 0, MAX_INT - base) {
      StraysLess(s, 0, |s|, MAX_INT - base);
    }
  }
}
