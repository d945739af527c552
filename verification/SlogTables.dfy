/** What the slog handler writes, in bytes: the record under its keys, attributes and groups. */
module SlogTables {
  import opened Wire
  import opened Events
  import opened Loggers
  import opened EventTables
  import opened Slog
  import FormatTables

  /** The record: `_t` the time, `_c` the caller, `_m` the message, and `_l` a quarter of the level, without its
      fraction, unless the level is zero. Any other key is among the attributes and labels. */
  lemma RecordUnder(r: Record, rest: seq<Value>, k: bytes, quarter: int)
    requires if r.level >= 0 then 4 * quarter <= r.level < 4 * quarter + 4 else 4 * quarter - 4 < r.level <= 4 * quarter
    ensures Under(RecordHeader(r) + rest, k) ==
            if k == [0x62, 0x5F, 0x74] && r.time.Some? then Some([0xC2] + Enc(NumTree(r.time.value)))
            else if k == [0x62, 0x5F, 0x63] && r.caller.Some? then Some([0xC5] + Enc(r.caller.value))
            else if k == [0x62, 0x5F, 0x6D] then Some([0xCC] + Enc(TextTree(r.message)))
            else if k == [0x62, 0x5F, 0x6C] && r.level != 0 then Some([0xCE] + Enc(NumTree(quarter)))
            else Under(rest, k)
  {
    hide Enc, Under, TextTree, NumTree, TimeTree, Tagged, Pair;
    var now := if r.time.Some? then r.time.value else 0;
    var caller := if r.caller.Some? then r.caller.value else UNDEFINED_VALUE;
    KeysWritten();
    TaggedWritten(NO_ID, now, 0, r.message, caller);
    OneTag(WIRE_LOG_LEVEL, NumTree(quarter));
    NothingUnder(k);
    WithPairUnder([], r.time.Some?, KEY_TIMESTAMP, TimeTree(now), k);
    var h1 := WithPair([], r.time.Some?, KEY_TIMESTAMP, TimeTree(now));
    WithPairUnder(h1, r.caller.Some?, KEY_CALLER, Tagged(SEM_CALLER, caller), k);
    var h2 := WithPair(h1, r.caller.Some?, KEY_CALLER, Tagged(SEM_CALLER, caller));
    WithPairUnder(h2, true, KEY_MESSAGE, Tagged(WIRE_MESSAGE, TextTree(r.message)), k);
    var h3 := WithPair(h2, true, KEY_MESSAGE, Tagged(WIRE_MESSAGE, TextTree(r.message)));
    WithPairUnder(h3, r.level != 0, KEY_LOG_LEVEL, Tagged(WIRE_LOG_LEVEL, NumTree(quarter)), k);
    var h := WithPair(h3, r.level != 0, KEY_LOG_LEVEL, Tagged(WIRE_LOG_LEVEL, NumTree(quarter)));
    assert Truncated(r.level, 4) == quarter;
    assert RecordHeader(r) == h;
    UnderConcat(h, rest, k);
  }

  lemma RecordInBytes(r: Record, quarter: int)
    requires if r.level >= 0 then 4 * quarter <= r.level < 4 * quarter + 4 else 4 * quarter - 4 < r.level <= 4 * quarter
    ensures EncAll(RecordHeader(r)) ==
            (if r.time.Some? then [0x62, 0x5F, 0x74] + [0xC2] + Enc(NumTree(r.time.value)) else [])
            + (if r.caller.Some? then [0x62, 0x5F, 0x63] + [0xC5] + Enc(r.caller.value) else [])
            + ([0x62, 0x5F, 0x6D] + [0xCC] + Enc(TextTree(r.message)))
            + (if r.level != 0 then [0x62, 0x5F, 0x6C] + [0xCE] + Enc(NumTree(quarter)) else [])
  {
    hide Enc, EncAll, TextTree, NumTree, TimeTree, Tagged, Pair;
    var now := if r.time.Some? then r.time.value else 0;
    var caller := if r.caller.Some? then r.caller.value else UNDEFINED_VALUE;
    KeysWritten();
    TaggedWritten(NO_ID, now, 0, r.message, caller);
    OneTag(WIRE_LOG_LEVEL, NumTree(quarter));
    NoBytes();
    NothingUnder([]);
    WithPairBytes([], r.time.Some?, KEY_TIMESTAMP, TimeTree(now), [0x62, 0x5F, 0x74], [0xC2], Enc(NumTree(now)));
    var h1 := WithPair([], r.time.Some?, KEY_TIMESTAMP, TimeTree(now));
    WithPairBytes(h1, r.caller.Some?, KEY_CALLER, Tagged(SEM_CALLER, caller), [0x62, 0x5F, 0x63], [0xC5], Enc(caller));
    var h2 := WithPair(h1, r.caller.Some?, KEY_CALLER, Tagged(SEM_CALLER, caller));
    var msg, level := Tagged(WIRE_MESSAGE, TextTree(r.message)), Tagged(WIRE_LOG_LEVEL, NumTree(quarter));
    WithPairBytes(h2, true, KEY_MESSAGE, msg, [0x62, 0x5F, 0x6D], [0xCC], Enc(TextTree(r.message)));
    var h3 := WithPair(h2, true, KEY_MESSAGE, msg);
    WithPairBytes(h3, r.level != 0, KEY_LOG_LEVEL, level, [0x62, 0x5F, 0x6C], [0xCE], Enc(NumTree(quarter)));
    assert Truncated(r.level, 4) == quarter;
    assert RecordHeader(r) == WithPair(h3, r.level != 0, KEY_LOG_LEVEL, level);
  }

  /** An attribute in bytes. Without a key it is left out, as an empty group is; the members of a group without a key
      stand for themselves; a group with one is a map that announces its members. */
  lemma AttrWritten(a: Attr)
    ensures var e := EncAll(AttrItems(a));
      match a
      case Plain(key, tree) => e == if key == [] then [] else Enc(TextTree(key)) + Enc(tree)
      case Group(key, members) =>
        if members == [] then e == []
        else if key == [] then e == EncAll(AttrsItems(members))
        else |members| < 24 ==> e == Enc(TextTree(key)) + ([0xA0 + |members|] + EncAll(AttrsItems(members)))
  {
    hide Enc, EncAll, TextTree, MinHead, AttrsItems;
    Nothing();
    match a
    case Plain(key, tree) => EncPair(TextTree(key), tree);
    case Group(key, members) =>
      if |members| < 24 {
        FormatTables.ValuesWritten(|members|, [], AttrsItems(members), UNDEFINED_VALUE);
      }
      EncPair(TextTree(key), Closed(true, MinHead(|members|), AttrsItems(members)));
  }

  lemma Nothing()
    ensures EncAll([]) == []
  {
  }

  /** Attributes are written one after the other, in their order. */
  lemma {:induction false} AttrsInOrder(xs: seq<Attr>, ys: seq<Attr>)
    ensures AttrsItems(xs + ys) == AttrsItems(xs) + AttrsItems(ys)
    decreases |xs|
  {
    hide AttrItems;
    if xs == [] {
      assert xs + ys == ys;
    } else {
      assert (xs + ys)[1..] == xs[1..] + ys;
      AttrsInOrder(xs[1..], ys);
    }
  }

  /** What comes after attributes follows them; what comes after a group is inside it, in a map with a break. */
  lemma DerivedWritten(op: Op, ops: seq<Op>, attrs: seq<Attr>)
    ensures var inside := EncAll(Tree(ops, attrs));
            EncAll(Tree([op] + ops, attrs)) ==
            if op.WithAttrs? then EncAll(AttrsItems(op.attrs)) + inside
            else if op.name == [] then inside
            else Enc(TextTree(op.name)) + ([0xBF] + inside + [0xFF])
    ensures EncAll(Tree([], attrs)) == EncAll(AttrsItems(attrs))
  {
    hide Enc, EncAll, TextTree, AttrsItems;
    assert ([op] + ops)[1..] == ops;
    if op.WithAttrs? {
      EncAllConcat(AttrsItems(op.attrs), Tree(ops, attrs));
    } else {
      FormatTables.ValuesWritten(0, [], Tree(ops, attrs), UNDEFINED_VALUE);
      EncPair(TextTree(op.name), Open(true, Tree(ops, attrs)));
    }
  }
}
