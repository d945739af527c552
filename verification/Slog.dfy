/** The slog handler: attributes and groups nested in one event. */
module Slog {
  import opened Wire
  import opened Events
  import opened Loggers
  import opened Calls
  import opened Slices
  import StreamReader

  /** An attribute: a value with the tree it is encoded as, or a group. A value that only resolves to a group is a
      plain one, encoded as the list it resolves to. */
  datatype Attr = Plain(key: bytes, tree: Value) | Group(key: bytes, members: seq<Attr>)

  // ----- the items an attribute stands for -----

  /** Attributes without a key and empty groups are left out; a group without a key is not nested. */
  function AttrItems(a: Attr): seq<Value>
    decreases a, 1
  {
    match a
    case Plain(key, tree) => if key == [] then [] else Pair(key, tree)
    case Group(key, members) =>
      if members == [] then []
      else if key == [] then AttrsItems(members)
      else Pair(key, Closed(true, MinHead(|members|), AttrsItems(members)))
  }

  function AttrsItems(attrs: seq<Attr>): seq<Value>
    decreases attrs, 0
  {
    if attrs == [] then [] else AttrItems(attrs[0]) + AttrsItems(attrs[1..])
  }

  /** A named group announces one pair for each member. */
  predicate Balanced(a: Attr)
    decreases a, 1
  {
    a.Group? && a.members != [] ==>
      BalancedAll(a.members) && (a.key != [] ==> |AttrsItems(a.members)| == 2 * |a.members|)
  }

  predicate BalancedAll(attrs: seq<Attr>)
    decreases attrs, 0
  {
    attrs == [] || (Balanced(attrs[0]) && BalancedAll(attrs[1..]))
  }

  /** Keys have lengths that fit, and values are encoded as values. */
  ghost predicate Encodable(a: Attr)
    decreases a, 1
  {
    |a.key| <= MAX_INT &&
    match a
    case Plain(_, tree) => Valid(Full, tree)
    case Group(_, members) => |members| <= MAX_INT && EncodableAll(members)
  }

  ghost predicate EncodableAll(attrs: seq<Attr>)
    decreases attrs, 0
  {
    attrs == [] || (Encodable(attrs[0]) && EncodableAll(attrs[1..]))
  }

  lemma {:induction false} ItemsEven(a: Attr)
    ensures |AttrItems(a)| % 2 == 0
    decreases a, 1
  {
    if a.Group? {
      ItemsAllEven(a.members);
    }
  }

  lemma {:induction false} ItemsAllEven(attrs: seq<Attr>)
    ensures |AttrsItems(attrs)| % 2 == 0
    decreases attrs, 0
  {
    if attrs != [] {
      ItemsEven(attrs[0]);
      ItemsAllEven(attrs[1..]);
    }
  }

  /** The items are well-formed exactly when every named group holds as many pairs as it has members. */
  lemma {:induction false} ItemsValidIffBalanced(a: Attr)
    requires Encodable(a)
    ensures ValidAll(Full, AttrItems(a)) <==> Balanced(a)
    decreases a, 1
  {
    hide Valid;
    TextValid(Full, a.key);
    match a
    case Plain(key, tree) => ValidPair(Full, TextTree(key), tree);
    case Group(key, members) =>
      ItemsAllValidIffBalanced(members);
      ValidPair(Full, TextTree(key), Closed(true, MinHead(|members|), AttrsItems(members)));
      ValidMap(|members|, AttrsItems(members));
  }

  lemma {:induction false} ItemsAllValidIffBalanced(attrs: seq<Attr>)
    requires EncodableAll(attrs)
    ensures ValidAll(Full, AttrsItems(attrs)) <==> BalancedAll(attrs)
    decreases attrs, 0
  {
    if attrs != [] {
      ItemsValidIffBalanced(attrs[0]);
      ItemsAllValidIffBalanced(attrs[1..]);
      ValidAllConcat(Full, AttrItems(attrs[0]), AttrsItems(attrs[1..]));
    }
  }

  lemma ValidMap(n: nat, items: seq<Value>)
    requires n <= MAX_INT
    ensures Valid(Full, Closed(true, MinHead(n), items)) <==> |items| == 2 * n && ValidAll(Full, items)
  {
    MinHeadValid(n);
  }

  /** What a wrong count does: with a member left out, the pair after the group is read as part of it. */
  lemma MiscountedGroup(g: bytes, k: bytes, x: Value, y: Value)
    requires k != [] && g != []
    ensures EncAll(AttrsItems([Group(g, [Plain([], x)]), Plain(k, y)]))
            == EncAll(Pair(g, Closed(true, MinHead(1), Pair(k, y))))
  {
    hide Enc, TextTree;
    var p, q := Group(g, [Plain([], x)]), Plain(k, y);
    assert [p, q][1..] == [q] && [q][1..] == [] && [Plain([], x)][1..] == [];
    assert AttrsItems([Plain([], x)]) == [];
    assert AttrsItems([q]) == Pair(k, y);
    assert AttrsItems([p, q]) == Pair(g, Closed(true, MinHead(1), [])) + Pair(k, y);
    EncAllConcat(Pair(g, Closed(true, MinHead(1), [])), Pair(k, y));
    EncPair(TextTree(g), Closed(true, MinHead(1), []));
    EncPair(TextTree(g), Closed(true, MinHead(1), Pair(k, y)));
    EmptyMapHead(Pair(k, y));
    var t, h, e := Enc(TextTree(g)), HeadBytes(Map, MinHead(1)), EncAll(Pair(k, y));
    assert t + h + e == t + (h + e);
  }

  lemma EmptyMapHead(items: seq<Value>)
    ensures Enc(Closed(true, MinHead(1), items)) == HeadBytes(Map, MinHead(1)) + EncAll(items)
    ensures Enc(Closed(true, MinHead(1), [])) == HeadBytes(Map, MinHead(1))
  {
    assert EncAll([]) == [];
  }

  // ----- handlers as trees -----

  /** What a handler was derived by. */
  datatype Op = WithAttrs(attrs: seq<Attr>) | WithGroup(name: bytes)

  /** The nesting: what comes after a group is inside it. */
  function Tree(ops: seq<Op>, attrs: seq<Attr>): seq<Value> {
    if ops == [] then AttrsItems(attrs)
    else match ops[0]
      case WithAttrs(more) => AttrsItems(more) + Tree(ops[1..], attrs)
      case WithGroup(name) =>
        if name == [] then Tree(ops[1..], attrs) else Pair(name, Open(true, Tree(ops[1..], attrs)))
  }

  function Depth(ops: seq<Op>): nat {
    if ops == [] then 0
    else Depth(ops[..|ops| - 1]) + if ops[|ops| - 1].WithGroup? && ops[|ops| - 1].name != [] then 1 else 0
  }

  function OpBytes(op: Op): bytes {
    match op
    case WithAttrs(attrs) => EncAll(AttrsItems(attrs))
    case WithGroup(name) => if name == [] then [] else Enc(TextTree(name)) + OPEN
  }

  function Prefix(ops: seq<Op>): bytes {
    if ops == [] then [] else Prefix(ops[..|ops| - 1]) + OpBytes(ops[|ops| - 1])
  }

  function Breaks(n: nat): bytes {
    if n == 0 then [] else Breaks(n - 1) + [BREAK_BYTE]
  }

  lemma {:induction false} PrefixFront(op: Op, ops: seq<Op>)
    ensures Prefix([op] + ops) == OpBytes(op) + Prefix(ops)
    ensures Depth([op] + ops) == Depth([op]) + Depth(ops)
    decreases |ops|
  {
    hide OpBytes;
    var all := [op] + ops;
    if ops == [] {
      assert all == [op] && [op][..0] == [];
      assert Prefix([op]) == Prefix([]) + OpBytes(op);
    } else {
      assert all[..|all| - 1] == [op] + ops[..|ops| - 1];
      PrefixFront(op, ops[..|ops| - 1]);
      var last := OpBytes(ops[|ops| - 1]);
      assert OpBytes(op) + Prefix(ops[..|ops| - 1]) + last == OpBytes(op) + (Prefix(ops[..|ops| - 1]) + last);
    }
  }

  /** A prefix leaves exactly `depth` maps open: attributes and that many breaks make the nested items. */
  lemma {:induction false} PrefixIsOpen(ops: seq<Op>, attrs: seq<Attr>)
    ensures Prefix(ops) + EncAll(AttrsItems(attrs)) + Breaks(Depth(ops)) == EncAll(Tree(ops, attrs))
    decreases |ops|
  {
    hide Enc, EncAll, AttrsItems, OpBytes, Tree;
    var x := EncAll(AttrsItems(attrs));
    if ops == [] {
      EmptyPrefix(attrs);
      assert [] + x + [] == x;
    } else {
      var op, rest := ops[0], ops[1..];
      assert ops == [op] + rest;
      PrefixFront(op, rest);
      PrefixIsOpen(rest, attrs);
      DepthOne(op);
      var one: bytes := if Depth([op]) == 1 then [BREAK_BYTE] else [];
      assert Breaks(Depth(ops)) == Breaks(Depth(rest)) + one;
      Around(OpBytes(op), Prefix(rest), x, Breaks(Depth(rest)), one);
      OneMore(ops, attrs);
    }
  }

  lemma EmptyPrefix(attrs: seq<Attr>)
    ensures Tree([], attrs) == AttrsItems(attrs)
  {
  }

  /** The outermost step, around what is inside. */
  lemma OneMore(ops: seq<Op>, attrs: seq<Attr>)
    requires ops != []
    ensures OpBytes(ops[0]) + EncAll(Tree(ops[1..], attrs)) + (if Depth([ops[0]]) == 1 then [BREAK_BYTE] else [])
            == EncAll(Tree(ops, attrs))
  {
    hide Enc, EncAll, AttrsItems, TextTree;
    var inner := Tree(ops[1..], attrs);
    DepthOne(ops[0]);
    match ops[0]
    case WithAttrs(more) =>
      EncAllConcat(AttrsItems(more), inner);
      assert EncAll(AttrsItems(more)) + EncAll(inner) + [] == EncAll(AttrsItems(more)) + EncAll(inner);
    case WithGroup(name) =>
      if name != [] {
        EncPair(TextTree(name), Open(true, inner));
        OpenBytes(inner);
        Assoc4(Enc(TextTree(name)), OPEN, EncAll(inner), [BREAK_BYTE]);
      } else {
        assert [] + EncAll(inner) + [] == EncAll(inner);
      }
  }

  lemma DepthOne(op: Op)
    ensures Depth([op]) == if op.WithGroup? && op.name != [] then 1 else 0
  {
    assert [op][..0] == [];
  }

  lemma Around(a: bytes, b: bytes, c: bytes, d: bytes, e: bytes)
    ensures a + b + c + (d + e) == a + (b + c + d) + e
  {
  }

  // ----- the handler -----

  datatype Record = Record(time: Option<int>, caller: Option<Value>, message: bytes, level: int, attrs: seq<Attr>)

  /** Division that drops the fraction. */
  function Truncated(n: int, d: nat): int
    requires d > 0
  {
    if n >= 0 then n / d else -((-n) / d)
  }

  function RecordHeader(r: Record): seq<Value> {
    var h := if r.time.Some? then Pair(KEY_TIMESTAMP, TimeTree(r.time.value)) else [];
    var h := if r.caller.Some? then h + Pair(KEY_CALLER, Tagged(SEM_CALLER, r.caller.value)) else h;
    var h := h + Pair(KEY_MESSAGE, Tagged(WIRE_MESSAGE, TextTree(r.message)));
    if r.level != 0 then h + Pair(KEY_LOG_LEVEL, Tagged(WIRE_LOG_LEVEL, NumTree(Truncated(r.level, 4)))) else h
  }

  class Handler {
    const logger: Logger
    var b: Slice<byte>       // scratch
    const prefix: Slice<byte>
    const depth: nat

    ghost const ops: seq<Op>

    ghost predicate Valid()
      reads this, prefix.arr
    {
      && b.Valid() && prefix.Valid() && b.arr != prefix.arr
      && prefix.Elems() == Prefix(ops) && depth == Depth(ops)
    }

    constructor (logger: Logger)
      ensures Valid() && ops == [] && this.logger == logger && fresh(b.arr) && fresh(prefix.arr)
    {
      var none, scratch := new byte[0], new byte[0];
      this.logger, b, prefix, depth, ops := logger, Slice(scratch, 0), Slice(none, 0), 0, [];
    }

    constructor Derived(logger: Logger, prefix: Slice<byte>, depth: nat, ghost ops: seq<Op>)
      requires prefix.Valid() && prefix.Elems() == Prefix(ops) && depth == Depth(ops)
      ensures Valid() && this.ops == ops && this.logger == logger && this.prefix == prefix && fresh(b.arr)
    {
      var scratch := new byte[0];
      this.logger, b, this.prefix, this.depth, this.ops := logger, Slice(scratch, 0), prefix, depth, ops;
    }

    /** Appends to the scratch slice. */
    method push(x: bytes)
      requires b.Valid()
      modifies this`b, b.arr
      ensures b.Valid() && (b.arr == old(b.arr) || fresh(b.arr))
      ensures b.Elems() == old(b.Elems()) + x
    {
      b := Append(b, x, 0);
    }

    method attr(a: Attr)
      requires b.Valid()
      modifies this`b, b.arr
      ensures b.Valid() && (b.arr == old(b.arr) || fresh(b.arr))
      ensures b.Elems() == old(b.Elems()) + EncAll(AttrItems(a))
      decreases a, 1
    {
      hide Enc, EncAll, TextTree, HeadBytes, AttrsItems;
      ghost var was := b.Elems();
      EmptyItems(was);
      if a.Plain? {
        if a.key == [] {
          return;
        }
        EncPair(TextTree(a.key), a.tree);
        push(Enc(TextTree(a.key)));
        push(Enc(a.tree));
        Assoc(was, Enc(TextTree(a.key)), Enc(a.tree));
        return;
      }
      if a.members == [] {
        return;
      }
      if a.key != [] {
        push(Enc(TextTree(a.key)));
        push(HeadBytes(Map, MinHead(|a.members|)));
        NamedGroup(was, a.key, |a.members|, AttrsItems(a.members));
      }
      attrs(a.members);
    }

    method attrs(all: seq<Attr>)
      requires b.Valid()
      modifies this`b, b.arr
      ensures b.Valid() && (b.arr == old(b.arr) || fresh(b.arr))
      ensures b.Elems() == old(b.Elems()) + EncAll(AttrsItems(all))
      decreases all, 0
    {
      hide Enc, EncAll, AttrItems, AttrsItems;
      ghost var rest, text := all, b.Elems() + EncAll(AttrsItems(all));
      for k := 0 to |all|
        invariant rest == all[k..]
        invariant b.Valid() && (b.arr == old(b.arr) || fresh(b.arr))
        invariant b.Elems() + EncAll(AttrsItems(rest)) == text
      {
        FirstAttr(b.Elems(), rest);
        attr(all[k]);
        rest := rest[1..];
      }
      NoAttrs(b.Elems(), rest);
    }

    /** A record becomes one event: its header, the nested items, and the labels at the outer level. */
    method Handle(r: Record) returns (err: StreamReader.Err)
      requires Valid() && logger.Valid()
      modifies this`b, b.arr, logger.sink
      ensures Valid() && (b.arr == old(b.arr) || fresh(b.arr))
      ensures err == StreamReader.NoError || old(logger.sink.budget) == 0
      ensures err == StreamReader.NoError ==> logger.sink.budget + 1 == old(logger.sink.budget)
      ensures logger.sink.writes == old(logger.sink.writes) + if err != StreamReader.NoError then [] else
                [Enc(Event(RecordHeader(r) + Tree(ops, r.attrs), logger.labels))]
    {
      hide Enc, EncAll, Prefix, Depth, Tree, AttrsItems, RecordHeader, Event, Breaks;
      open(r);
      close(logger.ls);
      PrefixIsOpen(ops, r.attrs);
      EventBytes(RecordHeader(r), Tree(ops, r.attrs), logger.labels);
      Inside(OPEN + EncAll(RecordHeader(r)), Prefix(ops), EncAll(AttrsItems(r.attrs)), Breaks(depth));
      var n;
      n, err := logger.sink.Write(b.arr[..b.len]);
    }

    /** The event up to its attributes, in a buffer that starts over. */
    method open(r: Record)
      requires Valid()
      modifies this`b, b.arr
      ensures Valid() && (b.arr == old(b.arr) || fresh(b.arr))
      ensures b.Elems() == OPEN + EncAll(RecordHeader(r)) + Prefix(ops) + EncAll(AttrsItems(r.attrs))
    {
      hide Enc, EncAll, Prefix, Depth, AttrsItems, RecordHeader;
      b := Slice(b.arr, 0);
      push(OPEN);
      assert b.Elems() == OPEN;
      header(r);
      push(prefix.arr[..prefix.len]);
      attrs(r.attrs);
    }

    /** Closes the groups, then appends the labels and closes the event. */
    method close(ls: bytes)
      requires Valid()
      modifies this`b, b.arr
      ensures Valid() && (b.arr == old(b.arr) || fresh(b.arr))
      ensures b.Elems() == old(b.Elems()) + Breaks(depth) + ls + [BREAK_BYTE]
    {
      hide Prefix, Depth;
      ghost var front := b.Elems();
      for k := 0 to depth
        invariant b.Valid() && (b.arr == old(b.arr) || fresh(b.arr)) && prefix.Elems() == old(prefix.Elems())
        invariant b.Elems() == front + Breaks(k)
      {
        push([BREAK_BYTE]);
      }
      push(ls);
      push([BREAK_BYTE]);
    }

    method header(r: Record)
      requires b.Valid()
      modifies this`b, b.arr
      ensures b.Valid() && (b.arr == old(b.arr) || fresh(b.arr))
      ensures b.Elems() == old(b.Elems()) + EncAll(RecordHeader(r))
    {
      hide Enc, EncAll, TextTree, TimeTree, Tagged;
      ghost var start := b.Elems();
      EmptyItems(start);
      ghost var h: seq<Value> := [];
      if r.time.Some? {
        h := pair(start, h, KEY_TIMESTAMP, TimeTree(r.time.value));
      }
      if r.caller.Some? {
        h := pair(start, h, KEY_CALLER, Tagged(SEM_CALLER, r.caller.value));
      }
      h := pair(start, h, KEY_MESSAGE, Tagged(WIRE_MESSAGE, TextTree(r.message)));
      if r.level != 0 {
        h := pair(start, h, KEY_LOG_LEVEL, Tagged(WIRE_LOG_LEVEL, NumTree(Truncated(r.level, 4))));
      }
      assert h == RecordHeader(r);
    }

    method pair(ghost start: bytes, ghost h: seq<Value>, key: bytes, v: Value) returns (ghost h': seq<Value>)
      requires b.Valid() && b.Elems() == start + EncAll(h)
      modifies this`b, b.arr
      ensures b.Valid() && (b.arr == old(b.arr) || fresh(b.arr))
      ensures h' == h + Pair(key, v) && b.Elems() == start + EncAll(h')
    {
      hide Enc, EncAll, TextTree;
      Advance(start, h, Pair(key, v), []);
      push(Enc(TextTree(key)));
      push(Enc(v));
      h' := h + Pair(key, v);
    }

    /** The child has the attributes after its parent's, in a prefix of its own; the parent stays as it is. */
    method WithAttributes(all: seq<Attr>) returns (child: Handler)
      requires Valid()
      modifies this`b
      ensures Valid() && b == old(b) && child.Valid() && child.logger == logger
      ensures child.ops == if all == [] then ops else ops + [WithAttrs(all)]
      ensures child == this || (fresh(child) && fresh(child.prefix.arr) && fresh(child.b.arr))
    {
      hide Enc, EncAll, AttrsItems;
      if all == [] {
        return this;
      }
      var had := b;
      b := Copy(prefix, 0);
      attrs(all);
      var p := b;
      b := had;
      OneMoreOp(ops, WithAttrs(all));
      child := new Handler.Derived(logger, p, depth, ops + [WithAttrs(all)]);
    }

    method WithinGroup(name: bytes) returns (child: Handler)
      requires Valid()
      ensures child.Valid() && child.logger == logger
      ensures child.ops == if name == [] then ops else ops + [WithGroup(name)]
      ensures child == this || (fresh(child) && fresh(child.prefix.arr) && fresh(child.b.arr))
    {
      hide Enc, TextTree;
      if name == [] {
        return this;
      }
      var p := Copy(prefix, 0);
      p := Append(p, Enc(TextTree(name)), 0);
      p := Append(p, OPEN, 0);
      OneMoreOp(ops, WithGroup(name));
      Assoc(Prefix(ops), Enc(TextTree(name)), OPEN);
      child := new Handler.Derived(logger, p, depth + 1, ops + [WithGroup(name)]);
    }
  }

  lemma OneMoreOp(ops: seq<Op>, op: Op)
    ensures Prefix(ops + [op]) == Prefix(ops) + OpBytes(op)
    ensures Depth(ops + [op]) == Depth(ops) + if op.WithGroup? && op.name != [] then 1 else 0
  {
    assert (ops + [op])[..|ops|] == ops;
  }

  lemma FirstAttr(b: bytes, attrs: seq<Attr>)
    requires attrs != []
    ensures b + EncAll(AttrsItems(attrs)) == b + EncAll(AttrItems(attrs[0])) + EncAll(AttrsItems(attrs[1..]))
  {
    hide Enc, EncAll, AttrItems;
    EncAllConcat(AttrItems(attrs[0]), AttrsItems(attrs[1..]));
  }

  lemma NoAttrs(b: bytes, attrs: seq<Attr>)
    requires attrs == []
    ensures b + EncAll(AttrsItems(attrs)) == b
  {
  }

  /** A handler and children derived from it, used in turn: the child's event does not change its parent's, nor the
      parent's the child's. */
  method FamilyHandles(parent: Handler, all: seq<Attr>, r: Record)
    requires parent.Valid() && parent.logger.Valid() && parent.logger.sink.budget >= 4 && all != []
    modifies parent`b, parent.b.arr, parent.logger.sink
    ensures var parents := Enc(Event(RecordHeader(r) + Tree(parent.ops, r.attrs), parent.logger.labels));
            var inside := Tree(parent.ops + [WithAttrs(all)], r.attrs);
            var children := Enc(Event(RecordHeader(r) + inside, parent.logger.labels));
            parent.logger.sink.writes ==
              old(parent.logger.sink.writes) + [parents] + [children] + [parents] + [children]
  {
    hide Enc, Event, RecordHeader, Tree, Prefix, Depth;
    var child := parent.WithAttributes(all);
    var _ := parent.Handle(r);
    var _ := child.Handle(r);
    var _ := parent.Handle(r);
    var _ := child.Handle(r);
  }

  lemma EmptyItems(b: bytes)
    ensures b + EncAll([]) == b
  {
  }

  lemma NamedGroup(b: bytes, key: bytes, n: nat, items: seq<Value>)
    ensures b + EncAll(Pair(key, Closed(true, MinHead(n), items))) ==
            b + Enc(TextTree(key)) + HeadBytes(Map, MinHead(n)) + EncAll(items)
  {
    hide TextTree, HeadBytes, EncAll;
    var g := Closed(true, MinHead(n), items);
    EncPair(TextTree(key), g);
    assert Enc(g) == HeadBytes(Map, MinHead(n)) + EncAll(items);
    var t, h, e := Enc(TextTree(key)), HeadBytes(Map, MinHead(n)), EncAll(items);
    assert b + (t + (h + e)) == b + t + h + e;
  }

  lemma Inside(h: bytes, p: bytes, a: bytes, e: bytes)
    ensures h + p + a + e == h + (p + a + e)
  {
  }

  // ----- well-formed events -----

  ghost predicate OpsOk(ops: seq<Op>, balanced: bool) {
    ops == [] ||
    (OpsOk(ops[1..], balanced) && match ops[0]
      case WithAttrs(attrs) => if balanced then BalancedAll(attrs) else EncodableAll(attrs)
      case WithGroup(name) => balanced || |name| <= MAX_INT)
  }

  /** The nested items are well-formed, for a handler derived in any way, exactly when every named group that is an
      attribute holds one pair for each member. */
  lemma {:induction false} TreeValidIffBalanced(ops: seq<Op>, attrs: seq<Attr>)
    requires OpsOk(ops, false) && EncodableAll(attrs)
    ensures |Tree(ops, attrs)| % 2 == 0
    ensures ValidAll(Full, Tree(ops, attrs)) <==> OpsOk(ops, true) && BalancedAll(attrs)
    decreases |ops|
  {
    if ops == [] {
      ItemsAllEven(attrs);
      ItemsAllValidIffBalanced(attrs);
    } else {
      TreeValidIffBalanced(ops[1..], attrs);
      match ops[0]
      case WithAttrs(more) =>
        ItemsAllEven(more);
        ItemsAllValidIffBalanced(more);
        ValidAllConcat(Full, AttrsItems(more), Tree(ops[1..], attrs));
      case WithGroup(name) =>
        TextValid(Full, name);
        ValidPair(Full, TextTree(name), Open(true, Tree(ops[1..], attrs)));
    }
  }

  /** Times and levels are 64-bit, texts have a length, callers are encoded as values. */
  ghost predicate GoodRecord(r: Record) {
    && (r.time.Some? ==> Fits64(r.time.value)) && (r.caller.Some? ==> Valid(Full, r.caller.value))
    && |r.message| <= MAX_INT && Fits64(r.level)
  }

  lemma HeaderIsGood(r: Record)
    requires GoodRecord(r)
    ensures GoodPairs(Full, RecordHeader(r))
  {
    hide GoodPairs, Valid, Pair, TimeTree, Tagged, TextTree, NumTree;
    Empty(Full);
    var h: seq<Value> := [];
    if r.time.Some? {
      TimeValid(Full, r.time.value);
      MorePair(Full, h, KEY_TIMESTAMP, TimeTree(r.time.value));
      h := h + Pair(KEY_TIMESTAMP, TimeTree(r.time.value));
    }
    if r.caller.Some? {
      TaggedValid(Full, SEM_CALLER, r.caller.value);
      MorePair(Full, h, KEY_CALLER, Tagged(SEM_CALLER, r.caller.value));
      h := h + Pair(KEY_CALLER, Tagged(SEM_CALLER, r.caller.value));
    }
    MessageValid(Full, r.message);
    MorePair(Full, h, KEY_MESSAGE, Tagged(WIRE_MESSAGE, TextTree(r.message)));
    h := h + Pair(KEY_MESSAGE, Tagged(WIRE_MESSAGE, TextTree(r.message)));
    if r.level != 0 {
      LevelValid(r.level);
      MorePair(Full, h, KEY_LOG_LEVEL, Tagged(WIRE_LOG_LEVEL, NumTree(Truncated(r.level, 4))));
    }
  }

  lemma LevelValid(level: int)
    requires Fits64(level)
    ensures Valid(Full, Tagged(WIRE_LOG_LEVEL, NumTree(Truncated(level, 4))))
  {
    hide NumTree;
    var n := Truncated(level, 4);
    assert Fits64(n);
    NumFits(n);
    NumValid(Full, n);
    TaggedValid(Full, WIRE_LOG_LEVEL, NumTree(n));
  }

  /** The event that `Handle` writes is one well-formed value, for a handler derived in any way, exactly when
      every named group that is an attribute, of the handler or of the record, holds one pair for each member. */
  lemma EventValidIffBalanced(ops: seq<Op>, r: Record, labels: seq<Value>)
    requires OpsOk(ops, false) && EncodableAll(r.attrs) && GoodRecord(r) && GoodPairs(Full, labels)
    ensures Valid(Full, Event(RecordHeader(r) + Tree(ops, r.attrs), labels))
            <==> OpsOk(ops, true) && BalancedAll(r.attrs)
  {
    hide RecordHeader, Tree, OpsOk, BalancedAll, EncodableAll, Pairs, ValidAll, Valid;
    HeaderIsGood(r);
    PairsEven(RecordHeader(r));
    PairsEven(labels);
    TreeValidIffBalanced(ops, r.attrs);
    ValidAllConcat(Full, RecordHeader(r), Tree(ops, r.attrs));
    ValidAllConcat(Full, RecordHeader(r) + Tree(ops, r.attrs), labels);
    OpenMap(RecordHeader(r) + Tree(ops, r.attrs) + labels);
  }

  lemma OpenMap(items: seq<Value>)
    ensures Valid(Full, Open(true, items)) <==> |items| % 2 == 0 && ValidAll(Full, items)
  {
  }
}
