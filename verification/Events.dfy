/** Building the key-value part of an event, and labels. */
module Events {
  import opened Wire

  // ----- arguments -----

  /** What the automatic key is chosen by. The first five append themselves when met in place of a key. */
  datatype Kind = KindID | KindLevel | KindEvent | KindTag | KindCaller | KindPlain

  /** One element of the argument list. `AOther` is any other value, with the tree it is encoded as;
      `AModify` is a semantic tag for the next value, `AFormat` a format for it. */
  datatype Arg =
    | AText(s: bytes)
    | AInt(n: int)
    | ABytes(data: bytes)
    | AModify(head: Head)
    | AFormat(format: bytes)
    | AOther(kind: Kind, tree: Value)

  predicate SelfAppending(a: Arg) {
    a.AOther? && a.kind in {KindID, KindLevel, KindEvent, KindTag}
  }

  const KEY_SPAN := Ascii("_s")
  const KEY_PARENT := Ascii("_p")
  const KEY_TIMESTAMP := Ascii("_t")
  const KEY_ELAPSED := Ascii("_e")
  const KEY_CALLER := Ascii("_c")
  const KEY_MESSAGE := Ascii("_m")
  const KEY_EVENT_KIND := Ascii("_k")
  const KEY_LOG_LEVEL := Ascii("_l")
  const KEY_TAG := Ascii("_T")
  const MISSING_KEY := Ascii("MISSING_KEY")

  const NEXT_AS_MESSAGE := Head(W0, WIRE_MESSAGE)

  function AutoKey(kvs: seq<Arg>): bytes
    requires kvs != []
  {
    if |kvs| == 1 then Ascii("MISSING_VALUE")
    else match kvs[1]
      case AModify(h) => if h == NEXT_AS_MESSAGE then KEY_MESSAGE else Ascii("UNSUPPORTED_AUTO_KEY")
      case AOther(KindID, _) => KEY_SPAN
      case AOther(KindLevel, _) => KEY_LOG_LEVEL
      case AOther(KindEvent, _) => KEY_EVENT_KIND
      case AOther(KindCaller, _) => KEY_CALLER
      case AOther(KindTag, _) => KEY_TAG
      case _ => Ascii("UNSUPPORTED_AUTO_KEY")
  }

  // ----- the trees an argument list stands for -----

  const UNDEFINED_VALUE := Simple(UNDEFINED)

  type Formatter = (bytes, Arg) -> bytes

  /** The value at the front of the list, with its tags, and how many arguments it took. */
  function ValueOf(fmt: Formatter, kvs: seq<Arg>): (r: (Value, nat))
    ensures r.1 <= |kvs| && (kvs != [] ==> r.1 > 0)
  {
    if kvs == [] then (UNDEFINED_VALUE, 0)
    else match kvs[0]
      case AInt(n) => (NumTree(n), 1)
      case AText(s) => (TextTree(s), 1)
      case ABytes(data) => (Str(false, MinHead(|data|), data), 1)
      case AModify(h) => var (v, n) := ValueOf(fmt, kvs[1..]); (Sem(h, v), n + 1)
      case AFormat(f) => if |kvs| == 1 then (UNDEFINED_VALUE, 1) else (TextTree(fmt(f, kvs[1])), 2)
      case AOther(_, t) => (t, 1)
  }

  /** Keys and values in turn. A self-appending argument in a key's place is an item of its own. */
  function Items(fmt: Formatter, kvs: seq<Arg>): seq<Value>
    decreases |kvs|
  {
    if kvs == [] then []
    else if SelfAppending(kvs[0]) then [kvs[0].tree] + Items(fmt, kvs[1..])
    else
      var key := if !kvs[0].AText? then MISSING_KEY else if kvs[0].s == [] then AutoKey(kvs) else kvs[0].s;
      var rest := if kvs[0].AText? then kvs[1..] else kvs;
      var (v, n) := ValueOf(fmt, rest);
      [TextTree(key), v] + Items(fmt, rest[n..])
  }

  // ----- appendKVs -----

  /** One turn of the loop, at the `i`-th argument. */
  lemma ItemsStep(fmt: Formatter, kvs: seq<Arg>, i: nat)
    requires i < |kvs|
    ensures SelfAppending(kvs[i]) ==> Items(fmt, kvs[i..]) == [kvs[i].tree] + Items(fmt, kvs[i + 1..])
    ensures !SelfAppending(kvs[i]) ==>
      var key := if !kvs[i].AText? then MISSING_KEY else if kvs[i].s == [] then AutoKey(kvs[i..]) else kvs[i].s;
      var from := if kvs[i].AText? then i + 1 else i;
      var (v, n) := ValueOf(fmt, kvs[from..]);
      from + n <= |kvs| && from + n > i && Items(fmt, kvs[i..]) == [TextTree(key), v] + Items(fmt, kvs[from + n..])
  {
    hide AutoKey, TextTree, ValueOf;
    DropDrop(kvs, i, 1);
    if !SelfAppending(kvs[i]) {
      var from := if kvs[i].AText? then i + 1 else i;
      DropDrop(kvs, from, ValueOf(fmt, kvs[from..]).1);
    }
  }

  lemma DropDrop(kvs: seq<Arg>, i: nat, n: nat)
    requires i + n <= |kvs|
    ensures kvs[i..][n..] == kvs[i + n..]
  {
  }

  method appendKVs(fmt: Formatter, b: bytes, kvs: seq<Arg>) returns (r: bytes)
    ensures r == b + EncAll(Items(fmt, kvs))
  {
    hide Enc, EncAll, TextTree, AutoKey, Items, ValueOf;
    r := b;
    var i := 0;
    ghost var done: seq<Value> := [];
    Start(b, Items(fmt, kvs));
    assert kvs[0..] == kvs;
    while i < |kvs|
      invariant 0 <= i <= |kvs|
      invariant Items(fmt, kvs) == done + Items(fmt, kvs[i..])
      invariant r == b + EncAll(done)
    {
      ItemsStep(fmt, kvs, i);
      var k;
      if kvs[i].AText? {
        k := kvs[i].s;
        if k == [] {
          k := AutoKey(kvs[i..]);
        }
        i := i + 1;
      } else if SelfAppending(kvs[i]) {
        Advance(b, done, [kvs[i].tree], Items(fmt, kvs[i + 1..]));
        done := done + [kvs[i].tree];
        r := r + Enc(kvs[i].tree);
        i := i + 1;
        continue;
      } else {
        k := MISSING_KEY;
      }
      r := r + Enc(TextTree(k));
      ghost var v := ValueOf(fmt, kvs[i..]).0;
      r, i := appendValue(fmt, r, kvs, i);
      Advance(b, done, [TextTree(k), v], Items(fmt, kvs[i..]));
      done := done + [TextTree(k), v];
    }
    NoItems(fmt, kvs[i..]);
    assert done + [] == done;
  }

  lemma NoItems(fmt: Formatter, kvs: seq<Arg>)
    requires kvs == []
    ensures Items(fmt, kvs) == []
  {
  }

  /** The value part of the loop: tags are written until a value is found, and Undefined if there is none. */
  method appendValue(fmt: Formatter, b: bytes, kvs: seq<Arg>, st: nat) returns (r: bytes, i: nat)
    requires st <= |kvs|
    ensures var (v, n) := ValueOf(fmt, kvs[st..]); r == b + Enc(v) && i == st + n
  {
    hide Enc, EncAll, TextTree, NumTree;
    r, i := b, st;
    ghost var (v, n) := ValueOf(fmt, kvs[st..]);
    ghost var tags: bytes := [];
    assert b + tags == b;
    while i < |kvs| && kvs[i].AModify?
      invariant st <= i <= |kvs|
      invariant ValueOf(fmt, kvs[i..]).1 + i == st + n
      invariant r == b + tags && Enc(v) == tags + Enc(ValueOf(fmt, kvs[i..]).0)
    {
      var h := kvs[i].head;
      ghost var at, rest := i, kvs[i..];
      assert rest[0] == kvs[i] && rest[1..] == kvs[i + 1..];
      r := r + HeadBytes(Semantic, h);
      TagOff(b, tags, h, ValueOf(fmt, kvs[i + 1..]).0);
      tags := tags + HeadBytes(Semantic, h);
      i := i + 1;
    }
    ghost var rest := kvs[i..];
    ghost var w := ValueOf(fmt, rest).0;
    assert b + (tags + Enc(w)) == b + tags + Enc(w);
    if i == |kvs| {
      r := r + Enc(UNDEFINED_VALUE);
      return;
    }
    assert rest[0] == kvs[i];
    match kvs[i] {
      case AInt(x) => r := r + Enc(NumTree(x));
      case AText(s) => r := r + Enc(TextTree(s));
      case ABytes(data) => r := r + Enc(Str(false, MinHead(|data|), data));
      case AFormat(f) =>
        i := i + 1;
        if i == |kvs| {
          r := r + Enc(UNDEFINED_VALUE);
          return;
        }
        assert rest[1] == kvs[i];
        r := r + Enc(TextTree(fmt(f, kvs[i])));
      case AOther(_, t) => r := r + Enc(t);
    }
    i := i + 1;
  }

  lemma TagOff(b: bytes, tags: bytes, h: Head, v: Value)
    ensures tags + Enc(Sem(h, v)) == tags + HeadBytes(Semantic, h) + Enc(v)
    ensures b + tags + HeadBytes(Semantic, h) == b + (tags + HeadBytes(Semantic, h))
  {
    assert tags + (HeadBytes(Semantic, h) + Enc(v)) == tags + HeadBytes(Semantic, h) + Enc(v);
  }

  lemma Start(b: bytes, all: seq<Value>)
    ensures [] + all == all && EncAll([]) == [] && b + EncAll([]) == b
  {
  }

  lemma Advance(b: bytes, done: seq<Value>, next: seq<Value>, rest: seq<Value>)
    requires |next| in {1, 2}
    ensures done + (next + rest) == done + next + rest
    ensures |next| == 1 ==> b + EncAll(done) + Enc(next[0]) == b + EncAll(done + next)
    ensures |next| == 2 ==> b + EncAll(done) + Enc(next[0]) + Enc(next[1]) == b + EncAll(done + next)
  {
    hide Enc, EncAll;
    EncAllConcat(done, next);
    EncPair(next[0], next[|next| - 1]);
    var d, x, y := EncAll(done), Enc(next[0]), Enc(next[|next| - 1]);
    assert next == if |next| == 2 then [next[0], next[1]] else [next[0]];
    assert b + d + x == b + (d + x);
    assert b + d + x + y == b + (d + (x + y));
  }

  // ----- what the items are -----

  /** Arguments a program can pass: numbers and lengths fit, trees are well formed. */
  ghost predicate GoodArg(g: Grammar, a: Arg) {
    match a
    case AText(s) => |s| <= MAX_INT
    case AInt(n) => -MAX_INT - 1 <= n <= MAX_INT
    case ABytes(data) => |data| <= MAX_INT
    case AModify(h) => ValidHead(h)
    case AFormat(_) => true
    case AOther(kind, t) => Valid(g, t) && (SelfAppending(a) ==> t.Sem?)
  }

  ghost predicate GoodFormatter(fmt: Formatter) {
    forall f, a :: |fmt(f, a)| <= MAX_INT
  }

  /** Alternating string keys and values. */
  ghost predicate Pairs(items: seq<Value>) {
    items == [] || (|items| >= 2 && items[0].Str? && items[0].text && Pairs(items[2..]))
  }

  /** No argument that appends itself stands in a key's place. */
  ghost predicate NoSelfAppendingKey(fmt: Formatter, kvs: seq<Arg>)
    decreases |kvs|
  {
    if kvs == [] then true
    else if SelfAppending(kvs[0]) then false
    else
      var rest := if kvs[0].AText? then kvs[1..] else kvs;
      NoSelfAppendingKey(fmt, rest[ValueOf(fmt, rest).1..])
  }

  lemma {:induction false} ValueOfValid(g: Grammar, fmt: Formatter, kvs: seq<Arg>)
    requires GoodFormatter(fmt) && forall a <- kvs :: GoodArg(g, a)
    ensures Valid(g, ValueOf(fmt, kvs).0)
  {
    hide TextTree, NumTree;
    if kvs != [] {
      var a := kvs[0];
      assert GoodArg(g, a);
      match a
      case AInt(n) => NumValid(g, n);
      case AText(s) => TextValid(g, s);
      case ABytes(data) => TextValid(g, data);
      case AModify(_) => ValueOfValid(g, fmt, kvs[1..]);
      case AFormat(f) => if |kvs| > 1 { TextValid(g, fmt(f, kvs[1])); }
      case AOther(_, _) =>
    }
  }

  /** The items are well formed, and they are string-keyed pairs exactly when no key is self-appending. */
  lemma {:induction false} ItemsArePairs(g: Grammar, fmt: Formatter, kvs: seq<Arg>)
    requires GoodFormatter(fmt) && forall a <- kvs :: GoodArg(g, a)
    ensures ValidAll(g, Items(fmt, kvs))
    ensures Pairs(Items(fmt, kvs)) <==> NoSelfAppendingKey(fmt, kvs)
    decreases |kvs|
  {
    hide ValueOf, Valid, TextTree, Items;
    if kvs == [] {
      NoItems(fmt, kvs);
    } else {
      assert GoodArg(g, kvs[0]) && kvs[0..] == kvs;
      ItemsStep(fmt, kvs, 0);
      if SelfAppending(kvs[0]) {
        ItemsArePairs(g, fmt, kvs[1..]);
        FirstItem(g, kvs[0].tree, Items(fmt, kvs[1..]));
      } else {
        var from := if kvs[0].AText? then 1 else 0;
        var (v, n) := ValueOf(fmt, kvs[from..]);
        ValueOfValid(g, fmt, kvs[from..]);
        DropDrop(kvs, from, n);
        ItemsArePairs(g, fmt, kvs[from + n..]);
        var key := if !kvs[0].AText? then MISSING_KEY else if kvs[0].s == [] then AutoKey(kvs) else kvs[0].s;
        KeyValid(g, key);
        FirstPairOf(g, TextTree(key), v, Items(fmt, kvs[from + n..]));
      }
    }
  }

  lemma FirstItem(g: Grammar, v: Value, vs: seq<Value>)
    ensures ValidAll(g, [v] + vs) <==> Valid(g, v) && ValidAll(g, vs)
    ensures v.Sem? ==> !Pairs([v] + vs)
  {
    hide Valid;
    assert ([v] + vs)[1..] == vs;
  }

  lemma FirstPairOf(g: Grammar, key: Value, v: Value, vs: seq<Value>)
    requires key.Str? && key.text
    ensures ValidAll(g, [key, v] + vs) <==> Valid(g, key) && Valid(g, v) && ValidAll(g, vs)
    ensures Pairs([key, v] + vs) <==> Pairs(vs)
  {
    hide Valid;
    var s := [key, v] + vs;
    assert s[1..] == [v] + vs && s[1..][1..] == vs && s[2..] == vs;
  }

  lemma KeyValid(g: Grammar, key: bytes)
    requires |key| <= MAX_INT
    ensures Valid(g, TextTree(key)) && TextTree(key).Str? && TextTree(key).text
  {
    TextValid(g, key);
  }

  // ----- what a stream reader can read of them -----

  /** How many arguments append themselves in a key's place. */
  function SelfKeys(fmt: Formatter, kvs: seq<Arg>): nat
    decreases |kvs|
  {
    if kvs == [] then 0
    else if SelfAppending(kvs[0]) then 1 + SelfKeys(fmt, kvs[1..])
    else
      var rest := if kvs[0].AText? then kvs[1..] else kvs;
      SelfKeys(fmt, rest[ValueOf(fmt, rest).1..])
  }

  /** The trees among the arguments are of the stream format, except those that are formatted as text. */
  ghost predicate StreamTrees(kvs: seq<Arg>)
    decreases |kvs|
  {
    if kvs == [] then true
    else if kvs[0].AFormat? then |kvs| == 1 || StreamTrees(kvs[2..])
    else (kvs[0].AOther? ==> Valid(Stream, kvs[0].tree)) && StreamTrees(kvs[1..])
  }

  /** There is a key without a value exactly when an odd number of arguments append themselves in a key's place. */
  lemma {:induction false} OddItemsIff(fmt: Formatter, kvs: seq<Arg>)
    ensures |Items(fmt, kvs)| % 2 == SelfKeys(fmt, kvs) % 2
    decreases |kvs|
  {
    hide ValueOf, TextTree, AutoKey, Items;
    if kvs == [] {
      NoItems(fmt, kvs);
    } else {
      assert kvs[0..] == kvs;
      ItemsStep(fmt, kvs, 0);
      if SelfAppending(kvs[0]) {
        OddItemsIff(fmt, kvs[1..]);
        Parity(|Items(fmt, kvs[1..])|, SelfKeys(fmt, kvs[1..]));
      } else {
        var from := if kvs[0].AText? then 1 else 0;
        var n := ValueOf(fmt, kvs[from..]).1;
        DropDrop(kvs, from, n);
        OddItemsIff(fmt, kvs[from + n..]);
        Parity(|Items(fmt, kvs[from + n..])|, 0);
      }
    }
  }

  lemma Parity(a: nat, b: nat)
    ensures a % 2 == b % 2 ==> (1 + a) % 2 == (1 + b) % 2
    ensures (2 + a) % 2 == a % 2
  {
  }

  lemma {:induction false} StreamValueIff(fmt: Formatter, kvs: seq<Arg>)
    requires GoodFormatter(fmt) && forall a <- kvs :: GoodArg(Full, a)
    ensures StreamTrees(kvs) <==> Valid(Stream, ValueOf(fmt, kvs).0) && StreamTrees(kvs[ValueOf(fmt, kvs).1..])
  {
    hide TextTree, NumTree;
    if kvs != [] {
      var a := kvs[0];
      assert GoodArg(Full, a);
      match a
      case AInt(n) => NumValid(Stream, n);
      case AText(s) => TextValid(Stream, s);
      case ABytes(data) => TextValid(Stream, data);
      case AModify(_) =>
        StreamValueIff(fmt, kvs[1..]);
        DropDrop(kvs, 1, ValueOf(fmt, kvs[1..]).1);
      case AFormat(f) => if |kvs| > 1 { TextValid(Stream, fmt(f, kvs[1])); }
      case AOther(_, _) =>
    }
  }

  /** The items are of the stream format exactly when the trees among the arguments are. */
  lemma {:induction false} StreamItemsIff(fmt: Formatter, kvs: seq<Arg>)
    requires GoodFormatter(fmt) && forall a <- kvs :: GoodArg(Full, a)
    ensures ValidAll(Stream, Items(fmt, kvs)) <==> StreamTrees(kvs)
    decreases |kvs|
  {
    hide ValueOf, Valid, TextTree, Items;
    if kvs == [] {
      NoItems(fmt, kvs);
    } else {
      assert GoodArg(Full, kvs[0]) && kvs[0..] == kvs;
      ItemsStep(fmt, kvs, 0);
      if SelfAppending(kvs[0]) {
        StreamItemsIff(fmt, kvs[1..]);
        FirstItem(Stream, kvs[0].tree, Items(fmt, kvs[1..]));
      } else {
        var from := if kvs[0].AText? then 1 else 0;
        var (v, n) := ValueOf(fmt, kvs[from..]);
        var key := Items(fmt, kvs)[0];
        StreamValueIff(fmt, kvs[from..]);
        DropDrop(kvs, from, n);
        StreamItemsIff(fmt, kvs[from + n..]);
        KeyOfItems(fmt, kvs);
        FirstItem(Stream, key, [v] + Items(fmt, kvs[from + n..]));
        FirstItem(Stream, v, Items(fmt, kvs[from + n..]));
        assert Items(fmt, kvs) == [key] + ([v] + Items(fmt, kvs[from + n..]));
      }
    }
  }

  lemma KeyOfItems(fmt: Formatter, kvs: seq<Arg>)
    requires kvs != [] && !SelfAppending(kvs[0]) && GoodArg(Full, kvs[0])
    ensures Items(fmt, kvs) != [] && Valid(Stream, Items(fmt, kvs)[0])
  {
    hide TextTree, ValueOf;
    KeyValid(Stream, if !kvs[0].AText? then MISSING_KEY else if kvs[0].s == [] then AutoKey(kvs) else kvs[0].s);
  }
}
