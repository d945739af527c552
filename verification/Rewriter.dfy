/** The rewriter: a tree transformation done on encoded bytes, steered by rename rules. */
module Rewriting {
  import opened Wire
  import opened Framing
  import opened Rules
  import opened Slices

  // ----- what it does to trees -----

  /** Where a value sits: directly under a map key, with the semantic tags met since the key; or elsewhere. */
  datatype Place = Elsewhere | UnderKey(key: Value, sems: seq<Head>) {
    function Tagged(h: Head): Place {
      if UnderKey? then UnderKey(key, sems + [h]) else this
    }

    /** The items that stand for value `v` at this place. Tags met elsewhere are gone. */
    function Emit(v: Value): seq<Value> {
      if UnderKey? then [key, Wrap(sems, v)] else [v]
    }

    ghost predicate WellFormed() {
      UnderKey? ==> key.Str? && Valid(Full, key) && forall h <- sems :: ValidHead(h)
    }

    /** The bytes the input holds between the key's start and the value. */
    function KeyBytes(): bytes {
      if UnderKey? then Enc(key) + SemBytes(sems) else []
    }
  }

  function Wrap(sems: seq<Head>, v: Value): Value {
    if sems == [] then v else Sem(sems[0], Wrap(sems[1..], v))
  }

  function SemBytes(sems: seq<Head>): bytes {
    if sems == [] then [] else HeadBytes(Semantic, sems[0]) + SemBytes(sems[1..])
  }

  function NewKey(rule: Rule, key: Value): Value {
    var was := if key.Str? then key.data else [];
    var data := rule.prefix + (if rule.rename.Some? then rule.rename.value else was);
    Str(true, MinHead(|data|), data)
  }

  const ARRAY_STEP: bytes := [128]

  predicate Applies(rules: seq<Rule>, path: Path, place: Place) {
    var r := Lookup(rules, path);
    r.Some? && (r.value.remove || place.UnderKey?)
  }

  /** Applies the rules to a value found at `path`. The result has no item for a removed value. */
  function Rewritten(rules: seq<Rule>, path: Path, place: Place, v: Value): seq<Value>
    decreases v, 1
  {
    if Applies(rules, path, place) then
      var r := Lookup(rules, path).value;
      if r.remove then [] else [NewKey(r, place.key), Wrap(place.sems, v)]
    else match v
      case Sem(h, inner) => Rewritten(rules, path + [HeadBytes(Semantic, h)], place.Tagged(h), inner)
      case Closed(isMap, h, items) => place.Emit(Closed(isMap, h, RewrittenItems(rules, path, isMap, items)))
      case Open(isMap, items) => place.Emit(Open(isMap, RewrittenItems(rules, path, isMap, items)))
      case _ => place.Emit(v)
  }

  function RewrittenItems(rules: seq<Rule>, path: Path, isMap: bool, items: seq<Value>): seq<Value>
    decreases items, 0
  {
    if items == [] || (isMap && |items| == 1) then []
    else if isMap then
      Rewritten(rules, path + [Enc(items[0])], UnderKey(items[0], []), items[1])
      + RewrittenItems(rules, path, isMap, items[2..])
    else
      Rewritten(rules, path + [ARRAY_STEP], Elsewhere, items[0])
      + RewrittenItems(rules, path, isMap, items[1..])
  }

  // ----- the inputs it is made for -----

  /** A well-formed tree whose maps have string (or byte string) keys. */
  ghost predicate Keyed(v: Value)
    decreases v, 1
  {
    Valid(Full, v) &&
    match v
    case Closed(isMap, _, items) => KeyedAll(isMap, items)
    case Open(isMap, items) => KeyedAll(isMap, items)
    case Sem(_, inner) => Keyed(inner)
    case _ => true
  }

  ghost predicate KeyedAll(isMap: bool, items: seq<Value>)
    decreases items, 0
  {
    if items == [] then true
    else if isMap then
      |items| >= 2 && items[0].Str? && Valid(Full, items[0]) && Keyed(items[1]) && KeyedAll(isMap, items[2..])
    else Keyed(items[0]) && KeyedAll(isMap, items[1..])
  }

  /** The path leads to a map key, or to semantic tags right under one. */
  predicate EndsUnderKey(path: Path) {
    path != [] && path[|path| - 1] != [] &&
    var m := MajorOf(path[|path| - 1][0]);
    m == Bytes || m == Text || (m == Semantic && EndsUnderKey(path[..|path| - 1]))
  }

  /** A rule that renames needs a key to rename. */
  ghost predicate RulesFit(rules: seq<Rule>) {
    forall r <- rules :: r.remove || EndsUnderKey(r.path)
  }

  lemma UnderKeyTagged(path: Path, h: Head)
    requires ValidHead(h)
    ensures EndsUnderKey(path + [HeadBytes(Semantic, h)]) <==> EndsUnderKey(path)
  {
    HeadFirstByte(Semantic, h);
    assert (path + [HeadBytes(Semantic, h)])[..|path|] == path;
  }

  lemma UnderKeyOfKey(path: Path, key: Value)
    requires key.Str? && Valid(Full, key)
    ensures EndsUnderKey(path + [Enc(key)])
  {
    HeadFirstByte(StrMajor(key.text), key.head);
  }

  // ----- paths share a backing array -----

  /** Appending to a path overwrites whatever longer paths hold there, and leaves the shorter path as it was. */
  method AppendPath(s: Slice<bytes>, x: bytes) returns (r: Slice<bytes>)
    requires s.Valid()
    modifies s.arr
    ensures r.Valid() && r.len == s.len + 1 && (r.arr == s.arr || fresh(r.arr))
    ensures r.Elems() == old(s.Elems()) + [x] && s.Elems() == old(s.Elems())
  {
    r := Append(s, [x], []);
  }

  // ----- the bytes of trees -----

  lemma {:induction false} WrapBytes(sems: seq<Head>, v: Value)
    ensures Enc(Wrap(sems, v)) == SemBytes(sems) + Enc(v)
  {
    hide HeadBytes, EncAll;
    if sems == [] {
      assert [] + Enc(v) == Enc(v);
    } else {
      WrapBytes(sems[1..], v);
      var h, t, e := HeadBytes(Semantic, sems[0]), SemBytes(sems[1..]), Enc(v);
      assert Enc(Wrap(sems, v)) == h + (t + e);
      assert h + (t + e) == h + t + e;
    }
  }

  lemma {:induction false} SemBytesAppend(sems: seq<Head>, h: Head)
    ensures SemBytes(sems + [h]) == SemBytes(sems) + HeadBytes(Semantic, h)
  {
    if sems == [] {
      assert [] + [h] == [h] && [h][1..] == [];
    } else {
      SemBytesAppend(sems[1..], h);
      assert (sems + [h])[1..] == sems[1..] + [h];
    }
  }

  lemma EmitBytes(place: Place, v: Value)
    ensures EncAll(place.Emit(v)) == place.KeyBytes() + Enc(v)
  {
    if place.UnderKey? {
      EncPair(place.key, Wrap(place.sems, v));
      WrapBytes(place.sems, v);
      assert Enc(place.key) + (SemBytes(place.sems) + Enc(v)) == place.KeyBytes() + Enc(v);
    } else {
      EncPair(v, v);
      assert [] + Enc(v) == Enc(v);
    }
  }

  // ----- the byte-level algorithm -----

  /** `kst` is -1, or where the key above the value starts. `place` and `v` say what the input holds there. */
  ghost predicate Input(p: bytes, path: Path, kst: int, st: nat, place: Place, v: Value) {
    && At(p, st, Enc(v)) && Keyed(v) && place.WellFormed()
    && (place.UnderKey? <==> EndsUnderKey(path))
    && (if place.Elsewhere? then kst == -1 else 0 <= kst <= st && p[kst..st] == place.KeyBytes())
  }

  lemma EncAllEmpty()
    ensures EncAll([]) == []
  {
  }

  /** The bytes written when a rule renames the key. */
  lemma RenamedBytes(p: bytes, path: Path, kst: int, st: nat, place: Place, v: Value, rule: Rule)
    requires Input(p, path, kst, st, place, v) && place.UnderKey?
    ensures ReadTag(p, kst).Tag? && ReadTag(p, kst).sub >= 0
    ensures var (from, to) := StringAt(p, kst); var key := NewKey(rule, place.key);
            && from <= to <= st <= st + |Enc(v)| <= |p| && p[from..to] == place.key.data
            && EncAll([key, Wrap(place.sems, v)]) ==
               HeadBytes(Text, MinHead(|key.data|)) + key.data + p[to..st] + p[st..st + |Enc(v)|]
  {
    hide Enc, EncAll, Keyed, Valid, HeadBytes, SemBytes, Wrap, ReadTag, EndsUnderKey;
    KeyAt(p, kst, st, place);
    StringAtKey(p, kst, place.key);
    var (from, to) := StringAt(p, kst);
    var key := NewKey(rule, place.key);
    EncPair(key, Wrap(place.sems, v));
    WrapBytes(place.sems, v);
    EncStr(key);
    assert p[to..st] == SemBytes(place.sems) && p[st..st + |Enc(v)|] == Enc(v);
    assert Enc(key) + (SemBytes(place.sems) + Enc(v)) == Enc(key) + SemBytes(place.sems) + Enc(v);
  }

  lemma NoRule(rules: seq<Rule>, path: Path, place: Place)
    ensures Lookup(rules, path).None? ==> !Applies(rules, path, place)
    ensures rules == [] ==> Lookup(rules, path).None?
  {
  }

  /** The rule of a path that has a value: what it does is what the tree becomes. */
  lemma RuleFound(rules: seq<Rule>, p: bytes, path: Path, kst: int, st: nat, place: Place, v: Value, rule: Rule)
    requires RulesFit(rules) && Input(p, path, kst, st, place, v) && Lookup(rules, path) == Some(rule)
    ensures Applies(rules, path, place) && (rule.remove || (place.UnderKey? && kst >= 0))
    ensures Rewritten(rules, path, place, v) ==
            if rule.remove then [] else [NewKey(rule, place.key), Wrap(place.sems, v)]
    ensures !rule.remove ==>
              NewKey(rule, place.key).Str?
              && NewKey(rule, place.key).data
                 == rule.prefix + if rule.rename.Some? then rule.rename.value else place.key.data
  {
  }

  lemma EncStr(key: Value)
    requires key.Str?
    ensures Enc(key) == HeadBytes(StrMajor(key.text), key.head) + key.data
  {
  }

  lemma KeyAt(p: bytes, kst: nat, st: nat, place: Place)
    requires place.UnderKey? && kst <= st <= |p| && p[kst..st] == place.KeyBytes()
    ensures At(p, kst, Enc(place.key)) && p[kst + |Enc(place.key)|..st] == SemBytes(place.sems)
  {
    hide Enc, SemBytes;
    var k := Enc(place.key);
    assert p[kst..kst + |k|] == p[kst..st][..|k|] == k;
    assert p[kst + |k|..st] == p[kst..st][|k|..];
  }

  // ----- arriving at a value no rule applies to -----

  lemma Arrived(p: bytes, path: Path, kst: int, st: nat, place: Place, v: Value)
    requires Input(p, path, kst, st, place, v)
    ensures st < |p| && ReadTag(p, st).Tag? && ReadTag(p, st).next <= |p|
    ensures var m := ReadTag(p, st).major;
            && (m in {Array, Map} <==> v.Closed? || v.Open?) && (m == Semantic <==> v.Sem?)
            && (m == Special <==> v.Simple? || v.Float?) && (m in {Bytes, Text} <==> v.Str?)
    ensures kst == -1 <==> place.Elsewhere?
    ensures kst != -1 ==> 0 <= kst <= st && p[kst..st] == place.KeyBytes()
    ensures kst == -1 ==> place.KeyBytes() == []
  {
    hide ReadTag, Enc, EncAll, HeadBytes, Keyed, EndsUnderKey;
    InputParts(p, path, kst, st, place, v);
    Arrive(p, st, v);
    EncNotEmpty(p, st, v);
  }

  lemma EncNotEmpty(p: bytes, st: nat, v: Value)
    requires At(p, st, Enc(v))
    ensures st < |p|
  {
  }

  lemma RewrittenContainer(rules: seq<Rule>, path: Path, place: Place, v: Value)
    requires (v.Closed? || v.Open?) && !Applies(rules, path, place)
    ensures var out := EncAll(RewrittenItems(rules, path, v.isMap, v.items));
            EncAll(Rewritten(rules, path, place, v)) ==
            place.KeyBytes() + ContainerHead(v) + out + (if v.Open? then [BREAK_BYTE] else [])
  {
    hide EncAll, Applies, RewrittenItems;
    var items := RewrittenItems(rules, path, v.isMap, v.items);
    var w := if v.Closed? then Closed(v.isMap, v.head, items) else Open(v.isMap, items);
    assert Rewritten(rules, path, place, v) == place.Emit(w);
    EmitBytes(place, w);
    assert Enc(w) == ContainerHead(v) + EncAll(items) + (if v.Open? then [BREAK_BYTE] else []);
    Glue(place.KeyBytes(), ContainerHead(v), EncAll(items), if v.Open? then [BREAK_BYTE] else [], []);
  }

  function ContainerHead(v: Value): bytes
    requires v.Closed? || v.Open?
  {
    if v.Closed? then HeadBytes(ContainerMajor(v.isMap), v.head) else [MajorCode(ContainerMajor(v.isMap)) * 32 + BREAK]
  }

  lemma ArrivedAtContainer(p: bytes, path: Path, kst: int, st: nat, place: Place, v: Value)
    requires Input(p, path, kst, st, place, v) && (v.Closed? || v.Open?)
    ensures ReadTag(p, st).Tag?
    ensures var t := ReadTag(p, st);
            && t.major == ContainerMajor(v.isMap) && st < t.next <= |p| && (t.sub == -1 <==> v.Open?)
            && p[st..t.next] == ContainerHead(v) && Elements(p, t.next, v.isMap, t.sub, 0, v.items)
            && st + |Enc(v)| == t.next + |EncAll(v.items)| + (if t.sub == -1 then 1 else 0)
  {
    hide SemBytes, EndsUnderKey, ReadTag, HeadBytes, Enc, EncAll, Keyed, KeyedAll, ContainerHead, Place.WellFormed,
      Place.KeyBytes;
    InputParts(p, path, kst, st, place, v);
    Arrive(p, st, v);
    KeyedContainer(v);
    ContainerFront(p, st, v);
  }

  lemma ContainerFront(p: bytes, st: nat, v: Value)
    requires At(p, st, Enc(v)) && (v.Closed? || v.Open?)
    ensures var n := |ContainerHead(v)|;
            && n > 0 && st + n <= |p| && p[st..st + n] == ContainerHead(v)
            && |Enc(v)| == n + |EncAll(v.items)| + if v.Open? then 1 else 0
  {
    hide HeadBytes, EncAll;
    var head := ContainerHead(v);
    assert Enc(v)[..|head|] == head;
    assert p[st..st + |head|] == p[st..st + |Enc(v)|][..|head|];
  }

  lemma KeyedContainer(v: Value)
    requires Keyed(v) && (v.Closed? || v.Open?)
    ensures KeyedAll(v.isMap, v.items)
    ensures v.Closed? ==> |v.items| == if v.isMap then 2 * v.head.arg else v.head.arg
  {
    hide EncAll;
  }

  lemma RewrittenTag(rules: seq<Rule>, path: Path, place: Place, v: Value)
    requires v.Sem? && !Applies(rules, path, place)
    ensures Rewritten(rules, path, place, v) ==
            Rewritten(rules, path + [HeadBytes(Semantic, v.head)], place.Tagged(v.head), v.inner)
  {
  }

  lemma ArrivedAtTag(p: bytes, path: Path, kst: int, st: nat, place: Place, v: Value)
    requires Input(p, path, kst, st, place, v) && v.Sem?
    ensures ReadTag(p, st).Tag?
    ensures var i := ReadTag(p, st).next;
            && st < i <= |p| && st + |Enc(v)| == i + |Enc(v.inner)| && p[st..i] == HeadBytes(Semantic, v.head)
            && Input(p, path + [p[st..i]], kst, i, place.Tagged(v.head), v.inner)
  {
    hide EndsUnderKey, HeadBytes, EncAll, ReadTag, SemBytes, Place.KeyBytes, Place.Tagged;
    AtHead(p, st, Semantic, v.head, Enc(v.inner));
    UnderKeyTagged(path, v.head);
    var i := ReadTag(p, st).next;
    TaggedPlace(place, v.head);
    if place.UnderKey? {
      assert p[kst..i] == p[kst..st] + p[st..i];
    }
  }

  lemma TaggedPlace(place: Place, h: Head)
    ensures place.UnderKey? ==> place.Tagged(h).KeyBytes() == place.KeyBytes() + HeadBytes(Semantic, h)
    ensures place.Tagged(h).UnderKey? <==> place.UnderKey?
    ensures place.WellFormed() && ValidHead(h) ==> place.Tagged(h).WellFormed()
  {
    hide HeadBytes, SemBytes, Enc;
    if place.UnderKey? {
      SemBytesAppend(place.sems, h);
      assert Enc(place.key) + (SemBytes(place.sems) + HeadBytes(Semantic, h))
        == Enc(place.key) + SemBytes(place.sems) + HeadBytes(Semantic, h);
    }
  }

  lemma RewrittenLeaf(rules: seq<Rule>, path: Path, place: Place, v: Value)
    requires (v.Num? || v.Str? || v.Simple? || v.Float?) && !Applies(rules, path, place)
    ensures EncAll(Rewritten(rules, path, place, v)) == place.KeyBytes() + Enc(v)
  {
    hide Enc, EncAll, Applies, Place.Emit;
    assert Rewritten(rules, path, place, v) == place.Emit(v);
    EmitBytes(place, v);
  }

  lemma ArrivedAtLeaf(p: bytes, st: nat, v: Value)
    requires At(p, st, Enc(v)) && Valid(Full, v)
    requires v.Num? || v.Str? || v.Simple? || v.Float?
    ensures ReadTag(p, st).Tag? && st < |p| && st + |Enc(v)| <= |p| && p[st..st + |Enc(v)|] == Enc(v)
    ensures v.Num? ==> ReadTag(p, st).next == st + |Enc(v)|
    ensures v.Str? ==> Skip(Full, p, st) == End(st + |Enc(v)|)
    ensures v.Simple? || v.Float? ==> (
              && ReadTag(p, st).next == st + 1 && p[st] % 32 == v.sub
              && |Enc(v)| == 1 + (if FLOAT8 <= v.sub <= FLOAT64 then FloatWidth(v.sub) else 0))
  {
    hide HeadBytes, Skip, EncAll;
    SkipExact(Full, p, st, v);
    match v
    case Num(neg, h) => AtHead(p, st, if neg then Neg else Int, h, []);
    case Str(text, h, data) => AtHead(p, st, StrMajor(text), h, data);
    case _ => SpecialTag(p, st, v);
  }

  lemma InputParts(p: bytes, path: Path, kst: int, st: nat, place: Place, v: Value)
    requires Input(p, path, kst, st, place, v)
    ensures At(p, st, Enc(v)) && Valid(Full, v)
  {
  }

  lemma Glue(b: bytes, k: bytes, h: bytes, o: bytes, e: bytes)
    ensures b + k + h + o + e == b + (k + h + o + e)
    ensures b + k + h + [] == b + (k + h)
    ensures b + k + h + o + [] == b + k + h + o && k + h + o + [] == k + h + o
  {
  }

  lemma GlueItems(b: bytes, out: seq<Value>, next: seq<Value>, rest: seq<Value>, all: seq<Value>)
    requires all == out + (next + rest)
    ensures b + EncAll(out) + EncAll(next) == b + EncAll(out + next)
    ensures all == out + next + rest
  {
    hide EncAll;
    EncAllConcat(out, next);
    Assoc(b, EncAll(out), EncAll(next));
  }

  // ----- the elements of a container -----

  /** From `i` on the input holds the last `items` of a container, `el` elements being done. */
  ghost predicate Elements(p: bytes, i: nat, isMap: bool, l: int, el: nat, items: seq<Value>) {
    && At(p, i, EncAll(items)) && KeyedAll(isMap, items)
    && (if l == -1 then At(p, i + |EncAll(items)|, [BREAK_BYTE])
        else el <= l && |items| == if isMap then 2 * (l - el) else l - el)
  }

  lemma ElementsStart(items: seq<Value>, b: bytes, all: seq<Value>)
    ensures items[0..] == items && EncAll([]) == [] && b + [] == b && [] + all == all
  {
  }

  lemma Suffix(items: seq<Value>, c: nat, n: nat)
    requires c + n <= |items|
    ensures items[c..][n..] == items[c + n..]
  {
  }

  lemma ElementsNext(rules: seq<Rule>, p: bytes, path: Path, i: nat, isMap: bool, l: int, el: nat, items: seq<Value>)
    requires Elements(p, i, isMap, l, el, items)
    ensures if l == -1 then i < |p| && (p[i] == BREAK_BYTE <==> items == []) else el <= l && (el == l <==> items == [])
    ensures items == [] ==> RewrittenItems(rules, path, isMap, items) == [] && EncAll(items) == []
    ensures items != [] ==> Elements1(rules, p, path, i, isMap, l, el, items)
  {
    hide EndsUnderKey, Rewritten, RewrittenItems, ReadTag, HeadBytes, Enc, EncAll, Valid, ValidAll, Elements1;
    RewrittenStep(rules, path, isMap, items);
    if items == [] {
      EncAllEmpty();
      if l == -1 {
        ByteAt(p, i, BREAK_BYTE);
      }
    } else if isMap {
      NextPair(rules, p, path, i, l, el, items);
    } else {
      NextElement(rules, p, path, i, l, el, items);
    }
  }

  lemma NextPair(rules: seq<Rule>, p: bytes, path: Path, i: nat, l: int, el: nat, items: seq<Value>)
    requires Elements(p, i, true, l, el, items) && items != []
    ensures i < |p| && p[i] != BREAK_BYTE && Elements1(rules, p, path, i, true, l, el, items)
  {
    hide EndsUnderKey, Rewritten, RewrittenItems, ReadTag, HeadBytes, Enc, EncAll, Valid, ValidAll, StringAt;
    RewrittenStep(rules, path, true, items);
    KeyedFirst(true, items);
    SkipStart(Full, p, i, items);
    EncAllFirst(items);
    var key, j := items[0], i + |Enc(items[0])|;
    StringAtKey(p, i, key);
    UnderKeyOfKey(path, key);
    SkipStart(Full, p, j, items[1..]);
    EncAllFirst(items[1..]);
    assert items[1..][1..] == items[2..];
    KeyOnly(key);
  }

  lemma KeyOnly(key: Value)
    ensures UnderKey(key, []).KeyBytes() == Enc(key)
  {
    hide Enc;
    assert Enc(key) + [] == Enc(key);
  }

  lemma NextElement(rules: seq<Rule>, p: bytes, path: Path, i: nat, l: int, el: nat, items: seq<Value>)
    requires Elements(p, i, false, l, el, items) && items != []
    ensures i < |p| && p[i] != BREAK_BYTE && Elements1(rules, p, path, i, false, l, el, items)
  {
    hide EndsUnderKey, Rewritten, RewrittenItems, ReadTag, HeadBytes, Enc, EncAll, Valid, ValidAll, StringAt;
    RewrittenStep(rules, path, false, items);
    KeyedFirst(false, items);
    SkipStart(Full, p, i, items);
    EncAllFirst(items);
    NotUnderKeyOfArray(path);
  }

  lemma EncAllFirst(items: seq<Value>)
    requires items != []
    ensures EncAll(items) == Enc(items[0]) + EncAll(items[1..])
  {
  }

  lemma RewrittenStep(rules: seq<Rule>, path: Path, isMap: bool, items: seq<Value>)
    ensures items == [] ==> RewrittenItems(rules, path, isMap, items) == []
    ensures isMap && |items| >= 2 ==>
              RewrittenItems(rules, path, isMap, items) ==
              Rewritten(rules, path + [Enc(items[0])], UnderKey(items[0], []), items[1])
              + RewrittenItems(rules, path, isMap, items[2..])
    ensures !isMap && items != [] ==>
              RewrittenItems(rules, path, isMap, items) ==
              Rewritten(rules, path + [ARRAY_STEP], Elsewhere, items[0])
              + RewrittenItems(rules, path, isMap, items[1..])
  {
  }

  lemma NotUnderKeyOfArray(path: Path)
    ensures !EndsUnderKey(path + [ARRAY_STEP])
  {
  }

  lemma {:induction false} KeyedFirst(isMap: bool, items: seq<Value>)
    requires KeyedAll(isMap, items)
    ensures ValidAll(Full, items)
    ensures isMap && items != [] ==> |items| >= 2 && ValidAll(Full, items[1..])
  {
    if items != [] {
      var n := if isMap then 2 else 1;
      KeyedFirst(isMap, items[n..]);
      if isMap {
        assert items[1..][1..] == items[2..];
      }
    }
  }

  /** What the next turn of the loop finds. */
  ghost predicate Elements1(rules: seq<Rule>, p: bytes, path: Path, i: nat, isMap: bool, l: int, el: nat,
                            items: seq<Value>)
  {
    var n := if isMap then 2 else 1;
    n <= |items| &&
    var v := items[n - 1];
    var j := if isMap then i + |Enc(items[0])| else i;
    var step := if isMap then Enc(items[0]) else ARRAY_STEP;
    var place := if isMap then UnderKey(items[0], []) else Elsewhere;
    && (isMap ==> j <= |p| && p[i..j] == step && ReadTag(p, i).Tag? && ReadTag(p, i).sub >= 0 && StringAt(p, i).1 == j)
    && Input(p, path + [step], if isMap then i else -1, j, place, v)
    && Elements(p, j + |Enc(v)|, isMap, l, el + 1, items[n..])
    && |EncAll(items)| == j - i + |Enc(v)| + |EncAll(items[n..])|
    && RewrittenItems(rules, path, isMap, items) ==
       Rewritten(rules, path + [step], place, v) + RewrittenItems(rules, path, isMap, items[n..])
  }

  /** A longer slice that starts with the path; for an array, with one step more. */
  ghost predicate Shares(path: Slice<bytes>, sub: Slice<bytes>, isMap: bool)
    reads path.arr, sub.arr
  {
    && path.Valid() && sub.Valid() && path.len <= sub.len && sub.arr[..path.len] == path.Elems()
    && (!isMap ==> sub.Elems() == path.Elems() + [ARRAY_STEP])
  }

  class Rewriter {
    const rule: KeyRenamer?

    ghost function Rules(): seq<Rule>
      reads this, rule
    {
      if rule == null then [] else rule.rules
    }

    ghost predicate Ready()
      reads this, rule
    {
      (rule != null ==> rule.Valid()) && RulesFit(Rules())
    }

    constructor (rule: KeyRenamer?)
      ensures this.rule == rule
    {
      this.rule := rule;
    }

    /** The key renamer's turn. `done` is false when it falls back. */
    method applyRule(b: bytes, p: bytes, path: Slice<bytes>, kst: int, st: nat, ghost place: Place, ghost v: Value)
      returns (r: bytes, i: nat, done: bool)
      requires Ready() && path.Valid() && Input(p, path.Elems(), kst, st, place, v)
      ensures done <==> Applies(Rules(), path.Elems(), place)
      ensures done ==> r == b + EncAll(Rewritten(Rules(), path.Elems(), place, v)) && i == st + |Enc(v)|
      ensures !done ==> r == b && i == st
    {
      hide Enc, EncAll, Keyed, Valid, Skip, ReadTag, HeadBytes, SemBytes, Wrap, EndsUnderKey, MinHead, KeyRenamer.Valid,
        Input, Applies, Lookup, Rewritten, NewKey, StringAt;
      NoRule(Rules(), path.Elems(), place);
      if rule == null {
        return b, st, false;
      }
      var x := rule.find(path.arr[..path.len]);
      if x.None? {
        return b, st, false;
      }
      RuleFound(Rules(), p, path.Elems(), kst, st, place, v, x.value);
      InputParts(p, path.Elems(), kst, st, place, v);
      SkipExact(Full, p, st, v);
      var end := Skip(Full, p, st).end;
      if x.value.remove {
        EncAllEmpty();
        assert b + [] == b;
        return b, end, true;
      }
      RenamedBytes(p, path.Elems(), kst, st, place, v, x.value);
      var (from, to) := StringAt(p, kst);
      var data := x.value.prefix + (if x.value.rename.Some? then x.value.rename.value else p[from..to]);
      var out := HeadBytes(Text, MinHead(|data|)) + data + p[to..st] + p[st..end];
      return b + out, end, true;
    }

    /** Rewrites one message. An empty one has no value, and a rule for the empty path would look for one. */
    method Write(p: bytes, ghost v: Value) returns (out: bytes, n: nat)
      requires Ready() && (p == [] ==> forall r <- Rules() :: r.path != [])
      requires p != [] ==> At(p, 0, Enc(v)) && Keyed(v)
      ensures p == [] ==> out == [] && n == 0
      ensures p != [] ==> out == EncAll(Rewritten(Rules(), [], Elsewhere, v)) && n == |Enc(v)|
    {
      hide Enc, EncAll, Keyed, Rewritten;
      if p == [] {
        return [], 0;
      }
      var none := new bytes[0];
      var path := Slice(none, 0);
      assert path.Elems() == [];
      ghost var all := EncAll(Rewritten(Rules(), [], Elsewhere, v));
      out, n := Rewrite([], p, path, -1, 0, Elsewhere, v);
      assert [] + all == all;
    }

    method Rewrite(b: bytes, p: bytes, path: Slice<bytes>, kst: int, st: nat, ghost place: Place, ghost v: Value)
      returns (r: bytes, i: nat)
      requires Ready() && path.Valid() && Input(p, path.Elems(), kst, st, place, v)
      modifies path.arr
      ensures path.Elems() == old(path.Elems())
      ensures r == b + EncAll(Rewritten(Rules(), path.Elems(), place, v)) && i == st + |Enc(v)|
      decreases v, 1
    {
      hide Enc, EncAll, Keyed, KeyedAll, Valid, Skip, ReadTag, HeadBytes, Rewritten, RewrittenItems, EndsUnderKey,
        Input, Elements, Applies, Lookup, FloatWidth, Place.KeyBytes, Place.Tagged, Place.WellFormed, RulesFit,
        ContainerHead, Rewriter.Ready, Rewriter.Rules;
      var done;
      r, i, done := applyRule(b, p, path, kst, st, place, v);
      if done {
        return;
      }
      ghost var here := path.Elems();
      Arrived(p, here, kst, st, place, v);
      var t := ReadTag(p, st);
      i := t.next;
      r := b;
      if kst != -1 && t.major != Semantic {
        r := r + p[kst..st];
      }
      assert r == b + if t.major == Semantic then [] else place.KeyBytes();
      if t.major == Array || t.major == Map {
        ArrivedAtContainer(p, here, kst, st, place, v);
        RewrittenContainer(Rules(), here, place, v);
        r := r + p[st..i];
        r, i := rewriteElements(r, p, path, t.major == Map, t.sub, i, v.items);
        if t.sub == -1 {
          r := r + [BREAK_BYTE];
        }
        Glue(b, place.KeyBytes(), p[st..t.next], EncAll(RewrittenItems(Rules(), here, v.isMap, v.items)),
             if t.sub == -1 then [BREAK_BYTE] else []);
        return;
      }
      if t.major == Semantic {
        ArrivedAtTag(p, here, kst, st, place, v);
        RewrittenTag(Rules(), here, place, v);
        var longer := AppendPath(path, p[st..i]);
        r, i := Rewrite(r, p, longer, kst, i, place.Tagged(v.head), v.inner);
        return;
      }
      InputParts(p, here, kst, st, place, v);
      RewrittenLeaf(Rules(), here, place, v);
      r, i := copyLeaf(r, p, st, t, v);
      Glue(b, place.KeyBytes(), Enc(v), [], []);
    }

    /** A value without values inside is copied. */
    method copyLeaf(b: bytes, p: bytes, st: nat, t: TagResult, ghost v: Value) returns (r: bytes, i: nat)
      requires At(p, st, Enc(v)) && Valid(Full, v) && (v.Num? || v.Str? || v.Simple? || v.Float?)
      requires t.Tag? && t == ReadTag(p, st)
      requires (t.major == Special <==> v.Simple? || v.Float?) && (t.major in {Bytes, Text} <==> v.Str?)
      ensures r == b + Enc(v) && i == st + |Enc(v)|
    {
      hide Enc, EncAll, Valid, Skip, ReadTag, HeadBytes, FloatWidth;
      ArrivedAtLeaf(p, st, v);
      i := t.next;
      if t.major == Special {
        var sub := p[st] % 32;
        if FLOAT8 <= sub <= FLOAT64 {
          i := i + FloatWidth(sub);
        }
      } else if t.major == Text || t.major == Bytes {
        i := Skip(Full, p, st).end;
      }
      r := b + p[st..i];
    }

    /** The loop over a container's elements; `l` is the announced number, or -1. */
    method rewriteElements(b: bytes, p: bytes, path: Slice<bytes>, isMap: bool, l: int, st: nat,
                           ghost items: seq<Value>)
      returns (r: bytes, i: nat)
      requires Ready() && path.Valid() && Elements(p, st, isMap, l, 0, items)
      modifies path.arr
      ensures path.Elems() == old(path.Elems())
      ensures r == b + EncAll(RewrittenItems(Rules(), path.Elems(), isMap, items))
      ensures i == st + |EncAll(items)| + if l == -1 then 1 else 0
      decreases items, 0
    {
      hide Enc, EncAll, Keyed, KeyedAll, Valid, Skip, ReadTag, HeadBytes, Rewritten, RewrittenItems, EndsUnderKey,
        Input, Elements, Applies, Lookup, RulesFit, Rewriter.Ready, Rewriter.Rules;
      ghost var here, out, c, rest := path.Elems(), [], 0, items;
      ghost var all := RewrittenItems(Rules(), here, isMap, items);
      var subp := path;
      if !isMap {
        subp := AppendPath(subp, ARRAY_STEP);
      }
      r, i := b, st;
      var el := 0;
      ElementsStart(items, b, all);
      while l == -1 || el < l
        invariant Shares(path, subp, isMap) && (subp.arr == path.arr || fresh(subp.arr)) && path.Elems() == here
        invariant c <= |items| && rest == items[c..]
        invariant Elements(p, i, isMap, l, el, rest)
        invariant i + |EncAll(rest)| == st + |EncAll(items)|
        invariant all == out + RewrittenItems(Rules(), here, isMap, rest)
        invariant r == b + EncAll(out)
        decreases |rest|
      {
        ElementsNext(Rules(), p, here, i, isMap, l, el, rest);
        if l == -1 && p[i] == BREAK_BYTE {
          i := i + 1;
          assert out + [] == out;
          return;
        }
        ghost var n := if isMap then 2 else 1;
        ghost var next;
        r, i, subp, next := rewriteElement(r, p, path, subp, isMap, i, l, el, rest, items[c + n - 1]);
        GlueItems(b, out, next, RewrittenItems(Rules(), here, isMap, rest[n..]), all);
        Suffix(items, c, n);
        out, rest, c := out + next, rest[n..], c + n;
        el := el + 1;
      }
      ElementsNext(Rules(), p, here, i, isMap, l, el, rest);
      assert out + [] == out;
    }

    /** One element, with its key in a map. `subp` is the path down to it; it may lie in the array of `path`. */
    method rewriteElement(b: bytes, p: bytes, path: Slice<bytes>, sub: Slice<bytes>, isMap: bool, st: nat,
                          ghost l: int, ghost el: nat, ghost items: seq<Value>, ghost v: Value)
      returns (r: bytes, i: nat, subp: Slice<bytes>, ghost next: seq<Value>)
      requires Ready() && path.Valid() && Shares(path, sub, isMap)
      requires Elements1(Rules(), p, path.Elems(), st, isMap, l, el, items) && v == items[if isMap then 1 else 0]
      modifies sub.arr
      ensures path.Elems() == old(path.Elems()) && Shares(path, subp, isMap) && (subp.arr == sub.arr || fresh(subp.arr))
      ensures var rest := items[if isMap then 2 else 1..];
              && Elements(p, i, isMap, l, el + 1, rest) && i + |EncAll(rest)| == st + |EncAll(items)|
              && RewrittenItems(Rules(), path.Elems(), isMap, items) ==
                 next + RewrittenItems(Rules(), path.Elems(), isMap, rest)
      ensures r == b + EncAll(next)
      decreases v, 2
    {
      hide Enc, EncAll, Keyed, KeyedAll, Valid, Skip, ReadTag, HeadBytes, Rewritten, RewrittenItems, EndsUnderKey,
        Input, Elements, Applies, Lookup, RulesFit, Rewriter.Ready, Rewriter.Rules;
      ghost var here := path.Elems();
      ghost var step := if isMap then Enc(items[0]) else ARRAY_STEP;
      ghost var place := if isMap then UnderKey(items[0], []) else Elsewhere;
      var kst := -1;
      i, subp := st, sub;
      if isMap {
        kst := i;
        i := StringAt(p, i).1;
        subp := AppendPath(Slice(subp.arr, path.len), p[kst..i]);
      }
      assert subp.Elems() == here + [step];
      next := Rewritten(Rules(), here + [step], place, v);
      r, i := Rewrite(b, p, subp, kst, i, place, v);
      assert subp.arr[..path.len] == subp.Elems()[..path.len] == here;
    }
  }
}
