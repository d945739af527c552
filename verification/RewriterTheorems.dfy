/** What rewriting means: identity without rules, the effect of a rule, well-formedness of the result. */
module RewriterTheorems {
  import opened Wire
  import opened Framing
  import opened Rules
  import opened Rewriting
  import FormatTables

  // ----- identity -----

  /** Every semantic tag sits under a map key (or under another tag that does). */
  ghost predicate TagsUnderKeys(underKey: bool, v: Value)
    decreases v, 1
  {
    match v
    case Sem(_, inner) => underKey && TagsUnderKeys(underKey, inner)
    case Closed(isMap, _, items) => TagsUnderKeysAll(isMap, items)
    case Open(isMap, items) => TagsUnderKeysAll(isMap, items)
    case _ => true
  }

  ghost predicate TagsUnderKeysAll(isMap: bool, items: seq<Value>)
    decreases items, 0
  {
    if items == [] || (isMap && |items| == 1) then true
    else if isMap then TagsUnderKeys(true, items[1]) && TagsUnderKeysAll(isMap, items[2..])
    else TagsUnderKeys(false, items[0]) && TagsUnderKeysAll(isMap, items[1..])
  }

  /** No path met on the way through the value has a rule. */
  ghost predicate Untouched(rules: seq<Rule>, path: Path, v: Value)
    decreases v, 1
  {
    Lookup(rules, path).None? &&
    match v
    case Sem(h, inner) => Untouched(rules, path + [HeadBytes(Semantic, h)], inner)
    case Closed(isMap, _, items) => UntouchedAll(rules, path, isMap, items)
    case Open(isMap, items) => UntouchedAll(rules, path, isMap, items)
    case _ => true
  }

  ghost predicate UntouchedAll(rules: seq<Rule>, path: Path, isMap: bool, items: seq<Value>)
    decreases items, 0
  {
    if items == [] || (isMap && |items| == 1) then true
    else if isMap then
      Untouched(rules, path + [Enc(items[0])], items[1]) && UntouchedAll(rules, path, isMap, items[2..])
    else Untouched(rules, path + [ARRAY_STEP], items[0]) && UntouchedAll(rules, path, isMap, items[1..])
  }

  lemma {:induction false} NoRulesUntouched(path: Path, v: Value)
    ensures Untouched([], path, v)
    decreases v, 1
  {
    match v
    case Sem(h, inner) => NoRulesUntouched(path + [HeadBytes(Semantic, h)], inner);
    case Closed(isMap, _, items) => NoRulesUntouchedAll(path, isMap, items);
    case Open(isMap, items) => NoRulesUntouchedAll(path, isMap, items);
    case _ =>
  }

  lemma {:induction false} NoRulesUntouchedAll(path: Path, isMap: bool, items: seq<Value>)
    ensures UntouchedAll([], path, isMap, items)
    decreases items, 0
  {
    if items == [] || (isMap && |items| == 1) {
    } else if isMap {
      NoRulesUntouched(path + [Enc(items[0])], items[1]);
      NoRulesUntouchedAll(path, isMap, items[2..]);
    } else {
      NoRulesUntouched(path + [ARRAY_STEP], items[0]);
      NoRulesUntouchedAll(path, isMap, items[1..]);
    }
  }

  lemma {:induction false} WrapAppend(sems: seq<Head>, h: Head, v: Value)
    ensures Wrap(sems + [h], v) == Wrap(sems, Sem(h, v))
  {
    if sems == [] {
      assert [] + [h] == [h] && [h][1..] == [];
    } else {
      assert (sems + [h])[1..] == sems[1..] + [h];
      WrapAppend(sems[1..], h, v);
    }
  }

  /** Where no rule applies a value comes out as it was if its tags are all under keys, and shorter otherwise. */
  lemma {:induction false} UntouchedValue(rules: seq<Rule>, path: Path, place: Place, v: Value)
    requires Untouched(rules, path, v) && Keyed(v)
    ensures TagsUnderKeys(place.UnderKey?, v) ==> Rewritten(rules, path, place, v) == place.Emit(v)
    ensures !TagsUnderKeys(place.UnderKey?, v) ==>
              |EncAll(Rewritten(rules, path, place, v))| < |EncAll(place.Emit(v))|
    decreases v, 1
  {
    hide Enc, EncAll, Lookup, Wrap, HeadBytes, Place.KeyBytes;
    EmitBytes(place, v);
    match v
    case Sem(h, inner) =>
      RewrittenTag(rules, path, place, v);
      UntouchedValue(rules, path + [HeadBytes(Semantic, h)], place.Tagged(h), inner);
      EmitBytes(place.Tagged(h), inner);
      EncSem(v);
      if place.UnderKey? {
        WrapAppend(place.sems, h, inner);
      }
    case Closed(isMap, h, items) =>
      UntouchedItems(rules, path, isMap, items);
      RewrittenContainer(rules, path, place, v);
      EncContainer(v);
    case Open(isMap, items) =>
      UntouchedItems(rules, path, isMap, items);
      RewrittenContainer(rules, path, place, v);
      EncContainer(v);
    case _ =>
  }

  lemma EncSem(v: Value)
    requires v.Sem?
    ensures |Enc(v)| > |Enc(v.inner)| && Enc(v) == HeadBytes(Semantic, v.head) + Enc(v.inner)
  {
  }

  lemma EncContainer(v: Value)
    requires v.Closed? || v.Open?
    ensures Enc(v) == ContainerHead(v) + EncAll(v.items) + (if v.Open? then [BREAK_BYTE] else [])
  {
  }

  lemma {:induction false} UntouchedItems(rules: seq<Rule>, path: Path, isMap: bool, items: seq<Value>)
    requires UntouchedAll(rules, path, isMap, items) && KeyedAll(isMap, items)
    ensures TagsUnderKeysAll(isMap, items) ==> RewrittenItems(rules, path, isMap, items) == items
    ensures !TagsUnderKeysAll(isMap, items) ==> |EncAll(RewrittenItems(rules, path, isMap, items))| < |EncAll(items)|
    decreases items, 0
  {
    hide Enc, EncAll, Lookup, HeadBytes, Rewritten, RewrittenItems;
    RewrittenStep(rules, path, isMap, items);
    if items != [] {
      var n := if isMap then 2 else 1;
      var place := if isMap then UnderKey(items[0], []) else Elsewhere;
      var step := if isMap then Enc(items[0]) else ARRAY_STEP;
      var first := Rewritten(rules, path + [step], place, items[n - 1]);
      UntouchedValue(rules, path + [step], place, items[n - 1]);
      UntouchedItems(rules, path, isMap, items[n..]);
      assert items == items[..n] + items[n..];
      assert items[..n] == place.Emit(items[n - 1]);
      EncAllConcat(items[..n], items[n..]);
      EncAllConcat(first, RewrittenItems(rules, path, isMap, items[n..]));
    }
  }

  /** Without rules the rewriter copies a message if and only if all its semantic tags sit under map keys. */
  lemma IdentityWithoutRules(v: Value)
    requires Keyed(v)
    ensures EncAll(Rewritten([], [], Elsewhere, v)) == Enc(v) <==> TagsUnderKeys(false, v)
  {
    NoRulesUntouched([], v);
    UntouchedValue([], [], Elsewhere, v);
    EncAllOne(v);
  }

  /** A tag inside an array is dropped. */
  lemma TagInArrayIsDropped()
    ensures var v := Closed(false, Head(W0, 1), [Sem(Head(W0, 3), Num(false, Head(W0, 5)))]);
            Keyed(v) && !TagsUnderKeys(false, v) && EncAll(Rewritten([], [], Elsewhere, v)) == [129, 5]
  {
    var five := Num(false, Head(W0, 5));
    var v := Closed(false, Head(W0, 1), [Sem(Head(W0, 3), five)]);
    assert Keyed(v.items[0]) && KeyedAll(false, v.items) && ValidAll(Full, v.items);
    RewrittenTag([], [ARRAY_STEP], Elsewhere, v.items[0]);
    RewrittenStep([], [], false, v.items);
    assert v.items[1..] == [] && [] + [ARRAY_STEP] == [ARRAY_STEP];
    assert RewrittenItems([], [], false, v.items) == [five];
    assert Rewritten([], [], Elsewhere, v) == [Closed(false, Head(W0, 1), [five])];
    EncAllOne(five);
    EncAllOne(Closed(false, Head(W0, 1), [five]));
  }

  // ----- the effect of a rule -----

  /** The path to a value `n` tags below the key. */
  function PathDown(path: Path, sems: seq<Head>, n: nat): Path
    requires n <= |sems|
  {
    path + seq(n, i requires 0 <= i < n => HeadBytes(Semantic, sems[i]))
  }

  /** The value under `n` of its tags. */
  function Below(path: Path, place: Place, sems: seq<Head>, core: Value, n: nat): (Path, Place, Value)
    requires n <= |sems|
  {
    (PathDown(path, sems, n),
     if place.UnderKey? then UnderKey(place.key, place.sems + sems[..n]) else place,
     Wrap(sems[n..], core))
  }

  lemma {:induction false} DownTheTags(rules: seq<Rule>, path: Path, place: Place, sems: seq<Head>, core: Value, n: nat)
    requires n <= |sems|
    requires forall k | 0 <= k < n :: Lookup(rules, PathDown(path, sems, k)).None?
    ensures var (p, pl, v) := Below(path, place, sems, core, n);
            Rewritten(rules, path, place, Wrap(sems, core)) == Rewritten(rules, p, pl, v)
    decreases n
  {
    hide Lookup, HeadBytes, Rewritten;
    if n == 0 {
      assert PathDown(path, sems, 0) == path && sems[..0] == [] && sems[0..] == sems;
      assert place.UnderKey? ==> place.sems + [] == place.sems;
    } else {
      DownTheTags(rules, path, place, sems, core, n - 1);
      var (p, pl, v) := Below(path, place, sems, core, n - 1);
      assert sems[n - 1..][1..] == sems[n..];
      assert p + [HeadBytes(Semantic, sems[n - 1])] == PathDown(path, sems, n);
      assert sems[..n] == sems[..n - 1] + [sems[n - 1]];
      assert place.UnderKey? ==> place.sems + sems[..n] == place.sems + sems[..n - 1] + [sems[n - 1]];
      RewrittenTag(rules, p, pl, v);
    }
  }

  lemma {:induction false} WrapConcat(xs: seq<Head>, ys: seq<Head>, v: Value)
    ensures Wrap(xs, Wrap(ys, v)) == Wrap(xs + ys, v)
  {
    if xs == [] {
      assert [] + ys == ys;
    } else {
      assert (xs + ys)[1..] == xs[1..] + ys;
      WrapConcat(xs[1..], ys, v);
    }
  }

  /** A map entry `key: tags(core)`. The first rule met below the key decides: the entry goes, or its key
      changes and the value stays whole, tags included. */
  lemma EntryWithRule(rules: seq<Rule>, path: Path, key: Value, sems: seq<Head>, core: Value, n: nat)
    requires n <= |sems|
    requires forall k | 0 <= k < n :: Lookup(rules, PathDown(path + [Enc(key)], sems, k)).None?
    requires Lookup(rules, PathDown(path + [Enc(key)], sems, n)).Some?
    ensures var r := Lookup(rules, PathDown(path + [Enc(key)], sems, n)).value;
            Rewritten(rules, path + [Enc(key)], UnderKey(key, []), Wrap(sems, core)) ==
            if r.remove then [] else [NewKey(r, key), Wrap(sems, core)]
  {
    hide Lookup, Enc, HeadBytes;
    DownTheTags(rules, path + [Enc(key)], UnderKey(key, []), sems, core, n);
    WrapConcat(sems[..n], sems[n..], core);
    assert [] + sems[..n] == sems[..n] && sems[..n] + sems[n..] == sems;
  }

  /** With no rule anywhere below the key, the key and the tags stay and only what is inside the core changes. */
  lemma EntryWithoutRule(rules: seq<Rule>, path: Path, key: Value, sems: seq<Head>, core: Value)
    requires !core.Sem?
    requires forall k | 0 <= k <= |sems| :: Lookup(rules, PathDown(path + [Enc(key)], sems, k)).None?
    ensures var inside := PathDown(path + [Enc(key)], sems, |sems|);
            Rewritten(rules, path + [Enc(key)], UnderKey(key, []), Wrap(sems, core)) ==
            [key, Wrap(sems,
               if core.Closed? then Closed(core.isMap, core.head, RewrittenItems(rules, inside, core.isMap, core.items))
               else if core.Open? then Open(core.isMap, RewrittenItems(rules, inside, core.isMap, core.items))
               else core)]
  {
    hide Lookup, Enc, HeadBytes, RewrittenItems;
    DownTheTags(rules, path + [Enc(key)], UnderKey(key, []), sems, core, |sems|);
    assert [] + sems[..|sems|] == sems && sems[|sems|..] == [];
  }

  /** The order in which distinct rules were added does not matter. */
  lemma {:induction false} RuleOrderIrrelevant(rules: seq<Rule>, others: seq<Rule>, path: Path, place: Place, v: Value)
    requires Distinct(rules) && multiset(rules) == multiset(others)
    ensures Rewritten(rules, path, place, v) == Rewritten(others, path, place, v)
    decreases v, 1
  {
    LookupPermuted(rules, others, path);
    match v
    case Sem(h, inner) => RuleOrderIrrelevant(rules, others, path + [HeadBytes(Semantic, h)], place.Tagged(h), inner);
    case Closed(isMap, _, items) => RuleOrderIrrelevantAll(rules, others, path, isMap, items);
    case Open(isMap, items) => RuleOrderIrrelevantAll(rules, others, path, isMap, items);
    case _ =>
  }

  lemma {:induction false} RuleOrderIrrelevantAll(rules: seq<Rule>, others: seq<Rule>, path: Path,
                                                  isMap: bool, items: seq<Value>)
    requires Distinct(rules) && multiset(rules) == multiset(others)
    ensures RewrittenItems(rules, path, isMap, items) == RewrittenItems(others, path, isMap, items)
    decreases items, 0
  {
    if items == [] || (isMap && |items| == 1) {
    } else if isMap {
      RuleOrderIrrelevant(rules, others, path + [Enc(items[0])], UnderKey(items[0], []), items[1]);
      RuleOrderIrrelevantAll(rules, others, path, isMap, items[2..]);
    } else {
      RuleOrderIrrelevant(rules, others, path + [ARRAY_STEP], Elsewhere, items[0]);
      RuleOrderIrrelevantAll(rules, others, path, isMap, items[1..]);
    }
  }

  // ----- well-formedness of the result -----

  /** The first rule met on the way down a value's tags removes the value. */
  predicate Removed(rules: seq<Rule>, path: Path, place: Place, v: Value)
    decreases v
  {
    if Applies(rules, path, place) then Lookup(rules, path).value.remove
    else v.Sem? && Removed(rules, path + [HeadBytes(Semantic, v.head)], place.Tagged(v.head), v.inner)
  }

  lemma {:induction false} RemovedIsGone(rules: seq<Rule>, path: Path, place: Place, v: Value)
    ensures Rewritten(rules, path, place, v) == [] <==> Removed(rules, path, place, v)
    decreases v
  {
    hide Lookup, HeadBytes, RewrittenItems;
    if v.Sem? {
      RemovedIsGone(rules, path + [HeadBytes(Semantic, v.head)], place.Tagged(v.head), v.inner);
    }
  }

  /** Wherever a rule renames a key, the new key is not longer than a head can say; and no entry is removed directly
      from a container of definite length. */
  ghost predicate Keeps(rules: seq<Rule>, path: Path, place: Place, v: Value)
    decreases v, 1
  {
    if Applies(rules, path, place) then
      var r := Lookup(rules, path).value;
      r.remove || |NewKey(r, place.key).data| <= MAX_INT
    else match v
      case Sem(h, inner) => Keeps(rules, path + [HeadBytes(Semantic, h)], place.Tagged(h), inner)
      case Closed(isMap, _, items) => KeepsAll(rules, path, isMap, true, items)
      case Open(isMap, items) => KeepsAll(rules, path, isMap, false, items)
      case _ => true
  }

  ghost predicate KeepsAll(rules: seq<Rule>, path: Path, isMap: bool, closed: bool, items: seq<Value>)
    decreases items, 0
  {
    if items == [] || (isMap && |items| == 1) then true
    else
      var n := if isMap then 2 else 1;
      var place := if isMap then UnderKey(items[0], []) else Elsewhere;
      var step := if isMap then Enc(items[0]) else ARRAY_STEP;
      && Keeps(rules, path + [step], place, items[n - 1])
      && (closed ==> !Removed(rules, path + [step], place, items[n - 1]))
      && KeepsAll(rules, path, isMap, closed, items[n..])
  }

  lemma {:induction false} WrapKeyed(sems: seq<Head>, v: Value)
    requires forall h <- sems :: ValidHead(h)
    ensures Keyed(Wrap(sems, v)) <==> Keyed(v)
  {
    if sems != [] {
      WrapKeyed(sems[1..], v);
    }
  }

  /** What comes out of a place: nothing, a value, or a key and a value. */
  ghost predicate WellFormedAt(place: Place, out: seq<Value>) {
    || out == []
    || (place.Elsewhere? && |out| == 1 && Keyed(out[0]))
    || (place.UnderKey? && |out| == 2 && out[0].Str? && Valid(Full, out[0]) && Keyed(out[1]))
  }

  /** For every set of rules, the result is well formed exactly when new keys fit and nothing was removed from a
      container of definite length, whose announced length stays as it was. */
  lemma {:induction false} ResultWellFormed(rules: seq<Rule>, path: Path, place: Place, v: Value)
    requires Keyed(v) && place.WellFormed()
    ensures |Rewritten(rules, path, place, v)| in {0, if place.UnderKey? then 2 else 1}
    ensures WellFormedAt(place, Rewritten(rules, path, place, v)) <==> Keeps(rules, path, place, v)
    decreases v, 1
  {
    hide Enc, Lookup, HeadBytes, RewrittenItems, KeepsAll;
    if Applies(rules, path, place) {
      RuleResult(rules, path, place, v);
    } else {
      match v
      case Sem(h, inner) =>
        ResultWellFormed(rules, path + [HeadBytes(Semantic, h)], place.Tagged(h), inner);
      case Closed(isMap, h, items) =>
        ItemsWellFormed(rules, path, isMap, items);
        var w := Closed(isMap, h, RewrittenItems(rules, path, isMap, items));
        if KeyedAll(isMap, w.items) { KeyedFirst(isMap, w.items); }
        if place.UnderKey? { WrapKeyed(place.sems, w); }
      case Open(isMap, items) =>
        ItemsWellFormed(rules, path, isMap, items);
        var w := Open(isMap, RewrittenItems(rules, path, isMap, items));
        if KeyedAll(isMap, w.items) { KeyedFirst(isMap, w.items); }
        if place.UnderKey? { WrapKeyed(place.sems, w); }
      case _ =>
        if place.UnderKey? { WrapKeyed(place.sems, v); }
    }
  }

  lemma RuleResult(rules: seq<Rule>, path: Path, place: Place, v: Value)
    requires Keyed(v) && place.WellFormed() && Applies(rules, path, place)
    ensures WellFormedAt(place, Rewritten(rules, path, place, v)) <==> Keeps(rules, path, place, v)
    ensures |Rewritten(rules, path, place, v)| in {0, if place.UnderKey? then 2 else 1}
  {
    hide Lookup, Keyed;
    var r := Lookup(rules, path).value;
    if !r.remove {
      WrapKeyed(place.sems, v);
      var k := NewKey(r, place.key);
      if |k.data| <= MAX_INT {
        MinHeadValid(|k.data|);
      }
      assert Valid(Full, k) <==> |k.data| <= MAX_INT;
      assert Rewritten(rules, path, place, v) == [k, Wrap(place.sems, v)];
    }
  }

  lemma {:induction false} ItemsWellFormed(rules: seq<Rule>, path: Path, isMap: bool, items: seq<Value>)
    requires KeyedAll(isMap, items)
    ensures var out := RewrittenItems(rules, path, isMap, items);
            && |out| <= |items| && (isMap ==> |out| % 2 == 0)
            && (KeyedAll(isMap, out) <==> KeepsAll(rules, path, isMap, false, items))
            && (KeyedAll(isMap, out) && |out| == |items| <==> KeepsAll(rules, path, isMap, true, items))
    decreases items, 0
  {
    hide Enc, Lookup, Rewritten, RewrittenItems, Valid, Keeps, Removed;
    RewrittenStep(rules, path, isMap, items);
    if items != [] {
      var n := if isMap then 2 else 1;
      var place := if isMap then UnderKey(items[0], []) else Elsewhere;
      var step := if isMap then Enc(items[0]) else ARRAY_STEP;
      var first := Rewritten(rules, path + [step], place, items[n - 1]);
      var rest := RewrittenItems(rules, path, isMap, items[n..]);
      ResultWellFormed(rules, path + [step], place, items[n - 1]);
      RemovedIsGone(rules, path + [step], place, items[n - 1]);
      ItemsWellFormed(rules, path, isMap, items[n..]);
      if first == [] {
        assert [] + rest == rest;
      } else {
        assert (first + rest)[n..] == rest;
      }
    }
  }

  /** A map that announces one entry, which a rule removes: the head still announces one, and a reader asks for more. */
  lemma RemovalBreaksCount(key: Value, value: Value)
    requires key.Str? && Valid(Full, key) && Keyed(value)
    ensures var rules := [Rule([Enc(key)], None, [], true)];
            var v := Closed(true, Head(W0, 1), [key, value]);
            && Keyed(v) && Rewritten(rules, [], Elsewhere, v) == [Closed(true, Head(W0, 1), [])]
            && !Keeps(rules, [], Elsewhere, v) && !WellFormedAt(Elsewhere, Rewritten(rules, [], Elsewhere, v))
            && Skip(Full, EncAll(Rewritten(rules, [], Elsewhere, v)), 0) == UnexpectedEOF
  {
    hide Enc;
    var rules := [Rule([Enc(key)], None, [], true)];
    var items := [key, value];
    var v := Closed(true, Head(W0, 1), items);
    assert items[1..] == [value] && items[2..] == [] && [value][1..] == [];
    ValidPair(Full, key, value);
    assert KeyedAll(true, items[2..]) && KeyedAll(true, items);
    assert Valid(Full, v) && Keyed(v);
    RewrittenStep(rules, [], true, items);
    assert [] + [Enc(key)] == [Enc(key)] && Lookup(rules, []) == None && Lookup(rules, [Enc(key)]) == Some(rules[0]);
    assert RewrittenItems(rules, [], true, []) == [];
    assert RewrittenItems(rules, [], true, items) == [];
    ResultWellFormed(rules, [], Elsewhere, v);
    EmptyOfOne();
  }

  lemma EmptyOfOne()
    ensures EncAll([Closed(true, Head(W0, 1), [])]) == [0xA1] && Skip(Full, [0xA1], 0) == UnexpectedEOF
    ensures !Keyed(Closed(true, Head(W0, 1), []))
  {
    var w := Closed(true, Head(W0, 1), []);
    EncAllOne(w);
    assert Enc(w) == HeadBytes(Map, Head(W0, 1)) + EncAll([]) == [0xA1];
    var b: bytes := [0xA1];
    assert ReadTag(b, 0) == Tag(Map, 1, 1);
  }

  // ----- what is copied and what is written, in bytes -----

  /** A float is copied with its whole payload, of one byte, two, four or eight, and nothing behind it. */
  method CopyFloat(w: Rewriter, c: byte, payload: bytes, rest: bytes) returns (out: bytes, n: nat)
    requires (c, |payload|) in [(0xF8, 1), (0xF9, 2), (0xFA, 4), (0xFB, 8)]
    requires w.Ready() && forall r <- w.Rules() :: r.path != []
    ensures out == [c] + payload && n == 1 + |payload|
  {
    hide Enc, EncAll, Keyed, Valid, Skip;
    ghost var v := Float(c - 224, payload);
    FormatTables.FloatEnds(Full, c, payload, rest);
    Assoc([c], payload, rest);
    LeafKeyed(v);
    out, n := w.Write([c] + payload + rest, v);
    NoRuleHere(w.Rules(), v);
  }

  lemma LeafKeyed(v: Value)
    requires (v.Num? || v.Str? || v.Simple? || v.Float?) && Valid(Full, v)
    ensures Keyed(v)
  {
  }

  /** Outside containers, a leaf that has no rule for the empty path stays as it is. */
  lemma NoRuleHere(rules: seq<Rule>, v: Value)
    requires (v.Num? || v.Str? || v.Simple? || v.Float?) && forall r <- rules :: r.path != []
    ensures EncAll(Rewritten(rules, [], Elsewhere, v)) == Enc(v)
  {
    hide Enc, EncAll;
    EncAllOne(v);
  }

  /** The step into an array is the byte 0x80: a rule for it takes all the elements. */
  lemma {:induction false} RuleUnderArray(items: seq<Value>)
    ensures RewrittenItems([Rule([[0x80]], None, [], true)], [], false, items) == []
    decreases items
  {
    var rules := [Rule([[0x80]], None, [], true)];
    RewrittenStep(rules, [], false, items);
    if items != [] {
      assert [] + [ARRAY_STEP] == [[0x80]] && Lookup(rules, [[0x80]]) == Some(rules[0]);
      RuleUnderArray(items[1..]);
    }
  }

  /** A renamed entry in bytes: a text of the rule's prefix and its new name, or else the old one, then the value. */
  lemma RenamedEntry(rule: Rule, key: Value, v: Value)
    requires key.Str? && rule.path == [Enc(key)] && !rule.remove
    requires |rule.prefix| + (if rule.rename.Some? then |rule.rename.value| else |key.data|) < 24
    ensures var name := rule.prefix + (if rule.rename.Some? then rule.rename.value else key.data);
            EncAll(RewrittenItems([rule], [], true, [key, v])) == [0x60 + |name|] + name + Enc(v)
  {
    hide Enc, EncAll, MinHead;
    var name := rule.prefix + (if rule.rename.Some? then rule.rename.value else key.data);
    RewrittenStep([rule], [], true, [key, v]);
    assert [] + [Enc(key)] == rule.path && [key, v][2..] == [];
    assert RewrittenItems([rule], [], true, []) == [];
    assert RewrittenItems([rule], [], true, [key, v]) == [TextTree(name), v];
    EncPair(TextTree(name), v);
    FormatTables.ValuesWritten(0, name, [], v);
  }
}
