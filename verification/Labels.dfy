/** Labels: key-value pairs whose values carry the label tag, made from plain pairs by a shift inside one buffer. */
module Labels {
  import opened Wire
  import opened Decodable
  import opened Framing
  import opened Events

  const LABEL_HEAD := Head(W0, WIRE_LABEL)
  const LABEL_BYTE: byte := 202

  /** The value with the label tag, which it may have already. */
  function Labelled(v: Value): Value {
    if IsLabelled(v) then v else Sem(LABEL_HEAD, v)
  }

  predicate IsLabelled(v: Value) {
    v.Sem? && v.head == LABEL_HEAD
  }

  function LabelledAll(items: seq<Value>): seq<Value> {
    if |items| < 2 then [] else [items[0], Labelled(items[1])] + LabelledAll(items[2..])
  }

  /** How many values need the tag. */
  function Missing(items: seq<Value>): nat {
    if |items| < 2 then 0 else (if IsLabelled(items[1]) then 0 else 1) + Missing(items[2..])
  }

  /** The tag is one byte, and a value starts with that byte exactly when it has the tag. */
  lemma LabelByte(g: Grammar, v: Value)
    requires Valid(g, v)
    ensures Enc(v)[0] == LABEL_BYTE <==> IsLabelled(v)
    ensures Enc(Sem(LABEL_HEAD, v)) == [LABEL_BYTE] + Enc(v)
  {
    LabelHeadByte(LABEL_HEAD);
    Split(g, v);
    if v.Sem? {
      LabelHeadByte(v.head);
    }
  }

  lemma LabelHeadByte(h: Head)
    requires ValidHead(h)
    ensures HeadBytes(Semantic, h)[0] == LABEL_BYTE <==> h == LABEL_HEAD
    ensures HeadBytes(Semantic, LABEL_HEAD) == [LABEL_BYTE]
  {
    HeadFirstByte(Semantic, h);
  }

  /** Doing it twice is doing it once. */
  lemma {:induction false} LabelledTwice(items: seq<Value>)
    ensures LabelledAll(LabelledAll(items)) == LabelledAll(items) && Missing(LabelledAll(items)) == 0
  {
    if |items| >= 2 {
      LabelledTwice(items[2..]);
      var l := LabelledAll(items);
      assert l == [items[0], Labelled(items[1])] + LabelledAll(items[2..]);
      assert l[2..] == LabelledAll(items[2..]);
    }
  }

  /** A range of the buffer copied towards its start, as `copy` does it. */
  method moveDown(buf: array<byte>, w: nat, r: nat, end: nat)
    requires w <= r <= end <= buf.Length
    modifies buf
    ensures buf[..w] == old(buf[..w])
    ensures buf[w..w + end - r] == old(buf[r..end])
    ensures buf[..w + end - r] == old(buf[..w]) + old(buf[r..end])
    ensures buf[end..] == old(buf[end..])
  {
    var k := 0;
    while k < end - r
      invariant 0 <= k <= end - r
      invariant buf[..w] == old(buf[..w]) && buf[w..w + k] == old(buf[r..r + k]) && buf[r + k..] == old(buf[r + k..])
    {
      ghost var x := buf[r + k];
      assert x == old(buf[r + k..])[0] == old(buf[r + k]);
      buf[w + k] := buf[r + k];
      assert buf[w..w + k + 1] == buf[w..w + k] + [x] == old(buf[r..r + k + 1]);
      assert buf[r + k + 1..] == buf[r + k..][1..];
      k := k + 1;
    }
    assert buf[..w + end - r] == buf[..w] + buf[w..w + end - r];
  }

  /** Moves the value that starts at `r0` down to `w0`. */
  method moveValue(buf: array<byte>, w0: nat, r0: nat, ghost v: Value, ghost more: bytes) returns (w: nat, r: nat)
    requires w0 <= r0 <= buf.Length && Valid(Full, v) && buf[r0..] == Enc(v) + more
    modifies buf
    ensures w == w0 + |Enc(v)| && r == r0 + |Enc(v)| <= buf.Length
    ensures buf[..w] == old(buf[..w0]) + Enc(v) && buf[r..] == more
  {
    hide Enc, Valid, Skip;
    AtStart(Full, buf[..], r0, v, more);
    var end := Skip(Full, buf[..], r0).end;
    assert buf[r0..end] == Enc(v) && buf[end..] == more;
    moveDown(buf, w0, r0, end);
    return w0 + (end - r0), end;
  }

  /** One turn of the shift: the key, then the tag if the value has none, then the value. */
  method movePair(buf: array<byte>, w0: nat, r0: nat, ghost key: Value, ghost v: Value, ghost more: bytes)
    returns (w: nat, r: nat, overrun: bool)
    requires w0 <= r0 <= buf.Length && Valid(Full, key) && Valid(Full, v) && buf[r0..] == Enc(key) + (Enc(v) + more)
    modifies buf
    ensures overrun <==> w0 == r0 && !IsLabelled(v)
    ensures !overrun ==>
              && w <= r <= buf.Length && buf[r..] == more
              && buf[..w] == old(buf[..w0]) + Enc(key) + (if IsLabelled(v) then [] else [LABEL_BYTE]) + Enc(v)
              && r - w == r0 - w0 - (if IsLabelled(v) then 0 else 1)
  {
    hide Enc, Valid, Skip, IsLabelled;
    overrun := false;
    w, r := moveValue(buf, w0, r0, key, Enc(v) + more);
    ghost var placed := buf[..w];
    AtStart(Full, buf[..], r, v, more);
    LabelByte(Full, v);
    if buf[r] != LABEL_BYTE {
      if w == r {
        return w, r, true;
      }
      buf[w] := LABEL_BYTE;
      w := w + 1;
      assert buf[..w] == placed + [LABEL_BYTE];
      assert buf[r..] == Enc(v) + more;
    } else {
      assert placed + [] == placed;
    }
    w, r := moveValue(buf, w, r, v, more);
  }

  /** Appends the labels for `kvs` to `b`. The plain pairs are first written behind a gap of one byte for every
      two arguments and one more; then they are moved down, the tags eating up the gap. `overrun` says that the gap
      was not enough: the next tag would fall on the first byte of a value that has not been moved. */
  method AppendLabels(fmt: Formatter, b: bytes, kvs: seq<Arg>) returns (out: bytes, overrun: bool)
    requires ValidAll(Full, Items(fmt, kvs)) && |Items(fmt, kvs)| % 2 == 0
    ensures overrun <==> Missing(Items(fmt, kvs)) > |kvs| / 2 + 1
    ensures !overrun ==> out == b + EncAll(LabelledAll(Items(fmt, kvs)))
  {
    hide Enc, EncAll, Valid, Items, Skip;
    ghost var items := Items(fmt, kvs);
    var w := |b|;
    var gap := seq(|kvs| / 2 + 1, _ => 32);
    var r := |b| + |gap|;
    var all := appendKVs(fmt, b + gap, kvs);
    var buf := new byte[|all|](i requires 0 <= i < |all| => all[i]);
    assert buf[..] == all && buf[..w] == b && buf[r..] == EncAll(items);
    ghost var rest, done := items, [];
    ShiftStart(b, items);
    while r < buf.Length
      invariant |b| <= w <= r <= buf.Length
      invariant buf[..w] == b + EncAll(done) && buf[r..] == EncAll(rest)
      invariant ValidAll(Full, rest) && |rest| % 2 == 0
      invariant LabelledAll(items) == done + LabelledAll(rest)
      invariant r - w + Missing(items) == |kvs| / 2 + 1 + Missing(rest)
      decreases |rest|
    {
      ghost var key, v, more := rest[0], rest[1], rest[2..];
      NextPair(buf[..], r, rest);
      PairDone(b, done, key, v, more);
      w, r, overrun := movePair(buf, w, r, key, v, EncAll(more));
      if overrun {
        return [], true;
      }
      done := done + [key, Labelled(v)];
      rest := more;
    }
    NothingLeft(rest);
    assert done + [] == done;
    return buf[..w], false;
  }

  lemma ShiftStart(b: bytes, items: seq<Value>)
    ensures b + EncAll([]) == b && [] + LabelledAll(items) == LabelledAll(items)
  {
  }

  lemma NothingLeft(rest: seq<Value>)
    requires EncAll(rest) == []
    ensures rest == [] && LabelledAll(rest) == [] && Missing(rest) == 0
  {
    NotNothing(rest);
  }

  lemma NotNothing(rest: seq<Value>)
    ensures EncAll(rest) == [] <==> rest == []
  {
  }

  lemma AtStart(g: Grammar, buf: bytes, r: nat, v: Value, more: bytes)
    requires Valid(g, v) && r <= |buf| && buf[r..] == Enc(v) + more
    ensures Skip(g, buf, r) == End(r + |Enc(v)|) && r + |Enc(v)| <= |buf|
    ensures buf[r..r + |Enc(v)|] == Enc(v) && buf[r + |Enc(v)|..] == more && buf[r] == Enc(v)[0]
  {
    var e := Enc(v);
    assert buf[r..r + |e|] == buf[r..][..|e|] == e;
    assert buf[r + |e|..] == buf[r..][|e|..] == more;
    assert buf[r] == buf[r..][0];
    SkipExact(g, buf, r, v);
  }

  lemma NextPair(buf: bytes, r: nat, rest: seq<Value>)
    requires ValidAll(Full, rest) && |rest| % 2 == 0 && r < |buf| && buf[r..] == EncAll(rest)
    ensures |rest| >= 2 && Valid(Full, rest[0]) && Valid(Full, rest[1]) && ValidAll(Full, rest[2..])
            && |rest[2..]| % 2 == 0
    ensures buf[r..] == Enc(rest[0]) + (Enc(rest[1]) + EncAll(rest[2..]))
  {
    NotNothing(rest);
    assert buf[r..] != [];
    assert rest[1..][1..] == rest[2..];
  }

  lemma PairDone(b: bytes, done: seq<Value>, key: Value, v: Value, more: seq<Value>)
    requires Valid(Full, v)
    ensures b + EncAll(done) + Enc(key) + (if IsLabelled(v) then [] else [LABEL_BYTE]) + Enc(v) ==
            b + EncAll(done + [key, Labelled(v)])
    ensures IsLabelled(v) ==> b + EncAll(done) + Enc(key) + Enc(v) == b + EncAll(done + [key, Labelled(v)])
    ensures LabelledAll([key, v] + more) == [key, Labelled(v)] + LabelledAll(more)
    ensures done + ([key, Labelled(v)] + LabelledAll(more)) == done + [key, Labelled(v)] + LabelledAll(more)
    ensures Missing([key, v] + more) == (if IsLabelled(v) then 0 else 1) + Missing(more)
  {
    hide Enc, EncAll, Valid;
    LabelByte(Full, v);
    EncAllConcat(done, [key, Labelled(v)]);
    EncPair(key, Labelled(v));
    var d, k, e := EncAll(done), Enc(key), Enc(v);
    assert b + d + k + [LABEL_BYTE] + e == b + (d + (k + ([LABEL_BYTE] + e)));
    assert b + d + k + e == b + (d + (k + e));
    assert b + d + k + [] == b + d + k;
    assert ([key, v] + more)[2..] == more;
  }

  // ----- when the gap is enough -----

  /** Keys are given as strings: an argument list of string, value, string, value, and so on, where values may
      be preceded by tags or formats. */
  ghost predicate StringKeyed(fmt: Formatter, kvs: seq<Arg>)
    decreases |kvs|
  {
    kvs == [] || (kvs[0].AText? && StringKeyed(fmt, kvs[1..][ValueOf(fmt, kvs[1..]).1..]))
  }

  /** With string keys the gap is always enough. */
  lemma {:induction false} GapSuffices(fmt: Formatter, kvs: seq<Arg>)
    requires StringKeyed(fmt, kvs)
    ensures Missing(Items(fmt, kvs)) <= (|kvs| + 1) / 2 <= |kvs| / 2 + 1
    ensures Pairs(Items(fmt, kvs)) && |Items(fmt, kvs)| % 2 == 0
    decreases |kvs|
  {
    hide ValueOf, Items, IsLabelled;
    if kvs == [] {
      NoItems(fmt, []);
    } else {
      var key, v, next := FirstPair(fmt, kvs);
      GapSuffices(fmt, next);
      assert Items(fmt, kvs)[2..] == Items(fmt, next);
    }
  }

  lemma FirstPair(fmt: Formatter, kvs: seq<Arg>) returns (key: Value, v: Value, next: seq<Arg>)
    requires kvs != [] && StringKeyed(fmt, kvs)
    ensures key.Str? && key.text && Items(fmt, kvs) == [key, v] + Items(fmt, next)
    ensures StringKeyed(fmt, next) && (|next| + 2 <= |kvs| || (next == [] && |kvs| == 1))
  {
    hide MinHead, AutoKey;
    var rest := kvs[1..];
    var (w, n) := ValueOf(fmt, rest);
    key, v, next := TextTree(if kvs[0].s == [] then AutoKey(kvs) else kvs[0].s), w, rest[n..];
  }

  /** Without string keys it need not be: four numbers are four pairs, for which there are three bytes. */
  lemma GapCanBeTooSmall(fmt: Formatter)
    ensures var kvs := [AInt(1), AInt(2), AInt(3), AInt(4)];
            Missing(Items(fmt, kvs)) == 4 > |kvs| / 2 + 1
  {
    var k := TextTree(MISSING_KEY);
    var four, three := [AInt(1), AInt(2), AInt(3), AInt(4)], [AInt(2), AInt(3), AInt(4)];
    var two, one := [AInt(3), AInt(4)], [AInt(4)];
    assert four[1..] == three && three[1..] == two && two[1..] == one && one[1..] == [];
    OneNumber(fmt, four);
    OneNumber(fmt, three);
    OneNumber(fmt, two);
    OneNumber(fmt, one);
  }

  lemma OneNumber(fmt: Formatter, kvs: seq<Arg>)
    requires kvs != [] && kvs[0].AInt?
    ensures Missing(Items(fmt, kvs)) == 1 + Missing(Items(fmt, kvs[1..]))
  {
    var i := Items(fmt, kvs);
    assert i == [TextTree(MISSING_KEY), NumTree(kvs[0].n)] + Items(fmt, kvs[1..]);
    assert i[2..] == Items(fmt, kvs[1..]);
  }
}
