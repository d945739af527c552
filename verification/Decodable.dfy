/** The encoding is uniquely decodable: a byte string is the encoding of at most one well-formed tree, and
    it says itself where it ends. What a transformation of bytes does to trees is therefore well defined. */
module Decodable {
  import opened Wire
  import opened Framing

  function HeadMajor(v: Value): Major {
    match v
    case Num(neg, _) => if neg then Neg else Int
    case Str(text, _, _) => StrMajor(text)
    case Closed(isMap, _, _) => ContainerMajor(isMap)
    case Open(isMap, _) => ContainerMajor(isMap)
    case Sem(_, _) => Semantic
    case _ => Special
  }

  predicate HasHead(v: Value) { v.Num? || v.Str? || v.Closed? || v.Sem? }

  /** What follows the head. */
  function Body(v: Value): bytes {
    match v
    case Num(_, _) => []
    case Str(_, _, data) => data
    case Closed(_, _, items) => EncAll(items)
    case Open(_, items) => EncAll(items) + [BREAK_BYTE]
    case Sem(_, inner) => Enc(inner)
    case Simple(_) => []
    case Float(_, payload) => payload
  }

  lemma Split(g: Grammar, v: Value)
    requires Valid(g, v)
    ensures MajorOf(Enc(v)[0]) == HeadMajor(v)
    ensures HasHead(v) ==> ValidHead(v.head) && Enc(v) == HeadBytes(HeadMajor(v), v.head) + Body(v)
    ensures !HasHead(v) ==> Enc(v) == [Enc(v)[0]] + Body(v)
    ensures HasHead(v) <==> HeadMajor(v) != Special && Enc(v)[0] % 32 != BREAK
    ensures v.Simple? || v.Float? ==> Enc(v)[0] % 32 == v.sub
  {
    if HasHead(v) {
      HeadFirstByte(HeadMajor(v), v.head);
    }
  }

  lemma HeadInjective(m: Major, h: Head, k: Head, x: bytes, y: bytes)
    requires ValidHead(h) && ValidHead(k) && HeadBytes(m, h) + x == HeadBytes(m, k) + y
    ensures h == k && x == y
  {
    hide BigEndian, FromBigEndian, ValidHead, HeadBytes;
    var hb, kb := HeadBytes(m, h), HeadBytes(m, k);
    assert hb[0] == (hb + x)[0] == (kb + y)[0] == kb[0];
    HeadFirstByte(m, h);
    HeadFirstByte(m, k);
    assert |hb| == |kb|;
    assert hb == (hb + x)[..|hb|] && kb == (kb + y)[..|hb|];
    assert x == (hb + x)[|hb|..] && y == (kb + y)[|hb|..];
    if h.width != W0 {
      HeadArgument(m, h);
      HeadArgument(m, k);
    }
  }

  lemma {:induction false} UniquelyDecodable(g: Grammar, v: Value, w: Value, x: bytes, y: bytes)
    requires Valid(g, v) && Valid(g, w) && Enc(v) + x == Enc(w) + y
    ensures v == w && x == y
    decreases v, 1
  {
    hide Enc, EncAll, Valid, ValidAll, HeadBytes, Body;
    Split(g, v);
    Split(g, w);
    assert Enc(v)[0] == (Enc(v) + x)[0] == (Enc(w) + y)[0] == Enc(w)[0];
    var vx, wy := Body(v) + x, Body(w) + y;
    if HasHead(v) {
      var m := HeadMajor(v);
      assert HeadBytes(m, v.head) + vx == Enc(v) + x == HeadBytes(m, w.head) + wy;
      HeadInjective(m, v.head, w.head, vx, wy);
    } else {
      assert vx == (Enc(v) + x)[1..] && wy == (Enc(w) + y)[1..];
    }
    SameBody(g, v, w, x, y);
  }

  lemma SplitSame(a: bytes, b: bytes, x: bytes, y: bytes)
    requires |a| == |b| && a + x == b + y
    ensures a == b && x == y
  {
    assert a == (a + x)[..|a|] && b == (b + y)[..|a|];
    assert x == (a + x)[|a|..] && y == (b + y)[|a|..];
  }

  lemma {:induction false} SameBody(g: Grammar, v: Value, w: Value, x: bytes, y: bytes)
    requires Valid(g, v) && Valid(g, w) && Body(v) + x == Body(w) + y
    requires HeadMajor(v) == HeadMajor(w) && HasHead(v) == HasHead(w)
    requires HasHead(v) ==> v.head == w.head
    requires v.Simple? || v.Float? ==> (w.Simple? || w.Float?) && v.sub == w.sub
    ensures v == w && x == y
    decreases v, 0
  {
    hide Enc, EncAll, ValidAll;
    match v
    case Closed(_, _, items) =>
      SameItems(g, items, w.items, x, y);
    case Open(_, items) =>
      var fx, fy := [BREAK_BYTE] + x, [BREAK_BYTE] + y;
      assert EncAll(items) + fx == Body(v) + x == Body(w) + y == EncAll(w.items) + fy;
      SameItems(g, items, w.items, fx, fy);
      assert x == fx[1..] && y == fy[1..];
    case Sem(_, inner) =>
      UniquelyDecodable(g, inner, w.inner, x, y);
    case _ =>
      SplitSame(Body(v), Body(w), x, y);
  }

  /** Two lists are the same when they have the same length or both end at a break byte. */
  lemma {:induction false} SameItems(g: Grammar, vs: seq<Value>, ws: seq<Value>, x: bytes, y: bytes)
    requires ValidAll(g, vs) && ValidAll(g, ws) && EncAll(vs) + x == EncAll(ws) + y
    requires |vs| == |ws| || (x != [] && y != [] && x[0] == y[0] == BREAK_BYTE)
    ensures vs == ws && x == y
    decreases vs, 2
  {
    hide Enc, Valid;
    if vs == [] || ws == [] {
      assert [] + x == x && [] + y == y;
      if vs != [] {
        FirstByte(g, vs[0]);
      }
      if ws != [] {
        FirstByte(g, ws[0]);
      }
    } else {
      var rx, ry := EncAll(vs[1..]) + x, EncAll(ws[1..]) + y;
      assert Enc(vs[0]) + rx == EncAll(vs) + x == EncAll(ws) + y == Enc(ws[0]) + ry;
      UniquelyDecodable(g, vs[0], ws[0], rx, ry);
      SameItems(g, vs[1..], ws[1..], x, y);
      assert vs == [vs[0]] + vs[1..] && ws == [ws[0]] + ws[1..];
    }
  }
}
