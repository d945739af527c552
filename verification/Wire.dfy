/** The wire format: byte strings, heads, value trees and their encoding.

    A `Value` is a concrete syntax tree: it keeps the width of every head, so that a tree stands
    for exactly one byte string and (see `UniquelyDecodable`) a byte string for at most one tree.
 */
module Wire {

  type byte = x: int | 0 <= x < 256
  type bytes = seq<byte>

  datatype Option<+T> = None | Some(value: T)

  function Ascii(s: string): bytes {
    seq(|s|, i requires 0 <= i < |s| => s[i] as int % 256)
  }

  /** The major types, the top three bits of a head's first byte. */
  datatype Major = Int | Neg | Bytes | Text | Array | Map | Semantic | Special

  function MajorCode(m: Major): (c: nat)
    ensures c < 8
  {
    match m
    case Int => 0 case Neg => 1 case Bytes => 2 case Text => 3
    case Array => 4 case Map => 5 case Semantic => 6 case Special => 7
  }

  function MajorOf(b: byte): Major {
    var c := b / 32;
    if c == 0 then Int else if c == 1 then Neg else if c == 2 then Bytes else if c == 3 then Text
    else if c == 4 then Array else if c == 5 then Map else if c == 6 then Semantic else Special
  }

  // The low five bits of a head's first byte.
  const LEN1 := 24
  const LEN2 := 25
  const LEN4 := 26
  const LEN8 := 27
  const BREAK := 31

  // Specials.
  const SELF_REF := 10
  const HIDDEN := 11
  const NONE := 19
  const FALSE := 20
  const TRUE := 21
  const NIL := 22
  const UNDEFINED := 23
  const FLOAT8 := 24
  const FLOAT16 := 25
  const FLOAT32 := 26
  const FLOAT64 := 27

  // Semantic tags.
  const SEM_TIME := 2
  const SEM_DURATION := 3
  const SEM_CALLER := 5
  const SEM_HEX := 7
  const WIRE_LABEL := 10
  const WIRE_ID := 11
  const WIRE_MESSAGE := 12
  const WIRE_EVENT_KIND := 13
  const WIRE_LOG_LEVEL := 14

  const BREAK_BYTE: byte := 255

  /** Which specials a reader knows: the stream reader's own list, or the one of the full format. */
  datatype Grammar = Stream | Full

  predicate OneByteSpecial(g: Grammar, sub: int) {
    || FALSE <= sub <= UNDEFINED
    || (g == Full && sub in {SELF_REF, HIDDEN, NONE})
  }

  function FloatWidth(sub: int): nat {
    if sub == FLOAT8 then 1 else if sub == FLOAT16 then 2 else if sub == FLOAT32 then 4 else 8
  }

  // ----- big-endian numbers -----

  function Pow256(k: nat): (p: nat)
    ensures p > 0
  {
    if k == 0 then 1 else 256 * Pow256(k - 1)
  }

  function BigEndian(n: nat, k: nat): (s: bytes)
    ensures |s| == k
    decreases k
  {
    if k == 0 then [] else BigEndian(n / 256, k - 1) + [n % 256]
  }

  function FromBigEndian(s: bytes): nat {
    if s == [] then 0 else FromBigEndian(s[..|s| - 1]) * 256 + s[|s| - 1]
  }

  lemma {:induction false} BigEndianRoundTrip(n: nat, k: nat)
    requires n < Pow256(k)
    ensures FromBigEndian(BigEndian(n, k)) == n
    decreases k
  {
    if k > 0 {
      BigEndianRoundTrip(n / 256, k - 1);
      assert BigEndian(n, k)[..k - 1] == BigEndian(n / 256, k - 1);
    }
  }

  // ----- heads -----

  /** Number of bytes of the argument that follow the first byte: 0, 1, 2, 4 or 8. */
  datatype Width = W0 | W1 | W2 | W4 | W8

  function ArgBytes(w: Width): nat {
    match w case W0 => 0 case W1 => 1 case W2 => 2 case W4 => 4 case W8 => 8
  }

  datatype Head = Head(width: Width, arg: nat)

  ghost predicate ValidHead(h: Head) {
    if h.width == W0 then h.arg < LEN1 else h.arg < Pow256(ArgBytes(h.width))
  }

  function HeadBytes(m: Major, h: Head): (s: bytes)
    ensures |s| == 1 + ArgBytes(h.width)
  {
    var low := match h.width
      case W0 => h.arg % 32 case W1 => LEN1 case W2 => LEN2 case W4 => LEN4 case W8 => LEN8;
    [MajorCode(m) * 32 + low] + BigEndian(h.arg, ArgBytes(h.width))
  }

  /** The shortest head for an argument, the one every encoder here writes. */
  function MinHead(n: nat): Head {
    Head(if n < LEN1 then W0 else if n < Pow256(1) then W1 else if n < Pow256(2) then W2
         else if n < Pow256(4) then W4 else W8, n)
  }

  lemma MinHeadValid(n: nat)
    requires n < Pow256(8)
    ensures ValidHead(MinHead(n))
  {
  }

  // ----- trees -----

  /** Children of maps are flattened: key, value, key, value, and so on. */
  datatype Value =
    | Num(neg: bool, head: Head)
    | Str(text: bool, head: Head, data: bytes)
    | Closed(isMap: bool, head: Head, items: seq<Value>)  // definite length
    | Open(isMap: bool, items: seq<Value>)                // indefinite length, ends with a break
    | Sem(head: Head, inner: Value)
    | Simple(sub: byte)
    | Float(sub: byte, payload: bytes)

  function ContainerMajor(isMap: bool): Major { if isMap then Map else Array }
  function StrMajor(text: bool): Major { if text then Text else Bytes }

  function Enc(v: Value): (s: bytes)
    ensures |s| > 0
    decreases v, 1
  {
    match v
    case Num(neg, h) => HeadBytes(if neg then Neg else Int, h)
    case Str(text, h, data) => HeadBytes(StrMajor(text), h) + data
    case Closed(isMap, h, items) => HeadBytes(ContainerMajor(isMap), h) + EncAll(items)
    case Open(isMap, items) => [MajorCode(ContainerMajor(isMap)) * 32 + BREAK] + EncAll(items) + [BREAK_BYTE]
    case Sem(h, inner) => HeadBytes(Semantic, h) + Enc(inner)
    case Simple(sub) => [224 + sub % 32]
    case Float(sub, payload) => [224 + sub % 32] + payload
  }

  function EncAll(vs: seq<Value>): bytes
    decreases vs, 0
  {
    if vs == [] then [] else Enc(vs[0]) + EncAll(vs[1..])
  }

  const MAX_INT := 0x7fff_ffff_ffff_ffff

  /** What a well-formed tree is: heads fit, lengths are those announced and fit an int64,
      specials are known to the grammar. */
  ghost predicate Valid(g: Grammar, v: Value)
    decreases v, 1
  {
    match v
    case Num(_, h) => ValidHead(h)
    case Str(_, h, data) => ValidHead(h) && h.arg == |data| && h.arg <= MAX_INT
    case Closed(isMap, h, items) =>
      ValidHead(h) && h.arg <= MAX_INT && |items| == (if isMap then 2 * h.arg else h.arg) && ValidAll(g, items)
    case Open(isMap, items) => (isMap ==> |items| % 2 == 0) && ValidAll(g, items)
    case Sem(h, inner) => ValidHead(h) && Valid(g, inner)
    case Simple(sub) => OneByteSpecial(g, sub)
    case Float(sub, payload) => FLOAT8 <= sub <= FLOAT64 && |payload| == FloatWidth(sub)
  }

  ghost predicate ValidAll(g: Grammar, vs: seq<Value>)
    decreases vs, 0
  {
    vs == [] || (Valid(g, vs[0]) && ValidAll(g, vs[1..]))
  }

  // ----- the trees encoders write -----

  function TextTree(s: bytes): Value { Str(true, MinHead(|s|), s) }
  function NumTree(n: int): Value { if n >= 0 then Num(false, MinHead(n)) else Num(true, MinHead(-1 - n)) }

  lemma TextValid(g: Grammar, s: bytes)
    requires |s| <= MAX_INT
    ensures Valid(g, TextTree(s)) && Valid(g, Str(false, MinHead(|s|), s))
  {
    MinHeadValid(|s|);
  }

  lemma NumValid(g: Grammar, n: int)
    requires 0 <= n < Pow256(8) || 0 <= -1 - n < Pow256(8)
    ensures Valid(g, NumTree(n))
  {
    MinHeadValid(if n >= 0 then n else -1 - n);
  }

  // ----- finding a byte string inside another -----

  predicate At(b: bytes, i: nat, x: bytes) {
    i + |x| <= |b| && b[i..i + |x|] == x
  }

  lemma AtConcat(b: bytes, i: nat, x: bytes, y: bytes)
    ensures At(b, i, x + y) <==> At(b, i, x) && At(b, i + |x|, y)
  {
    if At(b, i, x + y) {
      assert b[i..i + |x|] == b[i..i + |x + y|][..|x|] == x;
      assert b[i + |x|..i + |x| + |y|] == b[i..i + |x + y|][|x|..] == y;
    }
  }

  lemma EncAllOne(v: Value)
    ensures EncAll([v]) == Enc(v)
  {
    assert [v][1..] == [];
  }

  lemma EncPair(x: Value, y: Value)
    ensures EncAll([x]) == Enc(x) && EncAll([x, y]) == Enc(x) + Enc(y)
  {
    EncAllOne(x);
    EncAllOne(y);
    assert [x, y][1..] == [y];
  }

  lemma {:induction false} EncAllConcat(xs: seq<Value>, ys: seq<Value>)
    ensures EncAll(xs + ys) == EncAll(xs) + EncAll(ys)
  {
    if xs == [] {
      assert xs + ys == ys;
    } else {
      assert (xs + ys)[1..] == xs[1..] + ys;
      EncAllConcat(xs[1..], ys);
    }
  }

  lemma {:induction false} ValidAllConcat(g: Grammar, xs: seq<Value>, ys: seq<Value>)
    ensures ValidAll(g, xs + ys) <==> ValidAll(g, xs) && ValidAll(g, ys)
  {
    if xs == [] {
      assert xs + ys == ys;
    } else {
      assert (xs + ys)[1..] == xs[1..] + ys;
      ValidAllConcat(g, xs[1..], ys);
    }
  }

  /** Every tree of the stream grammar is one of the full grammar. */
  lemma {:induction false} StreamIsFull(v: Value)
    requires Valid(Stream, v)
    ensures Valid(Full, v)
    decreases v, 1
  {
    match v
    case Closed(_, _, items) => StreamIsFullAll(items);
    case Open(_, items) => StreamIsFullAll(items);
    case Sem(_, inner) => StreamIsFull(inner);
    case _ =>
  }

  lemma {:induction false} StreamIsFullAll(vs: seq<Value>)
    requires ValidAll(Stream, vs)
    ensures ValidAll(Full, vs)
    decreases vs, 0
  {
    if vs != [] {
      StreamIsFull(vs[0]);
      StreamIsFullAll(vs[1..]);
    }
  }

  // ----- specials that the stream reader does not know -----

  /** The tree holds a self-reference, a hidden value or a missing one. */
  predicate Foreign(v: Value)
    decreases v, 1
  {
    match v
    case Closed(_, _, items) => ForeignAll(items)
    case Open(_, items) => ForeignAll(items)
    case Sem(_, inner) => Foreign(inner)
    case Simple(sub) => sub in {SELF_REF, HIDDEN, NONE}
    case _ => false
  }

  predicate ForeignAll(vs: seq<Value>)
    decreases vs, 0
  {
    vs != [] && (Foreign(vs[0]) || ForeignAll(vs[1..]))
  }

  /** A tree of the full format is one of the stream's unless it holds one of these. */
  lemma {:induction false} StreamUnlessForeign(v: Value)
    requires Valid(Full, v)
    ensures Valid(Stream, v) <==> !Foreign(v)
    decreases v, 1
  {
    match v
    case Closed(_, _, items) => StreamUnlessForeignAll(items);
    case Open(_, items) => StreamUnlessForeignAll(items);
    case Sem(_, inner) => StreamUnlessForeign(inner);
    case _ =>
  }

  lemma {:induction false} StreamUnlessForeignAll(vs: seq<Value>)
    requires ValidAll(Full, vs)
    ensures ValidAll(Stream, vs) <==> !ForeignAll(vs)
    decreases vs, 0
  {
    if vs != [] {
      StreamUnlessForeign(vs[0]);
      StreamUnlessForeignAll(vs[1..]);
    }
  }

  lemma ValidPair(g: Grammar, x: Value, y: Value)
    ensures ValidAll(g, [x, y]) <==> Valid(g, x) && Valid(g, y)
  {
    hide Valid;
    assert [x, y][1..] == [y] && [y][1..] == [];
    assert ValidAll(g, [y]) <==> Valid(g, y);
  }

  // ----- regrouping byte strings -----

  lemma Assoc(a: bytes, b: bytes, c: bytes)
    ensures a + b + c == a + (b + c)
  {
  }

  lemma Assoc4(a: bytes, b: bytes, c: bytes, d: bytes)
    ensures a + b + c + d == a + (b + c + d)
  {
  }
}
