/** The streaming reader: cuts a byte stream into values whatever way the stream arrives. */
module StreamReader {
  import opened Wire
  import opened Framing
  import opened Indices

  // ----- what the reader is for, as functions of the whole stream -----

  /** The complete values at the start of a stream. */
  function Frames(s: bytes): seq<bytes>
    decreases |s|
  {
    var r := Skip(Stream, s, 0);
    if r.End? then [s[..r.end]] + Frames(s[r.end..]) else []
  }

  /** What is left after them. */
  function Tail(s: bytes): (t: bytes)
    ensures !Skip(Stream, t, 0).End?
    decreases |s|
  {
    var r := Skip(Stream, s, 0);
    if r.End? then Tail(s[r.end..]) else s
  }

  function Concat(ps: seq<bytes>): bytes {
    if ps == [] then [] else ps[0] + Concat(ps[1..])
  }

  lemma ConcatFirst(p: bytes, ps: seq<bytes>)
    ensures Concat([p] + ps) == p + Concat(ps) && Concat([]) == []
  {
    assert ([p] + ps)[1..] == ps;
  }

  lemma {:induction false} ConcatAppend(ps: seq<bytes>, p: bytes)
    ensures Concat(ps + [p]) == Concat(ps) + p
  {
    if ps == [] {
      assert [p][1..] == [];
      assert [] + [p] == [p];
    } else {
      assert (ps + [p])[1..] == ps[1..] + [p];
      ConcatAppend(ps[1..], p);
    }
  }

  lemma {:induction false} FramesAndTail(s: bytes)
    ensures Concat(Frames(s)) + Tail(s) == s
    decreases |s|
  {
    hide Skip, Concat, Frames, Tail;
    FirstFrame(s);
    var r := Skip(Stream, s, 0);
    if r.End? {
      var x, y := s[..r.end], s[r.end..];
      FramesAndTail(y);
      ConcatFirst(x, Frames(y));
      Assoc(x, Concat(Frames(y)), Tail(y));
      assert s == x + y;
    } else {
      ConcatFirst([], []);
      assert [] + s == s;
    }
  }

  lemma FirstFrame(s: bytes)
    ensures var r := Skip(Stream, s, 0);
            if r.End? then Frames(s) == [s[..r.end]] + Frames(s[r.end..]) && Tail(s) == Tail(s[r.end..])
            else Frames(s) == [] && Tail(s) == s
  {
    hide Skip;
  }

  function Encodings(vs: seq<Value>): seq<bytes> {
    seq(|vs|, i requires 0 <= i < |vs| => Enc(vs[i]))
  }

  /** Wherever a value is cut off, no string that is met announces a negative length or ends past the largest int64;
      `base` is the index of the first byte. */
  predicate Steady(s: bytes, base: nat)
    decreases |s|
  {
    && !Strays(s, 0, MAX_INT - base)
    && var r := Skip(Stream, s, 0); (r.End? ==> Steady(s[r.end..], base + r.end))
  }

  lemma SteadyNext(s: bytes, base: nat)
    requires Steady(s, base)
    ensures !Strays(s, 0, MAX_INT - base)
    ensures Skip(Stream, s, 0).End? ==> Steady(s[Skip(Stream, s, 0).end..], base + Skip(Stream, s, 0).end)
  {
  }

  /** A stream of complete values followed by a strict prefix of one more is cut into exactly those values, by `skip`
      too, if they end within the range of indices. */
  lemma {:induction false} FramesOfValues(vs: seq<Value>, next: Value, n: nat, base: nat)
    requires ValidAll(Stream, vs) && Valid(Stream, next) && n < |Enc(next)|
    ensures Frames(EncAll(vs) + Enc(next)[..n]) == Encodings(vs)
    ensures Tail(EncAll(vs) + Enc(next)[..n]) == Enc(next)[..n]
    ensures Skip(Stream, Enc(next)[..n], 0) == UnexpectedEOF
    ensures base + |EncAll(vs)| + |Enc(next)| <= MAX_INT ==> Steady(EncAll(vs) + Enc(next)[..n], base)
    decreases |vs|
  {
    hide Skip, Enc, Valid, Strays;
    var s, rest := EncAll(vs) + Enc(next)[..n], Enc(next)[..n];
    if vs == [] {
      assert s == rest;
      SkipPrefixOfValue(Stream, next, [], n);
      assert Enc(next) + [] == Enc(next);
      ValueStaysWithin(next, n, MAX_INT - base);
    } else {
      var e, more := Enc(vs[0]), EncAll(vs[1..]) + rest;
      assert s == e + more;
      SkipPrefixOfValue(Stream, vs[0], more, |s|);
      assert s[..|s|] == s && s[..|e|] == e && s[|e|..] == more;
      FramesOfValues(vs[1..], next, n, base + |e|);
      assert Encodings(vs) == [e] + Encodings(vs[1..]);
      FoundWithin(s, 0);
      if Strays(s, 0, MAX_INT - base) && |e| <= MAX_INT - base {
        StraysLess(s, 0, |e|, MAX_INT - base);
      }
    }
  }

  lemma ValueStaysWithin(v: Value, n: nat, lim: int)
    requires Valid(Stream, v) && n <= |Enc(v)|
    ensures |Enc(v)| <= lim ==> !Strays(Enc(v)[..n], 0, lim)
  {
    hide Skip, Enc, Valid, Strays;
    var b := Enc(v);
    SkipExact(Stream, b, 0, v);
    FoundWithin(b, 0);
    if Strays(b[..n], 0, lim) && |b| <= lim {
      assert b == b[..n] + b[n..];
      StraysPrefix(b[..n], b[n..], 0, lim);
      StraysLess(b, 0, |b|, lim);
    }
  }

  // ----- the outside world -----

  /** `Unfinished`: a search has not come to an end. `Panicked`: a value that ends before it starts was to be sliced. */
  datatype Err = NoError | EOF | BadStream | Failed | Unfinished | Panicked

  /** What one call of the underlying `Read` does: deliver at most `n` bytes, then report. */
  datatype Step = Deliver(n: nat, eagerEOF: bool) | Fail(n: nat)

  /** How often the source will fail. */
  function Failures(plan: seq<Step>): nat {
    if plan == [] then 0 else (if plan[0].Fail? then 1 else 0) + Failures(plan[1..])
  }

  /** How many bytes it may deliver together with its first failure. */
  function FailSize(plan: seq<Step>): nat {
    if plan == [] then 0 else if plan[0].Fail? then plan[0].n else FailSize(plan[1..])
  }

  /** What has happened to a plan: `failed`, its first failure has come, and nothing after it; or no failure. */
  predicate Spent(was: seq<Step>, now: seq<Step>, failed: bool) {
    if failed then Failures(now) + 1 == Failures(was)
    else Failures(now) == Failures(was) && FailSize(now) == FailSize(was)
  }

  lemma SpentMore(was: seq<Step>, now: seq<Step>, then': seq<Step>, failed: bool)
    requires Spent(was, now, false)
    ensures Spent(now, then', failed) ==> Spent(was, then', failed)
    ensures FailSize(now) == FailSize(was)
  {
  }

  lemma NothingSpent(plan: seq<Step>)
    ensures Spent(plan, plan, false)
  {
  }

  /** A byte source that delivers `rest` in the portions of an arbitrary plan and, after it, as fast as asked. */
  class Source {
    var rest: bytes
    var plan: seq<Step>

    constructor (stream: bytes, plan: seq<Step>)
      ensures rest == stream && this.plan == plan
    {
      rest, this.plan := stream, plan;
    }

    /** Reads into `buf[off..]`. End of file may be reported together with the last bytes. */
    method Read(buf: array<byte>, off: nat) returns (n: nat, err: Err)
      requires off < buf.Length
      modifies this, buf
      ensures off + n <= buf.Length && buf[..off] == old(buf[..off])
      ensures n <= |old(rest)| && buf[off..off + n] == old(rest)[..n] && rest == old(rest)[n..]
      ensures err in {NoError, EOF, Failed} && (err == EOF ==> rest == [])
      ensures err == NoError ==> |rest| + |plan| < |old(rest)| + |old(plan)|
      ensures plan == if old(plan) == [] then [] else old(plan)[1..]
      ensures err == Failed <==> old(plan) != [] && old(plan)[0].Fail?
      ensures old(plan) != [] ==> n == Min(old(plan)[0].n, Min(buf.Length - off, |old(rest)|))
      ensures old(plan) == [] ==>
                n == Min(buf.Length - off, |old(rest)|) && err == (if old(rest) == [] then EOF else NoError)
    {
      var want := buf.Length - off;
      err := NoError;
      if plan != [] {
        var step := plan[0];
        plan := plan[1..];
        n := Min(step.n, Min(want, |rest|));
        err := match step
          case Fail(_) => Failed
          case Deliver(_, eager) => if eager && n == |rest| then EOF else NoError;
      } else {
        n := Min(want, |rest|);
        if rest == [] {
          err := EOF;
        }
      }
      forall j | off <= j < off + n {
        buf[j] := rest[j - off];
      }
      assert forall j | 0 <= j < n :: buf[off + j] == rest[j];
      assert buf[off..off + n] == rest[..n];
      rest := rest[n..];
    }
  }

  function Min(a: nat, b: nat): nat { if a < b then a else b }

  /** A writer that takes `budget` writes and refuses the next one. */
  class Sink {
    var writes: seq<bytes>
    var budget: nat

    method Write(p: bytes) returns (n: nat, err: Err)
      modifies this
      ensures err in {NoError, Failed}
      ensures err == NoError ==> n == |p| && writes == old(writes) + [p] && budget + 1 == old(budget)
      ensures err == Failed ==> n == 0 && writes == old(writes) && budget == old(budget) == 0
    {
      if budget == 0 {
        return 0, Failed;
      }
      budget := budget - 1;
      writes := writes + [p];
      return |p|, NoError;
    }
  }

  // ----- the reader -----

  lemma SplitOff(s: bytes, st: nat, end: nat, len: nat, rest: bytes)
    requires st <= end <= len <= |s|
    ensures s[st..len] + rest == s[st..end] + (s[end..len] + rest)
  {
    assert s[st..len] == s[st..end] + s[end..len];
  }

  lemma RefilledBuffer(b: array<byte>, end: nat, n: nat, keep: bytes, rest: bytes)
    requires end + n <= b.Length && n <= |rest| && b[..end] == keep && b[end..end + n] == rest[..n]
    ensures b[..end + n] == keep + rest[..n] && b[0..end + n] + rest[n..] == keep + rest
    ensures n == 0 ==> b[..end + n] == keep
  {
    Refilled(b[..], end, n, keep, rest);
  }

  lemma Refilled(s: bytes, end: nat, n: nat, keep: bytes, rest: bytes)
    requires end + n <= |s| && n <= |rest| && s[..end] == keep && s[end..end + n] == rest[..n]
    ensures s[0..end + n] == keep + rest[..n] && s[0..end + n] + rest[n..] == keep + rest
  {
    assert s[0..end + n] == s[..end] + s[end..end + n];
    assert keep + rest[..n] + rest[n..] == keep + (rest[..n] + rest[n..]);
    assert rest[..n] + rest[n..] == rest;
  }

  /** No string met at the next value strays, and `n` turns are enough to find its end. */
  predicate Calm(pending: bytes, i: nat, n: nat) {
    !Strays(pending, 0, MAX_INT - i) && n >= Enough(pending, 0)
  }

  /** The next thing in the stream is the head of a string of indefinite length. */
  predicate Indefinite(pending: bytes) {
    pending != [] && pending[0] in {0x5F, 0x7F}
  }

  class Reader {
    const src: Source
    var b: array<byte>  // the allocated buffer; its first `len` bytes are in use
    var len: nat
    var i: nat          // bytes of the buffer already returned
    var boff: nat       // stream offset of the buffer's start

    ghost predicate Valid()
      reads this
    {
      i <= len <= b.Length
    }

    /** The part of the stream not yet returned. */
    ghost function Pending(): bytes
      reads this, b, src
      requires Valid()
    {
      b[i..len] + src.rest
    }

    constructor (src: Source)
      ensures Valid() && this.src == src && Pending() == src.rest && boff + i == 0 && fresh(b)
    {
      this.src := src;
      b := new byte[0];
      len, i, boff := 0, 0, 0;
      new;
      assert b[i..len] + src.rest == src.rest;
    }

    /** Moves the unreturned bytes to the front of the buffer. */
    method compact()
      requires Valid()
      modifies this`len, this`i, this`boff, b
      ensures Valid() && i == 0 && b[..len] == old(b[i..len]) && boff == old(boff + i)
    {
      ghost var keep, all := b[i..len], b[..];
      var k := 0;
      while k < len - i
        invariant 0 <= k <= len - i
        invariant forall j | 0 <= j < k :: b[j] == keep[j]
        invariant forall j | k <= j < b.Length :: b[j] == all[j]
        modifies b
      {
        assert keep[k] == all[i + k];
        b[k] := b[i + k];
        k := k + 1;
      }
      assert b[..len - i] == keep;
      len := len - i;
      boff := boff + i;
      i := 0;
    }

    /** Makes room for at least eight more bytes and takes the whole allocation into use. */
    method grow(room: nat)
      requires Valid() && i == 0
      modifies this`b, this`len
      ensures Valid() && len == b.Length >= old(len) + 8 && b[..old(len)] == old(b[..len])
      ensures b == old(b) || fresh(b)
    {
      if len == 0 {
        b := new byte[1024];
      } else if len + 8 > b.Length {
        var bigger := new byte[len + 8 + room];
        forall j | 0 <= j < len {
          bigger[j] := b[j];
        }
        b := bigger;
      }
      len := b.Length;
    }

    /** Drops the returned bytes, makes room and reads once. */
    method more(room: nat) returns (err: Err)
      requires Valid()
      modifies this, b, src
      ensures Valid() && (b == old(b) || fresh(b))
      ensures Pending() == old(Pending()) && boff + i == old(boff + i)
      ensures i == 0 && old(b[i..len]) <= b[..len]
      ensures err in {NoError, EOF, Failed}
      ensures err == EOF ==> src.rest == [] && b[..len] == old(b[i..len])
      ensures err == NoError ==> |src.rest| + |src.plan| < |old(src.rest)| + |old(src.plan)|
      ensures |src.rest| + |src.plan| <= |old(src.rest)| + |old(src.plan)|
      ensures old(src.plan) == [] && |old(src.rest)| <= 8 ==>
                src.rest == [] && src.plan == [] && err == (if old(src.rest) == [] then EOF else NoError)
      ensures src.plan == if old(src.plan) == [] then [] else old(src.plan)[1..]
      ensures err == Failed <==> old(src.plan) != [] && old(src.plan)[0].Fail?
      ensures err == Failed ==> len <= |old(b[i..len])| + old(src.plan)[0].n
    {
      ghost var keep, rest := b[i..len], src.rest;
      compact();
      var end := len;
      grow(room);
      var n;
      n, err := src.Read(b, end);
      len := end + n;
      RefilledBuffer(b, end, n, keep, rest);
      if n != 0 && err == EOF {
        err := NoError;
      }
    }

    /** The search for a value's end, given `n` turns; the loop is the one over a container's elements. */
    method skip(st: nat, n: nat) returns (r: Option<int>)
      requires Valid() && st <= len
      ensures r == SkipIndex(b[..len], st, n)
      decreases n
    {
      hide SkipIndex, ItemsIndex, ReadTag;
      ghost var buf := b[..len];
      IndexLevel(buf, st, n);
      SpecialNext(buf, st);
      if n == 0 { return None; }
      var t := readTag(st);
      if t == TagEOF { return Some(-1); }
      if t == TagBadFormat { return Some(-2); }
      var i: int := t.next;
      if t.major == Bytes || t.major == Text {
        i := WrapAdd(i, t.sub);
      } else if t.major == Array || t.major == Map {
        var el, m := 0, n - 1;
        while t.sub == -1 || el < t.sub
          invariant 0 <= i <= len && 0 <= m < n
          invariant SkipIndex(buf, st, n) == ItemsIndex(buf, i, t.major == Map, t.sub, el, m)
          decreases m
        {
          IndexTurn(buf, i, t.major == Map, t.sub, el, m);
          if m == 0 { return None; }
          if i == len { return Some(-1); }
          if t.sub == -1 && b[i] == BREAK_BYTE {
            i := i + 1;
            return Some(i);
          }
          var was, v := i, Some(i);
          m := m - 1;
          if t.major == Map {
            v := skip(i, m);
            if v.None? || v.value < 0 { return v; }
            i := v.value;
          }
          v := skip(i, m);
          assert v == ElementIndex(buf, was, t.major == Map, m);
          if v.None? || v.value < 0 { return v; }
          i := v.value;
          el := el + 1;
        }
        IndexTurn(buf, i, t.major == Map, t.sub, el, m);
      } else if t.major == Semantic {
        r := skip(i, n - 1);
        return;
      } else if t.major == Special {
        var sub := b[st] % 32;
        if FALSE <= sub <= UNDEFINED || sub == BREAK {
        } else if FLOAT8 <= sub <= FLOAT64 {
          i := i + FloatWidth(sub);
        } else {
          return Some(-3);
        }
      }
      if i > len { return Some(-1); }
      return Some(i);
    }

    /** `readTag` on the buffer: the argument bytes are collected most significant first. */
    method readTag(st: nat) returns (t: TagResult)
      requires Valid() && st <= len
      ensures t == ReadTag(b[..len], st)
    {
      if st >= len { return TagEOF; }
      var m, sub := MajorOf(b[st]), b[st] % 32;
      if m == Special { return Tag(m, 0, st + 1); }
      if sub < LEN1 { return Tag(m, sub, st + 1); }
      if sub == BREAK { return Tag(m, -1, st + 1); }
      if sub > LEN8 { return TagBadFormat; }
      var n := ArgLen(sub);
      var i := st + 1;
      if i + n > len { return TagEOF; }
      var l: int, k := 0, 0;
      ghost var arg := b[..len][i..i + n];
      while k < n
        invariant 0 <= k <= n
        invariant l == FromBigEndian(arg[..k])
      {
        assert arg[..k + 1][..k] == arg[..k] && arg[k] == b[i + k];
        l := l * 256 + b[i + k];
        k := k + 1;
      }
      assert arg[..n] == arg;
      FromBigEndianBound(arg);
      Pow256Monotone(n, 8);
      return Tag(m, WrapInt64(l), i + n);
    }

    /** What the buffer says of the next value, before anything more is read. */
    ghost function Answer(n: nat): Option<int>
      reads this, b
      requires Valid()
    {
      SkipIndex(b[..len], i, n)
    }

    /** Searches the buffer, once. */
    method look(n: nat, ghost base: nat) returns (r: Option<int>)
      requires Valid() && i <= base
      ensures r == Answer(n)
      ensures Calm(Pending(), base, n) ==>
                && r.Some?
                && (r.value > 0 ==> r.value > i && Skip(Stream, Pending(), 0) == End(r.value - i))
                && (r.value < -1 ==> Skip(Stream, Pending(), 0) in {BadFormat, BadSpecial})
                && (-1 <= r.value <= 0 ==> Skip(Stream, b[i..len], 0) == UnexpectedEOF)
      ensures Indefinite(Pending()) && (i == 0 || i == len) && n > 0 ==> r.Some? && -1 <= r.value <= 0
    {
      hide Skip, SkipIndex, Strays;
      assert b[..len][i..] == b[i..len] && (i < len ==> b[..len][i] == Pending()[0]);
      CalmAnswer(b[..len], i, src.rest, base, n);
      StuckAnswer(b[..len], i, src.rest, n);
      r := skip(i, n);
    }

    /** Reads once. What was there is at the front; `late` bytes come after it. */
    method refill() returns (err: Err, ghost late: nat)
      requires Valid()
      modifies this, b, src
      ensures Valid() && (b == old(b) || fresh(b))
      ensures Pending() == old(Pending()) && boff + i == old(boff + i) && i == 0
      ensures late <= len && b[i..len - late] == old(b[i..len])
      ensures err in {NoError, EOF, Failed} && (err == EOF ==> src.rest == [] && Pending() == old(b[i..len]))
      ensures err == NoError ==> |src.rest| + |src.plan| < |old(src.rest)| + |old(src.plan)|
      ensures |src.rest| + |src.plan| <= |old(src.rest)| + |old(src.plan)|
      ensures Spent(old(src.plan), src.plan, err == Failed) && (err == Failed ==> late <= old(FailSize(src.plan)))
    {
      ghost var had := b[i..len];
      var room: nat := *;
      err := more(room);
      late := len - |had|;
      assert b[i..len - late] == b[..len][..|had|] == had;
      if err == EOF {
        assert b[i..len] == b[..len] == had;
      }
    }

    /** Finds the end of the next value, reading as much as it takes. `late`: how many bytes came with a failure. */
    method skipRead(n: nat) returns (end: nat, err: Err, ghost late: nat)
      requires Valid()
      modifies this, b, src
      ensures Valid() && (b == old(b) || fresh(b))
      ensures Pending() == old(Pending()) && boff + i == old(boff + i) && i <= old(i)
      ensures |src.rest| + |src.plan| <= |old(src.rest)| + |old(src.plan)|
      ensures err in {NoError, EOF, BadStream, Failed, Unfinished} && (err == EOF ==> src.rest == [])
      ensures Spent(old(src.plan), src.plan, err == Failed)
      ensures err == Failed ==> i <= len - late && late <= old(FailSize(src.plan))
      ensures err == NoError ==> 0 < end <= len && Answer(n) == Some(end)
      ensures err == BadStream ==> Answer(n).Some? && Answer(n).value < -1
      ensures err == Unfinished ==> Answer(n).None?
      ensures var r := old(Answer(n));
              (r.None? || r.value > 0 || r.value < -1) ==>
                && len == old(len) && i == old(i) && b == old(b) && b[..] == old(b[..]) && unchanged(src)
                && err == (if r.None? then Unfinished else if r.value > 0 then NoError else BadStream)
      ensures old(Indefinite(Pending()) && (i == 0 || i == len)) && n > 0 ==> err in {EOF, Failed}
      ensures old(Calm(Pending(), i, n)) ==>
                && err != Unfinished
                && (err == NoError ==> i < end && Skip(Stream, Pending(), 0) == End(end - i))
                && (err == EOF ==> Skip(Stream, Pending(), 0) == UnexpectedEOF)
                && (err == BadStream ==> Skip(Stream, Pending(), 0) in {BadFormat, BadSpecial})
                && (err == Failed ==> Skip(Stream, b[i..len - late], 0) == UnexpectedEOF)
    {
      hide Skip, SkipIndex, Calm, Indefinite, Failures, FailSize, Spent;
      var r;
      NothingSpent(src.plan);
      late := 0;
      while true
        invariant Valid() && (b == old(b) || fresh(b))
        invariant Pending() == old(Pending()) && boff + i == old(boff + i) && i <= old(i)
        invariant |src.rest| + |src.plan| <= |old(src.rest)| + |old(src.plan)|
        invariant Spent(old(src.plan), src.plan, false)
        invariant (len == old(len) && i == old(i) && b == old(b) && b[..] == old(b[..]) && unchanged(src))
                  || (old(Answer(n)).Some? && -1 <= old(Answer(n)).value <= 0)
        invariant old(Indefinite(Pending()) && (i == 0 || i == len)) ==> i == 0 || i == len
        decreases |src.rest| + |src.plan|
      {
        r := look(n, old(i));
        if r.None? || r.value > 0 || r.value < -1 { break; }
        ghost var plan := src.plan;
        err, late := refill();
        SpentMore(old(src.plan), plan, src.plan, err == Failed);
        if err != NoError { return 0, err, late; }
      }
      if r.None? { return 0, Unfinished, 0; }
      if r.value < 0 { return 0, BadStream, 0; }
      return r.value, NoError, 0;
    }

    /** The next value of the stream. */
    method ReadOne(n: nat) returns (data: bytes, err: Err, ghost late: nat)
      requires Valid()
      modifies this, b, src
      ensures Valid() && (b == old(b) || fresh(b))
      ensures err == NoError ==> old(Pending()) == data + Pending() && boff + i == old(boff + i) + |data|
      ensures err !in {NoError, Panicked} ==> Pending() == old(Pending()) && boff + i == old(boff + i)
      ensures err in {NoError, EOF, BadStream, Failed, Unfinished, Panicked} && (err == EOF ==> src.rest == [])
      ensures Spent(old(src.plan), src.plan, err == Failed)
      ensures err == Failed ==> i <= len - late && late <= old(FailSize(src.plan))
      ensures i <= old(i) + |data|
      ensures var r := old(Answer(n));
              r.Some? && r.value > 0 ==>
                && len == old(len) && i == r.value && b == old(b) && b[..] == old(b[..]) && unchanged(src)
                && err == (if r.value < old(i) then Panicked else NoError)
                && (err == NoError ==> data == old(b[i..])[..r.value - old(i)])
      ensures old(Indefinite(Pending()) && (i == 0 || i == len)) && n > 0 ==> err in {EOF, Failed}
      ensures old(Calm(Pending(), i, n)) ==>
                && err !in {Unfinished, Panicked}
                && (err == NoError ==> Skip(Stream, old(Pending()), 0) == End(|data|))
                && (err == EOF ==> Skip(Stream, Pending(), 0) == UnexpectedEOF)
                && (err == BadStream ==> Skip(Stream, Pending(), 0) in {BadFormat, BadSpecial})
                && (err == Failed ==> Skip(Stream, b[i..len - late], 0) == UnexpectedEOF)
    {
      hide Skip, SkipIndex, Strays, Failures, FailSize;
      var end;
      ghost var was, rest := b[..], b[i..];
      assert rest == was[i..];
      end, err, late := skipRead(n);
      if err != NoError { return [], err, late; }
      var st := i;
      i := end;
      if end < st { return [], Panicked, 0; }
      data := b[st..end];
      assert b[..] == was && st == old(i) ==> data == rest[..end - st];
      SplitOff(b[..], st, end, len, src.rest);
    }

    /** One turn of `WriteTo`: the next value is written. `lost` holds it if the write fails. */
    method copyOne(w: Sink, n: nat, ghost pending: bytes, ghost base: nat, ghost out: seq<bytes>, ghost count: nat)
      returns (m: nat, err: Err, data: bytes, ghost lost: seq<bytes>, ghost late: nat)
      requires Valid() && Copied(pending, base, out, Pending(), i, count, n)
      modifies this, b, src, w
      ensures Valid() && (b == old(b) || fresh(b))
      ensures err == NoError ==>
                && w.writes == old(w.writes) + [data] && w.budget + 1 == old(w.budget) && m == |data|
                && Copied(pending, base, out + [data], Pending(), i, count + m, n) && lost == []
      ensures err != NoError ==> m == 0 && w.writes == old(w.writes) && w.budget == old(w.budget)
      ensures err != Panicked ==> boff + i == old(boff + i) + m + |Concat(lost)|
      ensures err != NoError && err != Panicked ==> pending == Concat(out + lost) + Pending()
      ensures |lost| <= 1 && (lost != [] ==> err == Failed && w.budget == 0)
      ensures err == EOF ==> src.rest == [] && lost == []
      ensures err == BadStream ==> lost == []
      ensures Spent(old(src.plan), src.plan, err == Failed && lost == [])
      ensures err == Failed && lost == [] ==> i <= len - late && late <= old(FailSize(src.plan))
      ensures old(Answer(n) == Some(i) && i > 0) ==>
                && data == [] && Answer(n) == Some(i) && i > 0 && Pending() == old(Pending())
                && err == (if old(w.budget) == 0 then Failed else NoError)
      ensures Steady(pending, base) && n >= Enough(pending, 0) && err != NoError ==>
                && CutOff(pending, out + lost, Pending()) && err !in {Unfinished, Panicked}
                && (err == EOF ==> Skip(Stream, Pending(), 0) == UnexpectedEOF)
                && (err == BadStream ==> Skip(Stream, Pending(), 0) in {BadFormat, BadSpecial})
                && (err == Failed && lost == [] ==> Skip(Stream, b[i..len - late], 0) == UnexpectedEOF)
    {
      hide Skip, SkipIndex, CutOff, Steady, Copied, Concat, Calm, Failures, FailSize;
      ghost var was, at := Pending(), i;
      CopiedCalm(pending, base, out, was, at, count, n);
      CopiedNothing(pending, base, n);
      m, lost := 0, [];
      assert out + [] == out;
      data, err, late := ReadOne(n);
      if err != NoError { return; }
      CopiedNext(pending, base, out, was, at, count, data, Pending(), i, n);
      ConcatFirst(data, []);
      assert [data] + [] == [data] && data + [] == data;
      m, err := w.Write(data);
      if err != NoError { lost := [data]; }
    }

    /** Copies the stream to `w`, one write per value, to the end of the stream or the first error. `out` are the
        values written, `lost` the one a failed write did not take, `late` the bytes that came with a failed read. */
    method WriteTo(w: Sink, n: nat)
      returns (count: nat, err: Err, ghost out: seq<bytes>, ghost lost: seq<bytes>, ghost late: nat)
      requires Valid()
      modifies this, b, src, w
      ensures Valid() && w.writes == old(w.writes) + out && count == |Concat(out)|
      ensures |lost| <= 1 && (lost != [] ==> err == Failed && |out| == old(w.budget))
      ensures err in {NoError, BadStream, Failed, Unfinished, Panicked}
      ensures err != Panicked ==>
                old(Pending()) == Concat(out + lost) + Pending() && boff + i == old(boff + i) + |Concat(out + lost)|
      ensures err == NoError ==> lost == [] && src.rest == []
      ensures err == BadStream ==> lost == []
      ensures Spent(old(src.plan), src.plan, err == Failed && lost == [])
      ensures err == Failed && lost == [] ==> i <= len - late && late <= old(FailSize(src.plan))
      ensures old(Answer(n) == Some(i) && i > 0) ==>
                out == Empties(old(w.budget)) && err == Failed && Pending() == old(Pending())
      ensures old(Steady(Pending(), i)) && n >= Enough(old(Pending()), 0) ==>
                && CutOff(old(Pending()), out + lost, Pending()) && err !in {Unfinished, Panicked}
                && (err == NoError ==> Skip(Stream, Pending(), 0) == UnexpectedEOF)
                && (err == BadStream ==> Skip(Stream, Pending(), 0) in {BadFormat, BadSpecial})
                && (err == Failed && lost == [] ==> Skip(Stream, b[i..len - late], 0) == UnexpectedEOF)
    {
      hide Skip, SkipIndex, CutOff, Steady, Copied, Concat, Calm, Failures, FailSize, Spent;
      NothingSpent(src.plan);
      count, out, lost, late := 0, [], [], 0;
      ghost var pending, base, from := Pending(), i, boff + i;
      ghost var stuck := Answer(n) == Some(i) && i > 0;
      CopiedNothing(pending, base, n);
      while true
        invariant Valid() && (b == old(b) || fresh(b)) && lost == []
        invariant w.writes == old(w.writes) + out && w.budget + |out| == old(w.budget)
        invariant Copied(pending, base, out, Pending(), i, count, n) && boff + i == from + count
        invariant Spent(old(src.plan), src.plan, false)
        invariant stuck ==> out == Empties(|out|) && Answer(n) == Some(i) && i > 0 && Pending() == pending
        decreases w.budget
      {
        var m, data;
        CopiedParts(pending, base, out, Pending(), i, count, n);
        ghost var plan := src.plan;
        m, err, data, lost, late := copyOne(w, n, pending, base, out, count);
        SpentMore(old(src.plan), plan, src.plan, err == Failed && lost == []);
        if err != NoError { break; }
        count, out := count + m, out + [data];
      }
      LostAtTheEnd(out, lost);
      if err == EOF { err := NoError; }
    }
  }

  lemma LostAtTheEnd(out: seq<bytes>, lost: seq<bytes>)
    requires |lost| <= 1
    ensures |Concat(out + lost)| == |Concat(out)| + |Concat(lost)|
  {
    if lost == [] {
      assert out + lost == out;
    } else {
      ConcatAppend(out, lost[0]);
      assert lost == [lost[0]] && Concat(lost[1..]) == [];
    }
  }

  lemma CopiedParts(pending: bytes, base: nat, out: seq<bytes>, now: bytes, i: nat, count: nat, n: nat)
    requires Copied(pending, base, out, now, i, count, n)
    ensures pending == Concat(out) + now && count == |Concat(out)|
  {
    hide Concat, CutOff, Steady;
  }

  /** `out` have been copied of `pending`, `now` is left from index `i` on. */
  ghost predicate Copied(pending: bytes, base: nat, out: seq<bytes>, now: bytes, i: nat, count: nat, n: nat) {
    && pending == Concat(out) + now && count == |Concat(out)| && i <= base + count
    && (Steady(pending, base) && n >= Enough(pending, 0) ==> CutOff(pending, out, now) && Steady(now, base + count))
  }

  lemma CopiedNothing(pending: bytes, base: nat, n: nat)
    ensures Copied(pending, base, [], pending, base, 0, n) && Concat([]) == []
  {
    hide Steady;
    NothingCutOff(pending);
    assert [] + pending == pending;
  }

  lemma CopiedCalm(pending: bytes, base: nat, out: seq<bytes>, now: bytes, i: nat, count: nat, n: nat)
    requires Copied(pending, base, out, now, i, count, n)
    ensures pending == Concat(out) + now && count == |Concat(out)|
    ensures Steady(pending, base) && n >= Enough(pending, 0) ==>
              CutOff(pending, out, now) && Calm(now, i, n)
  {
    hide Skip, Strays, Concat, CutOff;
    if Steady(pending, base) && n >= Enough(pending, 0) {
      SteadyNext(now, base + count);
      if Strays(now, 0, MAX_INT - i) {
        StraysLess(now, 0, MAX_INT - (base + count), MAX_INT - i);
      }
    }
  }

  lemma CopiedNext(pending: bytes, base: nat, out: seq<bytes>, was: bytes, i: nat, count: nat,
                   data: bytes, now: bytes, i': nat, n: nat)
    requires Copied(pending, base, out, was, i, count, n) && was == data + now && i' <= i + |data|
    requires Steady(pending, base) && n >= Enough(pending, 0) ==> Skip(Stream, was, 0) == End(|data|)
    ensures Copied(pending, base, out + [data], now, i', count + |data|, n)
    ensures pending == Concat(out + [data]) + now && |Concat(out + [data])| == count + |data|
    ensures Steady(pending, base) && n >= Enough(pending, 0) ==> CutOff(pending, out + [data], now)
  {
    hide Skip, Concat, CutOff, Strays;
    ConcatAppend(out, data);
    Assoc(Concat(out), data, now);
    if Steady(pending, base) && n >= Enough(pending, 0) {
      SteadyNext(was, base + count);
      CutOffNext(pending, out, data, was, now);
      assert was[|data|..] == now;
    }
  }

  /** What a stuck reader writes. */
  function Empties(k: nat): seq<bytes> { seq(k, _ => []) }

  /** If the next value strays nowhere, the buffer's answer is the right one, or asks for more. */
  lemma CalmAnswer(buf: bytes, i: nat, rest: bytes, base: nat, n: nat)
    requires i <= |buf| && i <= base
    ensures var s := buf[i..] + rest;
            !Strays(s, 0, MAX_INT - base) && n >= Enough(s, 0) ==>
              var r := SkipIndex(buf, i, n);
              && r.Some?
              && (r.value > 0 ==> r.value > i && Skip(Stream, s, 0) == End(r.value - i))
              && (r.value < -1 ==> Skip(Stream, s, 0) in {BadFormat, BadSpecial})
              && (-1 <= r.value <= 0 ==> Skip(Stream, buf[i..], 0) == UnexpectedEOF)
  {
    hide Skip, SkipIndex, Strays;
    var s := buf[i..] + rest;
    if !Strays(s, 0, MAX_INT - base) && n >= Enough(s, 0) {
      BufferAnswer(buf, i, rest);
      if Strays(buf, i, MAX_INT) {
        StraysShift(buf, buf[i..], i, 0, MAX_INT - i);
        StraysPrefix(buf[i..], rest, 0, MAX_INT - i);
        StraysLess(s, 0, MAX_INT - base, MAX_INT - i);
      }
      IndexOfSkip(buf, i, n);
      assert rest == [] ==> s == buf[i..];
    }
  }

  lemma StuckAnswer(buf: bytes, i: nat, rest: bytes, n: nat)
    requires i <= |buf|
    ensures i == |buf| && n > 0 ==> SkipIndex(buf, i, n) == Some(-1)
    ensures i == 0 < |buf| && buf[0] in {0x5F, 0x7F} && n > 0 ==> SkipIndex(buf, i, n) == Some(0)
  {
    if i == 0 < |buf| && buf[0] in {0x5F, 0x7F} && n > 0 {
      IndefiniteString(buf, 0, n);
    }
  }

  lemma IndexLevel(b: bytes, st: nat, n: nat)
    ensures n == 0 ==> SkipIndex(b, st, n) == None
    ensures n > 0 && ReadTag(b, st) == TagEOF ==> SkipIndex(b, st, n) == Some(-1)
    ensures n > 0 && ReadTag(b, st) == TagBadFormat ==> SkipIndex(b, st, n) == Some(-2)
    ensures var t := ReadTag(b, st);
            n > 0 && t.Tag? ==>
              SkipIndex(b, st, n) ==
              if t.major == Bytes || t.major == Text then Some(Within(b, WrapAdd(t.next, t.sub)))
              else if t.major == Array || t.major == Map then ItemsIndex(b, t.next, t.major == Map, t.sub, 0, n - 1)
              else if t.major == Semantic then SkipIndex(b, t.next, n - 1)
              else if t.major == Special then Some(Code(SkipSpecial(Stream, b, st)))
              else Some(t.next)
  {
    hide ReadTag, ItemsIndex, SkipSpecial;
  }

  lemma IndexTurn(b: bytes, i: nat, isMap: bool, sub: int, el: nat, n: nat)
    requires i <= |b|
    ensures ItemsIndex(b, i, isMap, sub, el, n) ==
            if sub != -1 && el >= sub then Some(i)
            else if n == 0 then None
            else if i == |b| then Some(-1)
            else if sub == -1 && b[i] == BREAK_BYTE then Some(i + 1)
            else
              var v := ElementIndex(b, i, isMap, n - 1);
              if v.Some? && v.value >= 0 then ItemsIndex(b, v.value, isMap, sub, el + 1, n - 1) else v
  {
    hide ElementIndex;
  }

  // ----- strings of indefinite length -----

  /** A number and the head of such a string, delivered at once: after the number, empty values are written until the
      writer refuses, however many it takes. */
  method EmptyForever(k: nat) returns (w: Sink)
    ensures w.writes == [[0x00]] + Empties(k)
  {
    hide Skip, SkipIndex, Strays, Steady, Calm, CutOff, Concat, Indefinite;
    var r := Delivered([0x00, 0x5F]);
    w := new Sink;
    w.writes, w.budget := [], k + 1;
    StuckBuffer();
    var data, _, _ := r.ReadOne(1);
    assert data == [0x00];
    var _, _ := w.Write(data);
    var _, last, out, lost, late := r.WriteTo(w, 1);
  }

  /** A reader whose buffer holds the whole of a short stream. */
  method Delivered(stream: bytes) returns (r: Reader)
    requires |stream| <= 8
    ensures fresh(r) && fresh(r.b) && fresh(r.src) && r.Valid() && r.i == 0 && r.b[..r.len] == stream
  {
    var src := new Source(stream, []);
    r := new Reader(src);
    var err := r.more(0);
    assert r.b[..r.len] == r.Pending();
  }

  lemma StuckBuffer()
    ensures var b: bytes := [0x00, 0x5F]; SkipIndex(b, 0, 1) == Some(1) && SkipIndex(b, 1, 1) == Some(1)
  {
    var b: bytes := [0x00, 0x5F];
    IndefiniteString(b, 1, 1);
    assert ReadTag(b, 0) == Tag(Int, 0, 1);
  }

  /** The head alone: however it is delivered, it is taken for a request for more, and the stream ends without error. */
  method AsksForMore(plan: seq<Step>) returns (err: Err, r: Reader)
    ensures r.Valid() && r.Pending() == [0x5F] && err in {EOF, Failed} && (err == Failed ==> Failures(plan) > 0)
  {
    var src := new Source([0x5F], plan);
    r := new Reader(src);
    var data;
    ghost var late;
    data, err, late := r.ReadOne(1);
  }

  // ----- streams and what was cut off -----

  /** `now` is the stream `s` after its first values, `out`, have been cut off. */
  ghost predicate CutOff(s: bytes, out: seq<bytes>, now: bytes) {
    && s == Concat(out) + now
    && Frames(s) == out + Frames(now)
    && Tail(s) == Tail(now)
  }

  lemma NothingCutOff(s: bytes)
    ensures CutOff(s, [], s) && Concat([]) == []
  {
  }

  lemma CutOffNext(s: bytes, out: seq<bytes>, data: bytes, was: bytes, now: bytes)
    requires CutOff(s, out, was) && was == data + now && Skip(Stream, was, 0) == End(|data|)
    ensures CutOff(s, out + [data], now) && Concat(out + [data]) == Concat(out) + data
  {
    hide Skip;
    assert was[..|data|] == data && was[|data|..] == now;
    assert Frames(was) == [data] + Frames(now);
    ConcatAppend(out, data);
    assert Concat(out) + (data + now) == Concat(out) + data + now;
  }

  /** What `WriteTo` has promised, for a stream of well-formed values with a strict prefix of one more at its end:
      at any moment the values written are the first ones, in order; and once no complete value is pending
      they are all written and the partial one is what is left. */
  lemma ValuesCutOff(vs: seq<Value>, next: Value, n: nat, out: seq<bytes>, now: bytes)
    requires ValidAll(Stream, vs) && Valid(Stream, next) && n < |Enc(next)|
    requires CutOff(EncAll(vs) + Enc(next)[..n], out, now)
    ensures out <= Encodings(vs)
    ensures !Skip(Stream, now, 0).End? ==> out == Encodings(vs) && now == Enc(next)[..n]
    ensures Skip(Stream, now, 0) !in {BadFormat, BadSpecial, Rewound}
  {
    hide Skip, Enc, Valid;
    FramesOfValues(vs, next, n, 0);
    if !Skip(Stream, now, 0).End? {
      assert Frames(now) == [] && Tail(now) == now;
    }
  }

  /** From a source that does not fail, in whatever portions it delivers, to a writer that takes them: exactly the
      frames are written and the tail is left, without error if it only lacks bytes. */
  method CopyFrames(r: Reader, w: Sink, n: nat) returns (err: Err)
    requires r.Valid() && Failures(r.src.plan) == 0 && w.budget >= |Frames(r.Pending())|
    requires Steady(r.Pending(), r.i) && n >= Enough(r.Pending(), 0)
    modifies r, r.b, r.src, w
    ensures r.Valid() && w.writes == old(w.writes) + Frames(old(r.Pending())) && r.Pending() == Tail(old(r.Pending()))
    ensures err in {NoError, BadStream} && (err == NoError ==> r.src.rest == [])
    ensures err == NoError <==> Skip(Stream, Tail(old(r.Pending())), 0) == UnexpectedEOF
    ensures err == BadStream <==> Skip(Stream, Tail(old(r.Pending())), 0) in {BadFormat, BadSpecial}
  {
    hide Skip, SkipIndex, Steady, Concat;
    ghost var pending := r.Pending();
    var count;
    ghost var out, lost, late;
    count, err, out, lost, late := r.WriteTo(w, n);
    AllCutOff(pending, out + lost, r.Pending());
    if lost != [] {
      assert false;
    }
    assert out + [] == out;
  }

  lemma AllCutOff(s: bytes, out: seq<bytes>, now: bytes)
    requires CutOff(s, out, now)
    ensures |out| <= |Frames(s)|
    ensures !Skip(Stream, now, 0).End? ==> out == Frames(s) && now == Tail(s)
  {
    hide Skip;
    FirstFrame(now);
    assert out + [] == out;
  }

  /** Values and part of one more: the reader writes exactly the values, and stops at the end of the stream without
      error, the part being left. */
  method CopyValues(r: Reader, w: Sink, n: nat, ghost vs: seq<Value>, ghost next: Value, ghost k: nat)
    returns (err: Err)
    requires r.Valid() && Failures(r.src.plan) == 0 && w.budget >= |vs|
    requires ValidAll(Stream, vs) && Valid(Stream, next) && k < |Enc(next)|
    requires r.Pending() == EncAll(vs) + Enc(next)[..k] && r.i + |EncAll(vs)| + |Enc(next)| <= MAX_INT
    requires n >= Enough(r.Pending(), 0)
    modifies r, r.b, r.src, w
    ensures r.Valid() && err == NoError && r.src.rest == []
    ensures w.writes == old(w.writes) + Encodings(vs) && r.Pending() == Enc(next)[..k]
  {
    hide Skip, Steady, Enc, EncAll, Valid, ValidAll;
    FramesOfValues(vs, next, k, r.i);
    err := CopyFrames(r, w, n);
  }

  /** What `skip` says of the buffer is true of the whole pending stream, unless it asks for more. */
  lemma BufferAnswer(buf: bytes, i: nat, rest: bytes)
    requires i <= |buf|
    ensures var r := Skip(Stream, buf, i);
            && Skip(Stream, buf[i..], 0) == (if r.End? then End(r.end - i) else r)
            && (r != UnexpectedEOF ==> Skip(Stream, buf[i..] + rest, 0) == Skip(Stream, buf[i..], 0))
  {
    hide Skip;
    SkipShift(Stream, buf, buf[i..], i, 0);
    if Skip(Stream, buf, i) != UnexpectedEOF {
      SkipStable(Stream, buf[i..], rest, 0);
    }
  }
}
