/** What the agent's files hold: blocks of compressed frames at aligned offsets, and how to read them back. */
module Storage {
  import opened Wire

  /** The compressor: `enc(h, p)` is the frame written for payload `p` when `h` was written since the last reset;
      `dec(h, s)` is the payload of the frame at the start of `s`, and the frame's length. */
  datatype Codec = Codec(enc: (seq<bytes>, bytes) -> bytes, dec: (seq<bytes>, bytes) -> (bytes, nat))

  predicate AllZero(s: bytes) {
    forall k | 0 <= k < |s| :: s[k] == 0
  }

  /** The decompressor inverts the compressor whatever follows a frame, and no frame is just zeros. */
  ghost predicate Lawful(c: Codec) {
    && (forall h, p, rest :: c.dec(h, c.enc(h, p) + rest) == (p, |c.enc(h, p)|))
    && (forall h, p :: !AllZero(c.enc(h, p)))
  }

  // ----- what is written -----

  function Zeros(n: nat): (s: bytes)
    ensures |s| == n && AllZero(s)
  {
    seq(n, _ => 0)
  }

  /** The distance from an offset to the next multiple of the block size. */
  function Gap(size: nat, off: nat): (n: nat)
    requires size > 0
    ensures n < size && (off + n) % size == 0
  {
    if off % size == 0 then 0
    else
      assert off == off / size * size + off % size;
      assert off + (size - off % size) == (off / size + 1) * size;
      MultipleMod(off / size + 1, size);
      size - off % size
  }

  lemma MultipleMod(k: nat, size: nat)
    requires size > 0
    ensures k * size % size == 0
  {
    AddMultiple(0, k, size);
  }

  lemma ModUnique(q: int, r: nat, size: nat)
    requires r < size
    ensures (q * size + r) % size == r
  {
    var y := q * size + r;
    var d := y / size - q;
    assert d * size == y / size * size - q * size == r - y % size;
    assert d >= 1 ==> d * size >= size;
    assert d <= -1 ==> d * size + size <= 0;
  }

  lemma AddMultiple(x: nat, k: nat, size: nat)
    requires size > 0
    ensures (x + k * size) % size == x % size
  {
    assert x == x / size * size + x % size;
    assert x + k * size == (x / size + k) * size + x % size;
    ModUnique(x / size + k, x % size, size);
  }

  function Padded(size: nat, s: bytes): bytes
    requires size > 0
  {
    s + Zeros(Gap(size, |s|))
  }

  lemma PaddedAligned(size: nat, s: bytes)
    requires size > 0
    ensures |Padded(size, s)| == |Padded(size, s)| / size * size
  {
  }

  /** The frames of payloads `ps` written one after the other when `h` was written before them. */
  function Frames(c: Codec, h: seq<bytes>, ps: seq<bytes>): bytes
    decreases |ps|
  {
    if ps == [] then [] else c.enc(h, ps[0]) + Frames(c, h + [ps[0]], ps[1..])
  }

  /** A file's content: each block starts at a multiple of the block size with an empty history. */
  function Layout(c: Codec, size: nat, blocks: seq<seq<bytes>>): bytes
    requires size > 0
  {
    if blocks == [] then []
    else if |blocks| == 1 then Frames(c, [], blocks[0])
    else Padded(size, Frames(c, [], blocks[0])) + Layout(c, size, blocks[1..])
  }

  /** A block is longer than the block size only when it holds a single frame. */
  ghost predicate BlockFits(c: Codec, size: nat, ps: seq<bytes>) {
    ps != [] && (|Frames(c, [], ps)| <= size || |ps| == 1)
  }

  ghost predicate BlocksFit(c: Codec, size: nat, blocks: seq<seq<bytes>>) {
    forall ps <- blocks :: BlockFits(c, size, ps)
  }

  function Flatten<T>(xss: seq<seq<T>>): seq<T> {
    if xss == [] then [] else xss[0] + Flatten(xss[1..])
  }

  // ----- how it is read back -----

  function Min(a: nat, b: nat): nat { if a < b then a else b }

  /** The phase `n` bytes further on. */
  function After(size: nat, phase: nat, n: nat): (r: nat)
    requires size > 0
    ensures r < size
  {
    (phase + n) % size
  }

  /** Reads payloads off `s`, whose first byte is at an offset that is `phase` modulo the block size. At every
      multiple of the block size the history is forgotten; zeros up to the next multiple are padding. */
  function Decode(c: Codec, size: nat, phase: nat, h: seq<bytes>, s: bytes): seq<bytes>
    requires phase < size
    decreases |s|
  {
    if s == [] then []
    else if phase != 0 && AllZero(s[..Min(size - phase, |s|)]) then Decode(c, size, 0, [], s[Min(size - phase, |s|)..])
    else
      var known := if phase == 0 then [] else h;
      var (p, n) := c.dec(known, s);
      if 0 < n <= |s| then [p] + Decode(c, size, After(size, phase, n), known + [p], s[n..]) else []
  }

  lemma DecodeOne(c: Codec, size: nat, phase: nat, h: seq<bytes>, p: bytes, tail: bytes)
    requires Lawful(c) && phase < size && (phase == 0 ==> h == [])
    requires phase != 0 ==> phase + |c.enc(h, p)| <= size
    ensures Decode(c, size, phase, h, c.enc(h, p) + tail) ==
            [p] + Decode(c, size, After(size, phase, |c.enc(h, p)|), h + [p], tail)
  {
    var f := c.enc(h, p);
    var s := f + tail;
    assert !AllZero(f);
    var k :| 0 <= k < |f| && f[k] != 0;
    if phase != 0 {
      assert s[..Min(size - phase, |s|)][k] == f[k];
    }
    assert c.dec(h, s) == (p, |f|);
    assert s[|f|..] == tail;
  }

  lemma {:induction false} DecodeFrames(c: Codec, size: nat, phase: nat, h: seq<bytes>, ps: seq<bytes>, rest: bytes)
    requires Lawful(c) && phase < size && (phase == 0 ==> h == [])
    requires phase + |Frames(c, h, ps)| <= size || (|ps| == 1 && phase == 0)
    ensures Decode(c, size, phase, h, Frames(c, h, ps) + rest) ==
            ps + Decode(c, size, After(size, phase, |Frames(c, h, ps)|), h + ps, rest)
    decreases |ps|
  {
    hide Decode, Lawful, After;
    if ps == [] {
      AfterBasics(size, phase, 0, 0);
      assert Frames(c, h, ps) + rest == rest && h + ps == h;
      assert ps + Decode(c, size, phase, h, rest) == Decode(c, size, phase, h, rest);
    } else {
      var f, more := c.enc(h, ps[0]), Frames(c, h + [ps[0]], ps[1..]);
      var all, next := Frames(c, h, ps), After(size, phase, |f|);
      assert all + rest == f + (more + rest) && |all| == |f| + |more|;
      DecodeOne(c, size, phase, h, ps[0], more + rest);
      if |ps| == 1 {
        assert all == f && more + rest == rest && ps == [ps[0]];
      } else {
        FramesNonEmpty(c, h + [ps[0]], ps[1..]);
        FramesNonEmpty(c, h, ps[..1]);
        AfterBasics(size, phase, |f|, |more|);
        DecodeFrames(c, size, next, h + [ps[0]], ps[1..], rest);
        assert h + [ps[0]] + ps[1..] == h + ps;
        SplitFirst(ps, Decode(c, size, After(size, phase, |all|), h + ps, rest));
      }
    }
  }

  lemma AfterBasics(size: nat, phase: nat, m: nat, n: nat)
    requires phase + m < size
    ensures After(size, phase, m) == phase + m && After(size, phase + m, n) == After(size, phase, m + n)
  {
  }

  lemma SplitFirst(ps: seq<bytes>, d: seq<bytes>)
    requires ps != []
    ensures [ps[0]] + (ps[1..] + d) == ps + d
  {
  }

  lemma FramesNonEmpty(c: Codec, h: seq<bytes>, ps: seq<bytes>)
    requires Lawful(c) && ps != []
    ensures |Frames(c, h, ps)| > 0
  {
    assert !AllZero(c.enc(h, ps[0]));
  }

  lemma DecodePadding(c: Codec, size: nat, phase: nat, h: seq<bytes>, rest: bytes)
    requires phase < size && (rest != [] || phase == 0)
    ensures Decode(c, size, phase, h, Zeros(if phase == 0 then 0 else size - phase) + rest)
            == Decode(c, size, 0, [], rest)
  {
    var z := Zeros(if phase == 0 then 0 else size - phase);
    if phase == 0 {
      assert z + rest == rest;
    } else {
      assert (z + rest)[..|z|] == z && (z + rest)[|z|..] == rest;
    }
  }

  lemma GapAndPhase(size: nat, n: nat)
    requires size > 0
    ensures Gap(size, n) == if n % size == 0 then 0 else size - n % size
  {
  }

  /** A block and its padding are read as the block's payloads, and what follows as the start of a block. */
  lemma DecodeBlock(c: Codec, size: nat, ps: seq<bytes>, rest: bytes)
    requires Lawful(c) && size > 0 && BlockFits(c, size, ps) && rest != []
    ensures Decode(c, size, 0, [], Padded(size, Frames(c, [], ps)) + rest) == ps + Decode(c, size, 0, [], rest)
  {
    hide Decode, Lawful, Frames, Zeros, Gap;
    var f := Frames(c, [], ps);
    var z := Zeros(Gap(size, |f|));
    GapAndPhase(size, |f|);
    DecodeFrames(c, size, 0, [], ps, z + rest);
    assert [] + ps == ps && f + z + rest == f + (z + rest);
    DecodePadding(c, size, |f| % size, ps, rest);
  }

  lemma DecodeLastBlock(c: Codec, size: nat, ps: seq<bytes>)
    requires Lawful(c) && size > 0 && BlockFits(c, size, ps)
    ensures Decode(c, size, 0, [], Frames(c, [], ps)) == ps
  {
    hide Lawful, Frames;
    var f := Frames(c, [], ps);
    DecodeFrames(c, size, 0, [], ps, []);
    assert f + [] == f && ps + [] == ps;
  }

  /** Reading a file gives back the payloads of its blocks. */
  lemma {:induction false} DecodeFile(c: Codec, size: nat, blocks: seq<seq<bytes>>)
    requires Lawful(c) && size > 0 && BlocksFit(c, size, blocks)
    ensures Decode(c, size, 0, [], Layout(c, size, blocks)) == Flatten(blocks)
    decreases |blocks|
  {
    hide Lawful, Frames, Padded, BlockFits, Decode;
    if blocks == [] {
      DecodeNothing(c, size);
    } else {
      var ps, more := blocks[0], blocks[1..];
      assert BlockFits(c, size, ps);
      DecodeFile(c, size, more);
      if |blocks| == 1 {
        DecodeLastBlock(c, size, ps);
        assert more == [] && ps + [] == ps;
      } else {
        LayoutNonEmpty(c, size, more);
        DecodeBlock(c, size, ps, Layout(c, size, more));
      }
    }
  }

  lemma DecodeNothing(c: Codec, size: nat)
    requires size > 0
    ensures Decode(c, size, 0, [], []) == []
  {
  }

  lemma LayoutNonEmpty(c: Codec, size: nat, blocks: seq<seq<bytes>>)
    requires Lawful(c) && size > 0 && BlocksFit(c, size, blocks) && blocks != []
    ensures |Layout(c, size, blocks)| > 0
  {
    assert BlockFits(c, size, blocks[0]);
    FramesNonEmpty(c, [], blocks[0]);
  }

  // ----- how a write changes a file -----

  lemma {:induction false} FramesAppend(c: Codec, h: seq<bytes>, ps: seq<bytes>, p: bytes)
    ensures Frames(c, h, ps + [p]) == Frames(c, h, ps) + c.enc(h + ps, p)
    decreases |ps|
  {
    if ps == [] {
      assert [] + [p] == [p] && [p][1..] == [] && h + [] == h;
      assert c.enc(h, p) + [] == c.enc(h, p) && [] + c.enc(h, p) == c.enc(h, p);
    } else {
      assert (ps + [p])[1..] == ps[1..] + [p] && h + [ps[0]] + ps[1..] == h + ps;
      FramesAppend(c, h + [ps[0]], ps[1..], p);
      var a, b, e := c.enc(h, ps[0]), Frames(c, h + [ps[0]], ps[1..]), c.enc(h + ps, p);
      assert a + (b + e) == a + b + e;
    }
  }

  /** One more frame in the last block. */
  lemma {:induction false} LayoutGrow(c: Codec, size: nat, blocks: seq<seq<bytes>>, p: bytes)
    requires size > 0 && blocks != []
    ensures var n := |blocks| - 1;
            Layout(c, size, blocks[n := blocks[n] + [p]]) == Layout(c, size, blocks) + c.enc(blocks[n], p)
    decreases |blocks|
  {
    var n := |blocks| - 1;
    var bigger := blocks[n := blocks[n] + [p]];
    if n == 0 {
      FramesAppend(c, [], blocks[0], p);
      assert [] + blocks[0] == blocks[0];
    } else {
      LayoutGrow(c, size, blocks[1..], p);
      assert bigger[1..] == blocks[1..][n - 1 := blocks[n] + [p]];
      var a, b, e := Padded(size, Frames(c, [], blocks[0])), Layout(c, size, blocks[1..]), c.enc(blocks[n], p);
      assert a + (b + e) == a + b + e;
    }
  }

  lemma PaddedShift(size: nat, a: bytes, b: bytes)
    requires size > 0 && |a| % size == 0
    ensures Padded(size, a + b) == a + Padded(size, b)
  {
    var k := |a| / size;
    assert |a| == k * size;
    AddMultiple(|b|, k, size);
    GapAndPhase(size, |b|);
    GapAndPhase(size, |a + b|);
    assert a + b + Zeros(Gap(size, |b|)) == a + (b + Zeros(Gap(size, |b|)));
  }

  /** A new block starts after padding. */
  lemma {:induction false} LayoutNewBlock(c: Codec, size: nat, blocks: seq<seq<bytes>>, ps: seq<bytes>)
    requires size > 0 && blocks != []
    ensures Layout(c, size, blocks + [ps]) == Padded(size, Layout(c, size, blocks)) + Frames(c, [], ps)
    decreases |blocks|
  {
    assert (blocks + [ps])[1..] == blocks[1..] + [ps];
    var a := Padded(size, Frames(c, [], blocks[0]));
    if |blocks| == 1 {
      assert blocks[1..] + [ps] == [ps];
    } else {
      var b, f := Layout(c, size, blocks[1..]), Frames(c, [], ps);
      LayoutNewBlock(c, size, blocks[1..], ps);
      PaddedShift(size, a, b);
      assert a + (Padded(size, b) + f) == a + Padded(size, b) + f;
    }
  }

  /** The last block starts at a multiple of the block size. */
  lemma {:induction false} LastBlockAligned(c: Codec, size: nat, blocks: seq<seq<bytes>>)
    requires size > 0 && blocks != []
    ensures var n := |Layout(c, size, blocks)| - |Frames(c, [], blocks[|blocks| - 1])|;
            n >= 0 && n % size == 0
    decreases |blocks|
  {
    if |blocks| > 1 {
      LastBlockAligned(c, size, blocks[1..]);
      assert blocks[1..][|blocks| - 2] == blocks[|blocks| - 1];
      var a, n := |Padded(size, Frames(c, [], blocks[0]))|,
        |Layout(c, size, blocks[1..])| - |Frames(c, [], blocks[|blocks| - 1])|;
      PaddedAligned(size, Frames(c, [], blocks[0]));
      AddMultiple(n, a / size, size);
    }
  }

  lemma {:induction false} FlattenAppend<T>(xss: seq<seq<T>>, xs: seq<T>)
    ensures Flatten(xss + [xs]) == Flatten(xss) + xs
  {
    if xss == [] {
      assert [] + [xs] == [xs] && [xs][1..] == [] && xs + [] == xs && [] + xs == xs;
    } else {
      assert (xss + [xs])[1..] == xss[1..] + [xs];
      FlattenAppend(xss[1..], xs);
      assert xss[0] + (Flatten(xss[1..]) + xs) == xss[0] + Flatten(xss[1..]) + xs;
    }
  }

  /** One more item in the last part is one more item at the end. */
  lemma FlattenGrow<T>(xss: seq<seq<T>>, x: T)
    requires xss != []
    ensures var n := |xss| - 1; Flatten(xss[n := xss[n] + [x]]) == Flatten(xss) + [x]
  {
    var n := |xss| - 1;
    assert xss == xss[..n] + [xss[n]] && xss[n := xss[n] + [x]] == xss[..n] + [xss[n] + [x]];
    FlattenAppend(xss[..n], xss[n]);
    FlattenAppend(xss[..n], xss[n] + [x]);
    assert Flatten(xss[..n]) + (xss[n] + [x]) == Flatten(xss[..n]) + xss[n] + [x];
  }

  // ----- the assumption on the compressor can be met -----

  /** Marks every payload byte with a one and the end with a two. */
  function Marked(p: bytes): bytes {
    if p == [] then [2] else [1, p[0]] + Marked(p[1..])
  }

  function Unmarked(s: bytes): (bytes, nat) {
    if |s| < 2 || s[0] != 1 then ([], if s == [] then 0 else 1)
    else
      var (p, n) := Unmarked(s[2..]);
      ([s[1]] + p, n + 2)
  }

  lemma {:induction false} UnmarkedMarked(p: bytes, rest: bytes)
    ensures Unmarked(Marked(p) + rest) == (p, |Marked(p)|) && Marked(p)[0] != 0
    decreases |p|
  {
    if p != [] {
      UnmarkedMarked(p[1..], rest);
      var s := Marked(p) + rest;
      assert s[0] == 1 && s[1] == p[0] && s[2..] == Marked(p[1..]) + rest;
      assert p == [p[0]] + p[1..];
    } else {
      assert (Marked(p) + rest)[0] == 2;
    }
  }

  const MARKING := Codec((h: seq<bytes>, p: bytes) => Marked(p), (h: seq<bytes>, s: bytes) => Unmarked(s))

  lemma LawfulCodecExists()
    ensures Lawful(MARKING)
  {
    var c := MARKING;
    forall h: seq<bytes>, p: bytes, rest: bytes
      ensures c.dec(h, c.enc(h, p) + rest) == (p, |c.enc(h, p)|)
    {
      UnmarkedMarked(p, rest);
    }
    forall h: seq<bytes>, p: bytes
      ensures !AllZero(c.enc(h, p))
    {
      UnmarkedMarked(p, []);
      assert Marked(p)[0] != 0;
    }
  }
}
