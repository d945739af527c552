/** The agent: it sorts incoming messages into streams by their labels and writes each stream to a chain of files. */
module Agents {
  import opened Wire
  import opened Storage

  /** The agent's settings, and the parts of it that are not modelled, as functions: compressor, label checksum,
      time partition, and what the header parser finds (timestamp and labels; None is a parse error). */
  datatype Config = Config(
    codec: Codec, checksum: bytes -> nat, partition: int -> int, header: bytes -> Option<(int, bytes)>,
    fileSize: nat, blockSize: nat)
  {
    ghost predicate Valid() {
      blockSize > 0 && Lawful(codec)
    }

    /** The message's own timestamp. */
    predicate Stamped(p: bytes, ts: int) { header(p).Some? && header(p).value.0 == ts }

    /** The message's timestamp falls in the partition. */
    predicate InPartition(p: bytes, part: int) { header(p).Some? && partition(header(p).value.0) == part }
  }

  datatype IndexEntry = IndexEntry(off: nat, ts: int)

  class File {
    const part: int
    const ts: int
    const prev: File?
    const seekable: bool  // whether the writer can truncate and seek
    var data: bytes       // the file's content
    var off: nat
    var index: seq<IndexEntry>

    ghost var blocks: seq<seq<bytes>>  // the payloads of each block

    constructor (part: int, ts: int, prev: File?, seekable: bool)
      ensures this.part == part && this.ts == ts && this.prev == prev && this.seekable == seekable
      ensures data == [] && off == 0 && index == [] && blocks == []
    {
      this.part, this.ts, this.prev, this.seekable := part, ts, prev, seekable;
      data, off, index, blocks := [], 0, [], [];
    }

    ghost predicate Valid(cfg: Config)
      reads this
      requires cfg.Valid()
    {
      && off == |data| && data == Layout(cfg.codec, cfg.blockSize, blocks)
      && blocks != [] && BlocksFit(cfg.codec, cfg.blockSize, blocks)
      && (forall p <- Flatten(blocks) :: cfg.InPartition(p, part))
      && Flatten(blocks) != [] && |index| == 1 && index[0].off == 0 && cfg.Stamped(Flatten(blocks)[0], index[0].ts)
      && (|Last()| > 1 ==> off <= cfg.fileSize)
      && (|Last()| == 1 && |blocks| > 1 ==> off < cfg.fileSize + cfg.blockSize + |cfg.codec.enc([], Last()[0])|)
    }

    ghost predicate Fresh()
      reads this
    {
      data == [] && off == 0 && index == [] && blocks == []
    }

    /** The payloads of the block being written. */
    ghost function Last(): seq<bytes>
      reads this
    {
      if blocks == [] then [] else blocks[|blocks| - 1]
    }

    /** The first payload of the file. */
    ghost function First(): bytes
      reads this
    {
      if Flatten(blocks) == [] then [] else Flatten(blocks)[0]
    }

    /** Appends a frame. Only the very first one of a file gets an index entry: the flag for the later blocks
        is declared again inside the condition that sets it, and never seen here. */
    method put(z: bytes, ts: int, ghost newBlocks: seq<seq<bytes>>)
      modifies this
      ensures data == old(data) + z && off == old(off) + |z|
      ensures index == if old(index) == [] then [IndexEntry(old(off), ts)] else old(index)
      ensures blocks == newBlocks
    {
      if |index| == 0 {
        index := index + [IndexEntry(off, ts)];
      }
      data := data + z;
      off := off + |z|;
      blocks := newBlocks;
    }

    /** Extends the file with zeros to the next multiple of the block size. */
    method padFile(blockSize: nat)
      requires blockSize > 0 && off == |data|
      modifies this`data, this`off
      ensures data == Padded(blockSize, old(data)) && off == |data| && old(off) <= off < old(off) + blockSize
    {
      GapAndPhase(blockSize, off);
      if off % blockSize == 0 {
        assert data + Zeros(0) == data;
        return;
      }
      var to := off + blockSize - off % blockSize;
      if seekable {
        data := data + Zeros(to - |data|);
        off := to;
      } else {
        var padding := Zeros(to - off);
        data := data + padding;
        off := off + |padding|;
      }
    }
  }

  class Stream {
    const labels: bytes
    const sum: nat
    var file: File?
    var history: seq<bytes>  // the compressor's state: what it was given since its last reset
    var zbuf: bytes
    var boff: nat

    ghost var chain: seq<File>

    constructor (labels: bytes, sum: nat)
      ensures this.labels == labels && this.sum == sum
      ensures file == null && history == [] && boff == 0 && chain == []
    {
      this.labels, this.sum := labels, sum;
      file, history, zbuf, boff, chain := null, [], [], 0, [];
    }

    ghost predicate Valid(cfg: Config)
      reads this, chain
      requires cfg.Valid()
    {
      && sum == cfg.checksum(labels)
      && Linked(chain) && AllValid(cfg, chain) && Needed(cfg, chain)
      && file == (if chain == [] then null else chain[|chain| - 1])
      && history == (if chain == [] then [] else chain[|chain| - 1].Last())
      && boff == |Frames(cfg.codec, [], history)|
    }

  }

  /** Distinct files, each pointing to the one before. */
  ghost predicate Linked(files: seq<File>) {
    files == [] ||
    var f, init := files[|files| - 1], files[..|files| - 1];
    f !in init && f.prev == (if init == [] then null else init[|init| - 1]) && Linked(init)
  }

  ghost predicate AllValid(cfg: Config, files: seq<File>)
    reads files
    requires cfg.Valid()
  {
    forall f | f in files :: f.Valid(cfg)
  }

  /** Within a time partition, a file follows another only if its first payload did not fit there. */
  ghost predicate Needed(cfg: Config, files: seq<File>)
    reads files
  {
    forall k | 0 < k < |files| && files[k - 1].part == files[k].part ::
      files[k - 1].off + |cfg.codec.enc(files[k - 1].Last(), files[k].First())| > cfg.fileSize
  }

  /** The last of the files is of another partition, or has no room for the payload. */
  ghost predicate NoRoom(cfg: Config, files: seq<File>, part: int, p: bytes)
    reads files
  {
    files == [] ||
    var f := files[|files| - 1];
    f.part == part ==> f.off + |cfg.codec.enc(f.Last(), p)| > cfg.fileSize
  }

  lemma NeededSnoc(cfg: Config, init: seq<File>, f: File)
    ensures Needed(cfg, init + [f]) <==> Needed(cfg, init) && NoRoom(cfg, init, f.part, f.First())
  {
    hide File.Last, File.First;
    var all := init + [f];
    assert forall k | 0 <= k < |init| :: all[k] == init[k];
    if Needed(cfg, all) {
      if init != [] && init[|init| - 1].part == f.part {
        assert all[|init| - 1].part == all[|init|].part;
      }
      forall k | 0 < k < |init| && init[k - 1].part == init[k].part
        ensures init[k - 1].off + |cfg.codec.enc(init[k - 1].Last(), init[k].First())| > cfg.fileSize
      {
        assert all[k - 1].part == all[k].part;
      }
    }
  }

  /** What is known of the files before the current one while it is written to. */
  ghost predicate Earlier(cfg: Config, files: seq<File>, part: int, p: bytes, payloads: seq<bytes>)
    reads files
    requires cfg.Valid()
  {
    AllValid(cfg, files) && Needed(cfg, files) && NoRoom(cfg, files, part, p) && Payloads(files) == payloads
  }

  lemma EarlierFiles(cfg: Config, files: seq<File>, part: int, p: bytes, payloads: seq<bytes>)
    requires cfg.Valid()
    ensures Earlier(cfg, files, part, p, payloads) <==>
            AllValid(cfg, files) && Needed(cfg, files) && NoRoom(cfg, files, part, p) && Payloads(files) == payloads
  {
  }

  /** Everything written to a chain of files, in order. */
  ghost function Payloads(files: seq<File>): seq<bytes>
    reads files
  {
    if files == [] then []
    else Payloads(files[..|files| - 1]) + Flatten(files[|files| - 1].blocks)
  }

  /** What a chain of files holds. */
  ghost function Contents(files: seq<File>): seq<bytes>
    reads files
  {
    if files == [] then [] else Contents(files[..|files| - 1]) + [files[|files| - 1].data]
  }

  /** Reads a chain of files one after the other, knowing nothing but the block size. */
  function DecodeAll(c: Codec, size: nat, files: seq<bytes>): seq<bytes>
    requires size > 0
  {
    if files == [] then []
    else DecodeAll(c, size, files[..|files| - 1]) + Decode(c, size, 0, [], files[|files| - 1])
  }

  lemma {:induction false} ChainDecodes(cfg: Config, files: seq<File>)
    requires cfg.Valid() && AllValid(cfg, files)
    ensures DecodeAll(cfg.codec, cfg.blockSize, Contents(files)) == Payloads(files)
  {
    hide Decode, Layout, Lawful, BlocksFit;
    if files != [] {
      var n := |files| - 1;
      ChainDecodes(cfg, files[..n]);
      FileDecodes(cfg, files[n]);
      assert Contents(files)[..|Contents(files)| - 1] == Contents(files[..n]);
    }
  }

  lemma FileDecodes(cfg: Config, f: File)
    requires cfg.Valid() && f.Valid(cfg)
    ensures Decode(cfg.codec, cfg.blockSize, 0, [], f.data) == Flatten(f.blocks)
  {
    DecodeFile(cfg.codec, cfg.blockSize, f.blocks);
  }

  /** The current block starts at a multiple of the block size. */
  lemma BlockAligned(cfg: Config, s: Stream)
    requires cfg.Valid() && s.Valid(cfg) && s.file != null
    ensures s.file in s.chain
    ensures s.file.off >= s.boff && (s.file.off - s.boff) % cfg.blockSize == 0
    ensures s.boff > cfg.blockSize ==> |s.file.Last()| == 1
  {
    hide Layout, Lawful;
    var f := s.chain[|s.chain| - 1];
    assert f in s.chain;
    LastBlockAligned(cfg.codec, cfg.blockSize, f.blocks);
    assert f.Last() in f.blocks && BlockFits(cfg.codec, cfg.blockSize, f.Last());
  }

  // ----- the index -----

  /** Where a block starts in its file. */
  function BlockStart(cfg: Config, blocks: seq<seq<bytes>>, k: nat): int
    requires cfg.blockSize > 0 && k < |blocks|
  {
    |Layout(cfg.codec, cfg.blockSize, blocks[..k + 1])| - |Frames(cfg.codec, [], blocks[k])|
  }

  lemma StartOfFirst(cfg: Config, blocks: seq<seq<bytes>>)
    requires cfg.blockSize > 0 && blocks != []
    ensures BlockStart(cfg, blocks, 0) == 0
  {
    assert blocks[..1] == [blocks[0]];
  }

  lemma StartOfLater(cfg: Config, blocks: seq<seq<bytes>>, k: nat)
    requires cfg.Valid() && 0 < k < |blocks| && BlocksFit(cfg.codec, cfg.blockSize, blocks)
    ensures BlockStart(cfg, blocks, k) > 0
  {
    hide Layout, Frames, Lawful;
    var init := blocks[..k];
    assert blocks[..k + 1] == init + [blocks[k]];
    LayoutNewBlock(cfg.codec, cfg.blockSize, init, blocks[k]);
    assert forall ps <- init :: ps in blocks;
    LayoutNonEmpty(cfg.codec, cfg.blockSize, init);
  }

  /** The index of a file has one entry, for its first block: all blocks are indexed exactly when there is just one. */
  lemma IndexedIffOneBlock(cfg: Config, f: File)
    requires cfg.Valid() && f.Valid(cfg)
    ensures |f.index| == 1 && f.index[0].off == BlockStart(cfg, f.blocks, 0)
    ensures (forall k | 0 <= k < |f.blocks| :: exists e :: e in f.index && e.off == BlockStart(cfg, f.blocks, k))
            <==> |f.blocks| == 1
  {
    hide BlockStart, Layout, Lawful;
    StartOfFirst(cfg, f.blocks);
    assert f.index[0] in f.index;
    if |f.blocks| > 1 {
      StartOfLater(cfg, f.blocks, 1);
      assert forall e | e in f.index :: e.off == 0;
    }
  }

  // ----- the effect of one write on a file's ghost description -----

  lemma FirstFrame(cfg: Config, p: bytes)
    requires cfg.Valid()
    ensures Layout(cfg.codec, cfg.blockSize, [[p]]) == cfg.codec.enc([], p) == Frames(cfg.codec, [], [p])
    ensures BlocksFit(cfg.codec, cfg.blockSize, [[p]]) && Flatten([[p]]) == [p]
  {
    assert [p][1..] == [] && [[p]][1..] == [];
    var none: seq<bytes> := [];
    assert Frames(cfg.codec, none, [p]) == cfg.codec.enc(none, p) + Frames(cfg.codec, none + [p], none);
    assert Frames(cfg.codec, none + [p], none) == [];
    FlattenAppend([], [p]);
    assert [] + [[p]] == [[p]] && none + [p] == [p];
    assert |[p]| == 1 && [p] != [];
  }

  lemma NextBlock(cfg: Config, blocks: seq<seq<bytes>>, p: bytes)
    requires cfg.Valid() && blocks != [] && BlocksFit(cfg.codec, cfg.blockSize, blocks)
    ensures Layout(cfg.codec, cfg.blockSize, blocks + [[p]]) ==
            Padded(cfg.blockSize, Layout(cfg.codec, cfg.blockSize, blocks)) + cfg.codec.enc([], p)
    ensures BlocksFit(cfg.codec, cfg.blockSize, blocks + [[p]]) && Flatten(blocks + [[p]]) == Flatten(blocks) + [p]
  {
    FirstFrame(cfg, p);
    LayoutNewBlock(cfg.codec, cfg.blockSize, blocks, [p]);
    FlattenAppend(blocks, [p]);
    assert [p] in [[p]];
  }

  lemma NextFrame(cfg: Config, blocks: seq<seq<bytes>>, p: bytes)
    requires cfg.Valid() && blocks != [] && BlocksFit(cfg.codec, cfg.blockSize, blocks)
    requires |Frames(cfg.codec, [], blocks[|blocks| - 1])| + |cfg.codec.enc(blocks[|blocks| - 1], p)| <= cfg.blockSize
    ensures var n := |blocks| - 1; var bigger := blocks[n := blocks[n] + [p]];
            && Layout(cfg.codec, cfg.blockSize, bigger) ==
               Layout(cfg.codec, cfg.blockSize, blocks) + cfg.codec.enc(blocks[n], p)
            && BlocksFit(cfg.codec, cfg.blockSize, bigger) && Flatten(bigger) == Flatten(blocks) + [p]
            && |Frames(cfg.codec, [], bigger[n])| == |Frames(cfg.codec, [], blocks[n])| + |cfg.codec.enc(blocks[n], p)|
  {
    var last := blocks[|blocks| - 1];
    LayoutGrow(cfg.codec, cfg.blockSize, blocks, p);
    FlattenGrow(blocks, p);
    FramesAppend(cfg.codec, [], last, p);
    assert [] + last == last;
  }

  lemma PayloadsSnoc(init: seq<File>, f: File)
    ensures Payloads(init + [f]) == Payloads(init) + Flatten(f.blocks)
  {
    assert (init + [f])[..|init|] == init;
  }

  class Agent {
    const cfg: Config
    var streams: seq<Stream>
    ghost var files: set<File>
    ghost var log: seq<(bytes, bytes)>  // labels and payload of every message, in order of arrival

    constructor (cfg: Config)
      requires cfg.Valid()
      ensures Valid() && this.cfg == cfg && log == [] && streams == []
    {
      this.cfg := cfg;
      streams, files, log := [], {}, [];
    }

    ghost predicate Valid()
      reads this, streams, files
    {
      && cfg.Valid()
      && (forall s, f | s in streams && f in s.chain :: f in files)
      && (forall s | s in streams :: s.Valid(cfg) && Payloads(s.chain) == With(log, s.labels))
      && (forall i, j | 0 <= i < j < |streams| :: streams[i] != streams[j] && streams[i].labels != streams[j].labels)
      && (forall s, t, f | s in streams && t in streams && s != t && f in s.chain :: f !in t.chain)
      && (forall l | l !in Labels(streams) :: With(log, l) == [])
    }

    /** Finds the stream for the labels, or starts one. The checksum is compared before the labels. */
    method file(labels: bytes) returns (s: Stream)
      requires Valid()
      modifies this`streams
      ensures Valid() && s in streams && s.labels == labels && forall f | f in s.chain :: f in files
      ensures if labels in Labels(old(streams)) then streams == old(streams)
              else streams == old(streams) + [s] && fresh(s) && s.chain == []
    {
      hide With, Payloads, Config.Valid, Stream.Valid;
      var sum := cfg.checksum(labels);
      for k := 0 to |streams|
        invariant streams == old(streams) && Valid()
        invariant forall j | 0 <= j < k :: streams[j].labels != labels
      {
        if streams[k].sum == sum && streams[k].labels == labels {
          assert streams[k] in streams;
          return streams[k];
        }
        assert streams[k] in streams;
        CurrentFile(cfg, streams[k]);
      }
      assert labels !in Labels(streams);
      s := addStream(labels, sum);
    }

    method addStream(labels: bytes, sum: nat) returns (s: Stream)
      requires Valid() && labels !in Labels(streams) && sum == cfg.checksum(labels)
      modifies this`streams
      ensures Valid() && fresh(s) && s.labels == labels && s.chain == [] && streams == old(streams) + [s]
    {
      hide With, Payloads, Config.Valid, Stream.Valid;
      s := new Stream(labels, sum);
      NoPayloads(cfg, s);
      assert Labels(streams + [s]) == Labels(streams) + {labels};
      streams := streams + [s];
    }

    ghost function CurrentBlocks(f: File?): seq<seq<bytes>>
      reads f
    {
      if f == null then [] else f.blocks
    }

    /** The file to write to. A new one, with the compressor reset, when there is none yet, when the time partition
        changes, and when the compressed payload does not fit. `init` are the files before it. */
    method chooseFile(s: Stream, ts: int, ghost p: bytes, ghost was: seq<bytes>)
      returns (f: File, ghost init: seq<File>)
      requires cfg.Valid() && s.sum == cfg.checksum(s.labels) && Linked(s.chain) && AllValid(cfg, s.chain)
      requires Needed(cfg, s.chain) && s.zbuf == cfg.codec.enc(was, p)
      requires s.file == if s.chain == [] then null else s.chain[|s.chain| - 1]
      requires s.file != null ==> was == s.file.Last() && s.boff == |Frames(cfg.codec, [], was)| > 0
      modifies s`file, s`history, s`boff
      ensures f.Fresh() <==>
              old(s.file == null || s.file.part != cfg.partition(ts)
                  || (s.file.off != 0 && s.file.off + |s.zbuf| > cfg.fileSize))
      ensures !f.Fresh() ==> f.off + |s.zbuf| <= cfg.fileSize || f.off == 0
      ensures Needed(cfg, init) && NoRoom(cfg, init, f.part, if f.Fresh() then p else f.First())
      ensures Payloads(init) + Flatten(f.blocks) == old(Payloads(s.chain))
      ensures !f.Fresh() ==> f.blocks == old(CurrentBlocks(s.file)) && s.boff == old(s.boff)
      ensures s.file == f && f.part == cfg.partition(ts) && f !in init && Linked(init) && AllValid(cfg, init)
      ensures f.prev == if init == [] then null else init[|init| - 1]
      ensures s.boff == |Frames(cfg.codec, [], f.Last())|
      ensures if f.Fresh() then fresh(f) && init == s.chain && s.history == f.Last() == [] && f.blocks == []
              else s.chain == init + [f] && s.history == old(s.history) && s.boff > 0 && f.Valid(cfg) && f.Last() == was
    {
      hide Layout, Flatten, Padded, Lawful, BlocksFit, Config.Valid, Needed, File.First, Payloads;
      var part := cfg.partition(ts);
      if s.file == null || s.file.part != part || (s.file.off + |s.zbuf| > cfg.fileSize && s.file.off != 0) {
        var seekable: bool := *;
        f := new File(part, ts, s.file, seekable);
        s.file := f;
        s.history := [];
        s.boff := 0;
        init := s.chain;
        FreshFile(f);
        assert Payloads(init) + [] == Payloads(init);
      } else {
        f := s.file;
        init := s.chain[..|s.chain| - 1];
        assert f in s.chain && s.chain == init + [f];
        NeededSnoc(cfg, init, f);
        PayloadsSnoc(init, f);
      }
    }

    /** Writes payload `p` to the stream's file, or to a new one. */
    method writeFile(s: Stream, p: bytes, ts: int) returns (n: nat)
      requires cfg.Valid() && s.Valid(cfg) && cfg.Stamped(p, ts)
      modifies s, s.chain
      ensures n == |p| && s.Valid(cfg)
      ensures Payloads(s.chain) == old(Payloads(s.chain)) + [p]
      ensures forall f | f in s.chain :: f in old(s.chain) || fresh(f)
      ensures var z := |cfg.codec.enc(old(s.history), p)|;
              var isNew := old(s.file == null || s.file.part != cfg.partition(ts)
                               || (s.file.off != 0 && s.file.off + z > cfg.fileSize));
              && |s.chain| == |old(s.chain)| + (if isNew then 1 else 0)
              && CurrentBlocks(s.file)
                 == AfterWrite(isNew, old(s.boff) + z > cfg.blockSize, old(CurrentBlocks(s.file)), p)
    {
      hide Layout, Frames, Flatten, Padded, Lawful, BlocksFit, Payloads, Config.Valid, Linked, AllValid, Stream.Valid,
        File.Valid, File.Last, File.Fresh, File.First, Needed, NoRoom, AfterWrite;
      CurrentFile(cfg, s);
      ghost var last := s.history;
      s.zbuf := cfg.codec.enc(s.history, p);
      s.history := s.history + [p];
      var f; ghost var init;
      f, init := chooseFile(s, ts, p, last);
      assert !f.Fresh() ==> f in s.chain;
      NewFileBlocks(p);
      extend(s, f, p, ts, init);
      return |p|;
    }

    /** Stores one message. What the header parser cannot read is refused; otherwise the whole of `p` is one payload. */
    method Write(p: bytes) returns (n: nat, failed: bool)
      requires Valid()
      modifies this, streams, files
      ensures Valid()
      ensures p == [] ==> n == 0 && !failed && log == old(log)
      ensures p != [] && cfg.header(p).None? ==> n == 0 && failed && log == old(log)
      ensures p != [] && cfg.header(p).Some? ==> n == |p| && !failed && log == old(log) + [(cfg.header(p).value.1, p)]
    {
      n, failed := 0, false;
      while n < |p|
        invariant Valid() && (n == 0 || n == |p|)
        invariant n == 0 ==> log == old(log) && streams == old(streams) && files == old(files)
        invariant n == 0 || p == [] || (cfg.header(p).Some? && log == old(log) + [(cfg.header(p).value.1, p)])
        invariant p == [] ==> log == old(log)
      {
        assert p[n..] == p;
        var header := cfg.header(p[n..]);
        if header.None? {
          return n, true;
        }
        var (ts, labels) := header.value;
        var m := store(p[n..], ts, labels);
        n := n + m;
      }
    }

    method store(p: bytes, ts: int, labels: bytes) returns (m: nat)
      requires Valid() && cfg.header(p) == Some((ts, labels))
      modifies this, streams, files
      ensures Valid() && m == |p| && log == old(log) + [(labels, p)]
    {
      hide Agent.Valid;
      var s := file(labels);
      assert files == old(files);
      m := storeIn(s, p, ts);
    }

    method storeIn(s: Stream, p: bytes, ts: int) returns (m: nat)
      requires Valid() && s in streams && cfg.header(p) == Some((ts, s.labels))
      modifies this`log, this`files, s, s.chain
      ensures Valid() && m == |p| && log == old(log) + [(s.labels, p)]
      ensures forall f | f in s.chain :: f in old(s.chain) || fresh(f)
      ensures var z := |cfg.codec.enc(old(s.history), p)|;
              var isNew := old(s.file == null || s.file.part != cfg.partition(ts)
                               || (s.file.off != 0 && s.file.off + z > cfg.fileSize));
              && |s.chain| == |old(s.chain)| + (if isNew then 1 else 0)
              && CurrentBlocks(s.file)
                 == AfterWrite(isNew, old(s.boff) + z > cfg.blockSize, old(CurrentBlocks(s.file)), p)
    {
      hide With, Payloads, Config.Valid, Stream.Valid, File.Valid, AfterWrite, CurrentBlocks;
      m := writeAlone(s, p, ts);
      record(s, p);
    }

    /** Adds a message that is in its stream to the log. */
    ghost method record(s: Stream, p: bytes)
      requires cfg.Valid() && s in streams && s.Valid(cfg) && Payloads(s.chain) == With(log, s.labels) + [p]
      requires forall t | t in streams && t != s :: t.Valid(cfg) && Payloads(t.chain) == With(log, t.labels)
      requires forall t, f | t in streams && t != s && f in t.chain :: f in files && f !in s.chain
      requires forall t, u, f | t in streams && u in streams && t != u && t != s && u != s && f in t.chain ::
                 f !in u.chain
      requires forall i, j | 0 <= i < j < |streams| ::
                 streams[i] != streams[j] && streams[i].labels != streams[j].labels
      requires forall l | l !in Labels(streams) :: With(log, l) == []
      modifies this`log, this`files
      ensures Valid() && log == old(log) + [(s.labels, p)]
    {
      hide With, Payloads, Config.Valid, Stream.Valid;
      files := files + (set f | f in s.chain);
      log := log + [(s.labels, p)];
      forall t | t in streams
        ensures t.Valid(cfg) && Payloads(t.chain) == With(log, t.labels)
      {
        WithAppend(old(log), s.labels, p, t.labels);
      }
      forall l | l !in Labels(streams)
        ensures With(log, l) == []
      {
        WithAppend(old(log), s.labels, p, l);
      }
    }

    /** Writing to one stream leaves the others, and their files, as they are. */
    method writeAlone(s: Stream, p: bytes, ts: int) returns (m: nat)
      requires Valid() && s in streams && cfg.Stamped(p, ts)
      modifies s, s.chain
      ensures m == |p| && s.Valid(cfg) && Payloads(s.chain) == old(Payloads(s.chain)) + [p]
      ensures forall f | f in s.chain :: f in old(s.chain) || fresh(f)
      ensures var z := |cfg.codec.enc(old(s.history), p)|;
              var isNew := old(s.file == null || s.file.part != cfg.partition(ts)
                               || (s.file.off != 0 && s.file.off + z > cfg.fileSize));
              && |s.chain| == |old(s.chain)| + (if isNew then 1 else 0)
              && CurrentBlocks(s.file)
                 == AfterWrite(isNew, old(s.boff) + z > cfg.blockSize, old(CurrentBlocks(s.file)), p)
      ensures forall t | t in streams && t != s ::
                t.Valid(cfg) && t.chain == old(t.chain) && Payloads(t.chain) == old(Payloads(t.chain))
      ensures forall t, f | t in streams && t != s && f in t.chain :: f !in s.chain
    {
      hide With, Payloads, Config.Valid, Stream.Valid, File.Valid, AfterWrite, CurrentBlocks;
      assert forall t, f | t in streams && t != s && f in t.chain :: f !in s.chain;
      m := writeFile(s, p, ts);
      forall t | t in streams && t != s
        ensures t.Valid(cfg) && t.chain == old(t.chain) && Payloads(t.chain) == old(Payloads(t.chain))
      {
        assert unchanged(t);
        assert forall f | f in t.chain :: f !in old(s.chain);
        assert forall f | f in t.chain :: unchanged(f);
        assert forall k | 0 <= k < |t.chain| :: t.chain[k] in t.chain && unchanged(t.chain[k]);
        assert unchanged(t) && unchanged(t.chain);
      }
    }

    /** `writeFrame`, and what it means for the stream whose earlier files are `init`. */
    method extend(s: Stream, f: File, p: bytes, ts: int, ghost init: seq<File>)
      requires cfg.Valid() && f !in init && cfg.Stamped(p, ts) && cfg.partition(ts) == f.part
      requires s.boff == |Frames(cfg.codec, [], f.Last())| && s.sum == cfg.checksum(s.labels) && s.file == f
      requires s.history == f.Last() + (if f.Fresh() then [] else [p])
      requires !f.Fresh() ==> f.Valid(cfg) && s.boff > 0 && s.zbuf == cfg.codec.enc(f.Last(), p)
      requires !f.Fresh() ==> f.off + |s.zbuf| <= cfg.fileSize
      requires f.prev == (if init == [] then null else init[|init| - 1]) && Linked(init)
      requires AllValid(cfg, init) && Needed(cfg, init) && NoRoom(cfg, init, f.part, if f.Fresh() then p else f.First())
      modifies s, f
      ensures s.Valid(cfg) && s.chain == init + [f] && s.file == f
      ensures Payloads(s.chain) == old(Payloads(init)) + old(Flatten(f.blocks)) + [p]
      ensures f.blocks == AfterWrite(old(f.Fresh()), old(s.boff + |s.zbuf|) > cfg.blockSize, old(f.blocks), p)
    {
      hide Layout, Frames, Flatten, Padded, Lawful, BlocksFit, Payloads, Config.Valid, Linked, AllValid, Stream.Valid,
        File.Valid, File.Last, File.Fresh, File.First, Needed, NoRoom, Earlier, AfterWrite;
      ghost var first, before := if f.Fresh() then p else f.First(), Payloads(init);
      EarlierFiles(cfg, init, f.part, first, before);
      writeFrame(s, f, p, ts, init);
      assert Earlier(cfg, init, f.part, first, before);
      EarlierFiles(cfg, init, f.part, first, before);
      NeededSnoc(cfg, init, f);
      StreamValid(cfg, s, init, f);
      PayloadsSnoc(init, f);
      Regroup(before, old(Flatten(f.blocks)), [p]);
    }

    /** The part of `writeFile` that comes after the choice of the file. A new file is empty, and the compressor
        was reset for it; otherwise the compressor has already been given `p`. */
    method writeFrame(s: Stream, f: File, p: bytes, ts: int, ghost init: seq<File>)
      requires cfg.Valid() && f !in init && cfg.Stamped(p, ts) && cfg.partition(ts) == f.part
      requires s.boff == |Frames(cfg.codec, [], f.Last())|
      requires s.history == f.Last() + (if f.Fresh() then [] else [p])
      requires !f.Fresh() ==> f.Valid(cfg) && s.boff > 0 && s.zbuf == cfg.codec.enc(f.Last(), p)
      requires !f.Fresh() ==> f.off + |s.zbuf| <= cfg.fileSize
      modifies s, f
      ensures f.Valid(cfg) && s.file == old(s.file)
      ensures Flatten(f.blocks) == old(Flatten(f.blocks)) + [p] && f.First() == old(if f.Fresh() then p else f.First())
      ensures f.blocks == AfterWrite(old(f.Fresh()), old(s.boff + |s.zbuf|) > cfg.blockSize, old(f.blocks), p)
      ensures s.history == f.Last() && s.boff == |Frames(cfg.codec, [], s.history)|
      ensures s.chain == init + [f]
    {
      hide Layout, Frames, Flatten, Padded, Lawful, BlocksFit, Payloads, Config.Valid, Linked, AllValid, Stream.Valid;
      BlockSizePositive(cfg);
      ghost var isNew, padded, blocks := f.Fresh(), false, f.blocks;
      if s.boff + |s.zbuf| > cfg.blockSize && s.boff != 0 {
        f.padFile(cfg.blockSize);
        s.history := [];
        s.boff := 0;
        padded := true;
      }
      if s.boff == 0 {
        s.zbuf := cfg.codec.enc(s.history, p);
        s.history := s.history + [p];
      }
      s.boff := s.boff + |s.zbuf|;
      BlocksAfterWrite(cfg, isNew, padded, blocks, p);
      f.put(s.zbuf, ts, AfterWrite(isNew, padded, blocks, p));
      s.chain := init + [f];
    }
  }

  lemma BlockSizePositive(cfg: Config)
    requires cfg.Valid()
    ensures cfg.blockSize > 0 && Frames(cfg.codec, [], []) == [] && Flatten<bytes>([]) == []
    ensures Layout(cfg.codec, cfg.blockSize, []) == []
  {
  }

  lemma WithAppend(log: seq<(bytes, bytes)>, labels: bytes, p: bytes, l: bytes)
    ensures With(log + [(labels, p)], l) == With(log, l) + if l == labels then [p] else []
  {
    assert (log + [(labels, p)])[..|log|] == log;
  }

  /** The blocks of the current file after payload `p` went to a new file, a new block, or the last block. */
  function AfterWrite(isNew: bool, padded: bool, blocks: seq<seq<bytes>>, p: bytes): seq<seq<bytes>>
  {
    if isNew || blocks == [] then [[p]]
    else if padded then blocks + [[p]]
    else blocks[|blocks| - 1 := blocks[|blocks| - 1] + [p]]
  }

  lemma Regroup(a: seq<bytes>, b: seq<bytes>, c: seq<bytes>)
    ensures a + (b + c) == a + b + c
  {
  }

  lemma FreshFile(f: File)
    ensures f.Fresh() ==> Flatten(f.blocks) == []
  {
  }

  lemma NewFileBlocks(p: bytes)
    ensures forall padded, blocks :: AfterWrite(true, padded, blocks, p) == [[p]]
  {
  }

  lemma BlocksAfterWrite(cfg: Config, isNew: bool, padded: bool, blocks: seq<seq<bytes>>, p: bytes)
    requires cfg.Valid() && (!isNew ==> blocks != [] && BlocksFit(cfg.codec, cfg.blockSize, blocks))
    requires !isNew && !padded ==>
               |Frames(cfg.codec, [], blocks[|blocks| - 1])| + |cfg.codec.enc(blocks[|blocks| - 1], p)| <= cfg.blockSize
    ensures var after := AfterWrite(isNew, padded, blocks, p);
            var was := if isNew then [] else Layout(cfg.codec, cfg.blockSize, blocks);
            var z := cfg.codec.enc(if isNew || padded then [] else blocks[|blocks| - 1], p);
            && after != [] && BlocksFit(cfg.codec, cfg.blockSize, after)
            && Layout(cfg.codec, cfg.blockSize, after)
                 == (if !isNew && padded then Padded(cfg.blockSize, was) else was) + z
            && Flatten(after) == (if isNew then [] else Flatten(blocks)) + [p]
            && |Frames(cfg.codec, [], after[|after| - 1])| ==
               |z| + (if isNew || padded then 0 else |Frames(cfg.codec, [], blocks[|blocks| - 1])|)
            && after[|after| - 1] == (if isNew || padded then [] else blocks[|blocks| - 1]) + [p]
  {
    hide Layout, Frames, Flatten, Padded, Lawful, BlocksFit, Config.Valid;
    FirstFrame(cfg, p);
    if isNew {
    } else if padded {
      NextBlock(cfg, blocks, p);
    } else {
      NextFrame(cfg, blocks, p);
    }
  }

  function Labels(streams: seq<Stream>): set<bytes> {
    set s | s in streams :: s.labels
  }

  lemma NoPayloads(cfg: Config, s: Stream)
    requires cfg.Valid() && s.sum == cfg.checksum(s.labels)
    requires s.file == null && s.history == [] && s.boff == 0 && s.chain == []
    ensures s.Valid(cfg) && Payloads(s.chain) == []
  {
  }

  lemma CurrentFile(cfg: Config, s: Stream)
    requires cfg.Valid() && s.Valid(cfg)
    ensures s.chain == [] <==> s.file == null
    ensures s.boff == |Frames(cfg.codec, [], s.history)| && s.sum == cfg.checksum(s.labels)
    ensures Linked(s.chain) && AllValid(cfg, s.chain) && Needed(cfg, s.chain)
    ensures Frames(cfg.codec, [], []) == [] && Flatten<bytes>([]) == []
    ensures s.chain != [] ==>
              var init := s.chain[..|s.chain| - 1];
              && s.chain == init + [s.file] && s.file !in init && Linked(init) && AllValid(cfg, init)
              && s.file.prev == (if init == [] then null else init[|init| - 1])
              && s.file.Valid(cfg) && s.history == s.file.Last() && s.boff > 0 && s.file.off > 0
  {
    hide File.Valid, File.Last, Layout, Lawful, Needed;
    if s.chain != [] {
      var f := s.chain[|s.chain| - 1];
      assert f in s.chain;
      FileNonEmpty(cfg, f);
    }
  }

  lemma FileNonEmpty(cfg: Config, f: File)
    requires cfg.Valid() && f.Valid(cfg)
    ensures |f.data| == f.off > 0 && f.Last() != [] && f.blocks != [] && |Frames(cfg.codec, [], f.Last())| > 0
  {
    hide Layout, Frames, Lawful;
    assert f.Last() in f.blocks && BlockFits(cfg.codec, cfg.blockSize, f.Last());
    FramesNonEmpty(cfg.codec, [], f.Last());
    LayoutNonEmpty(cfg.codec, cfg.blockSize, f.blocks);
  }

  lemma StreamValid(cfg: Config, s: Stream, init: seq<File>, f: File)
    requires cfg.Valid() && s.sum == cfg.checksum(s.labels) && s.chain == init + [f]
    requires Linked(init) && f !in init && AllValid(cfg, init) && f.Valid(cfg)
    requires f.prev == if init == [] then null else init[|init| - 1]
    requires s.file == f && s.history == f.Last() && s.boff == |Frames(cfg.codec, [], s.history)|
    requires Needed(cfg, s.chain)
    ensures s.Valid(cfg)
  {
    assert s.chain[..|init|] == init;
  }

  /** The payloads of the messages that carry the given labels. */
  function With(log: seq<(bytes, bytes)>, labels: bytes): seq<bytes> {
    if log == [] then []
    else
      var (l, p) := log[|log| - 1];
      With(log[..|log| - 1], labels) + if l == labels then [p] else []
  }

  /** In every state a run of writes can reach: what the files of a stream decode to is exactly what was written
      under its labels, in order; labels without a stream were never written. */
  lemma RunDecodes(a: Agent)
    requires a.Valid()
    ensures forall s | s in a.streams ::
              DecodeAll(a.cfg.codec, a.cfg.blockSize, Contents(s.chain)) == With(a.log, s.labels)
    ensures forall l | l !in Labels(a.streams) :: With(a.log, l) == []
    ensures forall s, f, p | s in a.streams && f in s.chain && p in Flatten(f.blocks) :: a.cfg.InPartition(p, f.part)
  {
    forall s | s in a.streams
      ensures DecodeAll(a.cfg.codec, a.cfg.blockSize, Contents(s.chain)) == With(a.log, s.labels)
      ensures forall f, p | f in s.chain && p in Flatten(f.blocks) :: a.cfg.InPartition(p, f.part)
    {
      CurrentFile(a.cfg, s);
      ChainDecodes(a.cfg, s.chain);
    }
  }

  /** A file is larger than the limit only by its last frame and the padding before it. */
  lemma FileSize(cfg: Config, f: File)
    requires cfg.Valid() && f.Valid(cfg)
    ensures f.blocks != [] && f.blocks[|f.blocks| - 1] != []
    ensures |f.blocks[|f.blocks| - 1]| > 1 ==> |f.data| <= cfg.fileSize
    ensures |f.blocks| > 1 ==>
              |f.data| < cfg.fileSize + cfg.blockSize + |cfg.codec.enc([], f.blocks[|f.blocks| - 1][0])|
  {
    hide Layout, Lawful, BlocksFit, Flatten;
    FileNonEmpty(cfg, f);
    BlockSizePositive(cfg);
  }

  /** In every reachable state, a file follows another of its time partition only if its first payload, compressed
      as it would have been there, did not fit there. */
  lemma FilesAreFilled(a: Agent, s: Stream, k: nat)
    requires a.Valid() && s in a.streams && 0 < k < |s.chain| && s.chain[k - 1].part == s.chain[k].part
    ensures var was, f := s.chain[k - 1], s.chain[k];
            && was.Valid(a.cfg) && f.Valid(a.cfg) && was.blocks != [] && Flatten(f.blocks) != []
            && |was.data| + |a.cfg.codec.enc(was.blocks[|was.blocks| - 1], Flatten(f.blocks)[0])| > a.cfg.fileSize
  {
    hide Agent.Valid, Stream.Valid, Layout, Lawful, BlocksFit, Payloads, With, Linked;
    StreamOf(a, s);
    CurrentFile(a.cfg, s);
    assert s.chain[k - 1] in s.chain && s.chain[k] in s.chain;
  }

  /** Two messages of three bytes, and blocks of one: the file has two blocks, and the second is not in its index. */
  method TwoBlockFile() returns (a: Agent, s: Stream)
    ensures a.Valid() && s in a.streams && s.file != null && s.file in s.chain
    ensures |s.file.blocks| == 2 && |s.file.index| == 1
  {
    hide Agent.Valid, Stream.Valid, File.Valid, Lawful, Layout, Frames, Flatten, Payloads, With, Linked, AllValid;
    var p: bytes := [7];
    LawfulCodecExists();
    MarkedSeven();
    var cfg := Config(MARKING, (l: bytes) => 0, (ts: int) => 0, (m: bytes) => Some((0, [])), 100, 1);
    a := new Agent(cfg);
    s := a.file([]);
    StreamOf(a, s);
    CurrentFile(cfg, s);
    assert s.chain == [];
    var _ := a.storeIn(s, p, 0);
    StreamOf(a, s);
    OneBlock(cfg, s, p);
    assert s.file in s.chain && fresh(s.file) && s.chain == [s.file];
    var _ := a.storeIn(s, p, 0);
    StreamOf(a, s);
    CurrentFile(cfg, s);
    IndexedIffOneBlock(cfg, s.file);
  }

  lemma StreamOf(a: Agent, s: Stream)
    requires a.Valid() && s in a.streams
    ensures a.cfg.Valid() && s.Valid(a.cfg)
  {
  }

  lemma MarkedSeven()
    ensures Marked([7]) == [1, 7, 2]
  {
    assert [7][1..] == [];
  }

  lemma OneBlock(cfg: Config, s: Stream, p: bytes)
    requires cfg.Valid() && s.Valid(cfg) && s.file != null && s.file.blocks == [[p]]
    ensures s.file in s.chain && s.file.off == s.boff == |cfg.codec.enc([], p)| && cfg.InPartition(p, s.file.part)
  {
    hide Lawful;
    CurrentFile(cfg, s);
    FirstFrame(cfg, p);
    var f := s.file;
    assert f in s.chain && f.Valid(cfg);
    assert p in Flatten(f.blocks);
  }
}
