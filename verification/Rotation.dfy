/** The rotating log file: one numbered file is written at a time, and a new one is begun when it is full or old. */
module Rotation {
  import opened Wire
  import opened Rules
  import opened FileNames
  import opened StreamReader

  /** Zero switches a limit off. */
  datatype Config = Config(
    pattern: Pattern, maxFileSize: nat, maxFileAge: int,
    minAge: int, maxTotalSize: int, maxTotalAge: int, maxTotalFiles: int)

  // ----- the directory -----

  ghost predicate SortedNames(names: seq<bytes>) {
    forall i, j | 0 <= i < j < |names| :: Before(names[i], names[j])
  }

  /** What reading a directory gives: its names in order. */
  ghost predicate Lists(names: seq<bytes>, files: map<bytes, bytes>) {
    SortedNames(names) && forall n :: n in names <==> n in files
  }

  class Directory {
    var files: map<bytes, bytes>

    constructor ()
      ensures files == map[]
    {
      files := map[];
    }

    method ReadDir() returns (names: seq<bytes>)
      ensures Lists(names, files)
    {
      names := [];
      var rest := files.Keys;
      while rest != {}
        invariant rest <= files.Keys && SortedNames(names)
        invariant forall n :: n in names <==> n in files && n !in rest
        decreases |rest|
      {
        var n :| n in rest;
        var i := |names|;
        while i > 0 && Before(n, names[i - 1])
          invariant 0 <= i <= |names|
          invariant i < |names| ==> Before(n, names[i])
        {
          i := i - 1;
        }
        InsertName(names, n, i);
        names := names[..i] + [n] + names[i..];
        rest := rest - {n};
      }
    }
  }

  lemma InsertName(names: seq<bytes>, n: bytes, i: nat)
    requires SortedNames(names) && n !in names && i <= |names|
    requires i < |names| ==> Before(n, names[i])
    requires i > 0 ==> !Before(n, names[i - 1])
    ensures SortedNames(names[..i] + [n] + names[i..])
    ensures forall x :: x in names[..i] + [n] + names[i..] <==> x in names || x == n
  {
    hide CmpBytes;
    var x, y := names[..i], names[i..];
    assert names == x + y;
    forall k | 0 <= k < i
      ensures Before(x[k], n)
    {
      assert names[i - 1] in names;
      CmpBytesOrder(n, names[i - 1], n);
      CmpBytesOrder(names[k], names[i - 1], n);
      assert names[i - 1] != n && names[k] in names;
    }
    forall k | 0 <= k < |y|
      ensures Before(n, y[k])
    {
      assert y[k] == names[i + k] && y[k] in names;
      CmpBytesOrder(n, names[i], names[i + k]);
    }
    SortedAround(x, n, y);
  }

  lemma SortedAround(x: seq<bytes>, n: bytes, y: seq<bytes>)
    requires SortedNames(x + y)
    requires (forall k | 0 <= k < |x| :: Before(x[k], n)) && (forall k | 0 <= k < |y| :: Before(n, y[k]))
    ensures SortedNames(x + [n] + y)
  {
    hide Before;
    var s, was := x + [n] + y, x + y;
    forall i, j | 0 <= i < j < |s|
      ensures Before(s[i], s[j])
    {
      if i != |x| && j != |x| {
        var i', j' := if i < |x| then i else i - 1, if j < |x| then j else j - 1;
        assert Before(was[i'], was[j']);
      }
    }
  }

  /** No name in the directory makes the name parser slice out of bounds. */
  ghost predicate Readable(p: Pattern, files: map<bytes, bytes>) {
    forall n | n in files :: ParseName(p, n) != Panics
  }

  /** The highest number among the names, zero if there is none. */
  method findMaxNum(p: Pattern, names: seq<bytes>) returns (num: nat)
    requires forall n | n in names :: ParseName(p, n) != Panics
    ensures forall n | n in names && ParseName(p, n).Numbered? :: ParseName(p, n).num <= num
    ensures num == 0 || exists n :: n in names && ParseName(p, n) == Numbered(num)
  {
    hide ParseName;
    num := 0;
    for i := 0 to |names|
      invariant forall k | 0 <= k < i && ParseName(p, names[k]).Numbered? :: ParseName(p, names[k]).num <= num
      invariant num == 0 || exists n :: n in names && ParseName(p, n) == Numbered(num)
    {
      assert names[i] in names;
      var m := ParseName(p, names[i]);
      if m.Numbered? && m.num > num {
        num := m.num;
      }
    }
  }

  // ----- what was written -----

  /** The payloads of each file begun, oldest first. */
  type History = seq<seq<bytes>>

  function Payloads(log: History): seq<bytes> {
    if log == [] then [] else Payloads(log[..|log| - 1]) + log[|log| - 1]
  }

  /** File number `first + 1 + k`. */
  function Nth(p: Pattern, first: nat, k: nat): bytes
    requires p.Valid()
  {
    Name(p, first + 1 + k)
  }

  /** Every file of the log that is still there holds its payloads, whole. */
  ghost predicate Holds(p: Pattern, files: map<bytes, bytes>, first: nat, log: History)
    requires p.Valid()
  {
    forall k: nat | k < |log| && Nth(p, first, k) in files :: files[Nth(p, first, k)] == Concat(log[k])
  }

  ghost predicate Unused(p: Pattern, files: map<bytes, bytes>, num: nat)
    requires p.Valid()
  {
    forall n: nat | n > num && Fits(p, n) :: Name(p, n) !in files
  }

  /** How many payloads are not empty. */
  function Weighty(ps: seq<bytes>): nat {
    if ps == [] then 0 else Weighty(ps[..|ps| - 1]) + if ps[|ps| - 1] == [] then 0 else 1
  }

  /** A file is over the limit only if all its bytes came in one payload. */
  predicate WithinLimit(limit: nat, ps: seq<bytes>) {
    limit != 0 && |Concat(ps)| > limit ==> Weighty(ps) <= 1
  }

  predicate Due(cfg: Config, size: nat, start: int, payload: bytes, now: int) {
    size != 0 && ((cfg.maxFileSize != 0 && size + |payload| > cfg.maxFileSize)
                  || (cfg.maxFileAge != 0 && now - start > cfg.maxFileAge))
  }

  predicate Limited(cfg: Config) {
    cfg.maxTotalSize != 0 || cfg.maxTotalAge != 0 || cfg.maxTotalFiles != 0
  }

  lemma NameInjective(p: Pattern, m: nat, n: nat)
    requires p.Valid() && Fits(p, m) && Fits(p, n) && Name(p, m) == Name(p, n)
    ensures m == n
  {
    NameReadsBack(p, m);
    NameReadsBack(p, n);
  }

  lemma UnusedAbove(p: Pattern, files: map<bytes, bytes>, num: nat)
    requires p.Valid() && forall n | n in files && ParseName(p, n).Numbered? :: ParseName(p, n).num <= num
    ensures Unused(p, files, num)
  {
    hide ParseName, Name, Fits;
    forall n: nat | n > num && Fits(p, n)
      ensures Name(p, n) !in files
    {
      NameReadsBack(p, n);
    }
  }

  lemma NextFits(p: Pattern, num: nat)
    ensures num > 0 && Fits(p, num) ==> Fits(p, num - 1)
  {
  }

  /** Opening the next file: its name was not in use. */
  lemma BeginFile(p: Pattern, files: map<bytes, bytes>, first: nat, log: History, num: nat)
    requires p.Valid() && num == first + |log| + 1
    requires Fits(p, num) ==> Holds(p, files, first, log) && Unused(p, files, num - 1)
    ensures var name := Name(p, num);
            var after := files[name := if name in files then files[name] else []];
            Fits(p, num) ==> name !in files && Holds(p, after, first, log + [[]]) && Unused(p, after, num)
  {
    hide Name;
    if Fits(p, num) {
      var name, log' := Name(p, num), log + [[]];
      assert name !in files;
      var after := files[name := []];
      forall k: nat | k < |log'| && Nth(p, first, k) in after
        ensures after[Nth(p, first, k)] == Concat(log'[k])
      {
        if Nth(p, first, k) == name {
          NameInjective(p, first + 1 + k, num);
        } else {
          assert log'[k] == log[k];
        }
      }
      forall n: nat | n > num && Fits(p, n)
        ensures Name(p, n) !in after
      {
        if Name(p, n) == name {
          NameInjective(p, n, num);
        }
      }
    }
  }

  /** Appending to the file being written. */
  lemma AppendToLast(p: Pattern, files: map<bytes, bytes>, first: nat, log: History, payload: bytes)
    requires p.Valid() && log != []
    ensures var name, last := Name(p, first + |log|), log[|log| - 1];
            Fits(p, first + |log|) && name in files && Holds(p, files, first, log) ==>
              Holds(p, files[name := files[name] + payload], first, log[..|log| - 1] + [last + [payload]])
  {
    hide Name;
    var name, last, num := Name(p, first + |log|), log[|log| - 1], first + |log|;
    if Fits(p, num) && name in files && Holds(p, files, first, log) {
      var after, log' := files[name := files[name] + payload], log[..|log| - 1] + [last + [payload]];
      ConcatAppend(last, payload);
      assert Nth(p, first, |log| - 1) == name;
      forall k: nat | k < |log'| && Nth(p, first, k) in after
        ensures after[Nth(p, first, k)] == Concat(log'[k])
      {
        if Nth(p, first, k) == name {
          NameInjective(p, first + 1 + k, num);
        } else {
          assert log'[k] == log[k];
        }
      }
    }
  }

  lemma NewContent(files: map<bytes, bytes>, name: bytes, payload: bytes)
    ensures name in files ==>
              files[name := files[name]][name := files[name] + payload] == files[name := files[name] + payload]
    ensures files[name := []][name := [] + payload] == files[name := payload]
  {
    assert [] + payload == payload;
  }

  lemma NothingWithin(limit: nat)
    ensures WithinLimit(limit, []) && Concat([]) == []
  {
  }

  lemma LimitKept(limit: nat, ps: seq<bytes>, payload: bytes)
    requires WithinLimit(limit, ps)
    requires |Concat(ps)| == 0 || limit == 0 || |Concat(ps)| + |payload| <= limit
    ensures WithinLimit(limit, ps + [payload])
  {
    ConcatAppend(ps, payload);
    assert (ps + [payload])[..|ps|] == ps;
    if |Concat(ps)| == 0 {
      NoWeight(ps);
    }
  }

  lemma {:induction false} NoWeight(ps: seq<bytes>)
    requires |Concat(ps)| == 0
    ensures Weighty(ps) == 0
    decreases |ps|
  {
    if ps != [] {
      var init := ps[..|ps| - 1];
      assert ps == init + [ps[|ps| - 1]];
      ConcatAppend(init, ps[|ps| - 1]);
      NoWeight(init);
    }
  }

  lemma LastFile(log: History, ps: seq<bytes>)
    ensures Payloads(log + [ps]) == Payloads(log) + ps
  {
    assert (log + [ps])[..|log|] == log;
  }

  lemma PayloadsGrow(log: History, payload: bytes)
    requires log != []
    ensures Payloads(log[..|log| - 1] + [log[|log| - 1] + [payload]]) == Payloads(log) + [payload]
  {
    hide Payloads;
    var init, last := log[..|log| - 1], log[|log| - 1];
    InitAndLast(log);
    LastFile(init, last);
    LastFile(init, last + [payload]);
    PutLast(Payloads(init), last, payload);
  }

  lemma InitAndLast<T>(s: seq<T>)
    requires s != []
    ensures s[..|s| - 1] + [s[|s| - 1]] == s
  {
  }

  lemma PutLast(all: seq<bytes>, last: seq<bytes>, payload: bytes)
    ensures all + (last + [payload]) == all + last + [payload]
  {
  }

  // ----- the file -----

  class File {
    const cfg: Config
    const dir: Directory
    var open: bool
    var started: bool  // the directory has been searched for the last number
    var num: nat
    var size: nat
    var start: int

    ghost var first: nat
    ghost var log: History

    ghost predicate Stored()
      requires cfg.pattern.Valid()
      reads this, dir
    {
      && Holds(cfg.pattern, dir.files, first, log)
      && (open ==> Name(cfg.pattern, num) in dir.files)
      && Unused(cfg.pattern, dir.files, num)
    }

    ghost predicate Valid()
      reads this, dir
    {
      && cfg.pattern.Valid()
      && (!started ==> !open && log == [] && num == 0)
      && (started ==> num == first + |log|)
      && (open ==> started && log != [] && size == |Concat(log[|log| - 1])|)
      && (forall k | 0 <= k < |log| :: WithinLimit(cfg.maxFileSize, log[k]))
      && (started && Fits(cfg.pattern, num) ==> Stored())
    }

    constructor (cfg: Config, dir: Directory)
      requires cfg.pattern.Valid()
      ensures Valid() && !open && !started && log == [] && this.cfg == cfg && this.dir == dir
    {
      this.cfg, this.dir := cfg, dir;
      open, started, num, size, start := false, false, 0, 0, 0;
      first, log := 0, [];
    }

    /** The first file is numbered after the highest number in the directory. */
    method search()
      requires Valid() && !started && Readable(cfg.pattern, dir.files)
      modifies this`num, this`started, this`first
      ensures Valid() && started && num == first
      ensures forall n | n in dir.files && ParseName(cfg.pattern, n).Numbered? :: ParseName(cfg.pattern, n).num <= num
    {
      hide Name, ParseName, Fits, WithinLimit, Unused;
      var names := dir.ReadDir();
      num := findMaxNum(cfg.pattern, names);
      started, first := true, num;
      UnusedAbove(cfg.pattern, dir.files, num);
    }

    /** Begins the next file. `removal`: a search for files to remove is started. */
    method rotate(now: int) returns (removal: bool)
      requires Valid() && Readable(cfg.pattern, dir.files)
      modifies this, dir
      ensures Valid() && open && start == now && size == 0 && removal == Limited(cfg)
      ensures log == old(log) + [[]] && (old(started) ==> first == old(first))
      ensures var name := Name(cfg.pattern, num);
              dir.files == old(dir.files)[name := if name in old(dir.files) then old(dir.files)[name] else []]
      ensures !old(started) ==> forall n | n in old(dir.files) && ParseName(cfg.pattern, n).Numbered? ::
                                ParseName(cfg.pattern, n).num <= first
    {
      hide Name, ParseName, Fits, Holds, Unused, WithinLimit, Concat, Weighty;
      if !started {
        search();
      }
      num := num + 1;
      var name := Name(cfg.pattern, num);
      NextFits(cfg.pattern, num);
      BeginFile(cfg.pattern, dir.files, first, log, num);
      NothingWithin(cfg.maxFileSize);
      open := true;
      dir.files := dir.files[name := if name in dir.files then dir.files[name] else []];
      log := log + [[]];
      size, start := 0, now;
      removal := Limited(cfg);
    }

    method Write(payload: bytes, now: int) returns (removal: bool)
      requires Valid() && Readable(cfg.pattern, dir.files)
      modifies this, dir
      ensures Valid() && open
      ensures Payloads(log) == Payloads(old(log)) + [payload]
      ensures var tooLarge := cfg.maxFileSize != 0 && old(size) + |payload| > cfg.maxFileSize;
              var tooOld := cfg.maxFileAge != 0 && now - old(start) > cfg.maxFileAge;
              var begins := !old(open) || (old(size) != 0 && (tooLarge || tooOld));
              && |log| == |old(log)| + (if begins then 1 else 0)
              && removal == (begins && (cfg.maxTotalSize != 0 || cfg.maxTotalAge != 0 || cfg.maxTotalFiles != 0))
              && start == (if begins then now else old(start))
              && log[|log| - 1] == (if begins then [] else old(log)[|log| - 1]) + [payload]
              && log[..|log| - 1] == (if begins then old(log) else old(log)[..|log| - 1])
              && var name := Name(cfg.pattern, num);
                 dir.files == if name in old(dir.files) then old(dir.files)[name := old(dir.files)[name] + payload]
                              else if begins then old(dir.files)[name := payload] else old(dir.files)
      ensures old(started) ==> first == old(first)
      ensures !old(started) ==> forall n | n in old(dir.files) && ParseName(cfg.pattern, n).Numbered? ::
                                ParseName(cfg.pattern, n).num <= first
    {
      hide Stored, Name, ParseName, Fits, Concat, WithinLimit, Payloads;
      removal := false;
      if !open || Due(cfg, size, start, payload, now) {
        removal := rotate(now);
        LastFile(old(log), []);
      }
      PayloadsGrow(log, payload);
      NewContent(old(dir.files), Name(cfg.pattern, num), payload);
      append(payload);
    }

    /** Writes to the open file. It may have been removed: what is written then is lost. */
    method append(payload: bytes)
      requires Valid() && open && (size == 0 || cfg.maxFileSize == 0 || size + |payload| <= cfg.maxFileSize)
      modifies this`size, this`log, dir
      ensures Valid() && log == old(log)[..|old(log)| - 1] + [old(log)[|old(log)| - 1] + [payload]]
      ensures var name := Name(cfg.pattern, num);
              dir.files == if name in old(dir.files) then old(dir.files)[name := old(dir.files)[name] + payload]
                           else old(dir.files)
    {
      hide WithinLimit, Holds, Name, Fits, Concat, Weighty, Payloads;
      var name := Name(cfg.pattern, num);
      ghost var last := log[|log| - 1];
      ConcatAppend(last, payload);
      LimitKept(cfg.maxFileSize, last, payload);
      AppendToLast(cfg.pattern, dir.files, first, log, payload);
      if name in dir.files {
        dir.files := dir.files[name := dir.files[name] + payload];
      }
      size := size + |payload|;
      log := log[..|log| - 1] + [last + [payload]];
    }

    method Rotate(now: int) returns (removal: bool)
      requires Valid() && Readable(cfg.pattern, dir.files)
      modifies this, dir
      ensures Valid() && open && start == now
      ensures removal == (cfg.maxTotalSize != 0 || cfg.maxTotalAge != 0 || cfg.maxTotalFiles != 0)
      ensures log == old(log) + [[]] && Payloads(log) == Payloads(old(log))
      ensures var name := Name(cfg.pattern, num);
              dir.files == if name in old(dir.files) then old(dir.files) else old(dir.files)[name := []]
      ensures old(started) ==> first == old(first)
      ensures !old(started) ==> forall n | n in old(dir.files) && ParseName(cfg.pattern, n).Numbered? ::
                                ParseName(cfg.pattern, n).num <= first
    {
      removal := rotate(now);
      LastFile(old(log), []);
    }

    /** What is written next begins a new file. */
    method Close()
      requires Valid()
      modifies this`open
      ensures Valid() && !open
    {
      open := false;
    }
  }
}
