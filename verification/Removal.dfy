/** Removing old rotated files in the background, while the log is being written and rotated. */
module Removal {
  import opened Wire
  import opened Rules
  import opened FileNames
  import opened StreamReader
  import opened Rotation

  // ----- which files to remove -----

  /** What is known about a file; not every system tells when it was changed. */
  datatype Info = Info(size: nat, changed: Option<int>)

  /** The age of a file. An unknown one is `unknown`. */
  function Age(info: Info, now: int, unknown: int): int {
    if info.changed.Some? then now - info.changed.value else unknown
  }

  predicate Protected(cfg: Config, info: Info, now: int) {
    cfg.minAge != 0 && Age(info, now, MAX_INT) <= cfg.minAge
  }

  predicate TooOld(cfg: Config, info: Info, now: int) {
    cfg.maxTotalAge != 0 && Age(info, now, 0) > cfg.maxTotalAge
  }

  /** Total size of the files from the `k`-th on. */
  function Sizes(past: seq<bytes>, infos: map<bytes, Info>, k: nat): nat
    requires k <= |past| && forall i | k <= i < |past| :: past[i] in infos
    decreases |past| - k
  {
    if k == |past| then 0 else infos[past[k]].size + Sizes(past, infos, k + 1)
  }

  predicate Known(past: seq<bytes>, infos: map<bytes, Info>, k: nat) {
    forall i | k <= i < |past| :: past[i] in infos
  }

  /** Keeping the files from the `k`-th on breaks a limit at the `k`-th. */
  predicate Breaks(cfg: Config, past: seq<bytes>, infos: map<bytes, Info>, now: int, k: nat)
    requires k < |past| && Known(past, infos, k)
  {
    || (cfg.maxTotalSize != 0 && Sizes(past, infos, k) > cfg.maxTotalSize)
    || (!Protected(cfg, infos[past[k]], now)
        && (TooOld(cfg, infos[past[k]], now) || (cfg.maxTotalFiles != 0 && |past| - k + 1 > cfg.maxTotalFiles)))
  }

  /** The listed names before `base`. */
  function Past(names: seq<bytes>, base: bytes): (r: seq<bytes>)
    ensures |r| <= |names| && r == names[..|r|]
  {
    if names == [] || Before(names[|names| - 1], base) then names
    else Past(names[..|names| - 1], base)
  }

  /** The first `n` past files go: the last of them breaks a limit, those after it do not. */
  ghost predicate CutAt(cfg: Config, past: seq<bytes>, infos: map<bytes, Info>, now: int, n: nat) {
    && n <= |past|
    && Known(past, infos, if n > 0 then n - 1 else 0)
    && (n > 0 ==> Breaks(cfg, past, infos, now, n - 1))
    && forall k | n <= k < |past| :: !Breaks(cfg, past, infos, now, k)
  }

  /** The `k`-th file cannot be looked at, and no later one breaks a limit. */
  ghost predicate Fails(cfg: Config, past: seq<bytes>, infos: map<bytes, Info>, now: int, k: nat)
    requires k < |past|
  {
    && past[k] !in infos && Known(past, infos, k + 1)
    && forall i | k < i < |past| :: !Breaks(cfg, past, infos, now, i)
  }

  /** None: a file could not be looked at. */
  method filesToRemove(cfg: Config, base: bytes, now: int, names: seq<bytes>, infos: map<bytes, Info>)
    returns (r: Option<seq<bytes>>)
    ensures var past := Past(names, base);
            match r
            case Some(files) => files <= past && CutAt(cfg, past, infos, now, |files|)
            case None => exists k: nat :: k < |past| && Fails(cfg, past, infos, now, k)
  {
    var p := |names|;
    assert names[..p] == names;
    while p > 0 && !Before(names[p - 1], base)
      invariant 0 <= p <= |names| && Past(names, base) == Past(names[..p], base)
    {
      p := p - 1;
      assert names[..p + 1][..p] == names[..p];
    }
    var files := names[..p];
    var size := 0;
    while p > 0
      invariant 0 <= p <= |files| && Known(files, infos, p) && size == Sizes(files, infos, p)
      invariant forall k | p <= k < |files| :: !Breaks(cfg, files, infos, now, k)
    {
      var prev := p - 1;
      if files[prev] !in infos {
        assert Fails(cfg, files, infos, now, prev);
        return None;
      }
      var info := infos[files[prev]];
      size := size + info.size;
      if cfg.maxTotalSize != 0 && size > cfg.maxTotalSize { break; }
      if !Protected(cfg, info, now) {
        if TooOld(cfg, info, now) { break; }
        if cfg.maxTotalFiles != 0 && |files| - prev + 1 > cfg.maxTotalFiles { break; }
      }
      p := p - 1;
    }
    return Some(files[..p]);
  }

  method matchingFiles(p: Pattern, names: seq<bytes>, ghost files: map<bytes, bytes>) returns (r: seq<bytes>)
    requires Lists(names, files) && Readable(p, files)
    ensures Matching(p, r, files)
  {
    hide ParseName, CmpBytes;
    r := [];
    for i := 0 to |names|
      invariant SortedNames(r)
      invariant forall n :: n in r <==> n in names[..i] && ParseName(p, n).Numbered?
    {
      assert names[..i + 1] == names[..i] + [names[i]];
      if ParseName(p, names[i]).Numbered? {
        forall k | 0 <= k < |r|
          ensures Before(r[k], names[i])
        {
          assert r[k] in names[..i];
          var at :| 0 <= at < i && names[at] == r[k];
        }
        r := r + [names[i]];
      }
    }
    assert names[..|names|] == names;
  }

  /** The files planned to go, or none when one of those looked at is not known. */
  ghost predicate Planned(cfg: Config, files: map<bytes, bytes>, base: nat, names: seq<bytes>, infos: map<bytes, Info>,
                          now: int, victims: seq<bytes>)
    requires cfg.pattern.Valid()
  {
    || Plan(cfg, files, base, names, infos, now, victims)
    || (&& Matching(cfg.pattern, names, files) && victims == []
        && var past := Past(names, Name(cfg.pattern, base));
           exists k: nat :: k < |past| && Fails(cfg, past, infos, now, k))
  }

  /** One removal, undisturbed. */
  method removeOld(cfg: Config, dir: Directory, base: nat, now: int, infos: map<bytes, Info>)
    returns (ghost victims: seq<bytes>)
    requires cfg.pattern.Valid() && Readable(cfg.pattern, dir.files)
    modifies dir
    ensures exists names :: Planned(cfg, old(dir.files), base, names, infos, now, victims)
    ensures dir.files == old(dir.files) - (set v | v in victims)
  {
    hide ParseName, CutAt, Fails, Past, Known;
    var names := dir.ReadDir();
    var files := matchingFiles(cfg.pattern, names, dir.files);
    var r := filesToRemove(cfg, Name(cfg.pattern, base), now, files, infos);
    victims := if r.Some? then r.value else [];
    assert Planned(cfg, dir.files, base, files, infos, now, victims);
    if r.Some? {
      removeAll(dir, r.value);
    }
  }

  method removeAll(dir: Directory, victims: seq<bytes>)
    modifies dir
    ensures dir.files == old(dir.files) - (set v | v in victims)
  {
    for i := 0 to |victims|
      invariant dir.files == old(dir.files) - (set v | v in victims[..i])
    {
      assert victims[..i + 1] == victims[..i] + [victims[i]];
      dir.files := dir.files - {victims[i]};
    }
    assert victims[..|victims|] == victims;
  }

  /** The past names are exactly those before `base`. */
  lemma {:induction false} PastIsBefore(names: seq<bytes>, base: bytes)
    requires SortedNames(names)
    ensures forall n | n in Past(names, base) :: Before(n, base)
    ensures forall i | |Past(names, base)| <= i < |names| :: !Before(names[i], base)
    decreases |names|
  {
    if names != [] {
      var last := names[|names| - 1];
      if Before(last, base) {
        forall i | 0 <= i < |names|
          ensures Before(names[i], base)
        {
          CmpBytesOrder(names[i], last, base);
          CmpBytesOrder(base, last, names[i]);
        }
      } else {
        PastIsBefore(names[..|names| - 1], base);
      }
    }
  }

  function Total(names: seq<bytes>, infos: map<bytes, Info>): nat
    requires forall n <- names :: n in infos
  {
    if names == [] then 0 else infos[names[0]].size + Total(names[1..], infos)
  }

  lemma {:induction false} SizesAreTotal(past: seq<bytes>, infos: map<bytes, Info>, k: nat)
    requires k <= |past| && Known(past, infos, k)
    ensures forall n <- past[k..] :: n in infos
    ensures Sizes(past, infos, k) == Total(past[k..], infos)
    decreases |past| - k
  {
    if k < |past| {
      SizesAreTotal(past, infos, k + 1);
      assert past[k..][0] == past[k] && past[k..][1..] == past[k + 1..];
    }
  }

  /** The newest file to go is there for a reason. The sizes from it on are past the limit; or it is not within the
      age that protects files, an unknown time of change being long ago, and either is older than the limit, an
      unknown time being now, or has too many files from it on. */
  lemma NewestVictim(cfg: Config, past: seq<bytes>, infos: map<bytes, Info>, now: int, n: nat)
    requires CutAt(cfg, past, infos, now, n) && n > 0
    ensures forall name <- past[n - 1..] :: name in infos
    ensures var changed := infos[past[n - 1]].changed;
            || (cfg.maxTotalSize != 0 && Total(past[n - 1..], infos) > cfg.maxTotalSize)
            || (&& !(cfg.minAge != 0 && (if changed.Some? then now - changed.value else MAX_INT) <= cfg.minAge)
                && (|| (cfg.maxTotalAge != 0 && (if changed.Some? then now - changed.value else 0) > cfg.maxTotalAge)
                    || (cfg.maxTotalFiles != 0 && |past[n - 1..]| + 1 > cfg.maxTotalFiles)))
  {
    assert past[n - 1] in past[n - 1..];
    SizesAreTotal(past, infos, n - 1);
  }

  /** What is kept of the past is within the limits: the sizes from any kept file on, and for every kept file its age
      and the number of files from it on, with the current one, unless its age protects it. */
  lemma KeptWithinLimits(cfg: Config, past: seq<bytes>, infos: map<bytes, Info>, now: int, n: nat, k: nat)
    requires CutAt(cfg, past, infos, now, n) && n <= k < |past|
    ensures forall name <- past[k..] :: name in infos
    ensures cfg.maxTotalSize != 0 ==> Total(past[k..], infos) <= cfg.maxTotalSize
    ensures var changed := infos[past[k]].changed;
            || (cfg.minAge != 0 && (if changed.Some? then now - changed.value else MAX_INT) <= cfg.minAge)
            || (&& (cfg.maxTotalAge != 0 ==> (if changed.Some? then now - changed.value else 0) <= cfg.maxTotalAge)
                && (cfg.maxTotalFiles != 0 ==> |past[k..]| + 1 <= cfg.maxTotalFiles))
  {
    assert past[k] in past[k..];
    assert !Breaks(cfg, past, infos, now, k);
    SizesAreTotal(past, infos, k);
  }

  /** Files that are all within the protecting age stay, however many, if there is no limit on sizes. */
  lemma ProtectedStay(cfg: Config, past: seq<bytes>, infos: map<bytes, Info>, now: int, n: nat)
    requires CutAt(cfg, past, infos, now, n) && cfg.minAge != 0 && cfg.maxTotalSize == 0
    requires forall i | 0 <= i < |past| ::
               past[i] in infos && infos[past[i]].changed.Some? && now - infos[past[i]].changed.value <= cfg.minAge
    ensures n == 0
  {
    if n > 0 {
      NewestVictim(cfg, past, infos, now, n);
    }
  }

  /** A search fails only at a file it cannot look at, after newer ones that are within the limits. */
  lemma FailedSearch(cfg: Config, past: seq<bytes>, infos: map<bytes, Info>, now: int, k: nat)
    requires k < |past| && Fails(cfg, past, infos, now, k)
    ensures past[k] !in infos && CutAt(cfg, past[k + 1..], infos, now, 0)
  {
    var newer := past[k + 1..];
    forall i | 0 <= i < |newer|
      ensures Known(newer, infos, i) && !Breaks(cfg, newer, infos, now, i)
    {
      assert newer[i] == past[k + 1 + i] && !Breaks(cfg, past, infos, now, k + 1 + i);
      SizesAreTotal(newer, infos, i);
      SizesAreTotal(past, infos, k + 1 + i);
      assert newer[i..] == past[k + 1 + i..];
    }
  }

  // ----- writing, rotating and removing at the same time -----

  /** A search started by a rotation: it waits for the flag, lists the directory, removes file by file. */
  datatype Phase = Waiting | Listing | Removing(victims: seq<bytes>, k: nat) | Ended

  datatype Job = Job(base: nat, phase: Phase) {
    predicate Active() { phase.Listing? || phase.Removing? }
  }

  datatype State = State(files: map<bytes, bytes>, first: nat, log: History, flight: bool, jobs: seq<Job>) {
    function Num(): nat { first + |log| }
  }

  /** Files of an earlier run may be there. */
  ghost predicate Init(cfg: Config, s: State) {
    && cfg.pattern.Valid() && s.log == [] && !s.flight && s.jobs == []
    && forall n | n in s.files && ParseName(cfg.pattern, n).Numbered? :: ParseName(cfg.pattern, n).num <= s.first
  }

  /** The names with a number, in order. */
  ghost predicate Matching(p: Pattern, names: seq<bytes>, files: map<bytes, bytes>) {
    SortedNames(names) && forall n :: n in names <==> n in files && ParseName(p, n).Numbered?
  }

  ghost predicate Plan(cfg: Config, files: map<bytes, bytes>, base: nat, names: seq<bytes>, infos: map<bytes, Info>,
                       now: int, victims: seq<bytes>)
    requires cfg.pattern.Valid()
  {
    && Matching(cfg.pattern, names, files)
    && var past := Past(names, Name(cfg.pattern, base));
       victims <= past && CutAt(cfg, past, infos, now, |victims|)
  }

  datatype Action = Begin | Append(payload: bytes) | Work(j: nat)

  ghost predicate Step(cfg: Config, s: State, s': State, a: Action)
    requires cfg.pattern.Valid()
  {
    match a
    case Begin => s' == Begun(cfg, s)
    case Append(payload) =>
      && s.log != []
      && var name, last := Name(cfg.pattern, s.Num()), s.log[|s.log| - 1];
         s' == s.(log := s.log[..|s.log| - 1] + [last + [payload]],
                  files := if name in s.files then s.files[name := s.files[name] + payload] else s.files)
    case Work(j) => j < |s.jobs| && JobStep(cfg, s, s', j)
  }

  function Begun(cfg: Config, s: State): State
    requires cfg.pattern.Valid()
  {
    var name := Name(cfg.pattern, s.Num() + 1);
    s.(log := s.log + [[]], files := s.files[name := if name in s.files then s.files[name] else []],
       jobs := if Limited(cfg) then s.jobs + [Job(s.Num() + 1, Waiting)] else s.jobs)
  }

  function Moved(s: State, j: nat, phase: Phase): State
    requires j < |s.jobs|
  {
    s.(jobs := s.jobs[j := s.jobs[j].(phase := phase)])
  }

  ghost predicate JobStep(cfg: Config, s: State, s': State, j: nat)
    requires cfg.pattern.Valid() && j < |s.jobs|
  {
    match s.jobs[j].phase
    case Waiting => s' == if s.flight then Moved(s, j, Ended) else Moved(s, j, Listing).(flight := true)
    case Listing =>
      || s' == Moved(s, j, Ended).(flight := false)  // the directory or a file in it could not be looked at
      || (&& s'.jobs != [] && |s'.jobs| == |s.jobs| && s'.jobs[j].phase.Removing? && s'.jobs[j].phase.k == 0
          && var victims := s'.jobs[j].phase.victims;
             && s' == Moved(s, j, Removing(victims, 0))
             && exists names, infos, now :: Plan(cfg, s.files, s.jobs[j].base, names, infos, now, victims))
    case Removing(victims, k) =>
      if k < |victims| then s' == Moved(s, j, Removing(victims, k + 1)).(files := s.files - {victims[k]})
      else s' == Moved(s, j, Ended).(flight := false)
    case Ended => false
  }

  ghost predicate Run(cfg: Config, states: seq<State>) {
    && states != [] && Init(cfg, states[0])
    && forall i | 0 < i < |states| :: StepTo(cfg, states, i)
  }

  ghost predicate StepTo(cfg: Config, states: seq<State>, i: nat)
    requires 0 < i < |states| && cfg.pattern.Valid()
  {
    SomeStep(cfg, states[i - 1], states[i])
  }

  ghost predicate SomeStep(cfg: Config, s: State, s': State)
    requires cfg.pattern.Valid()
  {
    exists a :: Step(cfg, s, s', a)
  }

  // ----- the file's own operations, as steps -----

  /** The file and its directory as a state, beside the jobs under way. */
  ghost function StateOf(f: File, flight: bool, jobs: seq<Job>): State
    reads f, f.dir
  {
    State(f.dir.files, f.first, f.log, flight, jobs)
  }

  /** A rotation is a `Begin` step. The first one is taken from an initial state. */
  method RotateStep(f: File, now: int, ghost flight: bool, ghost jobs: seq<Job>)
    returns (removal: bool, ghost s: State, ghost s': State)
    requires f.Valid() && Readable(f.cfg.pattern, f.dir.files)
    modifies f, f.dir
    ensures f.Valid() && removal == Limited(f.cfg)
    ensures s == (if old(f.started) then old(StateOf(f, flight, jobs))
                  else State(old(f.dir.files), f.first, [], flight, jobs))
    ensures !old(f.started) && !flight && jobs == [] ==> Init(f.cfg, s)
    ensures s' == StateOf(f, flight, if removal then jobs + [Job(f.num, Waiting)] else jobs)
            && Step(f.cfg, s, s', Begin)
  {
    hide Name, ParseName, Holds, Unused, WithinLimit;
    removal := f.Rotate(now);
    s := State(old(f.dir.files), f.first, old(f.log), flight, jobs);
    s' := StateOf(f, flight, if removal then jobs + [Job(f.num, Waiting)] else jobs);
  }

  /** A write is an `Append` step, after a `Begin` step if a file is due. */
  method WriteSteps(f: File, payload: bytes, now: int, ghost flight: bool, ghost jobs: seq<Job>)
    returns (removal: bool, ghost s: State, ghost mid: State, ghost s': State)
    requires f.Valid() && Readable(f.cfg.pattern, f.dir.files)
    modifies f, f.dir
    ensures f.Valid()
    ensures s == (if old(f.started) then old(StateOf(f, flight, jobs))
                  else State(old(f.dir.files), f.first, [], flight, jobs))
    ensures !old(f.started) && !flight && jobs == [] ==> Init(f.cfg, s)
    ensures var tooLarge := f.cfg.maxFileSize != 0 && old(f.size) + |payload| > f.cfg.maxFileSize;
            var tooOld := f.cfg.maxFileAge != 0 && now - old(f.start) > f.cfg.maxFileAge;
            if !old(f.open) || (old(f.size) != 0 && (tooLarge || tooOld))
            then removal == Limited(f.cfg) && Step(f.cfg, s, mid, Begin)
            else !removal && mid == s
    ensures s' == StateOf(f, flight, if removal then jobs + [Job(f.num, Waiting)] else jobs)
    ensures Step(f.cfg, mid, s', Append(payload))
  {
    hide Name, ParseName, File.Stored, WithinLimit, Payloads, Concat, Step, Begun;
    ghost var begins := !f.open || Due(f.cfg, f.size, f.start, payload, now);
    ghost var limited := Limited(f.cfg);
    removal := f.Write(payload, now);
    assert removal == (begins && limited);
    s := State(old(f.dir.files), f.first, old(f.log), flight, jobs);
    s' := StateOf(f, flight, if removal then jobs + [Job(f.num, Waiting)] else jobs);
    mid := if begins then Begun(f.cfg, s) else s;
    WrittenIsAppended(f.cfg, s, begins, payload, f.log, f.dir.files);
  }

  lemma WrittenIsAppended(cfg: Config, s: State, begins: bool, payload: bytes, log: History, files: map<bytes, bytes>)
    requires cfg.pattern.Valid() && (begins || s.log != [])
    requires log != [] && log[|log| - 1] == (if begins then [] else s.log[|s.log| - 1]) + [payload]
    requires log[..|log| - 1] == if begins then s.log else s.log[..|s.log| - 1]
    requires var name := Name(cfg.pattern, s.first + |log|);
             files == if name in s.files then s.files[name := s.files[name] + payload]
                      else if begins then s.files[name := payload] else s.files
    ensures begins ==> Step(cfg, s, Begun(cfg, s), Begin)
    ensures var jobs := if begins && Limited(cfg) then s.jobs + [Job(s.first + |log|, Waiting)] else s.jobs;
            Step(cfg, if begins then Begun(cfg, s) else s, State(files, s.first, log, s.flight, jobs), Append(payload))
  {
    hide Name;
    var name := Name(cfg.pattern, s.first + |log|);
    InitAndLast(log);
    NewContent(s.files, name, payload);
  }

  // ----- what every step keeps -----

  ghost predicate OneFlight(s: State) {
    && (forall i | 0 <= i < |s.jobs| && s.jobs[i].Active() :: s.flight)
    && (forall i, j | 0 <= i < j < |s.jobs| :: !s.jobs[i].Active() || !s.jobs[j].Active())
  }

  /** The files of the log that are there are the latest ones. */
  ghost predicate LatestKept(p: Pattern, s: State)
    requires p.Valid()
  {
    && (forall i: nat, k: nat | i < k < |s.log| && Nth(p, s.first, i) in s.files :: Nth(p, s.first, k) in s.files)
    && (s.log != [] ==> Name(p, s.Num()) in s.files)
  }

  /** A job removes only files before its own, and those of the log oldest first. */
  ghost predicate JobOk(p: Pattern, s: State, job: Job)
    requires p.Valid()
  {
    && job.base <= s.Num()
    && (job.phase.Removing? ==>
          && (forall v | v in job.phase.victims :: Before(v, Name(p, job.base)))
          && OldestFirst(p, s.files, s.first, |s.log|, job.phase.victims, job.phase.k))
  }

  ghost predicate OldestFirst(p: Pattern, files: map<bytes, bytes>, first: nat, count: nat, victims: seq<bytes>, k: nat)
    requires p.Valid()
  {
    forall i: nat, m: nat | i < count && k <= m < |victims| && Nth(p, first, i) in files
      && Before(Nth(p, first, i), victims[m]) ::
      Nth(p, first, i) in victims[k..m]
  }

  ghost predicate Inv(cfg: Config, s: State)
    requires cfg.pattern.Valid()
  {
    && Holds(cfg.pattern, s.files, s.first, s.log) && Unused(cfg.pattern, s.files, s.Num())
    && OneFlight(s) && LatestKept(cfg.pattern, s)
    && forall j | 0 <= j < |s.jobs| :: JobOk(cfg.pattern, s, s.jobs[j])
  }

  lemma NothingBefore(p: Pattern, v: bytes, base: nat, n: nat)
    requires p.Valid() && Fits(p, n) && base <= n && Before(v, Name(p, base))
    ensures Before(v, Name(p, n)) && !Before(Name(p, n), v) && v != Name(p, n)
  {
    hide Name, CmpBytes;
    FitsBelow(p, base, n);
    NameOrder(p, base, n);
    CmpBytesOrder(v, Name(p, base), Name(p, n));
    CmpBytesOrder(Name(p, n), v, Name(p, base));
    CmpBytesOrder(Name(p, base), v, v);
  }

  lemma FitsBelow(p: Pattern, m: nat, n: nat)
    requires Fits(p, n) && m <= n
    ensures Fits(p, m)
  {
  }

  lemma BeginKeepsInv(cfg: Config, s: State, s': State)
    requires cfg.pattern.Valid() && Inv(cfg, s) && Step(cfg, s, s', Begin) && Fits(cfg.pattern, s'.Num())
    ensures Inv(cfg, s')
  {
    hide Name, CmpBytes, Fits, Concat, Holds, Unused, ParseName;
    var p := cfg.pattern;
    var num := s.Num() + 1;
    BeginFile(p, s.files, s.first, s.log, num);
    forall i: nat | i < |s.log| && Nth(p, s.first, i) in s'.files
      ensures Nth(p, s.first, i) in s.files
    {
      if Nth(p, s.first, i) == Name(p, num) {
        FitsBelow(p, s.first + 1 + i, num);
        NameInjective(p, s.first + 1 + i, num);
      }
    }
    assert Nth(p, s.first, |s.log|) == Name(p, num);
    forall j | 0 <= j < |s'.jobs|
      ensures JobOk(p, s', s'.jobs[j])
    {
      if j < |s.jobs| {
        JobAfterBegin(p, s, s', s.jobs[j]);
      }
    }
  }

  lemma JobAfterBegin(p: Pattern, s: State, s': State, job: Job)
    requires p.Valid() && JobOk(p, s, job) && Fits(p, s'.Num()) && s'.first == s.first && s'.log == s.log + [[]]
    requires forall i: nat | i < |s.log| && Nth(p, s.first, i) in s'.files :: Nth(p, s.first, i) in s.files
    ensures JobOk(p, s', job)
  {
    hide Name, CmpBytes, Fits;
    if job.phase.Removing? {
      var victims, k := job.phase.victims, job.phase.k;
      forall i: nat, m: nat | i < |s'.log| && k <= m < |victims| && Nth(p, s'.first, i) in s'.files
                              && Before(Nth(p, s'.first, i), victims[m])
        ensures Nth(p, s'.first, i) in victims[k..m]
      {
        assert victims[m] in victims;
        if i == |s.log| {
          NothingBefore(p, victims[m], job.base, s'.Num());
        }
      }
    }
  }

  lemma AppendKeepsInv(cfg: Config, s: State, s': State, payload: bytes)
    requires cfg.pattern.Valid() && Inv(cfg, s) && Step(cfg, s, s', Append(payload)) && Fits(cfg.pattern, s'.Num())
    ensures Inv(cfg, s')
  {
    hide Name, CmpBytes, Fits, Concat, Holds;
    AppendToLast(cfg.pattern, s.files, s.first, s.log, payload);
    assert s'.files.Keys == s.files.Keys;
    forall j | 0 <= j < |s'.jobs|
      ensures JobOk(cfg.pattern, s', s'.jobs[j])
    {
      assert JobOk(cfg.pattern, s, s.jobs[j]);
    }
  }

  lemma WorkKeepsInv(cfg: Config, s: State, s': State, j: nat)
    requires cfg.pattern.Valid() && Inv(cfg, s) && j < |s.jobs| && JobStep(cfg, s, s', j) && Fits(cfg.pattern, s.Num())
    ensures Inv(cfg, s')
  {
    hide Name, CmpBytes, Fits, Concat, Plan, OldestFirst;
    var p := cfg.pattern;
    var job := s.jobs[j];
    assert JobOk(p, s, job);
    if job.phase.Removing? && job.phase.k < |job.phase.victims| {
      RemovalKeepsLatest(p, s, job);
    }
    if job.phase.Listing? && s'.jobs[j].phase.Removing? {
      var names, infos, now :| Plan(cfg, s.files, job.base, names, infos, now, s'.jobs[j].phase.victims);
      PlanIsOldestFirst(cfg, s, job.base, names, infos, now, s'.jobs[j].phase.victims);
    }
    forall i | 0 <= i < |s'.jobs|
      ensures JobOk(p, s', s'.jobs[i])
    {
      assert JobOk(p, s, s.jobs[i]);
    }
  }

  /** A planned removal takes files before its own, and before each of them all of the log's that are there. */
  lemma PlanIsOldestFirst(cfg: Config, s: State, base: nat, names: seq<bytes>, infos: map<bytes, Info>, now: int,
                          victims: seq<bytes>)
    requires cfg.pattern.Valid() && Fits(cfg.pattern, s.Num()) && Plan(cfg, s.files, base, names, infos, now, victims)
    ensures forall v | v in victims :: Before(v, Name(cfg.pattern, base))
    ensures OldestFirst(cfg.pattern, s.files, s.first, |s.log|, victims, 0)
  {
    hide Name, CmpBytes, Fits, CutAt, Past, ParseName;
    var p, past := cfg.pattern, Past(names, Name(cfg.pattern, base));
    PastIsBefore(names, Name(p, base));
    forall i: nat, m: nat | i < |s.log| && 0 <= m < |victims| && Nth(p, s.first, i) in s.files
      && Before(Nth(p, s.first, i), victims[m])
      ensures Nth(p, s.first, i) in victims[0..m]
    {
      var name := Nth(p, s.first, i);
      FitsBelow(p, s.first + 1 + i, s.Num());
      NameReadsBack(p, s.first + 1 + i);
      var at :| 0 <= at < |names| && names[at] == name;
      EarlierInOrder(names, at, m);
      assert victims[0..m][at] == name;
    }
  }

  lemma EarlierInOrder(names: seq<bytes>, i: nat, m: nat)
    requires SortedNames(names) && i < |names| && m < |names| && Before(names[i], names[m])
    ensures i < m
  {
    CmpBytesOrder(names[i], names[m], names[i]);
  }

  /** Removing the next victim leaves the latest files of the log, and the order of the others to remove. */
  lemma RemovalKeepsLatest(p: Pattern, s: State, job: Job)
    requires p.Valid() && Fits(p, s.Num()) && LatestKept(p, s) && JobOk(p, s, job)
    requires job.phase.Removing? && job.phase.k < |job.phase.victims|
    ensures var s' := s.(files := s.files - {job.phase.victims[job.phase.k]});
            LatestKept(p, s') && OldestFirst(p, s'.files, s.first, |s.log|, job.phase.victims, job.phase.k + 1)
  {
    hide Name, CmpBytes, Fits;
    var victims, k := job.phase.victims, job.phase.k;
    var v := victims[k];
    var s' := s.(files := s.files - {v});
    assert v in victims;
    NothingBefore(p, v, job.base, s.Num());
    forall i: nat | i < |s.log| && Nth(p, s.first, i) in s.files
      ensures !Before(Nth(p, s.first, i), v)
    {
      assert victims[k..k] == [];
    }
    forall i: nat, n: nat | i < n < |s.log| && Nth(p, s.first, i) in s'.files
      ensures Nth(p, s.first, n) in s'.files
    {
      if Nth(p, s.first, n) == v {
        FitsBelow(p, s.first + 1 + n, s.Num());
        FitsBelow(p, s.first + 1 + i, s.Num());
        NameOrder(p, s.first + 1 + i, s.first + 1 + n);
      }
    }
    forall i: nat, m: nat | i < |s.log| && k + 1 <= m < |victims| && Nth(p, s.first, i) in s'.files
      && Before(Nth(p, s.first, i), victims[m])
      ensures Nth(p, s.first, i) in victims[k + 1..m]
    {
      assert Nth(p, s.first, i) in victims[k..m];
      assert victims[k..m] == [v] + victims[k + 1..m];
    }
  }

  lemma InitInv(cfg: Config, s: State)
    requires Init(cfg, s)
    ensures Inv(cfg, s)
  {
    UnusedAbove(cfg.pattern, s.files, s.first);
  }

  lemma {:induction false} RunKeepsInv(cfg: Config, states: seq<State>)
    requires cfg.pattern.Valid() && Run(cfg, states) && Fits(cfg.pattern, states[|states| - 1].Num())
    ensures Inv(cfg, states[|states| - 1])
    decreases |states|
  {
    hide Inv, Init, Name, Fits, JobStep;
    var n := |states| - 1;
    if n == 0 {
      InitInv(cfg, states[0]);
    } else {
      RunInit(cfg, states);
      var init, s, s' := states[..n], states[n - 1], states[n];
      var a :| Step(cfg, s, s', a);
      NumGrows(cfg, s, s', a);
      FitsBelow(cfg.pattern, s.Num(), s'.Num());
      RunKeepsInv(cfg, init);
      match a
      case Begin => BeginKeepsInv(cfg, s, s');
      case Append(payload) => AppendKeepsInv(cfg, s, s', payload);
      case Work(j) => WorkKeepsInv(cfg, s, s', j);
    }
  }

  lemma NumGrows(cfg: Config, s: State, s': State, a: Action)
    requires cfg.pattern.Valid() && Step(cfg, s, s', a)
    ensures s.Num() <= s'.Num() && s'.first == s.first
  {
    hide Name;
  }

  // ----- where files go -----

  lemma RunInit(cfg: Config, states: seq<State>)
    requires cfg.pattern.Valid() && Run(cfg, states) && |states| > 1
    ensures Run(cfg, states[..|states| - 1])
    ensures SomeStep(cfg, states[|states| - 2], states[|states| - 1])
  {
    hide Init, Step;
    var init := states[..|states| - 1];
    assert StepTo(cfg, states, |states| - 1);
    forall i | 0 < i < |init|
      ensures StepTo(cfg, init, i)
    {
      assert StepTo(cfg, states, i);
    }
  }

  /** In the step to state `i`, job `j`, having listed the directory, planned to remove `victims`. */
  ghost predicate PlanMade(cfg: Config, states: seq<State>, i: nat, j: nat, victims: seq<bytes>)
    requires cfg.pattern.Valid()
  {
    0 < i < |states| && j < |states[i - 1].jobs| && states[i - 1].jobs[j].phase.Listing?
    && PlanExists(cfg, states[i - 1].files, states[i - 1].jobs[j].base, victims)
  }

  ghost predicate PlanExists(cfg: Config, files: map<bytes, bytes>, base: nat, victims: seq<bytes>)
    requires cfg.pattern.Valid()
  {
    exists names, infos, now :: Plan(cfg, files, base, names, infos, now, victims)
  }

  /** Every removal under way follows a plan made earlier in the run. */
  lemma {:induction false} RemovalWasPlanned(cfg: Config, states: seq<State>, j: nat) returns (i: nat)
    requires Run(cfg, states) && cfg.pattern.Valid()
    requires var s := states[|states| - 1]; j < |s.jobs| && s.jobs[j].phase.Removing?
    ensures PlanMade(cfg, states, i, j, states[|states| - 1].jobs[j].phase.victims)
    decreases |states|
  {
    hide Plan, Name, Step, PlanExists;
    var n := |states| - 1;
    if n == 0 {
      assert false;
    } else {
      RunInit(cfg, states);
      var init, s, s' := states[..n], states[n - 1], states[n];
      var a :| Step(cfg, s, s', a);
      RemovingBefore(cfg, s, s', a, j);
      if s.jobs[j].phase.Listing? {
        i := n;
      } else {
        i := RemovalWasPlanned(cfg, init, j);
        assert init[i - 1] == states[i - 1];
      }
    }
  }

  lemma RemovingBefore(cfg: Config, s: State, s': State, a: Action, j: nat)
    requires cfg.pattern.Valid() && Step(cfg, s, s', a) && j < |s'.jobs| && s'.jobs[j].phase.Removing?
    ensures j < |s.jobs|
    ensures var victims := s'.jobs[j].phase.victims;
            || (s.jobs[j].phase.Listing? && PlanExists(cfg, s.files, s.jobs[j].base, victims))
            || (s.jobs[j].phase.Removing? && s.jobs[j].phase.victims == victims)
  {
    hide Plan, Name;
  }

  /** A file of the log that is gone was among the victims of a plan. */
  lemma {:induction false} GoneWasPlanned(cfg: Config, states: seq<State>, k: nat)
    returns (i: nat, j: nat, victims: seq<bytes>)
    requires Run(cfg, states) && cfg.pattern.Valid()
    requires var s := states[|states| - 1]; k < |s.log| && Nth(cfg.pattern, s.first, k) !in s.files
    ensures PlanMade(cfg, states, i, j, victims) && Nth(cfg.pattern, states[|states| - 1].first, k) in victims
    decreases |states|
  {
    hide Plan, Name, PlanMade;
    var n := |states| - 1;
    if n == 0 {
      assert false;
    } else {
      RunInit(cfg, states);
      var init, s, s' := states[..n], states[n - 1], states[n];
      var a :| Step(cfg, s, s', a);
      NumGrows(cfg, s, s', a);
      var name := Nth(cfg.pattern, s.first, k);
      if a.Work? && name in s.files {
        var job := s.jobs[a.j];
        i := RemovalWasPlanned(cfg, init, a.j);
        j, victims := a.j, job.phase.victims;
      } else {
        StillGone(cfg, s, s', a, k);
        i, j, victims := GoneWasPlanned(cfg, init, k);
      }
      PlanStays(cfg, states, i, j, victims);
    }
  }

  lemma StillGone(cfg: Config, s: State, s': State, a: Action, k: nat)
    requires cfg.pattern.Valid() && Step(cfg, s, s', a) && k < |s'.log|
    requires var name := Nth(cfg.pattern, s.first, k); name !in s'.files && (a.Work? ==> name !in s.files)
    ensures k < |s.log| && Nth(cfg.pattern, s.first, k) !in s.files
  {
    hide Name, Plan;
  }

  lemma PlanStays(cfg: Config, states: seq<State>, i: nat, j: nat, victims: seq<bytes>)
    requires cfg.pattern.Valid() && states != [] && PlanMade(cfg, states[..|states| - 1], i, j, victims)
    ensures PlanMade(cfg, states, i, j, victims)
  {
    hide Plan;
    assert states[..|states| - 1][i - 1] == states[i - 1];
  }

  /** Without limits no removal is ever started. */
  lemma {:induction false} NoJobs(cfg: Config, states: seq<State>, i: nat)
    requires Run(cfg, states) && !Limited(cfg) && i < |states|
    ensures states[i].jobs == []
    decreases i
  {
    hide Name, Plan;
    if i > 0 {
      NoJobs(cfg, states, i - 1);
      assert StepTo(cfg, states, i);
      var a :| Step(cfg, states[i - 1], states[i], a);
    } else {
      assert Init(cfg, states[0]);
    }
  }

  // ----- the theorems -----

  /** While numbers fit the padded width, no removal in any interleaving takes the file being written, or any file
      numbered at or after the one whose rotation started it; and at most one removal is under way. */
  lemma RemovalIsSafe(cfg: Config, states: seq<State>, j: nat)
    requires cfg.pattern.Valid() && Run(cfg, states) && Fits(cfg.pattern, states[|states| - 1].Num())
    requires var s := states[|states| - 1]; j < |s.jobs| && s.jobs[j].Active()
    ensures var s := states[|states| - 1];
            && s.jobs[j].base <= s.Num()
            && (s.jobs[j].phase.Removing? ==> forall n: nat | s.jobs[j].base <= n && Fits(cfg.pattern, n) ::
                  Name(cfg.pattern, n) !in s.jobs[j].phase.victims)
            && forall i | 0 <= i < |s.jobs| && s.jobs[i].Active() :: i == j
  {
    hide Name, Fits, CmpBytes, Holds, Unused, LatestKept, OldestFirst;
    var s := states[|states| - 1];
    RunKeepsInv(cfg, states);
    assert JobOk(cfg.pattern, s, s.jobs[j]);
    if s.jobs[j].phase.Removing? {
      forall n: nat | s.jobs[j].base <= n && Fits(cfg.pattern, n)
        ensures Name(cfg.pattern, n) !in s.jobs[j].phase.victims
      {
        if Name(cfg.pattern, n) in s.jobs[j].phase.victims {
          NothingBefore(cfg.pattern, Name(cfg.pattern, n), s.jobs[j].base, n);
        }
      }
    }
  }

  /** The files of the log that are there are its latest ones: each holds its payloads, whole, and so read in number
      order they give the end of what was written. Every earlier one was planned to be removed; so without limits they
      are all there, and give all that was written. */
  lemma LatestFilesRemain(cfg: Config, states: seq<State>) returns (cut: nat)
    requires cfg.pattern.Valid() && Run(cfg, states) && Fits(cfg.pattern, states[|states| - 1].Num())
    ensures var s := states[|states| - 1];
            && cut <= |s.log| && (s.log != [] ==> cut < |s.log|)
            && (forall k: nat | k < |s.log| :: Nth(cfg.pattern, s.first, k) in s.files <==> cut <= k)
            && ReadFiles(cfg.pattern, s.files, s.first, cut, |s.log|) == Concat(Payloads(s.log[cut..]))
            && (forall k: nat | k < cut :: WasPlanned(cfg, states, Nth(cfg.pattern, s.first, k)))
    ensures var s := states[|states| - 1];
            !Limited(cfg) ==>
              cut == 0 && ReadFiles(cfg.pattern, s.files, s.first, 0, |s.log|) == Concat(Payloads(s.log))
  {
    hide Inv, Name, Fits, Holds, Concat, Payloads, PlanMade, Limited, Step;
    var s := states[|states| - 1];
    RunKeepsInv(cfg, states);
    InvParts(cfg, s);
    cut := |s.log|;
    while cut > 0 && Nth(cfg.pattern, s.first, cut - 1) in s.files
      invariant cut <= |s.log| && forall k: nat | cut <= k < |s.log| :: Nth(cfg.pattern, s.first, k) in s.files
    {
      cut := cut - 1;
    }
    ReadIsPayloads(cfg.pattern, s.files, s.first, s.log, cut);
    forall k: nat | k < cut
      ensures WasPlanned(cfg, states, Nth(cfg.pattern, s.first, k))
    {
      var i, j, victims := GoneWasPlanned(cfg, states, k);
    }
    if !Limited(cfg) {
      if cut > 0 {
        assert WasPlanned(cfg, states, Nth(cfg.pattern, s.first, 0));
        var i, j, victims :| PlanMade(cfg, states, i, j, victims);
        NoneMade(cfg, states, i, j, victims);
      }
      assert s.log[0..] == s.log;
    }
  }

  /** Some plan of the run was to remove the file. */
  ghost predicate WasPlanned(cfg: Config, states: seq<State>, name: bytes)
    requires cfg.pattern.Valid()
  {
    exists i, j, victims :: PlanMade(cfg, states, i, j, victims) && name in victims
  }

  lemma NoneMade(cfg: Config, states: seq<State>, i: nat, j: nat, victims: seq<bytes>)
    requires cfg.pattern.Valid() && Run(cfg, states) && !Limited(cfg)
    ensures !PlanMade(cfg, states, i, j, victims)
  {
    hide Run, Limited;
    if 0 < i < |states| {
      NoJobs(cfg, states, i - 1);
    }
  }

  lemma InvParts(cfg: Config, s: State)
    requires cfg.pattern.Valid() && Inv(cfg, s)
    ensures LatestKept(cfg.pattern, s) && Holds(cfg.pattern, s.files, s.first, s.log)
    ensures s.log != [] ==> Nth(cfg.pattern, s.first, |s.log| - 1) in s.files
  {
    hide Name;
  }

  /** The files from the `k`-th to the `n`-th of the log, one after the other. */
  function ReadFiles(p: Pattern, files: map<bytes, bytes>, first: nat, k: nat, n: nat): bytes
    requires p.Valid() && k <= n
    decreases n - k
  {
    if k == n then []
    else
      var name := Nth(p, first, k);
      (if name in files then files[name] else []) + ReadFiles(p, files, first, k + 1, n)
  }

  lemma {:induction false} ReadIsPayloads(p: Pattern, files: map<bytes, bytes>, first: nat, log: History, k: nat)
    requires p.Valid() && k <= |log| && Holds(p, files, first, log)
    requires forall i: nat | k <= i < |log| :: Nth(p, first, i) in files
    ensures ReadFiles(p, files, first, k, |log|) == Concat(Payloads(log[k..]))
    decreases |log| - k
  {
    hide Name, Concat, Payloads;
    if k == |log| {
      assert log[k..] == [];
      NoPayloads();
    } else {
      ReadIsPayloads(p, files, first, log, k + 1);
      assert files[Nth(p, first, k)] == Concat(log[k]);
      assert log[k..] == [log[k]] + log[k + 1..];
      PayloadsFront(log[k], log[k + 1..]);
      ConcatSplit(log[k], Payloads(log[k + 1..]));
    }
  }

  lemma NoPayloads()
    ensures Concat(Payloads([])) == []
  {
  }

  lemma {:induction false} PayloadsFront(ps: seq<bytes>, log: History)
    ensures Payloads([ps] + log) == ps + Payloads(log)
    decreases |log|
  {
    var all := [ps] + log;
    if log == [] {
      assert all[..0] == [] && Payloads([]) == [];
    } else {
      assert all[..|all| - 1] == [ps] + log[..|log| - 1];
      PayloadsFront(ps, log[..|log| - 1]);
    }
  }

  lemma {:induction false} ConcatSplit(ps: seq<bytes>, qs: seq<bytes>)
    ensures Concat(ps + qs) == Concat(ps) + Concat(qs)
  {
    if ps == [] {
      assert ps + qs == qs;
    } else {
      assert (ps + qs)[1..] == ps[1..] + qs;
      ConcatSplit(ps[1..], qs);
    }
  }

  /** Past the padded width this fails: the first number that does not fit sorts before the one that came before it,
      and a removal started by the latter, if it comes late, takes the file being written first of all. */
  lemma WidthMatters(p: Pattern) returns (cfg: Config, states: seq<State>)
    requires p.Valid()
    ensures cfg.pattern == p && Run(cfg, states)
    ensures var s := states[|states| - 1];
            && s.Num() == Power(p.radix, p.width) && s.log != []
            && s.jobs != [] && s.jobs[0].phase.Removing? && s.jobs[0].phase.k == 0
            && s.jobs[0].phase.victims != [] && s.jobs[0].phase.victims[0] == Name(p, s.Num())
  {
    hide Name, ParseName, CmpBytes, Plan;
    cfg := Config(p, 0, 0, 0, 0, 0, 1);
    var n := Power(p.radix, p.width);
    TooLong(p, n);
    var a, b, c := Name(p, n - 2), Name(p, n - 1), Name(p, n);
    NameOrder(p, n - 2, n - 1);
    NameReadsBack(p, n - 2);
    NameReadsBack(p, n - 1);
    Distinguish(a, b, c);
    var past := [c, a];
    var names, infos := LatePlan(cfg, n);
    var s0 := State(map[a := []], n - 2, [], false, []);
    var s1 := State(map[a := [], b := []], n - 2, [[]], false, [Job(n - 1, Waiting)]);
    var s2 := State(map[a := [], b := [], c := []], n - 2, [[], []], false, [Job(n - 1, Waiting), Job(n, Waiting)]);
    var s3 := State(s2.files, n - 2, s2.log, true, [Job(n - 1, Listing), Job(n, Waiting)]);
    var s4 := State(s2.files, n - 2, s2.log, true, [Job(n - 1, Removing(past, 0)), Job(n, Waiting)]);
    assert Step(cfg, s0, s1, Begin);
    assert Step(cfg, s1, s2, Begin);
    assert Step(cfg, s2, s3, Work(0));
    assert s3.files == map[a := [], b := [], c := []];
    assert Step(cfg, s3, s4, Work(0));
    states := [s0, s1, s2, s3, s4];
    forall i | 0 < i < |states|
      ensures StepTo(cfg, states, i)
    {
      assert SomeStep(cfg, states[i - 1], states[i]);
    }
  }

  lemma LatePlan(cfg: Config, n: nat) returns (names: seq<bytes>, infos: map<bytes, Info>)
    requires cfg == Config(cfg.pattern, 0, 0, 0, 0, 0, 1) && cfg.pattern.Valid()
             && n == Power(cfg.pattern.radix, cfg.pattern.width)
    ensures n >= 10
    ensures var p := cfg.pattern; var a, b, c := Name(p, n - 2), Name(p, n - 1), Name(p, n);
            Plan(cfg, map[a := [], b := [], c := []], n - 1, names, infos, 0, [c, a])
  {
    hide Name, ParseName, CmpBytes;
    var p := cfg.pattern;
    TooLong(p, n);
    var a, b, c := Name(p, n - 2), Name(p, n - 1), Name(p, n);
    NameOrder(p, n - 2, n - 1);
    NameReadsBack(p, n - 2);
    NameReadsBack(p, n - 1);
    names := [c, a, b];
    infos := map[a := Info(0, None), b := Info(0, None), c := Info(0, None)];
    Distinguish(a, b, c);
    assert names[..2] == [c, a];
    assert Past(names, b) == [c, a];
  }

  lemma Distinguish(a: bytes, b: bytes, c: bytes)
    requires Before(a, b) && Before(c, a) && Before(c, b)
    ensures a != b && b != c && a != c && !Before(b, b) && SortedNames([c, a, b])
  {
    CmpBytesOrder(b, b, b);
    CmpBytesOrder(a, a, a);
    CmpBytesOrder(c, c, c);
  }
}
