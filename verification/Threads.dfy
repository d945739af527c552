/** Threads that share a logger: the lock protocol, step by step, in every interleaving. */
module Threads {
  import opened Wire
  import opened Events
  import opened Loggers
  import opened Calls
  import opened Framing
  import opened Indices
  import opened Recovery
  import StreamReader

  /** One call: an event with its header and argument pairs, or new labels. */
  datatype Op = Emit(items: seq<Value>) | Relabel(labels: seq<Value>)

  /** Where a thread is in its current call. `Filling(k)`: `k` items are in the buffer. */
  datatype Phase = Idle | Locked | Filling(k: nat) | Labelling | Closing | Writing | Unlocking

  datatype Thread = Thread(done: nat, phase: Phase)

  /** What the threads share: the lock, the event buffer, the encoded labels, and what the writer was given. */
  datatype State = State(owner: Option<nat>, threads: seq<Thread>, buf: bytes, ls: bytes, out: seq<bytes>)

  type Programs = seq<seq<Op>>

  ghost predicate Init(progs: Programs, s: State) {
    && s.owner == None && s.ls == [] && s.out == []
    && |s.threads| == |progs| && forall t | 0 <= t < |progs| :: s.threads[t] == Thread(0, Idle)
  }

  function At(s: State, t: nat, phase: Phase): State
    requires t < |s.threads|
  {
    s.(threads := s.threads[t := s.threads[t].(phase := phase)])
  }

  /** What thread `t`, holding the lock, does next in its call `op`. */
  ghost predicate Work(s: State, s': State, t: nat, op: Op)
    requires t < |s.threads|
  {
    match s.threads[t].phase
    case Idle => false
    case Locked =>
      if op.Emit? then s' == At(s, t, Filling(0)).(buf := OPEN)
      else s' == At(s, t, Unlocking).(ls := EncAll(op.labels))
    case Filling(k) =>
      if op.Emit? && k < |op.items| then s' == At(s, t, Filling(k + 1)).(buf := s.buf + Enc(op.items[k]))
      else s' == At(s, t, Labelling)
    case Labelling => s' == At(s, t, Closing).(buf := s.buf + s.ls)
    case Closing => s' == At(s, t, Writing).(buf := s.buf + [BREAK_BYTE])
    case Writing => s' == At(s, t, Unlocking).(out := s.out + [s.buf])
    case Unlocking =>
      s' == s.(owner := None, threads := s.threads[t := Thread(s.threads[t].done + 1, Idle)])
  }

  /** One step of thread `t`. Only taking the lock looks at the lock. */
  ghost predicate Step(progs: Programs, s: State, s': State, t: nat) {
    && |s.threads| == |progs| && t < |progs| && s.threads[t].done < |progs[t]|
    && if s.threads[t].phase.Idle? then s.owner == None && s' == At(s, t, Locked).(owner := Some(t))
       else Work(s, s', t, progs[t][s.threads[t].done])
  }

  /** A run: states from an initial one, each a step of some thread after the one before. */
  ghost predicate Run(progs: Programs, states: seq<State>) {
    && states != [] && Init(progs, states[0])
    && forall i | 0 < i < |states| :: StepTo(progs, states, i)
  }

  ghost predicate StepTo(progs: Programs, states: seq<State>, i: nat)
    requires 0 < i < |states|
  {
    SomeStep(progs, states[i - 1], states[i])
  }

  ghost predicate SomeStep(progs: Programs, s: State, s': State) {
    exists t :: Step(progs, s, s', t)
  }

  // ----- the same calls one after the other -----

  function Count(order: seq<nat>, t: nat): (n: nat)
    ensures n <= |order|
  {
    if order == [] then 0
    else Count(order[..|order| - 1], t) + if order[|order| - 1] == t then 1 else 0
  }

  /** `order` names the thread of each call; every thread makes its calls in program order. */
  ghost predicate Schedule(progs: Programs, order: seq<nat>) {
    order == [] ||
    var t, init := order[|order| - 1], order[..|order| - 1];
    t < |progs| && Count(init, t) < |progs[t]| && Schedule(progs, init)
  }

  /** The calls of a schedule. */
  function Made(progs: Programs, order: seq<nat>): (ops: seq<Op>)
    requires Schedule(progs, order)
    ensures |ops| == |order|
  {
    if order == [] then []
    else
      var t, init := order[|order| - 1], order[..|order| - 1];
      Made(progs, init) + [progs[t][Count(init, t)]]
  }

  /** The labels in force after the calls. */
  function LabelsAfter(ops: seq<Op>): seq<Value> {
    if ops == [] then []
    else
      var op := ops[|ops| - 1];
      if op.Relabel? then op.labels else LabelsAfter(ops[..|ops| - 1])
  }

  /** The events the calls write, each with the labels in force. */
  function EventsOf(ops: seq<Op>): seq<Value> {
    if ops == [] then []
    else
      var op, init := ops[|ops| - 1], ops[..|ops| - 1];
      EventsOf(init) + if op.Emit? then [Event(op.items, LabelsAfter(init))] else []
  }

  function Encoded(vs: seq<Value>): seq<bytes> { StreamReader.Encodings(vs) }

  lemma CallsAppend(ops: seq<Op>, op: Op)
    ensures LabelsAfter(ops + [op]) == if op.Relabel? then op.labels else LabelsAfter(ops)
    ensures EventsOf(ops + [op]) == EventsOf(ops) + if op.Emit? then [Event(op.items, LabelsAfter(ops))] else []
  {
    assert (ops + [op])[..|ops|] == ops;
  }

  lemma {:induction false} EventsGrow(ops: seq<Op>, more: seq<Op>)
    ensures EventsOf(ops) <= EventsOf(ops + more)
    decreases |more|
  {
    if more == [] {
      assert ops + more == ops;
    } else {
      var init := more[..|more| - 1];
      EventsGrow(ops, init);
      assert ops + more == ops + init + [more[|more| - 1]];
      CallsAppend(ops + init, more[|more| - 1]);
    }
  }

  /** How many of the calls are events. */
  function Emitted(ops: seq<Op>): nat {
    if ops == [] then 0 else Emitted(ops[..|ops| - 1]) + if ops[|ops| - 1].Emit? then 1 else 0
  }

  lemma {:induction false} EventCount(ops: seq<Op>)
    ensures |EventsOf(ops)| == Emitted(ops)
  {
    if ops != [] {
      EventCount(ops[..|ops| - 1]);
    }
  }

  /** Call `k` writes a map of its items and then the labels of the last call before it that set any, or none. It is
      the event after those of the calls before it. */
  lemma EventOfCall(ops: seq<Op>, k: nat, j: int)
    requires k < |ops| && ops[k].Emit? && -1 <= j < k && (j >= 0 ==> ops[j].Relabel?)
    requires forall i | j < i < k :: ops[i].Emit?
    ensures var n := Emitted(ops[..k]);
            && n < |EventsOf(ops)|
            && EventsOf(ops)[n] == Open(true, ops[k].items + if j >= 0 then ops[j].labels else [])
  {
    EventCount(ops[..k]);
    assert ops == ops[..k] + [ops[k]] + ops[k + 1..];
    CallsAppend(ops[..k], ops[k]);
    EventsGrow(ops[..k] + [ops[k]], ops[k + 1..]);
    LabelsOfLast(ops[..k], j);
  }

  lemma {:induction false} LabelsOfLast(ops: seq<Op>, j: int)
    requires -1 <= j < |ops| && (j >= 0 ==> ops[j].Relabel?) && forall i | j < i < |ops| :: ops[i].Emit?
    ensures LabelsAfter(ops) == if j >= 0 then ops[j].labels else []
    decreases |ops|
  {
    if ops != [] && j < |ops| - 1 {
      LabelsOfLast(ops[..|ops| - 1], j);
    }
  }

  // ----- the invariant -----

  /** The calls in the order they took the lock; the last one is still under way while the lock is held. */
  ghost predicate Inv(progs: Programs, s: State, order: seq<nat>) {
    && |s.threads| == |progs| && Schedule(progs, order)
    && match s.owner
       case None =>
         && (forall t | 0 <= t < |progs| :: s.threads[t] == Thread(Count(order, t), Idle))
         && Settled(s, Made(progs, order))
       case Some(o) =>
         && order != [] && order[|order| - 1] == o < |progs|
         && var init := order[..|order| - 1];
            && (forall t | 0 <= t < |progs| :: s.threads[t].done == Count(init, t)
                 && (s.threads[t].phase.Idle? <==> t != o))
            && UnderWay(s, Made(progs, init), progs[o][Count(init, o)], s.threads[o].phase)
  }

  ghost predicate Settled(s: State, ops: seq<Op>) {
    s.ls == EncAll(LabelsAfter(ops)) && s.out == Encoded(EventsOf(ops))
  }

  ghost predicate UnderWay(s: State, ops: seq<Op>, op: Op, phase: Phase) {
    match phase
    case Idle => false
    case Locked => Settled(s, ops)
    case Filling(k) => Settled(s, ops) && op.Emit? && k <= |op.items| && s.buf == OPEN + EncAll(op.items[..k])
    case Labelling => Settled(s, ops) && op.Emit? && s.buf == OPEN + EncAll(op.items)
    case Closing => Settled(s, ops) && op.Emit? && s.buf == OPEN + EncAll(op.items) + EncAll(LabelsAfter(ops))
    case Writing => Settled(s, ops) && op.Emit? && s.buf == Enc(Event(op.items, LabelsAfter(ops)))
    case Unlocking => Settled(s, ops + [op])
  }

  lemma StepKeepsInv(progs: Programs, s: State, s': State, t: nat, order: seq<nat>) returns (order': seq<nat>)
    requires Inv(progs, s, order) && Step(progs, s, s', t)
    ensures Inv(progs, s', order')
    ensures order' == if s.threads[t].phase.Idle? then order + [t] else order
  {
    if s.threads[t].phase.Idle? {
      order' := order + [t];
      TakingKeepsInv(progs, s, s', t, order);
    } else {
      order' := order;
      WorkingKeepsInv(progs, s, s', t, order);
    }
  }

  lemma TakingKeepsInv(progs: Programs, s: State, s': State, t: nat, order: seq<nat>)
    requires Inv(progs, s, order) && Step(progs, s, s', t) && s.threads[t].phase.Idle?
    ensures Inv(progs, s', order + [t])
  {
    hide Enc, EncAll, EventsOf, LabelsAfter, Encoded, Made;
    assert (order + [t])[..|order|] == order;
    assert Settled(s', Made(progs, order));
  }

  lemma WorkingKeepsInv(progs: Programs, s: State, s': State, t: nat, order: seq<nat>)
    requires Inv(progs, s, order) && Step(progs, s, s', t) && !s.threads[t].phase.Idle?
    ensures Inv(progs, s', order)
  {
    hide Enc, EncAll, EventsOf, LabelsAfter, Encoded, Settled;
    assert s.owner == Some(t);
    var init := order[..|order| - 1];
    WorkKeepsInv(s, s', Made(progs, init), progs[t][Count(init, t)], t);
    if s.threads[t].phase.Unlocking? {
      assert Made(progs, order) == Made(progs, init) + [progs[t][Count(init, t)]];
      assert Settled(s', Made(progs, order));
    }
  }

  /** The work between taking and releasing the lock. */
  lemma WorkKeepsInv(s: State, s': State, ops: seq<Op>, op: Op, t: nat)
    requires t < |s.threads| && UnderWay(s, ops, op, s.threads[t].phase) && Work(s, s', t, op)
    ensures if s.threads[t].phase.Unlocking? then Settled(s', ops + [op])
            else UnderWay(s', ops, op, s'.threads[t].phase)
  {
    hide Enc, EncAll, EventsOf, LabelsAfter, Encoded, Event;
    match s.threads[t].phase
    case Locked =>
      CallsAppend(ops, op);
      NoneYet(op);
      assert EventsOf(ops) + [] == EventsOf(ops);
    case Filling(k) =>
      if k < |op.items| {
        OneMoreItem(op.items, k);
      } else {
        assert op.items[..k] == op.items;
      }
    case Closing => WholeEvent(op.items, LabelsAfter(ops));
    case Writing => CallsAppend(ops, op); EncodedAppend(EventsOf(ops), Event(op.items, LabelsAfter(ops)));
    case _ =>
  }

  lemma NoneYet(op: Op)
    ensures op.Emit? ==> OPEN + EncAll(op.items[..0]) == OPEN
  {
  }

  lemma OneMoreItem(items: seq<Value>, k: nat)
    requires k < |items|
    ensures OPEN + EncAll(items[..k]) + Enc(items[k]) == OPEN + EncAll(items[..k + 1])
  {
    assert items[..k + 1] == items[..k] + [items[k]];
    EncAllConcat(items[..k], [items[k]]);
    EncAllOne(items[k]);
    assert OPEN + (EncAll(items[..k]) + Enc(items[k])) == OPEN + EncAll(items[..k]) + Enc(items[k]);
  }

  lemma WholeEvent(items: seq<Value>, labels: seq<Value>)
    ensures OPEN + EncAll(items) + EncAll(labels) + [BREAK_BYTE] == Enc(Event(items, labels))
  {
    EventBytes([], items, labels);
    assert [] + items == items && OPEN + EncAll([]) == OPEN;
  }

  lemma EncodedAppend(vs: seq<Value>, v: Value)
    ensures Encoded(vs + [v]) == Encoded(vs) + [Enc(v)]
  {
  }

  // ----- whole runs -----

  lemma InitInv(progs: Programs, s: State)
    requires Init(progs, s)
    ensures Inv(progs, s, [])
  {
    assert Settled(s, []);
  }

  lemma {:induction false} RunKeepsInv(progs: Programs, states: seq<State>) returns (order: seq<nat>)
    requires Run(progs, states)
    ensures Inv(progs, states[|states| - 1], order)
    decreases |states|
  {
    hide Inv, Step, Schedule, Made, Init;
    var n := |states| - 1;
    if n == 0 {
      order := [];
      InitInv(progs, states[0]);
    } else {
      var init := states[..n];
      forall i | 0 < i < n
        ensures StepTo(progs, init, i)
      {
        assert StepTo(progs, states, i);
        assert init[i - 1] == states[i - 1] && init[i] == states[i];
      }
      order := RunKeepsInv(progs, init);
      assert StepTo(progs, states, n);
      var t :| Step(progs, states[n - 1], states[n], t);
      order := StepKeepsInv(progs, states[n - 1], states[n], t, order);
    }
  }

  /** At every moment of every run the writer has been given the events of some sequential schedule of the calls made
      so far, each thread's in program order, each event with the labels then in force. */
  lemma EventsOfRun(progs: Programs, states: seq<State>) returns (order: seq<nat>)
    requires Run(progs, states)
    ensures Schedule(progs, order) && states[|states| - 1].out == Encoded(EventsOf(Made(progs, order)))
    ensures var s := states[|states| - 1];
            |s.threads| == |progs| && forall t | 0 <= t < |progs| ::
              s.threads[t].done <= Count(order, t) <= s.threads[t].done + 1
  {
    hide EncAll, Enc, Encoded, EventsOf, LabelsAfter;
    var s := states[|states| - 1];
    order := RunKeepsInv(progs, states);
    if s.owner.Some? {
      var init := order[..|order| - 1];
      var ops := Made(progs, init);
      if !s.threads[s.owner.value].phase.Unlocking? {
        order := init;
      } else {
        assert Made(progs, order) == ops + [progs[s.owner.value][Count(init, s.owner.value)]];
      }
    }
  }

  /** At most one thread is inside the lock. */
  lemma MutualExclusion(progs: Programs, states: seq<State>, t: nat, u: nat)
    requires Run(progs, states) && t < |progs| && u < |progs| && |states[|states| - 1].threads| == |progs|
    requires var s := states[|states| - 1]; !s.threads[t].phase.Idle? && !s.threads[u].phase.Idle?
    ensures t == u
  {
    var order := RunKeepsInv(progs, states);
  }

  /** The calls of one thread in a schedule are the first ones of its program, in order. */
  function CallsBy(progs: Programs, order: seq<nat>, t: nat): seq<Op>
    requires Schedule(progs, order)
  {
    if order == [] then []
    else
      var u, init := order[|order| - 1], order[..|order| - 1];
      CallsBy(progs, init, t) + if u == t then [Made(progs, order)[|order| - 1]] else []
  }

  lemma {:induction false} ProgramOrder(progs: Programs, order: seq<nat>, t: nat)
    requires Schedule(progs, order) && t < |progs|
    ensures Count(order, t) <= |progs[t]| && CallsBy(progs, order, t) == progs[t][..Count(order, t)]
    decreases |order|
  {
    if order != [] {
      var u, init := order[|order| - 1], order[..|order| - 1];
      ProgramOrder(progs, init, t);
      assert Made(progs, order)[|order| - 1] == progs[u][Count(init, u)];
      if u == t {
        assert progs[t][..Count(init, t) + 1] == progs[t][..Count(init, t)] + [progs[t][Count(init, t)]];
      }
    }
  }

  // ----- threads that call message, newspan, Finish, Event and SetLabels -----

  function OpOf(fmt: Formatter, c: Call): Op {
    if c.SetLabels? then Relabel(CallItems(fmt, c)) else Emit(CallItems(fmt, c))
  }

  function OpsOf(fmt: Formatter, calls: seq<seq<Call>>): (progs: Programs)
    ensures |progs| == |calls|
  {
    seq(|calls|, t requires 0 <= t < |calls| =>
      seq(|calls[t]|, k requires 0 <= k < |calls[t]| => OpOf(fmt, calls[t][k])))
  }

  /** No argument is larger than a program can pass, and none appends itself in a key's place. */
  ghost predicate GoodCalls(g: Grammar, fmt: Formatter, calls: seq<seq<Call>>) {
    && GoodFormatter(fmt)
    && forall t, k | 0 <= t < |calls| && 0 <= k < |calls[t]| ::
         GoodCall(g, fmt, calls[t][k]) && NoSelfAppendingKey(fmt, calls[t][k].kvs)
  }

  ghost predicate GoodOp(g: Grammar, op: Op) {
    GoodPairs(g, if op.Emit? then op.items else op.labels)
  }

  lemma CallsAreGood(g: Grammar, fmt: Formatter, calls: seq<seq<Call>>, t: nat, k: nat)
    requires GoodCalls(g, fmt, calls) && t < |calls| && k < |calls[t]|
    ensures GoodOp(g, OpsOf(fmt, calls)[t][k])
  {
    hide GoodPairs, GoodCall, NoSelfAppendingKey, CallItems, GoodFormatter, Valid;
    var c := calls[t][k];
    assert GoodCall(g, fmt, c) && NoSelfAppendingKey(fmt, c.kvs);
    if c.SetLabels? {
      NewLabelsAreGood(g, fmt, c);
    } else {
      Empty(g);
      EventIsPairsIff(g, fmt, c, []);
      AllPairs(g, CallItems(fmt, c));
    }
  }

  lemma AllPairs(g: Grammar, items: seq<Value>)
    ensures items + [] == items
    ensures GoodPairs(g, items) <==> Pairs(items) && ValidAll(g, items)
  {
  }

  /** One indefinite-length map of alternating string keys and values, which ends in the labels. */
  ghost predicate IsEvent(g: Grammar, e: Value, labels: seq<Value>) {
    && e.Open? && e.isMap && Valid(g, e) && GoodPairs(g, e.items)
    && |labels| <= |e.items| && e.items[|e.items| - |labels|..] == labels && GoodPairs(g, labels)
  }

  /** The labels in force at each event. */
  function LabelsOf(ops: seq<Op>): (r: seq<seq<Value>>)
    ensures |r| == |EventsOf(ops)|
  {
    if ops == [] then []
    else
      var op, init := ops[|ops| - 1], ops[..|ops| - 1];
      LabelsOf(init) + if op.Emit? then [LabelsAfter(init)] else []
  }

  ghost predicate AllEvents(g: Grammar, ops: seq<Op>) {
    forall k | 0 <= k < |EventsOf(ops)| :: IsEvent(g, EventsOf(ops)[k], LabelsOf(ops)[k])
  }

  /** In every interleaving of threads making these calls, at every moment: the writer was given whole events only, each
      one map of alternating keys and values ending in the labels in force; they are the events of a sequential
      schedule in which every thread's calls are in program order. */
  lemma WholeEventsInOrder(g: Grammar, fmt: Formatter, calls: seq<seq<Call>>, states: seq<State>)
    returns (order: seq<nat>)
    requires GoodCalls(g, fmt, calls) && Run(OpsOf(fmt, calls), states)
    ensures Schedule(OpsOf(fmt, calls), order)
    ensures var ops := Made(OpsOf(fmt, calls), order);
            states[|states| - 1].out == Encoded(EventsOf(ops)) && AllEvents(g, ops) && ValidAll(g, EventsOf(ops))
    ensures var s := states[|states| - 1];
            && |s.threads| == |calls|
            && forall t | 0 <= t < |calls| :: s.threads[t].done <= Count(order, t) <= s.threads[t].done + 1
  {
    hide *;
    var progs := OpsOf(fmt, calls);
    order := EventsOfRun(progs, states);
    var ops := Made(progs, order);
    forall op | op in ops
      ensures GoodOp(g, op)
    {
      CallsOfPrograms(progs, order, op);
      var t: nat, k: nat :| t < |progs| && k < |progs[t]| && progs[t][k] == op;
      SameShape(fmt, calls, t);
      CallsAreGood(g, fmt, calls, t, k);
    }
    EventsAreGood(g, ops);
  }

  lemma SameShape(fmt: Formatter, calls: seq<seq<Call>>, t: nat)
    requires t < |calls|
    ensures |OpsOf(fmt, calls)[t]| == |calls[t]|
  {
  }

  // ----- what the stream reader makes of a run -----

  /** Arguments are those a program can pass; new labels have as many values as keys. */
  ghost predicate AnyCalls(fmt: Formatter, calls: seq<seq<Call>>) {
    && GoodFormatter(fmt)
    && forall t, k | 0 <= t < |calls| && 0 <= k < |calls[t]| :: AnyCall(fmt, calls[t][k])
  }

  ghost predicate AnyCall(fmt: Formatter, c: Call) {
    GoodCall(Full, fmt, c) && (c.SetLabels? ==> SelfKeys(fmt, c.kvs) % 2 == 0)
  }

  /** The calls of a schedule, with their arguments. */
  function CallsMade(fmt: Formatter, calls: seq<seq<Call>>, order: seq<nat>): (cs: seq<Call>)
    requires Schedule(OpsOf(fmt, calls), order)
    ensures |cs| == |order|
  {
    if order == [] then []
    else
      var t, init := order[|order| - 1], order[..|order| - 1];
      CallsMade(fmt, calls, init) + [calls[t][Count(init, t)]]
  }

  function OpsOfAll(fmt: Formatter, cs: seq<Call>): seq<Op> {
    seq(|cs|, k requires 0 <= k < |cs| => OpOf(fmt, cs[k]))
  }

  lemma {:induction false} SameCalls(fmt: Formatter, calls: seq<seq<Call>>, order: seq<nat>)
    requires Schedule(OpsOf(fmt, calls), order) && AnyCalls(fmt, calls)
    ensures Made(OpsOf(fmt, calls), order) == OpsOfAll(fmt, CallsMade(fmt, calls, order))
    ensures forall c | c in CallsMade(fmt, calls, order) :: AnyCall(fmt, c)
    decreases |order|
  {
    hide AnyCall, OpOf;
    if order != [] {
      var t, init := order[|order| - 1], order[..|order| - 1];
      SameCalls(fmt, calls, init);
      var c := calls[t][Count(init, t)];
      assert OpsOf(fmt, calls)[t][Count(init, t)] == OpOf(fmt, c) && AnyCall(fmt, c);
    }
  }

  /** The labels in force are of the stream format. */
  ghost predicate LabelsReadable(cs: seq<Call>) {
    if cs == [] then true
    else
      var c := cs[|cs| - 1];
      if c.SetLabels? then StreamTrees(c.kvs) else LabelsReadable(cs[..|cs| - 1])
  }

  /** For every event the calls write: whether its arguments, and the labels in force, are such that it can be read. */
  ghost function ReadableEvents(fmt: Formatter, cs: seq<Call>): seq<bool> {
    if cs == [] then []
    else
      var c, init := cs[|cs| - 1], cs[..|cs| - 1];
      ReadableEvents(fmt, init) + if c.SetLabels? then [] else [StreamCall(fmt, c) && LabelsReadable(init)]
  }

  function Leading(bs: seq<bool>): (k: nat)
    ensures k <= |bs| && (forall i | 0 <= i < k :: bs[i]) && (k < |bs| ==> !bs[k])
  {
    if bs == [] || !bs[0] then 0 else 1 + Leading(bs[1..])
  }

  lemma {:induction false} EventsReadable(fmt: Formatter, cs: seq<Call>)
    requires GoodFormatter(fmt) && forall c | c in cs :: AnyCall(fmt, c)
    ensures var ops := OpsOfAll(fmt, cs);
            && |ReadableEvents(fmt, cs)| == |EventsOf(ops)|
            && (forall j | 0 <= j < |EventsOf(ops)| ::
                  EventLike(EventsOf(ops)[j]) && (Valid(Stream, EventsOf(ops)[j]) <==> ReadableEvents(fmt, cs)[j]))
            && ValidAll(Full, LabelsAfter(ops)) && |LabelsAfter(ops)| % 2 == 0
            && (ValidAll(Stream, LabelsAfter(ops)) <==> LabelsReadable(cs))
    decreases |cs|
  {
    hide Valid, ValidAll, StreamCall, StreamTrees, GoodCall, CallItems, GoodFormatter, EventLike;
    var ops := OpsOfAll(fmt, cs);
    if cs == [] {
      NothingValid();
    } else {
      var c, init := cs[|cs| - 1], cs[..|cs| - 1];
      assert c in cs && AnyCall(fmt, c);
      EventsReadable(fmt, init);
      assert ops == OpsOfAll(fmt, init) + [OpOf(fmt, c)];
      CallsAppend(OpsOfAll(fmt, init), OpOf(fmt, c));
      if c.SetLabels? {
        LabelsReadableIff(fmt, c);
        assert EventsOf(OpsOfAll(fmt, init)) + [] == EventsOf(OpsOfAll(fmt, init));
      } else {
        var labels := LabelsAfter(OpsOfAll(fmt, init));
        EventReadableIff(fmt, c, labels);
        LikeEvent(CallItems(fmt, c), labels);
      }
    }
  }

  lemma NothingValid()
    ensures ValidAll(Full, []) && ValidAll(Stream, [])
  {
  }

  lemma LikeEvent(items: seq<Value>, labels: seq<Value>)
    requires ValidAll(Full, items + labels)
    ensures EventLike(Event(items, labels))
  {
  }

  lemma {:induction false} ClearIsLeading(events: seq<Value>, bs: seq<bool>)
    requires |events| == |bs| && forall j | 0 <= j < |bs| :: Valid(Stream, events[j]) <==> bs[j]
    ensures Clear(events) == Leading(bs)
    decreases |bs|
  {
    hide Valid;
    if bs != [] && bs[0] {
      assert forall j | 0 <= j < |bs| - 1 :: events[1..][j] == events[j + 1] && bs[1..][j] == bs[j + 1];
      ClearIsLeading(events[1..], bs[1..]);
    }
  }

  /** At every moment of every run of any such calls, the stream reader cuts what was written into exactly the events
      before the first whose arguments, or labels, make it unreadable: a tree with a special that is unknown to it, or
      an odd number of keys without values. There it stops: at a bad special if there is one from there on, and else
      asking for more, whatever is written after it. So it sees the whole run if and only if all events can be read. */
  lemma ReaderSeesTheRun(fmt: Formatter, calls: seq<seq<Call>>, states: seq<State>, base: nat)
    returns (order: seq<nat>)
    requires AnyCalls(fmt, calls) && Run(OpsOf(fmt, calls), states)
    ensures Schedule(OpsOf(fmt, calls), order)
    ensures states[|states| - 1].out == Encoded(EventsOf(Made(OpsOf(fmt, calls), order)))
    ensures var out, readable := states[|states| - 1].out, ReadableEvents(fmt, CallsMade(fmt, calls, order));
            var s, k := StreamReader.Concat(out), Leading(readable);
            && |readable| == |out|
            && StreamReader.Frames(s) == out[..k] && StreamReader.Tail(s) == StreamReader.Concat(out[k..])
            && (StreamReader.Frames(s) == out <==> k == |out|)
            && Skip(Stream, StreamReader.Tail(s), 0) == Stopped(EventsOf(Made(OpsOf(fmt, calls), order))[k..])
            && (base + |s| <= MAX_INT ==> StreamReader.Steady(s, base))
  {
    hide Valid, ValidAll, GoodPairs, EventLike, Skip, Run, Schedule, Made, AnyCall, EventsOf, LabelsAfter;
    order := EventsOfRun(OpsOf(fmt, calls), states);
    SameCalls(fmt, calls, order);
    var cs := CallsMade(fmt, calls, order);
    var events := EventsOf(OpsOfAll(fmt, cs));
    var readable := ReadableEvents(fmt, cs);
    EventsReadable(fmt, cs);
    ClearIsLeading(events, readable);
    assert forall e <- events :: EventLike(e);
    FramesStop(events, base);
    var k := Leading(readable);
    ConcatEncoded(events);
    ConcatEncoded(events[k..]);
    assert Encoded(events[k..]) == Encoded(events)[k..] && Encoded(events[..k]) == Encoded(events)[..k];
  }

  /** The reader itself, at any moment of any run: given what was written by a source that does not fail, in whatever
      portions, it passes on exactly the events before the first unreadable one. All of them, without error, if all are
      readable; otherwise it ends with bad stream if there is a special unknown to it from there on. */
  method CopyTheRun(ghost fmt: Formatter, ghost calls: seq<seq<Call>>, ghost states: seq<State>,
                    r: StreamReader.Reader, w: StreamReader.Sink, n: nat)
    returns (err: StreamReader.Err, ghost order: seq<nat>)
    requires AnyCalls(fmt, calls) && Run(OpsOf(fmt, calls), states)
    requires r.Valid() && r.Pending() == StreamReader.Concat(states[|states| - 1].out)
    requires StreamReader.Failures(r.src.plan) == 0 && w.budget >= |states[|states| - 1].out|
    requires r.i + |r.Pending()| <= MAX_INT && n >= Enough(r.Pending(), 0)
    modifies r, r.b, r.src, w
    ensures Schedule(OpsOf(fmt, calls), order)
    ensures var out, events := states[|states| - 1].out, EventsOf(Made(OpsOf(fmt, calls), order));
            var k := Leading(ReadableEvents(fmt, CallsMade(fmt, calls, order)));
            && out == Encoded(events) && k <= |out|
            && r.Valid() && w.writes == old(w.writes) + out[..k] && r.Pending() == StreamReader.Concat(out[k..])
            && err == if ForeignEvents(events[k..]) then StreamReader.BadStream else StreamReader.NoError
  {
    hide Skip, Run, Schedule, AnyCalls, EventsOf, Made, ReadableEvents, CallsMade, Leading, ForeignEvents,
      StreamReader.Steady, StreamReader.Frames, StreamReader.Tail, StreamReader.Concat, Enough;
    order := ReaderSeesTheRun(fmt, calls, states, r.i);
    err := StreamReader.CopyFrames(r, w, n);
  }

  /** A self-reference is one argument that a program can pass: from its event on, the reader finds a bad special. */
  lemma SelfRefStopsTheReader(fmt: Formatter, rest: bytes)
    requires GoodFormatter(fmt)
    ensures var c := LogEvent(NO_ID, [AText(Ascii("k")), AOther(KindPlain, Simple(SELF_REF))]);
            var e := Enc(Event(CallItems(fmt, c), []));
            && AnyCall(fmt, c) && !StreamCall(fmt, c) && e == [0xBF, 0x61, 0x6B, 0xEA, 0xFF]
            && Skip(Full, e + rest, 0) == End(5) && Skip(Stream, e + rest, 0) == BadSpecial
  {
    hide Skip, StreamCall, AnyCall, Valid, Enc;
    var v, k := Simple(SELF_REF), TextTree(Ascii("k"));
    var event := Event([k, v], []);
    SelfRefCall(fmt);
    assert event == Open(true, [k, v]);
    SmallEvent(k, v);
    ForeignIsBadFirst(event, rest);
  }

  lemma SelfRefCall(fmt: Formatter)
    requires GoodFormatter(fmt)
    ensures var c := LogEvent(NO_ID, [AText(Ascii("k")), AOther(KindPlain, Simple(SELF_REF))]);
            AnyCall(fmt, c) && !StreamCall(fmt, c) && CallItems(fmt, c) == [TextTree(Ascii("k")), Simple(SELF_REF)]
  {
    hide Items, TextTree;
    var v := Simple(SELF_REF);
    var kvs := [AText(Ascii("k")), AOther(KindPlain, v)];
    assert kvs[1..] == [AOther(KindPlain, v)] && kvs[1..][1..] == [] && kvs[0..] == kvs;
    ItemsStep(fmt, kvs, 0);
    NoItems(fmt, kvs[2..]);
    assert Items(fmt, kvs) == [TextTree(Ascii("k")), v];
    assert !StreamTrees(kvs[1..]);
    assert StreamTrees(kvs) == StreamTrees(kvs[1..]);
  }

  lemma SmallEvent(k: Value, v: Value)
    requires k == TextTree(Ascii("k")) && v == Simple(SELF_REF)
    ensures Enc(Open(true, [k, v])) == [0xBF, 0x61, 0x6B, 0xEA, 0xFF]
    ensures Valid(Full, Open(true, [k, v])) && !Valid(Stream, Open(true, [k, v]))
  {
    EncPair(k, v);
    assert Ascii("k") == [0x6B];
    assert Enc(k) == [0x61] + [0x6B];
    ValidPair(Full, k, v);
    ValidPair(Stream, k, v);
  }

  lemma ForeignIsBadFirst(e: Value, rest: bytes)
    requires Valid(Full, e) && !Valid(Stream, e)
    ensures Skip(Full, Enc(e) + rest, 0) == End(|Enc(e)|) && Skip(Stream, Enc(e) + rest, 0) == BadSpecial
  {
    hide Skip, Valid, Enc;
    var b := Enc(e) + rest;
    assert b[0..0 + |Enc(e)|] == Enc(e);
    SkipExact(Full, b, 0, e);
    ForeignIsBad(b, 0, e);
  }

  /** One argument that appends itself in a key's place: the reader takes the break for its value, and goes on
      asking for more however many events follow. */
  lemma OddKeySwallows(fmt: Formatter, next: seq<Value>)
    requires GoodFormatter(fmt) && forall e <- next :: EventLike(e) && Valid(Stream, e)
    ensures var c := LogEvent(NO_ID, [AOther(KindEvent, KindTree(SPAN_START))]);
            var e := Enc(Event(CallItems(fmt, c), []));
            && AnyCall(fmt, c) && !StreamCall(fmt, c) && e == [0xBF, 0xCD, 0x61, 0x73, 0xFF]
            && StreamReader.Frames(e + EncAll(next)) == [] && Skip(Stream, e + EncAll(next), 0) == UnexpectedEOF
  {
    hide Skip, EventLike, Valid, ValidAll, KindTree, StreamCall, AnyCall, Stopped, Clear, Enc;
    var v := KindTree(SPAN_START);
    OddCall(fmt);
    SmallValues(Full, NO_ID, SPAN_START);
    SmallValues(Stream, NO_ID, SPAN_START);
    KindBytes(v);
    var event := Event([v], []);
    var events := [event] + next;
    assert events[1..] == next;
    EncAllFront(events);
    assert forall e <- events :: EventLike(e);
    FramesStop(events, 0);
    AllReadable(next);
    assert events[0..] == events && events[..0] == [];
    NotForeign(event, next);
  }

  lemma OddCall(fmt: Formatter)
    requires GoodFormatter(fmt)
    ensures var c := LogEvent(NO_ID, [AOther(KindEvent, KindTree(SPAN_START))]);
            AnyCall(fmt, c) && !StreamCall(fmt, c) && CallItems(fmt, c) == [KindTree(SPAN_START)]
  {
    hide Items, Valid;
    var v := KindTree(SPAN_START);
    var kvs := [AOther(KindEvent, v)];
    assert kvs[1..] == [] && kvs[0..] == kvs;
    ItemsStep(fmt, kvs, 0);
    NoItems(fmt, kvs[1..]);
    SmallValues(Full, NO_ID, SPAN_START);
    assert SelfKeys(fmt, kvs) == 1 + SelfKeys(fmt, kvs[1..]);
  }

  lemma KindBytes(v: Value)
    requires v == KindTree(SPAN_START) && Valid(Full, v) && Valid(Stream, v)
    ensures Enc(Event([v], [])) == [0xBF, 0xCD, 0x61, 0x73, 0xFF]
    ensures EventLike(Event([v], [])) && !Valid(Stream, Event([v], [])) && ValidAll(Stream, [v] + [])
  {
    hide Valid;
    assert [v] + [] == [v] && [v][1..] == [];
    assert ValidAll(Full, [v][1..]) && ValidAll(Stream, [v][1..]);
    EncAllOne(v);
    assert Enc(v) == [0xCD] + ([0x61] + [0x73]);
    OpenMapIff([v]);
  }

  lemma {:induction false} AllReadable(next: seq<Value>)
    requires forall e <- next :: EventLike(e) && Valid(Stream, e)
    ensures !ForeignEvents(next)
  {
    if next != [] {
      OddEvent(next[0]);
      AllReadable(next[1..]);
    }
  }

  lemma NotForeign(event: Value, next: seq<Value>)
    requires EventLike(event) && ValidAll(Stream, event.items) && !Valid(Stream, event) && !ForeignEvents(next)
    ensures Clear([event] + next) == 0 && Stopped([event] + next) == UnexpectedEOF
  {
    assert ([event] + next)[1..] == next;
  }

  lemma {:induction false} CallsOfPrograms(progs: Programs, order: seq<nat>, op: Op)
    requires Schedule(progs, order) && op in Made(progs, order)
    ensures exists t, k :: 0 <= t < |progs| && 0 <= k < |progs[t]| && progs[t][k] == op
    decreases |order|
  {
    var t, init := order[|order| - 1], order[..|order| - 1];
    if op in Made(progs, init) {
      CallsOfPrograms(progs, init, op);
    } else {
      assert progs[t][Count(init, t)] == op;
    }
  }

  lemma {:induction false} EventsAreGood(g: Grammar, ops: seq<Op>)
    requires forall op | op in ops :: GoodOp(g, op)
    ensures AllEvents(g, ops) && ValidAll(g, EventsOf(ops)) && GoodPairs(g, LabelsAfter(ops))
    decreases |ops|
  {
    hide Valid, ValidAll, GoodPairs, IsEvent;
    if ops == [] {
      Empty(g);
      AllPairs(g, []);
    } else {
      var op, init := ops[|ops| - 1], ops[..|ops| - 1];
      assert op in ops;
      assert GoodOp(g, op);
      EventsAreGood(g, init);
      if op.Emit? {
        OneEvent(g, op.items, LabelsAfter(init));
        ValidAllConcat(g, EventsOf(init), [Event(op.items, LabelsAfter(init))]);
      } else {
        assert EventsOf(init) + [] == EventsOf(init) && LabelsOf(init) + [] == LabelsOf(init);
      }
    }
  }

  lemma OneEvent(g: Grammar, items: seq<Value>, labels: seq<Value>)
    requires GoodPairs(g, items) && GoodPairs(g, labels)
    ensures IsEvent(g, Event(items, labels), labels) && ValidAll(g, [Event(items, labels)])
  {
    GoodConcat(g, items, labels);
    PairsEven(items + labels);
    var e := Event(items, labels);
    assert Valid(g, e) && [e][1..] == [];
    assert ValidAll(g, [e][1..]);
  }

  lemma {:induction false} ConcatEncoded(vs: seq<Value>)
    ensures StreamReader.Concat(Encoded(vs)) == EncAll(vs)
  {
    if vs != [] {
      assert Encoded(vs)[1..] == Encoded(vs[1..]);
      ConcatEncoded(vs[1..]);
    }
  }
}
