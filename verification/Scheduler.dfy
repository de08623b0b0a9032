/** One worker group: a producer and its workers on a bounded channel, as a transition system. */
module Scheduler {
  import opened Prelude

  const CHANNEL_CAPACITY: nat := 10

  /** The batches the producer sends, each after a look at the shutdown flag: in normal mode all
      list names in one batch, again and again if `loop` is set; in range mode one batch a list.
      Only workers in normal mode look at the flag. */
  datatype Config = Config(batches: seq<seq<string>>, loop: bool, workersCheckFlag: bool, workers: nat)

  datatype Producer = Checking(batch: nat) | Sending(batch: nat, next: nat) | Sleeping | Finished

  datatype Worker = AtTop | Waiting | Working(task: string) | Gone

  /** The threads, the channel and the flag, with the history of the run: completed rescans, what
      was sent and who got it. */
  datatype State = State(
    producer: Producer,
    queue: seq<string>,
    workers: seq<Worker>,
    flag: bool,
    round: nat,
    sent: seq<string>,
    delivered: seq<(nat, string)>
  )

  datatype Action = Shutdown | ProducerStep | WorkerStep(w: nat) | WorkerFails(w: nat)

  function Init(c: Config): State {
    State(Checking(0), [], seq(c.workers, _ => AtTop), false, 0, [], [])
  }

  /** Some receiver is left; without one, sending is an error. */
  predicate Receiving(s: State) {
    exists w :: 0 <= w < |s.workers| && s.workers[w] != Gone
  }

  /** Sending blocks on a full channel as long as someone could still receive. */
  predicate ProducerEnabled(c: Config, s: State) {
    match s.producer
    case Checking(b) => true
    case Sending(b, i) =>
      b < |c.batches| && (i >= |c.batches[b]| || !Receiving(s) || |s.queue| < CHANNEL_CAPACITY)
    case Sleeping => true
    case Finished => false
  }

  /** Receiving blocks on an empty channel as long as the sender lives. */
  predicate WorkerEnabled(s: State, w: nat) {
    w < |s.workers| &&
    match s.workers[w]
    case AtTop => true
    case Waiting => s.queue != [] || s.producer == Finished
    case Working(_) => true
    case Gone => false
  }

  /** A worker can die of a task in either mode, by a panic; in normal mode it can also give up
      between two tasks. */
  predicate Enabled(c: Config, s: State, a: Action) {
    match a
    case Shutdown => !s.flag
    case ProducerStep => ProducerEnabled(c, s)
    case WorkerStep(w) => WorkerEnabled(s, w)
    case WorkerFails(w) =>
      w < |s.workers| && (s.workers[w].Working? || (s.workers[w] == AtTop && c.workersCheckFlag))
  }

  function AfterBatch(c: Config, b: nat): Producer {
    if b + 1 < |c.batches| then Checking(b + 1)
    else if c.loop then Sleeping
    else Finished
  }

  function ProducerNext(c: Config, s: State): State
    requires ProducerEnabled(c, s)
  {
    match s.producer
    case Checking(b) =>
      if s.flag || b >= |c.batches| then s.(producer := Finished) else s.(producer := Sending(b, 0))
    case Sending(b, i) =>
      if i >= |c.batches[b]| then s.(producer := AfterBatch(c, b))
      else if !Receiving(s) then s.(producer := Finished)
      else s.(producer := Sending(b, i + 1), queue := s.queue + [c.batches[b][i]], sent := s.sent + [c.batches[b][i]])
    case Sleeping => s.(producer := Checking(0), round := s.round + 1)
  }

  function WorkerNext(c: Config, s: State, w: nat): State
    requires WorkerEnabled(s, w)
  {
    match s.workers[w]
    case AtTop =>
      s.(workers := s.workers[w := if s.flag && c.workersCheckFlag then Gone else Waiting])
    case Waiting =>
      if s.queue == [] then s.(workers := s.workers[w := Gone])
      else s.(workers := s.workers[w := Working(s.queue[0])], queue := s.queue[1..],
              delivered := s.delivered + [(w, s.queue[0])])
    case Working(_) => s.(workers := s.workers[w := AtTop])
  }

  function Next(c: Config, s: State, a: Action): State
    requires Enabled(c, s, a)
  {
    match a
    case Shutdown => s.(flag := true)
    case ProducerStep => ProducerNext(c, s)
    case WorkerStep(w) => WorkerNext(c, s, w)
    case WorkerFails(w) => s.(workers := s.workers[w := Gone])
  }

  /** Any interleaving: the state after the actions, if each is enabled where it happens. */
  function Exec(c: Config, actions: seq<Action>): Option<State> {
    if actions == [] then Some(Init(c))
    else
      match Exec(c, actions[..|actions| - 1])
      case None => None
      case Some(s) => if Enabled(c, s, Last(actions)) then Some(Next(c, s, Last(actions))) else None
  }

  predicate AllDone(s: State) {
    s.producer == Finished && forall w :: 0 <= w < |s.workers| ==> s.workers[w] == Gone
  }

  // ----- safety

  function Tasks(delivered: seq<(nat, string)>): (ts: seq<string>)
    ensures |ts| == |delivered|
  {
    seq(|delivered|, i requires 0 <= i < |delivered| => delivered[i].1)
  }

  /** `k` whole rounds of the stream. */
  function Rounds(all: seq<string>, k: nat): seq<string> {
    if k == 0 then [] else Rounds(all, k - 1) + all
  }

  /** The part of the current round that is already sent. */
  ghost predicate ProducerAt(c: Config, p: Producer, part: seq<string>) {
    match p
    case Checking(b) => b <= |c.batches| && part == Flatten(c.batches[..b])
    case Sending(b, i) => b < |c.batches| && i <= |c.batches[b]| && part == Flatten(c.batches[..b]) + c.batches[b][..i]
    case Sleeping => c.loop && part == Flatten(c.batches)
    case Finished => part <= Flatten(c.batches)
  }

  /** What was sent is whole rounds of the stream, none without looping, and a part of the next. */
  ghost predicate InOrder(c: Config, s: State) {
    && (s.round > 0 ==> c.loop)
    && var before := Rounds(Flatten(c.batches), s.round);
       before <= s.sent && ProducerAt(c, s.producer, s.sent[|before|..])
  }

  /** Nothing is lost, duplicated or overtaken between producer and workers, each task goes to one
      worker, and the channel keeps its bound. */
  ghost predicate Conserved(c: Config, s: State) {
    && |s.workers| == c.workers
    && s.sent == Tasks(s.delivered) + s.queue
    && |s.queue| <= CHANNEL_CAPACITY
    && (forall k :: 0 <= k < |s.delivered| ==> s.delivered[k].0 < c.workers)
  }

  lemma InitHolds(c: Config)
    ensures InOrder(c, Init(c)) && Conserved(c, Init(c))
  {
  }

  lemma ConservedStep(c: Config, s: State, a: Action)
    requires Conserved(c, s) && Enabled(c, s, a)
    ensures Conserved(c, Next(c, s, a))
  {
    if a.WorkerStep? && s.workers[a.w] == Waiting && s.queue != [] {
      var t := s.queue[0];
      assert Tasks(s.delivered + [(a.w, t)]) == Tasks(s.delivered) + [t];
      assert s.queue == [t] + s.queue[1..];
    }
  }

  lemma BatchPrefix(batches: seq<seq<string>>, b: nat, i: nat)
    requires b < |batches| && i <= |batches[b]|
    ensures Flatten(batches[..b]) + batches[b][..i] <= Flatten(batches)
    ensures Flatten(batches[..b + 1]) == Flatten(batches[..b]) + batches[b][..|batches[b]|]
    ensures i < |batches[b]| ==>
      Flatten(batches[..b]) + batches[b][..i + 1] == Flatten(batches[..b]) + batches[b][..i] + [batches[b][i]]
  {
    assert batches == batches[..b] + ([batches[b]] + batches[b + 1..]);
    FlattenConcat(batches[..b], [batches[b]] + batches[b + 1..]);
    FlattenConcat([batches[b]], batches[b + 1..]);
    FlattenOne(batches[b]);
    assert batches[b] == batches[b][..i] + batches[b][i..];
    assert batches[..b + 1] == batches[..b] + [batches[b]];
    FlattenPush(batches[..b], batches[b]);
    assert batches[b][..|batches[b]|] == batches[b];
    if i < |batches[b]| {
      assert batches[b][..i + 1] == batches[b][..i] + [batches[b][i]];
    }
  }

  lemma WholePrefix(batches: seq<seq<string>>)
    ensures Flatten(batches[..|batches|]) == Flatten(batches)
    ensures Flatten(batches[..0]) == []
  {
    assert batches[..|batches|] == batches;
  }

  lemma CheckingPrefix(batches: seq<seq<string>>, b: nat)
    requires b <= |batches|
    ensures Flatten(batches[..b]) <= Flatten(batches)
  {
    WholePrefix(batches);
    if b < |batches| {
      BatchPrefix(batches, b, 0);
      assert Flatten(batches[..b]) + batches[b][..0] == Flatten(batches[..b]);
    }
  }

  lemma ProducerStepKeepsOrder(c: Config, s: State)
    requires InOrder(c, s) && ProducerEnabled(c, s)
    ensures InOrder(c, ProducerNext(c, s))
  {
    hide Flatten;
    var before := Rounds(Flatten(c.batches), s.round);
    var part := s.sent[|before|..];
    WholePrefix(c.batches);
    match s.producer {
      case Checking(b) =>
        CheckingPrefix(c.batches, b);
        if b < |c.batches| {
          assert c.batches[b][..0] == [];
        }
      case Sending(b, i) =>
        BatchPrefix(c.batches, b, i);
        if i < |c.batches[b]| && Receiving(s) {
          var task := c.batches[b][i];
          assert (s.sent + [task])[|before|..] == part + [task];
        } else if i == |c.batches[b]| {
          CheckingPrefix(c.batches, b + 1);
        }
      case Sleeping =>
        assert s.sent == before + part == Rounds(Flatten(c.batches), s.round + 1);
        assert s.sent[|s.sent|..] == [];
    }
  }

  /** The safety invariant of every reachable state. */
  lemma {:induction false} Safety(c: Config, actions: seq<Action>)
    ensures var s := Exec(c, actions);
      s.Some? ==> InOrder(c, s.value) && Conserved(c, s.value) && |s.value.queue| <= 10
  {
    hide InOrder, Next, ProducerNext, WorkerNext, Init;
    if actions == [] {
      InitHolds(c);
    } else {
      Safety(c, actions[..|actions| - 1]);
      var before := Exec(c, actions[..|actions| - 1]);
      if before.Some? && Enabled(c, before.value, Last(actions)) {
        ConservedStep(c, before.value, Last(actions));
        OrderStep(c, before.value, Last(actions));
      }
    }
  }

  lemma OrderStep(c: Config, s: State, a: Action)
    requires InOrder(c, s) && Enabled(c, s, a)
    ensures InOrder(c, Next(c, s, a))
  {
    if a.ProducerStep? {
      ProducerStepKeepsOrder(c, s);
    }
  }

  // ----- progress

  /** The threads of the group. */
  predicate ThreadEnabled(c: Config, s: State) {
    ProducerEnabled(c, s) || exists w :: 0 <= w < |s.workers| && WorkerEnabled(s, w)
  }

  /** No deadlock: in every reachable state either all threads have finished or one can step. */
  lemma NoDeadlock(c: Config, actions: seq<Action>)
    requires Exec(c, actions).Some? && !AllDone(Exec(c, actions).value)
    ensures ThreadEnabled(c, Exec(c, actions).value)
  {
    hide Flatten, Exec;
    Safety(c, actions);
    var s := Exec(c, actions).value;
    if s.producer != Finished && !ProducerEnabled(c, s) {
      assert Receiving(s) && |s.queue| >= CHANNEL_CAPACITY;
      var w :| 0 <= w < |s.workers| && s.workers[w] != Gone;
      assert WorkerEnabled(s, w);
    } else if s.producer == Finished {
      var w :| 0 <= w < |s.workers| && s.workers[w] != Gone;
      assert WorkerEnabled(s, w);
    }
  }

  /** The producer waits if and only if ten tasks are queued, it has another one, and someone could
      still receive it. */
  lemma BlocksAtTen(c: Config, actions: seq<Action>)
    requires Exec(c, actions).Some? && Exec(c, actions).value.producer != Finished
    ensures var s := Exec(c, actions).value;
      !ProducerEnabled(c, s) <==>
        && |s.queue| == 10 && Receiving(s) && s.producer.Sending?
        && s.producer.batch < |c.batches| && s.producer.next < |c.batches[s.producer.batch]|
  {
    hide Exec, Flatten, Rounds, Receiving;
    Safety(c, actions);
  }

  /** Tasks of the batches from `b` on. */
  function Unsent(batches: seq<seq<string>>, b: nat): nat
    decreases |batches| - b
  {
    if b >= |batches| then 0 else |batches[b]| + Unsent(batches, b + 1)
  }

  /** What the producer can still do, once no further rescan can follow. */
  function ProducerRank(c: Config, p: Producer, flag: bool): nat {
    match p
    case Checking(b) => if flag then 1 else 4 * Unsent(c.batches, b) + 2 * SaturatingSub(|c.batches|, b) + 1
    case Sending(b, i) =>
      if b >= |c.batches| then 0
      else
        var here := 4 * SaturatingSub(|c.batches[b]|, i);
        if flag then here + 3 else here + 4 * Unsent(c.batches, b + 1) + 2 * (|c.batches| - b - 1) + 2
    case Sleeping => if flag then 2 else 0
    case Finished => 0
  }

  function WorkerRank(w: Worker): nat {
    match w
    case AtTop => 2
    case Waiting => 1
    case Working(_) => 3
    case Gone => 0
  }

  function Ranks(ws: seq<Worker>): nat {
    if ws == [] then 0 else WorkerRank(ws[0]) + Ranks(ws[1..])
  }

  function Measure(c: Config, s: State): nat {
    ProducerRank(c, s.producer, s.flag) + 3 * |s.queue| + Ranks(s.workers) + if s.flag then 0 else 2
  }

  lemma {:induction false} RanksUpdate(ws: seq<Worker>, k: nat, w: Worker)
    requires k < |ws|
    ensures Ranks(ws[k := w]) + WorkerRank(ws[k]) == Ranks(ws) + WorkerRank(w)
  {
    if k == 0 {
      assert ws[0 := w][1..] == ws[1..];
    } else {
      assert ws[k := w][1..] == ws[1..][k - 1 := w];
      RanksUpdate(ws[1..], k - 1, w);
    }
  }

  lemma ProducerDecreases(c: Config, s: State)
    requires ProducerEnabled(c, s) && (!c.loop || s.flag) && InOrder(c, s)
    ensures Measure(c, ProducerNext(c, s)) < Measure(c, s)
  {
    hide Flatten, Rounds, Ranks;
  }

  lemma WorkerDecreases(c: Config, s: State, w: nat)
    requires WorkerEnabled(s, w)
    ensures Measure(c, WorkerNext(c, s, w)) < Measure(c, s)
  {
    hide Flatten, Rounds, Ranks, ProducerRank;
    RanksUpdate(s.workers, w, WorkerNext(c, s, w).workers[w]);
  }

  /** Every step makes the measure smaller, unless a rescan may still follow. */
  lemma StepDecreases(c: Config, s: State, a: Action)
    requires Enabled(c, s, a) && (!c.loop || s.flag) && InOrder(c, s)
    ensures Measure(c, Next(c, s, a)) < Measure(c, s)
  {
    hide Flatten, Rounds, Ranks;
    match a {
      case Shutdown =>
      case ProducerStep => ProducerDecreases(c, s);
      case WorkerStep(w) => WorkerDecreases(c, s, w);
      case WorkerFails(w) => RanksUpdate(s.workers, w, Gone);
    }
  }

  /** Without looping no run has more steps than the measure of the start, whatever the schedule. */
  lemma {:induction false} EveryRunEnds(c: Config, actions: seq<Action>)
    requires !c.loop && Exec(c, actions).Some?
    ensures |actions| + Measure(c, Exec(c, actions).value) <= Measure(c, Init(c))
  {
    hide Measure, Next, Enabled, Init, InOrder;
    if actions != [] {
      var older := actions[..|actions| - 1];
      EveryRunEnds(c, older);
      Safety(c, older);
      StepDecreases(c, Exec(c, older).value, Last(actions));
    }
  }

  /** With looping, a raised flag bounds the rest of every run in the same way. */
  lemma {:induction false} RunsEndAfterShutdown(c: Config, before: seq<Action>, after: seq<Action>)
    requires Exec(c, before).Some? && Exec(c, before).value.flag && Exec(c, before + after).Some?
    ensures Exec(c, before + after).value.flag
    ensures |after| + Measure(c, Exec(c, before + after).value) <= Measure(c, Exec(c, before).value)
    decreases |after|
  {
    hide Measure, Init, InOrder;
    if after == [] {
      assert before + after == before;
    } else {
      var older := after[..|after| - 1];
      assert (before + after)[..|before + after| - 1] == before + older;
      RunsEndAfterShutdown(c, before, older);
      Safety(c, before + older);
      StepDecreases(c, Exec(c, before + older).value, Last(after));
    }
  }

  // ----- completeness

  /** The run saw no shutdown, and this worker never failed; others may have. */
  predicate Calm(actions: seq<Action>, survivor: nat) {
    forall k :: 0 <= k < |actions| ==> !actions[k].Shutdown? && actions[k] != WorkerFails(survivor)
  }

  /** The survivor leaves only once the channel is closed and empty, and it closes only when all is
      sent. */
  ghost predicate Undisturbed(c: Config, s: State, survivor: nat) {
    && !s.flag && s.round == 0 && survivor < |s.workers|
    && (s.producer == Finished ==> s.sent == Flatten(c.batches))
    && (s.workers[survivor] == Gone ==> s.producer == Finished && s.queue == [])
  }

  lemma UndisturbedStep(c: Config, s: State, a: Action, survivor: nat)
    requires !c.loop && InOrder(c, s) && Undisturbed(c, s, survivor)
    requires Enabled(c, s, a) && !a.Shutdown? && a != WorkerFails(survivor)
    ensures Undisturbed(c, Next(c, s, a), survivor)
  {
    hide Flatten;
    WholePrefix(c.batches);
    if a.ProducerStep? {
      assert s.workers[survivor] != Gone;
      if s.producer.Sending? {
        BatchPrefix(c.batches, s.producer.batch, s.producer.next);
      }
    }
  }

  lemma {:induction false} CalmRuns(c: Config, actions: seq<Action>, survivor: nat)
    requires !c.loop && survivor < c.workers && Calm(actions, survivor) && Exec(c, actions).Some?
    ensures Undisturbed(c, Exec(c, actions).value, survivor)
  {
    hide InOrder, Conserved, Next, Enabled;
    if actions != [] {
      var older := actions[..|actions| - 1];
      assert forall k :: 0 <= k < |older| ==> older[k] == actions[k];
      CalmRuns(c, older, survivor);
      Safety(c, older);
      UndisturbedStep(c, Exec(c, older).value, Last(actions), survivor);
    }
  }

  /** Delivery: when a run without shutdown has come to its end and some worker never failed, the
      workers together have received all that was to be sent, in order, each once. */
  lemma AllDelivered(c: Config, actions: seq<Action>, survivor: nat)
    requires !c.loop && survivor < c.workers && Calm(actions, survivor) && Exec(c, actions).Some?
    requires AllDone(Exec(c, actions).value)
    ensures Tasks(Exec(c, actions).value.delivered) == Flatten(c.batches)
  {
    hide Exec, Flatten, InOrder;
    Safety(c, actions);
    CalmRuns(c, actions, survivor);
    assert Exec(c, actions).value.workers[survivor] == Gone;
  }

  // ----- looping

  /** The producer of a looping group is at work, unless the flag is up or nobody receives. */
  ghost predicate KeepsLooping(c: Config, s: State) {
    !s.flag && Receiving(s) ==> s.producer != Finished && (s.producer.Checking? ==> s.producer.batch < |c.batches|)
  }

  lemma LoopingStep(c: Config, s: State, a: Action)
    requires c.loop && c.batches != [] && KeepsLooping(c, s) && Enabled(c, s, a)
    ensures KeepsLooping(c, Next(c, s, a))
  {
    var t := Next(c, s, a);
    if Receiving(t) {
      var w :| 0 <= w < |t.workers| && t.workers[w] != Gone;
      assert s.workers[w] != Gone;
    }
  }

  /** With looping, at least one batch, the flag down and some receiver left, the producer has not
      finished, in whatever state. */
  lemma {:induction false} LoopGoesOn(c: Config, actions: seq<Action>)
    requires c.loop && c.batches != [] && Exec(c, actions).Some?
    ensures KeepsLooping(c, Exec(c, actions).value)
    ensures var s := Exec(c, actions).value; !s.flag && Receiving(s) ==> s.producer != Finished
  {
    hide Next, Enabled;
    if actions == [] {
      LoopingStart(c);
    } else {
      LoopGoesOn(c, actions[..|actions| - 1]);
      LoopingStep(c, Exec(c, actions[..|actions| - 1]).value, Last(actions));
    }
  }

  lemma LoopingStart(c: Config)
    requires c.batches != []
    ensures KeepsLooping(c, Init(c))
  {
  }

  /** What is left of the round: steps of the producer, and of workers that make room for it. */
  function RoundLeft(c: Config, s: State): nat {
    ProducerRank(c, s.producer, false) + 3 * |s.queue| + Ranks(s.workers)
  }

  /** Somebody can move the round on without leaving. */
  lemma MoveOn(c: Config, s: State) returns (a: Action)
    requires c.loop && c.batches != [] && KeepsLooping(c, s) && InOrder(c, s) && Conserved(c, s)
    requires !s.flag && Receiving(s) && s.producer != Sleeping
    ensures Enabled(c, s, a) && !a.Shutdown?
    ensures var t := Next(c, s, a);
      !t.flag && Receiving(t) && t.round == s.round && RoundLeft(c, t) < RoundLeft(c, s)
  {
    hide Flatten, Rounds, Ranks;
    if ProducerEnabled(c, s) {
      a := ProducerStep;
      var w :| 0 <= w < |s.workers| && s.workers[w] != Gone;
      assert ProducerNext(c, s).workers[w] != Gone;
    } else {
      var w: nat :| w < |s.workers| && s.workers[w] != Gone;
      a := WorkerStep(w);
      var t := WorkerNext(c, s, w);
      RanksUpdate(s.workers, w, t.workers[w]);
      assert t.workers[w] != Gone;
    }
  }

  lemma ExecMore(c: Config, actions: seq<Action>, a: Action)
    requires Exec(c, actions).Some? && Enabled(c, Exec(c, actions).value, a)
    ensures Exec(c, actions + [a]) == Some(Next(c, Exec(c, actions).value, a))
  {
    assert (actions + [a])[..|actions|] == actions;
  }

  /** The round can be brought to its end, and the next one begun. */
  lemma {:induction false} NextRound(c: Config, actions: seq<Action>) returns (more: seq<Action>)
    requires c.loop && c.batches != [] && Exec(c, actions).Some?
    requires !Exec(c, actions).value.flag && Receiving(Exec(c, actions).value)
    ensures Exec(c, actions + more).Some?
    ensures var s, t := Exec(c, actions).value, Exec(c, actions + more).value;
      !t.flag && Receiving(t) && t.round == s.round + 1
    decreases RoundLeft(c, Exec(c, actions).value)
  {
    hide Exec, KeepsLooping, InOrder, Conserved, Receiving, RoundLeft, Enabled, Next;
    var s := Exec(c, actions).value;
    LoopGoesOn(c, actions);
    Safety(c, actions);
    if s.producer == Sleeping {
      WakeUp(c, s);
      ExecMore(c, actions, ProducerStep);
      more := [ProducerStep];
    } else {
      var a := MoveOn(c, s);
      ExecMore(c, actions, a);
      more := NextRound(c, actions + [a]);
      assert actions + [a] + more == actions + ([a] + more);
      more := [a] + more;
    }
  }

  lemma WakeUp(c: Config, s: State)
    requires s.producer == Sleeping && !s.flag && Receiving(s)
    ensures Enabled(c, s, ProducerStep)
    ensures var t := Next(c, s, ProducerStep); !t.flag && Receiving(t) && t.round == s.round + 1
  {
    var w :| 0 <= w < |s.workers| && s.workers[w] != Gone;
    assert Next(c, s, ProducerStep).workers[w] != Gone;
  }

  lemma {:induction false} RoundsGrow(all: seq<string>, k: nat, n: nat)
    requires k <= n
    ensures Rounds(all, k) <= Rounds(all, n)
  {
    if k < n {
      RoundsGrow(all, k, n - 1);
    }
  }

  /** Looping never comes to an end by itself: from every state reached with the flag down and some
      receiver left, and for every number of rounds, the group can go on until it has sent all names
      that often. */
  lemma {:induction false} RescansForever(c: Config, actions: seq<Action>, k: nat) returns (more: seq<Action>)
    requires c.loop && c.batches != [] && Exec(c, actions).Some?
    requires !Exec(c, actions).value.flag && Receiving(Exec(c, actions).value)
    ensures Exec(c, actions + more).Some?
    ensures var t := Exec(c, actions + more).value;
      !t.flag && Receiving(t) && t.round >= k && Rounds(Flatten(c.batches), k) <= t.sent
  {
    hide Exec, Receiving, Flatten, Conserved, Rounds, ProducerAt;
    if k == 0 {
      more := [];
      assert actions + more == actions;
    } else {
      more := RescansForever(c, actions, k - 1);
      if Exec(c, actions + more).value.round < k {
        var next := NextRound(c, actions + more);
        assert actions + more + next == actions + (more + next);
        more := more + next;
      }
    }
    Safety(c, actions + more);
    RoundsGrow(Flatten(c.batches), k, Exec(c, actions + more).value.round);
  }

  // ----- shutdown

  function CountWaiting(ws: seq<Worker>): nat {
    if ws == [] then 0 else (if ws[0] == Waiting then 1 else 0) + CountWaiting(ws[1..])
  }

  lemma {:induction false} CountWaitingUpdate(ws: seq<Worker>, k: nat, w: Worker)
    requires k < |ws|
    ensures CountWaiting(ws[k := w]) + (if ws[k] == Waiting then 1 else 0)
         == CountWaiting(ws) + if w == Waiting then 1 else 0
    ensures CountWaiting(ws) <= |ws|
  {
    CountWaitingMost(ws);
    if k == 0 {
      assert ws[0 := w][1..] == ws[1..];
    } else {
      assert ws[k := w][1..] == ws[1..][k - 1 := w];
      CountWaitingUpdate(ws[1..], k - 1, w);
    }
  }

  lemma {:induction false} CountWaitingMost(ws: seq<Worker>)
    ensures CountWaiting(ws) <= |ws|
  {
    if ws != [] {
      CountWaitingMost(ws[1..]);
    }
  }

  lemma ShutdownStep(c: Config, s: State, a: Action)
    requires c.workersCheckFlag && s.flag && Enabled(c, s, a)
    ensures var t := Next(c, s, a);
      t.flag && |t.delivered| + CountWaiting(t.workers) <= |s.delivered| + CountWaiting(s.workers)
  {
    hide CountWaiting;
    match a {
      case Shutdown =>
      case ProducerStep =>
      case WorkerStep(w) => CountWaitingUpdate(s.workers, w, WorkerNext(c, s, w).workers[w]);
      case WorkerFails(w) => CountWaitingUpdate(s.workers, w, Gone);
    }
  }

  /** In normal mode a raised flag is heeded: after it only workers that already wait for a task get
      one more, so no more tasks than workers. */
  lemma {:induction false} ShutdownIsHeeded(c: Config, before: seq<Action>, after: seq<Action>)
    requires c.workersCheckFlag && Exec(c, before).Some? && Exec(c, before).value.flag
    requires Exec(c, before + after).Some?
    ensures var s, t := Exec(c, before).value, Exec(c, before + after).value;
      && t.flag && |t.delivered| + CountWaiting(t.workers) <= |s.delivered| + CountWaiting(s.workers)
      && |t.delivered| <= |s.delivered| + c.workers
    decreases |after|
  {
    hide CountWaiting, Next, Enabled, InOrder;
    Safety(c, before);
    CountWaitingMost(Exec(c, before).value.workers);
    if after == [] {
      assert before + after == before;
    } else {
      var older := after[..|after| - 1];
      assert (before + after)[..|before + after| - 1] == before + older;
      ShutdownIsHeeded(c, before, older);
      ShutdownStep(c, Exec(c, before + older).value, Last(after));
    }
  }

  /** In range mode the workers drain the channel in any case: when a run has come to its end, with or
      without shutdown, and some worker never failed, all that was sent has been delivered. */
  ghost predicate Draining(s: State, survivor: nat) {
    survivor < |s.workers| && (s.workers[survivor] == Gone ==> s.producer == Finished && s.queue == [])
  }

  lemma DrainingStep(c: Config, s: State, a: Action, survivor: nat)
    requires !c.workersCheckFlag && Draining(s, survivor) && Enabled(c, s, a) && a != WorkerFails(survivor)
    ensures Draining(Next(c, s, a), survivor)
  {
  }

  lemma {:induction false} DrainsToTheEnd(c: Config, actions: seq<Action>, survivor: nat)
    requires !c.workersCheckFlag && survivor < c.workers && Exec(c, actions).Some?
    requires forall k :: 0 <= k < |actions| ==> actions[k] != WorkerFails(survivor)
    ensures Draining(Exec(c, actions).value, survivor)
    ensures AllDone(Exec(c, actions).value) ==>
      Tasks(Exec(c, actions).value.delivered) == Exec(c, actions).value.sent
  {
    hide InOrder, Next, Enabled;
    Safety(c, actions);
    if actions != [] {
      var older := actions[..|actions| - 1];
      assert forall k :: 0 <= k < |older| ==> older[k] == actions[k];
      DrainsToTheEnd(c, older, survivor);
      DrainingStep(c, Exec(c, older).value, Last(actions), survivor);
    }
  }

  // ----- normal mode

  /** Normal mode: all lists in one batch, over and over if `loop` is set. */
  function NormalConfig(lists: seq<string>, loop: bool, workers: nat): Config {
    Config([lists], loop, true, workers)
  }

  /** A single pass delivers every list once, in order; a looping group can go on to send them all any
      number of times. */
  lemma NormalModeDelivers(lists: seq<string>, workers: nat, actions: seq<Action>, survivor: nat)
    requires survivor < workers && Calm(actions, survivor)
    requires var c := NormalConfig(lists, false, workers); Exec(c, actions).Some? && AllDone(Exec(c, actions).value)
    ensures Tasks(Exec(NormalConfig(lists, false, workers), actions).value.delivered) == lists
  {
    hide Exec, Flatten;
    AllDelivered(NormalConfig(lists, false, workers), actions, survivor);
    FlattenOne(lists);
  }

  lemma NormalModeRescans(lists: seq<string>, workers: nat, actions: seq<Action>, k: nat) returns (more: seq<Action>)
    requires var c := NormalConfig(lists, true, workers);
      Exec(c, actions).Some? && !Exec(c, actions).value.flag && Receiving(Exec(c, actions).value)
    ensures var c := NormalConfig(lists, true, workers);
      Exec(c, actions + more).Some? && Rounds(lists, k) <= Exec(c, actions + more).value.sent
  {
    hide Exec, Flatten, Receiving, Rounds;
    more := RescansForever(NormalConfig(lists, true, workers), actions, k);
    FlattenOne(lists);
  }
}
