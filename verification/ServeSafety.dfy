/** What holds in every interleaving of the serving host. */
module ServeSafety {
  import opened Bytes
  import opened Shutdown
  import opened Metrics
  import opened Serve

  // ---------- counting tasks ----------

  /** What is counted: tasks that have not closed their connection, or tasks that have recorded an error. */
  datatype Kind = Unclosed | Errored

  function Weight(kind: Kind, t: Task): (w: nat)
    ensures w <= 1
  {
    match kind
    case Unclosed => if t.at == Closed then 0 else 1
    case Errored => if t.errored then 1 else 0
  }

  function Tally(tasks: seq<Task>, kind: Kind): nat {
    if tasks == [] then 0 else Tally(tasks[..|tasks| - 1], kind) + Weight(kind, tasks[|tasks| - 1])
  }

  lemma {:induction false} TallyUpdate(tasks: seq<Task>, i: nat, t: Task, kind: Kind)
    requires i < |tasks|
    ensures Tally(tasks[i := t], kind) + Weight(kind, tasks[i]) == Tally(tasks, kind) + Weight(kind, t)
  {
    var n := |tasks| - 1;
    if i < n {
      TallyUpdate(tasks[..n], i, t, kind);
      assert tasks[i := t][..n] == tasks[..n][i := t];
    } else {
      assert tasks[i := t][..n] == tasks[..n];
    }
  }

  lemma TallyAppend(tasks: seq<Task>, t: Task, kind: Kind)
    ensures Tally(tasks + [t], kind) == Tally(tasks, kind) + Weight(kind, t)
  {
    assert (tasks + [t])[..|tasks|] == tasks;
  }

  lemma {:induction false} TallyBound(tasks: seq<Task>, kind: Kind)
    ensures Tally(tasks, kind) <= |tasks|
  {
    if tasks == [] {
    } else {
      TallyBound(tasks[..|tasks| - 1], kind);
    }
  }

  lemma {:induction false} TallyPart(tasks: seq<Task>, i: nat, kind: Kind)
    requires i < |tasks|
    ensures Weight(kind, tasks[i]) <= Tally(tasks, kind)
  {
    if i < |tasks| - 1 {
      TallyPart(tasks[..|tasks| - 1], i, kind);
    }
  }

  /** Tasks whose connection is not counted as closed yet. */
  function OpenTasks(s: Host): nat {
    Tally(s.tasks, Unclosed)
  }

  function ErroredTasks(s: Host): nat {
    Tally(s.tasks, Errored)
  }

  /** A connection counted as active whose task does not exist yet, and the same for the total. */
  function OnItsWay(l: LoopAt): nat {
    if l.Opening? || l.Opened? || l.Spawning? then 1 else 0
  }

  function Totalled(l: LoopAt): nat {
    if l.Opened? || l.Spawning? then 1 else 0
  }

  // ---------- the invariant ----------

  /** The counters are the tallies, and the loads of the final snapshot are bounded by them. */
  predicate Counted(s: Host) {
    && s.counters.active == OpenTasks(s) + OnItsWay(s.loop)
    && s.counters.total == |s.tasks| + Totalled(s.loop)
    && s.counters.errors == ErroredTasks(s)
    && (forall i :: 0 <= i < |s.tasks| && s.tasks[i].errored ==> s.tasks[i].at == Closing || s.tasks[i].at == Closed)
    && match s.loop
       case LoadedActive(active) => OpenTasks(s) <= active <= |s.tasks|
       case LoadedTotal(active, total) => OpenTasks(s) <= active <= |s.tasks| && total == |s.tasks|
       case Finished(snap) => OpenTasks(s) <= snap.active <= snap.total == |s.tasks| && snap.errors <= ErroredTasks(s)
       case _ => true
  }

  /** The select loop is over. */
  predicate Left(l: LoopAt) {
    l.Broken? || l.LoadedActive? || l.LoadedTotal? || l.Finished? || l.Failed?
  }

  /** The channel stays open with a listener, and no waiter has slept through a shutdown. */
  predicate Listening(s: Host) {
    && s.channel.controllers == (if s.armed then 2 else 1)
    && s.channel.receivers == 1 + (if s.loop == Starting then 0 else 1) + (if s.loop.Spawning? then 1 else 0)
                              + OpenTasks(s)
    && (if s.loop == Starting then s.signal.phase == Checking else Alert(s.channel, s.signal))
    && (s.signal.phase == Returned ==> Left(s.loop))
    && (s.loop.Accepted? || s.loop.Opening? || s.loop.Opened? || s.loop.Spawning? ==> s.signal.phase == Checking)
    && (s.loop.Spawning? ==> s.loop.seen <= s.channel.version)
    && (forall i :: 0 <= i < |s.tasks| && s.tasks[i].at.Serving? ==>
          Alert(s.channel, s.tasks[i].at.waiter) && s.tasks[i].at.waiter.phase != Returned)
    && (Left(s.loop) ==> s.channel.value || s.loop.Failed?)
  }

  /** The 64-bit counters cannot have wrapped. */
  predicate Countable(s: Host) {
    |s.tasks| + 1 < U64_SPAN
  }

  /** No wrap on the way up below the limit, none on the way down above zero. */
  lemma CountsExactly(n: u64)
    ensures n + 1 < U64_SPAN ==> Wrap64(n + 1) == n + 1
    ensures n > 0 ==> Wrap64(n + U64_SPAN - 1) == n - 1
  {
  }

  function Spawned(s: Host): Task
    requires s.loop.Spawning?
  {
    Task(Serving(Waiter(s.loop.seen, Checking)), false)
  }

  /** The step that adds a task and nothing else. */
  lemma SpawnStep(s: Host, choice: LoopChoice)
    requires s.loop.Spawning?
    ensures LoopNext(s, choice) == s.(loop := Selecting, tasks := s.tasks + [Spawned(s)])
  {
  }

  lemma SpawnTally(s: Host, r: Host)
    requires s.loop.Spawning? && r.tasks == s.tasks + [Spawned(s)]
    ensures OpenTasks(r) == OpenTasks(s) + 1 && ErroredTasks(r) == ErroredTasks(s)
  {
    TallyAppend(s.tasks, Spawned(s), Unclosed);
    TallyAppend(s.tasks, Spawned(s), Errored);
    hide Tally;
  }

  lemma CountedSpawn(s: Host, choice: LoopChoice)
    requires Counted(s) && s.loop.Spawning?
    ensures Counted(LoopNext(s, choice))
  {
    hide LoopNext, OpenTasks, ErroredTasks;
    SpawnStep(s, choice);
    SpawnTally(s, LoopNext(s, choice));
  }

  lemma CountedLoop(s: Host, choice: LoopChoice)
    requires Counted(s) && Countable(LoopNext(s, choice))
    ensures Counted(LoopNext(s, choice))
  {
    if s.loop.Spawning? {
      CountedSpawn(s, choice);
    } else {
      TallyBound(s.tasks, Unclosed);
      TallyBound(s.tasks, Errored);
      CountsExactly(s.counters.active);
      CountsExactly(s.counters.total);
      hide Tally, Wrap64;
    }
  }

  /** What a step of one task does to the tallies. */
  lemma TaskTallies(s: Host, i: nat, choice: TaskChoice)
    requires i < |s.tasks|
    ensures var t, r := TaskNext(s.tasks[i], choice, s.channel), Next(s, TaskStep(i, choice));
            && OpenTasks(r) == OpenTasks(s) - Weight(Unclosed, s.tasks[i]) + Weight(Unclosed, t)
            && ErroredTasks(r) == ErroredTasks(s) - Weight(Errored, s.tasks[i]) + Weight(Errored, t)
            && Weight(Unclosed, s.tasks[i]) <= OpenTasks(s) <= |s.tasks|
            && ErroredTasks(r) <= |s.tasks|
  {
    hide Tally, TaskNext, Weight;
    var t, r := TaskNext(s.tasks[i], choice, s.channel), Next(s, TaskStep(i, choice));
    TallyUpdate(s.tasks, i, t, Unclosed);
    TallyUpdate(s.tasks, i, t, Errored);
    TallyPart(s.tasks, i, Unclosed);
    TallyBound(s.tasks, Unclosed);
    TallyBound(r.tasks, Errored);
  }

  lemma CountedTask(s: Host, i: nat, choice: TaskChoice)
    requires Counted(s) && Countable(s) && i < |s.tasks|
    ensures Counted(Next(s, TaskStep(i, choice)))
    ensures s.tasks[i].at == Closing ==> s.counters.active > 0
  {
    hide OpenTasks, ErroredTasks, Wrap64;
    var r := Next(s, TaskStep(i, choice));
    TaskTallies(s, i, choice);
    CountsExactly(s.counters.active);
    CountsExactly(s.counters.errors);
    assert OpenTasks(r) <= OpenTasks(s) && ErroredTasks(s) <= ErroredTasks(r);
  }

  lemma HeardSpawn(s: Host, choice: LoopChoice)
    requires Listening(s) && s.loop.Spawning?
    ensures Listening(LoopNext(s, choice))
  {
    hide LoopNext, OpenTasks, ErroredTasks;
    SpawnStep(s, choice);
    SpawnTally(s, LoopNext(s, choice));
  }

  lemma HeardLoop(s: Host, choice: LoopChoice)
    requires Listening(s)
    ensures Listening(LoopNext(s, choice))
  {
    if s.loop.Spawning? {
      HeardSpawn(s, choice);
    } else {
      hide Tally;
      assert LoopNext(s, choice).tasks == s.tasks;
    }
  }

  lemma HeardTask(s: Host, i: nat, choice: TaskChoice)
    requires Listening(s) && i < |s.tasks|
    ensures Listening(Next(s, TaskStep(i, choice)))
  {
    var t := TaskNext(s.tasks[i], choice, s.channel);
    TallyUpdate(s.tasks, i, t, Unclosed);
    TallyPart(s.tasks, i, Unclosed);
  }

  lemma HeardCtrlC(s: Host, a: Action)
    requires Listening(s) && (a == CtrlC || a == CtrlCError)
    ensures Listening(Next(s, a))
    ensures a == CtrlC && s.armed ==> Next(s, a).channel.value
  {
    var r := Next(s, a);
    assert r.tasks == s.tasks;
  }

  // ---------- every interleaving ----------

  lemma HeardStep(s: Host, a: Action)
    requires Listening(s)
    ensures Listening(Next(s, a))
    ensures s.channel.value ==> Next(s, a).channel.value
  {
    match a
    case LoopStep(choice) => HeardLoop(s, choice);
    case TaskStep(i, choice) =>
      if i < |s.tasks| {
        HeardTask(s, i, choice);
      }
    case CtrlC => HeardCtrlC(s, a);
    case CtrlCError => HeardCtrlC(s, a);
  }

  lemma CountedStep(s: Host, a: Action)
    requires Counted(s) && Countable(Next(s, a))
    ensures Counted(Next(s, a))
  {
    match a
    case LoopStep(choice) => CountedLoop(s, choice);
    case TaskStep(i, choice) =>
      if i < |s.tasks| {
        CountedTask(s, i, choice);
      }
    case CtrlC =>
    case CtrlCError =>
  }

  lemma {:induction false} AlwaysHeard(schedule: seq<Action>)
    ensures Listening(Reached(schedule))
  {
    if schedule == [] {
      assert START.tasks == [];
    } else {
      hide Listening, Next;
      var n := |schedule| - 1;
      AlwaysHeard(schedule[..n]);
      HeardStep(Reached(schedule[..n]), schedule[n]);
    }
  }

  lemma {:induction false} AlwaysCounted(schedule: seq<Action>)
    requires Countable(Reached(schedule))
    ensures Counted(Reached(schedule))
  {
    if schedule == [] {
    } else {
      hide Counted;
      var n := |schedule| - 1;
      AlwaysCounted(schedule[..n]);
      CountedStep(Reached(schedule[..n]), schedule[n]);
    }
  }

  /**
   * Main result, counters: in every interleaving the active counter is the number of connections whose task has not
   * closed them, never exceeds the total except by one while a connection is being opened, and errors never exceed
   * the total; closing never underflows; and the final snapshot is consistent although its loads are separate.
   */
  lemma CountersConsistent(schedule: seq<Action>)
    requires Countable(Reached(schedule))
    ensures var s := Reached(schedule);
            && s.counters.active == OpenTasks(s) + OnItsWay(s.loop)
            && s.counters.active <= s.counters.total + (if s.loop.Opening? then 1 else 0)
            && s.counters.errors == ErroredTasks(s) <= s.counters.total
            && (forall i :: 0 <= i < |s.tasks| && s.tasks[i].at == Closing ==> s.counters.active > 0)
            && (s.loop.Finished? ==>
                  var snap := s.loop.snapshot;
                  snap.active <= snap.total == |s.tasks| && snap.errors <= snap.total)
  {
    AlwaysCounted(schedule);
    var s := Reached(schedule);
    TallyBound(s.tasks, Unclosed);
    TallyBound(s.tasks, Errored);
    forall i | 0 <= i < |s.tasks| && s.tasks[i].at == Closing ensures s.counters.active > 0 {
      TallyPart(s.tasks, i, Unclosed);
    }
  }

  /** How far the loads of the final snapshot have got. */
  function LoadsDone(l: LoopAt): nat {
    match l
    case LoadedActive(_) => 1
    case LoadedTotal(_, _) => 2
    case Finished(_) => 3
    case _ => 0
  }

  /** The loads so far are the counters of earlier states of this run, in order, all after the loop was left. */
  predicate LoadedFrom(schedule: seq<Action>, i: nat, j: nat, k: nat) {
    && i <= j <= k <= |schedule|
    && match Reached(schedule).loop
       case LoadedActive(active) =>
         Reached(schedule[..i]).loop == Broken && active == Reached(schedule[..i]).counters.active
       case LoadedTotal(active, total) =>
         && Reached(schedule[..i]).loop == Broken && active == Reached(schedule[..i]).counters.active
         && Reached(schedule[..j]).loop.LoadedActive? && total == Reached(schedule[..j]).counters.total
       case Finished(snap) =>
         && Reached(schedule[..i]).loop == Broken && snap.active == Reached(schedule[..i]).counters.active
         && Reached(schedule[..j]).loop.LoadedActive? && snap.total == Reached(schedule[..j]).counters.total
         && Reached(schedule[..k]).loop.LoadedTotal? && snap.errors == Reached(schedule[..k]).counters.errors
       case _ => true
  }

  /** Main result, snapshot: each number of the final snapshot was true at the moment it was loaded, in this order. */
  lemma {:induction false} SnapshotLoads(schedule: seq<Action>) returns (i: nat, j: nat, k: nat)
    ensures LoadedFrom(schedule, i, j, k)
  {
    i, j, k := 0, 0, 0;
    if schedule == [] {
    } else {
      var n := |schedule| - 1;
      var front := schedule[..n];
      var s, a := Reached(front), schedule[n];
      i, j, k := SnapshotLoads(front);
      assert schedule[..i] == front[..i] && schedule[..j] == front[..j] && schedule[..k] == front[..k];
      if LoadsDone(Reached(schedule).loop) != LoadsDone(s.loop) {
        match LoadsDone(s.loop)
        case 0 => i, j, k := n, n, n;
        case 1 => j, k := n, n;
        case _ => k := n;
      }
    }
  }

  /**
   * Main result, shutdown: Ctrl+C always takes effect, nobody stays blocked after it, and the loop is over only if
   * shutdown is visible or accepting a connection failed.
   */
  lemma ShutdownReachesEveryone(schedule: seq<Action>)
    ensures var s := Reached(schedule);
            && (s.armed ==> Next(s, CtrlC).channel.value)
            && (s.channel.value ==> !Blocked(s.channel, s.signal))
            && (s.channel.value ==>
                  forall i :: 0 <= i < |s.tasks| && s.tasks[i].at.Serving? ==>
                    !Blocked(s.channel, s.tasks[i].at.waiter))
            && (Left(s.loop) ==> s.channel.value || s.loop.Failed?)
  {
    AlwaysHeard(schedule);
    HeardCtrlC(Reached(schedule), CtrlC);
  }

  /** Step `k` was a failed accept of the selecting loop. */
  predicate AcceptFails(schedule: seq<Action>, k: nat) {
    k < |schedule| && schedule[k] == LoopStep(AcceptError) && Reached(schedule[..k]).loop == Selecting
  }

  /** The command has failed exactly when some accept failed while the loop was selecting. */
  lemma {:induction false} FailedIffAcceptFails(schedule: seq<Action>)
    ensures Reached(schedule).loop.Failed? <==> exists k: nat :: AcceptFails(schedule, k)
  {
    if schedule == [] {
    } else {
      var n := |schedule| - 1;
      var front := schedule[..n];
      FailedIffAcceptFails(front);
      forall k: nat | k < n ensures AcceptFails(schedule, k) <==> AcceptFails(front, k) {
        assert schedule[..k] == front[..k];
      }
      if Reached(front).loop.Failed? {
        var k: nat :| AcceptFails(front, k);
        assert AcceptFails(schedule, k);
      }
      assert AcceptFails(schedule, n) <==> schedule[n] == LoopStep(AcceptError) && Reached(front).loop == Selecting;
    }
  }

  // ---------- draining ----------

  /** Steps that a task still has to take once shutdown is visible, whatever its viewer does. */
  function Work(t: Task): nat {
    match t.at
    case Serving(w) => 2 + Rank(w)
    case Failing => 2
    case Closing => 1
    case Closed => 0
  }

  function StepsOf(schedule: seq<Action>, i: nat): nat {
    if schedule == [] then 0
    else
      var n := |schedule| - 1;
      StepsOf(schedule[..n], i) + if schedule[n].TaskStep? && schedule[n].task == i then 1 else 0
  }

  lemma OneStepWork(s: Host, a: Action, i: nat)
    requires Listening(s) && s.channel.value && i < |s.tasks|
    ensures var r := Next(s, a);
            && |s.tasks| <= |r.tasks|
            && (s.tasks[i].at == Closed ==> r.tasks[i].at == Closed)
            && (if a.TaskStep? && a.task == i && s.tasks[i].at != Closed then Work(r.tasks[i]) < Work(s.tasks[i])
                else r.tasks[i] == s.tasks[i])
  {
  }

  lemma {:induction false} WorkShrinks(s: Host, schedule: seq<Action>, i: nat)
    requires Listening(s) && s.channel.value && i < |s.tasks|
    ensures var r := Continue(s, schedule);
            && Listening(r) && r.channel.value && |s.tasks| <= |r.tasks|
            && (r.tasks[i].at == Closed || Work(r.tasks[i]) + StepsOf(schedule, i) <= Work(s.tasks[i]))
  {
    if schedule == [] {
    } else {
      var n := |schedule| - 1;
      WorkShrinks(s, schedule[..n], i);
      HeardStep(Continue(s, schedule[..n]), schedule[n]);
      OneStepWork(Continue(s, schedule[..n]), schedule[n], i);
      hide Listening, Next;
    }
  }

  /**
   * Main result, drain: from any reachable state in which shutdown is visible, a task that is scheduled four times has
   * closed its connection, whatever it was doing and however the rest is scheduled.
   */
  lemma DrainTask(before: seq<Action>, after: seq<Action>, i: nat)
    requires Reached(before).channel.value && i < |Reached(before).tasks| && StepsOf(after, i) >= 4
    ensures i < |Continue(Reached(before), after).tasks| && Continue(Reached(before), after).tasks[i].at == Closed
  {
    AlwaysHeard(before);
    WorkShrinks(Reached(before), after, i);
  }

  lemma {:induction false} TallyPositive(tasks: seq<Task>, kind: Kind)
    requires Tally(tasks, kind) > 0
    ensures exists i :: 0 <= i < |tasks| && Weight(kind, tasks[i]) > 0
  {
    var n := |tasks| - 1;
    if Weight(kind, tasks[n]) == 0 {
      TallyPositive(tasks[..n], kind);
      var i :| 0 <= i < n && Weight(kind, tasks[..n][i]) > 0;
      assert tasks[..n][i] == tasks[i];
    }
  }

  /** When every task has closed and no connection is being opened, the active counter is back at zero. */
  lemma DrainedIsZero(schedule: seq<Action>)
    requires Countable(Reached(schedule)) && OnItsWay(Reached(schedule).loop) == 0
    ensures Reached(schedule).counters.active == 0 <==>
            forall i :: 0 <= i < |Reached(schedule).tasks| ==> Reached(schedule).tasks[i].at == Closed
  {
    AlwaysCounted(schedule);
    var s := Reached(schedule);
    if OpenTasks(s) == 0 {
      forall i | 0 <= i < |s.tasks| ensures s.tasks[i].at == Closed {
        TallyPart(s.tasks, i, Unclosed);
      }
    } else {
      TallyPositive(s.tasks, Unclosed);
    }
  }

  // ---------- the end of the loop ----------

  /** No connection comes in and no accept fails. */
  predicate Quiet(schedule: seq<Action>) {
    forall k :: 0 <= k < |schedule| && schedule[k].LoopStep? ==> schedule[k].pick == PollSignal
  }

  function LoopSteps(schedule: seq<Action>): nat {
    if schedule == [] then 0
    else LoopSteps(schedule[..|schedule| - 1]) + if schedule[|schedule| - 1].LoopStep? then 1 else 0
  }

  /** Steps that the loop still has to take once shutdown is visible and all is quiet. */
  function LoopWork(s: Host): nat {
    match s.loop
    case Starting => 5
    case Selecting => 3 + Rank(s.signal)
    case Accepted => 8
    case Opening => 7
    case Opened => 6
    case Spawning(_) => 5
    case Broken => 3
    case LoadedActive(_) => 2
    case LoadedTotal(_, _) => 1
    case Finished(_) => 0
    case Failed => 0
  }

  lemma OneStepLoopWork(s: Host, a: Action)
    requires Listening(s) && s.channel.value && (a.LoopStep? ==> a.pick == PollSignal)
    ensures var r := Next(s, a);
            && (r.loop.Failed? <==> s.loop.Failed?)
            && (if a.LoopStep? && LoopWork(s) > 0 then LoopWork(r) < LoopWork(s) else LoopWork(r) == LoopWork(s))
  {
  }

  lemma {:induction false} LoopWorkShrinks(s: Host, schedule: seq<Action>)
    requires Listening(s) && s.channel.value && Quiet(schedule)
    ensures var r := Continue(s, schedule);
            && Listening(r) && r.channel.value && (r.loop.Failed? <==> s.loop.Failed?)
            && (LoopWork(r) == 0 || LoopWork(r) + LoopSteps(schedule) <= LoopWork(s))
  {
    if schedule == [] {
    } else {
      var n := |schedule| - 1;
      LoopWorkShrinks(s, schedule[..n]);
      HeardStep(Continue(s, schedule[..n]), schedule[n]);
      OneStepLoopWork(Continue(s, schedule[..n]), schedule[n]);
      hide Listening, Next, LoopWork;
    }
  }

  /**
   * Main result, the loop: once shutdown is visible and nothing more comes in, a selecting loop leaves its select
   * within two of its steps, and from anywhere the command reaches its final snapshot within eight of them, however
   * the viewers are scheduled in between.
   */
  lemma LoopBreaks(before: seq<Action>, after: seq<Action>)
    requires Reached(before).channel.value && Quiet(after)
    ensures var s, r := Reached(before), Continue(Reached(before), after);
            && (s.loop == Selecting && LoopSteps(after) >= 2 ==> Left(r.loop))
            && (!s.loop.Failed? && LoopSteps(after) >= 8 ==> r.loop.Finished?)
  {
    AlwaysHeard(before);
    LoopWorkShrinks(Reached(before), after);
    hide Listening, Continue, Next;
  }

  lemma {:induction false} ContinueSplit(s: Host, a: seq<Action>, b: seq<Action>)
    ensures Continue(Continue(s, a), b) == Continue(s, a + b)
  {
    if b == [] {
      assert a + b == a;
    } else {
      hide Next;
      ContinueSplit(s, a, b[..|b| - 1]);
      assert (a + b)[..|a + b| - 1] == a + b[..|b| - 1];
    }
  }

  lemma {:induction false} FinishedStays(s: Host, schedule: seq<Action>)
    requires s.loop.Finished?
    ensures var r := Continue(s, schedule); r.loop == s.loop && |r.tasks| == |s.tasks|
  {
    if schedule == [] {
    } else {
      FinishedStays(s, schedule[..|schedule| - 1]);
    }
  }

  /**
   * Main result, the whole host: once shutdown is visible and nothing more comes in, eight steps of the loop and then
   * four of every viewer leave the command finished, every connection closed and the active counter at zero.
   */
  lemma HostDrains(before: seq<Action>, closing: seq<Action>, draining: seq<Action>)
    requires Reached(before).channel.value && !Reached(before).loop.Failed?
    requires Quiet(closing) && LoopSteps(closing) >= 8
    requires forall i :: 0 <= i < |Reached(before + closing).tasks| ==> StepsOf(draining, i) >= 4
    requires Countable(Reached(before + closing))
    ensures var s := Reached(before + closing + draining);
            && s.loop.Finished?
            && (forall i :: 0 <= i < |s.tasks| ==> s.tasks[i].at == Closed)
            && s.counters.active == 0
  {
    hide Continue, Next, Listening;
    LoopBreaks(before, closing);
    ContinueSplit(START, before, closing);
    ContinueSplit(START, before + closing, draining);
    var m, s := Reached(before + closing), Reached(before + closing + draining);
    FinishedStays(m, draining);
    AlwaysHeard(before);
    LoopWorkShrinks(Reached(before), closing);
    forall i | 0 <= i < |s.tasks| ensures s.tasks[i].at == Closed {
      DrainTask(before + closing, draining, i);
    }
    DrainedIsZero(before + closing + draining);
  }
}
