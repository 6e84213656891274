/** What the serving host has counted and what became of each viewer, read off the schedule alone. */
module ServeHistory {
  import opened Bytes
  import opened Shutdown
  import opened Metrics
  import opened Serve
  import opened ServeSafety

  /** What an action does when it is taken in a state. */
  datatype Happening = ViewerFails | ConnectionComes | ConnectionCloses

  /** The action is the end, by this choice, of the session of viewer `i`, which is being served. */
  predicate Ends(s: Host, a: Action, i: nat, choice: TaskChoice) {
    a == TaskStep(i, choice) && i < |s.tasks| && s.tasks[i].at.Serving?
  }

  predicate Happens(what: Happening, s: Host, a: Action) {
    match what
    case ViewerFails => a.TaskStep? && Ends(s, a, a.task, ViewerError)
    case ConnectionComes => a == LoopStep(Incoming) && s.loop == Selecting
    case ConnectionCloses => a.TaskStep? && a.task < |s.tasks| && s.tasks[a.task].at == Closing
  }

  /** The number of steps of a schedule at which this happens. */
  function Times(what: Happening, schedule: seq<Action>): nat {
    if schedule == [] then 0
    else
      var n := |schedule| - 1;
      Times(what, schedule[..n]) + if Happens(what, Reached(schedule[..n]), schedule[n]) then 1 else 0
  }

  // ---------- totals ----------

  /** Viewers whose error is about to be recorded. */
  function FailingTasks(tasks: seq<Task>): nat {
    if tasks == [] then 0
    else FailingTasks(tasks[..|tasks| - 1]) + if tasks[|tasks| - 1].at == Failing then 1 else 0
  }

  lemma {:induction false} FailingUpdate(tasks: seq<Task>, i: nat, t: Task)
    requires i < |tasks|
    ensures FailingTasks(tasks[i := t]) + (if tasks[i].at == Failing then 1 else 0) ==
            FailingTasks(tasks) + (if t.at == Failing then 1 else 0)
  {
    var n := |tasks| - 1;
    if i < n {
      FailingUpdate(tasks[..n], i, t);
      assert tasks[i := t][..n] == tasks[..n][i := t];
    } else {
      assert tasks[i := t][..n] == tasks[..n];
    }
  }

  lemma FailingAppend(tasks: seq<Task>, t: Task)
    ensures FailingTasks(tasks + [t]) == FailingTasks(tasks) + if t.at == Failing then 1 else 0
  {
    assert (tasks + [t])[..|tasks|] == tasks;
  }

  /** A connection that came in and has no task yet. */
  function Arriving(l: LoopAt): nat {
    if l.Accepted? || l.Opening? || l.Opened? || l.Spawning? then 1 else 0
  }

  /** Errors are recorded only on the way out. */
  predicate ErrorsRecorded(s: Host) {
    forall i :: 0 <= i < |s.tasks| && s.tasks[i].errored ==> s.tasks[i].at == Closing || s.tasks[i].at == Closed
  }

  predicate Balanced(s: Host, fails: nat, comes: nat, closes: nat) {
    && ErrorsRecorded(s)
    && ErroredTasks(s) + FailingTasks(s.tasks) == fails
    && |s.tasks| + Arriving(s.loop) == comes
    && OpenTasks(s) + closes == |s.tasks|
  }

  lemma SpawnBalance(s: Host, choice: LoopChoice, fails: nat, comes: nat, closes: nat)
    requires Balanced(s, fails, comes, closes) && s.loop.Spawning?
    ensures Balanced(LoopNext(s, choice), fails, comes, closes)
  {
    hide LoopNext, OpenTasks, ErroredTasks;
    SpawnStep(s, choice);
    SpawnTally(s, LoopNext(s, choice));
    FailingAppend(s.tasks, Spawned(s));
  }

  lemma LoopBalance(s: Host, choice: LoopChoice, fails: nat, comes: nat, closes: nat)
    requires Balanced(s, fails, comes, closes)
    ensures var come := if Happens(ConnectionComes, s, LoopStep(choice)) then 1 else 0;
            Balanced(LoopNext(s, choice), fails, comes + come, closes)
  {
    if s.loop.Spawning? {
      SpawnBalance(s, choice, fails, comes, closes);
    } else {
      hide Tally;
      assert LoopNext(s, choice).tasks == s.tasks;
    }
  }

  lemma TaskBalance(s: Host, i: nat, choice: TaskChoice, fails: nat, comes: nat, closes: nat)
    requires Balanced(s, fails, comes, closes) && i < |s.tasks|
    ensures var fail := if Happens(ViewerFails, s, TaskStep(i, choice)) then 1 else 0;
            var close := if Happens(ConnectionCloses, s, TaskStep(i, choice)) then 1 else 0;
            Balanced(Next(s, TaskStep(i, choice)), fails + fail, comes, closes + close)
  {
    hide OpenTasks, ErroredTasks, WaitStep;
    TaskTallies(s, i, choice);
    FailingUpdate(s.tasks, i, TaskNext(s.tasks[i], choice, s.channel));
    hide FailingTasks;
  }

  lemma StepBalance(s: Host, a: Action, fails: nat, comes: nat, closes: nat)
    requires Balanced(s, fails, comes, closes)
    ensures Balanced(Next(s, a), fails + (if Happens(ViewerFails, s, a) then 1 else 0),
                     comes + (if Happens(ConnectionComes, s, a) then 1 else 0),
                     closes + (if Happens(ConnectionCloses, s, a) then 1 else 0))
  {
    match a
    case LoopStep(choice) => LoopBalance(s, choice, fails, comes, closes);
    case TaskStep(i, choice) =>
      if i < |s.tasks| {
        TaskBalance(s, i, choice, fails, comes, closes);
      }
    case CtrlC =>
    case CtrlCError =>
  }

  lemma {:induction false} AlwaysBalanced(schedule: seq<Action>)
    ensures Balanced(Reached(schedule), Times(ViewerFails, schedule), Times(ConnectionComes, schedule),
                     Times(ConnectionCloses, schedule))
  {
    if schedule == [] {
    } else {
      hide Balanced, Next, Happens;
      var n := |schedule| - 1;
      var front := schedule[..n];
      AlwaysBalanced(front);
      StepBalance(Reached(front), schedule[n], Times(ViewerFails, front), Times(ConnectionComes, front),
                  Times(ConnectionCloses, front));
    }
  }

  /**
   * Main result, every counter against the schedule: the errors are the sessions that ended in an error while being
   * served, up to those not recorded yet; the total and the viewers are the connections that came in while the loop
   * was selecting, up to the one being opened; and `active` is those less the connections closed.
   */
  lemma CountersFollowSchedule(schedule: seq<Action>)
    requires Countable(Reached(schedule))
    ensures var s, comes := Reached(schedule), Times(ConnectionComes, schedule);
            && s.counters.errors + FailingTasks(s.tasks) == Times(ViewerFails, schedule)
            && s.counters.total + (if s.loop.Accepted? || s.loop.Opening? then 1 else 0) == comes
            && |s.tasks| + Arriving(s.loop) == comes
            && s.counters.active + (if s.loop.Accepted? then 1 else 0) + Times(ConnectionCloses, schedule) == comes
  {
    AlwaysBalanced(schedule);
    AlwaysCounted(schedule);
    hide OpenTasks, ErroredTasks, FailingTasks, Times, Continue;
  }

  // ---------- one viewer ----------

  /** Step `k` ended the session of viewer `i` by this choice. */
  predicate Ended(schedule: seq<Action>, k: nat, i: nat, choice: TaskChoice) {
    k < |schedule| && Ends(Reached(schedule[..k]), schedule[k], i, choice)
  }

  ghost predicate EverEnded(schedule: seq<Action>, i: nat, choice: TaskChoice) {
    exists k: nat :: Ended(schedule, k, i, choice)
  }

  lemma EndedNext(schedule: seq<Action>, i: nat, choice: TaskChoice)
    requires schedule != []
    ensures var n := |schedule| - 1;
            EverEnded(schedule, i, choice) <==>
            EverEnded(schedule[..n], i, choice) || Ends(Reached(schedule[..n]), schedule[n], i, choice)
  {
    hide Ends, Continue;
    var n := |schedule| - 1;
    var front := schedule[..n];
    forall k: nat | k < n ensures Ended(schedule, k, i, choice) <==> Ended(front, k, i, choice) {
      assert schedule[..k] == front[..k];
    }
    if EverEnded(front, i, choice) {
      var k: nat :| Ended(front, k, i, choice);
      assert Ended(schedule, k, i, choice);
    }
    assert Ended(schedule, n, i, choice) <==> Ends(Reached(front), schedule[n], i, choice);
  }

  /** What is known of a viewer whose session has ended in an error, or normally, at some time. */
  predicate Fate(s: Host, i: nat, failed: bool, done: bool) {
    if i < |s.tasks| then
      var t := s.tasks[i];
      && (failed <==> t.errored || t.at == Failing)
      && (t.errored ==> t.at == Closing || t.at == Closed)
      && (failed || done ==> !t.at.Serving?)
      && (!t.at.Serving? ==> failed || done || s.channel.value)
    else
      !failed && !done
  }

  lemma FateStep(s: Host, a: Action, i: nat, failed: bool, done: bool)
    requires Fate(s, i, failed, done) && Listening(s)
    ensures Fate(Next(s, a), i, failed || Ends(s, a, i, ViewerError), done || Ends(s, a, i, ViewerDone))
  {
  }

  lemma {:induction false} FateOf(schedule: seq<Action>, i: nat)
    ensures Fate(Reached(schedule), i, EverEnded(schedule, i, ViewerError), EverEnded(schedule, i, ViewerDone))
  {
    if schedule == [] {
    } else {
      hide Fate, Next, Ends, EverEnded, Listening;
      var n := |schedule| - 1;
      var front := schedule[..n];
      FateOf(front, i);
      AlwaysHeard(front);
      FateStep(Reached(front), schedule[n], i, EverEnded(front, i, ViewerError), EverEnded(front, i, ViewerDone));
      EndedNext(schedule, i, ViewerError);
      EndedNext(schedule, i, ViewerDone);
    }
  }

  /**
   * Main result, each viewer: it is recorded or about to be recorded as an error exactly when its session ended in an
   * error while it was served, it is served until its session ends or shutdown is visible, and not after its end.
   */
  lemma ViewerFate(schedule: seq<Action>, i: nat)
    requires i < |Reached(schedule).tasks|
    ensures var s, t := Reached(schedule), Reached(schedule).tasks[i];
            var failed, done := EverEnded(schedule, i, ViewerError), EverEnded(schedule, i, ViewerDone);
            && (t.errored || t.at == Failing <==> failed)
            && (failed || done ==> !t.at.Serving?)
            && (!t.at.Serving? ==> failed || done || s.channel.value)
  {
    FateOf(schedule, i);
    hide EverEnded, Continue;
  }

  // ---------- Ctrl+C ----------

  predicate IsInterrupt(a: Action) {
    a == CtrlC || a == CtrlCError
  }

  /** Step `k` is Ctrl+C, and nothing came of waiting for it before. */
  predicate FirstCtrlC(schedule: seq<Action>, k: nat) {
    && k < |schedule| && schedule[k] == CtrlC
    && forall j :: 0 <= j < k ==> !IsInterrupt(schedule[j])
  }

  lemma InterruptStep(s: Host, a: Action)
    requires Listening(s)
    ensures Next(s, a).armed <==> s.armed && !IsInterrupt(a)
    ensures Next(s, a).channel.value <==> s.channel.value || (s.armed && a == CtrlC)
  {
  }

  lemma {:induction false} ShutdownIffCtrlC(schedule: seq<Action>)
    ensures Reached(schedule).armed <==> forall j :: 0 <= j < |schedule| ==> !IsInterrupt(schedule[j])
    ensures Reached(schedule).channel.value <==> exists k: nat :: FirstCtrlC(schedule, k)
  {
    if schedule == [] {
    } else {
      var n := |schedule| - 1;
      var front := schedule[..n];
      ShutdownIffCtrlC(front);
      AlwaysHeard(front);
      assert schedule == front + [schedule[n]];
      forall k: nat | k < n ensures FirstCtrlC(schedule, k) <==> FirstCtrlC(front, k) {
        assert forall j :: 0 <= j < k ==> schedule[j] == front[j];
      }
      InterruptStep(Reached(front), schedule[n]);
      hide Next, Listening;
      assert FirstCtrlC(schedule, n) <==> schedule[n] == CtrlC && Reached(front).armed;
      if Reached(front).channel.value {
        var k: nat :| FirstCtrlC(front, k);
        assert FirstCtrlC(schedule, k);
      }
    }
  }
}
