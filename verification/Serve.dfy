/** The serving host: an accept loop, one task per viewer, and Ctrl+C, interleaved one atomic step at a time. */
module Serve {
  import opened Bytes
  import opened Shutdown
  import opened Metrics

  /** Where the accept loop is, down to single counter updates and loads. */
  datatype LoopAt =
    | Starting                                  // about to create its own signal
    | Selecting                                 // in the select over a connection and its signal
    | Accepted                                  // about to count the connection as active
    | Opening                                   // about to count it in the total
    | Opened                                    // about to create the viewer's signal
    | Spawning(seen: nat)                       // about to spawn the viewer's handler
    | Broken                                    // left the loop, about to load `active`
    | LoadedActive(active: u64)
    | LoadedTotal(active: u64, total: u64)
    | Finished(snapshot: Counters)              // the connection counters of the final snapshot
    | Failed                                    // `accept` failed and the command returned

  datatype TaskAt =
    | Serving(waiter: Waiter)                   // in the select over the viewer and the signal
    | Failing                                   // about to record the viewer's error
    | Closing                                   // about to count the connection as closed
    | Closed

  datatype Task = Task(at: TaskAt, errored: bool)

  datatype Host = Host(loop: LoopAt, signal: Waiter, tasks: seq<Task>, armed: bool, channel: Shutdown.Channel,
                       counters: Counters)

  datatype LoopChoice = PollSignal | Incoming | AcceptError

  datatype TaskChoice = PollTaskSignal | ViewerDone | ViewerError

  datatype Action = LoopStep(pick: LoopChoice) | TaskStep(task: nat, choice: TaskChoice) | CtrlC | CtrlCError

  /** Before the loop: the signal made with the channel stays alive, and a clone of the controller awaits Ctrl+C. */
  const START: Host :=
    Host(Starting, Waiter(0, Checking), [], true, OPENED.(controllers := 2), ZERO)

  /** What the loop does next; the choice matters only inside the select. */
  function LoopNext(s: Host, choice: LoopChoice): Host {
    match s.loop
    case Starting =>
      s.(loop := Selecting, signal := Waiter(s.channel.version, Checking),
         channel := s.channel.(receivers := s.channel.receivers + 1))
    case Selecting =>
      (match choice
       case PollSignal =>
         var w := WaitStep(s.channel, s.signal);
         s.(signal := w, loop := if w.phase == Returned then Broken else Selecting)
       case Incoming => s.(loop := Accepted, signal := s.signal.(phase := Checking))
       case AcceptError => s.(loop := Failed))
    case Accepted => s.(loop := Opening, counters := ActiveUp(s.counters))
    case Opening => s.(loop := Opened, counters := TotalUp(s.counters))
    case Opened =>
      s.(loop := Spawning(s.channel.version), channel := s.channel.(receivers := s.channel.receivers + 1))
    case Spawning(seen) =>
      s.(loop := Selecting, tasks := s.tasks + [Task(Serving(Waiter(seen, Checking)), false)])
    case Broken => s.(loop := LoadedActive(s.counters.active))
    case LoadedActive(active) => s.(loop := LoadedTotal(active, s.counters.total))
    case LoadedTotal(active, total) => s.(loop := Finished(Counters(active, total, s.counters.errors)))
    case Finished(_) => s
    case Failed => s
  }

  /** The next place of one task and what it does to the counters. */
  function TaskNext(t: Task, choice: TaskChoice, channel: Shutdown.Channel): Task {
    match t.at
    case Serving(waiter) =>
      (match choice
       case PollTaskSignal =>
         var w := WaitStep(channel, waiter);
         t.(at := if w.phase == Returned then Closing else Serving(w))
       case ViewerDone => t.(at := Closing)
       case ViewerError => t.(at := Failing))
    case Failing => Task(Closing, true)
    case Closing => t.(at := Closed)
    case Closed => t
  }

  function TaskCounts(t: Task, c: Counters): Counters {
    match t.at
    case Serving(_) => c
    case Failing => ErrorsUp(c)
    case Closing => ActiveDown(c)
    case Closed => c
  }

  /** A task drops its signal when it ends. */
  function TaskChannel(t: Task, c: Shutdown.Channel): Shutdown.Channel {
    if t.at == Closing && c.receivers > 0 then c.(receivers := c.receivers - 1) else c
  }

  /** One scheduled step; a step that cannot be taken leaves everything as it is. */
  function Next(s: Host, a: Action): Host {
    match a
    case LoopStep(choice) => LoopNext(s, choice)
    case TaskStep(i, choice) =>
      if i < |s.tasks| then
        s.(tasks := s.tasks[i := TaskNext(s.tasks[i], choice, s.channel)],
           counters := TaskCounts(s.tasks[i], s.counters),
           channel := TaskChannel(s.tasks[i], s.channel))
      else s
    case CtrlC =>
      if s.armed then
        var c := Triggered(s.channel);
        s.(armed := false, channel := c.(controllers := if c.controllers > 0 then c.controllers - 1 else 0))
      else s
    case CtrlCError =>
      if s.armed then
        s.(armed := false,
           channel := s.channel.(controllers := if s.channel.controllers > 0 then s.channel.controllers - 1 else 0))
      else s
  }

  function Continue(s: Host, schedule: seq<Action>): Host {
    if schedule == [] then s else Next(Continue(s, schedule[..|schedule| - 1]), schedule[|schedule| - 1])
  }

  function Reached(schedule: seq<Action>): Host {
    Continue(START, schedule)
  }
}
