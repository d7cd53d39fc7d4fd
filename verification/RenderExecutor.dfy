/** The render executor: producers, the render thread and the thread that starts and stops it, run in any
    interleaving over one bounded queue. */
module RenderExecutor {
  const TASK_CAPACITY := 4096
  const BYTE_CAPACITY := 4 * 1024 * 1024
  /** The charge of a task that names no size: four pointer-sized words and an executor code. */
  const DEFAULT_BYTES := 40

  datatype Task = Task(userData: nat, hasCleanup: bool, bytes: nat)

  datatype Result = Ok | QueueFull | InvalidArgument | NotInitialized | AlreadyInitialized

  // ----- the state under the task lock -----

  datatype Shared = Shared(tasks: seq<Task>, bytes: nat, accepting: bool, stopping: bool, started: bool)

  function Charged(t: Task): Task {
    if t.bytes == 0 then t.(bytes := DEFAULT_BYTES) else t
  }

  /** What a task counts for: its size, or that of a task when it names none. */
  function Charge(t: Task): nat {
    if t.bytes == 0 then 40 else t.bytes
  }

  predicate Admits(s: Shared, t: Task) {
    && Charged(t).bytes <= BYTE_CAPACITY
    && s.accepting && !s.stopping
    && |s.tasks| < TASK_CAPACITY && s.bytes <= BYTE_CAPACITY - Charged(t).bytes
  }

  function Enqueued(s: Shared, t: Task): Shared {
    s.(tasks := s.tasks + [Charged(t)], bytes := s.bytes + Charged(t).bytes)
  }

  function Taken(s: Shared): Shared
    requires s.tasks != [] && s.tasks[0].bytes <= s.bytes
  {
    s.(tasks := s.tasks[1..], bytes := s.bytes - s.tasks[0].bytes)
  }

  function Swapped(s: Shared): Shared {
    s.(tasks := [], bytes := 0, accepting := false)
  }

  function Begun(s: Shared): Shared {
    s.(stopping := false, started := false, accepting := true, bytes := 0)
  }

  function StopRequested(s: Shared): Shared {
    s.(accepting := false, stopping := true)
  }

  function Bytes(tasks: seq<Task>): nat {
    if tasks == [] then 0 else tasks[0].bytes + Bytes(tasks[1..])
  }

  lemma {:induction false} BytesAppend(tasks: seq<Task>, t: Task)
    ensures Bytes(tasks + [t]) == Bytes(tasks) + t.bytes
  {
    if tasks != [] {
      assert (tasks + [t])[1..] == tasks[1..] + [t];
      BytesAppend(tasks[1..], t);
    }
  }

  /** The queue object: one method for each section of code that holds the task lock. */
  class TaskQueue {
    var tasks: seq<Task>
    var bytes: nat
    var accepting: bool
    var stopping: bool
    var started: bool

    ghost function Abs(): Shared
      reads this
    {
      Shared(tasks, bytes, accepting, stopping, started)
    }

    constructor ()
      ensures Abs() == IDLE
    {
      tasks, bytes, accepting, stopping, started := [], 0, false, false, false;
    }

    /** `bound` is whether the runtime is initialized when the executor lock is taken. */
    method Dispatch(hasFunction: bool, task: Task, bound: bool) returns (result: Result)
      modifies this
      ensures result == Ok <==>
              && hasFunction && bound && old(accepting) && !old(stopping)
              && |old(tasks)| < 4096 && old(bytes) + Charge(task) <= 4 * 1024 * 1024
      ensures result == InvalidArgument <==> !hasFunction
      ensures result == NotInitialized <==> hasFunction && Charge(task) <= 4 * 1024 * 1024 && !bound
      ensures result != AlreadyInitialized
      ensures Abs() == if result == Ok then Enqueued(old(Abs()), task) else old(Abs())
    {
      if !hasFunction {
        return InvalidArgument;
      }
      var size := if task.bytes == 0 then DEFAULT_BYTES else task.bytes;
      if size > BYTE_CAPACITY {
        return QueueFull;
      }
      if !bound {
        return NotInitialized;
      }
      if !accepting || stopping || |tasks| >= TASK_CAPACITY || bytes > BYTE_CAPACITY - size {
        return QueueFull;
      }
      tasks := tasks + [Task(task.userData, task.hasCleanup, size)];
      bytes := bytes + size;
      return Ok;
    }

    method Take() returns (task: Task)
      requires tasks != [] && bytes == Bytes(tasks)
      modifies this`tasks, this`bytes
      ensures task == old(tasks)[0] && Abs() == Taken(old(Abs()))
      ensures bytes == Bytes(tasks)
    {
      task := tasks[0];
      tasks := tasks[1..];
      bytes := bytes - task.bytes;
    }

    method Discard() returns (discarded: seq<Task>)
      modifies this
      ensures discarded == old(tasks) && Abs() == Swapped(old(Abs()))
    {
      discarded, tasks := tasks, [];
      bytes := 0;
      accepting := false;
    }

    method BeginStart() returns (result: Result)
      modifies this
      ensures if old(accepting) then result == AlreadyInitialized && Abs() == old(Abs())
              else result == Ok && Abs() == Begun(old(Abs()))
    {
      if accepting {
        return AlreadyInitialized;
      }
      stopping := false;
      started := false;
      accepting := true;
      bytes := 0;
      return Ok;
    }

    method BeginStop(joinable: bool) returns (mustJoin: bool)
      modifies this
      ensures mustJoin == (old(accepting) || joinable)
      ensures Abs() == if mustJoin then StopRequested(old(Abs())) else old(Abs())
    {
      if !accepting && !joinable {
        return false;
      }
      accepting := false;
      stopping := true;
      return true;
    }
  }

  // ----- the interleaved machine -----

  const IDLE := Shared([], 0, false, false, false)

  /** Where the render thread is; `NoThread` also stands for one that has been joined. */
  datatype Thread =
    | NoThread | Spawned | Looping
    | Holding(task: Task) | Finishing(task: Task)
    | Leaving | Discarding(rest: seq<Task>) | Exited

  /** Where the thread that starts and stops the executor is. */
  datatype Controller = Free | Launching | AwaitingStart | Joining

  datatype Outcome = RanTask(task: Task) | DiscardedTask(task: Task)

  datatype Action = RunAction(task: Task) | CleanAction(task: Task)

  /** `accepted` lists every task ever accepted, `finished` what became of them, `log` every callback and
      cleanup call, and `generation` the length of `finished` when the executor was last started. */
  datatype Machine = Machine(
    shared: Shared, thread: Thread, controller: Controller,
    accepted: seq<Task>, finished: seq<Outcome>, log: seq<Action>, generation: nat)

  const INITIAL := Machine(IDLE, NoThread, Free, [], [], [], 0)

  /** Producers: an accepted dispatch, after its checks outside the task lock. Render thread: the eight
      moves of `render_loop`. Controller: the sections of start and stop. */
  datatype Move =
    | Dispatch(task: Task)
    | Register | Take | Break | RunTask | CleanUp | SwapOut | DiscardOne | Exit
    | BeginStart | Launch | SeeStarted | BeginStop | Join

  function Cleaning(t: Task): seq<Action> {
    if t.hasCleanup then [CleanAction(t)] else []
  }

  /** One move; a move that is not possible leaves the state alone. */
  function Next(m: Machine, move: Move): Machine {
    match move
    case Dispatch(t) =>
      if Admits(m.shared, t)
      then m.(shared := Enqueued(m.shared, t), accepted := m.accepted + [Charged(t)]) else m
    case Register =>
      if m.thread.Spawned? then m.(thread := Looping, shared := m.shared.(started := true)) else m
    case Take =>
      if m.thread.Looping? && !m.shared.stopping && m.shared.tasks != [] && m.shared.tasks[0].bytes <= m.shared.bytes
      then m.(thread := Holding(m.shared.tasks[0]), shared := Taken(m.shared)) else m
    case Break =>
      if m.thread.Looping? && m.shared.stopping then m.(thread := Leaving) else m
    case RunTask =>
      if m.thread.Holding? then m.(thread := Finishing(m.thread.task), log := m.log + [RunAction(m.thread.task)]) else m
    case CleanUp =>
      if m.thread.Finishing?
      then m.(thread := Looping, log := m.log + Cleaning(m.thread.task),
              finished := m.finished + [RanTask(m.thread.task)]) else m
    case SwapOut =>
      if m.thread.Leaving? then m.(thread := Discarding(m.shared.tasks), shared := Swapped(m.shared)) else m
    case DiscardOne =>
      if m.thread.Discarding? && m.thread.rest != []
      then m.(thread := Discarding(m.thread.rest[1..]), log := m.log + Cleaning(m.thread.rest[0]),
              finished := m.finished + [DiscardedTask(m.thread.rest[0])]) else m
    case Exit =>
      if m.thread.Discarding? && m.thread.rest == [] then m.(thread := Exited) else m
    case BeginStart =>
      if m.controller.Free? && !m.shared.accepting
      then m.(shared := Begun(m.shared), controller := Launching, generation := |m.finished|) else m
    case Launch =>
      if m.controller.Launching? then m.(thread := Spawned, controller := AwaitingStart) else m
    case SeeStarted =>
      if m.controller.AwaitingStart? && m.shared.started then m.(controller := Free) else m
    case BeginStop =>
      if m.controller.Free? && (m.shared.accepting || !m.thread.NoThread?)
      then m.(shared := StopRequested(m.shared), controller := Joining) else m
    case Join =>
      if m.controller.Joining? && m.thread.Exited? then m.(thread := NoThread, controller := Free) else m
  }

  function Run(moves: seq<Move>): Machine {
    if moves == [] then INITIAL else Next(Run(moves[..|moves| - 1]), moves[|moves| - 1])
  }

  // ----- what every interleaving keeps -----

  function TasksOf(finished: seq<Outcome>): seq<Task> {
    seq(|finished|, i requires 0 <= i < |finished| => finished[i].task)
  }

  /** The calls one finished task accounts for: its callback if it ran, then its cleanup if it has one. */
  function Block(outcome: Outcome): seq<Action> {
    (if outcome.RanTask? then [RunAction(outcome.task)] else []) + Cleaning(outcome.task)
  }

  /** The calls of the finished tasks, in order. */
  function CallsOf(finished: seq<Outcome>): seq<Action> {
    if finished == [] then [] else CallsOf(finished[..|finished| - 1]) + Block(finished[|finished| - 1])
  }

  function InHand(thread: Thread): seq<Task> {
    match thread
    case Holding(t) => [t]
    case Finishing(t) => [t]
    case Discarding(rest) => rest
    case _ => []
  }

  predicate Serving(thread: Thread) {
    thread.Spawned? || thread.Looping? || thread.Holding? || thread.Finishing?
  }

  /** Each accepted task has finished, is in hand, or is queued, in the order of acceptance. */
  ghost predicate Accounted(m: Machine) {
    m.accepted == TasksOf(m.finished) + InHand(m.thread) + m.shared.tasks
  }

  ghost predicate Logged(m: Machine) {
    m.log == CallsOf(m.finished) + if m.thread.Finishing? then [RunAction(m.thread.task)] else []
  }

  /** In the current generation, discards come after every run. */
  ghost predicate DiscardsLast(m: Machine) {
    && m.generation <= |m.finished|
    && (forall i, j :: m.generation <= i < j < |m.finished| && m.finished[i].DiscardedTask? ==>
          m.finished[j].DiscardedTask?)
    && (Serving(m.thread) || m.thread.Leaving? || m.controller.Launching? ==>
          forall i :: m.generation <= i < |m.finished| ==> m.finished[i].RanTask?)
  }

  ghost predicate Phases(m: Machine) {
    && m.shared.bytes == Bytes(m.shared.tasks)
    && |m.shared.tasks| <= TASK_CAPACITY && m.shared.bytes <= BYTE_CAPACITY
    && (m.shared.accepting ==> !m.shared.stopping && (Serving(m.thread) || m.controller.Launching?))
    && (m.controller.Launching? ==> m.thread.NoThread? && m.shared.accepting)
    && (m.controller.Free? && !m.shared.accepting ==> m.thread.NoThread?)
    && (m.controller.AwaitingStart? ==> Serving(m.thread) && m.shared.accepting)
    && (m.controller.Joining? ==> m.shared.stopping && !m.thread.NoThread?)
    && (m.thread.NoThread? && !m.controller.Launching? ==> !m.shared.accepting && m.shared.tasks == [])
    && (m.thread.Discarding? || m.thread.Exited? ==> m.shared.tasks == [] && !m.shared.accepting && m.shared.stopping)
    && (m.thread.Leaving? ==> m.shared.stopping && !m.shared.accepting)
  }

  lemma NextKeepsPhases(m: Machine, move: Move)
    requires Phases(m)
    ensures Phases(Next(m, move))
  {
    if move.Dispatch? {
      BytesAppend(m.shared.tasks, Charged(move.task));
    }
  }

  lemma NextKeepsAccounted(m: Machine, move: Move)
    requires Phases(m) && Accounted(m)
    ensures Accounted(Next(m, move))
  {
    var n := Next(m, move);
    match move
    case CleanUp =>
      if n != m { assert TasksOf(n.finished) == TasksOf(m.finished) + [m.thread.task]; }
    case DiscardOne =>
      if n != m { assert TasksOf(n.finished) == TasksOf(m.finished) + [m.thread.rest[0]]; }
    case _ =>
  }

  lemma CallsAppend(finished: seq<Outcome>, outcome: Outcome)
    ensures CallsOf(finished + [outcome]) == CallsOf(finished) + Block(outcome)
  {
    assert (finished + [outcome])[..|finished|] == finished;
  }

  lemma NextKeepsLogged(m: Machine, move: Move)
    requires Phases(m) && Logged(m)
    ensures Logged(Next(m, move))
  {
    hide CallsOf, Cleaning;
    match move
    case CleanUp =>
      if m.thread.Finishing? { CallsAppend(m.finished, RanTask(m.thread.task)); }
    case DiscardOne =>
      if m.thread.Discarding? && m.thread.rest != [] { CallsAppend(m.finished, DiscardedTask(m.thread.rest[0])); }
    case _ =>
  }

  lemma NextKeepsDiscardsLast(m: Machine, move: Move)
    requires Phases(m) && DiscardsLast(m)
    ensures DiscardsLast(Next(m, move))
  {
  }

  lemma {:induction false} RunKeepsAll(moves: seq<Move>)
    ensures var m := Run(moves);
            Phases(m) && Accounted(m) && Logged(m) && DiscardsLast(m)
  {
    if moves != [] {
      var before := moves[..|moves| - 1];
      RunKeepsAll(before);
      NextKeepsPhases(Run(before), moves[|moves| - 1]);
      NextKeepsAccounted(Run(before), moves[|moves| - 1]);
      NextKeepsLogged(Run(before), moves[|moves| - 1]);
      NextKeepsDiscardsLast(Run(before), moves[|moves| - 1]);
    }
  }

  // ----- the guarantees -----

  /** When stop returns, every accepted task has been run once or discarded once, in acceptance order,
      with its cleanup called exactly once and its callback before it, and queue and byte count are zero. */
  lemma StoppedExecutorIsSettled(moves: seq<Move>)
    requires var m := Run(moves); m.controller.Joining? && m.thread.Exited?
    ensures var m := Next(Run(moves), Join);
            && m.controller.Free? && m.thread.NoThread?
            && m.shared.tasks == [] && m.shared.bytes == 0 && !m.shared.accepting
            && m.accepted == TasksOf(m.finished)
            && m.log == CallsOf(m.finished)
  {
    RunKeepsAll(moves);
    RunKeepsAll(moves + [Join]);
    assert (moves + [Join])[..|moves|] == moves;
    var m := Run(moves + [Join]);
    assert m.accepted == TasksOf(m.finished) + [] + [];
  }

  /** The machine after more moves. */
  function Continued(m: Machine, moves: seq<Move>): Machine {
    if moves == [] then m else Next(Continued(m, moves[..|moves| - 1]), moves[|moves| - 1])
  }

  /** Once discarding of a generation has begun, only cleanups are called until the next thread is launched,
      whatever producers, thread and controller do in the meantime. */
  lemma {:induction false} NothingRunsAfterDiscard(moves: seq<Move>, later: seq<Move>)
    requires Run(moves).thread.Discarding? || Run(moves).thread.Exited?
    requires Launch !in later
    ensures var m, n := Run(moves), Continued(Run(moves), later);
            && |n.log| >= |m.log| && n.log[..|m.log|] == m.log
            && forall a :: a in n.log[|m.log|..] ==> a.CleanAction?
  {
    RunKeepsAll(moves);
    DiscardContinues(Run(moves), later);
  }

  lemma {:induction false} DiscardContinues(m: Machine, later: seq<Move>)
    requires m.thread.Discarding? || m.thread.Exited? || m.thread.NoThread?
    requires Launch !in later
    ensures var n := Continued(m, later);
            && (n.thread.Discarding? || n.thread.Exited? || n.thread.NoThread?)
            && |n.log| >= |m.log| && n.log[..|m.log|] == m.log
            && forall a :: a in n.log[|m.log|..] ==> a.CleanAction?
  {
    if later != [] {
      var k := |later| - 1;
      DiscardContinues(m, later[..k]);
      var before, n := Continued(m, later[..k]), Continued(m, later);
      assert later[k] in later;
      assert n.log[..|m.log|] == before.log[..|m.log|];
      forall a | a in n.log[|m.log|..] ensures a.CleanAction? {
        if a !in before.log[|m.log|..] {
          assert n.log == before.log + n.log[|before.log|..];
          assert n.log[|m.log|..] == before.log[|m.log|..] + n.log[|before.log|..];
        }
      }
    }
  }

  /** How often `calls` runs the callback, or the cleanup, of the task at one position of `finished`: the
      calls of the finished tasks are one block per task. */
  lemma {:induction false} CallsAreBlocks(finished: seq<Outcome>, i: nat)
      returns (before: seq<Action>, after: seq<Action>)
    requires i < |finished|
    ensures before == CallsOf(finished[..i])
    ensures CallsOf(finished)
         == before + Block(finished[i]) + after
  {
    hide Cleaning;
    var n := |finished| - 1;
    before := CallsOf(finished[..i]);
    if i == n {
      after := [];
    } else {
      var rest;
      before, rest := CallsAreBlocks(finished[..n], i);
      assert finished[..n][..i] == finished[..i];
      after := rest + Block(finished[n]);
    }
  }

  // ----- what is accepted is run -----

  function Charges(tasks: seq<Task>): nat {
    if tasks == [] then 0 else Charges(tasks[..|tasks| - 1]) + Charge(tasks[|tasks| - 1])
  }

  predicate Accepts(m: Machine, t: Task) {
    && m.shared.accepting && |m.shared.tasks| < 4096
    && Bytes(m.shared.tasks) + Charge(t) <= 4 * 1024 * 1024
  }

  /** The machine with one more task at the end of its queue, charged. */
  function WithTask(m: Machine, t: Task): Machine {
    var charged := t.(bytes := Charge(t));
    m.(shared := m.shared.(tasks := m.shared.tasks + [charged], bytes := Bytes(m.shared.tasks) + Charge(t)),
       accepted := m.accepted + [charged])
  }

  lemma DispatchExactly(m: Machine, t: Task)
    requires Phases(m)
    ensures Next(m, Dispatch(t)) == if Accepts(m, t) then WithTask(m, t) else m
  {
  }

  /** In every reachable state a dispatch is accepted exactly while the executor is accepting, fewer than 4096 tasks
      are queued, and the queued charges and the new one make at most 4 MiB; it then goes to the end of the queue. */
  lemma AcceptedExactly(moves: seq<Move>, t: Task)
    ensures var m := Run(moves);
            && (Next(m, Dispatch(t)) != m <==> Accepts(m, t))
            && Run(moves + [Dispatch(t)]) == if Accepts(m, t) then WithTask(m, t) else m
  {
    hide Next, Phases, Accepts;
    RunKeepsAll(moves);
    DispatchExactly(Run(moves), t);
    OneMore(moves, Dispatch(t));
    assert WithTask(Run(moves), t).accepted != Run(moves).accepted;
  }

  lemma OneMore(moves: seq<Move>, move: Move)
    ensures Run(moves + [move]) == Next(Run(moves), move)
  {
    assert (moves + [move])[..|moves|] == moves;
  }

  lemma {:induction false} RunContinues(moves: seq<Move>, later: seq<Move>)
    ensures Run(moves + later) == Continued(Run(moves), later)
  {
    hide Next;
    if later == [] {
      assert moves + later == moves;
    } else {
      var k := |later| - 1;
      RunContinues(moves, later[..k]);
      OneMore(moves + later[..k], later[k]);
      assert moves + later == moves + later[..k] + [later[k]];
    }
  }

  function Dispatches(tasks: seq<Task>): (moves: seq<Move>)
    ensures |moves| == |tasks| && forall i :: 0 <= i < |tasks| ==> moves[i] == Dispatch(tasks[i])
  {
    seq(|tasks|, i requires 0 <= i < |tasks| => Dispatch(tasks[i]))
  }

  function ChargedAll(tasks: seq<Task>): (r: seq<Task>)
    ensures |r| == |tasks| && forall i :: 0 <= i < |tasks| ==> r[i] == tasks[i].(bytes := Charge(tasks[i]))
  {
    seq(|tasks|, i requires 0 <= i < |tasks| => tasks[i].(bytes := Charge(tasks[i])))
  }

  /** A burst of dispatches fits the space that is free. */
  predicate Fits(m: Machine, tasks: seq<Task>) {
    && m.shared.accepting && |m.shared.tasks| + |tasks| <= 4096
    && Bytes(m.shared.tasks) + Charges(tasks) <= 4 * 1024 * 1024
  }

  lemma ContinuedOne(m: Machine, moves: seq<Move>, move: Move)
    ensures Continued(m, moves + [move]) == Next(Continued(m, moves), move)
  {
    hide Next;
    assert (moves + [move])[..|moves|] == moves;
  }

  lemma OneMoreTask(before: seq<Task>, t: Task)
    ensures Dispatches(before + [t]) == Dispatches(before) + [Dispatch(t)]
    ensures ChargedAll(before + [t]) == ChargedAll(before) + [t.(bytes := Charge(t))]
    ensures Charges(before + [t]) == Charges(before) + Charge(t)
  {
    assert (before + [t])[..|before|] == before;
  }

  lemma {:induction false} BurstContinues(m: Machine, tasks: seq<Task>)
    requires Phases(m) && Fits(m, tasks)
    ensures var n := Continued(m, Dispatches(tasks));
            && Phases(n) && n.shared.accepting && n.shared.bytes == m.shared.bytes + Charges(tasks)
            && n.shared.tasks == m.shared.tasks + ChargedAll(tasks)
            && n.accepted == m.accepted + ChargedAll(tasks)
  {
    if tasks != [] {
      hide Next, Phases, Charge, Charges, Dispatches, ChargedAll, Continued, Bytes;
      var k := |tasks| - 1;
      var before, t := tasks[..k], tasks[k];
      assert tasks == before + [t];
      OneMoreTask(before, t);
      BytesAreCounted(m);
      BurstContinues(m, before);
      var n := Continued(m, Dispatches(before));
      ContinuedOne(m, Dispatches(before), Dispatch(t));
      BytesAreCounted(n);
      DispatchExactly(n, t);
      NextKeepsPhases(n, Dispatch(t));
      Associates(m.shared.tasks, ChargedAll(before), t.(bytes := Charge(t)));
      Associates(m.accepted, ChargedAll(before), t.(bytes := Charge(t)));
    }
  }

  lemma Associates<T>(a: seq<T>, b: seq<T>, x: T)
    ensures (a + b) + [x] == a + (b + [x])
  {
  }

  lemma BytesAreCounted(m: Machine)
    requires Phases(m)
    ensures m.shared.bytes == Bytes(m.shared.tasks)
  {
  }

  /** Any burst that fits the free space of an accepting executor is accepted whole and in order. */
  lemma BurstIsAccepted(moves: seq<Move>, tasks: seq<Task>)
    requires Fits(Run(moves), tasks)
    ensures var m, n := Run(moves), Run(moves + Dispatches(tasks));
            && n.shared.tasks == m.shared.tasks + ChargedAll(tasks)
            && n.accepted == m.accepted + ChargedAll(tasks)
  {
    hide Next, Phases, Fits;
    RunKeepsAll(moves);
    RunContinues(moves, Dispatches(tasks));
    BurstContinues(Run(moves), tasks);
  }

  lemma StartContinues(m: Machine)
    requires Phases(m) && m.controller.Free? && !m.shared.accepting
    ensures Next(Next(Next(Next(m, BeginStart), Launch), Register), SeeStarted) ==
            m.(shared := Shared([], 0, true, false, true), thread := Looping, controller := Free,
               generation := |m.finished|)
  {
  }

  /** From every state in which the executor is stopped, a start leads to an accepting one with an empty queue and its
      thread in the loop. */
  lemma StartCanFinish(moves: seq<Move>)
    requires Run(moves).controller.Free? && !Run(moves).shared.accepting
    ensures var m := Run(moves);
            Run(moves + [BeginStart] + [Launch] + [Register] + [SeeStarted]) ==
            m.(shared := Shared([], 0, true, false, true), thread := Looping, controller := Free,
               generation := |m.finished|)
  {
    hide Next, Phases, Run;
    RunKeepsAll(moves);
    OneMore(moves, BeginStart);
    OneMore(moves + [BeginStart], Launch);
    OneMore(moves + [BeginStart] + [Launch], Register);
    OneMore(moves + [BeginStart] + [Launch] + [Register], SeeStarted);
    StartContinues(Run(moves));
  }

  /** The moves of the render thread. */
  predicate RenderMove(move: Move) {
    || move.Register? || move.Take? || move.Break? || move.RunTask?
    || move.CleanUp? || move.SwapOut? || move.DiscardOne? || move.Exit?
  }

  /** The moves of the render thread for `n` tasks. */
  function Rounds(n: nat): (moves: seq<Move>)
    ensures |moves| == 3 * n && forall i :: 0 <= i < |moves| ==> RenderMove(moves[i])
  {
    if n == 0 then [] else Rounds(n - 1) + [Take] + [RunTask] + [CleanUp]
  }

  predicate InLoop(m: Machine) {
    m.thread.Looping? && !m.shared.stopping
  }

  /** The loop body for one task. */
  lemma OneTaskRuns(m: Machine)
    requires Phases(m) && InLoop(m) && m.shared.tasks != []
    ensures var n, t := Next(Next(Next(m, Take), RunTask), CleanUp), m.shared.tasks[0];
            && Phases(n) && InLoop(n) && n.accepted == m.accepted
            && n.shared.tasks == m.shared.tasks[1..]
            && n.finished == m.finished + [RanTask(t)]
            && n.log == m.log + ([RunAction(t)] + Cleaning(t))
  {
    hide Cleaning;
    NextKeepsPhases(m, Take);
    NextKeepsPhases(Next(m, Take), RunTask);
    NextKeepsPhases(Next(Next(m, Take), RunTask), CleanUp);
  }

  lemma ThreeMore(m: Machine, moves: seq<Move>, a: Move, b: Move, c: Move)
    ensures Continued(m, moves + [a] + [b] + [c]) == Next(Next(Next(Continued(m, moves), a), b), c)
  {
    hide Next, Continued;
    ContinuedOne(m, moves, a);
    ContinuedOne(m, moves + [a], b);
    ContinuedOne(m, moves + [a] + [b], c);
  }

  function AllRan(tasks: seq<Task>): (r: seq<Outcome>)
    ensures |r| == |tasks| && forall i :: 0 <= i < |tasks| ==> r[i] == RanTask(tasks[i])
  {
    seq(|tasks|, i requires 0 <= i < |tasks| => RanTask(tasks[i]))
  }

  lemma OneMoreRan(tasks: seq<Task>, k: nat)
    requires 0 < k <= |tasks|
    ensures tasks[k - 1..][0] == tasks[k - 1] && tasks[k - 1..][1..] == tasks[k..]
    ensures AllRan(tasks[..k]) == AllRan(tasks[..k - 1]) + [RanTask(tasks[k - 1])]
    ensures CallsOf(AllRan(tasks[..k])) ==
            CallsOf(AllRan(tasks[..k - 1])) + ([RunAction(tasks[k - 1])] + Cleaning(tasks[k - 1]))
  {
    hide CallsOf, Cleaning;
    CallsAppend(AllRan(tasks[..k - 1]), RanTask(tasks[k - 1]));
  }

  /** The machine once the first `k` of the queued tasks of `m` have run. */
  ghost predicate RanFirst(m: Machine, n: Machine, k: nat)
    requires k <= |m.shared.tasks|
  {
    var tasks := m.shared.tasks;
    && Phases(n) && InLoop(n) && n.accepted == m.accepted
    && n.shared.tasks == tasks[k..]
    && n.finished == m.finished + AllRan(tasks[..k])
    && n.log == m.log + CallsOf(AllRan(tasks[..k]))
  }

  lemma RanOneMore(m: Machine, n: Machine, k: nat)
    requires k < |m.shared.tasks| && RanFirst(m, n, k)
    ensures RanFirst(m, Next(Next(Next(n, Take), RunTask), CleanUp), k + 1)
  {
    hide Next, Phases, InLoop, Cleaning, CallsOf, AllRan;
    var tasks := m.shared.tasks;
    OneMoreRan(tasks, k + 1);
    OneTaskRuns(n);
  }

  lemma RanNone(m: Machine)
    requires Phases(m) && InLoop(m)
    ensures RanFirst(m, Continued(m, Rounds(0)), 0)
  {
    hide Phases, InLoop;
  }

  lemma {:induction false} RoundsContinue(m: Machine, k: nat)
    requires Phases(m) && InLoop(m) && k <= |m.shared.tasks|
    ensures RanFirst(m, Continued(m, Rounds(k)), k)
    decreases k
  {
    hide RanFirst, Continued, Next, Phases, InLoop;
    if k == 0 {
      RanNone(m);
    } else {
      RoundsContinue(m, k - 1);
      ThreeMore(m, Rounds(k - 1), Take, RunTask, CleanUp);
      RanOneMore(m, Continued(m, Rounds(k - 1)), k - 1);
    }
  }

  /** While no stop is requested, the render thread can run everything that is queued, oldest first, each task with its
      callback and its cleanup. */
  lemma QueueCanDrain(moves: seq<Move>)
    requires InLoop(Run(moves))
    ensures var m := Run(moves);
            var n := Run(moves + Rounds(|m.shared.tasks|));
            && n.shared.tasks == []
            && n.finished == m.finished + AllRan(m.shared.tasks)
            && n.log == m.log + CallsOf(AllRan(m.shared.tasks))
  {
    hide Next, Phases, InLoop;
    var m := Run(moves);
    RunKeepsAll(moves);
    RunContinues(moves, Rounds(|m.shared.tasks|));
    RoundsContinue(m, |m.shared.tasks|);
    assert m.shared.tasks[..|m.shared.tasks|] == m.shared.tasks;
  }

  // ----- a stop can finish -----

  /** A stop of a running executor begins at once: nothing more is accepted, and the stop waits for the thread. */
  lemma StopBegins(moves: seq<Move>)
    requires Run(moves).controller.Free? && Run(moves).shared.accepting
    ensures var m := Run(moves);
            Run(moves + [BeginStop]) ==
            m.(shared := m.shared.(accepting := false, stopping := true), controller := Joining)
  {
    OneMore(moves, BeginStop);
  }

  /** How much the render thread still has to do for a stop. */
  function Measure(m: Machine): nat {
    match m.thread
    case NoThread | Exited => 0
    case Discarding(rest) => 1 + |rest|
    case Leaving => 2 + |m.shared.tasks|
    case Looping => 3 + |m.shared.tasks|
    case Spawned | Finishing(_) => 4 + |m.shared.tasks|
    case Holding(_) => 5 + |m.shared.tasks|
  }

  /** The move the render thread has to make next. */
  function NextRenderMove(thread: Thread): (move: Move)
    ensures RenderMove(move)
  {
    match thread
    case Spawned => Register
    case Holding(_) => RunTask
    case Finishing(_) => CleanUp
    case Looping => Break
    case Leaving => SwapOut
    case Discarding(rest) => if rest == [] then Exit else DiscardOne
    case _ => Exit
  }

  /** While a stop waits for the render thread, producers and controller change nothing, and each move of the render
      thread that is possible brings it closer to its end, where the thread has exited; until then one is possible. */
  lemma StopMakesProgress(moves: seq<Move>, move: Move)
    requires Run(moves).controller.Joining?
    ensures var m, n := Run(moves), Next(Run(moves), move);
            && (Measure(m) == 0 <==> m.thread.Exited?)
            && (!m.thread.Exited? ==> Next(m, NextRenderMove(m.thread)) != m)
            && (n != m && RenderMove(move) ==> n.controller.Joining? && Measure(n) < Measure(m))
            && (n != m && !RenderMove(move) ==> move.Join? && m.thread.Exited?)
  {
    RunKeepsAll(moves);
  }

  /** However a run got there, a waiting stop has a continuation of at most as many render-thread moves as the
      measure says after which the thread has exited. */
  lemma {:induction false} StopCanFinish(moves: seq<Move>) returns (later: seq<Move>)
    requires Run(moves).controller.Joining?
    ensures |later| <= Measure(Run(moves)) && forall i :: 0 <= i < |later| ==> RenderMove(later[i])
    ensures Run(moves + later).controller.Joining? && Run(moves + later).thread.Exited?
    decreases Measure(Run(moves))
  {
    var m := Run(moves);
    var move := NextRenderMove(m.thread);
    StopMakesProgress(moves, move);
    if m.thread.Exited? {
      later := [];
      assert moves + later == moves;
    } else {
      assert (moves + [move])[..|moves|] == moves;
      var rest := StopCanFinish(moves + [move]);
      later := [move] + rest;
      assert moves + later == moves + [move] + rest;
    }
  }
}
