/** Round-robin scheduling with blocking input, on values: what each kernel entry does to the scheduler. */
module TaskModel {
  import opened Numbers

  const REGISTER := 0x1_0000_0000_0000_0000

  /** The saved registers of a task; `others` are those no kernel entry looks at. */
  datatype TrapFrame = TrapFrame(sepc: nat, a0: nat, a1: nat, others: seq<nat>)

  datatype WaitSrc = NotWaiting | CharIn | Breakpoint

  datatype TaskData = TaskData(frame: TrapFrame, taskId: nat, table: nat, waiting: WaitSrc, threadId: nat)

  /** The task queue with its current position, the registers of the running task, and the ids awaiting input. */
  datatype Sched = Sched(queue: seq<TaskData>, cur: nat, live: TrapFrame, awaiting: seq<nat>)

  predicate Runnable(t: TaskData) { t.waiting == NotWaiting }

  ghost predicate SomeRunnable(queue: seq<TaskData>) {
    exists i | 0 <= i < |queue| :: Runnable(queue[i])
  }

  // Selecting a task

  /** Position `k` places after `cur`, going round. */
  function Around(cur: nat, k: nat, n: nat): (i: nat)
    requires n > 0
    ensures i < n
  {
    (cur + k) % n
  }

  /** `next` is the first runnable task after `cur`, `k` places on; `cur` itself comes last. */
  ghost predicate IsNext(queue: seq<TaskData>, cur: nat, next: nat, k: nat)
    requires cur < |queue|
  {
    && 1 <= k <= |queue| && next == Around(cur, k, |queue|) && Runnable(queue[next])
    && forall j | 1 <= j < k :: !Runnable(queue[Around(cur, j, |queue|)])
  }

  lemma Place(start: nat, k: nat, n: nat)
    requires start < n && k <= n
    ensures Around(start, k, n) == if start + k < n then start + k else start + k - n
  {
    if start + k >= n {
      AddMultiple(start + k - n, 1, n);
      Below(start + k - n, n);
    } else {
      Below(start + k, n);
    }
  }

  /** Places after `cur` at which `t` comes, between 1 and `n`. */
  function Distance(cur: nat, t: nat, n: nat): (d: nat)
    requires cur < n && t < n
    ensures 1 <= d <= n && Around(cur, d, n) == t
  {
    var d := if t > cur then t - cur else t + n - cur;
    Place(cur, d, n);
    d
  }

  lemma DistanceUnique(cur: nat, t: nat, n: nat, k: nat)
    requires cur < n && t < n && 1 <= k <= n && Around(cur, k, n) == t
    ensures k == Distance(cur, t, n)
  {
    hide Around;
    Place(cur, k, n);
  }

  /** Selecting the next runnable task brings a runnable task that is not selected strictly closer. */
  lemma Closer(queue: seq<TaskData>, cur: nat, next: nat, k: nat, t: nat)
    requires cur < |queue| && t < |queue| && IsNext(queue, cur, next, k) && Runnable(queue[t])
    ensures next < |queue| && (next == t || Distance(next, t, |queue|) < Distance(cur, t, |queue|))
  {
    var n := |queue|;
    var d := Distance(cur, t, n);
    DistanceUnique(cur, next, n, k);
    assert Around(cur, d, n) == t;
  }

  /** A next task exists exactly when some task is runnable, and it is one task. */
  lemma NextExists(queue: seq<TaskData>, cur: nat) returns (next: nat, k: nat)
    requires cur < |queue| && SomeRunnable(queue)
    ensures next < |queue| && IsNext(queue, cur, next, k)
  {
    var n := |queue|;
    var i :| 0 <= i < n && Runnable(queue[i]);
    k := 1;
    while !Runnable(queue[Around(cur, k, n)])
      invariant 1 <= k <= Distance(cur, i, n)
      invariant forall j | 1 <= j < k :: !Runnable(queue[Around(cur, j, n)])
      decreases n - k
    {
      k := k + 1;
    }
    next := Around(cur, k, n);
  }

  lemma NextUnique(queue: seq<TaskData>, cur: nat, a: nat, j: nat, b: nat, k: nat)
    requires cur < |queue| && IsNext(queue, cur, a, j) && IsNext(queue, cur, b, k)
    ensures a == b && j == k
  {
    assert Around(cur, j, |queue|) == a && Around(cur, k, |queue|) == b;
  }

  // Kernel entries

  /** What the kernel is entered for. */
  datatype Event =
    | UserStep(frame: TrapFrame)
    | Timer
    | BreakpointTrap
    | Input(c: nat)
    | Print
    | ReadChar
    | Forfeit
    | Spawn(threadId: nat)

  /** The registers after `sepc` is moved over the `ecall` instruction. */
  function Called(f: TrapFrame): TrapFrame { f.(sepc := (f.sepc + 4) % REGISTER) }

  function BlockOn(s: Sched, w: WaitSrc): Sched
    requires s.cur < |s.queue|
  {
    s.(queue := s.queue[s.cur := s.queue[s.cur].(waiting := w)])
  }

  /** The running task's registers are saved and the next runnable task's restored. */
  ghost predicate Switched(s: Sched, s': Sched)
    requires s.cur < |s.queue|
  {
    && s'.queue == s.queue[s.cur := s.queue[s.cur].(frame := s.live)]
    && s'.awaiting == s.awaiting
    && s'.cur < |s.queue| && (exists k :: IsNext(s'.queue, s.cur, s'.cur, k))
    && s'.live == s'.queue[s'.cur].frame
  }

  /** No task before position `i` has the same id: the one a search by id finds. */
  ghost predicate FirstWithId(queue: seq<TaskData>, i: nat)
    requires i < |queue|
  {
    forall j | 0 <= j < i :: queue[j].taskId != queue[i].taskId
  }

  /** Task `i` is one that an input character wakes. */
  ghost predicate Wakes(queue: seq<TaskData>, awaiting: seq<nat>, i: nat)
    requires i < |queue|
  {
    queue[i].waiting == CharIn && queue[i].taskId in awaiting && FirstWithId(queue, i)
  }

  function Woken(t: TaskData, c: nat): TaskData { t.(frame := t.frame.(a0 := c), waiting := NotWaiting) }

  ghost function AfterInput(queue: seq<TaskData>, awaiting: seq<nat>, c: nat): (q: seq<TaskData>) {
    seq(|queue|, i requires 0 <= i < |queue| => if Wakes(queue, awaiting, i) then Woken(queue[i], c) else queue[i])
  }

  /** The second thread: the caller's registers with its ids in `a0` and `a1`; the caller gets 0. */
  ghost predicate Spawned(s: Sched, thread: nat, s': Sched)
    requires s.cur < |s.queue|
  {
    var parent := s.queue[s.cur].(frame := s.live);
    var child := parent.(frame := s.live.(a0 := parent.taskId, a1 := thread), threadId := thread);
    s' == s.(queue := s.queue[s.cur := parent] + [child], live := s.live.(a0 := 0))
  }

  ghost predicate Step(s: Sched, e: Event, s': Sched) {
    && s.cur < |s.queue|
    && var call := s.(live := Called(s.live));
       match e
       case UserStep(f) => s' == s.(live := f)
       case Timer => Switched(s, s')
       case BreakpointTrap => Switched(BlockOn(s, Breakpoint), s')
       case Input(c) => s' == s.(queue := AfterInput(s.queue, s.awaiting, c), awaiting := [])
       case Print => s.live.a0 == 0 && s.live.a1 == 1 && s' == call
       case ReadChar =>
         && s.live.a0 == 0 && s.live.a1 == 2
         && Switched(BlockOn(call.(awaiting := s.awaiting + [s.queue[s.cur].taskId]), CharIn), s')
       case Forfeit => s.live.a0 == 1 && s.live.a1 == 0 && Switched(call, s')
       case Spawn(thread) => s.live.a0 == 1 && s.live.a1 == 2 && Spawned(call, thread, s')
  }

  // Context preservation: each task sees a machine of its own

  /** The registers task `i` has: the live ones while it runs, the saved ones otherwise. */
  ghost function Own(s: Sched): (r: seq<TrapFrame>)
    ensures |r| == |s.queue|
  {
    seq(|s.queue|, i requires 0 <= i < |s.queue| => if i == s.cur then s.live else s.queue[i].frame)
  }

  /** The effect of an event on the registers of every task, without saving, restoring or switching. */
  ghost function OwnAfter(s: Sched, e: Event): seq<TrapFrame>
    requires s.cur < |s.queue|
  {
    var own := Own(s);
    var called := own[s.cur := Called(own[s.cur])];
    match e
    case UserStep(f) => own[s.cur := f]
    case Timer | BreakpointTrap => own
    case Print | ReadChar | Forfeit => called
    case Input(c) =>
      seq(|own|, i requires 0 <= i < |own| =>
        if Wakes(s.queue, s.awaiting, i) then own[i].(a0 := c) else own[i])
    case Spawn(thread) =>
      own[s.cur := called[s.cur].(a0 := 0)] + [called[s.cur].(a0 := s.queue[s.cur].taskId, a1 := thread)]
  }

  /**
   * What every run keeps: the running task is runnable, every listed id belongs to a task, and every task that
   * waits for a character and that a search by its id finds is listed.
   */
  ghost predicate Inv(s: Sched) {
    && s.cur < |s.queue| && Runnable(s.queue[s.cur])
    && (forall i | 0 <= i < |s.queue| && s.queue[i].waiting == CharIn && FirstWithId(s.queue, i) ::
          s.queue[i].taskId in s.awaiting)
    && forall id | id in s.awaiting :: exists i | 0 <= i < |s.queue| :: s.queue[i].taskId == id
  }

  ghost predicate SameTasks(q: seq<TaskData>, q': seq<TaskData>) {
    |q| <= |q'| && forall i | 0 <= i < |q| :: q'[i].taskId == q[i].taskId
  }

  lemma SameFirst(q: seq<TaskData>, q': seq<TaskData>, i: nat)
    requires SameTasks(q, q') && i < |q|
    ensures FirstWithId(q, i) <==> FirstWithId(q', i)
  {
  }

  lemma StepSameTasks(s: Sched, e: Event, s': Sched)
    requires Step(s, e, s')
    ensures SameTasks(s.queue, s'.queue) && (e.Spawn? || |s'.queue| == |s.queue|)
  {
  }

  /** The time-shared machine refines one machine per task. */
  lemma ContextPreserved(s: Sched, e: Event, s': Sched)
    requires Inv(s) && Step(s, e, s')
    ensures Own(s') == OwnAfter(s, e)
  {
    StepSameTasks(s, e, s');
    assert forall i | 0 <= i < |s'.queue| :: Own(s')[i] == OwnAfter(s, e)[i];
  }

  lemma StepKeeps(s: Sched, e: Event, s': Sched)
    requires Inv(s) && Step(s, e, s')
    ensures Inv(s')
  {
    StepSameTasks(s, e, s');
    forall i | 0 <= i < |s.queue| ensures FirstWithId(s.queue, i) <==> FirstWithId(s'.queue, i) {
      SameFirst(s.queue, s'.queue, i);
    }
    forall id | id in s'.awaiting ensures exists i | 0 <= i < |s'.queue| :: s'.queue[i].taskId == id {
      var i :| 0 <= i < |s.queue| && s.queue[i].taskId == id;
      assert s'.queue[i].taskId == id;
    }
  }

  // Runs

  ghost predicate Run(states: seq<Sched>, events: seq<Event>) {
    && |states| == |events| + 1
    && forall i | 0 <= i < |events| :: Step(states[i], events[i], states[i + 1])
  }

  predicate Switching(e: Event) { e.Timer? || e.BreakpointTrap? || e.ReadChar? || e.Forfeit? }

  lemma {:induction false} RunKeeps(states: seq<Sched>, events: seq<Event>, m: nat)
    requires Run(states, events) && Inv(states[0]) && m < |states|
    ensures Inv(states[m]) && SameTasks(states[0].queue, states[m].queue)
  {
    if m > 0 {
      RunKeeps(states, events, m - 1);
      StepKeeps(states[m - 1], events[m - 1], states[m]);
      StepSameTasks(states[m - 1], events[m - 1], states[m]);
    }
  }

  /** The kernel leaves nothing open: an event leads to one state. */
  lemma StepDeterministic(s: Sched, e: Event, a: Sched, b: Sched)
    requires Step(s, e, a) && Step(s, e, b)
    ensures a == b
  {
    if Switching(e) {
      var j :| IsNext(a.queue, s.cur, a.cur, j);
      var k :| IsNext(b.queue, s.cur, b.cur, k);
      NextUnique(a.queue, s.cur, a.cur, j, b.cur, k);
    }
  }

  ghost predicate Another(queue: seq<TaskData>, cur: nat) {
    exists i | 0 <= i < |queue| :: i != cur && Runnable(queue[i])
  }

  /** An event that blocks the running task. */
  predicate Blocking(e: Event) { e.ReadChar? || e.BreakpointTrap? }

  /**
   * An event that switches tasks has a successor exactly if some task is left to run. A task that blocks while no
   * other is runnable never gets out of the kernel, and neither does anyone else.
   */
  lemma Progress(s: Sched, e: Event)
    requires Inv(s) && Switching(e)
    requires e.ReadChar? ==> s.live.a0 == 0 && s.live.a1 == 2
    requires e.Forfeit? ==> s.live.a0 == 1 && s.live.a1 == 0
    ensures (exists s' :: Step(s, e, s')) <==> (Blocking(e) ==> Another(s.queue, s.cur))
  {
    if Blocking(e) ==> Another(s.queue, s.cur) { var s' := Successor(s, e); }
    if s' :| Step(s, e, s') && Blocking(e) {
      assert Runnable(s'.queue[s'.cur]) && !Runnable(s'.queue[s.cur]);
      assert Runnable(s.queue[s'.cur]);
    }
  }

  lemma Successor(s: Sched, e: Event) returns (s': Sched)
    requires Inv(s) && Switching(e) && (Blocking(e) ==> Another(s.queue, s.cur))
    requires e.ReadChar? ==> s.live.a0 == 0 && s.live.a1 == 2
    requires e.Forfeit? ==> s.live.a0 == 1 && s.live.a1 == 0
    ensures Step(s, e, s')
  {
    var call := s.(live := Called(s.live));
    var b := match e
      case Forfeit => call
      case ReadChar => BlockOn(call.(awaiting := s.awaiting + [s.queue[s.cur].taskId]), CharIn)
      case BreakpointTrap => BlockOn(s, Breakpoint)
      case _ => s;
    var queue := b.queue[b.cur := b.queue[b.cur].(frame := b.live)];
    if Blocking(e) {
      var i :| 0 <= i < |s.queue| && i != s.cur && Runnable(s.queue[i]);
      assert Runnable(queue[i]);
    } else {
      assert Runnable(queue[s.cur]);
    }
    var next, k := NextExists(queue, b.cur);
    s' := Sched(queue, next, queue[next].frame, b.awaiting);
  }

  /** How many events of a run switch tasks. */
  function Switches(events: seq<Event>): (n: nat) {
    if events == [] then 0
    else (if Switching(events[0]) then 1 else 0) + Switches(events[1..])
  }

  /** How many tasks a run adds. */
  function Spawns(events: seq<Event>): (n: nat) {
    if events == [] then 0 else (if events[0].Spawn? then 1 else 0) + Spawns(events[1..])
  }

  /**
   * Fairness: a task that stays runnable runs before as many task switches as it is away from its turn, hence as
   * there are tasks, and one for every task spawned meanwhile. Other tasks may block and wake in between.
   */
  lemma {:induction false} Fair(states: seq<Sched>, events: seq<Event>, t: nat) returns (m: nat)
    requires Run(states, events) && Inv(states[0]) && t < |states[0].queue|
    requires forall i | 0 <= i < |states| :: t < |states[i].queue| && Runnable(states[i].queue[t])
    requires Switches(events) >= Distance(states[0].cur, t, |states[0].queue|) + Spawns(events)
    ensures 1 <= m < |states| && states[m].cur == t
    ensures Switches(events[..m]) <= Distance(states[0].cur, t, |states[0].queue|) + Spawns(events[..m])
    decreases |events|
  {
    var s, s' := states[0], states[1];
    StepSameTasks(s, events[0], s');
    StepKeeps(s, events[0], s');
    if Switching(events[0]) {
      var k :| IsNext(s'.queue, s.cur, s'.cur, k);
      Closer(s'.queue, s.cur, s'.cur, k, t);
    }
    if s'.cur == t && Switching(events[0]) {
      m := 1;
      assert events[..1] == [events[0]];
    } else {
      var rest := Fair(states[1..], events[1..], t);
      m := rest + 1;
      assert events[..m][1..] == events[1..][..rest];
    }
  }

  // Waiting for a character

  /** A task that has been woken, or was never blocked, keeps its saved registers until it runs. */
  lemma {:induction false} ResumesUnchanged(states: seq<Sched>, events: seq<Event>, t: nat)
    requires Run(states, events) && Inv(states[0]) && |events| > 0
    requires t < |states[0].queue| && Runnable(states[0].queue[t])
    requires forall i | 0 <= i < |events| :: states[i].cur != t
    requires states[|events|].cur == t
    ensures states[|events|].live == states[0].queue[t].frame
    decreases |events|
  {
    StepKeeps(states[0], events[0], states[1]);
    StepSameTasks(states[0], events[0], states[1]);
    assert states[1].queue[t].frame == states[0].queue[t].frame && Runnable(states[1].queue[t]);
    if |events| > 1 { ResumesUnchanged(states[1..], events[1..], t); }
  }

  /** A waiting task runs again only after an input, with its saved registers but for that character in `a0`. */
  lemma {:induction false} WakesOnInput(states: seq<Sched>, events: seq<Event>, t: nat) returns (w: nat)
    requires Run(states, events) && Inv(states[0]) && |events| > 0
    requires t < |states[0].queue| && states[0].queue[t].waiting == CharIn && FirstWithId(states[0].queue, t)
    requires forall i | 0 <= i < |events| :: states[i].cur != t
    requires states[|events|].cur == t
    ensures w < |events| && events[w].Input? && (forall i | 0 <= i < w :: !events[i].Input?)
    ensures states[|events|].live == states[0].queue[t].frame.(a0 := events[w].c)
    decreases |events|
  {
    hide Switched, FirstWithId;
    StepKeeps(states[0], events[0], states[1]);
    StepSameTasks(states[0], events[0], states[1]);
    if events[0].Input? {
      w := 0;
      InputWakes(states[0], events[0].c, states[1], t);
      ResumesUnchanged(states[1..], events[1..], t);
    } else {
      StillWaits(states[0], events[0], states[1], t);
      SameFirst(states[0].queue, states[1].queue, t);
      var rest := WakesOnInput(states[1..], events[1..], t);
      w := rest + 1;
    }
  }

  /**
   * A task that reads a character runs again only after an input; it then has the registers it had at the
   * call, `sepc` four bytes on, behind the call, and the first character that came in `a0`.
   */
  lemma {:induction false} ReadCharReturns(states: seq<Sched>, events: seq<Event>) returns (w: nat)
    requires Run(states, events) && Inv(states[0]) && |events| > 1 && events[0] == ReadChar
    requires FirstWithId(states[0].queue, states[0].cur)
    requires forall i | 1 <= i < |events| :: states[i].cur != states[0].cur
    requires states[|events|].cur == states[0].cur
    ensures 1 <= w < |events| && events[w].Input? && (forall i | 0 <= i < w :: !events[i].Input?)
    ensures var f := states[0].live;
      states[|events|].live == f.(sepc := (f.sepc + 4) % 0x1_0000_0000_0000_0000, a0 := events[w].c)
  {
    var t := states[0].cur;
    StepKeeps(states[0], events[0], states[1]);
    StepSameTasks(states[0], events[0], states[1]);
    SameFirst(states[0].queue, states[1].queue, t);
    assert states[1].queue[t].frame == Called(states[0].live) && states[1].queue[t].waiting == CharIn;
    var rest := WakesOnInput(states[1..], events[1..], t);
    w := rest + 1;
  }

  /**
   * An input wakes a waiting task if and only if no task before it has the same id, with the character in `a0`; no
   * other task changes, and the list is empty after it.
   */
  lemma InputWakes(s: Sched, c: nat, s': Sched, t: nat)
    requires Inv(s) && Step(s, Input(c), s') && t < |s.queue|
    ensures s'.awaiting == [] && |s'.queue| == |s.queue| && s'.cur == s.cur && s'.live == s.live
    ensures s.queue[t].waiting == CharIn ==> (Runnable(s'.queue[t]) <==> FirstWithId(s.queue, t))
    ensures s'.queue[t] == if s.queue[t].waiting == CharIn && FirstWithId(s.queue, t)
      then s.queue[t].(frame := s.queue[t].frame.(a0 := c), waiting := NotWaiting) else s.queue[t]
  {
    assert s.queue[t].waiting == CharIn && FirstWithId(s.queue, t) ==> Wakes(s.queue, s.awaiting, t);
  }

  /**
   * A spawned thread is a copy of its parent with its own thread id, behind all other tasks and ready to run. It finds
   * the two ids in `a0` and `a1`, the parent finds 0 in `a0`, and both go on behind the call.
   */
  lemma SpawnGives(s: Sched, thread: nat, s': Sched)
    requires Inv(s) && Step(s, Spawn(thread), s')
    ensures |s'.queue| == |s.queue| + 1 && s'.cur == s.cur && s'.awaiting == s.awaiting
    ensures var f, parent, child := s.live, s.queue[s.cur], s'.queue[|s.queue|];
      && child.frame.sepc == s'.live.sepc == (f.sepc + 4) % 0x1_0000_0000_0000_0000
      && child.frame.a0 == parent.taskId && child.frame.a1 == thread && child.frame.others == f.others
      && s'.live.a0 == 0 && s'.live.a1 == f.a1 && s'.live.others == f.others
      && child.taskId == parent.taskId && child.threadId == thread && child.table == parent.table && Runnable(child)
    ensures forall i | 0 <= i < |s.queue| && i != s.cur :: s'.queue[i] == s.queue[i]
    ensures s'.queue[s.cur].(frame := s.queue[s.cur].frame) == s.queue[s.cur]
  {
  }

  /** With distinct ids, no wakeup is lost: no task waits for a character once one has come. */
  lemma NoLostWakeup(s: Sched, c: nat, s': Sched)
    requires Inv(s) && Step(s, Input(c), s')
    requires forall i, j | 0 <= i < j < |s.queue| :: s.queue[i].taskId != s.queue[j].taskId
    ensures forall t | 0 <= t < |s'.queue| :: s'.queue[t].waiting != CharIn
  {
    forall t | 0 <= t < |s'.queue| ensures s'.queue[t].waiting != CharIn {
      if s.queue[t].waiting == CharIn { InputWakes(s, c, s', t); }
    }
  }

  lemma StillWaits(s: Sched, e: Event, s': Sched, t: nat)
    requires Inv(s) && Step(s, e, s')
    requires t < |s.queue| && s.queue[t].waiting == CharIn && (!e.Input? || !FirstWithId(s.queue, t))
    ensures t < |s'.queue| && s'.queue[t] == s.queue[t]
  {
  }

  /** A thread whose id an earlier task has is never woken in any run once it waits. */
  lemma {:induction false} SharedIdWaitsForever(states: seq<Sched>, events: seq<Event>, t: nat, m: nat)
    requires Run(states, events) && Inv(states[0]) && m < |states|
    requires t < |states[0].queue| && states[0].queue[t].waiting == CharIn && !FirstWithId(states[0].queue, t)
    ensures t < |states[m].queue| && states[m].queue[t] == states[0].queue[t]
    ensures states[m].cur != t
  {
    hide Step, FirstWithId;
    RunKeeps(states, events, m);
    if m > 0 {
      SharedIdWaitsForever(states, events, t, m - 1);
      RunKeeps(states, events, m - 1);
      SameFirst(states[0].queue, states[m - 1].queue, t);
      StillWaits(states[m - 1], events[m - 1], states[m], t);
    }
  }

  /** Such a thread is reachable: a task spawns a thread, and the thread reads a character. */
  lemma LostWakeupExample() returns (states: seq<Sched>, events: seq<Event>)
    ensures Run(states, events) && Inv(states[0]) && |states| == 6 && |states[0].queue| == 2
    ensures states[0].queue[0].taskId != states[0].queue[1].taskId
    ensures |states[5].queue| == 3 && states[5].queue[2].waiting == CharIn && !FirstWithId(states[5].queue, 2)
  {
    var spawning, reading := TrapFrame(0, 1, 2, []), TrapFrame(8, 0, 2, []);
    var parent, child := TrapFrame(4, 0, 2, []), TrapFrame(4, 1, 3, []);
    var idle := TrapFrame(100, 0, 0, []);
    var first := TaskData(spawning, 1, 0, NotWaiting, 0);
    var second := TaskData(idle, 2, 0, NotWaiting, 0);
    var spawned := first.(frame := parent.(a0 := 1));
    var thread := TaskData(child, 1, 0, NotWaiting, 3);
    var saved := first.(frame := parent);
    var blocked := thread.(frame := Called(reading), waiting := CharIn);
    var s0 := Sched([first, second], 0, spawning, []);
    var s1 := Sched([spawned, second, thread], 0, parent, []);
    var s2 := Sched([saved, second, thread], 1, idle, []);
    var s3 := Sched([saved, second, thread], 2, child, []);
    var s4 := s3.(live := reading);
    var s5 := Sched([saved, second, blocked], 0, parent, [1]);
    assert Spawned(s0.(live := Called(s0.live)), 3, s1);
    assert IsNext(s2.queue, 0, 1, 1);
    assert IsNext(s3.queue, 1, 2, 1);
    assert IsNext(s5.queue, 2, 0, 1);
    assert !FirstWithId(s5.queue, 2) by { assert s5.queue[0].taskId == s5.queue[2].taskId; }
    states, events := [s0, s1, s2, s3, s4, s5], [Spawn(3), Timer, Timer, UserStep(reading), ReadChar];
  }
}
