/** The task queue, the running task's registers and the list of readers, in place. */
module Tasks {
  import opened Numbers
  import opened TaskModel

  class TaskQueue {
    var queue: seq<TaskData>
    var cur: nat

    constructor ()
      ensures queue == [] && cur == 0
    {
      queue, cur := [], 0;
    }

    /** Without a runnable task the loop of the source does not end. */
    method Advance()
      requires cur < |queue| && SomeRunnable(queue)
      modifies this`cur
      ensures cur < |queue| && exists k :: IsNext(queue, old(cur), cur, k)
    {
      hide Around;
      ghost var start := cur;
      ghost var last, kLast := NextExists(queue, start);
      ghost var k := 0;
      Place(start, 0, |queue|);
      while true
        invariant 0 <= k < kLast && cur == Around(start, k, |queue|)
        invariant forall j | 1 <= j <= k :: !Runnable(queue[Around(start, j, |queue|)])
        decreases kLast - k
      {
        Place(start, k, |queue|);
        Place(start, k + 1, |queue|);
        cur := cur + 1;
        if cur == |queue| {
          cur := 0;
        }
        k := k + 1;
        if Runnable(queue[cur]) {
          assert IsNext(queue, start, cur, k);
          break;
        }
      }
    }

    method NewTask(t: TaskData)
      modifies this`queue
      ensures queue == old(queue) + [t]
    {
      queue := queue + [t];
    }

    /** The position of the first task with this id. */
    method FindTask(id: nat) returns (r: Option<nat>)
      ensures r.Some? ==> r.value < |queue| && queue[r.value].taskId == id && FirstWithId(queue, r.value)
      ensures r.None? ==> forall i | 0 <= i < |queue| :: queue[i].taskId != id
    {
      var i := 0;
      while i < |queue|
        invariant i <= |queue| && forall j | 0 <= j < i :: queue[j].taskId != id
      {
        if queue[i].taskId == id {
          return Some(i);
        }
        i := i + 1;
      }
      r := None;
    }
  }

  /** Handling one more listed id: the first task with it is woken if it still waits. */
  lemma OneMoreInput(queue: seq<TaskData>, ids: seq<nat>, id: nat, c: nat, i: nat)
    requires i < |queue| && queue[i].taskId == id && FirstWithId(queue, i)
    ensures AfterInput(queue, ids + [id], c) ==
            (var q := AfterInput(queue, ids, c); if q[i].waiting == CharIn then q[i := Woken(q[i], c)] else q)
  {
    forall j | 0 <= j < |queue|
      ensures Wakes(queue, ids + [id], j) <==> Wakes(queue, ids, j) || (j == i && queue[i].waiting == CharIn)
    {
    }
  }

  /** How the trap handler ends: it returns, panics or stays in its final loop. */
  datatype Outcome = Returned(event: Event) | Panicked | Halted | NotModelled

  /** What a trap is for; `c` is the character the UART has and `thread` the next free thread id. */
  function Dispatch(cause: nat, f: TrapFrame, c: nat, thread: nat): Outcome {
    match cause
    case 0x8000000000000005 => Returned(Timer)
    case 0x8000000000000009 => Returned(Input(c))
    case 3 => Returned(BreakpointTrap)
    case 8 => SystemCall(f, thread)
    case 15 => NotModelled
    case _ => Halted
  }

  function SystemCall(f: TrapFrame, thread: nat): Outcome {
    match (f.a0, f.a1)
    case (0, 1) => Returned(Print)
    case (0, 2) => Returned(ReadChar)
    case (1, 0) => Returned(Forfeit)
    case (1, 2) => Returned(Spawn(thread))
    case (1, k) => if k == 1 || k == 3 || k == 4 then NotModelled else Panicked
    case _ => Panicked
  }

  class Kernel {
    const tasks: TaskQueue
    var regs: TrapFrame
    var awaiting: seq<nat>

    ghost function State(): Sched
      reads this, tasks
    {
      Sched(tasks.queue, tasks.cur, regs, awaiting)
    }

    constructor (q: TaskQueue, f: TrapFrame)
      ensures tasks == q && State() == Sched(q.queue, q.cur, f, [])
    {
      tasks, regs, awaiting := q, f, [];
    }

    method UpdateCurrent()
      requires tasks.cur < |tasks.queue|
      modifies tasks`queue
      ensures tasks.queue == old(tasks.queue)[tasks.cur := old(tasks.queue[tasks.cur]).(frame := regs)]
    {
      tasks.queue := tasks.queue[tasks.cur := tasks.queue[tasks.cur].(frame := regs)];
    }

    method AdvanceTask()
      requires tasks.cur < |tasks.queue| && SomeRunnable(tasks.queue)
      modifies this`regs, tasks
      ensures Switched(old(State()), State())
    {
      ghost var i :| 0 <= i < |tasks.queue| && Runnable(tasks.queue[i]);
      UpdateCurrent();
      assert Runnable(tasks.queue[i]);
      tasks.Advance();
      regs := tasks.queue[tasks.cur].frame;
    }

    method Block(w: WaitSrc)
      requires tasks.cur < |tasks.queue| && Another(tasks.queue, tasks.cur)
      modifies tasks`queue
      ensures State() == BlockOn(old(State()), w) && SomeRunnable(tasks.queue)
    {
      ghost var i :| 0 <= i < |tasks.queue| && i != tasks.cur && Runnable(tasks.queue[i]);
      tasks.queue := tasks.queue[tasks.cur := tasks.queue[tasks.cur].(waiting := w)];
      assert Runnable(tasks.queue[i]);
    }

    /** An id on the list that no task has would be a panic. */
    method UartHandler(c: nat)
      requires forall id | id in awaiting :: exists i | 0 <= i < |tasks.queue| :: tasks.queue[i].taskId == id
      modifies this`awaiting, tasks`queue
      ensures old(tasks.cur < |tasks.queue|) ==> Step(old(State()), Input(c), State())
      ensures tasks.queue == AfterInput(old(tasks.queue), old(awaiting), c) && awaiting == []
    {
      ghost var q0 := tasks.queue;
      assert tasks.queue == AfterInput(q0, [], c);
      var n := 0;
      while n < |awaiting|
        invariant n <= |awaiting| && awaiting == old(awaiting)
        invariant tasks.queue == AfterInput(q0, awaiting[..n], c)
      {
        var id := awaiting[n];
        assert id in old(awaiting);
        ghost var j :| 0 <= j < |q0| && q0[j].taskId == id;
        assert tasks.queue[j].taskId == id;
        var found := tasks.FindTask(id);
        var i := found.value;
        assert forall j | 0 <= j < |q0| :: tasks.queue[j].taskId == q0[j].taskId;
        OneMoreInput(q0, awaiting[..n], id, c, i);
        assert awaiting[..n + 1] == awaiting[..n] + [id];
        if tasks.queue[i].waiting == CharIn {
          tasks.queue := tasks.queue[i := Woken(tasks.queue[i], c)];
        }
        n := n + 1;
      }
      assert awaiting[..n] == awaiting;
      awaiting := [];
    }

    method KernelIo() returns (r: Outcome)
      requires tasks.cur < |tasks.queue| && regs.a0 == 0 && (regs.a1 == 2 ==> Another(tasks.queue, tasks.cur))
      modifies this, tasks
      ensures r == SystemCall(old(regs), 0)
      ensures r == Returned(Print) ==> State() == old(State())
      ensures r == Returned(ReadChar) ==>
        var s := old(State());
        Switched(BlockOn(s.(awaiting := s.awaiting + [s.queue[s.cur].taskId]), CharIn), State())
    {
      match regs.a1
      case 1 => r := Returned(Print);
      case 2 =>
        awaiting := awaiting + [tasks.queue[tasks.cur].taskId];
        Block(CharIn);
        AdvanceTask();
        r := Returned(ReadChar);
      case _ => r := Panicked;
    }

    method KernelTask(thread: nat) returns (r: Outcome)
      requires tasks.cur < |tasks.queue| && Runnable(tasks.queue[tasks.cur]) && regs.a0 == 1
      modifies this, tasks
      ensures r == SystemCall(old(regs), thread)
      ensures r == Returned(Forfeit) ==> Switched(old(State()), State())
      ensures r == Returned(Spawn(thread)) ==> Spawned(old(State()), thread, State())
    {
      match regs.a1
      case 0 =>
        AdvanceTask();
        r := Returned(Forfeit);
      case 2 =>
        UpdateCurrent();
        var clone := tasks.queue[tasks.cur];
        regs := regs.(a0 := 0);
        clone := clone.(threadId := thread);
        clone := clone.(frame := clone.frame.(a0 := clone.taskId));
        clone := clone.(frame := clone.frame.(a1 := clone.threadId));
        tasks.NewTask(clone);
        r := Returned(Spawn(thread));
      case k =>
        if k == 1 || k == 3 || k == 4 { r := NotModelled; } else { r := Panicked; }
    }

    /** `sepc` is already past the call. */
    method SyscallCore(thread: nat) returns (r: Outcome)
      requires tasks.cur < |tasks.queue| && Runnable(tasks.queue[tasks.cur])
      requires regs.a0 == 0 && regs.a1 == 2 ==> Another(tasks.queue, tasks.cur)
      modifies this, tasks
      ensures r == SystemCall(old(regs), thread)
      ensures r.Returned? ==> forall f | Called(f) == old(regs) && f.a0 == old(regs.a0) && f.a1 == old(regs.a1) ::
        Step(old(State()).(live := f), r.event, State())
    {
      hide Switched, Spawned;
      if regs.a0 == 0 {
        r := KernelIo();
      } else if regs.a0 == 1 {
        r := KernelTask(thread);
      } else {
        r := Panicked;
      }
    }

    /**
     * One entry into the kernel makes the step its cause stands for. A task may only block while another one is
     * runnable; otherwise the handler does not return.
     */
    method TrapHandler(cause: nat, c: nat, thread: nat) returns (r: Outcome)
      requires Inv(State())
      requires cause == 3 || (cause == 8 && regs.a0 == 0 && regs.a1 == 2) ==> Another(tasks.queue, tasks.cur)
      modifies this, tasks
      ensures cause == 0x8000_0000_0000_0005 ==> r == Returned(Timer) && Step(old(State()), Timer, State())
      ensures cause == 0x8000_0000_0000_0009 ==> r == Returned(Input(c)) && Step(old(State()), Input(c), State())
      ensures cause == 3 ==> r == Returned(BreakpointTrap) && Step(old(State()), BreakpointTrap, State())
      ensures cause == 8 ==> var f := old(regs);
        && (f.a0 == 0 && f.a1 == 1 ==>
              && r == Returned(Print) && Step(old(State()), Print, State())
              && State() == old(State()).(live := f.(sepc := (f.sepc + 4) % 0x1_0000_0000_0000_0000)))
        && (f.a0 == 0 && f.a1 == 2 ==> r == Returned(ReadChar) && Step(old(State()), ReadChar, State()))
        && (f.a0 == 1 && f.a1 == 0 ==> r == Returned(Forfeit) && Step(old(State()), Forfeit, State()))
        && (f.a0 == 1 && f.a1 == 2 ==> r == Returned(Spawn(thread)) && Step(old(State()), Spawn(thread), State()))
        && (f.a0 > 1 || (f.a0 == 0 && f.a1 !in {1, 2}) || (f.a0 == 1 && f.a1 > 4) ==> r == Panicked)
      ensures cause !in {3, 8, 15, 0x8000_0000_0000_0005, 0x8000_0000_0000_0009} ==>
        r == Halted && State() == old(State())
      ensures r == Dispatch(cause, old(regs), c, thread)
      ensures r.Returned? ==> Step(old(State()), r.event, State()) && Inv(State())
    {
      hide Switched, Spawned, AfterInput;
      ghost var before := State();
      match cause {
        case 0x8000000000000005 =>
          AdvanceTask();
          r := Returned(Timer);
        case 0x8000000000000009 =>
          UartHandler(c);
          r := Returned(Input(c));
        case 3 =>
          Block(Breakpoint);
          AdvanceTask();
          r := Returned(BreakpointTrap);
        case 8 =>
          regs := regs.(sepc := (regs.sepc + 4) % REGISTER);
          r := SyscallCore(thread);
          assert before.live.a0 == Called(before.live).a0;
        case 15 => r := NotModelled;
        case _ => r := Halted;
      }
      if r.Returned? { StepKeeps(before, r.event, State()); }
    }
  }
}
