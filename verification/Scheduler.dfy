/** Process control blocks on intrusive doubly linked queues, and the scheduler that moves them. */
module Scheduler {
  import opened Options
  import opened SchedulerSpec

  datatype ProcessState = Ready | Running | Terminated

  class PCB {
    /** The order of creation, which tells the blocks apart. The kernel keeps it in one byte, so the numbers
        it prints repeat after 256 processes; nothing else looks at them. */
    const pid: nat
    var state: ProcessState
    var timeSlice: nat
    var next: PCB?
    var prev: PCB?

    constructor (pid: nat)
      ensures this.pid == pid && state == Ready && timeSlice == TIME_SLICE && next == null && prev == null
    {
      this.pid := pid;
      state, timeSlice, next, prev := Ready, TIME_SLICE, null, null;
    }
  }

  class ProcessQueue {
    var head: PCB?
    var tail: PCB?
    var size: nat
    /** The queue, first to last. */
    ghost var contents: seq<PCB>

    /** Block i of the queue points at its neighbours. */
    static ghost predicate LinkAt(q: seq<PCB>, i: nat)
      requires i < |q|
      reads q
    {
      q[i].next == (if i + 1 < |q| then q[i + 1] else null) && q[i].prev == (if i > 0 then q[i - 1] else null)
    }

    ghost predicate Valid()
      reads this, contents
    {
      && size == |contents|
      && head == (if contents == [] then null else contents[0])
      && tail == (if contents == [] then null else contents[|contents| - 1])
      && (forall i, j :: 0 <= i < j < |contents| ==> contents[i] != contents[j])
      && (forall i :: 0 <= i < |contents| ==> LinkAt(contents, i))
    }

    /** The states and slices of these blocks are as they were. */
    static twostate predicate SameBodies(q: seq<PCB>)
      reads q
    {
      forall p :: p in q ==> p.state == old(p.state) && p.timeSlice == old(p.timeSlice)
    }

    constructor ()
      ensures Valid() && contents == []
    {
      head, tail, size, contents := null, null, 0, [];
    }

    /** Appends a process that is not in the queue. */
    method Push(p: PCB)
      requires Valid() && p !in contents
      modifies this, p, tail
      ensures Valid() && contents == old(contents) + [p] && SameBodies(old(contents) + [p])
    {
      ghost var q := contents;
      assert size > 0 ==> LinkAt(q, |q| - 1);
      if size == 0 {
        head := p;
        tail := p;
        p.prev := null;
      } else {
        p.prev := tail;
        tail.next := p;
        tail := p;
      }
      p.next := null;
      size := size + 1;
      contents := contents + [p];
      forall i | 0 <= i < |contents| ensures LinkAt(contents, i) {
        if i < |q| {
          assert old(LinkAt(q, i));
          assert contents[i] == q[i];
        }
      }
    }

    /** Takes the first process; null when there is none. */
    method Pop() returns (p: PCB?)
      requires Valid()
      modifies this, contents
      ensures Valid() && SameBodies(old(contents))
      ensures if old(contents) == [] then p == null && contents == []
              else p == old(contents)[0] && contents == old(contents)[1..] && p.next == null && p.prev == null
    {
      if size == 0 {
        return null;
      }
      ghost var q := contents;
      p := head;
      assert LinkAt(q, 0);
      if p.next == null {
        head := null;
        tail := null;
      } else {
        head := p.next;
        head.prev := null;
      }
      p.next := null;
      p.prev := null;
      size := size - 1;
      contents := contents[1..];
      forall i | 0 <= i < |contents| ensures LinkAt(contents, i) {
        assert old(LinkAt(q, i + 1));
        assert contents[i] == q[i + 1];
      }
    }

    /** Takes a process out of the middle. */
    method RemoveProcess(p: PCB, ghost k: nat)
      requires Valid() && k < |contents| && contents[k] == p
      modifies this, contents
      ensures Valid() && contents == old(contents)[..k] + old(contents)[k + 1..]
      ensures p.next == null && p.prev == null && SameBodies(old(contents))
    {
      ghost var q := contents;
      assert LinkAt(q, k);
      if p.prev != null {
        p.prev.next := p.next;
      } else {
        head := p.next;
      }
      if p.next != null {
        p.next.prev := p.prev;
      } else {
        tail := p.prev;
      }
      p.next := null;
      p.prev := null;
      size := size - 1;
      contents := contents[..k] + contents[k + 1..];
      forall i | 0 <= i < |contents| ensures LinkAt(contents, i) {
        var j := if i < k then i else i + 1;
        assert old(LinkAt(q, j)) && old(LinkAt(q, k));
        assert contents[i] == q[j] && q[j] != q[k];
        assert q[j].next == if j + 1 == k then old(q[k].next) else old(q[j].next);
        assert q[j].prev == if j == k + 1 then old(q[k].prev) else old(q[j].prev);
      }
    }
  }

  class System {
    const ready: ProcessQueue
    const terminated: ProcessQueue
    var current: PCB?
    var nextPid: nat

    static ghost function Pids(q: seq<PCB>): (s: seq<nat>)
      ensures |s| == |q| && forall i :: 0 <= i < |q| ==> s[i] == q[i].pid
    {
      if q == [] then [] else Pids(q[..|q| - 1]) + [q[|q| - 1].pid]
    }

    ghost function S(): Sched
      reads this, ready, terminated, current
    {
      Sched(if current == null then None else Some(current.pid), if current == null then 0 else current.timeSlice,
            Pids(ready.contents), Pids(terminated.contents), nextPid)
    }

    /** Every block is on at most one queue, its state says on which, and every ready process has a full slice. */
    ghost predicate Queued()
      reads this, ready, terminated, ready.contents, terminated.contents
    {
      && ready != terminated && ready.Valid() && terminated.Valid()
      && (forall p :: p in ready.contents ==>
        p !in terminated.contents && p.state == Ready && p.timeSlice == TIME_SLICE && p.pid < nextPid)
      && (forall p :: p in terminated.contents ==> p.state == Terminated && p.pid < nextPid)
    }

    /** The running process is on no queue and has some of its slice left. */
    ghost predicate Valid()
      reads this, ready, terminated, current, ready.contents, terminated.contents
    {
      && Queued()
      && (current != null ==>
            current !in ready.contents && current !in terminated.contents
            && current.state == Running && 0 < current.timeSlice <= TIME_SLICE && current.pid < nextPid)
    }

    constructor ()
      ensures Valid() && fresh(ready) && fresh(terminated) && S() == Sched(None, 0, [], [], 1)
    {
      ready := new ProcessQueue();
      terminated := new ProcessQueue();
      current, nextPid := null, 1;
    }

    /** What may be put on the ready queue. */
    ghost predicate Startable(p: PCB)
      reads this, ready, terminated, p
    {
      p !in ready.contents && p !in terminated.contents && p.state == Ready && p.timeSlice == TIME_SLICE
        && p.pid < nextPid
    }

    method PopReady() returns (p: PCB?)
      requires Queued()
      modifies ready, ready.contents
      ensures Queued() && terminated.contents == old(terminated.contents)
      ensures old(ready.contents) == [] ==> p == null && ready.contents == []
      ensures old(ready.contents) != [] ==>
        p == old(ready.contents[0]) && ready.contents == old(ready.contents)[1..] && Startable(p)
    {
      hide ProcessQueue.Valid;
      ghost var q, others := ready.contents, terminated.contents;
      assert forall i :: 0 <= i < |others| ==> others[i] in others && others[i] !in q;
      if q != [] {
        Distinct(ready);
      }
      label before:
      p := ready.Pop();
      assert forall i :: 0 <= i < |others| ==> unchanged@before(others[i]);
      assert terminated.contents == others;
      assert terminated.Valid();
      assert forall x :: x in ready.contents ==> x in q;
    }

    static lemma Distinct(q: ProcessQueue)
      requires q.Valid() && q.contents != []
      ensures q.contents[0] !in q.contents[1..]
    {
    }

    method PushReady(p: PCB)
      requires Queued() && Startable(p)
      modifies ready, p, ready.tail
      ensures Queued() && terminated.contents == old(terminated.contents) && ready.contents == old(ready.contents) + [p]
    {
      hide ProcessQueue.LinkAt;
      ghost var q := ready.contents;
      assert ready.tail != null ==> ready.tail in q;
      ready.Push(p);
      assert forall x :: x in q ==> x in q + [p];
      assert p in q + [p];
    }

    /** Makes a process and queues it. */
    method CreateProcess() returns (p: PCB)
      requires Valid()
      modifies this`nextPid, ready, ready.tail
      ensures Valid() && fresh(p) && S() == Create(old(S()))
    {
      hide ProcessQueue.LinkAt;
      p := new PCB(nextPid);
      nextPid := nextPid + 1;
      assert ready.tail != null ==> ready.tail in ready.contents;
      PushReady(p);
    }

    /** Gives the processor to the first ready process. A running one is queued again; one that has ended is not.
        With nobody ready nothing changes. */
    method Schedule()
      requires Queued() && current != null && current !in ready.contents
      requires current.state == Running ==>
        current !in terminated.contents && current.timeSlice == TIME_SLICE && current.pid < nextPid
      modifies this`current, ready, current, ready.contents
      ensures Queued() && terminated.contents == old(terminated.contents)
      ensures old(ready.contents) == [] ==>
        current == old(current) && ready.contents == [] && current.state == old(current.state)
        && current.timeSlice == old(current.timeSlice)
      ensures old(ready.contents) != [] ==> Switched(old(ready.contents), old(current), old(current.state) == Running)
    {
      hide ProcessQueue.Valid;
      var previous := current;
      ghost var wasRunning := current.state == Running;
      var next := PopReady();
      if next == null {
        return;
      }
      if previous.state == Running {
        previous.state := Ready;
        TailInside(ready);
        Requeue(previous, next);
      }
      Dispatch(next);
    }

    static lemma TailInside(q: ProcessQueue)
      requires q.Valid()
      ensures q.tail != null ==> q.tail in q.contents
    {
    }

    /** Queues the process that has lost the processor; the next one is off the queue. */
    method Requeue(p: PCB, ghost next: PCB)
      requires Queued() && Startable(p) && Startable(next) && p != next
      modifies ready, p, ready.tail
      ensures Queued() && terminated.contents == old(terminated.contents) && ready.contents == old(ready.contents) + [p]
      ensures Startable(next)
    {
      hide ProcessQueue.LinkAt;
      assert ready.tail != null ==> ready.tail in ready.contents;
      PushReady(p);
    }

    method Dispatch(next: PCB)
      requires Queued() && Startable(next)
      modifies this`current, next`state
      ensures Queued() && terminated.contents == old(terminated.contents) && ready.contents == old(ready.contents)
      ensures current == next && next.state == Running && next.timeSlice == TIME_SLICE && next.pid < nextPid
      ensures next !in ready.contents && next !in terminated.contents
    {
      hide ProcessQueue.Valid;
      current := next;
      next.state := Running;
    }

    /** The head of q runs now; the previous process went to the end of the queue if it was still running. */
    ghost predicate Switched(q: seq<PCB>, previous: PCB, requeued: bool)
      requires q != []
      reads this, ready, terminated, current
    {
      && current == q[0] && current.state == Running && current.timeSlice == TIME_SLICE && current.pid < nextPid
      && current !in ready.contents && current !in terminated.contents
      && ready.contents == q[1..] + (if requeued then [previous] else [])
    }

    /** One tick of the timer. */
    method Tick()
      requires Valid()
      modifies this`current, ready, current, ready.contents
      ensures Valid() && S() == SchedulerSpec.Tick(old(S()))
    {
      hide ProcessQueue.Valid;
      if current == null {
        return;
      }
      if current.timeSlice > 0 {
        current.timeSlice := current.timeSlice - 1;
      }
      if current.timeSlice <= 0 {
        Rotate();
      }
    }

    /** Resets the slice and calls the scheduler. */
    method Rotate()
      requires Queued() && current != null && current !in ready.contents && current !in terminated.contents
      requires current.state == Running && current.pid < nextPid
      modifies this`current, ready, current, ready.contents
      ensures Valid() && S() == Switch(old(S()))
    {
      hide ProcessQueue.Valid, Pids;
      ghost var q, previous := ready.contents, current;
      current.timeSlice := TIME_SLICE;
      Schedule();
      if q != [] {
        assert Pids(ready.contents) == Pids(q)[1..] + [previous.pid];
      }
    }

    method Yield()
      requires Valid()
      modifies this`current, ready, current, ready.contents
      ensures Valid() && S() == SchedulerSpec.Yield(old(S()))
    {
      hide ProcessQueue.Valid;
      if current == null {
        return;
      }
      Rotate();
    }

    /** The running process ends. Returns false when no other is ready: it is on the terminated queue and yet
        still the current one, and the machine stops there. */
    method ExitProcess() returns (goesOn: bool)
      requires Valid() && current != null
      modifies this`current, ready, current, ready.contents, terminated, terminated.tail
      ensures S() == Exit(old(S())) && (goesOn <==> old(ready.contents) != [])
      ensures if goesOn then Valid() else Queued() && current == old(current) && current.state == Terminated
    {
      hide ProcessQueue.Valid;
      ghost var before := S();
      goesOn := !IsEmpty(ready);
      Retire();
      Schedule();
    }

    static predicate IsEmpty(q: ProcessQueue)
      requires q.Valid()
      reads q, q.contents
      ensures IsEmpty(q) <==> q.contents == []
    {
      q.size == 0
    }

    /** Marks the running process as ended and puts it on the terminated queue. */
    method Retire()
      requires Valid() && current != null
      modifies current, terminated, terminated.tail
      ensures Queued() && ready.contents == old(ready.contents)
        && terminated.contents == old(terminated.contents) + [current]
      ensures current !in ready.contents && current.state == Terminated && current.timeSlice == old(current.timeSlice)
    {
      hide ProcessQueue.LinkAt;
      ghost var q := terminated.contents;
      assert terminated.tail != null ==> terminated.tail in q;
      current.state := Terminated;
      terminated.Push(current);
      assert current in q + [current];
      assert forall x :: x in q ==> x in q + [current];
    }

    /** The first process to run. */
    method LoadFirstProcess()
      requires Valid() && current == null
      modifies this`current, ready, ready.contents
      ensures Valid() && S() == Start(old(S()))
      ensures SchedulerSpec.Valid(old(S())) ==> SchedulerSpec.Valid(S())
    {
      hide ProcessQueue.Valid, SchedulerSpec.Valid;
      if SchedulerSpec.Valid(S()) {
        StartValid(S());
      }
      var first := PopReady();
      if first == null {
        return;
      }
      Dispatch(first);
    }

    /** Each event is the step of the same name, so what is proved of runs of steps holds of this system. The
        last process may not end: the machine stops there. */
    method Serve(e: Event)
      requires Valid() && SchedulerSpec.Valid(S())
      requires e == Finish ==> current != null && ready.contents != []
      modifies this, ready, terminated, current, ready.contents, terminated.contents
      ensures Valid() && SchedulerSpec.Valid(S()) && S() == Step(old(S()), e)
    {
      hide ProcessQueue.Valid, SchedulerSpec.Valid, SchedulerSpec.Tick, SchedulerSpec.Yield, Create, Exit;
      StepValid(S(), e);
      TailInside(ready);
      TailInside(terminated);
      match e {
        case Timer => Tick();
        case GiveUp => Yield();
        case Spawn => var p := CreateProcess();
        case Finish => var goesOn := ExitProcess();
      }
    }
  }
}
