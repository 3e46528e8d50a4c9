/** Round robin over process numbers, and how long a ready process may have to wait. */
module SchedulerSpec {
  import opened Options
  import opened TwosComplement

  const TIME_SLICE: nat := 20

  /** The running process and what is left of its slice, and the ready and the terminated processes in order. */
  datatype Sched = Sched(current: Option<nat>, slice: nat, ready: seq<nat>, terminated: seq<nat>, nextPid: nat)

  /** Nothing is queued twice, nothing queued is running, and a running process has some of its slice left. */
  ghost predicate Valid(s: Sched) {
    && (forall i, j :: 0 <= i < j < |s.ready| ==> s.ready[i] != s.ready[j])
    && (forall i, j :: 0 <= i < j < |s.terminated| ==> s.terminated[i] != s.terminated[j])
    && (forall p :: p in s.ready ==> p !in s.terminated && s.current != Some(p) && p < s.nextPid)
    && (forall p :: p in s.terminated ==> s.current != Some(p) && p < s.nextPid)
    && (s.current.Some? ==> 0 < s.slice <= TIME_SLICE && s.current.value < s.nextPid)
  }

  /** Hands the processor to the head of the ready queue; the running process goes to its end. */
  function Switch(s: Sched): Sched
    requires s.current.Some?
  {
    if s.ready == [] then s.(slice := TIME_SLICE)
    else s.(current := Some(s.ready[0]), slice := TIME_SLICE, ready := s.ready[1..] + [s.current.value])
  }

  function Tick(s: Sched): Sched {
    if s.current.None? then s
    else if s.slice > 1 then s.(slice := s.slice - 1)
    else Switch(s)
  }

  function Yield(s: Sched): Sched {
    if s.current.None? then s else Switch(s)
  }

  function Create(s: Sched): Sched {
    s.(ready := s.ready + [s.nextPid], nextPid := s.nextPid + 1)
  }

  /** The running process ends. With no other ready it is queued as terminated and stays the current one, and
      the machine stops there. */
  function Exit(s: Sched): Sched {
    if s.current.None? then s
    else if s.ready == [] then s.(terminated := s.terminated + [s.current.value])
    else s.(current := Some(s.ready[0]), slice := TIME_SLICE, ready := s.ready[1..], terminated := s.terminated
      + [s.current.value])
  }

  function Start(s: Sched): Sched {
    if s.current.Some? || s.ready == [] then s
    else s.(current := Some(s.ready[0]), slice := TIME_SLICE, ready := s.ready[1..])
  }

  datatype Event = Timer | GiveUp | Spawn | Finish

  function Step(s: Sched, e: Event): Sched {
    match e
    case Timer => Tick(s)
    case GiveUp => Yield(s)
    case Spawn => Create(s)
    case Finish => Exit(s)
  }

  /** The last process ends. */
  predicate LastExit(s: Sched, e: Event) {
    e == Finish && s.current.Some? && s.ready == []
  }

  lemma ExitValid(s: Sched)
    requires Valid(s) && s.current.Some?
    ensures Valid(Exit(s)) <==> s.ready != []
  {
    if s.ready == [] {
      assert Exit(s).terminated[|s.terminated|] == s.current.value;
    } else {
      var r := Exit(s);
      forall p | p in r.terminated ensures r.current != Some(p) && p < r.nextPid {
        assert p in s.terminated || p == s.current.value;
      }
      forall p | p in r.ready ensures p !in r.terminated && r.current != Some(p) && p < r.nextPid {
        assert p in s.ready;
      }
    }
  }

  lemma CreateValid(s: Sched)
    requires Valid(s)
    ensures Valid(Create(s))
  {
    var r := Create(s);
    forall p | p in r.ready ensures p !in r.terminated && r.current != Some(p) && p < r.nextPid {
      assert p in s.ready || p == s.nextPid;
    }
    assert forall i :: 0 <= i < |s.ready| ==> s.ready[i] in s.ready && r.ready[i] == s.ready[i];
  }

  lemma StartValid(s: Sched)
    requires Valid(s)
    ensures Valid(Start(s))
  {
    if s.current.None? && s.ready != [] {
      var r := Start(s);
      forall p | p in r.ready ensures p !in r.terminated && r.current != Some(p) && p < r.nextPid {
        assert p in s.ready;
      }
    }
  }

  /** Every event keeps the queues in order, except the end of the last process. */
  lemma StepValid(s: Sched, e: Event)
    requires Valid(s)
    ensures Valid(Step(s, e)) <==> !LastExit(s, e)
  {
    if s.current.Some? {
      ExitValid(s);
    }
    CreateValid(s);
    hide Switch, Exit, Create;
  }

  // ----- nothing is lost -----

  /** All processes there are, wherever they are. */
  function Everyone(s: Sched): multiset<nat> {
    multiset(s.ready) + multiset(s.terminated) + (if s.current.Some? then multiset{s.current.value} else multiset{})
  }

  lemma Head(q: seq<nat>)
    requires q != []
    ensures multiset(q) == multiset{q[0]} + multiset(q[1..])
  {
    assert q == [q[0]] + q[1..];
  }

  lemma SwitchKeeps(s: Sched)
    requires s.current.Some?
    ensures Everyone(Switch(s)) == Everyone(s)
  {
    if s.ready != [] {
      Head(s.ready);
      var tail, h, c, t := multiset(s.ready[1..]), multiset{s.ready[0]}, multiset{s.current.value},
        multiset(s.terminated);
      assert Everyone(s) == (h + tail) + t + c;
      assert Everyone(Switch(s)) == (tail + c) + t + h;
      assert (h + tail) + t + c == (tail + c) + t + h;
    }
  }

  lemma ExitKeeps(s: Sched)
    ensures Everyone(Exit(s)) == Everyone(s) + Twice(s, Finish)
  {
    if s.ready != [] && s.current.Some? {
      Head(s.ready);
      var tail, h, c, t := multiset(s.ready[1..]), multiset{s.ready[0]}, multiset{s.current.value},
        multiset(s.terminated);
      assert Everyone(s) == (h + tail) + t + c;
      assert Everyone(Exit(s)) == tail + (t + c) + h;
      assert (h + tail) + t + c == tail + (t + c) + h;
    }
  }

  lemma CreateAdds(s: Sched)
    ensures Everyone(Create(s)) == Everyone(s) + multiset{s.nextPid}
  {
  }

  /** The last process to end is both current and queued. */
  function Twice(s: Sched, e: Event): multiset<nat> {
    if LastExit(s, e) then multiset{s.current.value} else multiset{}
  }

  /** No event loses a process, only creation adds one, and only the last one to end is there twice. */
  lemma NobodyIsLost(s: Sched, e: Event)
    ensures Everyone(Step(s, e))
      == Everyone(s) + (if e == Spawn then multiset{s.nextPid} else multiset{}) + Twice(s, e)
  {
    hide Switch, Exit, Create, Everyone;
    if s.current.Some? {
      SwitchKeeps(s);
    }
    ExitKeeps(s);
    CreateAdds(s);
    SliceIsNobody(s);
  }

  lemma SliceIsNobody(s: Sched)
    ensures forall n :: Everyone(s.(slice := n)) == Everyone(s)
  {
  }

  // ----- nobody waits for ever -----

  /** At most this many ticks pass before the process at position k runs. */
  function Wait(s: Sched, k: nat): nat {
    s.slice + TIME_SLICE * k
  }

  function Run(s: Sched, es: seq<Event>): Sched
    decreases |es|
  {
    if es == [] then s else Run(Step(s, es[0]), es[1..])
  }

  function Ticks(es: seq<Event>): nat {
    if es == [] then 0 else (if es[0] == Timer then 1 else 0) + Ticks(es[1..])
  }

  /** The process has been given the processor at some point of the run. */
  ghost predicate HasRun(s: Sched, es: seq<Event>, p: nat) {
    exists n :: 0 <= n <= |es| && Run(s, es[..n]).current == Some(p)
  }

  lemma HasRunLater(s: Sched, es: seq<Event>, p: nat)
    requires es != [] && HasRun(Step(s, es[0]), es[1..], p)
    ensures HasRun(s, es, p)
  {
    var n :| 0 <= n <= |es| - 1 && Run(Step(s, es[0]), es[1..][..n]).current == Some(p);
    assert es[..n + 1][0] == es[0] && es[..n + 1][1..] == es[1..][..n];
    assert Run(s, es[..n + 1]).current == Some(p);
  }

  /** After one event the process runs, or it is still ready and waits no longer than before, less a tick. */
  lemma WaitShrinks(s: Sched, e: Event, k: nat)
    requires Valid(s) && s.current.Some? && k < |s.ready|
    ensures var r := Step(s, e); var p := s.ready[k];
      || r.current == Some(p)
      || (r.current.Some? && exists j ::
        0 <= j < |r.ready| && r.ready[j] == p && Wait(r, j) <= Wait(s, k) - (if e == Timer then 1 else 0))
  {
    var r, p := Step(s, e), s.ready[k];
    if r.current != Some(p) {
      var j := if r.current == s.current then k else k - 1;
      assert r.ready[j] == p;
      assert Wait(r, j) <= Wait(s, k) - (if e == Timer then 1 else 0);
    }
  }

  /** Whatever else happens, a ready process at position k has run once the current slice and 20 * k more ticks
      have passed. */
  lemma {:induction false} RunsInTime(s: Sched, es: seq<Event>, k: nat)
    requires Valid(s) && s.current.Some? && k < |s.ready| && Ticks(es) >= s.slice + 20 * k
    ensures HasRun(s, es, s.ready[k])
    decreases |es|
  {
    var p := s.ready[k];
    var r := Step(s, es[0]);
    StepValid(s, es[0]);
    WaitShrinks(s, es[0], k);
    if r.current == Some(p) {
      assert es[..1][1..] == [] && Run(s, es[..1]).current == Some(p);
    } else {
      var j :| 0 <= j < |r.ready| && r.ready[j] == p && Wait(r, j) <= Wait(s, k) - (if es[0] == Timer then 1 else 0);
      RunsInTime(r, es[1..], j);
      HasRunLater(s, es, p);
    }
  }

  // ----- whose turn it is -----

  /** That many timer ticks and nothing else. */
  function Timers(n: nat): (es: seq<Event>)
    ensures |es| == n
  {
    if n == 0 then [] else Timers(n - 1) + [Timer]
  }

  lemma {:induction false} RunLast(s: Sched, es: seq<Event>, e: Event)
    ensures Run(s, es + [e]) == Step(Run(s, es), e)
    decreases |es|
  {
    hide Step;
    if es == [] {
      assert [e][1..] == [];
    } else {
      assert (es + [e])[1..] == es[1..] + [e];
      RunLast(Step(s, es[0]), es[1..], e);
    }
  }

  /** The running process and the ready ones, as they stand in the round: process j is running. */
  function InTurn(s: Sched, round: seq<nat>, j: nat, used: nat): Sched
    requires j < |round| && used < 20
  {
    s.(current := Some(round[j]), slice := 20 - used, ready := round[j + 1..] + round[..j])
  }

  lemma NextTurn(s: Sched, round: seq<nat>, j: nat, used: nat)
    requires j < |round| && used < 20
    ensures Tick(InTurn(s, round, j, used))
      == if used < 19 then InTurn(s, round, j, used + 1) else InTurn(s, round, if j + 1 == |round| then 0 else j + 1, 0)
  {
    if used == 19 && j + 1 < |round| {
      assert (round[j + 1..] + round[..j])[1..] + [round[j]] == round[j + 2..] + round[..j + 1];
    } else if used == 19 && j > 0 {
      assert (round[j + 1..] + round[..j])[1..] + [round[j]] == round[1..];
    }
  }

  lemma TurnOf(m: nat, n: nat)
    requires n > 0
    ensures m / 20 % n < n && m % 20 < 20
    ensures m % 20 < 19 ==> (m + 1) / 20 == m / 20 && (m + 1) % 20 == m % 20 + 1
    ensures m % 20 == 19 ==>
              (m + 1) % 20 == 0 && (m + 1) / 20 % n == if m / 20 % n + 1 == n then 0 else m / 20 % n + 1
  {
    if m % 20 == 19 {
      assert (m + 1) / 20 == m / 20 + 1;
      var q, r := m / 20 / n, m / 20 % n;
      assert m / 20 == n * q + r;
      if r + 1 == n {
        assert m / 20 + 1 == n * (q + 1) + 0;
        DivModUnique(m / 20 + 1, n, q + 1, 0);
      } else {
        assert m / 20 + 1 == n * q + (r + 1);
        DivModUnique(m / 20 + 1, n, q, r + 1);
      }
    }
  }

  /** With timer ticks only, the processes run in turn, 20 ticks each, and after a whole round everything is as at its
      start. */
  lemma {:induction false} RoundRobin(s: Sched, n: nat)
    requires s.current.Some? && s.slice == 20
    ensures var round := [s.current.value] + s.ready;
      n % 20 < 20 && n / 20 % |round| < |round| && Run(s, Timers(n)) == InTurn(s, round, n / 20 % |round|, n % 20)
    ensures n == 20 * (|s.ready| + 1) ==> Run(s, Timers(n)) == s
  {
    hide Step, InTurn;
    var round := [s.current.value] + s.ready;
    FirstTurn(s, round);
    if n > 0 {
      RoundRobin(s, n - 1);
      RunLast(s, Timers(n - 1), Timer);
      TurnOf(n - 1, |round|);
      NextTurn(s, round, (n - 1) / 20 % |round|, (n - 1) % 20);
      TimerStep(Run(s, Timers(n - 1)));
    }
    if n == 20 * |round| {
      DivModUnique(n, 20, |round|, 0);
      DivModUnique(|round|, |round|, 1, 0);
    }
  }

  lemma FirstTurn(s: Sched, round: seq<nat>)
    requires s.current.Some? && s.slice == 20 && round == [s.current.value] + s.ready
    ensures InTurn(s, round, 0, 0) == s && Run(s, Timers(0)) == s
    ensures 0 / 20 % |round| == 0
  {
    assert round[1..] + round[..0] == s.ready;
  }

  lemma TimerStep(s: Sched)
    ensures Step(s, Timer) == Tick(s)
  {
  }

  /** The other events: giving up hands over to the next and queues the running process last; a new process is queued
      last; a process that ends is replaced by the next. */
  lemma HandsOver(s: Sched, running: nat, next: nat, others: seq<nat>)
    requires s.current == Some(running) && s.ready == [next] + others
    ensures Step(s, GiveUp) == s.(current := Some(next), slice := 20, ready := others + [running])
    ensures Step(s, Spawn) == s.(ready := [next] + others + [s.nextPid], nextPid := s.nextPid + 1)
    ensures Step(s, Finish)
      == s.(current := Some(next), slice := 20, ready := others, terminated := s.terminated + [running])
  {
  }
}
