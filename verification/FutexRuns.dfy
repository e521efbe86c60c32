/**
  Every interleaving of tasks calling `wait` and `wake` in `src/futex.rs`. A step is one
  lock-held region, one read of the clock, one store to a futex word or one tick. A run is a
  sequence of steps; a step that is not enabled changes nothing, so all sequences are runs.
*/
module FutexRuns {
  import opened Wrappers
  import opened Futex

  /** Where a task stands inside `wait`, or what its last call returned. */
  datatype Phase =
    | Idle
    | Parked                  // on the queue, start tick not read yet
    | Polling(start: nat)     // about to look at the queue
    | Checking(start: nat)    // found itself queued, about to compare the clock
    | Expiring                // past the timeout, about to take the lock and leave
    | Returned(result: Result<(), Error>)

  /** The arguments of the call in progress; `since` is the position of its push in the log, `began` the tick. */
  datatype Task = Task(phase: Phase, addr: nat, expected: int, timeout: nat, since: nat, began: nat)

  /** What happened to the queue of an address. */
  datatype Event = Pushed(addr: nat, pid: nat) | Drained(addr: nat, pids: seq<nat>) | Expired(addr: nat, pids: seq<nat>)

  datatype State =
    State(words: map<nat, int>, queues: map<nat, seq<nat>>, tasks: seq<Task>, clock: nat, log: seq<Event>)

  datatype Step =
    | Enter(task: nat, addr: nat, expected: int, timeout: nat)
    | ReadClock(task: nat)
    | Poll(task: nat)
    | Check(task: nat)
    | Expire(task: nat)
    | WakeCall(addr: nat, nr: nat)
    | StoreWord(addr: nat, value: int)
    | Tick(ticks: nat)

  predicate Blocked(t: Task) { t.phase.Parked? || t.phase.Polling? || t.phase.Checking? || t.phase.Expiring? }

  function Word(s: State, addr: nat): int { if addr in s.words then s.words[addr] else 0 }

  function Initial(words: map<nat, int>, n: nat): State {
    State(words, map[], seq(n, i => Task(Idle, 0, 0, 0, 0, 0)), 0, [])
  }

  function SetPhase(s: State, t: nat, phase: Phase): State
    requires t < |s.tasks|
  {
    s.(tasks := s.tasks[t := s.tasks[t].(phase := phase)])
  }

  function EnterStep(pids: seq<nat>, s: State, t: nat, addr: nat, expected: int, timeout: nat): State
    requires t < |pids| == |s.tasks|
  {
    var refusal := Refusal(addr, Word(s, addr), expected);
    if refusal.Some? then
      s.(tasks := s.tasks[t := Task(Returned(Err(refusal.value)), addr, expected, timeout, |s.log|, s.clock)])
    else s.(queues := Park(s.queues, addr, pids[t]),
            tasks := s.tasks[t := Task(Parked, addr, expected, timeout, |s.log|, s.clock)],
            log := s.log + [Pushed(addr, pids[t])])
  }

  function PollStep(pids: seq<nat>, s: State, t: nat): State
    requires t < |pids| == |s.tasks| && s.tasks[t].phase.Polling?
  {
    if pids[t] !in Waiters(s.queues, s.tasks[t].addr) then SetPhase(s, t, Returned(Ok(())))
    else if s.tasks[t].timeout > 0 then SetPhase(s, t, Checking(s.tasks[t].phase.start))
    else s
  }

  function CheckStep(s: State, t: nat): State
    requires t < |s.tasks| && s.tasks[t].phase.Checking?
  {
    var start := s.tasks[t].phase.start;
    var elapsed := if s.clock >= start then s.clock - start else 0;
    SetPhase(s, t, if elapsed >= s.tasks[t].timeout then Expiring else Polling(start))
  }

  function Occurrences(q: seq<nat>, pid: nat): seq<nat> { seq(multiset(q)[pid], i => pid) }

  function ExpireStep(pids: seq<nat>, s: State, t: nat): State
    requires t < |pids| == |s.tasks|
  {
    var addr := s.tasks[t].addr;
    SetPhase(s, t, Returned(Err(TimedOut)))
      .(queues := Forget(s.queues, addr, pids[t]),
        log := s.log + [Expired(addr, Occurrences(Waiters(s.queues, addr), pids[t]))])
  }

  function WakeStep(s: State, addr: nat, nr: nat): State {
    s.(queues := Wake(s.queues, addr, nr), log := s.log + [Drained(addr, Released(s.queues, addr, nr))])
  }

  function Next(pids: seq<nat>, s: State, step: Step): (r: State)
    requires |s.tasks| == |pids|
    ensures |r.tasks| == |pids|
  {
    match step
    case WakeCall(addr, nr) => WakeStep(s, addr, nr)
    case StoreWord(addr, value) => s.(words := s.words[addr := value])
    case Tick(ticks) => s.(clock := s.clock + ticks)
    case Enter(t, addr, expected, timeout) =>
      if t < |pids| && !Blocked(s.tasks[t]) then EnterStep(pids, s, t, addr, expected, timeout) else s
    case ReadClock(t) => if t < |pids| && s.tasks[t].phase.Parked? then SetPhase(s, t, Polling(s.clock)) else s
    case Poll(t) => if t < |pids| && s.tasks[t].phase.Polling? then PollStep(pids, s, t) else s
    case Check(t) => if t < |pids| && s.tasks[t].phase.Checking? then CheckStep(s, t) else s
    case Expire(t) => if t < |pids| && s.tasks[t].phase.Expiring? then ExpireStep(pids, s, t) else s
  }

  function Run(pids: seq<nat>, s: State, steps: seq<Step>): (r: State)
    requires |s.tasks| == |pids|
    ensures |r.tasks| == |pids|
    decreases |steps|
  {
    if steps == [] then s else Run(pids, Next(pids, s, steps[0]), steps[1..])
  }

  /** No two tasks wait under one pid. */
  predicate Distinct(pids: seq<nat>) { forall t, u :: 0 <= t < u < |pids| ==> pids[t] != pids[u] }

  // ---------- Conservation and order, for any pids ----------

  /** What has happened to the queue of one address, each list in order. */
  datatype History = History(pushed: seq<nat>, drained: seq<nat>, expired: seq<nat>)

  function Extend(h: History, e: Event, addr: nat): History {
    if e.addr != addr then h
    else if e.Pushed? then h.(pushed := h.pushed + [e.pid])
    else if e.Drained? then h.(drained := h.drained + e.pids)
    else h.(expired := h.expired + e.pids)
  }

  function HistoryAt(log: seq<Event>, addr: nat): History {
    if log == [] then History([], [], []) else Extend(HistoryAt(log[..|log| - 1], addr), log[|log| - 1], addr)
  }

  /** `x` is `y` with some elements left out. */
  predicate Subsequence(x: seq<nat>, y: seq<nat>)
    decreases |y|
  {
    if y == [] then x == []
    else
      || Subsequence(x, y[..|y| - 1])
      || (x != [] && x[|x| - 1] == y[|y| - 1] && Subsequence(x[..|x| - 1], y[..|y| - 1]))
  }

  /**
    Every pid pushed was drained by a wake, removed by a timeout, or is still parked; and those
    drained, then those parked, come in the order they were pushed.
  */
  ghost predicate Balance(h: History, parked: seq<nat>) {
    && multiset(h.pushed) == multiset(h.drained) + multiset(h.expired) + multiset(parked)
    && Subsequence(h.drained + parked, h.pushed)
  }

  ghost predicate BalancedAt(s: State, a: nat) { Balance(HistoryAt(s.log, a), Waiters(s.queues, a)) }

  lemma LogGrows(log: seq<Event>, e: Event, a: nat)
    ensures HistoryAt(log + [e], a) == Extend(HistoryAt(log, a), e, a)
  {
    assert (log + [e])[..|log|] == log;
  }

  lemma {:induction false} WithoutCounts(q: seq<nat>, pid: nat)
    ensures multiset(q) == multiset(Without(q, pid)) + multiset(Occurrences(q, pid))
  {
    var all: multiset<nat> := multiset(q);
    OccurrencesCount(all[pid], pid);
    if q != [] {
      var front, last := q[..|q| - 1], q[|q| - 1];
      assert q == front + [last];
      WithoutCounts(front, pid);
      var most: multiset<nat> := multiset(front);
      OccurrencesCount(most[pid], pid);
    }
  }

  lemma {:induction false} OccurrencesCount(n: nat, pid: nat)
    ensures multiset(seq(n, i => pid)) == multiset{}[pid := n]
  {
    if n > 0 {
      OccurrencesCount(n - 1, pid);
      assert seq(n, i => pid) == seq(n - 1, i => pid) + [pid];
    }
  }

  lemma {:induction false} SubsequenceSelf(x: seq<nat>)
    ensures Subsequence(x, x)
  {
    if x != [] {
      SubsequenceSelf(x[..|x| - 1]);
    }
  }

  lemma SubsequencePush(x: seq<nat>, y: seq<nat>, v: nat)
    requires Subsequence(x, y)
    ensures Subsequence(x + [v], y + [v])
  {
    assert (x + [v])[..|x|] == x && (y + [v])[..|y|] == y;
  }

  lemma {:induction false} SubsequenceTrans(x: seq<nat>, y: seq<nat>, z: seq<nat>)
    requires Subsequence(x, y) && Subsequence(y, z)
    ensures Subsequence(x, z)
    decreases |z|
  {
    if z != [] {
      var z' := z[..|z| - 1];
      if Subsequence(y, z') {
        SubsequenceTrans(x, y, z');
      } else {
        var y' := y[..|y| - 1];
        if Subsequence(x, y') {
          SubsequenceTrans(x, y', z');
        } else {
          SubsequenceTrans(x[..|x| - 1], y', z');
        }
      }
    }
  }

  /** Leaving one pid out of the tail keeps the order. */
  lemma {:induction false} WithoutSubsequence(d: seq<nat>, q: seq<nat>, pid: nat)
    ensures Subsequence(d + Without(q, pid), d + q)
    decreases |q|
  {
    if q == [] {
      SubsequenceSelf(d);
      assert d + [] == d;
    } else {
      var front, last := q[..|q| - 1], q[|q| - 1];
      WithoutSubsequence(d, front, pid);
      assert (d + q)[..|d + q| - 1] == d + front;
      if last != pid {
        SubsequencePush(d + Without(front, pid), d + front, last);
        assert d + Without(q, pid) == (d + Without(front, pid)) + [last];
        assert d + q == (d + front) + [last];
      }
    }
  }

  lemma BalancePush(h: History, parked: seq<nat>, addr: nat, pid: nat)
    requires Balance(h, parked)
    ensures Balance(Extend(h, Pushed(addr, pid), addr), parked + [pid])
  {
    SubsequencePush(h.drained + parked, h.pushed, pid);
    assert h.drained + (parked + [pid]) == (h.drained + parked) + [pid];
  }

  lemma BalanceDrain(h: History, addr: nat, out: seq<nat>, rest: seq<nat>)
    requires Balance(h, out + rest)
    ensures Balance(Extend(h, Drained(addr, out), addr), rest)
  {
    assert h.drained + (out + rest) == (h.drained + out) + rest;
  }

  lemma BalanceExpire(h: History, parked: seq<nat>, addr: nat, pid: nat)
    requires Balance(h, parked)
    ensures Balance(Extend(h, Expired(addr, Occurrences(parked, pid)), addr), Without(parked, pid))
  {
    WithoutCounts(parked, pid);
    WithoutSubsequence(h.drained, parked, pid);
    SubsequenceTrans(h.drained + Without(parked, pid), h.drained + parked, h.pushed);
  }

  lemma PushBalanced(s: State, r: State, addr: nat, pid: nat, a: nat)
    requires BalancedAt(s, a) && r.queues == Park(s.queues, addr, pid) && r.log == s.log + [Pushed(addr, pid)]
    ensures BalancedAt(r, a)
  {
    LogGrows(s.log, Pushed(addr, pid), a);
    if a == addr {
      BalancePush(HistoryAt(s.log, a), Waiters(s.queues, a), addr, pid);
    }
  }

  lemma DrainBalanced(s: State, r: State, addr: nat, nr: nat, a: nat)
    requires BalancedAt(s, a) && r.queues == Wake(s.queues, addr, nr)
    requires r.log == s.log + [Drained(addr, Released(s.queues, addr, nr))]
    ensures BalancedAt(r, a)
  {
    var out := Released(s.queues, addr, nr);
    LogGrows(s.log, Drained(addr, out), a);
    WakeSplits(s.queues, addr, nr);
    if a == addr {
      BalanceDrain(HistoryAt(s.log, a), addr, out, Waiters(r.queues, a));
    }
  }

  lemma ExpireBalanced(s: State, r: State, addr: nat, pid: nat, a: nat)
    requires BalancedAt(s, a) && r.queues == Forget(s.queues, addr, pid)
    requires r.log == s.log + [Expired(addr, Occurrences(Waiters(s.queues, addr), pid))]
    ensures BalancedAt(r, a)
  {
    LogGrows(s.log, Expired(addr, Occurrences(Waiters(s.queues, addr), pid)), a);
    if a == addr {
      BalanceExpire(HistoryAt(s.log, a), Waiters(s.queues, a), addr, pid);
    }
  }

  /** The steps that change a queue, and what they log; every other step leaves both alone. */
  lemma QueueSteps(pids: seq<nat>, s: State, step: Step)
    requires |s.tasks| == |pids|
    ensures var r := Next(pids, s, step);
            || (r.queues == s.queues && r.log == s.log)
            || (step.Enter? && step.task < |pids| && r.queues == Park(s.queues, step.addr, pids[step.task])
                && r.log == s.log + [Pushed(step.addr, pids[step.task])])
            || (step.WakeCall? && r == WakeStep(s, step.addr, step.nr))
            || (step.Expire? && step.task < |pids| && r == ExpireStep(pids, s, step.task))
  {
  }

  lemma StepBalanced(pids: seq<nat>, s: State, step: Step, a: nat)
    requires |s.tasks| == |pids| && BalancedAt(s, a)
    ensures BalancedAt(Next(pids, s, step), a)
  {
    var r := Next(pids, s, step);
    QueueSteps(pids, s, step);
    if r.queues == s.queues && r.log == s.log {
      SameBalanced(s, r, a);
    } else if step.Enter? {
      PushBalanced(s, r, step.addr, pids[step.task], a);
    } else if step.WakeCall? {
      DrainBalanced(s, r, step.addr, step.nr, a);
    } else {
      ExpireBalanced(s, r, s.tasks[step.task].addr, pids[step.task], a);
    }
  }

  lemma SameBalanced(s: State, r: State, a: nat)
    requires BalancedAt(s, a) && r.queues == s.queues && r.log == s.log
    ensures BalancedAt(r, a)
  {
  }

  lemma {:induction false} RunBalanced(pids: seq<nat>, s: State, steps: seq<Step>, a: nat)
    requires |s.tasks| == |pids| && BalancedAt(s, a)
    ensures BalancedAt(Run(pids, s, steps), a)
    decreases |steps|
  {
    if steps != [] {
      StepBalanced(pids, s, steps[0], a);
      RunBalanced(pids, Next(pids, s, steps[0]), steps[1..], a);
    }
  }

  /** Over every interleaving nothing parked is lost or duplicated, and wakes are first in, first out. */
  lemma Conservation(pids: seq<nat>, words: map<nat, int>, steps: seq<Step>)
    ensures forall a :: BalancedAt(Run(pids, Initial(words, |pids|), steps), a)
  {
    forall a
      ensures BalancedAt(Run(pids, Initial(words, |pids|), steps), a)
    {
      RunBalanced(pids, Initial(words, |pids|), steps, a);
    }
  }

  // ---------- Who is parked, and who returns Ok ----------

  /** A wake released `pid` from `addr` after position `since` of the log. */
  ghost predicate WokenSince(log: seq<Event>, since: nat, addr: nat, pid: nat) {
    exists k :: since < k < |log| && log[k].Drained? && log[k].addr == addr && pid in log[k].pids
  }

  function Count(q: seq<nat>, pid: nat): nat { multiset(q)[pid] }

  /** Task `t` is waiting on `a` and no wake has released it yet. */
  ghost predicate Waiting(pids: seq<nat>, s: State, t: nat, a: nat)
    requires t < |pids| == |s.tasks|
  {
    Blocked(s.tasks[t]) && s.tasks[t].addr == a && !WokenSince(s.log, s.tasks[t].since, a, pids[t])
  }

  /** The pid of `t` is on the queue of `a` once while it waits there, and otherwise not at all. */
  ghost predicate Seated(pids: seq<nat>, s: State, t: nat, a: nat)
    requires t < |pids| == |s.tasks|
  {
    Count(Waiters(s.queues, a), pids[t]) == if Waiting(pids, s, t, a) then 1 else 0
  }

  /** What the record of a task says is what the log says. */
  ghost predicate Recorded(pids: seq<nat>, s: State, t: nat)
    requires t < |pids| == |s.tasks|
  {
    var task := s.tasks[t];
    && (Blocked(task) || task.phase == Returned(Ok(())) ==>
          task.addr != 0 && task.since < |s.log| && s.log[task.since] == Pushed(task.addr, pids[t]))
    && (task.phase == Returned(Ok(())) ==> WokenSince(s.log, task.since, task.addr, pids[t]))
    && (task.timeout == 0 ==> !task.phase.Checking? && !task.phase.Expiring? && task.phase != Returned(Err(TimedOut)))
  }

  ghost predicate Accounted(pids: seq<nat>, s: State, t: nat)
    requires t < |pids| == |s.tasks|
  {
    Recorded(pids, s, t) && forall a :: Seated(pids, s, t, a)
  }

  ghost predicate AllAccounted(pids: seq<nat>, s: State) {
    |s.tasks| == |pids| && forall t :: 0 <= t < |pids| ==> Accounted(pids, s, t)
  }

  /** One more event makes a pid released just when it is a drain of that address holding the pid. */
  lemma WokenGrows(log: seq<Event>, e: Event, since: nat, addr: nat, pid: nat)
    requires since < |log|
    ensures WokenSince(log + [e], since, addr, pid) <==>
            WokenSince(log, since, addr, pid) || (e.Drained? && e.addr == addr && pid in e.pids)
  {
    var more := log + [e];
    if WokenSince(log, since, addr, pid) {
      var k :| since < k < |log| && log[k].Drained? && log[k].addr == addr && pid in log[k].pids;
      assert more[k] == log[k];
    } else if e.Drained? && e.addr == addr && pid in e.pids {
      assert more[|log|] == e;
    }
  }

  lemma CountPush(q: seq<nat>, x: nat, pid: nat)
    ensures Count(q + [x], pid) == Count(q, pid) + if x == pid then 1 else 0
  {
  }

  lemma {:induction false} CountWithout(q: seq<nat>, x: nat, pid: nat)
    ensures Count(Without(q, x), pid) == if x == pid then 0 else Count(q, pid)
  {
    if q != [] {
      var front := q[..|q| - 1];
      assert q == front + [q[|q| - 1]];
      CountWithout(front, x, pid);
    }
  }

  /** A task the step does not run keeps its record when the log grows. */
  lemma BystanderRecorded(pids: seq<nat>, s: State, r: State, e: Event, t: nat)
    requires t < |pids| == |s.tasks| == |r.tasks| && Recorded(pids, s, t) && r.tasks[t] == s.tasks[t]
    requires r.log == s.log + [e]
    ensures Recorded(pids, r, t)
  {
    var task := s.tasks[t];
    if task.since < |s.log| {
      WokenGrows(s.log, e, task.since, task.addr, pids[t]);
    }
  }

  lemma ParkSeats(pids: seq<nat>, s: State, r: State, t: nat, step: Step, a: nat)
    requires t < |pids| == |s.tasks| && Distinct(pids)
    requires step.Enter? && step.task < |pids| && !Blocked(s.tasks[step.task])
    requires Recorded(pids, s, t) && Seated(pids, s, t, a)
    requires r == EnterStep(pids, s, step.task, step.addr, step.expected, step.timeout)
    ensures Seated(pids, r, t, a)
  {
    if r.log != s.log {
      CountPush(Waiters(s.queues, step.addr), pids[step.task], pids[t]);
      if t == step.task {
        assert !WokenSince(r.log, |s.log|, a, pids[t]);
      } else if Blocked(s.tasks[t]) {
        WokenGrows(s.log, Pushed(step.addr, pids[step.task]), s.tasks[t].since, a, pids[t]);
      }
    }
  }

  lemma EnterAccounted(pids: seq<nat>, s: State, step: Step, t: nat)
    requires Distinct(pids) && t < |pids| == |s.tasks| && Accounted(pids, s, t) && step.Enter?
    ensures Accounted(pids, Next(pids, s, step), t)
  {
    var r := Next(pids, s, step);
    if step.task < |pids| && !Blocked(s.tasks[step.task]) {
      if t == step.task {
        assert r.log != s.log ==> r.log[|s.log|] == Pushed(step.addr, pids[t]);
      } else if r.log != s.log {
        BystanderRecorded(pids, s, r, Pushed(step.addr, pids[step.task]), t);
      }
      forall a
        ensures Seated(pids, r, t, a)
      {
        assert Seated(pids, s, t, a);
        ParkSeats(pids, s, r, t, step, a);
      }
    }
  }

  lemma WakeSeats(pids: seq<nat>, s: State, t: nat, addr: nat, nr: nat, a: nat)
    requires t < |pids| == |s.tasks| && Recorded(pids, s, t) && Seated(pids, s, t, a)
    ensures Seated(pids, WakeStep(s, addr, nr), t, a)
  {
    var out := Released(s.queues, addr, nr);
    var r := WakeStep(s, addr, nr);
    WakeSplits(s.queues, addr, nr);
    if Blocked(s.tasks[t]) {
      WokenGrows(s.log, Drained(addr, out), s.tasks[t].since, a, pids[t]);
    }
    if a == addr {
      var rest := Waiters(r.queues, a);
      assert Count(out + rest, pids[t]) == Count(out, pids[t]) + Count(rest, pids[t]);
      assert pids[t] in out <==> Count(out, pids[t]) > 0;
    }
  }

  lemma WakeAccounted(pids: seq<nat>, s: State, step: Step, t: nat)
    requires t < |pids| == |s.tasks| && Accounted(pids, s, t) && step.WakeCall?
    ensures Accounted(pids, Next(pids, s, step), t)
  {
    BystanderRecorded(pids, s, Next(pids, s, step), Drained(step.addr, Released(s.queues, step.addr, step.nr)), t);
    forall a
      ensures Seated(pids, Next(pids, s, step), t, a)
    {
      assert Seated(pids, s, t, a);
      WakeSeats(pids, s, t, step.addr, step.nr, a);
    }
  }

  lemma ExpireSeats(pids: seq<nat>, s: State, u: nat, t: nat, a: nat)
    requires Distinct(pids) && u < |pids| && t < |pids| == |s.tasks| && s.tasks[u].phase.Expiring?
    requires Recorded(pids, s, t) && Seated(pids, s, t, a)
    ensures Seated(pids, ExpireStep(pids, s, u), t, a)
  {
    var addr := s.tasks[u].addr;
    var e := Expired(addr, Occurrences(Waiters(s.queues, addr), pids[u]));
    CountWithout(Waiters(s.queues, addr), pids[u], pids[t]);
    if t != u && Blocked(s.tasks[t]) {
      WokenGrows(s.log, e, s.tasks[t].since, a, pids[t]);
    }
  }

  lemma ExpireAccounted(pids: seq<nat>, s: State, step: Step, t: nat)
    requires Distinct(pids) && t < |pids| == |s.tasks| && Accounted(pids, s, t) && step.Expire?
    ensures Accounted(pids, Next(pids, s, step), t)
  {
    var r := Next(pids, s, step);
    if step.task < |pids| && s.tasks[step.task].phase.Expiring? {
      var addr := s.tasks[step.task].addr;
      if t != step.task {
        BystanderRecorded(pids, s, r, Expired(addr, Occurrences(Waiters(s.queues, addr), pids[step.task])), t);
      }
      forall a
        ensures Seated(pids, r, t, a)
      {
        assert Seated(pids, s, t, a);
        ExpireSeats(pids, s, step.task, t, a);
      }
    }
  }

  /** A call of `wait` parks exactly when the address is not null and the word is what it expects. */
  lemma EnterExact(pids: seq<nat>, s: State, t: nat, addr: nat, expected: int, timeout: nat)
    requires t < |pids| == |s.tasks| && !Blocked(s.tasks[t])
    ensures var r := Next(pids, s, Enter(t, addr, expected, timeout));
            && (r.tasks[t].phase == Returned(Err(BadAddress)) <==> addr == 0)
            && (r.tasks[t].phase == Returned(Err(WouldBlock)) <==> addr != 0 && Word(s, addr) != expected)
            && (r.tasks[t].phase == Parked <==> addr != 0 && Word(s, addr) == expected)
            && (r.tasks[t].phase == Parked ==> Waiters(r.queues, addr) == Waiters(s.queues, addr) + [pids[t]])
            && (r.tasks[t].phase != Parked ==> r.queues == s.queues)
  {
  }

  /** A poll finds the pid gone from the queue just when a wake released it. */
  lemma PollExact(pids: seq<nat>, s: State, t: nat)
    requires t < |pids| == |s.tasks| && Accounted(pids, s, t) && s.tasks[t].phase.Polling?
    ensures Next(pids, s, Poll(t)).tasks[t].phase == Returned(Ok(())) <==>
            WokenSince(s.log, s.tasks[t].since, s.tasks[t].addr, pids[t])
  {
    assert Seated(pids, s, t, s.tasks[t].addr);
  }

  /** The steps that only move one task between phases. */
  lemma PhaseAccounted(pids: seq<nat>, s: State, step: Step, t: nat)
    requires t < |pids| == |s.tasks| && Accounted(pids, s, t)
    requires !step.Enter? && !step.WakeCall? && !step.Expire?
    ensures Accounted(pids, Next(pids, s, step), t)
  {
    var r := Next(pids, s, step);
    if step.Poll? && step.task == t && s.tasks[t].phase.Polling? {
      PollExact(pids, s, t);
    }
    forall a
      ensures Seated(pids, r, t, a)
    {
      assert Seated(pids, s, t, a);
    }
  }

  lemma StepAccounted(pids: seq<nat>, s: State, step: Step)
    requires Distinct(pids) && AllAccounted(pids, s)
    ensures AllAccounted(pids, Next(pids, s, step))
  {
    forall t | 0 <= t < |pids|
      ensures Accounted(pids, Next(pids, s, step), t)
    {
      assert Accounted(pids, s, t);
      if step.Enter? {
        EnterAccounted(pids, s, step, t);
      } else if step.WakeCall? {
        WakeAccounted(pids, s, step, t);
      } else if step.Expire? {
        ExpireAccounted(pids, s, step, t);
      } else {
        PhaseAccounted(pids, s, step, t);
      }
    }
  }

  lemma {:induction false} RunAccounted(pids: seq<nat>, s: State, steps: seq<Step>)
    requires Distinct(pids) && AllAccounted(pids, s)
    ensures AllAccounted(pids, Run(pids, s, steps))
    decreases |steps|
  {
    if steps != [] {
      StepAccounted(pids, s, steps[0]);
      RunAccounted(pids, Next(pids, s, steps[0]), steps[1..]);
    }
  }

  lemma Reachable(pids: seq<nat>, words: map<nat, int>, steps: seq<Step>)
    requires Distinct(pids)
    ensures AllAccounted(pids, Run(pids, Initial(words, |pids|), steps))
  {
    RunAccounted(pids, Initial(words, |pids|), steps);
  }

  // ---------- No lost wake-up ----------

  /** The word at `a` differs from `e` now and after every step. */
  predicate Avoids(pids: seq<nat>, s: State, steps: seq<Step>, a: nat, e: int)
    requires |s.tasks| == |pids|
    decreases |steps|
  {
    Word(s, a) != e && (steps == [] || Avoids(pids, Next(pids, s, steps[0]), steps[1..], a, e))
  }

  /** Nobody who expected `e` is still parked on `a`. */
  ghost predicate NoneWaiting(pids: seq<nat>, s: State, a: nat, e: int)
    requires |s.tasks| == |pids|
  {
    forall t :: 0 <= t < |pids| && s.tasks[t].expected == e ==> !Waiting(pids, s, t, a)
  }

  lemma StepNoneWaiting(pids: seq<nat>, s: State, step: Step, a: nat, e: int)
    requires AllAccounted(pids, s) && NoneWaiting(pids, s, a, e) && Word(s, a) != e
    ensures NoneWaiting(pids, Next(pids, s, step), a, e)
  {
    var r := Next(pids, s, step);
    forall t | 0 <= t < |pids| && r.tasks[t].expected == e
      ensures !Waiting(pids, r, t, a)
    {
      assert Recorded(pids, s, t) by { assert Accounted(pids, s, t); }
      if Blocked(r.tasks[t]) && r.tasks[t].addr == a {
        assert Blocked(s.tasks[t]) && s.tasks[t].expected == e && s.tasks[t].addr == a;
        StillWoken(pids, s, step, t);
      }
    }
  }

  lemma StillWoken(pids: seq<nat>, s: State, step: Step, t: nat)
    requires t < |pids| == |s.tasks| && s.tasks[t].since < |s.log|
    requires WokenSince(s.log, s.tasks[t].since, s.tasks[t].addr, pids[t])
    ensures WokenSince(Next(pids, s, step).log, s.tasks[t].since, s.tasks[t].addr, pids[t])
  {
    var r := Next(pids, s, step);
    if r.log != s.log {
      var e := r.log[|s.log|];
      assert r.log == s.log + [e];
      WokenGrows(s.log, e, s.tasks[t].since, s.tasks[t].addr, pids[t]);
    }
  }

  lemma {:induction false} RunNoneWaiting(pids: seq<nat>, s: State, steps: seq<Step>, a: nat, e: int)
    requires Distinct(pids) && AllAccounted(pids, s) && NoneWaiting(pids, s, a, e) && Avoids(pids, s, steps, a, e)
    ensures NoneWaiting(pids, Run(pids, s, steps), a, e)
    decreases |steps|
  {
    if steps != [] {
      StepNoneWaiting(pids, s, steps[0], a, e);
      StepAccounted(pids, s, steps[0]);
      RunNoneWaiting(pids, Next(pids, s, steps[0]), steps[1..], a, e);
    }
  }

  /**
    No lost wake-up: after a wake large enough for the queue, as long as the word stays away from
    `e`, no task that expected `e` is left waiting, whatever ran before and runs after.
  */
  lemma NoLostWakeUp(pids: seq<nat>, words: map<nat, int>, before: seq<Step>, a: nat, nr: nat, after: seq<Step>, e: int)
    requires Distinct(pids)
    requires var s := Run(pids, Initial(words, |pids|), before);
             nr >= |Waiters(s.queues, a)| && Avoids(pids, Next(pids, s, WakeCall(a, nr)), after, a, e)
    ensures var s := Run(pids, Initial(words, |pids|), before);
            NoneWaiting(pids, Run(pids, Next(pids, s, WakeCall(a, nr)), after), a, e)
  {
    var s := Run(pids, Initial(words, |pids|), before);
    var r := Next(pids, s, WakeCall(a, nr));
    Reachable(pids, words, before);
    StepAccounted(pids, s, WakeCall(a, nr));
    NoneAfterWake(pids, s, a, nr, e);
    RunNoneWaiting(pids, r, after, a, e);
  }

  lemma NoneAfterWake(pids: seq<nat>, s: State, a: nat, nr: nat, e: int)
    requires |s.tasks| == |pids| && AllAccounted(pids, Next(pids, s, WakeCall(a, nr))) && nr >= |Waiters(s.queues, a)|
    ensures NoneWaiting(pids, Next(pids, s, WakeCall(a, nr)), a, e)
  {
    var r := Next(pids, s, WakeCall(a, nr));
    WakeSplits(s.queues, a, nr);
    forall t | 0 <= t < |pids| && r.tasks[t].expected == e
      ensures !Waiting(pids, r, t, a)
    {
      assert Accounted(pids, r, t) && Seated(pids, r, t, a);
      assert a != 0 ==> Waiters(r.queues, a) == [];
    }
  }

  // ---------- When the result tells the truth ----------

  /** In every run, a task that returned Ok was released by a wake after it parked. */
  ghost predicate OkIsTrue(pids: seq<nat>) {
    forall words, steps, t | 0 <= t < |pids| :: OkWasWoken(pids, Run(pids, Initial(words, |pids|), steps), t)
  }

  ghost predicate OkWasWoken(pids: seq<nat>, s: State, t: nat)
    requires t < |pids| == |s.tasks|
  {
    s.tasks[t].phase == Returned(Ok(())) ==> WokenSince(s.log, s.tasks[t].since, s.tasks[t].addr, pids[t])
  }

  /** Ok means woken exactly when no two tasks share a pid, as all tasks without a process do. */
  lemma OkExact(pids: seq<nat>)
    ensures OkIsTrue(pids) <==> Distinct(pids)
  {
    if Distinct(pids) {
      forall words, steps, t | 0 <= t < |pids|
        ensures OkWasWoken(pids, Run(pids, Initial(words, |pids|), steps), t)
      {
        Reachable(pids, words, steps);
        assert Accounted(pids, Run(pids, Initial(words, |pids|), steps), t);
      }
    } else {
      var t, u :| 0 <= t < u < |pids| && pids[t] == pids[u];
      SharedPid(pids, t, u);
      assert !OkWasWoken(pids, Run(pids, Initial(map[], |pids|), SharedRun(t, u)), t);
    }
  }

  /** `u` times out and takes the pid it shares with `t` off the queue; `t` then returns Ok. */
  function SharedRun(t: nat, u: nat): seq<Step> {
    BothPark(t, u, [Poll(u), Tick(1), Check(u), Expire(u), Poll(t)])
  }

  function BothPark(t: nat, u: nat, last: seq<Step>): seq<Step> {
    [Enter(t, 8, 0, 0)] + ([Enter(u, 8, 0, 1)] + ([ReadClock(t)] + ([ReadClock(u)] + last)))
  }

  lemma RunFirst(pids: seq<nat>, s: State, step: Step, steps: seq<Step>)
    requires |s.tasks| == |pids|
    ensures Run(pids, s, [step] + steps) == Run(pids, Next(pids, s, step), steps)
  {
    assert ([step] + steps)[1..] == steps;
  }

  lemma SharedPid(pids: seq<nat>, t: nat, u: nat)
    requires t < u < |pids| && pids[t] == pids[u]
    ensures !OkWasWoken(pids, Run(pids, Initial(map[], |pids|), SharedRun(t, u)), t)
  {
    var last := [Poll(u), Tick(1), Check(u), Expire(u), Poll(t)];
    var s := SharedStart(pids, t, u, last);
    SharedEnd(pids, s, t, u);
  }

  lemma SharedStart(pids: seq<nat>, t: nat, u: nat, last: seq<Step>) returns (s: State)
    requires t < u < |pids| && pids[t] == pids[u]
    ensures |s.tasks| == |pids| && s.clock == 0
    ensures Waiters(s.queues, 8) == [pids[t], pids[t]] && |s.log| == 2 && forall k :: 0 <= k < 2 ==> s.log[k].Pushed?
    ensures s.tasks[t] == Task(Polling(0), 8, 0, 0, 0, 0) && s.tasks[u] == Task(Polling(0), 8, 0, 1, 1, 0)
    ensures Run(pids, Initial(map[], |pids|), BothPark(t, u, last)) == Run(pids, s, last)
  {
    var s0 := Initial(map[], |pids|);
    var s1 := Next(pids, s0, Enter(t, 8, 0, 0));
    var s2 := Next(pids, s1, Enter(u, 8, 0, 1));
    var s3 := Next(pids, s2, ReadClock(t));
    s := Next(pids, s3, ReadClock(u));
    var tail2 := [ReadClock(t)] + ([ReadClock(u)] + last);
    RunFirst(pids, s0, Enter(t, 8, 0, 0), [Enter(u, 8, 0, 1)] + tail2);
    RunFirst(pids, s1, Enter(u, 8, 0, 1), tail2);
    RunFirst(pids, s2, ReadClock(t), [ReadClock(u)] + last);
    RunFirst(pids, s3, ReadClock(u), last);
  }

  lemma SharedEnd(pids: seq<nat>, s: State, t: nat, u: nat)
    requires t < u < |pids| == |s.tasks| && pids[t] == pids[u] && s.clock == 0
    requires Waiters(s.queues, 8) == [pids[t], pids[t]] && |s.log| == 2 && forall k :: 0 <= k < 2 ==> s.log[k].Pushed?
    requires s.tasks[t] == Task(Polling(0), 8, 0, 0, 0, 0) && s.tasks[u] == Task(Polling(0), 8, 0, 1, 1, 0)
    ensures !OkWasWoken(pids, Run(pids, s, [Poll(u), Tick(1), Check(u), Expire(u), Poll(t)]), t)
  {
    var s1 := Next(pids, s, Poll(u));
    var s2 := Next(pids, s1, Tick(1));
    var s3 := Next(pids, s2, Check(u));
    var s4 := Next(pids, s3, Expire(u));
    var s5 := Next(pids, s4, Poll(t));
    WithoutMembers(Waiters(s.queues, 8), pids[t]);
    assert s5.tasks[t].phase == Returned(Ok(())) && |s5.log| == 3 && s5.log[2].Expired?;
    RunFirst(pids, s, Poll(u), [Tick(1), Check(u), Expire(u), Poll(t)]);
    RunFirst(pids, s1, Tick(1), [Check(u), Expire(u), Poll(t)]);
    RunFirst(pids, s2, Check(u), [Expire(u), Poll(t)]);
    RunFirst(pids, s3, Expire(u), [Poll(t)]);
    RunFirst(pids, s4, Poll(t), []);
  }

  /** In every run with distinct pids, a task that waited with this timeout and was released never reports a timeout. */
  ghost predicate TimeoutIsTrue(timeout: nat) {
    forall pids, words, steps, t | Distinct(pids) && 0 <= t < |pids| ::
      TimeoutUnwoken(pids, Run(pids, Initial(words, |pids|), steps), t, timeout)
  }

  ghost predicate TimeoutUnwoken(pids: seq<nat>, s: State, t: nat, timeout: nat)
    requires t < |pids| == |s.tasks|
  {
    var task := s.tasks[t];
    task.timeout == timeout && task.phase == Returned(Err(TimedOut)) ==>
      !WokenSince(s.log, task.since, task.addr, pids[t])
  }

  /** That holds only for the timeout that never expires: a wake can come between the last poll and the lock. */
  lemma TimeoutExact(timeout: nat)
    ensures TimeoutIsTrue(timeout) <==> timeout == 0
  {
    if timeout == 0 {
      forall pids, words, steps, t | Distinct(pids) && 0 <= t < |pids|
        ensures TimeoutUnwoken(pids, Run(pids, Initial(words, |pids|), steps), t, timeout)
      {
        Reachable(pids, words, steps);
        assert Accounted(pids, Run(pids, Initial(words, |pids|), steps), t);
      }
    } else {
      LateWake(timeout);
      assert Distinct([7]);
      assert !TimeoutUnwoken([7], Run([7], Initial(map[], |[7]|), LateRun(timeout)), 0, timeout);
    }
  }

  function LateRun(timeout: nat): seq<Step> {
    [Enter(0, 8, 0, timeout), ReadClock(0), Poll(0), Tick(timeout), Check(0), WakeCall(8, 1), Expire(0)]
  }

  lemma LateWake(timeout: nat)
    requires timeout > 0
    ensures !TimeoutUnwoken([7], Run([7], Initial(map[], 1), LateRun(timeout)), 0, timeout)
  {
    var pids := [7];
    var s0 := Initial(map[], 1);
    var s1 := Next(pids, s0, Enter(0, 8, 0, timeout));
    var s2 := Next(pids, s1, ReadClock(0));
    assert s2.tasks[0] == Task(Polling(0), 8, 0, timeout, 0, 0);
    assert s2.log == [Pushed(8, 7)] && Waiters(s2.queues, 8) == [7];
    LateEnd(s2, timeout);
    var last := [Poll(0), Tick(timeout), Check(0), WakeCall(8, 1), Expire(0)];
    assert LateRun(timeout) == [Enter(0, 8, 0, timeout)] + ([ReadClock(0)] + last);
    RunFirst(pids, s0, Enter(0, 8, 0, timeout), [ReadClock(0)] + last);
    RunFirst(pids, s1, ReadClock(0), last);
  }

  lemma LateEnd(s: State, timeout: nat)
    requires timeout > 0 && |s.tasks| == 1 && s.tasks[0] == Task(Polling(0), 8, 0, timeout, 0, 0) && s.clock == 0
    requires s.log == [Pushed(8, 7)] && Waiters(s.queues, 8) == [7]
    ensures !TimeoutUnwoken([7], Run([7], s, [Poll(0), Tick(timeout), Check(0), WakeCall(8, 1), Expire(0)]), 0, timeout)
  {
    var pids := [7];
    var s1 := Next(pids, s, Poll(0));
    var s2 := Next(pids, s1, Tick(timeout));
    var s3 := Next(pids, s2, Check(0));
    var s4 := Next(pids, s3, WakeCall(8, 1));
    var s5 := Next(pids, s4, Expire(0));
    assert s5.log[1] == Drained(8, [7]);
    RunFirst(pids, s, Poll(0), [Tick(timeout), Check(0), WakeCall(8, 1), Expire(0)]);
    RunFirst(pids, s1, Tick(timeout), [Check(0), WakeCall(8, 1), Expire(0)]);
    RunFirst(pids, s2, Check(0), [WakeCall(8, 1), Expire(0)]);
    RunFirst(pids, s3, WakeCall(8, 1), [Expire(0)]);
    RunFirst(pids, s4, Expire(0), []);
  }

  // ---------- The deadline ----------

  /** A look at the clock is not before the call or after now, and a timeout has run its ticks. */
  predicate OnTime(s: State, task: Task) {
    && task.began <= s.clock
    && (task.phase.Polling? || task.phase.Checking? ==> task.began <= task.phase.start <= s.clock)
    && (task.phase.Expiring? || task.phase == Returned(Err(TimedOut)) ==> task.began + task.timeout <= s.clock)
  }

  predicate AllOnTime(s: State) { forall t :: 0 <= t < |s.tasks| ==> OnTime(s, s.tasks[t]) }

  lemma StepOnTime(pids: seq<nat>, s: State, step: Step)
    requires |s.tasks| == |pids| && AllOnTime(s)
    ensures AllOnTime(Next(pids, s, step))
  {
    var r := Next(pids, s, step);
    forall t | 0 <= t < |r.tasks|
      ensures OnTime(r, r.tasks[t])
    {
      assert OnTime(s, s.tasks[t]);
    }
  }

  lemma {:induction false} RunOnTime(pids: seq<nat>, s: State, steps: seq<Step>)
    requires |s.tasks| == |pids| && AllOnTime(s)
    ensures AllOnTime(Run(pids, s, steps))
    decreases |steps|
  {
    if steps != [] {
      StepOnTime(pids, s, steps[0]);
      RunOnTime(pids, Next(pids, s, steps[0]), steps[1..]);
    }
  }

  /** Over every interleaving, a wait that reports a timeout has lasted that long. */
  lemma NoEarlyTimeout(pids: seq<nat>, words: map<nat, int>, steps: seq<Step>, t: nat)
    requires t < |pids|
    ensures var s := Run(pids, Initial(words, |pids|), steps);
            s.tasks[t].phase == Returned(Err(TimedOut)) ==> s.clock >= s.tasks[t].began + s.tasks[t].timeout
  {
    RunOnTime(pids, Initial(words, |pids|), steps);
    assert OnTime(Run(pids, Initial(words, |pids|), steps), Run(pids, Initial(words, |pids|), steps).tasks[t]);
  }

  /** A check gives up exactly when the timeout has passed since the clock was first read. */
  lemma DeadlineExact(pids: seq<nat>, words: map<nat, int>, steps: seq<Step>, t: nat)
    requires t < |pids| && Run(pids, Initial(words, |pids|), steps).tasks[t].phase.Checking?
    ensures var s := Run(pids, Initial(words, |pids|), steps);
            var task, after := s.tasks[t], Next(pids, s, Check(t)).tasks[t].phase;
            && (after.Expiring? <==> s.clock >= task.phase.start + task.timeout)
            && (!after.Expiring? ==> after == Polling(task.phase.start))
  {
    RunOnTime(pids, Initial(words, |pids|), steps);
    assert OnTime(Run(pids, Initial(words, |pids|), steps), Run(pids, Initial(words, |pids|), steps).tasks[t]);
  }
}
