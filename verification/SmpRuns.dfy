/**
  Every interleaving of the run-queue operations of `src/smp.rs`. A step is one atomic load of
  a scan, the locked change of a queue, the store of its cached length, or the unlock, so scans
  see stale lengths and lengths are stale inside locked regions. A step that is not enabled
  changes nothing, so every sequence of steps is a run.
*/
module SmpRuns {
  import opened Wrappers
  import opened Smp

  /** A look at a CPU: the cached length seen, and how many pids had entered and left its queue at the last store. */
  datatype Look = Look(cpu: nat, load: nat, ins: nat, outs: nat)

  /** A scan of the CPU table: the next CPU, whether it was seen alive, and the pick so far with its load. */
  datatype Scan = Scan(at: nat, sawAlive: bool, pick: Option<Look>, load: nat)

  /** One thread of control and where it stands in its call. */
  datatype Agent =
    | Idle
    | Routing(pid: nat, scan: Scan)
    | Stealing(thief: nat, scan: Scan)
    | Ready(cpu: nat, op: Op, look: Option<Look>) // about to take the lock of `cpu`; a thief after a look at it
    | Changed(cpu: nat, op: Op, was: nat)    // holds it; the queue had `was` pids when it took it
    | Stored(cpu: nat)                       // holds it; the cached length is written

  /**
    One CPU slot; `entered` and `left` list every pid pushed to and taken from its queue, `ins` and
    `outs` say how many of them there were when the cached length was last stored.
  */
  datatype Cpu = Cpu(alive: bool, queue: seq<nat>, len: nat, holder: Option<nat>,
                     entered: seq<nat>, left: seq<nat>, ins: nat, outs: nat)

  datatype State = State(cpus: seq<Cpu>, agents: seq<Agent>, issued: multiset<nat>)

  datatype Step =
    | SetAlive(cpu: nat, alive: bool)
    | CallBalanced(agent: nat, pid: nat)
    | CallSteal(agent: nat, thief: nat)
    | Call(agent: nat, cpu: nat, op: Op)
    | LoadAlive(agent: nat)
    | LoadLength(agent: nat)
    | Acquire(agent: nat)
    | Store(agent: nat)
    | Release(agent: nat)

  function Initial(n: nat, m: nat): State {
    State(seq(n, i => Cpu(false, [], 0, None, [], [], 0, 0)), seq(m, i => Idle), multiset{})
  }

  /** A locked region: the queue operation, with what enters and leaves written down. */
  function Apply(c: Cpu, op: Op): Cpu {
    c.(queue := After(c.queue, op), entered := c.entered + Added(op), left := c.left + Taken(c.queue, op))
  }

  /** The agent with its scan moved on. */
  function WithScan(a: Agent, scan: Scan): Agent
    requires a.Routing? || a.Stealing?
  {
    if a.Routing? then Routing(a.pid, scan) else Stealing(a.thief, scan)
  }

  /** What a scan sees of the CPU it is at. */
  function LookAt(at: nat, c: Cpu): Look { Look(at, c.len, c.ins, c.outs) }

  /** A scan has read the load of a CPU: routing keeps a smaller one, stealing a larger one. */
  function Looked(a: Agent, look: Look): Agent
    requires a.Routing? || a.Stealing?
  {
    var s := a.scan;
    var better := if a.Routing? then look.load < s.load else look.load > s.load;
    WithScan(a, if better then Scan(s.at + 1, false, Some(look), look.load) else Scan(s.at + 1, false, s.pick, s.load))
  }

  /** What a scan does after its last CPU; routing falls back to CPU 0. */
  function Scanned(a: Agent): Agent
    requires a.Routing? || a.Stealing?
  {
    if a.Routing? then Ready(if a.scan.pick.Some? then a.scan.pick.value.cpu else 0, Push(a.pid), None)
    else if a.scan.pick.None? then Idle
    else Ready(a.scan.pick.value.cpu, Pop, a.scan.pick)
  }

  function SetAgent(s: State, i: nat, a: Agent): State
    requires i < |s.agents|
  {
    s.(agents := s.agents[i := a])
  }

  function SetCpu(s: State, c: nat, cpu: Cpu): State
    requires c < |s.cpus|
  {
    s.(cpus := s.cpus[c := cpu])
  }

  function LoadAliveStep(s: State, i: nat): State
    requires i < |s.agents| && (s.agents[i].Routing? || s.agents[i].Stealing?)
  {
    var a := s.agents[i];
    var at := a.scan.at;
    if at >= |s.cpus| then SetAgent(s, i, Scanned(a))
    else if s.cpus[at].alive && !(a.Stealing? && at == a.thief) then
      SetAgent(s, i, WithScan(a, a.scan.(sawAlive := true)))
    else SetAgent(s, i, WithScan(a, a.scan.(at := at + 1)))
  }

  function AcquireStep(s: State, i: nat, c: nat, op: Op): State
    requires i < |s.agents| && c < |s.cpus|
  {
    SetAgent(SetCpu(s, c, Apply(s.cpus[c], op).(holder := Some(i))), i, Changed(c, op, |s.cpus[c].queue|))
  }

  /** The cached length, and what it is the length of, brought up to date. */
  function Restored(c: Cpu): Cpu { c.(len := |c.queue|, ins := |c.entered|, outs := |c.left|) }

  function StoreStep(s: State, i: nat, c: nat): State
    requires i < |s.agents| && c < |s.cpus|
  {
    SetAgent(SetCpu(s, c, Restored(s.cpus[c])), i, Stored(c))
  }

  function ReleaseStep(s: State, i: nat, c: nat): State
    requires i < |s.agents| && c < |s.cpus|
  {
    SetAgent(SetCpu(s, c, s.cpus[c].(holder := None)), i, Idle)
  }

  function AgentStep(s: State, step: Step, i: nat): State
    requires i < |s.agents|
  {
    var a := s.agents[i];
    if step.CallBalanced? then
      if a.Idle? then
        SetAgent(s, i, Routing(step.pid, Scan(0, false, None, USIZE_MAX))).(issued := s.issued + multiset{step.pid})
      else s
    else if step.CallSteal? then
      if a.Idle? then SetAgent(s, i, Stealing(step.thief, Scan(0, false, None, 1))) else s
    else if step.Call? then
      if a.Idle? && step.cpu < |s.cpus| then
        SetAgent(s, i, Ready(step.cpu, step.op, None))
          .(issued := s.issued + if step.op.Push? then multiset{step.op.pid} else multiset{})
      else s
    else if step.LoadAlive? then
      if (a.Routing? || a.Stealing?) && !a.scan.sawAlive then LoadAliveStep(s, i) else s
    else if step.LoadLength? then
      if (a.Routing? || a.Stealing?) && a.scan.sawAlive && a.scan.at < |s.cpus| then
        SetAgent(s, i, Looked(a, LookAt(a.scan.at, s.cpus[a.scan.at])))
      else s
    else if step.Acquire? then
      if a.Ready? && a.cpu < |s.cpus| && s.cpus[a.cpu].holder.None? then AcquireStep(s, i, a.cpu, a.op) else s
    else if step.Store? then
      if a.Changed? && a.cpu < |s.cpus| then StoreStep(s, i, a.cpu) else s
    else if step.Release? then
      if a.Stored? && a.cpu < |s.cpus| then ReleaseStep(s, i, a.cpu) else s
    else s
  }

  function Next(s: State, step: Step): State {
    if step.SetAlive? then
      if step.cpu < |s.cpus| then SetCpu(s, step.cpu, s.cpus[step.cpu].(alive := step.alive)) else s
    else if step.agent < |s.agents| then AgentStep(s, step, step.agent)
    else s
  }

  function Run(s: State, steps: seq<Step>): State
    decreases |steps|
  {
    if steps == [] then s else Run(Next(s, steps[0]), steps[1..])
  }

  // ---------- The cached length and the lock ----------

  /** How long a queue is after an operation that found it `was` long. */
  function LengthAfter(op: Op, was: nat): nat {
    match op
    case Push(_) => was + 1
    case Pop => if was == 0 then 0 else was - 1
    case Drain => 0
  }

  predicate Holds(a: Agent, c: nat) { (a.Changed? || a.Stored?) && a.cpu == c }

  /** The cached length is right, unless the holder of the lock is yet to store it. */
  predicate LengthOk(s: State, c: nat)
    requires c < |s.cpus|
  {
    var cpu := s.cpus[c];
    if cpu.holder.None? then cpu.len == |cpu.queue|
    else
      && cpu.holder.value < |s.agents| && Holds(s.agents[cpu.holder.value], c)
      && var a := s.agents[cpu.holder.value];
         if a.Stored? then cpu.len == |cpu.queue|
         else cpu.len == a.was && |cpu.queue| == LengthAfter(a.op, a.was)
  }

  predicate CpuOk(s: State, c: nat)
    requires c < |s.cpus|
  {
    s.cpus[c].entered == s.cpus[c].left + s.cpus[c].queue && LengthOk(s, c)
  }

  /** An agent stays within the CPU table and holds only a lock that names it. */
  predicate AgentOk(s: State, i: nat)
    requires i < |s.agents|
  {
    var a := s.agents[i];
    && (a.Routing? || a.Stealing? ==> a.scan.pick.Some? ==> a.scan.pick.value.cpu < |s.cpus|)
    && (a.Ready? || a.Changed? || a.Stored? ==> a.cpu < |s.cpus|)
    && (a.Changed? || a.Stored? ==> s.cpus[a.cpu].holder == Some(i))
  }

  predicate Sound(s: State) {
    && |s.cpus| > 0
    && (forall c :: 0 <= c < |s.cpus| ==> CpuOk(s, c))
    && (forall i :: 0 <= i < |s.agents| ==> AgentOk(s, i))
  }

  /** An agent that holds no lock moves on without taking one. */
  lemma MoveSound(s: State, i: nat, a: Agent, r: State)
    requires Sound(s) && i < |s.agents| && r.cpus == s.cpus && r.agents == s.agents[i := a]
    requires !s.agents[i].Changed? && !s.agents[i].Stored? && !a.Changed? && !a.Stored? && AgentOk(r, i)
    ensures Sound(r)
  {
    forall c | 0 <= c < |r.cpus|
      ensures CpuOk(r, c)
    {
      assert CpuOk(s, c);
    }
    forall j | 0 <= j < |r.agents|
      ensures AgentOk(r, j)
    {
      assert AgentOk(s, j);
    }
  }

  /** The holder of a lock, old or new, changes its CPU and itself. */
  lemma HolderSound(s: State, i: nat, c: nat, a: Agent, cpu: Cpu, r: State)
    requires Sound(s) && i < |s.agents| && c < |s.cpus|
    requires r == SetAgent(SetCpu(s, c, cpu), i, a)
    requires s.cpus[c].holder.None? || s.cpus[c].holder == Some(i)
    requires (s.agents[i].Changed? || s.agents[i].Stored?) ==> s.agents[i].cpu == c
    requires a.Idle? || Holds(a, c)
    requires CpuOk(r, c) && AgentOk(r, i)
    ensures Sound(r)
  {
    forall b | 0 <= b < |r.cpus|
      ensures CpuOk(r, b)
    {
      assert CpuOk(s, b);
    }
    forall j | 0 <= j < |r.agents|
      ensures AgentOk(r, j)
    {
      assert AgentOk(s, j);
    }
  }

  lemma ApplyKeeps(c: Cpu, op: Op)
    requires c.entered == c.left + c.queue
    ensures Apply(c, op).entered == Apply(c, op).left + Apply(c, op).queue
    ensures |Apply(c, op).queue| == LengthAfter(op, |c.queue|)
    ensures Apply(c, op).len == c.len && Apply(c, op).holder == c.holder
  {
    assert c.queue + Added(op) == Taken(c.queue, op) + After(c.queue, op);
    assert (c.left + c.queue) + Added(op) == c.left + (c.queue + Added(op));
    assert c.left + (Taken(c.queue, op) + After(c.queue, op)) == (c.left + Taken(c.queue, op)) + After(c.queue, op);
  }

  lemma AcquireSound(s: State, i: nat, c: nat, op: Op)
    requires Sound(s) && i < |s.agents| && c < |s.cpus| && s.cpus[c].holder.None?
    requires s.agents[i].Ready? && s.agents[i].cpu == c
    ensures Sound(AcquireStep(s, i, c, op))
  {
    assert CpuOk(s, c);
    ApplyKeeps(s.cpus[c], op);
    var cpu := Apply(s.cpus[c], op).(holder := Some(i));
    HolderSound(s, i, c, Changed(c, op, |s.cpus[c].queue|), cpu, AcquireStep(s, i, c, op));
  }

  lemma StoreSound(s: State, i: nat, c: nat)
    requires Sound(s) && i < |s.agents| && s.agents[i].Changed? && s.agents[i].cpu == c < |s.cpus|
    ensures Sound(StoreStep(s, i, c))
  {
    assert CpuOk(s, c) && AgentOk(s, i);
    HolderSound(s, i, c, Stored(c), Restored(s.cpus[c]), StoreStep(s, i, c));
  }

  lemma ReleaseSound(s: State, i: nat, c: nat)
    requires Sound(s) && i < |s.agents| && s.agents[i].Stored? && s.agents[i].cpu == c < |s.cpus|
    ensures Sound(ReleaseStep(s, i, c))
  {
    assert CpuOk(s, c) && AgentOk(s, i);
    HolderSound(s, i, c, Idle, s.cpus[c].(holder := None), ReleaseStep(s, i, c));
  }

  lemma AliveSound(s: State, c: nat, alive: bool)
    requires Sound(s) && c < |s.cpus|
    ensures Sound(SetCpu(s, c, s.cpus[c].(alive := alive)))
  {
    var r := SetCpu(s, c, s.cpus[c].(alive := alive));
    forall b | 0 <= b < |r.cpus|
      ensures CpuOk(r, b)
    {
      assert CpuOk(s, b);
    }
    forall j | 0 <= j < |r.agents|
      ensures AgentOk(r, j)
    {
      assert AgentOk(s, j);
    }
  }

  lemma StepSound(s: State, step: Step)
    requires Sound(s)
    ensures Sound(Next(s, step))
  {
    var r := Next(s, step);
    if r != s {
      if step.SetAlive? {
        AliveSound(s, step.cpu, step.alive);
      } else {
        var i := step.agent;
        var a := s.agents[i];
        assert AgentOk(s, i);
        if step.Acquire? {
          AcquireSound(s, i, a.cpu, a.op);
        } else if step.Store? {
          StoreSound(s, i, a.cpu);
        } else if step.Release? {
          ReleaseSound(s, i, a.cpu);
        } else {
          MoveSound(s, i, r.agents[i], r);
        }
      }
    }
  }

  lemma {:induction false} RunSound(s: State, steps: seq<Step>)
    requires Sound(s)
    ensures Sound(Run(s, steps))
    decreases |steps|
  {
    if steps != [] {
      StepSound(s, steps[0]);
      RunSound(Next(s, steps[0]), steps[1..]);
    }
  }

  /**
    Over every interleaving: each queue is first in, first out, and whenever its lock is free its
    cached length is its length.
  */
  lemma QueuesFifo(n: nat, m: nat, steps: seq<Step>, c: nat)
    requires c < n
    ensures var s := Run(Initial(n, m), steps);
            && |s.cpus| == n
            && s.cpus[c].entered == s.cpus[c].left + s.cpus[c].queue
            && (s.cpus[c].holder.None? ==> s.cpus[c].len == |s.cpus[c].queue|)
  {
    RunSound(Initial(n, m), steps);
    RunSize(Initial(n, m), steps);
    assert CpuOk(Run(Initial(n, m), steps), c);
  }

  lemma {:induction false} RunSize(s: State, steps: seq<Step>)
    ensures |Run(s, steps).cpus| == |s.cpus| && |Run(s, steps).agents| == |s.agents|
    decreases |steps|
  {
    if steps != [] {
      RunSize(Next(s, steps[0]), steps[1..]);
    }
  }

  /** A pop or drain has changed the queue of `c` and is yet to store the smaller length. */
  predicate Shrinking(s: State, c: nat)
    requires c < |s.cpus|
  {
    exists i :: 0 <= i < |s.agents| && s.cpus[c].holder == Some(i) && s.agents[i].Changed?
      && !s.agents[i].op.Push? && s.agents[i].was > 0
  }

  /** The cached length exceeds the queue exactly inside such a window, so a reader can see too much. */
  lemma LengthExact(n: nat, m: nat, steps: seq<Step>, c: nat)
    requires c < n
    ensures var s := Run(Initial(n, m), steps);
            |s.cpus| == n && (s.cpus[c].len <= |s.cpus[c].queue| <==> !Shrinking(s, c))
  {
    var s := Run(Initial(n, m), steps);
    RunSound(Initial(n, m), steps);
    RunSize(Initial(n, m), steps);
    assert CpuOk(s, c);
    if s.cpus[c].holder.Some? {
      var i := s.cpus[c].holder.value;
      assert s.agents[i].Changed? && !s.agents[i].op.Push? && s.agents[i].was > 0 ==> Shrinking(s, c);
    }
  }

  // ---------- A call that is not interrupted ----------

  function Region(i: nat, c: nat, op: Op): seq<Step> { [Call(i, c, op), Acquire(i), Store(i), Release(i)] }

  /** The state after a whole call, as the methods of `Smp` leave it. */
  function Called(s: State, c: nat, op: Op): State
    requires c < |s.cpus|
  {
    SetCpu(s, c, Restored(Apply(s.cpus[c], op))).(issued := s.issued + multiset(Added(op)))
  }

  /** Uninterrupted, the steps of a call leave the queue and its length as the sequential operation does. */
  lemma RegionIsCall(s: State, i: nat, c: nat, op: Op)
    requires i < |s.agents| && s.agents[i].Idle? && c < |s.cpus| && s.cpus[c].holder.None?
    ensures Run(s, Region(i, c, op)) == Called(s, c, op)
  {
    var s1 := Next(s, Call(i, c, op));
    assert multiset(Added(op)) == if op.Push? then multiset{op.pid} else multiset{};
    assert s1 == SetAgent(s, i, Ready(c, op, None)).(issued := s.issued + multiset(Added(op)));
    LockedRegion(s1, i, c, op);
    var s4 := Next(Next(Next(s1, Acquire(i)), Store(i)), Release(i));
    assert s4.agents == s.agents && s4 == Called(s, c, op);
    FourSteps(s, Call(i, c, op), Acquire(i), Store(i), Release(i));
  }

  lemma LockedRegion(s: State, i: nat, c: nat, op: Op)
    requires i < |s.agents| && s.agents[i] == Ready(c, op, None) && c < |s.cpus| && s.cpus[c].holder.None?
    ensures Next(Next(Next(s, Acquire(i)), Store(i)), Release(i)) ==
            SetAgent(SetCpu(s, c, Restored(Apply(s.cpus[c], op))), i, Idle)
  {
    var s2 := Next(s, Acquire(i));
    var s3 := Next(s2, Store(i));
    assert s2 == AcquireStep(s, i, c, op) && s3 == StoreStep(s2, i, c);
  }

  lemma FourSteps(s: State, a: Step, b: Step, c: Step, d: Step)
    ensures Run(s, [a, b, c, d]) == Next(Next(Next(Next(s, a), b), c), d)
  {
    assert [a, b, c, d][1..] == [b, c, d] && [b, c, d][1..] == [c, d] && [c, d][1..] == [d] && [d][1..] == [];
    assert Run(Next(Next(Next(s, a), b), c), [d]) == Next(Next(Next(Next(s, a), b), c), d);
    assert Run(Next(Next(s, a), b), [c, d]) == Run(Next(Next(Next(s, a), b), c), [d]);
  }

  lemma {:induction false} RunAppend(s: State, a: seq<Step>, b: seq<Step>)
    ensures Run(s, a + b) == Run(Run(s, a), b)
    decreases |a|
  {
    if a == [] {
      assert a + b == b;
    } else {
      assert (a + b)[1..] == a[1..] + b;
      RunAppend(Next(s, a[0]), a[1..], b);
    }
  }

  // ---------- A scan that is not interrupted ----------

  function Lens(cpus: seq<Cpu>): (r: seq<nat>)
    ensures |r| == |cpus|
  {
    seq(|cpus|, c requires 0 <= c < |cpus| => cpus[c].len)
  }

  function Alives(cpus: seq<Cpu>): (r: seq<bool>)
    ensures |r| == |cpus|
  {
    seq(|cpus|, c requires 0 <= c < |cpus| => cpus[c].alive)
  }

  /** A scan has passed the first `k` CPUs and holds the right pick among them. */
  predicate Found(cpus: seq<Cpu>, a: Agent, k: nat) {
    && (a.Routing? || a.Stealing?) && k <= |cpus| && a.scan.at == k && !a.scan.sawAlive
    && (a.Routing? ==>
          if a.scan.pick.Some? then
            var c := a.scan.pick.value.cpu;
            FirstLeast(Lens(cpus), Alives(cpus), k, c) && a.scan.load == Lens(cpus)[c] < USIZE_MAX
          else a.scan.load == USIZE_MAX && !Routable(Lens(cpus), Alives(cpus), k))
    && (a.Stealing? ==>
          if a.scan.pick.Some? then
            var c := a.scan.pick.value.cpu;
            FirstMost(Lens(cpus), Alives(cpus), a.thief, k, c) && a.scan.load == Lens(cpus)[c]
          else a.scan.load == 1 && forall j :: 0 <= j < k ==> !Spare(Lens(cpus), Alives(cpus), a.thief, j))
  }

  /** The same call: routing the same pid, or stealing for the same CPU. */
  predicate SameCall(a: Agent, b: Agent) {
    (a.Routing? && b.Routing? && a.pid == b.pid) || (a.Stealing? && b.Stealing? && a.thief == b.thief)
  }

  /** What two loads make of a scan at CPU `k`. */
  function PassOne(c: Cpu, a: Agent, k: nat): Agent
    requires a.Routing? || a.Stealing?
  {
    if c.alive && !(a.Stealing? && k == a.thief) then Looked(WithScan(a, a.scan.(sawAlive := true)), LookAt(k, c))
    else WithScan(a, a.scan.(at := k + 1))
  }

  lemma PassSteps(s: State, i: nat)
    requires i < |s.agents| && (s.agents[i].Routing? || s.agents[i].Stealing?)
    requires s.agents[i].scan.at < |s.cpus| && !s.agents[i].scan.sawAlive
    ensures var at := s.agents[i].scan.at;
            Next(Next(s, LoadAlive(i)), LoadLength(i)) == SetAgent(s, i, PassOne(s.cpus[at], s.agents[i], at))
  {
  }

  lemma PassRouting(cpus: seq<Cpu>, a: Agent, k: nat)
    requires k < |cpus| && a.Routing? && Found(cpus, a, k)
    ensures Found(cpus, PassOne(cpus[k], a, k), k + 1) && SameCall(a, PassOne(cpus[k], a, k))
  {
    assert Lens(cpus)[k] == cpus[k].len && Alives(cpus)[k] == cpus[k].alive;
  }

  lemma PassStealing(cpus: seq<Cpu>, a: Agent, k: nat)
    requires k < |cpus| && a.Stealing? && Found(cpus, a, k)
    ensures Found(cpus, PassOne(cpus[k], a, k), k + 1) && SameCall(a, PassOne(cpus[k], a, k))
  {
    assert Lens(cpus)[k] == cpus[k].len && Alives(cpus)[k] == cpus[k].alive;
  }

  /** Two loads for each of `n` CPUs. */
  function Loads(i: nat, n: nat): seq<Step> { if n == 0 then [] else [LoadAlive(i), LoadLength(i)] + Loads(i, n - 1) }

  lemma {:induction false} ScanPasses(s: State, i: nat, k: nat) returns (a: Agent)
    requires i < |s.agents| && k <= |s.cpus| && Found(s.cpus, s.agents[i], k)
    ensures Found(s.cpus, a, |s.cpus|) && SameCall(s.agents[i], a)
    ensures Run(s, Loads(i, |s.cpus| - k)) == SetAgent(s, i, a)
    decreases |s.cpus| - k
  {
    if k == |s.cpus| {
      a := s.agents[i];
    } else {
      var b := PassOne(s.cpus[k], s.agents[i], k);
      if s.agents[i].Routing? { PassRouting(s.cpus, s.agents[i], k); } else { PassStealing(s.cpus, s.agents[i], k); }
      PassSteps(s, i);
      a := ScanPasses(SetAgent(s, i, b), i, k + 1);
      var rest := Loads(i, |s.cpus| - (k + 1));
      RunAppend(s, [LoadAlive(i), LoadLength(i)], rest);
      TwoSteps(s, LoadAlive(i), LoadLength(i));
      assert SetAgent(SetAgent(s, i, b), i, a) == SetAgent(s, i, a);
    }
  }

  /** Uninterrupted, routing goes to the CPU `least_loaded_cpu` names. */
  lemma RoutingIsCall(s: State, i: nat, pid: nat)
    requires i < |s.agents| && s.agents[i].Idle?
    ensures var r := Run(s, [CallBalanced(i, pid)] + Loads(i, |s.cpus|) + [LoadAlive(i)]);
            var lens, alive := Lens(s.cpus), Alives(s.cpus);
            && |r.agents| == |s.agents| && r.cpus == s.cpus && r.agents[i].Ready? && r.agents[i].op == Push(pid)
            && (Routable(lens, alive, |lens|) ==> FirstLeast(lens, alive, |lens|, r.agents[i].cpu))
            && (!Routable(lens, alive, |lens|) ==> r.agents[i].cpu == 0)
  {
    var s1 := Next(s, CallBalanced(i, pid));
    var a := ScanPasses(s1, i, 0);
    RunAppend(s, [CallBalanced(i, pid)] + Loads(i, |s.cpus|), [LoadAlive(i)]);
    RunAppend(s, [CallBalanced(i, pid)], Loads(i, |s.cpus|));
    OneStep(s, CallBalanced(i, pid));
    OneStep(SetAgent(s1, i, a), LoadAlive(i));
    RoutableEnd(s.cpus, a);
  }

  lemma RoutableEnd(cpus: seq<Cpu>, a: Agent)
    requires a.Routing? && Found(cpus, a, |cpus|)
    ensures Routable(Lens(cpus), Alives(cpus), |cpus|) <==> a.scan.pick.Some?
  {
  }

  /** Uninterrupted, a thief goes for the CPU `steal_from_peer` names, or gives up where it does. */
  lemma StealingIsCall(s: State, i: nat, thief: nat)
    requires i < |s.agents| && s.agents[i].Idle?
    ensures var r := Run(s, [CallSteal(i, thief)] + Loads(i, |s.cpus|) + [LoadAlive(i)]);
            var lens, alive := Lens(s.cpus), Alives(s.cpus);
            && |r.agents| == |s.agents| && r.cpus == s.cpus
            && (r.agents[i].Idle? <==> !exists c :: Spare(lens, alive, thief, c))
            && (!r.agents[i].Idle? ==>
                 r.agents[i].Ready? && r.agents[i].op == Pop && FirstMost(lens, alive, thief, |lens|, r.agents[i].cpu))
  {
    var s1 := Next(s, CallSteal(i, thief));
    var a := ScanPasses(s1, i, 0);
    RunAppend(s, [CallSteal(i, thief)] + Loads(i, |s.cpus|), [LoadAlive(i)]);
    RunAppend(s, [CallSteal(i, thief)], Loads(i, |s.cpus|));
    OneStep(s, CallSteal(i, thief));
    OneStep(SetAgent(s1, i, a), LoadAlive(i));
  }

  /** Inside a pop of the only pid, a reader sees one more than the queue holds. */
  lemma LengthTooLarge(pid: nat)
    ensures var s := Run(Initial(1, 1), Region(0, 0, Push(pid)) + [Call(0, 0, Pop), Acquire(0)]);
            |s.cpus| == 1 && s.cpus[0].queue == [] && s.cpus[0].len == 1
  {
    var s := Initial(1, 1);
    RunAppend(s, Region(0, 0, Push(pid)), [Call(0, 0, Pop), Acquire(0)]);
    RegionIsCall(s, 0, 0, Push(pid));
    TwoSteps(Called(s, 0, Push(pid)), Call(0, 0, Pop), Acquire(0));
  }

  lemma TwoSteps(s: State, a: Step, b: Step)
    ensures Run(s, [a, b]) == Next(Next(s, a), b)
  {
    assert [a, b][1..] == [b] && [b][1..] == [];
    assert Run(Next(s, a), [b]) == Next(Next(s, a), b);
  }

  // ---------- Stealing ----------

  /** Whether the holder of a CPU's lock, if any, has stored the cached length. */
  predicate UpToDate(s: State, c: nat)
    requires c < |s.cpus|
  {
    var h := s.cpus[c].holder;
    h.None? || (h.value < |s.agents| && s.agents[h.value].Stored?)
  }

  /** The cached length is of what had entered and left when it was stored; nothing is missing when it is up to date. */
  predicate Recorded(s: State, c: nat)
    requires c < |s.cpus|
  {
    var cpu := s.cpus[c];
    && cpu.len + cpu.outs == cpu.ins && cpu.ins <= |cpu.entered| && cpu.outs <= |cpu.left|
    && (UpToDate(s, c) ==> cpu.ins == |cpu.entered| && cpu.outs == |cpu.left|)
  }

  /** A look a CPU's counts have only grown since. */
  predicate Fair(s: State, l: Look) {
    && l.cpu < |s.cpus| && l.load + l.outs == l.ins
    && l.ins <= s.cpus[l.cpu].ins && l.outs <= s.cpus[l.cpu].outs
  }

  /** A thief's pick, while it scans and when it goes for the lock, is of a CPU it saw with two pids or more. */
  predicate SawSpare(s: State, a: Agent) {
    && (a.Stealing? ==> if a.scan.pick.Some? then a.scan.load == a.scan.pick.value.load >= 2 else a.scan.load == 1)
    && (a.Stealing? && a.scan.pick.Some? ==> Fair(s, a.scan.pick.value))
    && (a.Ready? && a.look.Some? ==>
         a.op == Pop && a.look.value.cpu == a.cpu && a.look.value.load >= 2 && Fair(s, a.look.value))
  }

  predicate Looking(s: State) {
    && (forall c :: 0 <= c < |s.cpus| ==> Recorded(s, c))
    && (forall i :: 0 <= i < |s.agents| ==> SawSpare(s, s.agents[i]))
  }

  /** Every CPU keeps its counts or lets them grow, and every other agent stays. */
  lemma LookingKept(s: State, r: State, i: nat)
    requires Looking(s) && i < |s.agents| == |r.agents| && |r.cpus| == |s.cpus|
    requires forall j :: 0 <= j < |s.agents| && j != i ==> r.agents[j] == s.agents[j]
    requires forall c :: 0 <= c < |s.cpus| ==> s.cpus[c].ins <= r.cpus[c].ins && s.cpus[c].outs <= r.cpus[c].outs
    requires forall c :: 0 <= c < |r.cpus| ==> Recorded(r, c)
    requires SawSpare(r, r.agents[i])
    ensures Looking(r)
  {
    forall j | 0 <= j < |r.agents|
      ensures SawSpare(r, r.agents[j])
    {
      if j != i { assert SawSpare(s, s.agents[j]); }
    }
  }

  /** A step that leaves all CPUs as they are. */
  lemma MoveLooking(s: State, r: State, i: nat)
    requires Sound(s) && Looking(s) && i < |s.agents| == |r.agents|
    requires r.cpus == s.cpus && r.agents == s.agents[i := r.agents[i]]
    requires !s.agents[i].Changed? && !s.agents[i].Stored? && SawSpare(r, r.agents[i])
    ensures Looking(r)
  {
    forall c | 0 <= c < |r.cpus|
      ensures Recorded(r, c)
    {
      assert Recorded(s, c) && CpuOk(s, c);
    }
    LookingKept(s, r, i);
  }

  /** A step of a lock's holder, old or new, at its CPU. */
  lemma HolderLooking(s: State, r: State, i: nat, c: nat)
    requires Sound(s) && Looking(s) && i < |s.agents| == |r.agents| && c < |s.cpus| == |r.cpus|
    requires r.agents == s.agents[i := r.agents[i]] && r.cpus == s.cpus[c := r.cpus[c]]
    requires s.cpus[c].holder.None? || s.cpus[c].holder == Some(i)
    requires s.agents[i].Changed? || s.agents[i].Stored? ==> s.agents[i].cpu == c
    requires s.cpus[c].ins <= r.cpus[c].ins && s.cpus[c].outs <= r.cpus[c].outs && Recorded(r, c)
    requires !r.agents[i].Stealing? && !r.agents[i].Ready?
    ensures Looking(r)
  {
    forall b | 0 <= b < |r.cpus|
      ensures Recorded(r, b)
    {
      assert Recorded(s, b) && CpuOk(s, b);
    }
    LookingKept(s, r, i);
  }

  lemma StepLooking(s: State, step: Step)
    requires Sound(s) && Looking(s)
    ensures Looking(Next(s, step))
  {
    var r := Next(s, step);
    if r != s {
      if step.SetAlive? {
        AliveLooking(s, step.cpu, step.alive);
      } else {
        var i := step.agent;
        var a := s.agents[i];
        assert AgentOk(s, i) && SawSpare(s, a);
        if step.Acquire? {
          assert Recorded(s, a.cpu);
          ApplyGrows(s.cpus[a.cpu], a.op);
          HolderLooking(s, r, i, a.cpu);
        } else if step.Store? || step.Release? {
          assert Recorded(s, a.cpu) && CpuOk(s, a.cpu);
          HolderLooking(s, r, i, a.cpu);
        } else {
          AgentLooks(s, step);
          MoveLooking(s, r, i);
        }
      }
    }
  }

  /** Calls and loads keep an agent's looks fair. */
  lemma AgentLooks(s: State, step: Step)
    requires Sound(s) && Looking(s) && !step.SetAlive? && !step.Acquire? && !step.Store? && !step.Release?
    requires step.agent < |s.agents|
    ensures SawSpare(Next(s, step), Next(s, step).agents[step.agent])
  {
    var a := s.agents[step.agent];
    assert SawSpare(s, a);
    if step.LoadLength? && (a.Routing? || a.Stealing?) && a.scan.at < |s.cpus| { assert Recorded(s, a.scan.at); }
  }

  lemma ApplyGrows(c: Cpu, op: Op)
    ensures |c.entered| <= |Apply(c, op).entered| && |c.left| <= |Apply(c, op).left|
    ensures Apply(c, op).ins == c.ins && Apply(c, op).outs == c.outs && Apply(c, op).len == c.len
  {
  }

  lemma AliveLooking(s: State, c: nat, alive: bool)
    requires Looking(s) && c < |s.cpus|
    ensures Looking(SetCpu(s, c, s.cpus[c].(alive := alive)))
  {
    var r := SetCpu(s, c, s.cpus[c].(alive := alive));
    forall b | 0 <= b < |r.cpus|
      ensures Recorded(r, b)
    {
      assert Recorded(s, b);
    }
    forall j | 0 <= j < |r.agents|
      ensures SawSpare(r, r.agents[j])
    {
      assert SawSpare(s, s.agents[j]);
    }
  }

  lemma {:induction false} RunLooking(s: State, steps: seq<Step>)
    requires Sound(s) && Looking(s)
    ensures Looking(Run(s, steps))
    decreases |steps|
  {
    if steps != [] {
      StepLooking(s, steps[0]);
      StepSound(s, steps[0]);
      RunLooking(Next(s, steps[0]), steps[1..]);
    }
  }

  /** Pids that entered, and that left, a CPU's queue between a look and now, by what was stored. */
  function Pushed(s: State, l: Look): nat
    requires Fair(s, l)
  {
    s.cpus[l.cpu].ins - l.ins
  }

  function Pulled(s: State, l: Look): nat
    requires Fair(s, l)
  {
    s.cpus[l.cpu].outs - l.outs
  }

  /**
    Over every interleaving: a thief that goes for a lock saw two pids or more there, takes the oldest
    that is there when it gets the lock, and leaves none exactly when one less than it saw have gone,
    on balance, between its look and the lock.
  */
  lemma StealExact(n: nat, m: nat, before: seq<Step>, i: nat)
    requires 0 < n && i < m
    ensures var s := Run(Initial(n, m), before);
            |s.agents| == m && (s.agents[i].Ready? && s.agents[i].look.Some? ==>
              var l := s.agents[i].look.value;
              && Fair(s, l) && l.load >= 2 && s.agents[i].cpu == l.cpu
              && (s.cpus[l.cpu].holder.None? ==>
                   var was, now := s.cpus[l.cpu], Next(s, Acquire(i)).cpus[l.cpu];
                   && now.left == was.left + Taken(was.queue, Pop)
                   && (was.queue != [] && now.queue == [] <==> Pulled(s, l) == Pushed(s, l) + l.load - 1)))
  {
    var s := Run(Initial(n, m), before);
    RunSound(Initial(n, m), before);
    RunSize(Initial(n, m), before);
    RunLooking(Initial(n, m), before);
    assert SawSpare(s, s.agents[i]);
    if s.agents[i].Ready? && s.agents[i].look.Some? {
      var c := s.agents[i].look.value.cpu;
      assert CpuOk(s, c) && Recorded(s, c);
    }
  }

  function QueueTwo(p: nat, q: nat): seq<Step> {
    [SetAlive(0, true)] + Region(1, 0, Push(p)) + Region(1, 0, Push(q))
  }

  lemma TwoQueued(p: nat, q: nat)
    ensures var s := Run(Initial(1, 2), QueueTwo(p, q));
            && s.agents == [Idle, Idle]
            && s.cpus == [Cpu(true, [p, q], 2, None, [p, q], [], 2, 0)]
  {
    var s0 := Initial(1, 2);
    var s1 := Next(s0, SetAlive(0, true));
    OneStep(s0, SetAlive(0, true));
    RunAppend(s0, [SetAlive(0, true)] + Region(1, 0, Push(p)), Region(1, 0, Push(q)));
    RunAppend(s0, [SetAlive(0, true)], Region(1, 0, Push(p)));
    RegionIsCall(s1, 1, 0, Push(p));
    RegionIsCall(Called(s1, 0, Push(p)), 1, 0, Push(q));
    assert s1.cpus[0] == Cpu(true, [], 0, None, [], [], 0, 0);
    PushedFirst(s1.cpus[0], p);
    PushedSecond(Cpu(true, [p], 1, None, [p], [], 1, 0), p, q);
  }

  lemma PushedFirst(c: Cpu, p: nat)
    requires c == Cpu(true, [], 0, None, [], [], 0, 0)
    ensures Restored(Apply(c, Push(p))) == Cpu(true, [p], 1, None, [p], [], 1, 0)
  {
    assert c.queue + [p] == [p] && c.left + [] == [];
  }

  lemma PushedSecond(c: Cpu, p: nat, q: nat)
    requires c == Cpu(true, [p], 1, None, [p], [], 1, 0)
    ensures Restored(Apply(c, Push(q))) == Cpu(true, [p, q], 2, None, [p, q], [], 2, 0)
  {
    assert c.queue + [q] == [p, q] && c.left + [] == [];
  }

  /** A thief looks at CPU 0, its queue is popped, and the thief gets the lock. */
  function LookPopTake(): seq<Step> {
    [CallSteal(0, 1), LoadAlive(0), LoadLength(0), LoadAlive(0)] + Region(1, 0, Pop) + [Acquire(0)]
  }

  lemma LastTaken(s: State, p: nat, q: nat)
    requires s.agents == [Idle, Idle] && s.cpus == [Cpu(true, [p, q], 2, None, [p, q], [], 2, 0)]
    ensures var r := Run(s, LookPopTake());
            && |r.agents| == 2 && r.agents[0] == Changed(0, Pop, 1)
            && |r.cpus| == 1 && r.cpus[0].queue == [] && r.cpus[0].left == [p, q]
  {
    var scan := [CallSteal(0, 1), LoadAlive(0), LoadLength(0), LoadAlive(0)];
    RunAppend(s, scan + Region(1, 0, Pop), [Acquire(0)]);
    RunAppend(s, scan, Region(1, 0, Pop));
    FourSteps(s, CallSteal(0, 1), LoadAlive(0), LoadLength(0), LoadAlive(0));
    ScanSees(s);
    PopThenTake(SetAgent(s, 0, Ready(0, Pop, Some(Look(0, 2, 2, 0)))), p, q);
  }

  lemma PopThenTake(s: State, p: nat, q: nat)
    requires s.agents == [Ready(0, Pop, Some(Look(0, 2, 2, 0))), Idle]
    requires s.cpus == [Cpu(true, [p, q], 2, None, [p, q], [], 2, 0)]
    ensures var r := Run(Run(s, Region(1, 0, Pop)), [Acquire(0)]);
            && |r.agents| == 2 && r.agents[0] == Changed(0, Pop, 1)
            && |r.cpus| == 1 && r.cpus[0].queue == [] && r.cpus[0].left == [p, q]
  {
    RegionIsCall(s, 1, 0, Pop);
    var t := Called(s, 0, Pop);
    assert [p, q][..1] == [p] && [p, q][1..] == [q] && [] + [p] == [p];
    assert t.cpus[0].queue == [q] && t.cpus[0].left == [p];
    OneStep(t, Acquire(0));
    assert [q][1..] == [] && [q][..1] == [q] && [p] + [q] == [p, q];
  }

  /** Two pids are queued, the thief sees them, a pop takes one, and the steal leaves the victim with none. */
  lemma StealEmpties(p: nat, q: nat)
    ensures var s := Run(Initial(1, 2), QueueTwo(p, q) + LookPopTake());
            && |s.agents| == 2 && s.agents[0] == Changed(0, Pop, 1)
            && |s.cpus| == 1 && s.cpus[0].queue == [] && s.cpus[0].left == [p, q]
  {
    RunAppend(Initial(1, 2), QueueTwo(p, q), LookPopTake());
    TwoQueued(p, q);
    LastTaken(Run(Initial(1, 2), QueueTwo(p, q)), p, q);
  }

  lemma OneStep(s: State, a: Step)
    ensures Run(s, [a]) == Next(s, a)
  {
    assert [a][1..] == [];
  }

  lemma ScanSees(s: State)
    requires |s.cpus| == 1 && |s.agents| == 2 && s.agents[0].Idle? && s.cpus[0].alive
    requires LookAt(0, s.cpus[0]) == Look(0, 2, 2, 0)
    ensures Next(Next(Next(Next(s, CallSteal(0, 1)), LoadAlive(0)), LoadLength(0)), LoadAlive(0)) ==
            SetAgent(s, 0, Ready(0, Pop, Some(Look(0, 2, 2, 0))))
  {
    var s1 := Next(s, CallSteal(0, 1));
    var s2 := Next(s1, LoadAlive(0));
    var s3 := Next(s2, LoadLength(0));
    assert s2 == SetAgent(s, 0, Stealing(1, Scan(0, true, None, 1)));
    assert s3 == SetAgent(s, 0, Stealing(1, Scan(1, false, Some(Look(0, 2, 2, 0)), 2)));
  }

  // ---------- Conservation ----------

  function Times(q: seq<nat>, v: nat): nat { multiset(q)[v] }

  /** The pid an agent was given and has not pushed yet. */
  function HeldPid(a: Agent): Option<nat> {
    if a.Routing? then Some(a.pid) else if a.Ready? && a.op.Push? then Some(a.op.pid) else None
  }

  function HeldOne(a: Agent, v: nat): nat { if HeldPid(a) == Some(v) then 1 else 0 }

  function HeldCount(agents: seq<Agent>, v: nat): nat {
    if agents == [] then 0 else HeldCount(agents[..|agents| - 1], v) + HeldOne(agents[|agents| - 1], v)
  }

  function EnteredCount(cpus: seq<Cpu>, v: nat): nat {
    if cpus == [] then 0 else EnteredCount(cpus[..|cpus| - 1], v) + Times(cpus[|cpus| - 1].entered, v)
  }

  function QueuedCount(cpus: seq<Cpu>, v: nat): nat {
    if cpus == [] then 0 else QueuedCount(cpus[..|cpus| - 1], v) + Times(cpus[|cpus| - 1].queue, v)
  }

  function LeftCount(cpus: seq<Cpu>, v: nat): nat {
    if cpus == [] then 0 else LeftCount(cpus[..|cpus| - 1], v) + Times(cpus[|cpus| - 1].left, v)
  }

  /** Every pid given to an enqueue is in a caller's hands or has entered a queue. */
  predicate Issued(s: State, v: nat) { s.issued[v] == HeldCount(s.agents, v) + EnteredCount(s.cpus, v) }

  lemma {:induction false} HeldUpdate(agents: seq<Agent>, i: nat, a: Agent, v: nat)
    requires i < |agents|
    ensures HeldCount(agents[i := a], v) == HeldCount(agents, v) - HeldOne(agents[i], v) + HeldOne(a, v)
    decreases |agents|
  {
    var last := |agents| - 1;
    if i == last {
      assert agents[i := a][..last] == agents[..last];
    } else {
      assert agents[i := a][..last] == agents[..last][i := a];
      HeldUpdate(agents[..last], i, a, v);
    }
  }

  lemma {:induction false} EnteredUpdate(cpus: seq<Cpu>, c: nat, cpu: Cpu, v: nat)
    requires c < |cpus|
    ensures EnteredCount(cpus[c := cpu], v) == EnteredCount(cpus, v) - Times(cpus[c].entered, v) + Times(cpu.entered, v)
    decreases |cpus|
  {
    var last := |cpus| - 1;
    if c == last {
      assert cpus[c := cpu][..last] == cpus[..last];
    } else {
      assert cpus[c := cpu][..last] == cpus[..last][c := cpu];
      EnteredUpdate(cpus[..last], c, cpu, v);
    }
  }

  /** The locked change pushes the pid the agent held, if any. */
  lemma AcquireIssued(s: State, i: nat, c: nat, op: Op, v: nat)
    requires Issued(s, v) && i < |s.agents| && c < |s.cpus|
    requires s.agents[i].Ready? && s.agents[i].cpu == c && s.agents[i].op == op
    ensures Issued(AcquireStep(s, i, c, op), v)
  {
    var cpu := Apply(s.cpus[c], op).(holder := Some(i));
    HeldUpdate(s.agents, i, Changed(c, op, |s.cpus[c].queue|), v);
    EnteredUpdate(s.cpus, c, cpu, v);
    assert Times(cpu.entered, v) == Times(s.cpus[c].entered, v) + HeldOne(s.agents[i], v);
  }

  lemma StoreIssued(s: State, i: nat, c: nat, v: nat)
    requires Issued(s, v) && i < |s.agents| && c < |s.cpus| && s.agents[i].Changed?
    ensures Issued(StoreStep(s, i, c), v)
  {
    HeldUpdate(s.agents, i, Stored(c), v);
    EnteredUpdate(s.cpus, c, Restored(s.cpus[c]), v);
  }

  lemma ReleaseIssued(s: State, i: nat, c: nat, v: nat)
    requires Issued(s, v) && i < |s.agents| && c < |s.cpus| && s.agents[i].Stored?
    ensures Issued(ReleaseStep(s, i, c), v)
  {
    HeldUpdate(s.agents, i, Idle, v);
    EnteredUpdate(s.cpus, c, s.cpus[c].(holder := None), v);
  }

  /** A call may bring one more pid. */
  lemma CallIssued(s: State, step: Step, i: nat, v: nat)
    requires Issued(s, v) && i < |s.agents| && (step.CallBalanced? || step.CallSteal? || step.Call?)
    ensures Issued(AgentStep(s, step, i), v)
  {
    HeldUpdate(s.agents, i, AgentStep(s, step, i).agents[i], v);
  }

  /** A scan keeps the pid it routes. */
  lemma ScanIssued(s: State, step: Step, i: nat, v: nat)
    requires Issued(s, v) && i < |s.agents| && (step.LoadAlive? || step.LoadLength?)
    ensures Issued(AgentStep(s, step, i), v)
  {
    var a := AgentStep(s, step, i).agents[i];
    assert HeldPid(a) == HeldPid(s.agents[i]);
    HeldUpdate(s.agents, i, a, v);
  }

  lemma StepIssued(s: State, step: Step, v: nat)
    requires Issued(s, v)
    ensures Issued(Next(s, step), v)
  {
    if step.SetAlive? {
      if step.cpu < |s.cpus| {
        EnteredUpdate(s.cpus, step.cpu, s.cpus[step.cpu].(alive := step.alive), v);
      }
    } else if step.agent < |s.agents| {
      var a := s.agents[step.agent];
      if step.Acquire? {
        if a.Ready? && a.cpu < |s.cpus| { AcquireIssued(s, step.agent, a.cpu, a.op, v); }
      } else if step.Store? {
        if a.Changed? && a.cpu < |s.cpus| { StoreIssued(s, step.agent, a.cpu, v); }
      } else if step.Release? {
        if a.Stored? && a.cpu < |s.cpus| { ReleaseIssued(s, step.agent, a.cpu, v); }
      } else if step.LoadAlive? || step.LoadLength? {
        ScanIssued(s, step, step.agent, v);
      } else {
        CallIssued(s, step, step.agent, v);
      }
    }
  }

  lemma {:induction false} RunIssued(s: State, steps: seq<Step>, v: nat)
    requires Issued(s, v)
    ensures Issued(Run(s, steps), v)
    decreases |steps|
  {
    if steps != [] {
      StepIssued(s, steps[0], v);
      RunIssued(Next(s, steps[0]), steps[1..], v);
    }
  }

  lemma {:induction false} NothingYet(n: nat, m: nat, v: nat)
    ensures Issued(Initial(n, m), v)
  {
    if n > 0 {
      NothingYet(n - 1, m, v);
      assert Initial(n, m).cpus[..n - 1] == Initial(n - 1, m).cpus;
    } else if m > 0 {
      NothingYet(n, m - 1, v);
      assert Initial(n, m).agents[..m - 1] == Initial(n, m - 1).agents;
    }
  }

  lemma {:induction false} EnteredSplits(cpus: seq<Cpu>, v: nat)
    requires forall c :: 0 <= c < |cpus| ==> cpus[c].entered == cpus[c].left + cpus[c].queue
    ensures EnteredCount(cpus, v) == LeftCount(cpus, v) + QueuedCount(cpus, v)
  {
    if cpus != [] {
      EnteredSplits(cpus[..|cpus| - 1], v);
    }
  }

  /**
    Over every interleaving with stale loads: each pid was given to the run queues as often as it is
    in a caller's hands, is queued, or was dequeued, stolen or drained.
  */
  lemma Conservation(n: nat, m: nat, steps: seq<Step>, v: nat)
    requires n > 0
    ensures var s := Run(Initial(n, m), steps);
            s.issued[v] == HeldCount(s.agents, v) + LeftCount(s.cpus, v) + QueuedCount(s.cpus, v)
  {
    var s := Run(Initial(n, m), steps);
    NothingYet(n, m, v);
    RunIssued(Initial(n, m), steps, v);
    RunSound(Initial(n, m), steps);
    forall c | 0 <= c < |s.cpus|
      ensures s.cpus[c].entered == s.cpus[c].left + s.cpus[c].queue
    {
      assert CpuOk(s, c);
    }
    EnteredSplits(s.cpus, v);
  }
}
