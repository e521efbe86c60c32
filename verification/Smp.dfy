/**
  The per-CPU run queues of `src/smp.rs` and the routing loops over them, run one call at a time.
  `SmpRuns` models the same operations interleaved.
*/
module Smp {
  import opened Wrappers

  /** What a locked region does with a queue. */
  datatype Op = Push(pid: nat) | Pop | Drain

  /** What is added to a queue. */
  function Added(op: Op): seq<nat> { if op.Push? then [op.pid] else [] }

  /** What is taken from a queue, and in which order. */
  function Taken(q: seq<nat>, op: Op): seq<nat> {
    match op
    case Push(_) => []
    case Pop => if q == [] then [] else q[..1]
    case Drain => q
  }

  /** The queue after it. */
  function After(q: seq<nat>, op: Op): seq<nat> {
    match op
    case Push(pid) => q + [pid]
    case Pop => if q == [] then q else q[1..]
    case Drain => []
  }

  const USIZE_MAX: nat := 0xffff_ffff_ffff_ffff

  /** Loads of the CPUs up to `n` that are alive, added up. */
  function AliveSum(lens: seq<nat>, alive: seq<bool>, n: nat): nat
    requires n <= |lens| == |alive|
  {
    if n == 0 then 0 else AliveSum(lens, alive, n - 1) + if alive[n - 1] then lens[n - 1] else 0
  }

  /** The places in the queues of the first `n` CPUs that are alive. */
  function AlivePlaces(lens: seq<nat>, alive: seq<bool>, n: nat): set<(nat, nat)>
    requires n <= |lens| == |alive|
  {
    set i: nat, k: nat | i < n && alive[i] && k < lens[i] :: (i, k)
  }

  /** The sum is the number of pids queued on CPUs that are alive. */
  lemma {:induction false} AliveSumCounts(lens: seq<nat>, alive: seq<bool>, n: nat)
    requires n <= |lens| == |alive|
    ensures AliveSum(lens, alive, n) == |AlivePlaces(lens, alive, n)|
    decreases n
  {
    if n == 0 {
      assert AlivePlaces(lens, alive, 0) == {};
    } else {
      var before, last := AlivePlaces(lens, alive, n - 1), Row(n - 1, if alive[n - 1] then lens[n - 1] else 0);
      AliveSumCounts(lens, alive, n - 1);
      RowSize(n - 1, if alive[n - 1] then lens[n - 1] else 0);
      assert AlivePlaces(lens, alive, n) == before + last && before !! last;
    }
  }

  function Row(i: nat, len: nat): set<(nat, nat)> { set k: nat | k < len :: (i, k) }

  lemma {:induction false} RowSize(i: nat, len: nat)
    ensures |Row(i, len)| == len
    decreases len
  {
    if len > 0 {
      RowSize(i, len - 1);
      assert Row(i, len) == Row(i, len - 1) + {(i, len - 1)};
    }
  }

  /** `c` is alive and first among the least loaded of the first `n` CPUs. */
  predicate FirstLeast(lens: seq<nat>, alive: seq<bool>, n: nat, c: nat)
    requires n <= |lens| == |alive|
  {
    && c < n && alive[c]
    && (forall i :: 0 <= i < n && alive[i] ==> lens[c] <= lens[i])
    && (forall i :: 0 <= i < c && alive[i] ==> lens[c] < lens[i])
  }

  /** Some alive CPU has a load below the start value of the scan. */
  predicate Routable(lens: seq<nat>, alive: seq<bool>, n: nat)
    requires n <= |lens| == |alive|
  {
    exists i :: 0 <= i < n && alive[i] && lens[i] < USIZE_MAX
  }

  /** A CPU a thief may take from. */
  predicate Spare(lens: seq<nat>, alive: seq<bool>, thief: nat, i: nat)
    requires |lens| == |alive|
  {
    i < |lens| && i != thief && alive[i] && lens[i] >= 2
  }

  /** `c` is first among the most loaded CPUs, below `n`, that `thief` may take from. */
  predicate FirstMost(lens: seq<nat>, alive: seq<bool>, thief: nat, n: nat, c: nat)
    requires n <= |lens| == |alive|
  {
    && c < n && Spare(lens, alive, thief, c)
    && (forall i :: 0 <= i < n && Spare(lens, alive, thief, i) ==> lens[i] <= lens[c])
    && (forall i :: 0 <= i < c && Spare(lens, alive, thief, i) ==> lens[i] < lens[c])
  }

  /** No two alive CPUs differ in load by more than `gap`. */
  predicate GapAtMost(lens: seq<nat>, alive: seq<bool>, gap: nat)
    requires |lens| == |alive|
  {
    forall i, j :: 0 <= i < |lens| && 0 <= j < |lens| && alive[i] && alive[j] ==> lens[i] <= lens[j] + gap
  }

  class RunQueues {
    var queues: seq<seq<nat>>
    var lens: seq<nat>
    var alive: seq<bool>

    /** Each cached length is the length of its queue. */
    predicate Valid()
      reads this
    {
      && 0 < |queues| == |lens| == |alive| <= 256
      && forall i :: 0 <= i < |queues| ==> lens[i] == |queues[i]|
    }

    constructor (n: nat)
      requires 0 < n <= 256
      ensures Valid() && queues == seq(n, i => []) && alive == seq(n, i => false)
    {
      queues, lens, alive := seq(n, i => []), seq(n, i => 0), seq(n, i => false);
    }

    method Enqueue(cpu: nat, pid: nat)
      requires Valid() && cpu < |queues|
      modifies this`queues, this`lens
      ensures Valid() && queues == old(queues)[cpu := After(old(queues)[cpu], Push(pid))]
      ensures queues[cpu] == old(queues)[cpu] + [pid]
      ensures lens == old(lens)[cpu := old(lens)[cpu] + 1]
    {
      queues := queues[cpu := queues[cpu] + [pid]];
      lens := lens[cpu := |queues[cpu]|];
    }

    /** `dequeue_on`: a CPU number out of range has nothing to give. */
    method DequeueOn(cpu: nat) returns (r: Option<nat>)
      requires Valid()
      modifies this`queues, this`lens
      ensures Valid() && r.Some? == (cpu < |old(queues)| && old(queues)[cpu] != [])
      ensures r.None? ==> queues == old(queues) && lens == old(lens)
      ensures r.Some? ==>
        && [r.value] == Taken(old(queues)[cpu], Pop) && queues == old(queues)[cpu := After(old(queues)[cpu], Pop)]
        && [r.value] + queues[cpu] == old(queues)[cpu]
    {
      if cpu >= |queues| { return None; }
      if queues[cpu] == [] {
        lens := lens[cpu := 0];
        return None;
      }
      r := Some(queues[cpu][0]);
      queues := queues[cpu := queues[cpu][1..]];
      lens := lens[cpu := |queues[cpu]|];
    }

    method Drain(cpu: nat) returns (pids: seq<nat>)
      requires Valid() && cpu < |queues|
      modifies this`queues, this`lens
      ensures Valid() && pids == Taken(old(queues)[cpu], Op.Drain)
      ensures queues == old(queues)[cpu := After(old(queues)[cpu], Op.Drain)]
      ensures pids == old(queues)[cpu] && queues[cpu] == []
    {
      pids := queues[cpu];
      queues := queues[cpu := []];
      lens := lens[cpu := 0];
    }

    method TotalRunnable() returns (sum: nat)
      requires Valid()
      ensures sum == AliveSum(lens, alive, |lens|) == |AlivePlaces(lens, alive, |lens|)|
    {
      AliveSumCounts(lens, alive, |lens|);
      sum := 0;
      for i := 0 to |lens|
        invariant sum == AliveSum(lens, alive, i)
      {
        if alive[i] { sum := sum + lens[i]; }
      }
    }

    method LeastLoadedCpu() returns (best: nat)
      requires Valid()
      ensures Routable(lens, alive, |lens|) ==> FirstLeast(lens, alive, |lens|, best)
      ensures !Routable(lens, alive, |lens|) ==> best == 0
    {
      best := 0;
      var bestLoad := USIZE_MAX;
      for i := 0 to |lens|
        invariant bestLoad < USIZE_MAX ==> FirstLeast(lens, alive, i, best) && bestLoad == lens[best]
        invariant bestLoad >= USIZE_MAX ==> bestLoad == USIZE_MAX && best == 0 && !Routable(lens, alive, i)
      {
        if alive[i] {
          var load := lens[i];
          if load < bestLoad {
            bestLoad := load;
            best := i;
          }
        }
      }
    }

    /** The pid joins the back of a least loaded queue; the load gap stays within one or what it was. */
    method EnqueueBalanced(pid: nat) returns (cpu: nat)
      requires Valid()
      modifies this`queues, this`lens
      ensures Valid() && cpu < |queues| && queues == old(queues)[cpu := old(queues)[cpu] + [pid]]
      ensures Routable(old(lens), alive, |lens|) ==>
        && alive[cpu] && FirstLeast(old(lens), alive, |lens|, cpu)
        && forall gap: nat :: GapAtMost(old(lens), alive, gap) ==> GapAtMost(lens, alive, if gap > 1 then gap else 1)
      ensures !Routable(old(lens), alive, |lens|) ==> cpu == 0
    {
      cpu := LeastLoadedCpu();
      if Routable(lens, alive, |lens|) {
        forall gap: nat | GapAtMost(lens, alive, gap)
          ensures GapAtMost(lens[cpu := lens[cpu] + 1], alive, if gap > 1 then gap else 1)
        {
        }
      }
      Enqueue(cpu, pid);
    }

    /** The oldest pid of the most loaded other CPU that has two or more; that CPU keeps at least one. */
    method StealFromPeer(thief: nat) returns (r: Option<nat>)
      requires Valid()
      modifies this`queues, this`lens
      ensures Valid() && r.Some? == exists i :: Spare(old(lens), alive, thief, i)
      ensures r.None? ==> queues == old(queues)
      ensures r.Some? ==> exists v: nat ::
        && FirstMost(old(lens), alive, thief, |old(queues)|, v)
        && r.value == old(queues)[v][0]
        && queues == old(queues)[v := old(queues)[v][1..]]
        && queues[v] != []
    {
      var victim: Option<nat> := None;
      var victimLoad := 1;
      for i := 0 to |lens|
        invariant victim.None? ==> victimLoad == 1 && forall j :: 0 <= j < i ==> !Spare(lens, alive, thief, j)
        invariant victim.Some? ==> FirstMost(lens, alive, thief, i, victim.value) && victimLoad == lens[victim.value]
      {
        if i != thief && alive[i] {
          var load := lens[i];
          if load > victimLoad {
            victimLoad := load;
            victim := Some(i);
          }
        }
      }
      if victim.None? { return None; }
      assert Spare(lens, alive, thief, victim.value);
      r := DequeueOn(victim.value);
    }
  }
}
