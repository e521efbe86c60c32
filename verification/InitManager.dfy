/**
  The service manager of `src/init.rs` on any dependencies. `start` recurses, so it has a depth of
  stack to do it in: on cyclic dependencies it needs more than any.
*/
module InitManager {
  import opened Wrappers
  import opened Init

  /** A call that comes back, or one that runs out of stack. */
  datatype Attempt = Done(outcome: Outcome) | TooDeep

  /** What `start` does in `depth` nested calls. */
  ghost function StartIn(svcs: Services, n: Name, depth: nat): Attempt
    decreases depth, 1, 0
  {
    if n !in svcs then Done(Outcome(Err(NotFound), svcs))
    else
      var a := DepsIn(svcs, svcs[n].deps, depth);
      if Reached(a).None? then a else Done(Outcome(a.outcome.result, Marked(a.outcome.services, n)))
  }

  ghost function DepsIn(svcs: Services, deps: seq<Name>, depth: nat): Attempt
    decreases depth, 0, |deps|
  {
    if deps == [] then Done(Outcome(Ok(()), svcs))
    else if deps[0] !in svcs then Done(Outcome(Err(MissingDependency), svcs))
    else if svcs[deps[0]].state == Running then DepsIn(svcs, deps[1..], depth)
    else if depth == 0 then TooDeep
    else
      var a := StartIn(svcs, deps[0], depth - 1);
      if Reached(a).None? then a else DepsIn(a.outcome.services, deps[1..], depth)
  }

  /** The services after a call that succeeds. */
  function Reached(a: Attempt): Option<Services> {
    if a.Done? && a.outcome.result.Ok? then Some(a.outcome.services) else None
  }

  /** A service running; one that runs already is left alone. */
  function Marked(svcs: Services, n: Name): Services {
    if n in svcs && svcs[n].state != Running then MarkRunning(svcs, n) else svcs
  }

  /** Only states and counts change. */
  lemma {:induction false} StartShape(svcs: Services, n: Name, depth: nat)
    ensures var a := StartIn(svcs, n, depth); a.Done? ==> SameShape(svcs, a.outcome.services)
    decreases depth, 1, 0
  {
    if n in svcs { DepsShape(svcs, svcs[n].deps, depth); }
  }

  lemma {:induction false} DepsShape(svcs: Services, deps: seq<Name>, depth: nat)
    ensures var a := DepsIn(svcs, deps, depth); a.Done? ==> SameShape(svcs, a.outcome.services)
    decreases depth, 0, |deps|
  {
    if deps != [] && deps[0] in svcs {
      if svcs[deps[0]].state == Running {
        DepsShape(svcs, deps[1..], depth);
      } else if depth > 0 {
        StartShape(svcs, deps[0], depth - 1);
        var a := StartIn(svcs, deps[0], depth - 1);
        if a.Done? { DepsShape(a.outcome.services, deps[1..], depth); }
      }
    }
  }

  /** Services that were started are running and counted once more; all others are as they were. */
  ghost predicate StartedOnce(s: Services, t: Services) {
    && s.Keys == t.Keys
    && forall x :: x in s ==>
         t[x] == s[x] || (s[x].state != Running && t[x] == s[x].(state := Running, starts := s[x].starts + 1))
  }

  lemma StartedThen(s: Services, t: Services, u: Services)
    requires StartedOnce(s, t) && StartedOnce(t, u)
    ensures StartedOnce(s, u)
  {
    forall x | x in s
      ensures u[x] == s[x] || (s[x].state != Running && u[x] == s[x].(state := Running, starts := s[x].starts + 1))
    {
      assert x in t;
    }
  }

  /** Whether it succeeds or fails, start changes services in no other way. */
  lemma {:induction false} StartCounts(svcs: Services, n: Name, depth: nat)
    ensures var a := StartIn(svcs, n, depth); a.Done? ==> StartedOnce(svcs, a.outcome.services)
    decreases depth, 1, 0
  {
    if n in svcs {
      DepsCount(svcs, svcs[n].deps, depth);
      var a := DepsIn(svcs, svcs[n].deps, depth);
      if Reached(a).Some? { StartedThen(svcs, a.outcome.services, Marked(a.outcome.services, n)); }
    }
  }

  lemma {:induction false} DepsCount(svcs: Services, deps: seq<Name>, depth: nat)
    ensures var a := DepsIn(svcs, deps, depth); a.Done? ==> StartedOnce(svcs, a.outcome.services)
    decreases depth, 0, |deps|
  {
    if deps != [] && deps[0] in svcs {
      if svcs[deps[0]].state == Running {
        DepsCount(svcs, deps[1..], depth);
      } else if depth > 0 {
        StartCounts(svcs, deps[0], depth - 1);
        var a := StartIn(svcs, deps[0], depth - 1);
        if Reached(a).Some? {
          DepsCount(a.outcome.services, deps[1..], depth);
          var b := DepsIn(a.outcome.services, deps[1..], depth);
          if b.Done? { StartedThen(svcs, a.outcome.services, b.outcome.services); }
        }
      }
    }
  }

  /** Which error: not found for the service itself, a missing dependency for anything further on. */
  lemma {:induction false} StartErrors(svcs: Services, n: Name, depth: nat)
    ensures var a := StartIn(svcs, n, depth);
            a.Done? && a.outcome.result.Err? ==>
              a.outcome.result == Err(if n in svcs then MissingDependency else NotFound)
    decreases depth, 1, 0
  {
    if n in svcs { DepsErrors(svcs, svcs[n].deps, depth); }
  }

  lemma {:induction false} DepsErrors(svcs: Services, deps: seq<Name>, depth: nat)
    ensures var a := DepsIn(svcs, deps, depth);
            a.Done? && a.outcome.result.Err? ==> a.outcome.result == Err(MissingDependency)
    decreases depth, 0, |deps|
  {
    if deps != [] && deps[0] in svcs {
      if svcs[deps[0]].state == Running {
        DepsErrors(svcs, deps[1..], depth);
      } else if depth > 0 {
        StartErrors(svcs, deps[0], depth - 1);
        var a := StartIn(svcs, deps[0], depth - 1);
        if Reached(a).Some? { DepsErrors(a.outcome.services, deps[1..], depth); }
      }
    }
  }

  // ---------- With acyclic dependencies it comes back ----------

  lemma {:induction false} RankedEnds(svcs: Services, n: Name, rank: Rank, depth: nat)
    requires Ranked(svcs, rank) && rank(n) <= depth
    ensures StartIn(svcs, n, depth) == Done(Start(svcs, n, rank))
    decreases depth, 1, 0
  {
    if n in svcs {
      DepsEnd(svcs, svcs[n].deps, rank, rank(n), depth);
      var o := StartDeps(svcs, svcs[n].deps, rank, rank(n));
      if o.result.Ok? { assert o.result.value == () && Ok(()) == o.result; }
    }
  }

  lemma {:induction false} DepsEnd(svcs: Services, deps: seq<Name>, rank: Rank, bound: nat, depth: nat)
    requires Ranked(svcs, rank) && bound <= depth && forall i :: 0 <= i < |deps| ==> Below(rank, deps[i], bound)
    ensures DepsIn(svcs, deps, depth) == Done(StartDeps(svcs, deps, rank, bound))
    decreases depth, 0, |deps|
  {
    if deps != [] && deps[0] in svcs {
      assert Below(rank, deps[0], bound);
      if svcs[deps[0]].state == Running {
        DepsEnd(svcs, deps[1..], rank, bound, depth);
      } else {
        var first := Start(svcs, deps[0], rank);
        RankedEnds(svcs, deps[0], rank, depth - 1);
        if first.result.Ok? {
          ShapeRanked(svcs, first.services, rank);
          DepsEnd(first.services, deps[1..], rank, bound, depth);
        }
      }
    }
  }

  // ---------- Which services can be started at all ----------

  /** Everything `n` needs, short of what runs, exists and is reached within `k` requirements. */
  ghost predicate Startable(svcs: Services, n: Name, k: nat)
    decreases k
  {
    n in svcs && forall i :: 0 <= i < |svcs[n].deps| ==> DepStartable(svcs, svcs[n].deps[i], k)
  }

  ghost predicate DepStartable(svcs: Services, d: Name, k: nat)
    decreases k, 0
  {
    IsRunning(svcs, d) || (k > 0 && Startable(svcs, d, k - 1))
  }

  lemma {:induction false} StartableLater(svcs: Services, n: Name, k: nat, m: nat)
    requires Startable(svcs, n, k) && k <= m
    ensures Startable(svcs, n, m)
    decreases k
  {
    forall i | 0 <= i < |svcs[n].deps|
      ensures DepStartable(svcs, svcs[n].deps[i], m)
    {
      assert DepStartable(svcs, svcs[n].deps[i], k);
      if !IsRunning(svcs, svcs[n].deps[i]) { StartableLater(svcs, svcs[n].deps[i], k - 1, m - 1); }
    }
  }

  /** More services running make no service harder to start. */
  lemma {:induction false} StartableGrows(s: Services, t: Services, n: Name, k: nat)
    requires SameShape(s, t) && Grows(s, t) && Startable(s, n, k)
    ensures Startable(t, n, k)
    decreases k
  {
    forall i | 0 <= i < |t[n].deps|
      ensures DepStartable(t, t[n].deps[i], k)
    {
      assert DepStartable(s, s[n].deps[i], k);
      if !IsRunning(s, s[n].deps[i]) { StartableGrows(s, t, s[n].deps[i], k - 1); }
    }
  }

  /** What is startable starts, in that depth. */
  lemma {:induction false} StartableStarts(svcs: Services, n: Name, k: nat)
    requires Startable(svcs, n, k)
    ensures var t := Reached(StartIn(svcs, n, k)); t.Some? && SameShape(svcs, t.value) && Grows(svcs, t.value)
    decreases k, 1, 0
  {
    forall i | 0 <= i < |svcs[n].deps|
      ensures DepStartable(svcs, svcs[n].deps[i], k)
    {
    }
    DepsStart(svcs, svcs[n].deps, k);
  }

  lemma {:induction false} DepsStart(svcs: Services, deps: seq<Name>, k: nat)
    requires forall i :: 0 <= i < |deps| ==> DepStartable(svcs, deps[i], k)
    ensures var t := Reached(DepsIn(svcs, deps, k)); t.Some? && SameShape(svcs, t.value) && Grows(svcs, t.value)
    decreases k, 0, |deps|
  {
    if deps != [] {
      assert DepStartable(svcs, deps[0], k);
      if IsRunning(svcs, deps[0]) {
        DepsStart(svcs, deps[1..], k);
      } else {
        StartableStarts(svcs, deps[0], k - 1);
        var t := StartIn(svcs, deps[0], k - 1).outcome.services;
        forall i | 0 <= i < |deps[1..]|
          ensures DepStartable(t, deps[1..][i], k)
        {
          assert DepStartable(svcs, deps[i + 1], k);
          if !IsRunning(svcs, deps[i + 1]) { StartableGrows(svcs, t, deps[i + 1], k - 1); }
        }
        DepsStart(t, deps[1..], k);
      }
    }
  }

  /** Running, or startable. */
  ghost predicate Ready(svcs: Services, n: Name, k: nat) { IsRunning(svcs, n) || Startable(svcs, n, k) }

  lemma ReadyLater(svcs: Services, n: Name, k: nat, m: nat)
    requires Ready(svcs, n, k) && k <= m
    ensures Ready(svcs, n, m)
  {
    if !IsRunning(svcs, n) { StartableLater(svcs, n, k, m); }
  }

  /** Whatever runs in `t` was ready in `s`. */
  ghost predicate FromReady(s: Services, t: Services, k: nat) { forall x :: IsRunning(t, x) ==> Ready(s, x, k) }

  lemma {:induction false} StartableBefore(s: Services, t: Services, k: nat, n: Name, m: nat)
    requires SameShape(s, t) && FromReady(s, t, k) && Startable(t, n, m)
    ensures Startable(s, n, m + k + 1)
    decreases m
  {
    forall i | 0 <= i < |s[n].deps|
      ensures DepStartable(s, s[n].deps[i], m + k + 1)
    {
      var d := s[n].deps[i];
      assert DepStartable(t, t[n].deps[i], m);
      if IsRunning(t, d) {
        ReadyLater(s, d, k, m + k);
      } else {
        StartableBefore(s, t, k, d, m - 1);
      }
    }
  }

  /** What a successful start has started was ready. */
  lemma {:induction false} StartedReady(svcs: Services, n: Name, depth: nat, end: Services) returns (k: nat)
    requires Reached(StartIn(svcs, n, depth)) == Some(end)
    ensures Startable(svcs, n, k) && FromReady(svcs, end, k)
    decreases depth, 1, 0
  {
    var mid := DepsIn(svcs, svcs[n].deps, depth).outcome.services;
    var m := DepsReady(svcs, svcs[n].deps, depth, mid);
    k := m + 1;
    LevelUp(svcs, n, m);
    forall x | IsRunning(end, x)
      ensures Ready(svcs, x, k)
    {
      if x != n { ReadyLater(svcs, x, m, k); }
    }
  }

  lemma LevelUp(svcs: Services, n: Name, m: nat)
    requires n in svcs && forall i :: 0 <= i < |svcs[n].deps| ==> Ready(svcs, svcs[n].deps[i], m)
    ensures Startable(svcs, n, m + 1)
  {
    forall i | 0 <= i < |svcs[n].deps|
      ensures DepStartable(svcs, svcs[n].deps[i], m + 1)
    {
      assert Ready(svcs, svcs[n].deps[i], m);
    }
  }

  lemma {:induction false} DepsReady(svcs: Services, deps: seq<Name>, depth: nat, end: Services) returns (k: nat)
    requires Reached(DepsIn(svcs, deps, depth)) == Some(end)
    ensures FromReady(svcs, end, k) && forall i :: 0 <= i < |deps| ==> Ready(svcs, deps[i], k)
    decreases depth, 0, |deps|
  {
    if deps == [] {
      k := 0;
      NothingStarted(svcs, k);
    } else if svcs[deps[0]].state == Running {
      k := DepsReady(svcs, deps[1..], depth, end);
      FirstReady(svcs, deps, k);
    } else {
      var t := StartIn(svcs, deps[0], depth - 1).outcome.services;
      StartShape(svcs, deps[0], depth - 1);
      var first := StartedReady(svcs, deps[0], depth - 1, t);
      var later := DepsReady(t, deps[1..], depth, end);
      k := later + first + 1;
      ReadyLater(svcs, deps[0], first, k);
      ThroughMiddle(svcs, t, end, deps[1..], first, later);
      FirstReady(svcs, deps, k);
    }
  }

  lemma NothingStarted(svcs: Services, k: nat)
    ensures FromReady(svcs, svcs, k)
  {
  }

  lemma FirstReady(svcs: Services, deps: seq<Name>, k: nat)
    requires deps != [] && Ready(svcs, deps[0], k) && forall i :: 0 <= i < |deps[1..]| ==> Ready(svcs, deps[1..][i], k)
    ensures forall i :: 0 <= i < |deps| ==> Ready(svcs, deps[i], k)
  {
    assert forall i :: 0 < i < |deps| ==> deps[i] == deps[1..][i - 1];
  }

  lemma ThroughMiddle(s: Services, t: Services, end: Services, deps: seq<Name>, first: nat, later: nat)
    requires SameShape(s, t) && FromReady(s, t, first) && FromReady(t, end, later)
    requires forall i :: 0 <= i < |deps| ==> Ready(t, deps[i], later)
    ensures FromReady(s, end, later + first + 1) && forall i :: 0 <= i < |deps| ==> Ready(s, deps[i], later + first + 1)
  {
    forall x | Ready(t, x, later)
      ensures Ready(s, x, later + first + 1)
    {
      if IsRunning(t, x) {
        ReadyLater(s, x, first, later + first + 1);
      } else {
        StartableBefore(s, t, first, x, later);
      }
    }
  }

  ghost predicate Succeeds(svcs: Services, n: Name, depth: nat) { Reached(StartIn(svcs, n, depth)).Some? }

  /** Some number of requirements suffices. */
  ghost predicate CanStart(svcs: Services, n: Name, k: nat) { Startable(svcs, n, k) }

  /** On any dependencies: start succeeds in some depth exactly when its service is startable. */
  lemma StartableExact(svcs: Services, n: Name)
    ensures (exists depth :: Succeeds(svcs, n, depth)) <==> exists k :: CanStart(svcs, n, k)
  {
    if depth :| Succeeds(svcs, n, depth) {
      var k := StartedReady(svcs, n, depth, StartIn(svcs, n, depth).outcome.services);
      assert CanStart(svcs, n, k);
    }
    if k :| CanStart(svcs, n, k) {
      StartableStarts(svcs, n, k);
      assert Succeeds(svcs, n, k);
    }
  }

  /** The service does not run and requires one of these. */
  ghost predicate Leads(svcs: Services, stuck: set<Name>, n: Name) {
    n in svcs && !IsRunning(svcs, n) && exists i :: 0 <= i < |svcs[n].deps| && svcs[n].deps[i] in stuck
  }

  /** Each of these services leads to another, as on a cycle. */
  ghost predicate Cyclic(svcs: Services, stuck: set<Name>) {
    forall n {:trigger Leads(svcs, stuck, n)} :: n in stuck ==> Leads(svcs, stuck, n)
  }

  /** No service on a cycle of services that do not run can be started, in whatever depth. */
  lemma {:induction false} CycleStuck(svcs: Services, stuck: set<Name>, n: Name, k: nat)
    requires Cyclic(svcs, stuck) && n in stuck
    ensures !Startable(svcs, n, k)
    decreases k
  {
    assert Leads(svcs, stuck, n);
    if Startable(svcs, n, k) {
      var i :| 0 <= i < |svcs[n].deps| && svcs[n].deps[i] in stuck;
      assert Leads(svcs, stuck, svcs[n].deps[i]) && DepStartable(svcs, svcs[n].deps[i], k);
      CycleStuck(svcs, stuck, svcs[n].deps[i], k - 1);
    }
  }

  /** A stopped service that requires itself first runs out of any stack. */
  lemma {:induction false} SelfRequired(svcs: Services, n: Name, depth: nat)
    requires n in svcs && !IsRunning(svcs, n) && svcs[n].deps != [] && svcs[n].deps[0] == n
    ensures StartIn(svcs, n, depth) == TooDeep
    decreases depth
  {
    if depth > 0 { SelfRequired(svcs, n, depth - 1); }
  }

  // ---------- The second pass of a runlevel change ----------

  /** The second pass in `depth` nested calls, or nothing when it runs out of stack. */
  ghost function StartAllIn(svcs: Services, order: seq<Name>, depth: nat): Option<Services>
    decreases |order|
  {
    if order == [] then Some(svcs)
    else
      match StartIn(svcs, order[0], depth)
      case TooDeep => None
      case Done(o) => StartAllIn(o.services, order[1..], depth)
  }

  lemma {:induction false} RankedAllEnd(svcs: Services, order: seq<Name>, rank: Rank, depth: nat)
    requires Ranked(svcs, rank) && forall i :: 0 <= i < |order| ==> rank(order[i]) <= depth
    ensures StartAllIn(svcs, order, depth) == Some(StartAll(svcs, order, rank))
    decreases |order|
  {
    if order != [] {
      RankedEnds(svcs, order[0], rank, depth);
      var t := Start(svcs, order[0], rank).services;
      ShapeRanked(svcs, t, rank);
      RankedAllEnd(t, order[1..], rank, depth);
    }
  }

  ghost function OneMore(svcs: Option<Services>, n: Name, depth: nat): Option<Services> {
    if svcs.None? then None
    else
      match StartIn(svcs.value, n, depth)
      case TooDeep => None
      case Done(o) => Some(o.services)
  }

  lemma {:induction false} StartAllMore(svcs: Services, order: seq<Name>, depth: nat, n: Name)
    ensures StartAllIn(svcs, order + [n], depth) == OneMore(StartAllIn(svcs, order, depth), n, depth)
    decreases |order|
  {
    if order == [] {
      assert ([] + [n])[1..] == [];
    } else {
      assert (order + [n])[1..] == order[1..] + [n];
      var a := StartIn(svcs, order[0], depth);
      if a.Done? { StartAllMore(a.outcome.services, order[1..], depth, n); }
    }
  }

  // ---------- The manager ----------

  /** Some services stopped. */
  function StopSome(svcs: Services, names: set<Name>): Services {
    map n | n in svcs :: if n in names && svcs[n].state != Stopped then svcs[n].(state := Stopped) else svcs[n]
  }

  class InitSystem {
    var services: Services
    var runlevel: nat

    constructor ()
      ensures services == map[] && runlevel == 1
    {
      services, runlevel := map[], 1;
    }

    /** Starts what a service requires, then the service; nothing when it runs out of stack. */
    method StartService(name: Name, depth: nat) returns (r: Option<Result<(), Error>>)
      modifies this`services
      ensures match StartIn(old(services), name, depth)
              case TooDeep => r.None?
              case Done(o) => r == Some(o.result) && services == o.services
      decreases depth
    {
      if name !in services { return Some(Err(NotFound)); }
      var deps := services[name].deps;
      ghost var goal := DepsIn(services, deps, depth);
      assert deps[0..] == deps;
      for i := 0 to |deps|
        invariant name in services && DepsIn(services, deps[i..], depth) == goal
      {
        assert deps[i..][0] == deps[i] && deps[i..][1..] == deps[i + 1..];
        if deps[i] !in services { return Some(Err(MissingDependency)); }
        if services[deps[i]].state != Running {
          if depth == 0 { return None; }
          StartShape(services, deps[i], depth - 1);
          r := StartService(deps[i], depth - 1);
          if r.None? || r.value.Err? { return; }
        }
      }
      if services[name].state != Running {
        services := MarkRunning(services, name);
      }
      return Some(Ok(()));
    }

    method StopService(name: Name) returns (r: Result<(), Error>)
      modifies this`services
      ensures r == if name in old(services) then Ok(()) else Err(NotFound)
      ensures services == StopSome(old(services), {name})
      ensures name in old(services) ==> services == old(services)[name := old(services)[name].(state := Stopped)]
    {
      if name !in services { return Err(NotFound); }
      if services[name].state != Stopped {
        services := services[name := services[name].(state := Stopped)];
      }
      return Ok(());
    }

    /** Both passes, each over the names collected when it begins; `order` is the order the second one takes. */
    method SetRunlevel(level: nat, depth: nat) returns (ended: bool, ghost order: seq<Name>)
      modifies this
      ensures runlevel == level
      ensures old(runlevel) == level ==> ended && services == old(services)
      ensures old(runlevel) != level ==>
        && Lists(order, ToStart(StopAll(old(services), level), level))
        && if ended then Some(services) == StartAllIn(StopAll(old(services), level), order, depth)
           else StartAllIn(StopAll(old(services), level), order, depth).None?
    {
      order := [];
      var prev := runlevel;
      runlevel := level;
      if prev == level { return true, order; }
      StopPass(level);
      ended, order := StartPass(level, depth);
    }

    method StopPass(level: nat)
      modifies this`services
      ensures services == StopAll(old(services), level)
    {
      var todo := set n | n in services && services[n].state == Running && !EnabledAt(services[n], level);
      ghost var all, done: set<Name> := todo, {};
      while todo != {}
        invariant done + todo == all && done !! todo && services == StopSome(old(services), done)
        decreases todo
      {
        var name :| name in todo;
        var _ := StopService(name);
        todo, done := todo - {name}, done + {name};
      }
    }

    method StartPass(level: nat, depth: nat) returns (ended: bool, ghost order: seq<Name>)
      modifies this`services
      ensures Lists(order, ToStart(old(services), level))
      ensures if ended then Some(services) == StartAllIn(old(services), order, depth)
              else StartAllIn(old(services), order, depth).None?
    {
      var todo := ToStart(services, level);
      ghost var all := todo;
      ended, order := true, [];
      while todo != {}
        invariant ended ==> Some(services) == StartAllIn(old(services), order, depth)
        invariant !ended ==> StartAllIn(old(services), order, depth).None?
        invariant forall n :: n in all <==> n in order || n in todo
        decreases todo
      {
        var name :| name in todo;
        StartAllMore(old(services), order, depth, name);
        if ended {
          var r := StartService(name, depth);
          ended := r.Some?;
        }
        todo, order := todo - {name}, order + [name];
      }
    }
  }
}
