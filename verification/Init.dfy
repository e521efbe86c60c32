/**
  The service manager of `src/init.rs` where dependencies are acyclic, which a `rank` that falls
  along every dependency says: starting a service starts what it requires first, and a change of
  runlevel stops and starts services. `InitManager` has the manager itself and cyclic dependencies.
*/
module Init {
  import opened Wrappers

  type Name = string
  type Rank = Name -> nat

  datatype ServiceState = Stopped | Running | Failed

  /** `levels[n]` is set when the service belongs to runlevel `n`. */
  datatype Service = Service(deps: seq<Name>, levels: seq<bool>, state: ServiceState, starts: nat)

  type Services = map<Name, Service>

  datatype Error = NotFound | MissingDependency

  datatype Outcome = Outcome(result: Result<(), Error>, services: Services)

  predicate IsRunning(svcs: Services, n: Name) { n in svcs && svcs[n].state == Running }

  predicate EnabledAt(s: Service, level: nat) { level < |s.levels| && s.levels[level] }

  /** Every dependency, present or not, ranks below its dependant. */
  ghost predicate Ranked(svcs: Services, rank: Rank) {
    forall n, i :: n in svcs && 0 <= i < |svcs[n].deps| ==> Below(rank, svcs[n].deps[i], rank(n))
  }

  predicate Below(rank: Rank, n: Name, bound: nat) { rank(n) < bound }

  /** The same services with the same dependencies and levels. */
  ghost predicate SameShape(s: Services, t: Services) {
    s.Keys == t.Keys && forall n :: n in s ==> s[n].deps == t[n].deps && s[n].levels == t[n].levels
  }

  /** A service marked as running, and counted. */
  function MarkRunning(svcs: Services, n: Name): Services
    requires n in svcs
  {
    svcs[n := svcs[n].(state := Running, starts := svcs[n].starts + 1)]
  }

  /** What `start` does. */
  ghost function Start(svcs: Services, n: Name, rank: Rank): (o: Outcome)
    requires Ranked(svcs, rank)
    ensures SameShape(svcs, o.services)
    decreases rank(n), 1, 0
  {
    if n !in svcs then Outcome(Err(NotFound), svcs)
    else
      var o := StartDeps(svcs, svcs[n].deps, rank, rank(n));
      if o.result.Err? || o.services[n].state == Running then o
      else Outcome(Ok(()), MarkRunning(o.services, n))
  }

  /** The loop over a service's dependencies. */
  ghost function StartDeps(svcs: Services, deps: seq<Name>, rank: Rank, bound: nat): (o: Outcome)
    requires Ranked(svcs, rank) && forall i :: 0 <= i < |deps| ==> Below(rank, deps[i], bound)
    ensures SameShape(svcs, o.services)
    decreases bound, 0, |deps|
  {
    if deps == [] then Outcome(Ok(()), svcs)
    else if deps[0] !in svcs then Outcome(Err(MissingDependency), svcs)
    else if svcs[deps[0]].state == Running then StartDeps(svcs, deps[1..], rank, bound)
    else
      assert Below(rank, deps[0], bound);
      var o := Start(svcs, deps[0], rank);
      if o.result.Err? then o else StartDeps(o.services, deps[1..], rank, bound)
  }

  // ---------- What start keeps and reaches ----------

  /** What is running stays running. */
  ghost predicate Grows(s: Services, t: Services) { forall n :: IsRunning(s, n) ==> IsRunning(t, n) }

  predicate DepsRun(svcs: Services, n: Name)
    requires n in svcs
  {
    forall i :: 0 <= i < |svcs[n].deps| ==> IsRunning(svcs, svcs[n].deps[i])
  }

  /** Every running service outside `base` has its dependencies running. With an empty base: everything running does. */
  ghost predicate Grounded(svcs: Services, base: set<Name>) {
    && (forall n :: n in base ==> IsRunning(svcs, n))
    && (forall n :: IsRunning(svcs, n) && n !in base ==> DepsRun(svcs, n))
  }

  /** `x` is `n` or something it needs, reached without passing through `base`. */
  ghost predicate Needs(svcs: Services, rank: Rank, base: set<Name>, n: Name, x: Name)
    requires Ranked(svcs, rank)
    decreases rank(n)
  {
    n !in base && (x == n || (n in svcs && exists i :: 0 <= i < |svcs[n].deps| && NeedsDep(svcs, rank, base, n, i, x)))
  }

  ghost predicate NeedsDep(svcs: Services, rank: Rank, base: set<Name>, n: Name, i: nat, x: Name)
    requires Ranked(svcs, rank) && n in svcs && i < |svcs[n].deps|
    decreases rank(n), 0
  {
    assert Below(rank, svcs[n].deps[i], rank(n));
    Needs(svcs, rank, base, svcs[n].deps[i], x)
  }

  /** Needs looks only at the dependencies. */
  lemma {:induction false} NeedsShape(s: Services, t: Services, rank: Rank, base: set<Name>, n: Name, x: Name)
    requires Ranked(s, rank) && Ranked(t, rank) && SameShape(s, t)
    ensures Needs(s, rank, base, n, x) <==> Needs(t, rank, base, n, x)
    decreases rank(n)
  {
    if n in s {
      forall i | 0 <= i < |s[n].deps|
        ensures NeedsDep(s, rank, base, n, i, x) <==> NeedsDep(t, rank, base, n, i, x)
      {
        assert Below(rank, s[n].deps[i], rank(n));
        NeedsShape(s, t, rank, base, s[n].deps[i], x);
      }
    }
  }

  lemma ShapeRanked(s: Services, t: Services, rank: Rank)
    requires Ranked(s, rank) && SameShape(s, t)
    ensures Ranked(t, rank)
  {
    forall n, i | n in t && 0 <= i < |t[n].deps|
      ensures Below(rank, t[n].deps[i], rank(n))
    {
      assert t[n].deps == s[n].deps;
      assert Below(rank, s[n].deps[i], rank(n));
    }
  }

  /** Marking a service whose dependencies run keeps the ground. */
  lemma MarkGrounded(svcs: Services, base: set<Name>, n: Name)
    requires n in svcs && Grounded(svcs, base) && DepsRun(svcs, n)
    ensures Grounded(MarkRunning(svcs, n), base)
    ensures Grows(svcs, MarkRunning(svcs, n)) && IsRunning(MarkRunning(svcs, n), n)
  {
    var t := MarkRunning(svcs, n);
    assert Grows(svcs, t);
    forall m | IsRunning(t, m) && m !in base
      ensures DepsRun(t, m)
    {
      assert DepsRun(svcs, m);
      forall i | 0 <= i < |t[m].deps|
        ensures IsRunning(t, t[m].deps[i])
      {
        assert IsRunning(svcs, svcs[m].deps[i]);
      }
    }
  }

  /** Start keeps the ground even when it fails, stops nothing, and on success has its service running. */
  lemma {:induction false} StartGrounded(svcs: Services, n: Name, rank: Rank, base: set<Name>)
    requires Ranked(svcs, rank) && Grounded(svcs, base)
    ensures var o := Start(svcs, n, rank);
            Grounded(o.services, base) && Grows(svcs, o.services) && (o.result.Ok? ==> IsRunning(o.services, n))
    decreases rank(n), 1, 0
  {
    if n in svcs {
      DepsGrounded(svcs, svcs[n].deps, rank, rank(n), base);
      var o := StartDeps(svcs, svcs[n].deps, rank, rank(n));
      if o.result.Ok? && o.services[n].state != Running {
        assert o.services[n].deps == svcs[n].deps;
        MarkGrounded(o.services, base, n);
      }
    }
  }

  lemma {:induction false} DepsGrounded(svcs: Services, deps: seq<Name>, rank: Rank, bound: nat, base: set<Name>)
    requires Ranked(svcs, rank) && Grounded(svcs, base) && forall i :: 0 <= i < |deps| ==> Below(rank, deps[i], bound)
    ensures var o := StartDeps(svcs, deps, rank, bound);
            && Grounded(o.services, base) && Grows(svcs, o.services)
            && (o.result.Ok? ==> forall i :: 0 <= i < |deps| ==> IsRunning(o.services, deps[i]))
    decreases bound, 0, |deps|
  {
    if deps != [] && deps[0] in svcs {
      var o := StartDeps(svcs, deps, rank, bound);
      assert Below(rank, deps[0], bound);
      if svcs[deps[0]].state == Running {
        DepsGrounded(svcs, deps[1..], rank, bound, base);
        AllRun(o, deps);
      } else {
        var first := Start(svcs, deps[0], rank);
        StartGrounded(svcs, deps[0], rank, base);
        if first.result.Ok? {
          ShapeRanked(svcs, first.services, rank);
          DepsGrounded(first.services, deps[1..], rank, bound, base);
          AllRun(o, deps);
        }
      }
    }
  }

  lemma AllRun(o: Outcome, deps: seq<Name>)
    requires deps != []
    requires o.result.Ok? ==> IsRunning(o.services, deps[0])
    requires o.result.Ok? ==> forall i :: 0 <= i < |deps[1..]| ==> IsRunning(o.services, deps[1..][i])
    ensures o.result.Ok? ==> forall i :: 0 <= i < |deps| ==> IsRunning(o.services, deps[i])
  {
    if o.result.Ok? {
      forall i | 0 <= i < |deps|
        ensures IsRunning(o.services, deps[i])
      {
        assert i > 0 ==> deps[i] == deps[1..][i - 1];
      }
    }
  }

  /** Start starts nothing but its service and what that needs. */
  lemma {:induction false} StartWithin(svcs: Services, n: Name, rank: Rank, base: set<Name>, x: Name)
    requires Ranked(svcs, rank) && Grounded(svcs, base) && n !in base
    ensures IsRunning(Start(svcs, n, rank).services, x) ==> IsRunning(svcs, x) || Needs(svcs, rank, base, n, x)
    decreases rank(n), 1, 0
  {
    if n in svcs {
      DepsWithin(svcs, svcs[n].deps, rank, rank(n), base, x);
      if i :| 0 <= i < |svcs[n].deps| && Needs(svcs, rank, base, svcs[n].deps[i], x) {
        assert NeedsDep(svcs, rank, base, n, i, x);
      }
    }
  }

  lemma {:induction false} DepsWithin(svcs: Services, deps: seq<Name>, rank: Rank, bound: nat, base: set<Name>, x: Name)
    requires Ranked(svcs, rank) && Grounded(svcs, base) && forall i :: 0 <= i < |deps| ==> Below(rank, deps[i], bound)
    ensures IsRunning(StartDeps(svcs, deps, rank, bound).services, x) ==>
            IsRunning(svcs, x) || exists i :: 0 <= i < |deps| && Needs(svcs, rank, base, deps[i], x)
    decreases bound, 0, |deps|
  {
    if deps != [] && deps[0] in svcs {
      assert Below(rank, deps[0], bound);
      if svcs[deps[0]].state == Running {
        DepsWithin(svcs, deps[1..], rank, bound, base, x);
        NeedLater(svcs, deps, rank, base, x);
      } else {
        var first := Start(svcs, deps[0], rank);
        StartWithin(svcs, deps[0], rank, base, x);
        if first.result.Ok? {
          StartGrounded(svcs, deps[0], rank, base);
          ShapeRanked(svcs, first.services, rank);
          DepsWithin(first.services, deps[1..], rank, bound, base, x);
          forall i | 0 <= i < |deps[1..]|
            ensures Needs(svcs, rank, base, deps[1..][i], x) <==> Needs(first.services, rank, base, deps[1..][i], x)
          {
            NeedsShape(svcs, first.services, rank, base, deps[1..][i], x);
          }
          NeedLater(svcs, deps, rank, base, x);
        }
      }
    }
  }

  lemma NeedLater(svcs: Services, deps: seq<Name>, rank: Rank, base: set<Name>, x: Name)
    requires Ranked(svcs, rank) && deps != []
    ensures (exists i :: 0 <= i < |deps[1..]| && Needs(svcs, rank, base, deps[1..][i], x)) ==>
            exists i :: 0 <= i < |deps| && Needs(svcs, rank, base, deps[i], x)
  {
    if i :| 0 <= i < |deps[1..]| && Needs(svcs, rank, base, deps[1..][i], x) {
      assert deps[i + 1] == deps[1..][i];
    }
  }

  /** Everything a service needs, outside `base`, exists. */
  ghost predicate Complete(svcs: Services, rank: Rank, base: set<Name>, n: Name)
    requires Ranked(svcs, rank)
  {
    forall x :: Needs(svcs, rank, base, n, x) ==> x in svcs
  }

  lemma CompleteShape(s: Services, t: Services, rank: Rank, base: set<Name>, n: Name)
    requires Ranked(s, rank) && Ranked(t, rank) && SameShape(s, t) && Complete(s, rank, base, n)
    ensures Complete(t, rank, base, n)
  {
    forall x | Needs(t, rank, base, n, x)
      ensures x in t
    {
      NeedsShape(s, t, rank, base, n, x);
    }
  }

  lemma CompleteDeps(svcs: Services, rank: Rank, base: set<Name>, n: Name, i: nat)
    requires Ranked(svcs, rank) && n in svcs && n !in base && i < |svcs[n].deps| && Complete(svcs, rank, base, n)
    ensures Complete(svcs, rank, base, svcs[n].deps[i])
  {
    forall x | Needs(svcs, rank, base, svcs[n].deps[i], x)
      ensures x in svcs
    {
      assert NeedsDep(svcs, rank, base, n, i, x);
    }
  }

  lemma {:induction false} StartSucceeds(svcs: Services, n: Name, rank: Rank, base: set<Name>)
    requires Ranked(svcs, rank) && Grounded(svcs, base) && n !in base && Complete(svcs, rank, base, n)
    ensures Start(svcs, n, rank).result.Ok?
    decreases rank(n), 1, 0
  {
    assert Needs(svcs, rank, base, n, n);
    forall i | 0 <= i < |svcs[n].deps|
      ensures Complete(svcs, rank, base, svcs[n].deps[i])
    {
      CompleteDeps(svcs, rank, base, n, i);
    }
    DepsSucceed(svcs, svcs[n].deps, rank, rank(n), base);
  }

  lemma {:induction false} DepsSucceed(svcs: Services, deps: seq<Name>, rank: Rank, bound: nat, base: set<Name>)
    requires Ranked(svcs, rank) && Grounded(svcs, base) && forall i :: 0 <= i < |deps| ==> Below(rank, deps[i], bound)
    requires forall i :: 0 <= i < |deps| ==> Complete(svcs, rank, base, deps[i])
    ensures StartDeps(svcs, deps, rank, bound).result.Ok?
    decreases bound, 0, |deps|
  {
    if deps != [] {
      assert Below(rank, deps[0], bound) && Complete(svcs, rank, base, deps[0]);
      assert deps[0] !in base ==> Needs(svcs, rank, base, deps[0], deps[0]);
      if svcs[deps[0]].state == Running {
        DepsSucceed(svcs, deps[1..], rank, bound, base);
      } else {
        var first := Start(svcs, deps[0], rank);
        StartSucceeds(svcs, deps[0], rank, base);
        StartGrounded(svcs, deps[0], rank, base);
        ShapeRanked(svcs, first.services, rank);
        forall i | 0 <= i < |deps[1..]|
          ensures Complete(first.services, rank, base, deps[1..][i])
        {
          CompleteShape(svcs, first.services, rank, base, deps[i + 1]);
        }
        DepsSucceed(first.services, deps[1..], rank, bound, base);
      }
    }
  }

  /** On grounded services, what a running one needs is running. */
  lemma {:induction false} NeededRuns(svcs: Services, rank: Rank, base: set<Name>, n: Name, x: Name)
    requires Ranked(svcs, rank) && Grounded(svcs, base) && IsRunning(svcs, n) && Needs(svcs, rank, base, n, x)
    ensures IsRunning(svcs, x) && x !in base
    decreases rank(n)
  {
    if x != n {
      var i :| 0 <= i < |svcs[n].deps| && NeedsDep(svcs, rank, base, n, i, x);
      assert DepsRun(svcs, n) && Below(rank, svcs[n].deps[i], rank(n));
      NeededRuns(svcs, rank, base, svcs[n].deps[i], x);
    }
  }

  /**
    Where running services have their dependencies running: start succeeds exactly when everything
    its service needs exists, and then runs exactly that besides what ran before.
  */
  lemma StartExact(svcs: Services, n: Name, rank: Rank)
    requires Ranked(svcs, rank) && Grounded(svcs, {})
    ensures var o := Start(svcs, n, rank);
            && (o.result.Ok? <==> Complete(svcs, rank, {}, n))
            && (o.result.Ok? ==>
                 forall x :: IsRunning(o.services, x) <==> IsRunning(svcs, x) || Needs(svcs, rank, {}, n, x))
  {
    var o := Start(svcs, n, rank);
    StartGrounded(svcs, n, rank, {});
    ShapeRanked(svcs, o.services, rank);
    if Complete(svcs, rank, {}, n) {
      StartSucceeds(svcs, n, rank, {});
    }
    if o.result.Ok? {
      forall x
        ensures Needs(svcs, rank, {}, n, x) ==> IsRunning(o.services, x)
        ensures IsRunning(o.services, x) ==> IsRunning(svcs, x) || Needs(svcs, rank, {}, n, x)
      {
        NeedsShape(svcs, o.services, rank, {}, n, x);
        if Needs(svcs, rank, {}, n, x) {
          NeededRuns(o.services, rank, {}, n, x);
        }
        StartWithin(svcs, n, rank, {}, x);
      }
    }
  }

  // ---------- Changing the runlevel ----------

  /** The first pass: running services that do not belong to the level are stopped. */
  function StopAll(svcs: Services, level: nat): Services {
    map n | n in svcs ::
      if svcs[n].state == Running && !EnabledAt(svcs[n], level) then svcs[n].(state := Stopped) else svcs[n]
  }

  function RunningSet(svcs: Services): set<Name> { set n | n in svcs && svcs[n].state == Running }

  /** What the second pass tries to start. */
  function ToStart(svcs: Services, level: nat): set<Name> {
    set n | n in svcs && svcs[n].state == Stopped && EnabledAt(svcs[n], level)
  }

  /** The second pass, in some order, going on after failures. */
  ghost function StartAll(svcs: Services, order: seq<Name>, rank: Rank): (r: Services)
    requires Ranked(svcs, rank)
    ensures SameShape(svcs, r)
    decreases |order|
  {
    if order == [] then svcs
    else
      var t := Start(svcs, order[0], rank).services;
      ShapeRanked(svcs, t, rank);
      StartAll(t, order[1..], rank)
  }

  /** `order` lists exactly `names`. */
  ghost predicate Lists(order: seq<Name>, names: set<Name>) { forall n :: n in order <==> n in names }

  /** Some service on the list needs `x`. */
  ghost predicate Wanted(svcs: Services, rank: Rank, base: set<Name>, order: seq<Name>, x: Name)
    requires Ranked(svcs, rank)
  {
    exists i :: 0 <= i < |order| && Needs(svcs, rank, base, order[i], x)
  }

  /** The second pass stops nothing, keeps the ground, and starts nothing that is not wanted. */
  lemma {:induction false} AllGrounded(svcs: Services, order: seq<Name>, rank: Rank, base: set<Name>)
    requires Ranked(svcs, rank) && Grounded(svcs, base) && forall i :: 0 <= i < |order| ==> order[i] !in base
    ensures var t := StartAll(svcs, order, rank);
            && Grounded(t, base) && Grows(svcs, t)
            && forall x :: IsRunning(t, x) ==> IsRunning(svcs, x) || Wanted(svcs, rank, base, order, x)
    decreases |order|
  {
    if order != [] {
      var first := Start(svcs, order[0], rank).services;
      StartGrounded(svcs, order[0], rank, base);
      ShapeRanked(svcs, first, rank);
      AllGrounded(first, order[1..], rank, base);
      forall x | IsRunning(StartAll(svcs, order, rank), x)
        ensures IsRunning(svcs, x) || Wanted(svcs, rank, base, order, x)
      {
        StartWithin(svcs, order[0], rank, base, x);
        if Wanted(first, rank, base, order[1..], x) {
          var i :| 0 <= i < |order[1..]| && Needs(first, rank, base, order[1..][i], x);
          NeedsShape(svcs, first, rank, base, order[i + 1], x);
          assert Needs(svcs, rank, base, order[i + 1], x);
        }
      }
    }
  }

  /** When everything wanted exists, everything on the list ends up running. */
  lemma {:induction false} AllSucceed(svcs: Services, order: seq<Name>, rank: Rank, base: set<Name>)
    requires Ranked(svcs, rank) && Grounded(svcs, base)
    requires forall i :: 0 <= i < |order| ==> order[i] !in base && Complete(svcs, rank, base, order[i])
    ensures forall i :: 0 <= i < |order| ==> IsRunning(StartAll(svcs, order, rank), order[i])
    decreases |order|
  {
    if order != [] {
      var first := Start(svcs, order[0], rank).services;
      StartGrounded(svcs, order[0], rank, base);
      StartSucceeds(svcs, order[0], rank, base);
      ShapeRanked(svcs, first, rank);
      forall i | 0 <= i < |order[1..]|
        ensures Complete(first, rank, base, order[1..][i])
      {
        CompleteShape(svcs, first, rank, base, order[i + 1]);
      }
      AllSucceed(first, order[1..], rank, base);
      AllGrounded(first, order[1..], rank, base);
      forall i | 0 <= i < |order|
        ensures IsRunning(StartAll(svcs, order, rank), order[i])
      {
        assert i > 0 ==> order[i] == order[1..][i - 1];
      }
    }
  }

  predicate Enabled(svcs: Services, n: Name, level: nat) { n in svcs && EnabledAt(svcs[n], level) }

  /** Exactly the services of the level run. */
  ghost predicate RunsLevel(svcs: Services, level: nat) { forall n :: IsRunning(svcs, n) <==> Enabled(svcs, n, level) }

  /** What the second pass would reach is what the level still lacks. */
  ghost predicate ReachesLevel(svcs: Services, order: seq<Name>, rank: Rank, level: nat)
    requires Ranked(svcs, rank)
  {
    forall x :: Wanted(svcs, rank, RunningSet(svcs), order, x) <==> Enabled(svcs, x, level) && !IsRunning(svcs, x)
  }

  lemma WantedRuns(svcs: Services, t: Services, order: seq<Name>, rank: Rank, base: set<Name>, x: Name)
    requires Ranked(svcs, rank) && Ranked(t, rank) && SameShape(svcs, t) && Grounded(t, base)
    requires forall i :: 0 <= i < |order| ==> IsRunning(t, order[i])
    ensures Wanted(svcs, rank, base, order, x) ==> IsRunning(t, x) && x !in base
  {
    if Wanted(svcs, rank, base, order, x) {
      var i :| 0 <= i < |order| && Needs(svcs, rank, base, order[i], x);
      NeedsShape(svcs, t, rank, base, order[i], x);
      NeededRuns(t, rank, base, order[i], x);
    }
  }

  /** The second pass on services of which only the level's run. */
  lemma SecondPassExact(svcs: Services, order: seq<Name>, rank: Rank, level: nat)
    requires Ranked(svcs, rank) && Lists(order, ToStart(svcs, level))
    requires forall n :: IsRunning(svcs, n) ==> Enabled(svcs, n, level)
    ensures RunsLevel(StartAll(svcs, order, rank), level) <==> ReachesLevel(svcs, order, rank, level)
  {
    var base, t := RunningSet(svcs), StartAll(svcs, order, rank);
    forall i | 0 <= i < |order|
      ensures order[i] !in base && Enabled(svcs, order[i], level)
    {
      assert order[i] in ToStart(svcs, level);
    }
    AllGrounded(svcs, order, rank, base);
    ShapeRanked(svcs, t, rank);
    if RunsLevel(t, level) {
      forall i | 0 <= i < |order|
        ensures IsRunning(t, order[i])
      {
        assert Enabled(t, order[i], level);
      }
      forall x
        ensures Wanted(svcs, rank, base, order, x) <==> Enabled(svcs, x, level) && !IsRunning(svcs, x)
      {
        WantedRuns(svcs, t, order, rank, base, x);
        assert Enabled(t, x, level) <==> Enabled(svcs, x, level);
      }
    }
    if ReachesLevel(svcs, order, rank, level) {
      ReachedRuns(svcs, order, rank, level);
    }
  }

  lemma ReachedRuns(svcs: Services, order: seq<Name>, rank: Rank, level: nat)
    requires Ranked(svcs, rank) && ReachesLevel(svcs, order, rank, level)
    requires forall n :: IsRunning(svcs, n) ==> Enabled(svcs, n, level)
    requires forall i :: 0 <= i < |order| ==> order[i] !in RunningSet(svcs)
    ensures RunsLevel(StartAll(svcs, order, rank), level)
  {
    var base, t := RunningSet(svcs), StartAll(svcs, order, rank);
    forall i | 0 <= i < |order|
      ensures Complete(svcs, rank, base, order[i])
    {
      forall x | Needs(svcs, rank, base, order[i], x)
        ensures x in svcs
      {
        assert Wanted(svcs, rank, base, order, x);
      }
    }
    AllGrounded(svcs, order, rank, base);
    AllSucceed(svcs, order, rank, base);
    ShapeRanked(svcs, t, rank);
    forall x
      ensures IsRunning(t, x) <==> Enabled(t, x, level)
    {
      WantedRuns(svcs, t, order, rank, base, x);
      assert Enabled(t, x, level) <==> Enabled(svcs, x, level);
    }
  }

  /**
    A change of runlevel ends with exactly the services of the level running if and only if what
    the stopped ones of the level need, short of those already running, is what the level lacks.
  */
  lemma RunlevelExact(svcs: Services, order: seq<Name>, rank: Rank, level: nat)
    requires Ranked(svcs, rank) && Lists(order, ToStart(StopAll(svcs, level), level))
    ensures Ranked(StopAll(svcs, level), rank)
    ensures RunsLevel(StartAll(StopAll(svcs, level), order, rank), level) <==>
            ReachesLevel(StopAll(svcs, level), order, rank, level)
  {
    ShapeRanked(svcs, StopAll(svcs, level), rank);
    SecondPassExact(StopAll(svcs, level), order, rank, level);
  }

  /** Every dependency of a service of the level exists and belongs to the level. */
  ghost predicate Monotone(svcs: Services, level: nat) {
    forall n, i :: Enabled(svcs, n, level) && 0 <= i < |svcs[n].deps| ==> Enabled(svcs, svcs[n].deps[i], level)
  }

  lemma {:induction false} MonotoneNeeds(svcs: Services, rank: Rank, base: set<Name>, level: nat, n: Name, x: Name)
    requires Ranked(svcs, rank) && Monotone(svcs, level) && Enabled(svcs, n, level) && Needs(svcs, rank, base, n, x)
    ensures Enabled(svcs, x, level) && x !in base
    decreases rank(n)
  {
    if x != n {
      var i :| 0 <= i < |svcs[n].deps| && NeedsDep(svcs, rank, base, n, i, x);
      assert Below(rank, svcs[n].deps[i], rank(n)) && Enabled(svcs, svcs[n].deps[i], level);
      MonotoneNeeds(svcs, rank, base, level, svcs[n].deps[i], x);
    }
  }

  /** With monotone levels and nothing failed, exactly the level's services run, each with its dependencies. */
  lemma MonotoneRunlevel(svcs: Services, order: seq<Name>, rank: Rank, level: nat)
    requires Ranked(svcs, rank) && Lists(order, ToStart(StopAll(svcs, level), level))
    requires Monotone(svcs, level) && forall n :: n in svcs ==> svcs[n].state != Failed
    ensures Ranked(StopAll(svcs, level), rank)
    ensures var t := StartAll(StopAll(svcs, level), order, rank);
            RunsLevel(t, level) && Grounded(t, {})
  {
    var mid := StopAll(svcs, level);
    RunlevelExact(svcs, order, rank, level);
    MonotoneReaches(mid, order, rank, level);
    var t := StartAll(mid, order, rank);
    forall n | IsRunning(t, n)
      ensures DepsRun(t, n)
    {
      assert Enabled(t, n, level) && Enabled(svcs, n, level);
      forall i | 0 <= i < |t[n].deps|
        ensures IsRunning(t, t[n].deps[i])
      {
        assert Enabled(svcs, svcs[n].deps[i], level) && Enabled(t, t[n].deps[i], level);
      }
    }
  }

  lemma MonotoneReaches(svcs: Services, order: seq<Name>, rank: Rank, level: nat)
    requires Ranked(svcs, rank) && Lists(order, ToStart(svcs, level)) && Monotone(svcs, level)
    requires forall n :: n in svcs ==> svcs[n].state != Failed
    ensures ReachesLevel(svcs, order, rank, level)
  {
    var base := RunningSet(svcs);
    forall x
      ensures Wanted(svcs, rank, base, order, x) <==> Enabled(svcs, x, level) && !IsRunning(svcs, x)
    {
      if Wanted(svcs, rank, base, order, x) {
        var i :| 0 <= i < |order| && Needs(svcs, rank, base, order[i], x);
        assert order[i] in ToStart(svcs, level);
        MonotoneNeeds(svcs, rank, base, level, order[i], x);
      }
      if Enabled(svcs, x, level) && !IsRunning(svcs, x) {
        assert x in ToStart(svcs, level);
        var i :| 0 <= i < |order| && order[i] == x;
        assert Needs(svcs, rank, base, order[i], x);
      }
    }
  }

  /** A stopped service of the level that requires one outside it spoils the level. */
  lemma DependencyOutside(svcs: Services, order: seq<Name>, rank: Rank, level: nat, n: Name, i: nat)
    requires Ranked(svcs, rank) && Lists(order, ToStart(StopAll(svcs, level), level))
    requires Enabled(svcs, n, level) && svcs[n].state == Stopped && i < |svcs[n].deps|
    requires !Enabled(svcs, svcs[n].deps[i], level)
    ensures Ranked(StopAll(svcs, level), rank)
    ensures !RunsLevel(StartAll(StopAll(svcs, level), order, rank), level)
  {
    RunlevelExact(svcs, order, rank, level);
    OutsideNotReached(StopAll(svcs, level), order, rank, level, n, i);
  }

  lemma OutsideNotReached(svcs: Services, order: seq<Name>, rank: Rank, level: nat, n: Name, i: nat)
    requires Ranked(svcs, rank) && Lists(order, ToStart(svcs, level)) && n in ToStart(svcs, level) && i < |svcs[n].deps|
    requires !Enabled(svcs, svcs[n].deps[i], level) && !IsRunning(svcs, svcs[n].deps[i])
    ensures !ReachesLevel(svcs, order, rank, level)
  {
    var base, d := RunningSet(svcs), svcs[n].deps[i];
    assert NeedsDep(svcs, rank, base, n, i, d);
    var k :| 0 <= k < |order| && order[k] == n;
    assert Needs(svcs, rank, base, order[k], d);
    assert Wanted(svcs, rank, base, order, d);
  }

  /** Two services, one requiring the other from outside the level: the other ends up running too. */
  lemma DisabledDependencyStarts(web: Name, net: Name, rank: Rank)
    requires web != net && rank(net) < rank(web)
    ensures var svcs := map[web := Service([net], [true], Stopped, 0), net := Service([], [false], Stopped, 0)];
            && Ranked(svcs, rank) && Lists([web], ToStart(StopAll(svcs, 0), 0)) && Ranked(StopAll(svcs, 0), rank)
            && !RunsLevel(StartAll(StopAll(svcs, 0), [web], rank), 0)
  {
    var svcs := map[web := Service([net], [true], Stopped, 0), net := Service([], [false], Stopped, 0)];
    assert ToStart(StopAll(svcs, 0), 0) == {web};
    DependencyOutside(svcs, [web], rank, 0, web, 0);
  }

  /** A failed service of the level is left alone, so the level is not reached. */
  lemma FailedNotStarted(web: Name, rank: Rank)
    ensures var svcs := map[web := Service([], [true], Failed, 0)];
            && Ranked(svcs, rank) && Lists([], ToStart(StopAll(svcs, 0), 0)) && Ranked(StopAll(svcs, 0), rank)
            && StartAll(StopAll(svcs, 0), [], rank) == svcs && !RunsLevel(svcs, 0)
  {
    var svcs := map[web := Service([], [true], Failed, 0)];
    assert StopAll(svcs, 0) == svcs && ToStart(svcs, 0) == {};
    assert Enabled(svcs, web, 0) && !IsRunning(svcs, web);
  }
}
