/**
  When `start` of `src/init.rs` comes back at all, on any dependencies: it succeeds exactly when its
  service can be started, fails exactly when following the first requirement in the way leads to a
  name that is not registered, and otherwise recurses without end.
*/
module InitReturns {
  import opened Wrappers
  import opened Init
  import opened InitManager

  // ---------- A call that comes back does so alike in every greater depth ----------

  lemma {:induction false} StartDeeper(svcs: Services, n: Name, depth: nat, more: nat)
    requires StartIn(svcs, n, depth).Done? && depth <= more
    ensures StartIn(svcs, n, more) == StartIn(svcs, n, depth)
    decreases depth, 1, 0
  {
    if n in svcs { DepsDeeper(svcs, svcs[n].deps, depth, more); }
  }

  lemma {:induction false} DepsDeeper(svcs: Services, deps: seq<Name>, depth: nat, more: nat)
    requires DepsIn(svcs, deps, depth).Done? && depth <= more
    ensures DepsIn(svcs, deps, more) == DepsIn(svcs, deps, depth)
    decreases depth, 0, |deps|
  {
    if deps != [] && deps[0] in svcs {
      if svcs[deps[0]].state == Running {
        DepsDeeper(svcs, deps[1..], depth, more);
      } else {
        StartDeeper(svcs, deps[0], depth - 1, more - 1);
        var t := Reached(StartIn(svcs, deps[0], depth - 1));
        if t.Some? { DepsDeeper(t.value, deps[1..], depth, more); }
      }
    }
  }

  lemma StartTwice(svcs: Services, n: Name, depth: nat, other: nat)
    requires StartIn(svcs, n, depth).Done? && StartIn(svcs, n, other).Done?
    ensures StartIn(svcs, n, depth) == StartIn(svcs, n, other)
  {
    if depth <= other { StartDeeper(svcs, n, depth, other); } else { StartDeeper(svcs, n, other, depth); }
  }

  // ---------- A successful start changes nothing about what can be started ----------

  /** Running, or startable in some number of requirements. */
  ghost predicate Able(svcs: Services, n: Name) { exists k :: Ready(svcs, n, k) }

  ghost predicate SameReach(s: Services, t: Services) {
    SameShape(s, t) && forall x :: Able(s, x) <==> Able(t, x)
  }

  lemma StartSameReach(svcs: Services, n: Name, depth: nat, t: Services)
    requires Reached(StartIn(svcs, n, depth)) == Some(t)
    ensures SameReach(svcs, t) && Able(svcs, n)
  {
    StartShape(svcs, n, depth);
    var k := StartedReady(svcs, n, depth, t);
    assert Ready(svcs, n, k);
    StartableStarts(svcs, n, k);
    StartTwice(svcs, n, depth, k);
    forall x
      ensures Able(svcs, x) <==> Able(t, x)
    {
      AbleSame(svcs, t, k, x);
    }
  }

  lemma AbleSame(s: Services, t: Services, k: nat, x: Name)
    requires SameShape(s, t) && Grows(s, t) && FromReady(s, t, k)
    ensures Able(s, x) <==> Able(t, x)
  {
    if m: nat :| Ready(s, x, m) {
      if !IsRunning(s, x) { StartableGrows(s, t, x, m); }
      assert Ready(t, x, m);
    }
    if m: nat :| Ready(t, x, m) {
      if IsRunning(t, x) {
        assert Ready(s, x, k);
      } else {
        StartableBefore(s, t, k, x, m);
        assert Ready(s, x, m + k + 1);
      }
    }
  }

  // ---------- Which starts fail ----------

  /** The first of these requirements that neither runs nor can be started is the one at `i`. */
  ghost predicate FirstInTheWay(svcs: Services, deps: seq<Name>, i: nat) {
    i < |deps| && !Able(svcs, deps[i]) && forall j :: 0 <= j < i ==> Able(svcs, deps[j])
  }

  /** From `n`, following the first requirement in the way each time, an unregistered name is met within `k` steps. */
  ghost predicate Fails(svcs: Services, n: Name, k: nat)
    decreases k
  {
    n !in svcs ||
    (k > 0 && exists i: nat :: FirstInTheWay(svcs, svcs[n].deps, i) && Fails(svcs, svcs[n].deps[i], k - 1))
  }

  lemma WaySame(s: Services, t: Services, deps: seq<Name>, i: nat)
    requires SameReach(s, t)
    ensures FirstInTheWay(s, deps, i) <==> FirstInTheWay(t, deps, i)
  {
  }

  lemma {:induction false} FailsSame(s: Services, t: Services, n: Name, k: nat)
    requires SameReach(s, t) && Fails(s, n, k)
    ensures Fails(t, n, k)
    decreases k
  {
    if n in s {
      var i: nat :| FirstInTheWay(s, s[n].deps, i) && Fails(s, s[n].deps[i], k - 1);
      WaySame(s, t, s[n].deps, i);
      FailsSame(s, t, s[n].deps[i], k - 1);
      assert FirstInTheWay(t, t[n].deps, i) && Fails(t, t[n].deps[i], k - 1);
    }
  }

  lemma WayLater(svcs: Services, deps: seq<Name>, i: nat)
    requires deps != [] && Able(svcs, deps[0])
    ensures FirstInTheWay(svcs, deps[1..], i) <==> FirstInTheWay(svcs, deps, i + 1)
  {
    var tail := deps[1..];
    assert forall j :: 0 <= j < |tail| ==> tail[j] == deps[j + 1];
    if FirstInTheWay(svcs, tail, i) {
      forall j | 0 <= j < i + 1
        ensures Able(svcs, deps[j])
      {
        if j > 0 { assert deps[j] == tail[j - 1]; }
      }
    }
  }

  ghost predicate Errs(a: Attempt) { a.Done? && a.outcome.result.Err? }

  /** Such a start comes back, with an error. */
  lemma {:induction false} FailsReturns(svcs: Services, n: Name, k: nat) returns (depth: nat)
    requires Fails(svcs, n, k)
    ensures Errs(StartIn(svcs, n, depth))
    decreases k, 1, 0
  {
    if n !in svcs {
      depth := 0;
    } else {
      var i: nat :| FirstInTheWay(svcs, svcs[n].deps, i) && Fails(svcs, svcs[n].deps[i], k - 1);
      depth := DepsFail(svcs, svcs[n].deps, i, k - 1);
    }
  }

  lemma {:induction false} DepsFail(svcs: Services, deps: seq<Name>, i: nat, k: nat) returns (depth: nat)
    requires FirstInTheWay(svcs, deps, i) && Fails(svcs, deps[i], k)
    ensures Errs(DepsIn(svcs, deps, depth))
    decreases k, 2, i
  {
    if i == 0 {
      depth := 0;
      assert !Ready(svcs, deps[0], 0);
      if deps[0] in svcs {
        var d := FailsReturns(svcs, deps[0], k);
        depth := d + 1;
      }
    } else {
      assert Able(svcs, deps[0]);
      WayLater(svcs, deps, i - 1);
      if IsRunning(svcs, deps[0]) {
        depth := DepsFail(svcs, deps[1..], i - 1, k);
      } else {
        depth := AfterFirst(svcs, deps, i, k);
      }
    }
  }

  /** The same when the first requirement has to be started. */
  lemma {:induction false} AfterFirst(svcs: Services, deps: seq<Name>, i: nat, k: nat) returns (depth: nat)
    requires i > 0 && FirstInTheWay(svcs, deps, i) && FirstInTheWay(svcs, deps[1..], i - 1) && Fails(svcs, deps[i], k)
    requires !IsRunning(svcs, deps[0])
    ensures Errs(DepsIn(svcs, deps, depth))
    decreases k, 2, i, 0
  {
    assert Able(svcs, deps[0]);
    var m :| Ready(svcs, deps[0], m);
    StartableStarts(svcs, deps[0], m);
    var t := Reached(StartIn(svcs, deps[0], m)).value;
    StartSameReach(svcs, deps[0], m, t);
    WaySame(svcs, t, deps[1..], i - 1);
    FailsSame(svcs, t, deps[i], k);
    var later := DepsFail(t, deps[1..], i - 1, k);
    depth := if later <= m then m + 1 else later;
    DepsDeeper(t, deps[1..], later, depth);
    StartDeeper(svcs, deps[0], m, depth - 1);
  }

  /** A start that comes back with an error met such a name. */
  lemma {:induction false} ErrorFails(svcs: Services, n: Name, depth: nat) returns (k: nat)
    requires Errs(StartIn(svcs, n, depth))
    ensures Fails(svcs, n, k)
    decreases depth, 1, 0
  {
    k := 0;
    if n in svcs {
      var i, m := DepsError(svcs, svcs[n].deps, depth);
      k := m + 1;
      assert FirstInTheWay(svcs, svcs[n].deps, i) && Fails(svcs, svcs[n].deps[i], k - 1);
    }
  }

  lemma {:induction false} DepsError(svcs: Services, deps: seq<Name>, depth: nat) returns (i: nat, k: nat)
    requires Errs(DepsIn(svcs, deps, depth))
    ensures FirstInTheWay(svcs, deps, i) && Fails(svcs, deps[i], k)
    decreases depth, 0, |deps|
  {
    i, k := 0, 0;
    if deps[0] in svcs {
      if svcs[deps[0]].state == Running {
        assert Ready(svcs, deps[0], 0);
        i, k := DepsError(svcs, deps[1..], depth);
        WayLater(svcs, deps, i);
        i := i + 1;
      } else {
        var t := Reached(StartIn(svcs, deps[0], depth - 1));
        if t.Some? {
          StartSameReach(svcs, deps[0], depth - 1, t.value);
          SameReachBack(svcs, t.value);
          i, k := DepsError(t.value, deps[1..], depth);
          WaySame(svcs, t.value, deps[1..], i);
          FailsSame(t.value, svcs, deps[1..][i], k);
          WayLater(svcs, deps, i);
          i := i + 1;
        } else {
          k := ErrorFails(svcs, deps[0], depth - 1);
          NotAble(svcs, deps[0], depth - 1);
        }
      }
    }
  }

  lemma SameReachBack(s: Services, t: Services)
    requires SameReach(s, t)
    ensures SameReach(t, s)
  {
  }

  lemma NotAble(svcs: Services, n: Name, depth: nat)
    requires Errs(StartIn(svcs, n, depth)) && !IsRunning(svcs, n)
    ensures !Able(svcs, n)
  {
    if k :| Ready(svcs, n, k) {
      StartableStarts(svcs, n, k);
      StartTwice(svcs, n, depth, k);
    }
  }

  // ---------- Main result ----------

  ghost predicate Returns(svcs: Services, n: Name, depth: nat) { StartIn(svcs, n, depth).Done? }

  ghost predicate ReturnsError(svcs: Services, n: Name, depth: nat) { Errs(StartIn(svcs, n, depth)) }

  /** Within some number of steps. */
  ghost predicate Fated(svcs: Services, n: Name, k: nat) { Fails(svcs, n, k) }

  /** Start comes back with an error in some depth exactly when a name that is not registered is in its way. */
  lemma ErrorExact(svcs: Services, n: Name)
    ensures (exists depth :: ReturnsError(svcs, n, depth)) <==> exists k :: Fated(svcs, n, k)
  {
    if depth :| ReturnsError(svcs, n, depth) {
      var k := ErrorFails(svcs, n, depth);
      assert Fated(svcs, n, k);
    }
    if k :| Fated(svcs, n, k) {
      var depth := FailsReturns(svcs, n, k);
      assert ReturnsError(svcs, n, depth);
    }
  }

  /** On any dependencies, start comes back in some depth exactly when its service can be started or its start fails. */
  lemma ReturnsExact(svcs: Services, n: Name)
    ensures (exists depth :: Returns(svcs, n, depth)) <==>
            (exists k :: CanStart(svcs, n, k)) || (exists k :: Fated(svcs, n, k))
  {
    StartableExact(svcs, n);
    ErrorExact(svcs, n);
    if depth :| Returns(svcs, n, depth) {
      assert Succeeds(svcs, n, depth) || ReturnsError(svcs, n, depth);
    }
    if depth :| Succeeds(svcs, n, depth) { assert Returns(svcs, n, depth); }
    if depth :| ReturnsError(svcs, n, depth) { assert Returns(svcs, n, depth); }
  }

  /** Never both: no service that can be started fails. */
  lemma NotBoth(svcs: Services, n: Name, k: nat, m: nat)
    requires CanStart(svcs, n, k)
    ensures !Fated(svcs, n, m)
  {
    StartableStarts(svcs, n, k);
    if Fated(svcs, n, m) {
      var depth := FailsReturns(svcs, n, m);
      StartTwice(svcs, n, k, depth);
    }
  }
}
