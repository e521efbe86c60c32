/**
  The wait queues of `src/futex.rs`: each method is one region the source runs under the
  `WAITQUEUES` lock, proved against a function on the map of queues.
*/
module Futex {
  import opened Wrappers

  datatype Error = BadAddress | WouldBlock | TimedOut

  /** The pids parked on an address, oldest first; an absent entry is an empty queue. */
  function Waiters(queues: map<nat, seq<nat>>, addr: nat): seq<nat> {
    if addr in queues then queues[addr] else []
  }

  /** Why FUTEX_WAIT does not park, if it does not. */
  function Refusal(addr: nat, word: int, expected: int): Option<Error> {
    if addr == 0 then Some(BadAddress) else if word != expected then Some(WouldBlock) else None
  }

  function Park(queues: map<nat, seq<nat>>, addr: nat, pid: nat): map<nat, seq<nat>> {
    queues[addr := Waiters(queues, addr) + [pid]]
  }

  /** A queue without one pid. */
  function Without(q: seq<nat>, pid: nat): seq<nat> {
    if q == [] then []
    else if q[|q| - 1] == pid then Without(q[..|q| - 1], pid)
    else Without(q[..|q| - 1], pid) + [q[|q| - 1]]
  }

  function Forget(queues: map<nat, seq<nat>>, addr: nat, pid: nat): map<nat, seq<nat>> {
    if addr in queues then queues[addr := Without(queues[addr], pid)] else queues
  }

  /** The pids one wake releases: the oldest `nr`, or all when there are fewer. */
  function Released(queues: map<nat, seq<nat>>, addr: nat, nr: nat): seq<nat> {
    var q := Waiters(queues, addr);
    if addr == 0 then [] else if nr <= |q| then q[..nr] else q
  }

  function Wake(queues: map<nat, seq<nat>>, addr: nat, nr: nat): map<nat, seq<nat>> {
    if addr == 0 || addr !in queues then queues
    else
      var rest := queues[addr][|Released(queues, addr, nr)|..];
      if rest == [] then queues - {addr} else queues[addr := rest]
  }

  /** A wake splits the queue of its address in two and leaves the others alone. */
  lemma WakeSplits(queues: map<nat, seq<nat>>, addr: nat, nr: nat)
    ensures Released(queues, addr, nr) + Waiters(Wake(queues, addr, nr), addr) == Waiters(queues, addr)
    ensures forall b :: b != addr ==> Waiters(Wake(queues, addr, nr), b) == Waiters(queues, b)
    ensures addr != 0 && nr >= |Waiters(queues, addr)| ==> Waiters(Wake(queues, addr, nr), addr) == []
    ensures addr != 0 && nr < |Waiters(queues, addr)| ==> |Released(queues, addr, nr)| == nr
  {
    var q := Waiters(queues, addr);
    var k := |Released(queues, addr, nr)|;
    assert q == q[..k] + q[k..];
  }

  lemma {:induction false} WithoutMembers(q: seq<nat>, pid: nat)
    ensures forall p :: p in Without(q, pid) <==> p in q && p != pid
  {
    if q != [] {
      WithoutMembers(q[..|q| - 1], pid);
      assert q == q[..|q| - 1] + [q[|q| - 1]];
    }
  }

  class WaitQueues {
    var queues: map<nat, seq<nat>>

    constructor ()
      ensures queues == map[]
    {
      queues := map[];
    }

    /** The check and the push at the head of `wait`, both under the lock. */
    method CheckAndPark(addr: nat, word: int, expected: int, pid: nat) returns (refusal: Option<Error>)
      modifies this
      ensures refusal == Refusal(addr, word, expected)
      ensures refusal == Some(BadAddress) <==> addr == 0
      ensures refusal == Some(WouldBlock) <==> addr != 0 && word != expected
      ensures queues == if refusal.None? then Park(old(queues), addr, pid) else old(queues)
    {
      if addr == 0 { return Some(BadAddress); }
      if word != expected { return Some(WouldBlock); }
      if addr !in queues {
        queues := queues[addr := []];
      }
      queues := queues[addr := queues[addr] + [pid]];
      return None;
    }

    /** One poll: is the pid still on the queue? */
    method StillParked(addr: nat, pid: nat) returns (parked: bool)
      ensures parked == (pid in Waiters(queues, addr))
    {
      if addr !in queues { return false; }
      var q := queues[addr];
      for i := 0 to |q|
        invariant pid !in q[..i]
      {
        if q[i] == pid { return true; }
      }
      return false;
    }

    /** The timeout arm: keep every waiter but this one. */
    method TimeOut(addr: nat, pid: nat)
      modifies this
      ensures queues == Forget(old(queues), addr, pid)
    {
      if addr in queues {
        var q := queues[addr];
        var kept: seq<nat> := [];
        for i := 0 to |q|
          invariant kept == Without(q[..i], pid)
        {
          assert q[..i + 1][..i] == q[..i];
          if q[i] != pid { kept := kept + [q[i]]; }
        }
        assert q[..|q|] == q;
        queues := queues[addr := kept];
      }
    }

    /** Releases the oldest waiters, `nr` of them or all there are. */
    method WakeUp(addr: nat, nr: nat) returns (woken: seq<nat>)
      modifies this
      ensures woken == Released(old(queues), addr, nr) && queues == Wake(old(queues), addr, nr)
      ensures addr == 0 ==> woken == []
      ensures addr != 0 ==> |woken| == if nr < |Waiters(old(queues), addr)| then nr else |Waiters(old(queues), addr)|
      ensures woken + Waiters(queues, addr) == Waiters(old(queues), addr)
    {
      WakeSplits(queues, addr, nr);
      if addr == 0 || addr !in queues { return []; }
      var q := queues[addr];
      var take := if nr < |q| then nr else |q|;
      woken := q[..take];
      queues := queues[addr := q[take..]];
      if queues[addr] == [] {
        queues := queues - {addr};
      }
    }
  }
}
