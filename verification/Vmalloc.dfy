/**
  The kernel virtual memory allocator of `src/vmalloc.rs`: a page bitmap, a table of
  allocations and a byte counter that must agree. Mapping a page is an oracle that may fail.
*/
module Vmalloc {
  import opened Arithmetic
  import opened Words
  import opened Wrappers
  import opened Bitmap

  const PAGE := 4096

  datatype Error = OutOfVirtualSpace | OutOfPhysicalFrames | MapFailed | BadFree

  /** The base address, the page bitmap, the table from start address to length in pages, and the bytes in use. */
  datatype Space = Space(base: nat, bits: seq<bool>, table: map<nat, nat>, used: nat)

  function SetPages(bits: seq<bool>): set<nat> { set i: nat | i < |bits| && bits[i] }

  /** The fewest pages that hold `size` bytes. */
  function Pages(size: nat): (n: nat)
    ensures n * 4096 >= size && (n > 0 ==> (n - 1) * 4096 < size)
  {
    (size + 4095) / PAGE
  }

  function Address(base: nat, page: nat): nat { base + page * PAGE }

  function PageOf(base: nat, addr: nat): nat { if addr < base then 0 else (addr - base) / PAGE }

  lemma AddressPage(base: nat, page: nat)
    ensures PageOf(base, Address(base, page)) == page
  {
    DivModIs(page * PAGE, PAGE, page, 0);
  }

  /** Page `i` belongs to the allocation that starts at address `a`. */
  predicate Owns(base: nat, table: map<nat, nat>, a: nat, i: nat) {
    a in table && PageOf(base, a) <= i < PageOf(base, a) + table[a]
  }

  /** Every allocation starts on a page of the space, is not empty and ends inside it. */
  predicate Placed(s: Space) {
    forall a :: a in s.table ==>
      && a == Address(s.base, PageOf(s.base, a)) && 0 < s.table[a]
      && PageOf(s.base, a) + s.table[a] <= |s.bits|
  }

  /** The set bits are exactly the pages of the allocations, none in two of them, and the counter is their size. */
  ghost predicate Coherent(s: Space) {
    && Placed(s)
    && (forall i: nat :: i < |s.bits| ==> (s.bits[i] <==> exists a :: Owns(s.base, s.table, a, i)))
    && (forall a, b, i :: Owns(s.base, s.table, a, i) && Owns(s.base, s.table, b, i) ==> a == b)
    && s.used == PAGE * |SetPages(s.bits)|
  }

  function Reserve(s: Space, start: nat, n: nat): Space {
    s.(bits := Filled(s.bits, start, n, true), table := s.table[Address(s.base, start) := n], used := s.used + n * PAGE)
  }

  function Release(s: Space, a: nat): Space
    requires a in s.table && s.table[a] * PAGE <= s.used
  {
    s.(bits := Filled(s.bits, PageOf(s.base, a), s.table[a], false),
       table := s.table - {a}, used := s.used - s.table[a] * PAGE)
  }

  lemma FillPages(bits: seq<bool>, start: nat, n: nat)
    requires start + n <= |bits|
    ensures SetPages(Filled(bits, start, n, true)) == SetPages(bits) + Interval(start, n)
    ensures SetPages(Filled(bits, start, n, false)) == SetPages(bits) - Interval(start, n)
  {
  }

  /** No allocation reaches into a clear run, and none starts there. */
  lemma ClearIsFree(s: Space, start: nat, n: nat, a: nat, i: nat)
    requires Coherent(s) && n > 0 && ClearRun(s.bits, |s.bits|, start, n) && start <= i < start + n
    ensures !Owns(s.base, s.table, a, i) && Address(s.base, start) !in s.table
  {
    AddressPage(s.base, start);
    assert !s.bits[i] && !s.bits[start];
    assert !Owns(s.base, s.table, Address(s.base, start), start);
  }

  /** After reserving a clear run, the owners of a page are what they were outside it, and the new one inside. */
  lemma ReserveOwners(s: Space, start: nat, n: nat, a: nat, i: nat)
    requires Coherent(s) && n > 0 && ClearRun(s.bits, |s.bits|, start, n)
    ensures var r := Reserve(s, start, n);
            Owns(r.base, r.table, a, i) <==>
              if start <= i < start + n then a == Address(s.base, start) else Owns(s.base, s.table, a, i)
  {
    AddressPage(s.base, start);
    ClearIsFree(s, start, n, a, if start <= i < start + n then i else start);
  }

  lemma ReserveBit(s: Space, start: nat, n: nat, i: nat)
    requires Coherent(s) && n > 0 && ClearRun(s.bits, |s.bits|, start, n) && i < |s.bits|
    ensures var r := Reserve(s, start, n); r.bits[i] <==> exists a :: Owns(r.base, r.table, a, i)
  {
    var r := Reserve(s, start, n);
    if start <= i < start + n {
      ReserveOwners(s, start, n, Address(s.base, start), i);
    } else if s.bits[i] {
      var a :| Owns(s.base, s.table, a, i);
      ReserveOwners(s, start, n, a, i);
    } else if a :| Owns(r.base, r.table, a, i) {
      ReserveOwners(s, start, n, a, i);
    }
  }

  lemma ReserveUsed(bits: seq<bool>, start: nat, n: nat)
    requires ClearRun(bits, |bits|, start, n)
    ensures |SetPages(Filled(bits, start, n, true))| == |SetPages(bits)| + n
  {
    FillPages(bits, start, n);
    IntervalSize(start, n);
    Disjoint(SetPages(bits), Interval(start, n));
  }

  lemma ReserveCoherent(s: Space, start: nat, n: nat)
    requires Coherent(s) && n > 0 && ClearRun(s.bits, |s.bits|, start, n)
    ensures Coherent(Reserve(s, start, n))
  {
    var r := Reserve(s, start, n);
    AddressPage(s.base, start);
    forall i: nat | i < |s.bits|
      ensures r.bits[i] <==> exists a :: Owns(r.base, r.table, a, i)
    {
      ReserveBit(s, start, n, i);
    }
    forall a, b, i | Owns(r.base, r.table, a, i) && Owns(r.base, r.table, b, i)
      ensures a == b
    {
      ReserveOwners(s, start, n, a, i);
      ReserveOwners(s, start, n, b, i);
    }
    ReserveUsed(s.bits, start, n);
  }

  /** The pages of an allocation are set, so releasing it takes off exactly its size. */
  lemma AllocationSize(s: Space, a: nat)
    requires Coherent(s) && a in s.table
    ensures s.table[a] * PAGE <= s.used
    ensures |SetPages(s.bits) - Interval(PageOf(s.base, a), s.table[a])| == |SetPages(s.bits)| - s.table[a]
  {
    var own := Interval(PageOf(s.base, a), s.table[a]);
    forall i | i in own
      ensures i in SetPages(s.bits)
    {
      assert Owns(s.base, s.table, a, i);
    }
    IntervalSize(PageOf(s.base, a), s.table[a]);
    Disjoint(SetPages(s.bits) - own, own);
    assert (SetPages(s.bits) - own) + own == SetPages(s.bits);
  }

  /** Releasing an allocation leaves the owners of the other pages alone. */
  lemma ReleaseOwners(s: Space, a: nat, b: nat, i: nat)
    requires Coherent(s) && a in s.table && s.table[a] * PAGE <= s.used
    ensures var r := Release(s, a);
            Owns(r.base, r.table, b, i) <==> Owns(s.base, s.table, b, i) && !Owns(s.base, s.table, a, i)
  {
  }

  lemma ReleaseCoherent(s: Space, a: nat)
    requires Coherent(s) && a in s.table && s.table[a] * PAGE <= s.used
    ensures Coherent(Release(s, a))
  {
    var r := Release(s, a);
    forall i: nat | i < |s.bits|
      ensures r.bits[i] <==> exists b :: Owns(r.base, r.table, b, i)
    {
      forall b
        ensures Owns(r.base, r.table, b, i) <==> Owns(s.base, s.table, b, i) && !Owns(s.base, s.table, a, i)
      {
        ReleaseOwners(s, a, b, i);
      }
      assert Owns(s.base, s.table, a, i) <==> PageOf(s.base, a) <= i < PageOf(s.base, a) + s.table[a];
    }
    forall b, c, i | Owns(r.base, r.table, b, i) && Owns(r.base, r.table, c, i)
      ensures b == c
    {
      ReleaseOwners(s, a, b, i);
      ReleaseOwners(s, a, c, i);
    }
    FillPages(s.bits, PageOf(s.base, a), s.table[a]);
    AllocationSize(s, a);
  }

  /** Freeing what was just allocated gives the whole space back. */
  lemma ReleaseUndoes(s: Space, start: nat, n: nat)
    requires Coherent(s) && n > 0 && ClearRun(s.bits, |s.bits|, start, n)
    ensures Release(Reserve(s, start, n), Address(s.base, start)) == s
  {
    AddressPage(s.base, start);
    ClearIsFree(s, start, n, Address(s.base, start), start);
    FillUndone(s.bits, start, n);
    assert s.table[Address(s.base, start) := n] - {Address(s.base, start)} == s.table;
  }

  // ---------- The counter is the sum over the table ----------

  function SumPages(table: map<nat, nat>, order: seq<nat>): nat
    requires forall k :: 0 <= k < |order| ==> order[k] in table
  {
    if order == [] then 0 else SumPages(table, order[..|order| - 1]) + table[order[|order| - 1]]
  }

  ghost function PagesIn(base: nat, table: map<nat, nat>, order: seq<nat>): set<nat>
    requires forall k :: 0 <= k < |order| ==> order[k] in table
  {
    if order == [] then {}
    else
      var last := order[|order| - 1];
      PagesIn(base, table, order[..|order| - 1]) + Interval(PageOf(base, last), table[last])
  }

  predicate NoRepeats(order: seq<nat>) { forall j, k :: 0 <= j < k < |order| ==> order[j] != order[k] }

  lemma {:induction false} PagesMember(base: nat, table: map<nat, nat>, order: seq<nat>, i: nat)
    requires forall k :: 0 <= k < |order| ==> order[k] in table
    ensures i in PagesIn(base, table, order) <==> exists k :: 0 <= k < |order| && Owns(base, table, order[k], i)
  {
    if order != [] {
      var front := order[..|order| - 1];
      PagesMember(base, table, front, i);
      if k :| 0 <= k < |front| && Owns(base, table, front[k], i) {
        assert Owns(base, table, order[k], i);
      }
      if k :| 0 <= k < |order| && Owns(base, table, order[k], i) {
        assert k < |front| ==> Owns(base, table, front[k], i);
      }
    }
  }

  lemma {:induction false} PagesCount(s: Space, order: seq<nat>)
    requires Coherent(s) && NoRepeats(order) && forall k :: 0 <= k < |order| ==> order[k] in s.table
    ensures |PagesIn(s.base, s.table, order)| == SumPages(s.table, order)
  {
    if order != [] {
      var front, last := order[..|order| - 1], order[|order| - 1];
      var pages, own := PagesIn(s.base, s.table, front), Interval(PageOf(s.base, last), s.table[last]);
      PagesCount(s, front);
      IntervalSize(PageOf(s.base, last), s.table[last]);
      forall i | i in pages
        ensures i !in own
      {
        PagesMember(s.base, s.table, front, i);
        var k :| 0 <= k < |front| && Owns(s.base, s.table, front[k], i);
        assert !Owns(s.base, s.table, last, i);
      }
      Disjoint(pages, own);
    }
  }

  /** The lengths in the table, listed in any order, add up to the bytes in use. */
  lemma UsedIsTotal(s: Space, order: seq<nat>)
    requires Coherent(s) && NoRepeats(order) && forall a :: a in s.table <==> a in order
    ensures s.used == PAGE * SumPages(s.table, order)
  {
    PagesCount(s, order);
    forall i: nat
      ensures i in PagesIn(s.base, s.table, order) <==> i in SetPages(s.bits)
    {
      PagesMember(s.base, s.table, order, i);
      if i in SetPages(s.bits) {
        var a :| Owns(s.base, s.table, a, i);
        var k :| 0 <= k < |order| && order[k] == a;
        assert Owns(s.base, s.table, order[k], i);
      }
    }
    assert PagesIn(s.base, s.table, order) == SetPages(s.bits);
  }

  // ---------- The allocator ----------

  /** Lowest first fit, as `find_run` scans for it. */
  method FindRun(words: array<Bits>, pages: nat, n: nat) returns (r: Option<nat>)
    requires Packed(words[..], 64) && pages == words.Length * 64
    ensures r == if n == 0 then None else FirstFit(Flat(words[..], 64), n, 0)
    ensures n > 0 ==> LowestRun(Flat(words[..], 64), pages, n, r)
  {
    ghost var bits := Flat(words[..], 64);
    if n == 0 || n > pages { return None; }
    var start, run := 0, 0;
    for i := 0 to pages
      invariant run < n && start + run == i && RunSoFar(bits, i, run, n)
    {
      var taken := GetBit(words, 64, i);
      RunGrows(bits, i, run, n);
      if taken {
        start := i + 1;
        run := 0;
      } else {
        run := run + 1;
        if run == n {
          LowestIsFirst(bits, n, Some(start), 0);
          return Some(start);
        }
      }
    }
    NoRun(bits, run, n);
    LowestIsFirst(bits, n, None, 0);
    return None;
  }

  /** What mapping a page answers: nothing, or why it failed. */
  function Answer(mapError: nat -> Option<Error>, base: nat, page: nat): Option<Error> { mapError(Address(base, page)) }

  /** The pages from `start` on, `n` of them, can be mapped. */
  ghost predicate Mappable(mapError: nat -> Option<Error>, base: nat, start: nat, n: nat) {
    forall p: nat :: start <= p < start + n ==> Answer(mapError, base, p).None?
  }

  /** Some page of an allocation cannot be mapped, the ones before it can, and this is why. */
  ghost predicate FirstFailure(mapError: nat -> Option<Error>, base: nat, start: nat, n: nat, why: Error) {
    exists i: nat :: i < n && Mappable(mapError, base, start, i) && Answer(mapError, base, start + i) == Some(why)
  }

  class Allocator {
    const words: array<Bits>
    const base: nat
    const pages: nat
    var table: map<nat, nat>
    var usedBytes: nat
    var mapped: set<nat>

    ghost predicate Shaped()
      reads this, words
    {
      Packed(words[..], 64) && pages == words.Length * 64
    }

    ghost function View(): Space
      requires Shaped()
      reads this, words
    {
      Space(base, Flat(words[..], 64), table, usedBytes)
    }

    ghost predicate Valid()
      reads this, words
    {
      Shaped() && Coherent(View()) && mapped == SetPages(View().bits)
    }

    constructor (base: nat, size: nat)
      ensures Valid() && fresh(words) && this.base == base && pages == size * 64
      ensures table == map[] && usedBytes == 0 && mapped == {}
    {
      words := new Bits[size](i => Zeros(64));
      this.base, pages, table, usedBytes, mapped := base, size * 64, map[], 0, {};
      new;
      forall i: nat | i < size * 64
        ensures !Flat(words[..], 64)[i]
      {
        Place(i, 64, size);
      }
      assert SetPages(Flat(words[..], 64)) == {};
    }

    /** Maps pages one by one; on a failure unmaps those it had mapped. */
    method MapPages(start: nat, n: nat, mapError: nat -> Option<Error>) returns (failed: Option<Error>)
      requires mapped !! Interval(start, n)
      modifies this`mapped
      ensures failed.None? ==> Mappable(mapError, base, start, n) && mapped == old(mapped) + Interval(start, n)
      ensures failed.Some? ==> FirstFailure(mapError, base, start, n, failed.value) && mapped == old(mapped)
    {
      for i := 0 to n
        invariant Mappable(mapError, base, start, i) && mapped == old(mapped) + Interval(start, i)
      {
        failed := Answer(mapError, base, start + i);
        if failed.Some? {
          UnmapPages(start, i);
          assert Interval(start, i) <= Interval(start, n);
          return;
        }
        mapped := mapped + {start + i};
        assert Interval(start, i + 1) == Interval(start, i) + {start + i};
      }
      return None;
    }

    method UnmapPages(start: nat, n: nat)
      modifies this`mapped
      ensures mapped == old(mapped) - Interval(start, n)
    {
      for j := 0 to n
        invariant mapped == old(mapped) - Interval(start, j)
      {
        mapped := mapped - {start + j};
        assert Interval(start, j + 1) == Interval(start, j) + {start + j};
      }
    }

    /** Takes a clear run and maps it, or puts everything back. */
    method Commit(start: nat, n: nat, mapError: nat -> Option<Error>) returns (failed: Option<Error>)
      requires Shaped() && ClearRun(View().bits, |View().bits|, start, n) && mapped !! Interval(start, n)
      modifies this, words
      ensures Shaped()
      ensures failed.None? ==>
        && Mappable(mapError, base, start, n) && View() == Reserve(old(View()), start, n)
        && mapped == old(mapped) + Interval(start, n)
      ensures failed.Some? ==>
        FirstFailure(mapError, base, start, n, failed.value) && View() == old(View()) && mapped == old(mapped)
    {
      FillUndone(View().bits, start, n);
      SetRange(words, 64, start, n, true);
      failed := MapPages(start, n, mapError);
      if failed.Some? {
        SetRange(words, 64, start, n, false);
      } else {
        table := table[Address(base, start) := n];
        usedBytes := usedBytes + n * PAGE;
      }
    }

    /** The work of `vfree` once the allocation is found. */
    method Discard(addr: nat)
      requires Shaped() && addr in table && PageOf(base, addr) + table[addr] <= pages && table[addr] * PAGE <= usedBytes
      modifies this, words
      ensures Shaped() && View() == Release(old(View()), addr)
      ensures mapped == old(mapped) - Interval(PageOf(base, addr), old(table)[addr])
    {
      var n := table[addr];
      var start := PageOf(base, addr);
      table := table - {addr};
      UnmapPages(start, n);
      SetRange(words, 64, start, n, false);
      usedBytes := usedBytes - n * PAGE;
    }

    /**
      Lowest first fit. On any failure the bitmap, the table, the counter and the mapped pages are
      what they were.
    */
    method Vmalloc(size: nat, mapError: nat -> Option<Error>) returns (r: Result<nat, Error>)
      requires Valid()
      modifies this, words
      ensures Valid()
      ensures r.Err? ==> View() == old(View()) && mapped == old(mapped)
      ensures size == 0 ==> r == Err(BadFree)
      ensures size > 0 ==>
        var n := Pages(size);
        var fit := FirstFit(old(View()).bits, n, 0);
        if fit.None? then r == Err(OutOfVirtualSpace)
        else if r.Ok? then
          && Mappable(mapError, base, fit.value, n) && r.value == Address(base, fit.value) == base + fit.value * 4096
          && View() == Reserve(old(View()), fit.value, n)
        else FirstFailure(mapError, base, fit.value, n, r.error)
    {
      if size == 0 { return Err(BadFree); }
      var n := Pages(size);
      var run := FindRun(words, pages, n);
      if run.None? { return Err(OutOfVirtualSpace); }
      ghost var s := View();
      ReserveCoherent(s, run.value, n);
      FillPages(s.bits, run.value, n);
      var failed := Commit(run.value, n, mapError);
      return if failed.Some? then Err(failed.value) else Ok(Address(base, run.value));
    }

    /** Only the start of a live allocation can be freed; that takes exactly that allocation away. */
    method Vfree(addr: nat) returns (r: Result<(), Error>)
      requires Valid()
      modifies this, words
      ensures Valid() && r == if addr in old(table) then Ok(()) else Err(BadFree)
      ensures r.Err? ==> View() == old(View()) && mapped == old(mapped)
      ensures r.Ok? ==> old(table)[addr] * PAGE <= old(usedBytes) && View() == Release(old(View()), addr)
    {
      if addr !in table { return Err(BadFree); }
      AllocationSize(View(), addr);
      ReleaseCoherent(View(), addr);
      FillPages(View().bits, PageOf(base, addr), table[addr]);
      Discard(addr);
      return Ok(());
    }

    method Stats() returns (total: nat, used: nat, allocations: nat)
      requires Valid()
      ensures total == pages * PAGE && used == PAGE * |SetPages(View().bits)| && allocations == |table|
    {
      return pages * PAGE, usedBytes, |table|;
    }
  }
}
