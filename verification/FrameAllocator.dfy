/**
  The physical frame allocator of `src/memory.rs`. The bitmap is an array of bytes, a set bit
  meaning used or reserved; its length is a parameter. `usable` names the frames the memory map
  handed over, so frames allocated are the usable ones whose bit is set.
*/
module FrameAllocator {
  import opened Arithmetic
  import opened Words
  import opened Wrappers
  import opened Bitmap

  const FRAME_SIZE := 4096
  const USIZE := 0x1_0000_0000_0000_0000

  /** Frames whose bit is clear. */
  function FreeFrames(bits: seq<bool>): set<nat> { set i: nat | i < |bits| && !bits[i] }

  /** Whole frames that hold `size` bytes. */
  function Pages(size: nat): nat { (size + 4095) / FRAME_SIZE }

  /** They are the fewest. */
  lemma PagesLeast(size: nat, n: nat)
    ensures n * 4096 >= size <==> n >= Pages(size)
  {
  }

  function SaturatingSub(a: nat, b: nat): nat { if a >= b then a - b else 0 }

  /** `r` is the lowest clear bit from `lo` to `hi`, or all of them are set. */
  predicate FirstClear(bits: seq<bool>, lo: nat, hi: nat, r: Option<nat>)
    requires hi <= |bits|
  {
    if r.None? then AllSet(bits, lo, hi) else lo <= r.value < hi && !bits[r.value] && AllSet(bits, lo, r.value)
  }

  /** `r` is the lowest clear bit from the byte of `hint` on, else the lowest one before it. */
  predicate FirstFromHint(bits: seq<bool>, hint: nat, r: Option<nat>) {
    var lo := 8 * (hint / 8);
    && lo <= |bits| && (FirstClear(bits, lo, |bits|, None) || FirstClear(bits, lo, |bits|, r))
    && (FirstClear(bits, lo, |bits|, None) ==> FirstClear(bits, 0, lo, r))
  }

  predicate AllSet(bits: seq<bool>, lo: nat, hi: nat) { hi <= |bits| && forall i :: lo <= i < hi ==> bits[i] }

  lemma BitOfByte(bytes: seq<Bits>, b: nat, bit: nat)
    requires Packed(bytes, 8) && b < |bytes| && bit < 8
    ensures Flat(bytes, 8)[8 * b + bit] == bytes[b][bit]
  {
    DivModIs(8 * b + bit, 8, b, bit);
  }

  lemma FullByte(bytes: seq<Bits>, b: nat, lo: nat)
    requires Packed(bytes, 8) && b < |bytes| && bytes[b] == Ones(8) && AllSet(Flat(bytes, 8), lo, 8 * b)
    ensures AllSet(Flat(bytes, 8), lo, 8 * b + 8)
  {
    forall i | 8 * b <= i < 8 * b + 8
      ensures Flat(bytes, 8)[i]
    {
      BitOfByte(bytes, b, i - 8 * b);
    }
  }

  /** Free frames are usable ones, and `taken` counts the others. */
  ghost predicate Accounts(bits: seq<bool>, usable: set<nat>, taken: nat) {
    FreeFrames(bits) <= usable && taken == |usable - FreeFrames(bits)|
  }

  /** Setting a clear run takes its frames out of the free set. */
  lemma TakeRun(bits: seq<bool>, usable: set<nat>, taken: nat, start: nat, n: nat)
    requires Accounts(bits, usable, taken) && ClearRun(bits, |bits|, start, n)
    ensures Interval(start, n) <= FreeFrames(bits)
    ensures FreeFrames(Filled(bits, start, n, true)) == FreeFrames(bits) - Interval(start, n)
    ensures Accounts(Filled(bits, start, n, true), usable, taken + n)
  {
    var now := FreeFrames(bits) - Interval(start, n);
    assert FreeFrames(Filled(bits, start, n, true)) == now;
    IntervalSize(start, n);
    Disjoint(usable - FreeFrames(bits), Interval(start, n));
    assert usable - now == (usable - FreeFrames(bits)) + Interval(start, n);
  }

  lemma TakenBounded(bits: seq<bool>, usable: set<nat>, taken: nat)
    requires Accounts(bits, usable, taken)
    ensures taken <= |usable|
  {
    Disjoint(usable - FreeFrames(bits), FreeFrames(bits));
    assert (usable - FreeFrames(bits)) + FreeFrames(bits) == usable;
  }

  lemma FreeBounded(bits: seq<bool>)
    ensures |FreeFrames(bits)| <= |bits|
  {
    var all := Interval(0, |bits|);
    IntervalSize(0, |bits|);
    Disjoint(FreeFrames(bits), all - FreeFrames(bits));
    assert FreeFrames(bits) + (all - FreeFrames(bits)) == all;
  }

  /** Clearing a run of allocated frames puts them back. */
  lemma GiveRun(bits: seq<bool>, usable: set<nat>, taken: nat, start: nat, n: nat)
    requires Accounts(bits, usable, taken) && start + n <= |bits| && Interval(start, n) <= usable - FreeFrames(bits)
    ensures FreeFrames(Filled(bits, start, n, false)) == FreeFrames(bits) + Interval(start, n)
    ensures n <= taken && Accounts(Filled(bits, start, n, false), usable, taken - n)
  {
    var now := FreeFrames(bits) + Interval(start, n);
    assert FreeFrames(Filled(bits, start, n, false)) == now;
    IntervalSize(start, n);
    Disjoint(usable - now, Interval(start, n));
    assert usable - FreeFrames(bits) == (usable - now) + Interval(start, n);
  }

  /** A counter of 64 bits goes down. */
  function CountDown(n: nat, k: nat): nat { (n - k) % USIZE }

  /** The frames of a run are allocated ones, so that a caller can own them. */
  predicate Owned(bits: seq<bool>, usable: set<nat>, start: nat, n: nat) {
    Interval(start, n) <= usable - FreeFrames(bits)
  }

  /** Clearing any run keeps the accounts exactly when its frames were allocated. */
  lemma GiveExact(bits: seq<bool>, usable: set<nat>, taken: nat, start: nat, n: nat)
    requires Accounts(bits, usable, taken) && start + n <= |bits| < USIZE && taken < USIZE
    ensures FreeFrames(Filled(bits, start, n, false)) == FreeFrames(bits) + Interval(start, n)
    ensures Accounts(Filled(bits, start, n, false), usable, CountDown(taken, n)) <==> Owned(bits, usable, start, n)
  {
    var free, run := FreeFrames(bits), Interval(start, n);
    assert FreeFrames(Filled(bits, start, n, false)) == free + run;
    if Owned(bits, usable, start, n) {
      GiveRun(bits, usable, taken, start, n);
    } else if run <= usable {
      IntervalSize(start, n);
      SharedFrames(free, run, usable);
    }
  }

  /** Frames put back that were not all taken: the taken ones go down by less than the run. */
  lemma SharedFrames(free: set<nat>, run: set<nat>, usable: set<nat>)
    requires free <= usable && run <= usable && !(run <= usable - free)
    ensures |usable - free| - |run| < |usable - (free + run)| <= |usable - free|
  {
    Disjoint(run - free, run * free);
    assert run == (run - free) + run * free;
    Disjoint(usable - (free + run), run - free);
    assert usable - free == (usable - (free + run)) + (run - free);
    var f :| f in run && f in free;
    assert f in run * free;
  }

  lemma FillOne(bits: seq<bool>, i: nat, v: bool)
    requires i < |bits|
    ensures bits[i := v] == Filled(bits, i, 1, v) && Interval(i, 1) == {i}
  {
  }

  /** The same, on accounts that may be wrong already. */
  lemma GiveAny(bits: seq<bool>, usable: set<nat>, taken: nat, start: nat, n: nat)
    requires start + n <= |bits| < USIZE && taken < USIZE
    ensures FreeFrames(Filled(bits, start, n, false)) == FreeFrames(bits) + Interval(start, n)
    ensures Accounts(bits, usable, taken) ==>
            (Accounts(Filled(bits, start, n, false), usable, CountDown(taken, n)) <==> Owned(bits, usable, start, n))
  {
    if Accounts(bits, usable, taken) { GiveExact(bits, usable, taken, start, n); }
  }

  /** The same of one frame. */
  lemma GiveOne(bits: seq<bool>, usable: set<nat>, taken: nat, frame: nat)
    requires frame < |bits| < USIZE && taken < USIZE
    ensures FreeFrames(bits[frame := false]) == FreeFrames(bits) + {frame}
    ensures Accounts(bits, usable, taken) ==>
            (Accounts(bits[frame := false], usable, CountDown(taken, 1)) <==> frame in usable - FreeFrames(bits))
  {
    FillOne(bits, frame, false);
    GiveAny(bits, usable, taken, frame, 1);
  }

  /** Free frames and allocated ones make up the usable ones. */
  lemma FreeCount(bits: seq<bool>, usable: set<nat>, taken: nat)
    requires Accounts(bits, usable, taken)
    ensures taken + |FreeFrames(bits)| == |usable|
  {
    Disjoint(FreeFrames(bits), usable - FreeFrames(bits));
    assert FreeFrames(bits) + (usable - FreeFrames(bits)) == usable;
  }

  /** One entry of the boot memory map, in bytes. */
  datatype Region = Region(isUsable: bool, start: nat, end: nat)

  /** The first whole frame of a region, and the number of its whole frames below `max`. */
  function FirstFrame(r: Region): nat { (r.start + 4095) / FRAME_SIZE }

  function FrameCount(r: Region, max: nat): nat {
    var end := if r.end / FRAME_SIZE < max then r.end / FRAME_SIZE else max;
    if r.isUsable then SaturatingSub(end, FirstFrame(r)) else 0
  }

  function Span(r: Region, max: nat): set<nat> { Interval(FirstFrame(r), FrameCount(r, max)) }

  /** What `init` counts, and what it clears. */
  function CountAll(regions: seq<Region>, max: nat): nat {
    if regions == [] then 0 else CountAll(regions[..|regions| - 1], max) + FrameCount(regions[|regions| - 1], max)
  }

  function SpanAll(regions: seq<Region>, max: nat): set<nat> {
    if regions == [] then {} else SpanAll(regions[..|regions| - 1], max) + Span(regions[|regions| - 1], max)
  }

  predicate NoOverlap(regions: seq<Region>, max: nat) {
    forall i, j :: 0 <= i < j < |regions| ==> Span(regions[i], max) !! Span(regions[j], max)
  }

  lemma {:induction false} SpanMember(regions: seq<Region>, max: nat, f: nat)
    ensures f in SpanAll(regions, max) <==> exists i :: 0 <= i < |regions| && f in Span(regions[i], max)
  {
    if regions != [] {
      var front := regions[..|regions| - 1];
      SpanMember(front, max, f);
      if f in SpanAll(front, max) {
        var i :| 0 <= i < |front| && f in Span(front[i], max);
        assert f in Span(regions[i], max);
      }
      if i :| 0 <= i < |regions| && f in Span(regions[i], max) {
        assert i < |front| ==> f in Span(front[i], max);
      }
    }
  }

  /** A usable region holds all the bytes of a frame. */
  predicate Holds(r: Region, f: nat) { r.isUsable && r.start <= f * 4096 && (f + 1) * 4096 <= r.end }

  /** Some usable region holds all of a frame. */
  predicate Backed(regions: seq<Region>, f: nat) { exists i :: 0 <= i < |regions| && Holds(regions[i], f) }

  /** The frames a region adds, in addresses: those below `max` that it holds. */
  lemma SpanHolds(r: Region, max: nat, f: nat)
    ensures f in Span(r, max) <==> f < max && Holds(r, f)
  {
    assert FirstFrame(r) <= f <==> r.start <= f * 4096;
    assert f < r.end / FRAME_SIZE <==> (f + 1) * 4096 <= r.end;
  }

  /** What `init` clears: the frames below `max` that lie in a usable region. */
  lemma SpanAllBacked(regions: seq<Region>, max: nat, f: nat)
    ensures f in SpanAll(regions, max) <==> f < max && Backed(regions, f)
  {
    SpanMember(regions, max, f);
    forall i | 0 <= i < |regions|
      ensures f in Span(regions[i], max) <==> f < max && Holds(regions[i], f)
    {
      SpanHolds(regions[i], max, f);
    }
  }

  /** The frames below `max` that a region holds. */
  function HeldBy(r: Region, max: nat): set<nat> { set f: nat | f < max && Holds(r, f) }

  /** Each region with the frames it holds. */
  function Listings(regions: seq<Region>, max: nat): set<(nat, nat)> {
    set i: nat, f: nat | i < |regions| && f < max && Holds(regions[i], f) :: (i, f)
  }

  function Tagged(i: nat, frames: set<nat>): set<(nat, nat)> { set f | f in frames :: (i, f) }

  lemma {:induction false} TagSize(i: nat, frames: set<nat>)
    ensures |Tagged(i, frames)| == |frames|
  {
    if frames == {} {
      assert Tagged(i, frames) == {};
    } else {
      var f :| f in frames;
      TagSize(i, frames - {f});
      assert Tagged(i, frames) == Tagged(i, frames - {f}) + {(i, f)};
    }
  }

  /** What `init` counts: a frame once for each usable region that holds it. */
  lemma {:induction false} CountListings(regions: seq<Region>, max: nat)
    ensures CountAll(regions, max) == |Listings(regions, max)|
  {
    if regions != [] {
      var k := |regions| - 1;
      var front, last := regions[..k], regions[k];
      CountListings(front, max);
      IntervalSize(FirstFrame(last), FrameCount(last, max));
      forall f: nat
        ensures f in HeldBy(last, max) <==> f in Span(last, max)
      {
        SpanHolds(last, max, f);
      }
      assert HeldBy(last, max) == Span(last, max);
      TagSize(k, HeldBy(last, max));
      ListingsGrow(regions, max);
    }
  }

  lemma ListingsGrow(regions: seq<Region>, max: nat)
    requires regions != []
    ensures var k := |regions| - 1;
            |Listings(regions, max)| == |Listings(regions[..k], max)| + |Tagged(k, HeldBy(regions[k], max))|
  {
    var k := |regions| - 1;
    var before, more := Listings(regions[..k], max), Tagged(k, HeldBy(regions[k], max));
    assert Listings(regions, max) == before + more;
    Disjoint(before, more);
  }

  lemma SizeOfUnion(a: set<nat>, b: set<nat>)
    ensures |a + b| <= |a| + |b| && (|a + b| == |a| + |b| <==> a !! b)
  {
    assert a + b == a + (b - a);
    Disjoint(a, b - a);
    Disjoint(b - a, b * a);
    assert b == (b - a) + b * a;
    if b * a != {} {
      var x :| x in b * a;
    }
  }

  lemma LastApart(regions: seq<Region>, max: nat)
    requires regions != []
    ensures NoOverlap(regions, max) <==>
            && NoOverlap(regions[..|regions| - 1], max)
            && SpanAll(regions[..|regions| - 1], max) !! Span(regions[|regions| - 1], max)
  {
    var k := |regions| - 1;
    var front := regions[..k];
    if NoOverlap(regions, max) {
      forall f | f in SpanAll(front, max)
        ensures f !in Span(regions[k], max)
      {
        SpanMember(front, max, f);
        var i :| 0 <= i < |front| && f in Span(front[i], max);
        assert Span(regions[i], max) !! Span(regions[k], max);
      }
    } else if NoOverlap(front, max) && SpanAll(front, max) !! Span(regions[k], max) {
      var i, j :| 0 <= i < j < |regions| && !(Span(regions[i], max) !! Span(regions[j], max));
      var f :| f in Span(regions[i], max) && f in Span(regions[j], max);
      assert front[i] == regions[i];
      SpanMember(front, max, f);
    }
  }

  /** The count `init` keeps is the number of frames it frees exactly when no two usable regions share a frame. */
  lemma {:induction false} CountExact(regions: seq<Region>, max: nat)
    ensures |SpanAll(regions, max)| <= CountAll(regions, max)
    ensures CountAll(regions, max) == |SpanAll(regions, max)| <==> NoOverlap(regions, max)
  {
    if regions != [] {
      var front, last := regions[..|regions| - 1], regions[|regions| - 1];
      CountExact(front, max);
      IntervalSize(FirstFrame(last), FrameCount(last, max));
      SizeOfUnion(SpanAll(front, max), Span(last, max));
      LastApart(regions, max);
    }
  }

  /** The inner loop of `init`: frees the frames below `max` and counts them. */
  method ClearFrames(words: array<Bits>, first: nat, end: nat, max: nat) returns (count: nat)
    requires Packed(words[..], 8) && max == words.Length * 8
    modifies words
    ensures Packed(words[..], 8)
    ensures count == SaturatingSub(if end < max then end else max, first)
    ensures FreeFrames(Flat(words[..], 8)) == FreeFrames(Flat(old(words[..]), 8)) + Interval(first, count)
  {
    ghost var bits := Flat(words[..], 8);
    count := 0;
    var i := first;
    while i < end
      invariant first <= i && (i <= end || i == first)
      invariant count == SaturatingSub(if i < max then i else max, first)
      invariant Packed(words[..], 8) && FreeFrames(Flat(words[..], 8)) == FreeFrames(bits) + Interval(first, count)
    {
      if i < max {
        ghost var before := Flat(words[..], 8);
        SetBit(words, 8, i, false);
        assert FreeFrames(before[i := false]) == FreeFrames(before) + {i};
        assert Interval(first, count + 1) == Interval(first, count) + {i};
        count := count + 1;
      }
      i := i + 1;
    }
  }

  /** The scan of `allocate_contiguous_frames`, without its bookkeeping. */
  method FindContiguous(bytes: array<Bits>, n: nat, numFrames: nat) returns (r: Option<nat>)
    requires Packed(bytes[..], 8) && numFrames == bytes.Length * 8 && n > 0
    ensures LowestRun(Flat(bytes[..], 8), numFrames, n, r)
  {
    ghost var bits := Flat(bytes[..], 8);
    var runStart: Option<nat> := None;
    var runLen := 0;
    for i := 0 to numFrames
      invariant runLen < n && runLen <= i && runStart == if runLen == 0 then None else Some(i - runLen)
      invariant RunSoFar(bits, i, runLen, n)
    {
      var used := GetBit(bytes, 8, i);
      RunGrows(bits, i, runLen, n);
      if used {
        runStart := None;
        runLen := 0;
      } else {
        if runStart.None? { runStart := Some(i); }
        runLen := runLen + 1;
        if runLen == n {
          return runStart;
        }
      }
    }
    NoRun(bits, runLen, n);
    return None;
  }

  /** A region listed twice is counted twice and freed once. */
  lemma OverlapCounted()
    ensures var twice := [Region(true, 0, FRAME_SIZE), Region(true, 0, FRAME_SIZE)];
            CountAll(twice, 8) == 2 && |SpanAll(twice, 8)| == 1
  {
    var once := Region(true, 0, FRAME_SIZE);
    assert [once, once][..1] == [once] && [once][..0] == [] && FrameCount(once, 8) == 1;
    assert CountAll([once], 8) == 1 && CountAll([once, once], 8) == 2;
    var frames := Span(once, 8);
    assert frames == {0};
    assert SpanAll([once], 8) == SpanAll([], 8) + frames == {0};
    assert SpanAll([once, once], 8) == SpanAll([once], 8) + frames == {0};
  }

  class BitmapFrameAllocator {
    const bitmap: array<Bits>
    const numFrames: nat
    var nextFree: nat
    var totalFrames: nat
    var allocatedFrames: nat
    ghost const usable: set<nat>

    /** The bitmap has the shape it is allocated with, and the hint is a place in it. */
    ghost predicate Shaped()
      reads this, bitmap
    {
      && Packed(bitmap[..], 8) && numFrames == bitmap.Length * 8 < USIZE
      && nextFree <= numFrames && allocatedFrames < USIZE
    }

    ghost function Used(): (bits: seq<bool>)
      requires Packed(bitmap[..], 8)
      reads this, bitmap
    {
      Flat(bitmap[..], 8)
    }

    ghost function Free(): set<nat>
      requires Packed(bitmap[..], 8)
      reads this, bitmap
    {
      FreeFrames(Used())
    }

    ghost predicate Valid()
      reads this, bitmap
    {
      Shaped() && Accounts(Used(), usable, allocatedFrames) && |usable| <= totalFrames && |usable| <= numFrames
    }

    /** From the memory map: free exactly the whole usable frames; the total counts them unless regions overlap. */
    constructor (regions: seq<Region>, size: nat)
      requires size * 8 < USIZE
      ensures Valid() && fresh(bitmap) && bitmap.Length == size && Free() == SpanAll(regions, numFrames)
      ensures forall f: nat :: f in Free() <==> f < numFrames && Backed(regions, f)
      ensures totalFrames == |Listings(regions, numFrames)| && allocatedFrames == 0 && usable == Free()
      ensures totalFrames == |usable| <==> NoOverlap(regions, numFrames)
    {
      var words := new Bits[size](i => Ones(8));
      ghost var want := SpanAll(regions, size * 8);
      bitmap, numFrames, nextFree, totalFrames, allocatedFrames, usable := words, size * 8, 0, 0, 0, want;
      new;
      assert FreeFrames(Flat(words[..], 8)) == {} by {
        forall i | 0 <= i < size * 8
          ensures Flat(words[..], 8)[i]
        {
          Place(i, 8, size);
        }
      }
      var count := 0;
      for k := 0 to |regions|
        invariant Packed(words[..], 8) && count == CountAll(regions[..k], numFrames)
        invariant FreeFrames(Flat(words[..], 8)) == SpanAll(regions[..k], numFrames)
        invariant nextFree == 0 && allocatedFrames == 0
      {
        assert regions[..k + 1][..k] == regions[..k];
        if regions[k].isUsable {
          var added := ClearFrames(words, FirstFrame(regions[k]), regions[k].end / FRAME_SIZE, numFrames);
          count := count + added;
        }
      }
      assert regions[..|regions|] == regions;
      totalFrames := count;
      CountExact(regions, numFrames);
      CountListings(regions, numFrames);
      forall f: nat
        ensures f in SpanAll(regions, numFrames) <==> f < numFrames && Backed(regions, f)
      {
        SpanAllBacked(regions, numFrames, f);
      }
      FreeBounded(Used());
      assert usable - Free() == {};
    }

    /** One scan over whole bytes, skipping full ones. */
    method ScanBytes(from: nat, to: nat) returns (r: Option<nat>)
      requires Shaped() && from <= to <= bitmap.Length
      ensures FirstClear(Used(), 8 * from, 8 * to, r)
    {
      ghost var bits := Used();
      for b := from to to
        invariant AllSet(bits, 8 * from, 8 * b)
      {
        var byte := bitmap[b];
        assert byte == bitmap[..][b];
        if byte == Ones(8) {
          FullByte(bitmap[..], b, 8 * from);
        } else {
          for bit := 0 to 8
            invariant AllSet(bits, 8 * from, 8 * b + bit)
          {
            BitOfByte(bitmap[..], b, bit);
            if !byte[bit] {
              var frame := b * 8 + bit;
              if frame < numFrames {
                return Some(frame);
              }
            }
          }
        }
      }
      return None;
    }

    /** The lowest free frame from the hint's byte on, else the lowest one before it; none only when none is free. */
    method FindFreeFrame() returns (r: Option<nat>)
      requires Shaped()
      ensures r.None? <==> Free() == {}
      ensures r.Some? ==> r.value in Free() && r.value < numFrames
      ensures FirstFromHint(Used(), nextFree, r)
    {
      var startByte := nextFree / 8;
      r := ScanBytes(startByte, bitmap.Length);
      if r.None? {
        r := ScanBytes(0, startByte);
      }
      assert r.Some? ==> r.value in FreeFrames(Used());
    }

    /** Fails exactly when no frame is free; otherwise the frame leaves the free set. */
    method AllocateFrame() returns (r: Option<nat>)
      requires Valid()
      modifies this, bitmap
      ensures Valid() && r.None? == (old(Free()) == {}) && totalFrames == old(totalFrames)
      ensures r.None? ==> Used() == old(Used()) && allocatedFrames == old(allocatedFrames) && nextFree == old(nextFree)
      ensures r.Some? ==>
        && r.value % FRAME_SIZE == 0 && r.value / FRAME_SIZE in old(Free())
        && FirstFromHint(old(Used()), old(nextFree), Some(r.value / FRAME_SIZE))
        && Free() == old(Free()) - {r.value / FRAME_SIZE}
        && allocatedFrames == old(allocatedFrames) + 1 && nextFree == r.value / FRAME_SIZE + 1
    {
      var found := FindFreeFrame();
      if found.None? { return None; }
      var frame := found.value;
      FillOne(Used(), frame, true);
      TakeRun(Used(), usable, allocatedFrames, frame, 1);
      TakenBounded(Filled(Used(), frame, 1, true), usable, allocatedFrames + 1);
      SetBit(bitmap, 8, frame, true);
      nextFree := frame + 1;
      allocatedFrames := allocatedFrames + 1;
      DivModIs(frame * FRAME_SIZE, FRAME_SIZE, frame, 0);
      return Some(frame * FRAME_SIZE);
    }

    /** Puts a frame back; the accounts are kept exactly when it was an allocated one. */
    method DeallocateFrame(addr: nat)
      requires Shaped()
      modifies this, bitmap
      ensures Shaped() && totalFrames == old(totalFrames)
      ensures addr / FRAME_SIZE >= numFrames ==> Used() == old(Used()) && allocatedFrames == old(allocatedFrames)
      ensures addr / FRAME_SIZE < numFrames ==>
        && Free() == old(Free()) + {addr / FRAME_SIZE} && allocatedFrames == CountDown(old(allocatedFrames), 1)
        && (old(Valid()) ==> (Valid() <==> addr / FRAME_SIZE in usable - old(Free())))
      ensures nextFree == if addr / FRAME_SIZE < old(nextFree) then addr / FRAME_SIZE else old(nextFree)
    {
      var frame := addr / FRAME_SIZE;
      if frame < numFrames {
        GiveOne(Used(), usable, allocatedFrames, frame);
        SetBit(bitmap, 8, frame, false);
        if frame < nextFree { nextFree := frame; }
        allocatedFrames := CountDown(allocatedFrames, 1);
      }
    }

    /** Total, allocated and free; free exceeds the free frames by as much as total does the usable ones. */
    method MemoryStats() returns (total: nat, taken: nat, spare: nat)
      requires Valid()
      ensures total == totalFrames && taken == |usable - Free()| && taken + spare == total
      ensures spare == |Free()| + (total - |usable|)
    {
      FreeCount(Used(), usable, allocatedFrames);
      total, taken := totalFrames, allocatedFrames;
      spare := SaturatingSub(total, taken);
    }

    /** The lowest run of `n` free frames leaves the free set, or there is none and nothing changes. */
    method AllocateContiguousFrames(n: nat) returns (r: Option<nat>)
      requires Valid()
      modifies this, bitmap
      ensures Valid() && totalFrames == old(totalFrames)
      ensures r.None? ==> Used() == old(Used()) && (n == 0 || LowestRun(old(Used()), numFrames, n, None))
      ensures nextFree == if r.Some? then r.value / FRAME_SIZE + n else old(nextFree)
      ensures r.Some? ==>
        && n > 0 && r.value % FRAME_SIZE == 0 && LowestRun(old(Used()), numFrames, n, Some(r.value / FRAME_SIZE))
        && Interval(r.value / FRAME_SIZE, n) <= old(Free()) && Free() == old(Free()) - Interval(r.value / FRAME_SIZE, n)
    {
      if n == 0 { return None; }
      var run := FindContiguous(bitmap, n, numFrames);
      if run.None? { return None; }
      var start := run.value;
      TakeRun(Used(), usable, allocatedFrames, start, n);
      TakenBounded(Filled(Used(), start, n, true), usable, allocatedFrames + n);
      SetRange(bitmap, 8, start, n, true);
      allocatedFrames := allocatedFrames + n;
      nextFree := start + n;
      DivModIs(start * FRAME_SIZE, FRAME_SIZE, start, 0);
      return Some(start * FRAME_SIZE);
    }

    /** Puts a region back, or panics beyond the bitmap; the accounts are kept exactly when all of it was allocated. */
    method DeallocDmaContig(phys: nat, size: nat) returns (panics: bool)
      requires Shaped()
      modifies this, bitmap
      ensures panics <==> phys / FRAME_SIZE + Pages(size) > numFrames && Pages(size) > 0
      ensures !panics ==>
        && Shaped() && totalFrames == old(totalFrames)
        && Free() == old(Free()) + Interval(phys / FRAME_SIZE, Pages(size))
        && allocatedFrames == CountDown(old(allocatedFrames), Pages(size))
        && nextFree == (if phys / FRAME_SIZE < old(nextFree) then phys / FRAME_SIZE else old(nextFree))
        && (old(Valid()) ==> (Valid() <==> Owned(old(Used()), usable, phys / FRAME_SIZE, Pages(size))))
    {
      var pages, start := Pages(size), phys / FRAME_SIZE;
      if pages == 0 {
        assert Interval(start, 0) == {};
        if start < nextFree { nextFree := start; }
        return false;
      }
      if start + pages > numFrames { return true; }
      GiveAny(Used(), usable, allocatedFrames, start, pages);
      SetRange(bitmap, 8, start, pages, false);
      allocatedFrames := CountDown(allocatedFrames, pages);
      if start < nextFree { nextFree := start; }
      return false;
    }
  }
}
