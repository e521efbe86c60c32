/**
  The slab object cache of `src/slab.rs`. The free list is threaded through the free slots: a
  slot's first word, in `links`, names the next one. The backing allocator is an oracle that
  fails or gives a fresh aligned region.
*/
module Slab {
  import opened Arithmetic
  import opened Words
  import opened Wrappers

  /** The slot stride, the alignment and the slots per slab, fixed when a cache is made. */
  datatype Geometry = Geometry(stride: nat, align: nat, capacity: nat)

  predicate Good(g: Geometry) { 0 < g.align && 0 < g.stride && g.stride % g.align == 0 && 0 < g.capacity }

  /** A backing region of `size` bytes at `base`, with the number of its slots in use. */
  datatype Slab = Slab(base: nat, size: nat, used: nat)

  predicate Contains(slab: Slab, a: nat) { slab.base <= a < slab.base + slab.size }

  predicate InOne(slabs: seq<Slab>, a: nat) { exists k :: 0 <= k < |slabs| && Contains(slabs[k], a) }

  function SlotAddr(base: nat, stride: nat, i: nat): nat { base + i * stride }

  /** The addresses of `n` slots, last one first: the order in which `grow` leaves them on the list. */
  function NewSlots(base: nat, stride: nat, n: nat): seq<nat> {
    if n == 0 then [] else [SlotAddr(base, stride, n - 1)] + NewSlots(base, stride, n - 1)
  }

  predicate IsSlotOf(slab: Slab, g: Geometry, a: nat) { a in NewSlots(slab.base, g.stride, g.capacity) }

  predicate IsSlot(slabs: seq<Slab>, g: Geometry, a: nat) {
    exists k :: 0 <= k < |slabs| && IsSlotOf(slabs[k], g, a)
  }

  predicate Shaped(slab: Slab, g: Geometry)
    requires Good(g)
  {
    slab.size == g.stride * g.capacity && slab.base % g.align == 0
  }

  predicate Separate(s: Slab, t: Slab) { s.base + s.size <= t.base || t.base + t.size <= s.base }

  /** Slabs of one shape that do not overlap. */
  predicate Layout(slabs: seq<Slab>, g: Geometry) {
    && Good(g)
    && (forall k :: 0 <= k < |slabs| ==> Shaped(slabs[k], g))
    && (forall j, k :: 0 <= j < k < |slabs| ==> Separate(slabs[j], slabs[k]))
  }

  lemma SlotAligned(base: nat, g: Geometry, i: nat)
    requires Good(g) && base % g.align == 0
    ensures SlotAddr(base, g.stride, i) % g.align == 0
  {
    var q, b := g.stride / g.align, base / g.align;
    assert g.stride == g.align * q && base == g.align * b;
    assert i * (g.align * q) == g.align * (i * q);
    DivModIs(SlotAddr(base, g.stride, i), g.align, b + i * q, 0);
  }

  /** Slots of one slab are a stride or more apart. */
  lemma SlotOrder(base: nat, stride: nat, i: nat, h: nat)
    requires i < h
    ensures SlotAddr(base, stride, i) + stride <= SlotAddr(base, stride, h)
  {
    assert (i + 1) * stride <= h * stride;
  }

  lemma {:induction false} NewSlotsMembers(base: nat, stride: nat, n: nat, a: nat)
    ensures |NewSlots(base, stride, n)| == n
    ensures a in NewSlots(base, stride, n) <==> exists i: nat :: i < n && a == SlotAddr(base, stride, i)
  {
    if n > 0 {
      NewSlotsMembers(base, stride, n - 1, a);
      assert a == SlotAddr(base, stride, n - 1) ==> exists i: nat :: i < n && a == SlotAddr(base, stride, i);
    }
  }

  lemma SlotInside(slab: Slab, g: Geometry, a: nat)
    requires Good(g) && Shaped(slab, g) && IsSlotOf(slab, g, a)
    ensures slab.base <= a && a + g.stride <= slab.base + slab.size && a % g.align == 0
  {
    NewSlotsMembers(slab.base, g.stride, g.capacity, a);
    var i: nat :| i < g.capacity && a == SlotAddr(slab.base, g.stride, i);
    SlotAligned(slab.base, g, i);
    SlotOrder(slab.base, g.stride, i, g.capacity);
  }

  lemma SameSlab(slab: Slab, g: Geometry, a: nat, b: nat)
    requires IsSlotOf(slab, g, a) && IsSlotOf(slab, g, b) && a != b
    ensures Apart(a, b, g.stride)
  {
    NewSlotsMembers(slab.base, g.stride, g.capacity, a);
    NewSlotsMembers(slab.base, g.stride, g.capacity, b);
    var i: nat :| i < g.capacity && a == SlotAddr(slab.base, g.stride, i);
    var h: nat :| h < g.capacity && b == SlotAddr(slab.base, g.stride, h);
    if i < h {
      SlotOrder(slab.base, g.stride, i, h);
    } else if h < i {
      SlotOrder(slab.base, g.stride, h, i);
    }
  }

  predicate Apart(a: nat, b: nat, stride: nat) { a + stride <= b || b + stride <= a }

  /** An aligned object that overlaps none of the live ones. */
  predicate ClearOf(a: nat, live: set<nat>, g: Geometry)
    requires Good(g)
  {
    a % g.align == 0 && forall b :: b in live ==> Apart(a, b, g.stride)
  }

  /** Different slots, in one slab or two, do not overlap, and each is aligned. */
  lemma SlotsApart(slabs: seq<Slab>, g: Geometry, a: nat, b: nat)
    requires Layout(slabs, g) && IsSlot(slabs, g, a) && IsSlot(slabs, g, b) && a != b
    ensures a % g.align == 0 && b % g.align == 0 && Apart(a, b, g.stride)
  {
    var j :| 0 <= j < |slabs| && IsSlotOf(slabs[j], g, a);
    var k :| 0 <= k < |slabs| && IsSlotOf(slabs[k], g, b);
    SlotInside(slabs[j], g, a);
    SlotInside(slabs[k], g, b);
    if j == k {
      SameSlab(slabs[j], g, a, b);
    } else {
      assert j < k ==> Separate(slabs[j], slabs[k]);
      assert k < j ==> Separate(slabs[k], slabs[j]);
    }
  }

  /** A slot lies in exactly one slab. */
  lemma OneSlab(slabs: seq<Slab>, g: Geometry, a: nat) returns (k: nat)
    requires Layout(slabs, g) && IsSlot(slabs, g, a)
    ensures k < |slabs| && Contains(slabs[k], a) && forall j :: 0 <= j < |slabs| && Contains(slabs[j], a) ==> j == k
  {
    k :| 0 <= k < |slabs| && IsSlotOf(slabs[k], g, a);
    SlotInside(slabs[k], g, a);
    forall j | 0 <= j < |slabs| && Contains(slabs[j], a)
      ensures j == k
    {
      assert j < k ==> Separate(slabs[j], slabs[k]);
      assert k < j ==> Separate(slabs[k], slabs[j]);
    }
  }

  // ---------- The invariant of a cache ----------

  function LiveIn(live: set<nat>, slab: Slab): set<nat> { set a | a in live && Contains(slab, a) }

  function SumUsed(slabs: seq<Slab>): nat {
    if slabs == [] then 0 else SumUsed(slabs[..|slabs| - 1]) + slabs[|slabs| - 1].used
  }

  predicate NoRepeats(chain: seq<nat>) { forall i, j :: 0 <= i < j < |chain| ==> chain[i] != chain[j] }

  /** Free slots, in list order without repeats, and live objects share out all the slots of all the slabs. */
  ghost predicate Partition(slabs: seq<Slab>, g: Geometry, chain: seq<nat>, live: set<nat>) {
    && NoRepeats(chain) && (forall a :: a in chain ==> a !in live)
    && (forall a :: IsSlot(slabs, g, a) <==> a in chain || a in live)
  }

  /** Each slab's count is the number of live objects in it, and the totals add up. */
  ghost predicate Counted(slabs: seq<Slab>, g: Geometry, chain: seq<nat>, live: set<nat>) {
    && (forall k :: 0 <= k < |slabs| ==> slabs[k].used == |LiveIn(live, slabs[k])|)
    && SumUsed(slabs) == |live| && |chain| + |live| == |slabs| * g.capacity
  }

  ghost predicate Sound(slabs: seq<Slab>, g: Geometry, chain: seq<nat>, live: set<nat>) {
    Layout(slabs, g) && Partition(slabs, g, chain, live) && Counted(slabs, g, chain, live)
  }

  /** Mentioning this of a geometry unfolds the invariant below; it holds of every one. */
  predicate Asked(g: Geometry) { g.stride >= 0 }

  /** The invariant of a cache, folded until it is asked for. */
  ghost predicate Intact(slabs: seq<Slab>, g: Geometry, chain: seq<nat>, live: set<nat>) {
    forall h: Geometry {:trigger Asked(h)} :: Asked(h) && h == g ==> Sound(slabs, h, chain, live)
  }

  lemma IntactSound(slabs: seq<Slab>, g: Geometry, chain: seq<nat>, live: set<nat>)
    ensures Intact(slabs, g, chain, live) <==> Sound(slabs, g, chain, live)
  {
    assert Asked(g);
  }

  /** One less, but not below zero. */
  function SaturatingLess(n: nat): nat { if n == 0 then 0 else n - 1 }

  /** One slab with another count. */
  function Recount(slabs: seq<Slab>, k: nat, used: nat): seq<Slab>
    requires k < |slabs|
  {
    slabs[k := slabs[k].(used := used)]
  }

  lemma {:induction false} SumRecount(slabs: seq<Slab>, k: nat, used: nat)
    requires k < |slabs|
    ensures SumUsed(Recount(slabs, k, used)) == SumUsed(slabs) - slabs[k].used + used
    decreases |slabs|
  {
    var last := |slabs| - 1;
    if k == last {
      assert Recount(slabs, k, used)[..last] == slabs[..last];
    } else {
      assert Recount(slabs, k, used)[..last] == Recount(slabs[..last], k, used);
      SumRecount(slabs[..last], k, used);
    }
  }

  lemma RecountSlots(slabs: seq<Slab>, g: Geometry, k: nat, used: nat, a: nat)
    requires k < |slabs|
    ensures IsSlot(Recount(slabs, k, used), g, a) <==> IsSlot(slabs, g, a)
  {
    var changed := Recount(slabs, k, used);
    if j :| 0 <= j < |slabs| && IsSlotOf(slabs[j], g, a) {
      assert IsSlotOf(changed[j], g, a);
    }
    if j :| 0 <= j < |slabs| && IsSlotOf(changed[j], g, a) {
      assert IsSlotOf(slabs[j], g, a);
    }
  }

  lemma RecountLayout(slabs: seq<Slab>, g: Geometry, k: nat, used: nat)
    requires k < |slabs| && Layout(slabs, g)
    ensures Layout(Recount(slabs, k, used), g)
  {
    var changed := Recount(slabs, k, used);
    forall j | 0 <= j < |slabs|
      ensures Shaped(changed[j], g)
    {
      assert Shaped(slabs[j], g);
    }
    forall i, j | 0 <= i < j < |slabs|
      ensures Separate(changed[i], changed[j])
    {
      assert Separate(slabs[i], slabs[j]);
    }
  }

  /** How one object changes the count of one slab. */
  lemma LiveMore(live: set<nat>, slab: Slab, a: nat)
    requires a !in live
    ensures |LiveIn(live + {a}, slab)| == |LiveIn(live, slab)| + if Contains(slab, a) then 1 else 0
  {
    if Contains(slab, a) {
      assert LiveIn(live + {a}, slab) == LiveIn(live, slab) + {a};
    } else {
      assert LiveIn(live + {a}, slab) == LiveIn(live, slab);
    }
  }

  lemma LiveRecount(live: set<nat>, slab: Slab, used: nat)
    ensures LiveIn(live, slab.(used := used)) == LiveIn(live, slab)
  {
  }

  lemma RecountPartition(slabs: seq<Slab>, g: Geometry, chain: seq<nat>, live: set<nat>, k: nat, used: nat)
    requires k < |slabs| && Partition(slabs, g, chain, live)
    ensures Partition(Recount(slabs, k, used), g, chain, live)
  {
    forall a
      ensures IsSlot(Recount(slabs, k, used), g, a) <==> a in chain || a in live
    {
      RecountSlots(slabs, g, k, used, a);
    }
  }

  lemma TakePartition(slabs: seq<Slab>, g: Geometry, chain: seq<nat>, live: set<nat>)
    requires Partition(slabs, g, chain, live) && chain != []
    ensures Partition(slabs, g, chain[1..], live + {chain[0]})
  {
    forall b
      ensures b in chain <==> b == chain[0] || b in chain[1..]
    {
      assert chain == [chain[0]] + chain[1..];
    }
    forall b | b in chain[1..]
      ensures b !in live + {chain[0]}
    {
      var i :| 0 <= i < |chain[1..]| && chain[1..][i] == b;
      assert chain[i + 1] == b && chain[0] != chain[i + 1];
    }
  }

  lemma PutPartition(slabs: seq<Slab>, g: Geometry, chain: seq<nat>, live: set<nat>, a: nat)
    requires Partition(slabs, g, chain, live) && a in live
    ensures Partition(slabs, g, [a] + chain, live - {a})
  {
  }

  /** One object more in slab `k`, one free slot fewer. */
  lemma TakeCounted(slabs: seq<Slab>, g: Geometry, chain: seq<nat>, live: set<nat>, a: nat, k: nat)
    requires Counted(slabs, g, chain, live) && chain != [] && a !in live && k < |slabs| && Contains(slabs[k], a)
    requires forall j :: 0 <= j < |slabs| && Contains(slabs[j], a) ==> j == k
    ensures Counted(Recount(slabs, k, slabs[k].used + 1), g, chain[1..], live + {a})
  {
    var now := Recount(slabs, k, slabs[k].used + 1);
    SumRecount(slabs, k, slabs[k].used + 1);
    forall j | 0 <= j < |slabs|
      ensures now[j].used == |LiveIn(live + {a}, now[j])|
    {
      LiveMore(live, slabs[j], a);
      LiveRecount(live + {a}, slabs[j], now[j].used);
    }
  }

  /** One object fewer in slab `k`, one free slot more. */
  lemma PutCounted(slabs: seq<Slab>, g: Geometry, chain: seq<nat>, less: set<nat>, a: nat, k: nat)
    requires Counted(slabs, g, chain, less + {a}) && a !in less && k < |slabs| && Contains(slabs[k], a)
    requires forall j :: 0 <= j < |slabs| && Contains(slabs[j], a) ==> j == k
    ensures slabs[k].used > 0 && Counted(Recount(slabs, k, slabs[k].used - 1), g, [a] + chain, less)
  {
    LiveMore(less, slabs[k], a);
    var now := Recount(slabs, k, slabs[k].used - 1);
    SumRecount(slabs, k, slabs[k].used - 1);
    forall j | 0 <= j < |slabs|
      ensures now[j].used == |LiveIn(less, now[j])|
    {
      LiveMore(less, slabs[j], a);
      LiveRecount(less, slabs[j], now[j].used);
    }
  }

  /** Taking the head of the list for an object. */
  lemma TakeSound(slabs: seq<Slab>, g: Geometry, chain: seq<nat>, live: set<nat>, k: nat)
    requires Sound(slabs, g, chain, live) && chain != [] && k < |slabs| && Contains(slabs[k], chain[0])
    ensures Sound(Recount(slabs, k, slabs[k].used + 1), g, chain[1..], live + {chain[0]})
  {
    assert chain[0] in chain && IsSlot(slabs, g, chain[0]);
    var one := OneSlab(slabs, g, chain[0]);
    RecountLayout(slabs, g, k, slabs[k].used + 1);
    TakePartition(slabs, g, chain, live);
    RecountPartition(slabs, g, chain[1..], live + {chain[0]}, k, slabs[k].used + 1);
    TakeCounted(slabs, g, chain, live, chain[0], k);
  }

  /** Putting an object back at the head of the list. */
  lemma PutSound(slabs: seq<Slab>, g: Geometry, chain: seq<nat>, live: set<nat>, a: nat, k: nat)
    requires Sound(slabs, g, chain, live) && a in live && k < |slabs| && Contains(slabs[k], a)
    ensures slabs[k].used > 0 && Sound(Recount(slabs, k, slabs[k].used - 1), g, [a] + chain, live - {a})
  {
    assert IsSlot(slabs, g, a);
    var one := OneSlab(slabs, g, a);
    var less := live - {a};
    assert live == less + {a};
    PutCounted(slabs, g, chain, less, a, k);
    RecountLayout(slabs, g, k, slabs[k].used - 1);
    PutPartition(slabs, g, chain, live, a);
    RecountPartition(slabs, g, [a] + chain, live - {a}, k, slabs[k].used - 1);
  }

  lemma {:induction false} NewSlotsDiffer(base: nat, stride: nat, n: nat)
    requires stride > 0
    ensures NoRepeats(NewSlots(base, stride, n))
  {
    if n > 0 {
      NewSlotsDiffer(base, stride, n - 1);
      var rest := NewSlots(base, stride, n - 1);
      forall j | 0 <= j < |rest|
        ensures rest[j] != SlotAddr(base, stride, n - 1)
      {
        NewSlotsMembers(base, stride, n - 1, rest[j]);
        var i: nat :| i < n - 1 && rest[j] == SlotAddr(base, stride, i);
        SlotOrder(base, stride, i, n - 1);
      }
    }
  }

  /** A region the backing allocator may hand out: aligned and apart from every slab. */
  predicate FreshRegion(slabs: seq<Slab>, g: Geometry, slab: Slab)
    requires Good(g)
  {
    Shaped(slab, g) && slab.used == 0 && forall k :: 0 <= k < |slabs| ==> Separate(slabs[k], slab)
  }

  lemma GrowSlots(slabs: seq<Slab>, g: Geometry, slab: Slab, a: nat)
    requires Layout(slabs, g) && FreshRegion(slabs, g, slab)
    ensures IsSlot(slabs + [slab], g, a) <==> IsSlot(slabs, g, a) || IsSlotOf(slab, g, a)
    ensures !(IsSlot(slabs, g, a) && Contains(slab, a))
    ensures !(IsSlot(slabs, g, a) && IsSlotOf(slab, g, a))
  {
    var more := slabs + [slab];
    if IsSlot(slabs, g, a) {
      var k :| 0 <= k < |slabs| && IsSlotOf(slabs[k], g, a);
      SlotInside(slabs[k], g, a);
      assert IsSlotOf(more[k], g, a) && Separate(slabs[k], slab);
    }
    if IsSlotOf(slab, g, a) {
      SlotInside(slab, g, a);
      assert IsSlotOf(more[|slabs|], g, a);
    }
    if k :| 0 <= k < |more| && IsSlotOf(more[k], g, a) {
      assert k < |slabs| ==> IsSlotOf(slabs[k], g, a);
    }
  }

  lemma GrowPartition(slabs: seq<Slab>, g: Geometry, chain: seq<nat>, live: set<nat>, slab: Slab)
    requires Layout(slabs, g) && Partition(slabs, g, chain, live) && FreshRegion(slabs, g, slab)
    ensures Partition(slabs + [slab], g, NewSlots(slab.base, g.stride, g.capacity) + chain, live)
  {
    var added := NewSlots(slab.base, g.stride, g.capacity);
    NewSlotsDiffer(slab.base, g.stride, g.capacity);
    forall a
      ensures a in added <==> IsSlotOf(slab, g, a)
      ensures IsSlot(slabs + [slab], g, a) <==> IsSlot(slabs, g, a) || IsSlotOf(slab, g, a)
      ensures !(IsSlot(slabs, g, a) && IsSlotOf(slab, g, a))
    {
      GrowSlots(slabs, g, slab, a);
    }
    NoRepeatsConcat(added, chain);
  }

  lemma NoRepeatsConcat(x: seq<nat>, y: seq<nat>)
    requires NoRepeats(x) && NoRepeats(y) && forall a :: a in x ==> a !in y
    ensures NoRepeats(x + y)
  {
    forall i, j | 0 <= i < j < |x + y|
      ensures (x + y)[i] != (x + y)[j]
    {
      if i < |x| <= j {
        assert x[i] in x && y[j - |x|] in y;
      }
    }
  }

  lemma OneMore(n: nat, m: nat)
    ensures (n + 1) * m == n * m + m
  {
  }

  lemma NoneLive(slabs: seq<Slab>, g: Geometry, chain: seq<nat>, live: set<nat>, slab: Slab)
    requires Layout(slabs, g) && Partition(slabs, g, chain, live) && FreshRegion(slabs, g, slab)
    ensures LiveIn(live, slab) == {}
  {
    forall a | a in live
      ensures !Contains(slab, a)
    {
      assert IsSlot(slabs, g, a);
      GrowSlots(slabs, g, slab, a);
    }
  }

  lemma GrowCounted(slabs: seq<Slab>, g: Geometry, chain: seq<nat>, live: set<nat>, slab: Slab)
    requires Counted(slabs, g, chain, live) && LiveIn(live, slab) == {} && slab.used == 0
    ensures Counted(slabs + [slab], g, NewSlots(slab.base, g.stride, g.capacity) + chain, live)
  {
    var more := slabs + [slab];
    NewSlotsMembers(slab.base, g.stride, g.capacity, 0);
    OneMore(|slabs|, g.capacity);
    assert more[..|slabs|] == slabs;
    forall k | 0 <= k < |more|
      ensures more[k].used == |LiveIn(live, more[k])|
    {
      if k < |slabs| {
        assert more[k] == slabs[k];
      }
    }
  }

  /** A new slab puts its slots, last one first, before the list. */
  lemma GrowSound(slabs: seq<Slab>, g: Geometry, chain: seq<nat>, live: set<nat>, slab: Slab)
    requires Sound(slabs, g, chain, live) && FreshRegion(slabs, g, slab)
    ensures Sound(slabs + [slab], g, NewSlots(slab.base, g.stride, g.capacity) + chain, live)
  {
    GrowPartition(slabs, g, chain, live, slab);
    NoneLive(slabs, g, chain, live, slab);
    GrowCounted(slabs, g, chain, live, slab);
  }

  // ---------- The stride ----------

  function AndBits(a: Bits, b: Bits): (c: Bits)
    requires |a| == |b|
    ensures |c| == |a|
  {
    seq(|a|, i requires 0 <= i < |a| => a[i] && b[i])
  }

  /** `x & !(align - 1)` on words of `width` bits. */
  function Mask(x: nat, align: nat, width: nat): nat
    requires align > 0
  {
    ToNat(AndBits(BitsOf(x, width), Not(BitsOf(align - 1, width))))
  }

  /** One bit further, with the low bit masked off. */
  lemma MaskHalves(x: nat, half: nat, width: nat)
    requires half > 0 && width > 0
    ensures Mask(x, 2 * half, width) == 2 * Mask(x / 2, half, width - 1)
  {
    var keep, keep' := Not(BitsOf(2 * half - 1, width)), Not(BitsOf(half - 1, width - 1));
    DivModIs(2 * half - 1, 2, half - 1, 1);
    assert keep == [false] + keep';
    assert AndBits(BitsOf(x, width), keep) == [false] + AndBits(BitsOf(x / 2, width - 1), keep');
  }

  /** For a power of two the mask takes off the remainder. */
  lemma {:induction false} MaskRounds(x: nat, k: nat, width: nat)
    requires k <= width && x < Power2(width) && Power2(k) > 0
    ensures Mask(x, Power2(k), width) == x - x % Power2(k)
    decreases k
  {
    if k == 0 {
      BitsOfZero(width);
      assert AndBits(BitsOf(x, width), Not(Zeros(width))) == BitsOf(x, width);
      NatFromBits(x, width);
    } else {
      PowerPositive(k - 1);
      MaskRounds(x / 2, k - 1, width - 1);
      MaskHalves(x, Power2(k - 1), width);
      ModHalves(x, Power2(k - 1));
    }
  }

  /** The exponent of the least power of two, from `k` on, that reaches `n`. */
  function PowerFor(n: nat, k: nat): (r: nat)
    ensures r >= k && Power2(r) >= n && (r > k ==> Power2(r - 1) < n)
    decreases n - Power2(k)
  {
    PowerPositive(k);
    if Power2(k) >= n then k else PowerFor(n, k + 1)
  }

  function Max(a: nat, b: nat): nat { if a >= b then a else b }

  /** Size and alignment of a free-list node. */
  const NODE: nat := 8

  /** What `SlabCacheInner::new` computes from an object's size and alignment, on words of `width` bits. */
  function GeometryOf(size: nat, align: nat, perSlab: nat, width: nat): Geometry {
    var raw := Power2(PowerFor(Max(align, NODE), 0));
    PowerPositive(PowerFor(Max(align, NODE), 0));
    Geometry(Mask(Max(size, NODE) + raw - 1, raw, width), raw, Max(perSlab, 1))
  }

  lemma {:induction false} PowerLess(j: nat, k: nat)
    requires j < k
    ensures Power2(j) < Power2(k)
  {
    PowerPositive(k - 1);
    if j < k - 1 {
      PowerLess(j, k - 1);
    }
  }

  /** Taking off the remainder of a number pushed up by the divisor less one rounds up. */
  lemma RoundUp(size: nat, align: nat)
    requires align > 0
    ensures var r := (size + align - 1) - (size + align - 1) % align;
            size <= r < size + align && r % align == 0
  {
    var x := size + align - 1;
    DivModIs(x - x % align, align, x / align, 0);
  }

  /** The stride is the least multiple of the alignment that holds the object and a list node. */
  lemma StrideRounds(size: nat, align: nat, perSlab: nat, width: nat)
    requires Max(size, NODE) + Power2(PowerFor(Max(align, NODE), 0)) <= Power2(width)
    ensures var g := GeometryOf(size, align, perSlab, width);
            && Good(g) && align <= g.align && NODE <= g.align
            && Max(size, NODE) <= g.stride < Max(size, NODE) + g.align
  {
    var k := PowerFor(Max(align, NODE), 0);
    PowerPositive(k);
    if k > width {
      PowerLess(width, k);
    }
    MaskRounds(Max(size, NODE) + Power2(k) - 1, k, width);
    RoundUp(Max(size, NODE), Power2(k));
  }

  /** The alignment is the least power of two that serves the object and a list node; a slab holds at least one. */
  lemma AlignRounds(size: nat, align: nat, perSlab: nat, width: nat)
    ensures var g := GeometryOf(size, align, perSlab, width);
            && (exists k :: g.align == Power2(k)) && align <= g.align && NODE <= g.align
            && (g.align < 2 * align || g.align < 2 * NODE)
            && g.capacity == if perSlab == 0 then 1 else perSlab
  {
    var n := Max(align, NODE);
    var k := PowerFor(n, 0);
    assert GeometryOf(size, align, perSlab, width).align == Power2(k);
    if k > 0 { assert Power2(k) == 2 * Power2(k - 1) < 2 * n; }
  }

  // ---------- The cache ----------

  /** `head` and the links stored in free slots spell out the list `chain`. */
  ghost predicate Linked(head: Option<nat>, links: map<nat, Option<nat>>, chain: seq<nat>)
    decreases |chain|
  {
    if chain == [] then head.None?
    else head == Some(chain[0]) && chain[0] in links && Linked(links[chain[0]], links, chain[1..])
  }

  /** Writing to a slot off the list leaves the list alone. */
  lemma {:induction false} LinkedFrame(
    head: Option<nat>, links: map<nat, Option<nat>>, chain: seq<nat>, a: nat, v: Option<nat>)
    requires Linked(head, links, chain) && a !in chain
    ensures Linked(head, links[a := v], chain)
    decreases |chain|
  {
    if chain != [] {
      LinkedFrame(links[chain[0]], links, chain[1..], a, v);
    }
  }

  method FindSlab(slabs: seq<Slab>, a: nat) returns (k: Option<nat>)
    ensures k.None? ==> forall j :: 0 <= j < |slabs| ==> !Contains(slabs[j], a)
    ensures k.Some? ==> k.value < |slabs| && Contains(slabs[k.value], a)
  {
    for j := 0 to |slabs|
      invariant forall i :: 0 <= i < j ==> !Contains(slabs[i], a)
    {
      if Contains(slabs[j], a) { return Some(j); }
    }
    return None;
  }

  lemma HeadChecked(slabs: seq<Slab>, g: Geometry, chain: seq<nat>, live: set<nat>)
    requires Intact(slabs, g, chain, live) && chain != []
    ensures Good(g) && ClearOf(chain[0], live, g) && chain[0] !in live && InOne(slabs, chain[0])
  {
    IntactSound(slabs, g, chain, live);
    HeadFacts(slabs, g, chain, live);
  }

  lemma TakeChecked(slabs: seq<Slab>, g: Geometry, chain: seq<nat>, live: set<nat>, k: nat, now: seq<Slab>)
    requires Intact(slabs, g, chain, live) && chain != [] && k < |slabs| && Contains(slabs[k], chain[0])
    requires now == Recount(slabs, k, slabs[k].used + 1)
    ensures Intact(now, g, chain[1..], live + {chain[0]})
  {
    IntactSound(slabs, g, chain, live);
    TakeSound(slabs, g, chain, live, k);
    IntactSound(now, g, chain[1..], live + {chain[0]});
  }

  lemma LiveChecked(slabs: seq<Slab>, g: Geometry, chain: seq<nat>, live: set<nat>, a: nat)
    requires Intact(slabs, g, chain, live) && a in live
    ensures a !in chain && InOne(slabs, a)
  {
    IntactSound(slabs, g, chain, live);
    InSomeSlab(slabs, g, chain, live, a);
  }

  lemma PutChecked(slabs: seq<Slab>, g: Geometry, chain: seq<nat>, live: set<nat>, a: nat, k: nat, now: seq<Slab>)
    requires Intact(slabs, g, chain, live) && a in live && k < |slabs| && Contains(slabs[k], a)
    requires now == Recount(slabs, k, SaturatingLess(slabs[k].used))
    ensures Intact(now, g, [a] + chain, live - {a})
  {
    IntactSound(slabs, g, chain, live);
    PutSound(slabs, g, chain, live, a, k);
    IntactSound(now, g, [a] + chain, live - {a});
  }

  lemma CountsChecked(slabs: seq<Slab>, g: Geometry, chain: seq<nat>, live: set<nat>)
    requires Intact(slabs, g, chain, live)
    ensures SumUsed(slabs) == |live| && |chain| + |live| == |slabs| * g.capacity
  {
    IntactSound(slabs, g, chain, live);
  }

  /** Bumps the count of the slab that holds the head of the list. */
  method CountUp(slabs: seq<Slab>, g: Geometry, a: nat, ghost chain: seq<nat>, ghost live: set<nat>)
    returns (now: seq<Slab>)
    requires Intact(slabs, g, chain, live) && chain != [] && a == chain[0]
    ensures Intact(now, g, chain[1..], live + {chain[0]}) && |now| == |slabs|
    ensures a !in live && Good(g) && ClearOf(a, live, g)
  {
    HeadChecked(slabs, g, chain, live);
    var k := FindSlab(slabs, a);
    now := Recount(slabs, k.value, slabs[k.value].used + 1);
    TakeChecked(slabs, g, chain, live, k.value, now);
  }

  /** Lowers the count of the slab that holds a live object. */
  method CountDown(slabs: seq<Slab>, g: Geometry, a: nat, ghost chain: seq<nat>, ghost live: set<nat>)
    returns (now: seq<Slab>)
    requires Intact(slabs, g, chain, live) && a in live
    ensures Intact(now, g, [a] + chain, live - {a}) && |now| == |slabs| && a !in chain
  {
    LiveChecked(slabs, g, chain, live, a);
    var k := FindSlab(slabs, a);
    now := Recount(slabs, k.value, SaturatingLess(slabs[k.value].used));
    PutChecked(slabs, g, chain, live, a, k.value, now);
  }

  class SlabCache {
    const g: Geometry
    var head: Option<nat>
    var links: map<nat, Option<nat>>
    var slabs: seq<Slab>
    var allocs: nat
    var frees: nat
    var grew: nat
    ghost var chain: seq<nat>
    ghost var live: set<nat>

    ghost predicate Valid()
      reads this
    {
      && Good(g) && Intact(slabs, g, chain, live) && Linked(head, links, chain)
      && allocs == frees + |live| && grew == |slabs|
    }

    constructor (size: nat, align: nat, perSlab: nat, width: nat)
      requires Max(size, NODE) + Power2(PowerFor(Max(align, NODE), 0)) <= Power2(width)
      ensures Valid() && g == GeometryOf(size, align, perSlab, width) && chain == [] && live == {} && slabs == []
    {
      StrideRounds(size, align, perSlab, width);
      IntactSound([], GeometryOf(size, align, perSlab, width), [], {});
      g := GeometryOf(size, align, perSlab, width);
      head, links, slabs, allocs, frees, grew := None, map[], [], 0, 0, 0;
      chain, live := [], {};
    }

    method Push(a: nat)
      requires Linked(head, links, chain) && a !in chain
      modifies this`head, this`links, this`chain
      ensures chain == [a] + old(chain) && Linked(head, links, chain)
    {
      LinkedFrame(head, links, chain, a, head);
      links := links[a := head];
      head := Some(a);
      chain := [a] + chain;
      assert chain[1..] == old(chain);
    }

    /** One more slab, if the backing allocator gives a region. */
    method Grow(backing: Option<nat>) returns (ok: bool)
      requires Valid()
      requires backing.Some? ==> FreshRegion(slabs, g, Slab(backing.value, g.stride * g.capacity, 0))
      modifies this
      ensures Valid() && ok == backing.Some? && live == old(live) && allocs == old(allocs) && frees == old(frees)
      ensures ok ==> chain == NewSlots(backing.value, g.stride, g.capacity) + old(chain)
      ensures ok ==> slabs == old(slabs) + [Slab(backing.value, g.stride * g.capacity, 0)]
      ensures !ok ==> chain == old(chain) && slabs == old(slabs)
    {
      if backing.None? { return false; }
      var slab := Slab(backing.value, g.stride * g.capacity, 0);
      IntactSound(slabs, g, chain, live);
      GrowSound(slabs, g, chain, live, slab);
      IntactSound(slabs + [slab], g, NewSlots(slab.base, g.stride, g.capacity) + chain, live);
      NotListed(slabs, g, chain, live, slab);
      PushSlots(slab.base);
      slabs := slabs + [slab];
      grew := grew + 1;
      return true;
    }

    /** Threads the slots of a new slab onto the list. */
    method PushSlots(base: nat)
      requires Good(g) && Linked(head, links, chain)
      requires forall i: nat :: i < g.capacity ==> SlotAddr(base, g.stride, i) !in chain
      modifies this`head, this`links, this`chain
      ensures chain == NewSlots(base, g.stride, g.capacity) + old(chain) && Linked(head, links, chain)
    {
      var slot, i := base, 0;
      assert NewSlots(base, g.stride, 0) + chain == chain;
      while i < g.capacity
        invariant i <= g.capacity && slot == SlotAddr(base, g.stride, i)
        invariant chain == NewSlots(base, g.stride, i) + old(chain) && Linked(head, links, chain)
      {
        SlotStep(base, g.stride, i, old(chain));
        Push(slot);
        slot, i := slot + g.stride, i + 1;
      }
    }

    /** An object: a slot that was free; none only when the list is empty and the backing allocator fails. */
    method Alloc(backing: Option<nat>) returns (r: Option<nat>)
      requires Valid()
      requires backing.Some? ==> FreshRegion(slabs, g, Slab(backing.value, g.stride * g.capacity, 0))
      modifies this
      ensures Valid() && r.None? == (old(chain) == [] && backing.None?)
      ensures r.None? ==> live == old(live) && slabs == old(slabs)
      ensures r.Some? ==> r.value !in old(live) && live == old(live) + {r.value}
      ensures r.Some? ==> ClearOf(r.value, old(live), g)
      ensures r.Some? && old(chain) != [] ==> r.value == old(chain)[0] && chain == old(chain)[1..]
      ensures r.Some? ==> allocs == old(allocs) + 1 && frees == old(frees)
    {
      if head.None? {
        var ok := Grow(backing);
        if !ok { return None; }
      }
      r := Take();
    }

    /** Pops the head of the list and counts it in its slab. */
    method Take() returns (r: Option<nat>)
      requires Valid() && chain != []
      modifies this
      ensures Valid() && r == Some(old(chain)[0]) && live == old(live) + {r.value} && r.value !in old(live)
      ensures chain == old(chain)[1..]
      ensures ClearOf(r.value, old(live), g)
      ensures allocs == old(allocs) + 1 && frees == old(frees)
    {
      var node := head.value;
      slabs := CountUp(slabs, g, node, chain, live);
      head := links[node];
      allocs := allocs + 1;
      chain, live := chain[1..], live + {node};
      return Some(node);
    }

    /** The caller gives back a live object. */
    method Free(a: nat)
      requires Valid() && a in live
      modifies this
      ensures Valid() && chain == [a] + old(chain) && live == old(live) - {a} && frees == old(frees) + 1
    {
      slabs := CountDown(slabs, g, a, chain, live);
      Push(a);
      live := live - {a};
      frees := frees + 1;
    }

    /** The owner of an object may write anything over it, the old link included. */
    method WriteObject(a: nat, word: Option<nat>)
      requires Valid() && a in live
      modifies this`links
      ensures Valid()
    {
      LiveChecked(slabs, g, chain, live, a);
      LinkedFrame(head, links, chain, a, word);
      links := links[a := word];
    }

    /** Slabs, slots, free slots and objects in use, all as they are. */
    method Stats() returns (slabCount: nat, total: nat, spare: nat, used: nat)
      requires Valid()
      ensures slabCount == |slabs| == grew && total == |slabs| * g.capacity
      ensures used == |live| == allocs - frees && spare == |chain|
    {
      CountsChecked(slabs, g, chain, live);
      total, used := 0, 0;
      for k := 0 to |slabs|
        invariant total == k * g.capacity && used == SumUsed(slabs[..k])
      {
        assert slabs[..k + 1][..k] == slabs[..k];
        OneMore(k, g.capacity);
        total := total + g.capacity;
        used := used + slabs[k].used;
      }
      assert slabs[..|slabs|] == slabs;
      slabCount, spare := |slabs|, total - used;
    }
  }

  /** The next slot to push is none of those pushed. */
  lemma NextIsNew(base: nat, stride: nat, i: nat)
    requires stride > 0
    ensures SlotAddr(base, stride, i) !in NewSlots(base, stride, i)
  {
    NewSlotsMembers(base, stride, i, SlotAddr(base, stride, i));
    if j: nat :| j < i && SlotAddr(base, stride, i) == SlotAddr(base, stride, j) {
      SlotOrder(base, stride, j, i);
    }
  }

  /** One more slot of a new slab goes before those pushed. */
  lemma SlotStep(base: nat, stride: nat, i: nat, chain: seq<nat>)
    requires stride > 0 && SlotAddr(base, stride, i) !in chain
    ensures SlotAddr(base, stride, i) !in NewSlots(base, stride, i) + chain
    ensures NewSlots(base, stride, i + 1) + chain == [SlotAddr(base, stride, i)] + (NewSlots(base, stride, i) + chain)
    ensures SlotAddr(base, stride, i) + stride == SlotAddr(base, stride, i + 1)
  {
    NextIsNew(base, stride, i);
    OneMore(i, stride);
  }

  /** No slot of a fresh region is on the list. */
  lemma NotListed(slabs: seq<Slab>, g: Geometry, chain: seq<nat>, live: set<nat>, slab: Slab)
    requires Layout(slabs, g) && Partition(slabs, g, chain, live) && FreshRegion(slabs, g, slab)
    ensures forall i: nat :: i < g.capacity ==> SlotAddr(slab.base, g.stride, i) !in chain
  {
    forall i: nat | i < g.capacity
      ensures SlotAddr(slab.base, g.stride, i) !in chain
    {
      var a := SlotAddr(slab.base, g.stride, i);
      NewSlotsMembers(slab.base, g.stride, g.capacity, a);
      assert IsSlotOf(slab, g, a);
      GrowSlots(slabs, g, slab, a);
    }
  }

  lemma InSomeSlab(slabs: seq<Slab>, g: Geometry, chain: seq<nat>, live: set<nat>, a: nat)
    requires Layout(slabs, g) && Partition(slabs, g, chain, live) && (a in chain || a in live)
    ensures IsSlot(slabs, g, a) && InOne(slabs, a)
  {
    assert IsSlot(slabs, g, a);
    var k := OneSlab(slabs, g, a);
  }

  /** The head of the list is an aligned slot that keeps clear of every live object. */
  lemma HeadFacts(slabs: seq<Slab>, g: Geometry, chain: seq<nat>, live: set<nat>)
    requires Layout(slabs, g) && Partition(slabs, g, chain, live) && chain != []
    ensures IsSlot(slabs, g, chain[0]) && chain[0] !in live
    ensures InOne(slabs, chain[0])
    ensures ClearOf(chain[0], live, g)
  {
    var a := chain[0];
    assert a in chain;
    InSomeSlab(slabs, g, chain, live, a);
    var k :| 0 <= k < |slabs| && IsSlotOf(slabs[k], g, a);
    SlotInside(slabs[k], g, a);
    forall b | b in live
      ensures Apart(a, b, g.stride)
    {
      SlotsApart(slabs, g, a, b);
    }
  }
}
