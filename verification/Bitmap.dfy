/** Bitmaps packed in words, their flat meaning, and runs of clear bits. */
module Bitmap {
  import opened Words
  import opened Wrappers

  predicate Packed(words: seq<Bits>, width: nat) {
    width > 0 && forall i :: 0 <= i < |words| ==> |words[i]| == width
  }

  /** Bit `i` lies in word `i / width` at `i % width`. */
  lemma Place(i: nat, width: nat, count: nat)
    requires width > 0 && i < count * width
    ensures 0 <= i / width < count && 0 <= i % width < width
  {
    assert (i / width) * width + i % width == i;
  }

  function BitAt(words: seq<Bits>, width: nat, i: nat): bool
    requires Packed(words, width) && i < |words| * width
  {
    Place(i, width, |words|);
    words[i / width][i % width]
  }

  function Flat(words: seq<Bits>, width: nat): (bits: seq<bool>)
    requires Packed(words, width)
    ensures |bits| == |words| * width
    ensures forall i :: 0 <= i < |bits| ==> bits[i] == BitAt(words, width, i)
  {
    seq(|words| * width, i requires 0 <= i < |words| * width => BitAt(words, width, i))
  }

  lemma FlatSet(words: seq<Bits>, width: nat, i: nat, v: bool)
    requires Packed(words, width) && i < |words| * width
    ensures 0 <= i / width < |words| && 0 <= i % width < width
    ensures var changed := words[i / width := words[i / width][i % width := v]];
            Packed(changed, width) && Flat(changed, width) == Flat(words, width)[i := v]
  {
    Place(i, width, |words|);
    var changed := words[i / width := words[i / width][i % width := v]];
    forall j | 0 <= j < |words| * width
      ensures BitAt(changed, width, j) == if j == i then v else BitAt(words, width, j)
    {
      Place(j, width, |words|);
      if j / width == i / width && j % width == i % width {
        assert j == (j / width) * width + j % width && i == (i / width) * width + i % width;
      }
    }
  }

  /** A stretch of bits set to one value. */
  function Filled(bits: seq<bool>, start: nat, n: nat, v: bool): (r: seq<bool>)
    ensures |r| == |bits|
    ensures forall i :: 0 <= i < |bits| ==> r[i] == if start <= i < start + n then v else bits[i]
  {
    seq(|bits|, i requires 0 <= i < |bits| => if start <= i < start + n then v else bits[i])
  }

  /** The bits from `start` on, `n` of them, are clear and below `limit`. */
  predicate ClearRun(bits: seq<bool>, limit: nat, start: nat, n: nat) {
    start + n <= limit <= |bits| && forall i :: start <= i < start + n ==> !bits[i]
  }

  /** `r` is the lowest run of `n` clear bits, or there is none. */
  ghost predicate LowestRun(bits: seq<bool>, limit: nat, n: nat, r: Option<nat>) {
    if r.None? then forall s: nat :: !ClearRun(bits, limit, s, n)
    else ClearRun(bits, limit, r.value, n) && forall s: nat :: s < r.value ==> !ClearRun(bits, limit, s, n)
  }

  /** The lowest run of `n` clear bits that starts at `from` or later. */
  function FirstFit(bits: seq<bool>, n: nat, from: nat): Option<nat>
    decreases |bits| - from
  {
    if from + n > |bits| || from >= |bits| then None
    else if ClearRun(bits, |bits|, from, n) then Some(from)
    else FirstFit(bits, n, from + 1)
  }

  /** A lowest run is the first fit. */
  lemma {:induction false} LowestIsFirst(bits: seq<bool>, n: nat, r: Option<nat>, from: nat)
    requires n > 0 && LowestRun(bits, |bits|, n, r) && (r.Some? ==> from <= r.value)
    ensures FirstFit(bits, n, from) == r
    decreases |bits| - from
  {
    if from + n <= |bits| {
      if !ClearRun(bits, |bits|, from, n) {
        LowestIsFirst(bits, n, r, from + 1);
      }
    }
  }

  /**
    A scan for `n` clear bits stands at `i`: the last `run` bits are clear, the one before is not, and
    no run ends here yet.
  */
  ghost predicate RunSoFar(bits: seq<bool>, i: nat, run: nat, n: nat) {
    && run <= i <= |bits|
    && (forall k :: i - run <= k < i ==> !bits[k])
    && (run < i ==> bits[i - run - 1])
    && (forall s: nat :: s + n <= i ==> !ClearRun(bits, |bits|, s, n))
  }

  /** One more bit ends the run, lengthens it, or completes the lowest run. */
  lemma RunGrows(bits: seq<bool>, i: nat, run: nat, n: nat)
    requires RunSoFar(bits, i, run, n) && i < |bits| && run < n
    ensures bits[i] ==> RunSoFar(bits, i + 1, 0, n)
    ensures !bits[i] && run + 1 < n ==> RunSoFar(bits, i + 1, run + 1, n)
    ensures !bits[i] && run + 1 == n ==> LowestRun(bits, |bits|, n, Some(i - run))
  {
    forall s: nat | s + n == i + 1 && (bits[i] || run + 1 < n)
      ensures !ClearRun(bits, |bits|, s, n)
    {
      if bits[i] {
        assert s <= i < s + n;
      } else {
        assert s <= i - run - 1 < s + n;
      }
    }
  }

  lemma NoRun(bits: seq<bool>, run: nat, n: nat)
    requires RunSoFar(bits, |bits|, run, n)
    ensures LowestRun(bits, |bits|, n, None)
  {
  }

  /** Clearing a stretch that was clear before it was set gives the bits back. */
  lemma FillUndone(bits: seq<bool>, start: nat, n: nat)
    requires ClearRun(bits, |bits|, start, n)
    ensures Filled(Filled(bits, start, n, true), start, n, false) == bits
  {
  }

  method GetBit(words: array<Bits>, width: nat, i: nat) returns (b: bool)
    requires Packed(words[..], width) && i < words.Length * width
    ensures b == Flat(words[..], width)[i]
  {
    Place(i, width, words.Length);
    assert words[..][i / width] == words[i / width];
    b := words[i / width][i % width];
  }

  method SetBit(words: array<Bits>, width: nat, i: nat, v: bool)
    requires Packed(words[..], width) && i < words.Length * width
    modifies words
    ensures Packed(words[..], width) && Flat(words[..], width) == Flat(old(words[..]), width)[i := v]
  {
    FlatSet(words[..], width, i, v);
    var word := words[i / width];
    words[i / width] := word[i % width := v];
    assert words[..] == old(words[..])[i / width := word[i % width := v]];
  }

  method SetRange(words: array<Bits>, width: nat, start: nat, n: nat, v: bool)
    requires Packed(words[..], width) && start + n <= words.Length * width
    modifies words
    ensures Packed(words[..], width) && Flat(words[..], width) == Filled(Flat(old(words[..]), width), start, n, v)
  {
    ghost var bits := Flat(words[..], width);
    assert bits == Filled(bits, start, 0, v);
    for i := 0 to n
      invariant Packed(words[..], width) && Flat(words[..], width) == Filled(bits, start, i, v)
    {
      SetBit(words, width, start + i, v);
      assert Filled(bits, start, i + 1, v) == Filled(bits, start, i, v)[start + i := v];
    }
  }

  /** The numbers from `start` on, `n` of them. */
  function Interval(start: nat, n: nat): set<nat> { set i: nat | i < start + n && AtLeast(start, i) }

  predicate AtLeast(start: nat, i: nat) { start <= i }

  lemma {:induction false} IntervalSize(start: nat, n: nat)
    ensures |Interval(start, n)| == n
  {
    if n > 0 {
      IntervalSize(start, n - 1);
      assert Interval(start, n) == Interval(start, n - 1) + {start + n - 1};
    }
  }

  lemma Disjoint<T>(a: set<T>, b: set<T>)
    requires a !! b
    ensures |a + b| == |a| + |b|
  {
  }
}
