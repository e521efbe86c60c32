/**
  Position-independent relocation (src/elf.rs): the loop reads its RELA table from the very image
  it patches.  When the patched slots keep out of the table and of each other, the result is the
  original image with exactly those slots set, and applying it again changes nothing.
*/
module ElfRelocation {
  import opened Arithmetic
  import opened Wrappers
  import opened Words
  import opened ElfImage

  const NONE := 0
  const ABS64 := 1
  const GLOB_DAT := 6
  const JUMP_SLOT := 7
  const RELATIVE := 8
  const U32_MOD := 0x1_0000_0000
  const U64_MOD := 0x1_0000_0000_0000_0000

  /** The source's errors, and `Overflow` for an address sum that leaves 64 bits, which panics. */
  datatype Error = OutOfBounds | Unresolved | Unsupported | EntryTooSmall | Overflow

  /** An image with eight bytes replaced by a little-endian number. */
  function Write(image: seq<Byte>, off: nat, value: nat): (r: seq<Byte>)
    requires off + 8 <= |image|
    ensures |r| == |image|
  {
    image[..off] + LittleEndian(value, 8) + image[off + 8..]
  }

  // ---------- One relocation ----------

  /** What a relocation stores: nothing for NONE, else the value; `resolved` answers for its symbol. */
  function RelaValue(base: nat, info: nat, addend: nat, resolved: Option<nat>): Result<Option<nat>, Error> {
    var kind, sym := info % U32_MOD, info / U32_MOD;
    if kind == NONE then Ok(None)
    else if kind == RELATIVE then Ok(Some((base + addend) % U64_MOD))
    else if kind == ABS64 then
      if sym == 0 then Ok(Some(addend % U64_MOD))
      else if resolved.None? then Err(Unresolved)
      else Ok(Some((resolved.value + addend) % U64_MOD))
    else if kind == GLOB_DAT || kind == JUMP_SLOT then
      if resolved.None? then Err(Unresolved) else Ok(Some(resolved.value))
    else Err(Unsupported)
  }

  /** Whether eight bytes at an offset can be written. */
  function Target(size: nat, off: nat): Result<(), Error> {
    if off + 8 >= U64_MOD then Err(Overflow) else if off + 8 > size then Err(OutOfBounds) else Ok(())
  }

  /** Eight bytes at `off` hold a number, and all other bytes are as they were. */
  predicate Stored(was: seq<Byte>, now: seq<Byte>, off: nat, value: nat) {
    && |now| == |was| && off + 8 <= |now| && U64(now, off) == value
    && forall i :: 0 <= i < |now| && !(off <= i < off + 8) ==> now[i] == was[i]
  }

  /**
    `apply_rela_with`, type by type as the psABI lists them: 0 stores nothing, 8 stores B + A, 1 stores
    S + A, 6 and 7 store S.  An error leaves the image alone.
  */
  method ApplyRela(image: array<Byte>, base: nat, off: nat, info: nat, addend: nat, resolved: Option<nat>)
    returns (r: Result<(), Error>)
    modifies image
    ensures off + 8 >= U64_MOD ==> r == Err(Overflow)
    ensures image.Length < off + 8 < U64_MOD ==> r == Err(OutOfBounds)
    ensures off + 8 < U64_MOD && off + 8 <= image.Length ==>
              var kind, sym := info % 0x1_0000_0000, info / 0x1_0000_0000;
              && (kind == 0 ==> r == Ok(()) && image[..] == old(image[..]))
              && (kind == 8 ==> r == Ok(()) && Stored(old(image[..]), image[..], off, (base + addend) % U64_MOD))
              && (kind == 1 && sym == 0 ==> r == Ok(()) && Stored(old(image[..]), image[..], off, addend % U64_MOD))
              && (kind in {6, 7} || (kind == 1 && sym != 0) ==> (r == Err(Unresolved) <==> resolved.None?))
              && (kind == 1 && sym != 0 && resolved.Some? ==>
                    r == Ok(()) && Stored(old(image[..]), image[..], off, (resolved.value + addend) % U64_MOD))
              && (kind in {6, 7} && resolved.Some? ==>
                    r == Ok(()) && Stored(old(image[..]), image[..], off, resolved.value % U64_MOD))
              && (r == Err(Unsupported) <==> kind !in {0, 1, 6, 7, 8})
    ensures Target(image.Length, off).Ok? && RelaValue(base, info, addend, resolved).Ok? ==>
              match RelaValue(base, info, addend, resolved).value
              case None => image[..] == old(image[..])
              case Some(v) => image[..] == Write(old(image[..]), off, v)
    ensures r.Err? ==> image[..] == old(image[..])
  {
    if off + 8 >= U64_MOD { return Err(Overflow); }
    if off + 8 > image.Length { return Err(OutOfBounds); }
    var value := RelaValue(base, info, addend, resolved);
    if value.Err? { return Err(value.error); }
    if value.value.Some? {
      WriteStores(image[..], off, value.value.value);
      Store(image, off, value.value.value);
    }
    return Ok(());
  }

  /** A number written is a number stored, as much of it as fits. */
  lemma WriteStores(image: seq<Byte>, off: nat, value: nat)
    requires off + 8 <= |image|
    ensures Stored(image, Write(image, off, value), off, value % U64_MOD)
  {
    var now := Write(image, off, value);
    Power64();
    assert now[off..off + 8] == LittleEndian(value, 8);
    LittleEndianMod(value, 8);
    NumberOfStored(now, off, 8, value % U64_MOD);
  }

  method Store(image: array<Byte>, off: nat, value: nat)
    requires off + 8 <= image.Length
    modifies image
    ensures image[..] == Write(old(image[..]), off, value)
  {
    var bytes := LittleEndian(value, 8);
    forall i | 0 <= i < 8 {
      image[off + i] := bytes[i];
    }
    assert image[..off] == old(image[..off]) && image[off + 8..] == old(image[off + 8..]);
    assert image[off..off + 8] == bytes;
    assert image[..] == image[..off] + image[off..off + 8] + image[off + 8..];
  }

  // ---------- The table loop ----------

  predicate IsRelative(image: seq<Byte>, pos: nat)
    requires pos + 24 <= |image|
  {
    U64(image, pos + 8) % U32_MOD == RELATIVE
  }

  datatype Slot = Slot(target: nat, value: nat)

  function SlotAt(image: seq<Byte>, base: nat, pos: nat): Slot
    requires pos + 24 <= |image|
  {
    Slot(U64(image, pos), (base + U64(image, pos + 16)) % U64_MOD)
  }

  function Written(image: seq<Byte>, s: Slot): (r: seq<Byte>)
    requires s.target + 8 <= |image|
    ensures |r| == |image|
  {
    Write(image, s.target, s.value)
  }

  datatype Patched = Patched(result: Result<nat, Error>, image: seq<Byte>)

  /** The loop from table position `pos`, with `count` relocations applied before. */
  function ApplyFrom(image: seq<Byte>, base: nat, pos: nat, end: nat, ent: nat, count: nat): Patched
    requires ent >= 24
    decreases |image| - pos
  {
    if pos + ent >= U64_MOD then Patched(Err(Overflow), image)
    else if pos + ent > end || pos + 24 > |image| then Patched(Ok(count), image)
    else if !IsRelative(image, pos) then ApplyFrom(image, base, pos + ent, end, ent, count)
    else
      var s := SlotAt(image, base, pos);
      if Target(|image|, s.target).Err? then Patched(Err(Target(|image|, s.target).error), image)
      else ApplyFrom(Written(image, s), base, pos + ent, end, ent, count + 1)
  }

  /** What `apply_pie_relocations` does to an image, given the dynamic entries. */
  function Apply(entries: seq<Entry>, image: seq<Byte>, base: nat): Patched {
    var off, size, ent := Last(entries, DT_RELA), Last(entries, DT_RELASZ), Last(entries, DT_RELAENT);
    if off.None? || size.None? || ent.None? then Patched(Ok(0), image)
    else if ent.value < 24 then Patched(Err(EntryTooSmall), image)
    else if off.value + size.value >= U64_MOD then Patched(Err(Overflow), image)
    else ApplyFrom(image, base, off.value, off.value + size.value, ent.value, 0)
  }

  method ApplyPieRelocations(entries: seq<Entry>, image: array<Byte>, base: nat) returns (r: Result<nat, Error>)
    modifies image
    ensures Patched(r, image[..]) == Apply(entries, old(image[..]), base)
    ensures (exists tag :: tag in {7, 8, 9} && Last(entries, tag).None?) ==> r == Ok(0) && image[..] == old(image[..])
    ensures (forall tag :: tag in {7, 8, 9} ==> Last(entries, tag).Some?) && Last(entries, 9).value < 24 ==>
              r == Err(EntryTooSmall) && image[..] == old(image[..])
  {
    var off := FindTag(entries, DT_RELA);
    var size := FindTag(entries, DT_RELASZ);
    var ent := FindTag(entries, DT_RELAENT);
    if off.None? || size.None? || ent.None? { return Ok(0); }
    if ent.value < 24 { return Err(EntryTooSmall); }
    if off.value + size.value >= U64_MOD { return Err(Overflow); }
    r := TableLoop(image, base, off.value, off.value + size.value, ent.value);
  }

  method TableLoop(image: array<Byte>, base: nat, off: nat, end: nat, ent: nat) returns (r: Result<nat, Error>)
    requires ent >= 24
    modifies image
    ensures Patched(r, image[..]) == ApplyFrom(old(image[..]), base, off, end, ent, 0)
  {
    ghost var goal := ApplyFrom(image[..], base, off, end, ent, 0);
    var count: nat := 0;
    var pos := off;
    while true
      invariant goal == ApplyFrom(image[..], base, pos, end, ent, count)
      decreases image.Length - pos
    {
      if pos + ent >= U64_MOD { return Err(Overflow); }
      if pos + ent > end || pos + 24 > image.Length { return Ok(count); }
      var applied := ApplyEntry(image, base, pos);
      if applied.Err? { return Err(applied.error); }
      count, pos := count + applied.value, pos + ent;
    }
  }

  /** One entry of the table; the result counts the relocations applied. */
  method ApplyEntry(image: array<Byte>, base: nat, pos: nat) returns (r: Result<nat, Error>)
    requires pos + 24 <= image.Length
    modifies image
    ensures !IsRelative(old(image[..]), pos) ==> r == Ok(0) && image[..] == old(image[..])
    ensures IsRelative(old(image[..]), pos) ==>
              var s := SlotAt(old(image[..]), base, pos);
              match Target(image.Length, s.target)
              case Err(e) => r == Err(e) && image[..] == old(image[..])
              case Ok(_) => r == Ok(1) && image[..] == Written(old(image[..]), s)
  {
    var img := image[..];
    var offset, info, addend := U64(img, pos), U64(img, pos + 8), U64(img, pos + 16);
    if info % U32_MOD != RELATIVE { return Ok(0); }
    var done := ApplyRela(image, base, offset, info, addend, None);
    if done.Err? { return Err(done.error); }
    return Ok(1);
  }

  // ---------- What the loop achieves ----------

  /** The slots the RELATIVE entries of a table name, in table order. */
  function SlotsFrom(image: seq<Byte>, base: nat, pos: nat, end: nat, ent: nat): seq<Slot>
    requires ent >= 24
    decreases |image| - pos
  {
    if pos + ent > end || pos + 24 > |image| then []
    else
      var rest := SlotsFrom(image, base, pos + ent, end, ent);
      if IsRelative(image, pos) then [SlotAt(image, base, pos)] + rest else rest
  }

  predicate Apart(s: Slot, t: Slot) { s.target + 8 <= t.target || t.target + 8 <= s.target }

  /** Slots inside an image of a given size, apart from each other and from the bytes `lo` to `hi`. */
  predicate WellPlaced(slots: seq<Slot>, size: nat, lo: nat, hi: nat) {
    && InBounds(slots, size)
    && (forall i :: 0 <= i < |slots| ==> slots[i].target + 8 <= lo || hi <= slots[i].target)
    && (forall i, j :: 0 <= i < j < |slots| ==> Apart(slots[i], slots[j]))
  }

  predicate InBounds(slots: seq<Slot>, size: nat) {
    forall i :: 0 <= i < |slots| ==> slots[i].target + 8 <= size && slots[i].target + 8 < U64_MOD
  }

  function WriteAll(image: seq<Byte>, slots: seq<Slot>): (r: seq<Byte>)
    requires InBounds(slots, |image|)
    ensures |r| == |image|
    decreases |slots|
  {
    if slots == [] then image else WriteAll(Written(image, slots[0]), slots[1..])
  }

  /** All slots written, and counted on top of `count`. */
  function Final(image: seq<Byte>, slots: seq<Slot>, count: nat): Patched
    requires InBounds(slots, |image|)
  {
    Patched(Ok(count + |slots|), WriteAll(image, slots))
  }

  /** Two images of one size agree from `lo` to `hi`. */
  predicate AgreeOn(a: seq<Byte>, b: seq<Byte>, lo: nat, hi: nat) {
    |a| == |b| && forall i :: lo <= i < hi && i < |a| ==> a[i] == b[i]
  }

  lemma SameEntry(a: seq<Byte>, b: seq<Byte>, base: nat, pos: nat, hi: nat)
    requires AgreeOn(a, b, pos, hi) && pos + 24 <= |a| && pos + 24 <= hi
    ensures SlotAt(a, base, pos) == SlotAt(b, base, pos) && IsRelative(a, pos) == IsRelative(b, pos)
  {
    assert a[pos..pos + 8] == b[pos..pos + 8];
    assert a[pos + 8..pos + 16] == b[pos + 8..pos + 16];
    assert a[pos + 16..pos + 24] == b[pos + 16..pos + 24];
    NumberFrame(a, b, pos, pos, 8);
    NumberFrame(a, b, pos + 8, pos + 8, 8);
    NumberFrame(a, b, pos + 16, pos + 16, 8);
  }

  /** The slots depend only on the table. */
  lemma {:induction false} SameSlots(a: seq<Byte>, b: seq<Byte>, base: nat, pos: nat, end: nat, ent: nat)
    requires ent >= 24 && AgreeOn(a, b, pos, end)
    ensures SlotsFrom(a, base, pos, end, ent) == SlotsFrom(b, base, pos, end, ent)
    decreases |a| - pos
  {
    if pos + ent <= end && pos + 24 <= |a| {
      SameEntry(a, b, base, pos, end);
      SameSlots(a, b, base, pos + ent, end, ent);
    }
  }

  lemma WriteElsewhere(image: seq<Byte>, off: nat, value: nat, i: nat)
    requires off + 8 <= |image| && i < |image| && !(off <= i < off + 8)
    ensures Write(image, off, value)[i] == image[i]
  {
  }

  lemma TableKept(image: seq<Byte>, base: nat, s: Slot, lo: nat, pos: nat, end: nat, ent: nat)
    requires ent >= 24 && lo <= pos && s.target + 8 <= |image|
    requires s.target + 8 <= lo || end <= s.target
    ensures SlotsFrom(Written(image, s), base, pos, end, ent) == SlotsFrom(image, base, pos, end, ent)
  {
    var next := Written(image, s);
    forall i | pos <= i < end && i < |image|
      ensures next[i] == image[i]
    {
      WriteElsewhere(image, s.target, s.value, i);
    }
    SameSlots(image, next, base, pos, end, ent);
  }

  /** Reading while patching is the same as reading first: the loop writes the original table's slots. */
  lemma {:induction false} LoopWritesSlots(image: seq<Byte>, base: nat, pos: nat, end: nat, ent: nat, count: nat)
    requires ent >= 24 && pos + ent < U64_MOD && end + ent < U64_MOD
    requires WellPlaced(SlotsFrom(image, base, pos, end, ent), |image|, pos, end)
    ensures ApplyFrom(image, base, pos, end, ent, count) == Final(image, SlotsFrom(image, base, pos, end, ent), count)
    decreases |image| - pos
  {
    if pos + ent <= end && pos + 24 <= |image| {
      var slots := SlotsFrom(image, base, pos, end, ent);
      var rest := SlotsFrom(image, base, pos + ent, end, ent);
      if IsRelative(image, pos) {
        var s := SlotAt(image, base, pos);
        HeadAndTail(slots, s, rest);
        TailWellPlaced(slots, |image|, pos, pos + ent, end);
        TableKept(image, base, s, pos, pos + ent, end, ent);
        LoopWritesSlots(Written(image, s), base, pos + ent, end, ent, count + 1);
        RelativeEntry(image, base, pos, end, ent, count, s, rest);
      } else {
        WidenWellPlaced(rest, |image|, pos, pos + ent, end);
        LoopWritesSlots(image, base, pos + ent, end, ent, count);
        OtherEntry(image, base, pos, end, ent, count);
      }
    }
  }

  lemma OtherEntry(image: seq<Byte>, base: nat, pos: nat, end: nat, ent: nat, count: nat)
    requires ent >= 24 && pos + ent <= end < U64_MOD && pos + 24 <= |image| && !IsRelative(image, pos)
    ensures SlotsFrom(image, base, pos, end, ent) == SlotsFrom(image, base, pos + ent, end, ent)
    ensures ApplyFrom(image, base, pos, end, ent, count) == ApplyFrom(image, base, pos + ent, end, ent, count)
  {
  }

  /** A RELATIVE entry puts its slot before those of the rest of the table. */
  lemma RelativeEntry(image: seq<Byte>, base: nat, pos: nat, end: nat, ent: nat, count: nat, s: Slot, rest: seq<Slot>)
    requires ent >= 24 && pos + ent <= end < U64_MOD && pos + 24 <= |image| && IsRelative(image, pos)
    requires s == SlotAt(image, base, pos) && s.target + 8 <= |image|
    requires rest == SlotsFrom(image, base, pos + ent, end, ent)
    requires InBounds([s] + rest, |image|) && InBounds(rest, |image|)
    requires ApplyFrom(Written(image, s), base, pos + ent, end, ent, count + 1) ==
             Final(Written(image, s), rest, count + 1)
    ensures SlotsFrom(image, base, pos, end, ent) == [s] + rest
    ensures ApplyFrom(image, base, pos, end, ent, count) == Final(image, [s] + rest, count)
  {
    WriteFirst(image, s, rest);
  }

  lemma WriteFirst(image: seq<Byte>, s: Slot, rest: seq<Slot>)
    requires s.target + 8 <= |image| && InBounds([s] + rest, |image|) && InBounds(rest, |image|)
    ensures WriteAll(image, [s] + rest) == WriteAll(Written(image, s), rest)
  {
    assert ([s] + rest)[1..] == rest && ([s] + rest)[0] == s;
  }

  lemma HeadAndTail(slots: seq<Slot>, s: Slot, rest: seq<Slot>)
    requires slots == [s] + rest
    ensures slots[0] == s && slots[1..] == rest
  {
  }

  lemma WidenWellPlaced(slots: seq<Slot>, size: nat, lo: nat, lo': nat, hi: nat)
    requires WellPlaced(slots, size, lo, hi) && lo <= lo'
    ensures WellPlaced(slots, size, lo', hi)
  {
  }

  lemma TailWellPlaced(slots: seq<Slot>, size: nat, lo: nat, lo': nat, hi: nat)
    requires slots != [] && WellPlaced(slots, size, lo, hi) && lo <= lo'
    ensures WellPlaced(slots[1..], size, lo', hi)
  {
    var rest := slots[1..];
    assert forall i :: 0 <= i < |rest| ==> rest[i] == slots[i + 1];
  }

  // ---------- Slots that overlap each other or the table ----------

  /** What an entry asks for: a slot, or nothing. */
  function EntryAt(image: seq<Byte>, base: nat, pos: nat): Option<Slot>
    requires pos + 24 <= |image|
  {
    if IsRelative(image, pos) then Some(SlotAt(image, base, pos)) else None
  }

  function Obeyed(image: seq<Byte>, e: Option<Slot>): (r: seq<Byte>)
    requires e.Some? ==> e.value.target + 8 <= |image|
    ensures |r| == |image|
  {
    if e.Some? then Written(image, e.value) else image
  }

  predicate Possible(e: Option<Slot>, size: nat) { e.Some? ==> Target(size, e.value.target).Ok? }

  predicate More(size: nat, pos: nat, end: nat, ent: nat) { pos + ent <= end && pos + 24 <= size }

  /** The entries of a table, up to the first whose slot is out of bounds. */
  function Reads(image: seq<Byte>, base: nat, pos: nat, end: nat, ent: nat): seq<Option<Slot>>
    requires ent >= 24
    decreases |image| - pos
  {
    if !More(|image|, pos, end, ent) then []
    else
      var e := EntryAt(image, base, pos);
      if !Possible(e, |image|) then [e] else [e] + Reads(image, base, pos + ent, end, ent)
  }

  /** The entries the loop sees, reading each after the slots of those before it are written. */
  function Sees(image: seq<Byte>, base: nat, pos: nat, end: nat, ent: nat): seq<Option<Slot>>
    requires ent >= 24
    decreases |image| - pos
  {
    if !More(|image|, pos, end, ent) then []
    else
      var e := EntryAt(image, base, pos);
      if !Possible(e, |image|) then [e] else [e] + Sees(Obeyed(image, e), base, pos + ent, end, ent)
  }

  /** In `now`, and on as the slots of `image` are written, each entry still asks for what it does in `image`. */
  predicate Undisturbed(image: seq<Byte>, now: seq<Byte>, base: nat, pos: nat, end: nat, ent: nat)
    requires ent >= 24 && |now| == |image|
    decreases |image| - pos
  {
    More(|image|, pos, end, ent) ==>
      var e := EntryAt(image, base, pos);
      && EntryAt(now, base, pos) == e
      && (Possible(e, |image|) ==> Undisturbed(image, Obeyed(now, e), base, pos + ent, end, ent))
  }

  /** The loop sees the table as it was exactly when no slot disturbs an entry after its own. */
  lemma {:induction false} SeesExact(image: seq<Byte>, now: seq<Byte>, base: nat, pos: nat, end: nat, ent: nat)
    requires ent >= 24 && |now| == |image|
    ensures Sees(now, base, pos, end, ent) == Reads(image, base, pos, end, ent) <==>
            Undisturbed(image, now, base, pos, end, ent)
    decreases |image| - pos
  {
    if More(|image|, pos, end, ent) {
      var e := EntryAt(image, base, pos);
      if EntryAt(now, base, pos) != e {
        assert Sees(now, base, pos, end, ent)[0] != Reads(image, base, pos, end, ent)[0];
      } else if Possible(e, |image|) {
        SeesExact(image, Obeyed(now, e), base, pos + ent, end, ent);
        SameFirst(e, Sees(Obeyed(now, e), base, pos + ent, end, ent), Reads(image, base, pos + ent, end, ent));
      }
    }
  }

  lemma SameFirst(e: Option<Slot>, a: seq<Option<Slot>>, b: seq<Option<Slot>>)
    ensures [e] + a == [e] + b <==> a == b
  {
    assert ([e] + a)[1..] == a && ([e] + b)[1..] == b;
  }

  /** Entries read beforehand, obeyed in order up to one whose slot is out of bounds; slots written are counted. */
  function ReadFirst(image: seq<Byte>, es: seq<Option<Slot>>, count: nat): Patched
    decreases |es|
  {
    if es == [] then Patched(Ok(count), image)
    else if !Possible(es[0], |image|) then Patched(Err(Target(|image|, es[0].value.target).error), image)
    else ReadFirst(Obeyed(image, es[0]), es[1..], if es[0].Some? then count + 1 else count)
  }

  /** Then patching while reading gives what reading first gives, however the slots lie to each other. */
  lemma {:induction false} PatchAsRead(
    image: seq<Byte>, now: seq<Byte>, base: nat, pos: nat, end: nat, ent: nat, count: nat)
    requires ent >= 24 && pos + ent < U64_MOD && end + ent < U64_MOD && |now| == |image|
    requires Undisturbed(image, now, base, pos, end, ent)
    ensures ApplyFrom(now, base, pos, end, ent, count) == ReadFirst(now, Reads(image, base, pos, end, ent), count)
    decreases |image| - pos
  {
    if More(|image|, pos, end, ent) {
      var e := EntryAt(image, base, pos);
      if Possible(e, |image|) {
        PatchAsRead(image, Obeyed(now, e), base, pos + ent, end, ent, if e.Some? then count + 1 else count);
        ObeyFirst(now, e, Reads(image, base, pos + ent, end, ent), count);
      }
    }
  }

  lemma ObeyFirst(image: seq<Byte>, e: Option<Slot>, later: seq<Option<Slot>>, count: nat)
    requires Possible(e, |image|)
    ensures ReadFirst(image, [e] + later, count) ==
            ReadFirst(Obeyed(image, e), later, if e.Some? then count + 1 else count)
  {
    assert ([e] + later)[0] == e && ([e] + later)[1..] == later;
  }

  /** Every slot keeps off the table. */
  predicate OffTable(es: seq<Option<Slot>>, lo: nat, hi: nat) {
    forall i :: 0 <= i < |es| && es[i].Some? ==> es[i].value.target + 8 <= lo || hi <= es[i].value.target
  }

  lemma {:induction false} OffTableUndisturbed(
    image: seq<Byte>, now: seq<Byte>, base: nat, lo: nat, pos: nat, end: nat, ent: nat)
    requires ent >= 24 && lo <= pos && AgreeOn(image, now, pos, end)
    requires OffTable(Reads(image, base, pos, end, ent), lo, end)
    ensures Undisturbed(image, now, base, pos, end, ent)
    decreases |image| - pos
  {
    if More(|image|, pos, end, ent) {
      var e, later := EntryAt(image, base, pos), Reads(image, base, pos + ent, end, ent);
      SameEntry(image, now, base, pos, end);
      assert Reads(image, base, pos, end, ent)[0] == e;
      if Possible(e, |image|) {
        assert forall i :: 0 <= i < |later| ==> Reads(image, base, pos, end, ent)[i + 1] == later[i];
        StillAgrees(image, now, e, lo, pos, end);
        OffTableUndisturbed(image, Obeyed(now, e), base, lo, pos + ent, end, ent);
      }
    }
  }

  lemma StillAgrees(image: seq<Byte>, now: seq<Byte>, e: Option<Slot>, lo: nat, pos: nat, end: nat)
    requires AgreeOn(image, now, pos, end) && Possible(e, |image|) && lo <= pos
    requires e.Some? ==> e.value.target + 8 <= lo || end <= e.value.target
    ensures AgreeOn(image, Obeyed(now, e), pos, end)
  {
    if e.Some? {
      forall i | pos <= i < end && i < |image|
        ensures Obeyed(now, e)[i] == image[i]
      {
        WriteElsewhere(now, e.value.target, e.value.value, i);
      }
    }
  }

  /**
    With all slots off the table, overlapping each other or not, the loop does what reading first
    does, up to the first slot out of bounds if there is one.
  */
  lemma OverlapHarmless(entries: seq<Entry>, image: seq<Byte>, base: nat, off: nat, end: nat, ent: nat)
    requires HasTable(entries, off, end, ent)
    requires OffTable(Reads(image, base, off, end, ent), off, end)
    ensures Apply(entries, image, base) == ReadFirst(image, Reads(image, base, off, end, ent), 0)
  {
    OffTableUndisturbed(image, image, base, off, off, end, ent);
    PatchAsRead(image, image, base, off, end, ent, 0);
  }

  /** No slot covers byte `i`. */
  predicate Untouched(slots: seq<Slot>, i: nat) {
    forall k :: 0 <= k < |slots| ==> !(slots[k].target <= i < slots[k].target + 8)
  }

  lemma {:induction false} UntouchedKept(image: seq<Byte>, slots: seq<Slot>, i: nat)
    requires InBounds(slots, |image|) && i < |image| && Untouched(slots, i)
    ensures WriteAll(image, slots)[i] == image[i]
    decreases |slots|
  {
    if slots != [] {
      WriteElsewhere(image, slots[0].target, slots[0].value, i);
      UntouchedKept(Written(image, slots[0]), slots[1..], i);
    }
  }

  lemma {:induction false} SlotHolds(image: seq<Byte>, slots: seq<Slot>, lo: nat, hi: nat, k: nat)
    requires WellPlaced(slots, |image|, lo, hi) && k < |slots|
    ensures var t := slots[k].target; WriteAll(image, slots)[t..t + 8] == LittleEndian(slots[k].value, 8)
    decreases k
  {
    var s := slots[0];
    var next := Written(image, s);
    TailWellPlaced(slots, |image|, lo, lo, hi);
    if k == 0 {
      var t := s.target;
      var r := WriteAll(next, slots[1..]);
      assert next[t..t + 8] == LittleEndian(s.value, 8);
      forall i | t <= i < t + 8
        ensures r[i] == next[i]
      {
        forall j | 0 <= j < |slots[1..]|
          ensures !(slots[1..][j].target <= i < slots[1..][j].target + 8)
        {
          assert Apart(slots[0], slots[j + 1]);
        }
        UntouchedKept(next, slots[1..], i);
      }
    } else {
      SlotHolds(next, slots[1..], lo, hi, k - 1);
    }
  }

  /** The table of an image as its dynamic entries place it, an entry or more below 2^64. */
  predicate HasTable(entries: seq<Entry>, off: nat, end: nat, ent: nat) {
    && Last(entries, DT_RELA) == Some(off) && Last(entries, DT_RELAENT) == Some(ent) && ent >= 24
    && Last(entries, DT_RELASZ).Some? && off + Last(entries, DT_RELASZ).value == end && end + ent < U64_MOD
  }

  /** A table entry lies at `p`: a whole number of entries from the start, with its 24 bytes in the image. */
  predicate IsEntry(size: nat, off: nat, end: nat, ent: nat, p: nat)
    requires ent > 0
  {
    off <= p && (p - off) % ent == 0 && p + ent <= end && p + 24 <= size
  }

  /** Where the entries of type 8, RELATIVE, lie. */
  function RelativeEntries(image: seq<Byte>, off: nat, end: nat, ent: nat): set<nat>
    requires ent > 0
  {
    set p: nat | p < |image| && IsEntry(|image|, off, end, ent, p) && U64(image, p + 8) % 0x1_0000_0000 == 8
  }

  /** The eight bytes each of these entries names lie in the image, off the table and off each other. */
  predicate Placed(image: seq<Byte>, off: nat, end: nat, ent: nat)
    requires ent > 0
  {
    var rs := RelativeEntries(image, off, end, ent);
    && (forall p <- rs ::
          var t := U64(image, p);
          t + 8 <= |image| && t + 8 < U64_MOD && (t + 8 <= off || end <= t))
    && (forall p, q | p in rs && q in rs && p < q ::
          U64(image, p) + 8 <= U64(image, q) || U64(image, q) + 8 <= U64(image, p))
  }

  /** The places of the RELATIVE entries from `pos` on, in order. */
  function PlacesFrom(image: seq<Byte>, pos: nat, end: nat, ent: nat): seq<nat>
    requires ent >= 24
    decreases |image| - pos
  {
    if !More(|image|, pos, end, ent) then []
    else (if IsRelative(image, pos) then [pos] else []) + PlacesFrom(image, pos + ent, end, ent)
  }

  lemma NextMultiple(x: nat, n: nat)
    requires n > 0
    ensures x % n == 0 <==> x == 0 || (x >= n && (x - n) % n == 0)
  {
    if x >= n { DivModIs(x - n, n, x / n - 1, x % n); } else { DivModIs(x, n, 0, x); }
  }

  lemma EntryNext(size: nat, pos: nat, end: nat, ent: nat, p: nat)
    requires ent > 0
    ensures IsEntry(size, pos, end, ent, p) <==>
            (p == pos && p + ent <= end && p + 24 <= size) || IsEntry(size, pos + ent, end, ent, p)
  {
    if p >= pos { NextMultiple(p - pos, ent); }
  }

  /** A set of numbers listed in order, from `lo` on. */
  predicate Lists(ps: seq<nat>, rs: set<nat>, lo: nat) {
    if ps == [] then rs == {} else lo <= ps[0] && ps[0] in rs && Lists(ps[1..], rs - {ps[0]}, ps[0] + 1)
  }

  lemma {:induction false} ListsFrom(ps: seq<nat>, rs: set<nat>, lo: nat, lower: nat)
    requires Lists(ps, rs, lo) && lower <= lo
    ensures Lists(ps, rs, lower) && forall p <- rs :: p >= lo
    decreases |ps|
  {
    if ps != [] {
      ListsFrom(ps[1..], rs - {ps[0]}, ps[0] + 1, ps[0] + 1);
      assert forall p <- rs :: p == ps[0] || p in rs - {ps[0]};
    }
  }

  lemma ListsMore(ps: seq<nat>, rs: set<nat>, lo: nat, p: nat)
    requires Lists(ps, rs, lo) && p < lo
    ensures Lists(ps, rs, p) && Lists([p] + ps, {p} + rs, p)
  {
    ListsFrom(ps, rs, lo, p);
    ListsFrom(ps, rs, lo, p + 1);
    assert ([p] + ps)[1..] == ps && {p} + rs - {p} == rs;
  }

  lemma {:induction false} ListsSize(ps: seq<nat>, rs: set<nat>, lo: nat)
    requires Lists(ps, rs, lo)
    ensures |ps| == |rs|
    decreases |ps|
  {
    if ps != [] { ListsSize(ps[1..], rs - {ps[0]}, ps[0] + 1); }
  }

  lemma {:induction false} ListsAt(ps: seq<nat>, rs: set<nat>, lo: nat, k: nat)
    requires Lists(ps, rs, lo) && k < |ps|
    ensures lo <= ps[k] && ps[k] in rs
    decreases |ps|
  {
    if k > 0 { ListsAt(ps[1..], rs - {ps[0]}, ps[0] + 1, k - 1); }
  }

  lemma {:induction false} ListsOrder(ps: seq<nat>, rs: set<nat>, lo: nat, i: nat, j: nat)
    requires Lists(ps, rs, lo) && i < j < |ps|
    ensures ps[i] < ps[j]
    decreases |ps|
  {
    if i == 0 {
      ListsAt(ps[1..], rs - {ps[0]}, ps[0] + 1, j - 1);
    } else {
      ListsOrder(ps[1..], rs - {ps[0]}, ps[0] + 1, i - 1, j - 1);
    }
  }

  lemma {:induction false} ListsMember(ps: seq<nat>, rs: set<nat>, lo: nat, p: nat) returns (k: nat)
    requires Lists(ps, rs, lo) && p in rs
    ensures k < |ps| && ps[k] == p
    decreases |ps|
  {
    if ps[0] == p {
      k := 0;
    } else {
      var j := ListsMember(ps[1..], rs - {ps[0]}, ps[0] + 1, p);
      k := j + 1;
    }
  }

  lemma EntriesNext(image: seq<Byte>, pos: nat, end: nat, ent: nat)
    requires ent >= 24 && More(|image|, pos, end, ent)
    ensures RelativeEntries(image, pos, end, ent) ==
            (if IsRelative(image, pos) then {pos} else {}) + RelativeEntries(image, pos + ent, end, ent)
  {
    forall p: nat
      ensures p in RelativeEntries(image, pos, end, ent) <==>
              p in (if IsRelative(image, pos) then {pos} else {}) + RelativeEntries(image, pos + ent, end, ent)
    {
      EntryNext(|image|, pos, end, ent, p);
    }
  }

  /** The places listed are those of the RELATIVE entries, each once. */
  lemma {:induction false} PlacesAre(image: seq<Byte>, pos: nat, end: nat, ent: nat)
    requires ent >= 24
    ensures Lists(PlacesFrom(image, pos, end, ent), RelativeEntries(image, pos, end, ent), pos)
    decreases |image| - pos
  {
    if More(|image|, pos, end, ent) {
      var ps, rs := PlacesFrom(image, pos + ent, end, ent), RelativeEntries(image, pos + ent, end, ent);
      PlacesAre(image, pos + ent, end, ent);
      EntriesNext(image, pos, end, ent);
      ListsMore(ps, rs, pos + ent, pos);
      assert [] + ps == ps && {} + rs == rs;
    } else {
      NoEntries(image, pos, end, ent);
    }
  }

  lemma NoEntries(image: seq<Byte>, pos: nat, end: nat, ent: nat)
    requires ent > 0 && !More(|image|, pos, end, ent)
    ensures RelativeEntries(image, pos, end, ent) == {}
  {
  }

  predicate SlotsAt(image: seq<Byte>, base: nat, ps: seq<nat>, slots: seq<Slot>) {
    |slots| == |ps| && forall k :: 0 <= k < |ps| ==> ps[k] + 24 <= |image| && slots[k] == SlotAt(image, base, ps[k])
  }

  lemma SlotsAtMore(image: seq<Byte>, base: nat, ps: seq<nat>, slots: seq<Slot>, p: nat)
    requires SlotsAt(image, base, ps, slots) && p + 24 <= |image|
    ensures SlotsAt(image, base, [p] + ps, [SlotAt(image, base, p)] + slots)
  {
  }

  /** The slots are those of the listed places. */
  lemma {:induction false} SlotsOfPlaces(image: seq<Byte>, base: nat, pos: nat, end: nat, ent: nat)
    requires ent >= 24
    ensures SlotsAt(image, base, PlacesFrom(image, pos, end, ent), SlotsFrom(image, base, pos, end, ent))
    decreases |image| - pos
  {
    if More(|image|, pos, end, ent) {
      var ps, slots := PlacesFrom(image, pos + ent, end, ent), SlotsFrom(image, base, pos + ent, end, ent);
      SlotsOfPlaces(image, base, pos + ent, end, ent);
      SlotsAtMore(image, base, ps, slots, pos);
      assert [] + ps == ps;
    }
  }

  lemma PlacedSlots(image: seq<Byte>, base: nat, off: nat, end: nat, ent: nat)
    requires ent >= 24 && Placed(image, off, end, ent)
    ensures WellPlaced(SlotsFrom(image, base, off, end, ent), |image|, off, end)
  {
    var ps, slots := PlacesFrom(image, off, end, ent), SlotsFrom(image, base, off, end, ent);
    var rs := RelativeEntries(image, off, end, ent);
    PlacesAre(image, off, end, ent);
    SlotsOfPlaces(image, base, off, end, ent);
    forall k | 0 <= k < |slots|
      ensures ps[k] in rs
    {
      ListsAt(ps, rs, off, k);
    }
    forall i, j | 0 <= i < j < |slots|
      ensures Apart(slots[i], slots[j])
    {
      ListsOrder(ps, rs, off, i, j);
    }
  }

  /** No RELATIVE entry names a place whose eight bytes cover byte `i`. */
  predicate Unnamed(image: seq<Byte>, off: nat, end: nat, ent: nat, i: nat)
    requires ent > 0
  {
    forall p <- RelativeEntries(image, off, end, ent) :: !(U64(image, p) <= i < U64(image, p) + 8)
  }

  /**
    When the named bytes are well placed, each RELATIVE entry's r_offset ends up holding base plus its
    r_addend as both stood in the original table, every other byte is unchanged, and the count is the
    number of RELATIVE entries.
  */
  lemma RelocationExact(entries: seq<Entry>, image: seq<Byte>, base: nat, off: nat, end: nat, ent: nat)
    requires HasTable(entries, off, end, ent) && Placed(image, off, end, ent)
    ensures var r := Apply(entries, image, base);
            && r.result == Ok(|RelativeEntries(image, off, end, ent)|) && |r.image| == |image|
            && (forall p <- RelativeEntries(image, off, end, ent) ::
                  U64(r.image, U64(image, p)) == (base + U64(image, p + 16)) % 0x1_0000_0000_0000_0000)
            && (forall i :: 0 <= i < |image| && Unnamed(image, off, end, ent, i) ==> r.image[i] == image[i])
  {
    var ps, slots := PlacesFrom(image, off, end, ent), SlotsFrom(image, base, off, end, ent);
    var rs, r := RelativeEntries(image, off, end, ent), Apply(entries, image, base);
    PlacesAre(image, off, end, ent);
    ListsSize(ps, rs, off);
    SlotsOfPlaces(image, base, off, end, ent);
    PlacedSlots(image, base, off, end, ent);
    SlotsWritten(entries, image, base, off, end, ent);
    forall p <- rs
      ensures U64(r.image, U64(image, p)) == (base + U64(image, p + 16)) % U64_MOD
    {
      var k := ListsMember(ps, rs, off, p);
      assert slots[k] == SlotAt(image, base, p);
    }
    forall i | 0 <= i < |image| && Unnamed(image, off, end, ent, i)
      ensures r.image[i] == image[i]
    {
      forall k | 0 <= k < |slots|
        ensures !(slots[k].target <= i < slots[k].target + 8)
      {
        ListsAt(ps, rs, off, k);
      }
    }
  }

  lemma SlotsWritten(entries: seq<Entry>, image: seq<Byte>, base: nat, off: nat, end: nat, ent: nat)
    requires HasTable(entries, off, end, ent)
    requires WellPlaced(SlotsFrom(image, base, off, end, ent), |image|, off, end)
    ensures var slots := SlotsFrom(image, base, off, end, ent);
            var r := Apply(entries, image, base);
            && r.result == Ok(|slots|) && |r.image| == |image|
            && (forall k :: 0 <= k < |slots| ==> U64(r.image, slots[k].target) == slots[k].value)
            && (forall i :: 0 <= i < |image| && Untouched(slots, i) ==> r.image[i] == image[i])
  {
    var slots := SlotsFrom(image, base, off, end, ent);
    LoopWritesSlots(image, base, off, end, ent, 0);
    forall k | 0 <= k < |slots|
      ensures U64(WriteAll(image, slots), slots[k].target) == slots[k].value
    {
      SlotReads(image, base, off, end, ent, k);
    }
    forall i | 0 <= i < |image| && Untouched(slots, i)
      ensures WriteAll(image, slots)[i] == image[i]
    {
      UntouchedKept(image, slots, i);
    }
  }

  lemma SlotReads(image: seq<Byte>, base: nat, off: nat, end: nat, ent: nat, k: nat)
    requires ent >= 24 && WellPlaced(SlotsFrom(image, base, off, end, ent), |image|, off, end)
    requires k < |SlotsFrom(image, base, off, end, ent)|
    ensures var slots := SlotsFrom(image, base, off, end, ent);
            U64(WriteAll(image, slots), slots[k].target) == slots[k].value
  {
    var slots := SlotsFrom(image, base, off, end, ent);
    SlotHolds(image, slots, off, end, k);
    SlotValue(image, base, off, end, ent, k);
    Power64();
    NumberOfStored(WriteAll(image, slots), slots[k].target, 8, slots[k].value);
  }

  lemma {:induction false} SlotValue(image: seq<Byte>, base: nat, pos: nat, end: nat, ent: nat, k: nat)
    requires ent >= 24 && k < |SlotsFrom(image, base, pos, end, ent)|
    ensures SlotsFrom(image, base, pos, end, ent)[k].value < U64_MOD
    decreases |image| - pos
  {
    var rest := SlotsFrom(image, base, pos + ent, end, ent);
    if !IsRelative(image, pos) {
      SlotValue(image, base, pos + ent, end, ent, k);
    } else if k == 0 {
      assert SlotAt(image, base, pos).value < U64_MOD;
    } else {
      assert SlotsFrom(image, base, pos, end, ent)[k] == rest[k - 1];
      SlotValue(image, base, pos + ent, end, ent, k - 1);
    }
  }

  /** Relocating a relocated image to the same base changes nothing more. */
  lemma RelocationIdempotent(entries: seq<Entry>, image: seq<Byte>, base: nat, off: nat, end: nat, ent: nat)
    requires HasTable(entries, off, end, ent) && Placed(image, off, end, ent)
    ensures var once := Apply(entries, image, base);
            Apply(entries, once.image, base) == once
  {
    PlacedSlots(image, base, off, end, ent);
    var slots := SlotsFrom(image, base, off, end, ent);
    LoopWritesSlots(image, base, off, end, ent, 0);
    var once := WriteAll(image, slots);
    forall i | off <= i < end && i < |image|
      ensures once[i] == image[i]
    {
      UntouchedKept(image, slots, i);
    }
    SameSlots(image, once, base, off, end, ent);
    LoopWritesSlots(once, base, off, end, ent, 0);
    RewriteSame(once, slots, off, end, image);
  }

  lemma RewriteSame(once: seq<Byte>, slots: seq<Slot>, lo: nat, hi: nat, image: seq<Byte>)
    requires |once| == |image| && WellPlaced(slots, |image|, lo, hi) && once == WriteAll(image, slots)
    ensures WriteAll(once, slots) == once
  {
    forall i | 0 <= i < |image|
      ensures WriteAll(once, slots)[i] == once[i]
    {
      RewriteSameAt(once, slots, lo, hi, image, i);
    }
  }

  lemma SlotByte(image: seq<Byte>, slots: seq<Slot>, lo: nat, hi: nat, k: nat, i: nat)
    requires WellPlaced(slots, |image|, lo, hi) && k < |slots| && slots[k].target <= i < slots[k].target + 8
    ensures WriteAll(image, slots)[i] == LittleEndian(slots[k].value, 8)[i - slots[k].target]
  {
    SlotHolds(image, slots, lo, hi, k);
    SliceAt(WriteAll(image, slots), slots[k].target, i);
  }

  lemma SliceAt(r: seq<Byte>, t: nat, i: nat)
    requires t <= i < t + 8 <= |r|
    ensures r[t..t + 8][i - t] == r[i]
  {
  }

  lemma RewriteSameAt(once: seq<Byte>, slots: seq<Slot>, lo: nat, hi: nat, image: seq<Byte>, i: nat)
    requires |once| == |image| && WellPlaced(slots, |image|, lo, hi) && once == WriteAll(image, slots) && i < |image|
    ensures WriteAll(once, slots)[i] == once[i]
  {
    if Untouched(slots, i) {
      UntouchedKept(once, slots, i);
    } else {
      var k :| 0 <= k < |slots| && slots[k].target <= i < slots[k].target + 8;
      SlotByte(image, slots, lo, hi, k, i);
      SlotByte(once, slots, lo, hi, k, i);
    }
  }
}
