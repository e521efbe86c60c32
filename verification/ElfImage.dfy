/** Little-endian fields and the dynamic section of an ELF image (src/elf.rs). */
module ElfImage {
  import opened Wrappers
  import opened Arithmetic
  import opened Words

  /** The number in bytes `off`, ..., `off + n - 1`, least significant first. */
  function Number(data: seq<Byte>, off: nat, n: nat): nat
    requires off + n <= |data|
    decreases data, n
  {
    if n == 0 then 0 else data[off] + 256 * Number(data, off + 1, n - 1)
  }

  function U16(data: seq<Byte>, off: nat): nat
    requires off + 2 <= |data|
  {
    Number(data, off, 2)
  }

  function U32(data: seq<Byte>, off: nat): nat
    requires off + 4 <= |data|
  {
    Number(data, off, 4)
  }

  function U64(data: seq<Byte>, off: nat): nat
    requires off + 8 <= |data|
  {
    Number(data, off, 8)
  }

  /** A field depends only on its own bytes. */
  lemma {:induction false} NumberFrame(a: seq<Byte>, b: seq<Byte>, i: nat, j: nat, n: nat)
    requires i + n <= |a| && j + n <= |b| && a[i..i + n] == b[j..j + n]
    ensures Number(a, i, n) == Number(b, j, n)
    decreases n
  {
    if n > 0 {
      assert a[i] == a[i..i + n][0] && b[j] == b[j..j + n][0];
      assert a[i + 1..i + n] == a[i..i + n][1..] && b[j + 1..j + n] == b[j..j + n][1..];
      NumberFrame(a, b, i + 1, j + 1, n - 1);
    }
  }

  /** Byte `i` of a field is its `i`-th digit to base 256, lowest first. */
  lemma {:induction false} NumberByte(data: seq<Byte>, off: nat, n: nat, i: nat)
    requires off + n <= |data| && i < n
    ensures Power2(8 * i) > 0 && Number(data, off, n) / Power2(8 * i) % 256 == data[off + i]
    decreases i
  {
    PowerPositive(8 * i);
    if i > 0 {
      NumberByte(data, off + 1, n - 1, i - 1);
      BytePower(i);
      DropByte(data[off], Number(data, off + 1, n - 1), Power2(8 * (i - 1)));
    } else {
      assert Number(data, off, n) == data[off] + 256 * Number(data, off + 1, n - 1);
    }
  }

  lemma DropByte(b: Byte, rest: nat, m: nat)
    requires m > 0
    ensures (b + 256 * rest) / (256 * m) == rest / m
  {
    DivModIs(b + 256 * rest, 256, rest, b);
    DivTwice(b + 256 * rest, 256, m);
  }

  // ---------- Dynamic section ----------

  const DT_NULL := 0
  const DT_HASH := 4
  const DT_STRTAB := 5
  const DT_SYMTAB := 6
  const DT_RELA := 7
  const DT_RELASZ := 8
  const DT_RELAENT := 9
  const DT_STRSZ := 10
  const DT_SYMENT := 11
  const DT_GNU_HASH := 0x6FFF_FEF5

  datatype Entry = Entry(tag: nat, value: nat)

  /** Entries from offset `i` of a section body, up to and including the first null entry. */
  function EntriesFrom(body: seq<Byte>, i: nat): seq<Entry>
    decreases |body| - i
  {
    if i + 16 > |body| then []
    else
      var e := Entry(U64(body, i), U64(body, i + 8));
      if e.tag == DT_NULL then [e] else [e] + EntriesFrom(body, i + 16)
  }

  /** An image: its bytes and the place of its PT_DYNAMIC segment, if any. */
  datatype Image = Image(data: seq<Byte>, dynamic: Option<(nat, nat)>)

  function Entries(img: Image): seq<Entry> {
    match img.dynamic
    case None => []
    case Some((off, len)) =>
      if off + len > |img.data| then [] else EntriesFrom(img.data[off..off + len], 0)
  }

  /** The value of the last entry with a tag. */
  function Last(entries: seq<Entry>, tag: nat): Option<nat> {
    if entries == [] then None
    else if entries[|entries| - 1].tag == tag then Some(entries[|entries| - 1].value)
    else Last(entries[..|entries| - 1], tag)
  }

  /**
    `out` lists the sixteen-byte entries of the segment, tag before value, and ends after the first
    null tag or where no whole entry is left.
  */
  predicate ListsDynamic(data: seq<Byte>, off: nat, len: nat, out: seq<Entry>) {
    && off + len <= |data| && 16 * |out| <= len
    && (forall k {:trigger out[k]} :: 0 <= k < |out| ==>
          out[k] == Entry(U64(data, off + 16 * k), U64(data, off + 16 * k + 8)) && (out[k].tag == 0 ==> k == |out| - 1))
    && (16 * |out| + 16 <= len ==> out != [] && out[|out| - 1].tag == 0)
  }

  lemma SliceOfSlice(data: seq<Byte>, off: nat, len: nat, i: nat)
    requires off + len <= |data| && i + 8 <= len
    ensures data[off..off + len][i..i + 8] == data[off + i..off + i + 8]
  {
    var inner, outer := data[off..off + len][i..i + 8], data[off + i..off + i + 8];
    assert forall j :: 0 <= j < 8 ==> inner[j] == outer[j];
  }

  lemma SegmentField(data: seq<Byte>, off: nat, len: nat, i: nat)
    requires off + len <= |data| && i + 8 <= len
    ensures U64(data[off..off + len], i) == U64(data, off + i)
  {
    SliceOfSlice(data, off, len, i);
    NumberFrame(data[off..off + len], data, i, off + i, 8);
  }

  lemma {:induction false} EntriesListed(data: seq<Byte>, off: nat, len: nat, i: nat)
    requires off + len <= |data| && i <= len
    ensures ListsDynamic(data, off + i, len - i, EntriesFrom(data[off..off + len], i))
    decreases len - i
  {
    if i + 16 <= len {
      var e := Entry(U64(data, off + i), U64(data, off + i + 8));
      SegmentField(data, off, len, i);
      SegmentField(data, off, len, i + 8);
      if e.tag != 0 {
        EntriesListed(data, off, len, i + 16);
        DynamicMore(data, off + i, len - i, e, EntriesFrom(data[off..off + len], i + 16));
      }
    }
  }

  lemma DynamicMore(data: seq<Byte>, off: nat, len: nat, e: Entry, rest: seq<Entry>)
    requires off + len <= |data| && len >= 16 && ListsDynamic(data, off + 16, len - 16, rest)
    requires e == Entry(U64(data, off), U64(data, off + 8)) && e.tag != 0
    ensures ListsDynamic(data, off, len, [e] + rest)
  {
    var out := [e] + rest;
    forall k | 0 <= k < |out|
      ensures out[k] == Entry(U64(data, off + 16 * k), U64(data, off + 16 * k + 8))
      ensures out[k].tag == 0 ==> k == |out| - 1
    {
      if k > 0 { assert out[k] == rest[k - 1]; }
    }
  }

  /** The last entry with a tag is the one that counts. */
  lemma {:induction false} LastExact(entries: seq<Entry>, tag: nat, value: nat)
    ensures Last(entries, tag).None? <==> forall i :: 0 <= i < |entries| ==> entries[i].tag != tag
    ensures Last(entries, tag) == Some(value) <==>
            exists i :: 0 <= i < |entries| && entries[i] == Entry(tag, value) &&
              forall j :: i < j < |entries| ==> entries[j].tag != tag
    decreases |entries|
  {
    if entries != [] {
      var k := |entries| - 1;
      if entries[k].tag != tag {
        LastExact(entries[..k], tag, value);
        assert forall i :: 0 <= i < k ==> entries[..k][i] == entries[i];
      }
    }
  }

  /** What the dynamic section of an image lists; nothing when there is none or it leaves the file. */
  predicate IsDynamic(img: Image, out: seq<Entry>) {
    match img.dynamic
    case None => out == []
    case Some((off, len)) => if off + len > |img.data| then out == [] else ListsDynamic(img.data, off, len, out)
  }

  lemma EntriesAre(img: Image)
    ensures IsDynamic(img, Entries(img))
  {
    if img.dynamic.Some? {
      var (off, len) := img.dynamic.value;
      if off + len <= |img.data| { EntriesListed(img.data, off, len, 0); }
    }
  }

  /** `dynamic_entries`. */
  method DynamicEntries(img: Image) returns (out: seq<Entry>)
    ensures out == Entries(img)
    ensures IsDynamic(img, out)
  {
    EntriesAre(img);
    out := [];
    if img.dynamic.None? { return; }
    var (off, len) := img.dynamic.value;
    if off + len > |img.data| { return; }
    var body := img.data[off..off + len];
    var i := 0;
    while i + 16 <= |body|
      invariant 0 <= i
      invariant out + EntriesFrom(body, i) == EntriesFrom(body, 0)
      decreases |body| - i
    {
      var e := Entry(U64(body, i), U64(body, i + 8));
      out := out + [e];
      if e.tag == DT_NULL { break; }
      i := i + 16;
    }
  }

  /** The source's scan for a tag: later entries overwrite earlier ones. */
  method FindTag(entries: seq<Entry>, tag: nat) returns (v: Option<nat>)
    ensures v == Last(entries, tag)
  {
    v := None;
    for i := 0 to |entries|
      invariant v == Last(entries[..i], tag)
    {
      assert entries[..i + 1][..i] == entries[..i];
      if entries[i].tag == tag { v := Some(entries[i].value); }
    }
    assert entries[..|entries|] == entries;
  }

  /** A stored little-endian number reads back. */
  lemma {:induction false} NumberOfStored(data: seq<Byte>, off: nat, n: nat, v: nat)
    requires off + n <= |data| && data[off..off + n] == LittleEndian(v, n) && v < Power2(8 * n)
    ensures Number(data, off, n) == v
    decreases n
  {
    if n > 0 {
      BytePower(n);
      assert data[off] == data[off..off + n][0] == v % 256;
      assert data[off + 1..off + n] == data[off..off + n][1..] == LittleEndian(v / 256, n - 1);
      NumberOfStored(data, off + 1, n - 1, v / 256);
    }
  }
}
