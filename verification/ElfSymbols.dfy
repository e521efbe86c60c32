/**
  Dynamic symbol lookup (src/elf.rs): the linear scan of .dynsym and the SysV hash table, and
  exactly when the hash table answers as the scan does.
*/
module ElfSymbols {
  import opened Wrappers
  import opened Words
  import opened ElfImage
  import ElfHash

  // ---------- Symbols and names ----------

  /** The fields of an Elf64_Sym that lookups use. */
  datatype Sym = Sym(name: nat, shndx: nat, value: nat) {
    predicate IsUndefined() { shndx == 0 }
  }

  /** `Elf64Sym::parse` at an offset; the caller has checked that 24 bytes are there. */
  function SymAt(data: seq<Byte>, off: nat): Sym
    requires off + 24 <= |data|
  {
    Sym(U32(data, off), U16(data, off + 6), U64(data, off + 8))
  }

  /** An Elf64_Sym as it lies in a file. */
  function SymBytes(name: nat, info: Byte, other: Byte, shndx: nat, value: nat, size: nat): (r: seq<Byte>)
    ensures |r| == 24
  {
    LittleEndian(name, 4) + [info, other] + LittleEndian(shndx, 2) + LittleEndian(value, 8) + LittleEndian(size, 8)
  }

  /** Every record reads back, wherever it lies. */
  lemma SymRoundTrip(
    before: seq<Byte>, after: seq<Byte>, name: nat, info: Byte, other: Byte, shndx: nat, value: nat, size: nat)
    requires name < 0x1_0000_0000 && shndx < 0x1_0000 && value < 0x1_0000_0000_0000_0000
    ensures SymAt(before + SymBytes(name, info, other, shndx, value, size) + after, |before|) == Sym(name, shndx, value)
  {
    var n := |before|;
    var data := before + SymBytes(name, info, other, shndx, value, size) + after;
    Power32();
    Power64();
    ByteNumber(0);
    FieldsAt(before, LittleEndian(name, 4), [info, other], LittleEndian(shndx, 2), LittleEndian(value, 8),
             LittleEndian(size, 8), after);
    NumberOfStored(data, n, 4, name);
    NumberOfStored(data, n + 6, 2, shndx);
    NumberOfStored(data, n + 8, 8, value);
  }

  lemma FieldsAt(
    before: seq<Byte>, a: seq<Byte>, b: seq<Byte>, c: seq<Byte>, d: seq<Byte>, e: seq<Byte>, after: seq<Byte>)
    requires |a| == 4 && |b| == 2 && |c| == 2 && |d| == 8 && |e| == 8
    ensures var data, n := before + (a + b + c + d + e) + after, |before|;
            data[n..n + 4] == a && data[n + 6..n + 8] == c && data[n + 8..n + 16] == d
  {
  }

  /** Bytes of a string table from an offset to the next zero byte or the end. */
  function NameAt(strtab: seq<Byte>, off: nat): (r: seq<Byte>)
    requires off <= |strtab|
    decreases |strtab| - off
  {
    if off == |strtab| || strtab[off] == 0 then [] else [strtab[off]] + NameAt(strtab, off + 1)
  }

  /** A defined symbol with this name. */
  predicate IsNamed(s: Sym, strtab: seq<Byte>, name: seq<Byte>) {
    !s.IsUndefined() && s.name < |strtab| && NameAt(strtab, s.name) == name
  }

  // ---------- Tables of an image ----------

  function StringTable(img: Image): Option<seq<Byte>> {
    var addr, size := Last(Entries(img), DT_STRTAB), Last(Entries(img), DT_STRSZ);
    if addr.None? || size.None? || addr.value + size.value > |img.data| then None
    else Some(img.data[addr.value..addr.value + size.value])
  }

  /** Number of symbols by DT_HASH: its chain count. */
  function ChainCount(img: Image, h: nat): Option<nat> {
    if h + 8 > |img.data| then None else Some(U32(img.data, h + 4))
  }

  /** `dynamic_symbols`; `gnuSize` is the table size an image with only DT_GNU_HASH implies. */
  function SymbolTable(img: Image, gnuSize: Option<nat>): Option<seq<Byte>> {
    var es := Entries(img);
    var addr, entSize := Last(es, DT_SYMTAB), Last(es, DT_SYMENT);
    if addr.None? || (entSize.Some? && entSize.value != 24) || StringTable(img).None? then None
    else
      var h := Last(es, DT_HASH);
      var size := if h.Some? then
                    (var n := ChainCount(img, h.value); if n.None? then None else Some(n.value * 24))
                  else if Last(es, DT_GNU_HASH).Some? then gnuSize
                  else None;
      if size.None? || addr.value + size.value > |img.data| then None
      else Some(img.data[addr.value..addr.value + size.value])
  }

  // ---------- The linear scan ----------

  function ScanFrom(symtab: seq<Byte>, strtab: seq<Byte>, name: seq<Byte>, pos: nat): Option<nat>
    decreases |symtab| - pos
  {
    if pos + 24 > |symtab| then None
    else
      var s := SymAt(symtab, pos);
      if IsNamed(s, strtab, name) then Some(s.value) else ScanFrom(symtab, strtab, name, pos + 24)
  }

  /** What `lookup_symbol` answers. */
  function Scan(img: Image, gnuSize: Option<nat>, name: seq<Byte>): Option<nat> {
    match SymbolTable(img, gnuSize)
    case None => None
    case Some(symtab) => ScanFrom(symtab, StringTable(img).value, name, 0)
  }

  /** The record at `pos`, some number of records on from `from`, is the first with this name. */
  predicate FirstRecord(symtab: seq<Byte>, strtab: seq<Byte>, name: seq<Byte>, from: nat, k: nat) {
    && from + 24 * k + 24 <= |symtab| && IsNamed(SymAt(symtab, from + 24 * k), strtab, name)
    && forall j {:trigger Unlike(symtab, strtab, name, from, j)} :: 0 <= j < k ==> Unlike(symtab, strtab, name, from, j)
  }

  predicate Unlike(symtab: seq<Byte>, strtab: seq<Byte>, name: seq<Byte>, from: nat, j: nat) {
    from + 24 * j + 24 <= |symtab| && !IsNamed(SymAt(symtab, from + 24 * j), strtab, name)
  }

  lemma RecordsShift(symtab: seq<Byte>, strtab: seq<Byte>, name: seq<Byte>, from: nat, next: nat, k: nat)
    requires next == from + 24 && Unlike(symtab, strtab, name, from, 0)
    ensures FirstRecord(symtab, strtab, name, from, k + 1) <==> FirstRecord(symtab, strtab, name, next, k)
  {
    if FirstRecord(symtab, strtab, name, next, k) {
      forall j | 0 <= j < k + 1
        ensures Unlike(symtab, strtab, name, from, j)
      {
        assert j > 0 ==> Unlike(symtab, strtab, name, next, j - 1);
      }
    }
    if FirstRecord(symtab, strtab, name, from, k + 1) {
      forall j | 0 <= j < k
        ensures Unlike(symtab, strtab, name, next, j)
      {
        assert Unlike(symtab, strtab, name, from, j + 1);
      }
    }
  }

  /** That record is the first with this name and has the value. */
  predicate FirstHolds(symtab: seq<Byte>, strtab: seq<Byte>, name: seq<Byte>, from: nat, k: nat, v: nat) {
    FirstRecord(symtab, strtab, name, from, k) && SymAt(symtab, from + 24 * k).value == v
  }

  /** The scan answers a value exactly when the first record of that name has it. */
  lemma {:induction false} ScanExact(symtab: seq<Byte>, strtab: seq<Byte>, name: seq<Byte>, from: nat, v: nat)
    ensures ScanFrom(symtab, strtab, name, from) == Some(v) <==>
            exists k: nat :: FirstHolds(symtab, strtab, name, from, k, v)
    decreases |symtab| - from
  {
    if from + 24 <= |symtab| {
      var s := SymAt(symtab, from);
      if IsNamed(s, strtab, name) {
        assert FirstHolds(symtab, strtab, name, from, 0, s.value);
        forall k: nat | FirstRecord(symtab, strtab, name, from, k)
          ensures k == 0
        {
          assert k > 0 ==> Unlike(symtab, strtab, name, from, 0);
        }
      } else {
        ScanExact(symtab, strtab, name, from + 24, v);
        ScanLater(symtab, strtab, name, from, from + 24, v);
      }
    }
  }

  lemma ScanLater(symtab: seq<Byte>, strtab: seq<Byte>, name: seq<Byte>, from: nat, next: nat, v: nat)
    requires next == from + 24 && Unlike(symtab, strtab, name, from, 0)
    ensures (exists k: nat :: FirstHolds(symtab, strtab, name, from, k, v)) <==>
            exists k: nat :: FirstHolds(symtab, strtab, name, next, k, v)
  {
    if k: nat :| FirstHolds(symtab, strtab, name, from, k, v) {
      assert k > 0;
      RecordsShift(symtab, strtab, name, from, next, k - 1);
      assert FirstHolds(symtab, strtab, name, next, k - 1, v);
    }
    if k: nat :| FirstHolds(symtab, strtab, name, next, k, v) {
      RecordsShift(symtab, strtab, name, from, next, k);
      assert FirstHolds(symtab, strtab, name, from, k + 1, v);
    }
  }

  method ReadName(strtab: seq<Byte>, off: nat) returns (r: seq<Byte>)
    requires off <= |strtab|
    ensures r == NameAt(strtab, off)
    ensures off + |r| <= |strtab| && r == strtab[off..off + |r|] && 0 !in r
    ensures off + |r| < |strtab| ==> strtab[off + |r|] == 0
  {
    var end := off;
    while end < |strtab| && strtab[end] != 0
      invariant off <= end <= |strtab| && 0 !in strtab[off..end]
      invariant NameAt(strtab, off) == strtab[off..end] + NameAt(strtab, end)
    {
      assert strtab[off..end + 1] == strtab[off..end] + [strtab[end]];
      end := end + 1;
    }
    r := strtab[off..end];
  }

  method LookupSymbol(img: Image, gnuSize: Option<nat>, name: seq<Byte>) returns (v: Option<nat>)
    ensures v == Scan(img, gnuSize, name)
  {
    var table := SymbolTable(img, gnuSize);
    if table.None? { return None; }
    var symtab, strtab := table.value, StringTable(img).value;
    var pos := 0;
    while pos + 24 <= |symtab|
      invariant ScanFrom(symtab, strtab, name, pos) == Scan(img, gnuSize, name)
      decreases |symtab| - pos
    {
      var s := SymAt(symtab, pos);
      pos := pos + 24;
      if s.IsUndefined() { continue; }
      if s.name >= |strtab| { continue; }
      var n := ReadName(strtab, s.name);
      if n == name { return Some(s.value); }
    }
    return None;
  }

  // ---------- The hash table ----------

  /** The parts of an image the hashed lookup walks. */
  datatype HashTable = HashTable(data: seq<Byte>, at: nat, symtab: nat, strtab: seq<Byte>) {
    predicate HeaderFits() { at + 8 <= |data| }

    function Buckets(): nat
      requires HeaderFits()
    {
      U32(data, at)
    }

    function Chains(): nat
      requires HeaderFits()
    {
      U32(data, at + 4)
    }

    function BucketOff(b: nat): nat { at + 8 + b * 4 }

    function ChainOff(i: nat): nat
      requires HeaderFits()
    {
      at + 8 + Buckets() * 4 + i * 4
    }

    function SymOff(i: nat): nat { symtab + i * 24 }
  }

  /** 32-bit words as they lie in a file. */
  function WordBytes(ws: seq<nat>): (r: seq<Byte>)
    ensures |r| == 4 * |ws|
  {
    if ws == [] then [] else LittleEndian(ws[0], 4) + WordBytes(ws[1..])
  }

  lemma {:induction false} WordBytesAt(ws: seq<nat>, i: nat)
    requires i < |ws|
    ensures WordBytes(ws)[4 * i..4 * i + 4] == LittleEndian(ws[i], 4)
    decreases i
  {
    var first, rest := LittleEndian(ws[0], 4), WordBytes(ws[1..]);
    if i == 0 {
      assert (first + rest)[0..4] == first;
    } else {
      WordBytesAt(ws[1..], i - 1);
      assert (first + rest)[4 * i..4 * i + 4] == rest[4 * (i - 1)..4 * (i - 1) + 4];
    }
  }

  /** A hash table as the ABI lays it out: both counts, the buckets, the chains. */
  function TableWords(buckets: seq<nat>, chains: seq<nat>): (r: seq<nat>)
    ensures |r| == 2 + |buckets| + |chains|
  {
    [|buckets|, |chains|] + buckets + chains
  }

  lemma SliceInside(before: seq<Byte>, mid: seq<Byte>, after: seq<Byte>, i: nat)
    requires i + 4 <= |mid|
    ensures (before + mid + after)[|before| + i..|before| + i + 4] == mid[i..i + 4]
  {
    var outer, inner := (before + mid + after)[|before| + i..|before| + i + 4], mid[i..i + 4];
    assert forall k :: 0 <= k < 4 ==> outer[k] == inner[k];
  }

  /** The word `ws[i]` lies `o` bytes into them. */
  predicate LiesAt(bytes: seq<Byte>, ws: seq<nat>, i: nat, o: nat) {
    bytes == WordBytes(ws) && i < |ws| && o + 4 <= |bytes| && o == 4 * i
  }

  lemma WordAt(bytes: seq<Byte>, ws: seq<nat>, i: nat, o: nat, x: nat)
    requires LiesAt(bytes, ws, i, o) && ws[i] == x
    ensures bytes[o..o + 4] == LittleEndian(x, 4)
  {
    WordBytesAt(ws, i);
  }

  lemma StoredInside(before: seq<Byte>, mid: seq<Byte>, after: seq<Byte>, i: nat, x: nat)
    requires i + 4 <= |mid| && mid[i..i + 4] == LittleEndian(x, 4) && x < 0x1_0000_0000
    ensures U32(before + mid + after, |before| + i) == x
  {
    SliceInside(before, mid, after, i);
    Power32();
    NumberOfStored(before + mid + after, |before| + i, 4, x);
  }

  lemma FieldIs(before: seq<Byte>, bytes: seq<Byte>, after: seq<Byte>, ws: seq<nat>, i: nat, o: nat, x: nat)
    requires LiesAt(bytes, ws, i, o) && ws[i] == x < 0x1_0000_0000
    ensures U32(before + bytes + after, |before| + o) == x
  {
    WordAt(bytes, ws, i, o, x);
    StoredInside(before, bytes, after, o, x);
  }

  /** Every hash table, wherever it lies, reads back: counts, bucket `b` and chain `c`. */
  lemma TableRoundTrip(
    before: seq<Byte>, after: seq<Byte>, buckets: seq<nat>, chains: seq<nat>, symtab: nat, strtab: seq<Byte>,
    b: nat, c: nat)
    requires |buckets| < 0x1_0000_0000 && |chains| < 0x1_0000_0000 && b < |buckets| && c < |chains|
    requires buckets[b] < 0x1_0000_0000 && chains[c] < 0x1_0000_0000
    ensures var t := HashTable(before + WordBytes(TableWords(buckets, chains)) + after, |before|, symtab, strtab);
            && t.HeaderFits() && t.Buckets() == |buckets| && t.Chains() == |chains|
            && t.BucketOff(b) + 4 <= |t.data| && U32(t.data, t.BucketOff(b)) == buckets[b]
            && t.ChainOff(c) + 4 <= |t.data| && U32(t.data, t.ChainOff(c)) == chains[c]
  {
    var ws := TableWords(buckets, chains);
    var bytes := WordBytes(ws);
    FieldIs(before, bytes, after, ws, 0, 0, |buckets|);
    FieldIs(before, bytes, after, ws, 1, 4, |chains|);
    FieldIs(before, bytes, after, ws, 2 + b, 8 + 4 * b, buckets[b]);
    FieldIs(before, bytes, after, ws, 2 + |buckets| + c, 8 + 4 * |buckets| + 4 * c, chains[c]);
  }

  /** What a hashed lookup does: it answers, divides by zero, or follows a cyclic chain forever. */
  datatype Outcome = Answer(value: Option<nat>) | Panic | Forever

  /** The chain walk from symbol `i`, `Forever` when it goes on beyond `fuel` links. */
  function Walk(t: HashTable, name: seq<Byte>, i: nat, fuel: nat): (r: Outcome)
    requires t.HeaderFits()
    ensures r != Panic
    decreases fuel
  {
    if i == 0 || i >= t.Chains() || t.SymOff(i) + 24 > |t.data| then Answer(None)
    else if IsNamed(SymAt(t.data, t.SymOff(i)), t.strtab, name) then Answer(Some(SymAt(t.data, t.SymOff(i)).value))
    else if t.ChainOff(i) + 4 > |t.data| then Answer(None)
    else if fuel == 0 then Forever
    else Walk(t, name, U32(t.data, t.ChainOff(i)), fuel - 1)
  }

  /** `lookup_symbol_hashed` once the tables are found. */
  function Find(t: HashTable, name: seq<Byte>): Outcome {
    if !t.HeaderFits() then Answer(None)
    else if t.Buckets() == 0 then Panic
    else
      var off := t.BucketOff(ElfHash.Hash(name) % t.Buckets());
      if off + 4 > |t.data| then Answer(None) else Walk(t, name, U32(t.data, off), t.Chains())
  }

  /** The table a lookup uses, when the tags it needs are present. */
  function TableOf(img: Image): Option<HashTable> {
    var es := Entries(img);
    var h, symtab, strtab := Last(es, DT_HASH), Last(es, DT_SYMTAB), StringTable(img);
    if h.None? || symtab.None? || strtab.None? then None
    else Some(HashTable(img.data, h.value, symtab.value, strtab.value))
  }

  /** What `lookup_symbol_hashed` does. */
  function Hashed(img: Image, gnuSize: Option<nat>, name: seq<Byte>): Outcome {
    if Last(Entries(img), DT_HASH).None? then Answer(Scan(img, gnuSize, name))
    else if TableOf(img).None? then Answer(None)
    else Find(TableOf(img).value, name)
  }

  method LookupHashed(img: Image, gnuSize: Option<nat>, name: seq<Byte>) returns (r: Outcome)
    ensures r == Hashed(img, gnuSize, name)
  {
    var entries := DynamicEntries(img);
    var at := FindTag(entries, DT_HASH);
    if at.None? {
      var v := LookupSymbol(img, gnuSize, name);
      return Answer(v);
    }
    var symtab := FindTag(entries, DT_SYMTAB);
    if symtab.None? || StringTable(img).None? { return Answer(None); }
    r := FindHashed(HashTable(img.data, at.value, symtab.value, StringTable(img).value), name);
  }

  /** The walk, stopped where it can only be going round a cycle. */
  method FindHashed(t: HashTable, name: seq<Byte>) returns (r: Outcome)
    ensures r == Find(t, name)
  {
    if t.at + 8 > |t.data| { return Answer(None); }
    if t.Buckets() == 0 { return Panic; }
    var hv := ElfHash.Compute(name);
    var off := t.BucketOff(hv % t.Buckets());
    if off + 4 > |t.data| { return Answer(None); }
    var i: nat := U32(t.data, off);
    var left := t.Chains();
    while i != 0 && i < t.Chains()
      invariant Walk(t, name, i, left) == Find(t, name)
      decreases left
    {
      if t.SymOff(i) + 24 > |t.data| { return Answer(None); }
      var s := SymAt(t.data, t.SymOff(i));
      if !s.IsUndefined() && s.name < |t.strtab| {
        var n := ReadName(t.strtab, s.name);
        if n == name { return Answer(Some(s.value)); }
      }
      if t.ChainOff(i) + 4 > |t.data| { return Answer(None); }
      if left == 0 { return Forever; }
      i, left := U32(t.data, t.ChainOff(i)), left - 1;
    }
    return Answer(None);
  }

  // ---------- A walk that ends does so within as many links as there are symbols ----------

  /** The walk from `i` takes exactly `n` links. */
  predicate Takes(t: HashTable, name: seq<Byte>, i: nat, n: nat)
    requires t.HeaderFits()
  {
    Walk(t, name, i, n) != Forever && (n == 0 || Walk(t, name, i, n - 1) == Forever)
  }

  lemma {:induction false} WalkLonger(t: HashTable, name: seq<Byte>, i: nat, n: nat, m: nat)
    requires t.HeaderFits() && n <= m && Walk(t, name, i, n) != Forever
    ensures Walk(t, name, i, m) == Walk(t, name, i, n)
    decreases n
  {
    if n > 0 && Walk(t, name, i, 0) == Forever {
      WalkLonger(t, name, U32(t.data, t.ChainOff(i)), n - 1, m - 1);
    }
  }

  lemma TakesOnce(t: HashTable, name: seq<Byte>, i: nat, n: nat, m: nat)
    requires t.HeaderFits() && Takes(t, name, i, n) && Takes(t, name, i, m)
    ensures n == m
  {
    if n < m { WalkLonger(t, name, i, n, m - 1); }
    if m < n { WalkLonger(t, name, i, m, n - 1); }
  }

  /** The symbols the walk passes: one more with each link, because each is a different number of links from the end. */
  lemma {:induction false} Passed(t: HashTable, name: seq<Byte>, i: nat, n: nat) returns (s: set<nat>)
    requires t.HeaderFits() && Takes(t, name, i, n)
    ensures |s| == n
    ensures forall j :: j in s ==> j < t.Chains() && exists m :: 0 < m <= n && Takes(t, name, j, m)
    decreases n
  {
    s := {};
    if n > 0 {
      s := Passed(t, name, U32(t.data, t.ChainOff(i)), n - 1);
      if i in s {
        var m :| 0 < m <= n - 1 && Takes(t, name, i, m);
        TakesOnce(t, name, i, m, n);
      }
      s := s + {i};
    }
  }

  /** Numbers below `n`. */
  function Below(n: nat): (s: set<nat>)
    ensures |s| == n && forall i: nat :: i in s <==> i < n
  {
    if n == 0 then {} else Below(n - 1) + {n - 1}
  }

  lemma SubsetSize(a: set<nat>, b: set<nat>)
    requires a <= b
    ensures |a| <= |b|
  {
    assert b == a + (b - a);
  }

  /** The walk goes on forever exactly when it has not ended after as many links as there are symbols. */
  lemma WalkBounded(t: HashTable, name: seq<Byte>, i: nat)
    requires t.HeaderFits()
    ensures Walk(t, name, i, t.Chains()) == Forever <==> forall fuel :: Walk(t, name, i, fuel) == Forever
  {
    forall fuel: nat | Walk(t, name, i, fuel) != Forever
      ensures Walk(t, name, i, t.Chains()) != Forever
    {
      var n := Fewest(t, name, i, fuel);
      var s := Passed(t, name, i, n);
      SubsetSize(s, Below(t.Chains()));
      WalkLonger(t, name, i, n, t.Chains());
    }
  }

  lemma {:induction false} Fewest(t: HashTable, name: seq<Byte>, i: nat, fuel: nat) returns (n: nat)
    requires t.HeaderFits() && Walk(t, name, i, fuel) != Forever
    ensures Takes(t, name, i, n)
    decreases fuel
  {
    n := fuel;
    if fuel > 0 && Walk(t, name, i, fuel - 1) != Forever {
      n := Fewest(t, name, i, fuel - 1);
    }
  }

  // ---------- Tables in bounds ----------

  predicate InBounds(t: HashTable) {
    && t.HeaderFits() && t.Buckets() > 0
    && t.ChainOff(t.Chains()) <= |t.data| && t.SymOff(t.Chains()) <= |t.data|
  }

  function SymOf(t: HashTable, i: nat): Sym
    requires InBounds(t) && i < t.Chains()
  {
    SymAt(t.data, t.SymOff(i))
  }

  function Link(t: HashTable, i: nat): nat
    requires InBounds(t) && i < t.Chains()
  {
    U32(t.data, t.ChainOff(i))
  }

  function Head(t: HashTable, name: seq<Byte>): nat
    requires InBounds(t)
  {
    HeadFits(t, ElfHash.Hash(name) % t.Buckets());
    U32(t.data, t.BucketOff(ElfHash.Hash(name) % t.Buckets()))
  }

  lemma HeadFits(t: HashTable, b: nat)
    requires InBounds(t) && b < t.Buckets()
    ensures t.BucketOff(b) + 4 <= |t.data|
  {
  }

  /** Symbol `i` carries this name. */
  predicate Named(t: HashTable, i: nat, name: seq<Byte>)
    requires InBounds(t)
  {
    i < t.Chains() && IsNamed(SymOf(t, i), t.strtab, name)
  }

  /** The chain from `i` stops within `n` links. */
  predicate Ends(t: HashTable, i: nat, n: nat)
    requires InBounds(t)
    decreases n
  {
    i == 0 || i >= t.Chains() || (n > 0 && Ends(t, Link(t, i), n - 1))
  }

  /** Following the chain from `i`, the first symbol with this name is `j`, within `n` links. */
  predicate FirstOnChain(t: HashTable, name: seq<Byte>, i: nat, j: nat, n: nat)
    requires InBounds(t)
    decreases n
  {
    && 0 < i < t.Chains()
    && if Named(t, i, name) then i == j else n > 0 && FirstOnChain(t, name, Link(t, i), j, n - 1)
  }

  /** In table order, the first symbol with this name is `j`. */
  predicate FirstInTable(t: HashTable, name: seq<Byte>, j: nat)
    requires InBounds(t)
  {
    Named(t, j, name) && forall i :: 0 <= i < j ==> !Named(t, i, name)
  }

  /** The chain of this name ends. */
  ghost predicate ChainEnds(t: HashTable, name: seq<Byte>)
    requires InBounds(t)
  {
    exists n :: Ends(t, Head(t, name), n)
  }

  /** Every chain ends. */
  ghost predicate ChainsEnd(t: HashTable)
    requires InBounds(t)
  {
    forall name :: ChainEnds(t, name)
  }

  /**
    The table indexes its symbols: the first definition of each name has the value of the first
    definition of that name on the name's own chain, which therefore has one.
  */
  ghost predicate Indexes(t: HashTable)
    requires InBounds(t)
  {
    forall name, j :: FirstInTable(t, name, j) ==> exists k, n :: SameValueOnChain(t, name, j, k, n)
  }

  predicate SameValueOnChain(t: HashTable, name: seq<Byte>, j: nat, k: nat, n: nat)
    requires InBounds(t)
  {
    && FirstOnChain(t, name, Head(t, name), k, n)
    && k < t.Chains() && j < t.Chains() && SymOf(t, k).value == SymOf(t, j).value
  }

  lemma {:induction false} WalkStops(t: HashTable, name: seq<Byte>, i: nat, n: nat)
    requires InBounds(t) && Ends(t, i, n)
    ensures Walk(t, name, i, n).Answer?
    decreases n
  {
    if i != 0 && i < t.Chains() && n > 0 {
      WalkStops(t, name, Link(t, i), n - 1);
    }
  }

  /** What the walk finds is the first symbol with the name on the chain. */
  lemma {:induction false} WalkFinds(t: HashTable, name: seq<Byte>, i: nat, n: nat) returns (j: nat)
    requires InBounds(t) && Walk(t, name, i, n).Answer? && Walk(t, name, i, n).value.Some?
    ensures FirstOnChain(t, name, i, j, n) && Named(t, j, name) && Walk(t, name, i, n).value == Some(SymOf(t, j).value)
    decreases n
  {
    if Named(t, i, name) {
      j := i;
    } else {
      j := WalkFinds(t, name, Link(t, i), n - 1);
    }
  }

  lemma {:induction false} WalkReaches(t: HashTable, name: seq<Byte>, i: nat, j: nat, n: nat)
    requires InBounds(t) && FirstOnChain(t, name, i, j, n)
    ensures Named(t, j, name) && Walk(t, name, i, n) == Answer(Some(SymOf(t, j).value))
    decreases n
  {
    if !Named(t, i, name) { WalkReaches(t, name, Link(t, i), j, n - 1); }
  }

  /** The symbol table as the scan sees it. */
  function SymSlice(t: HashTable): (r: seq<Byte>)
    requires InBounds(t)
    ensures |r| == t.Chains() * 24
  {
    t.data[t.symtab..t.symtab + t.Chains() * 24]
  }

  lemma SliceSym(data: seq<Byte>, base: nat, size: nat, off: nat)
    requires base + size <= |data| && off + 24 <= size
    ensures SymAt(data[base..base + size], off) == SymAt(data, base + off)
  {
    SliceNumber(data, base, size, off, 4);
    SliceNumber(data, base, size, off + 6, 2);
    SliceNumber(data, base, size, off + 8, 8);
  }

  lemma SliceNumber(data: seq<Byte>, base: nat, size: nat, off: nat, n: nat)
    requires base + size <= |data| && off + n <= size
    ensures Number(data[base..base + size], off, n) == Number(data, base + off, n)
  {
    SliceOfSlice(data, base, size, off, n);
    NumberFrame(data[base..base + size], data, off, base + off, n);
  }

  lemma SliceOfSlice(data: seq<Byte>, base: nat, size: nat, off: nat, n: nat)
    requires base + size <= |data| && off + n <= size
    ensures data[base..base + size][off..off + n] == data[base + off..base + off + n]
  {
    var slice := data[base..base + size];
    var l, r := slice[off..off + n], data[base + off..base + off + n];
    forall k | 0 <= k < |l|
      ensures l[k] == r[k]
    {
      assert l[k] == slice[off + k] && slice[off + k] == data[base + off + k];
    }
  }

  lemma ScanStep(t: HashTable, name: seq<Byte>, i: nat)
    requires InBounds(t) && i < t.Chains()
    ensures ScanFrom(SymSlice(t), t.strtab, name, i * 24) ==
            if Named(t, i, name) then Some(SymOf(t, i).value) else ScanFrom(SymSlice(t), t.strtab, name, (i + 1) * 24)
  {
    SliceSym(t.data, t.symtab, t.Chains() * 24, i * 24);
    assert i * 24 + 24 == (i + 1) * 24;
  }

  /** What the scan finds is the first symbol with the name, from its position on. */
  lemma {:induction false} ScanFinds(t: HashTable, name: seq<Byte>, i: nat) returns (j: nat)
    requires InBounds(t) && i <= t.Chains() && ScanFrom(SymSlice(t), t.strtab, name, i * 24).Some?
    requires forall k :: 0 <= k < i ==> !Named(t, k, name)
    ensures FirstInTable(t, name, j) && ScanFrom(SymSlice(t), t.strtab, name, i * 24) == Some(SymOf(t, j).value)
    decreases t.Chains() - i
  {
    j := i;
    if i < t.Chains() {
      ScanStep(t, name, i);
      if !Named(t, i, name) {
        j := ScanFinds(t, name, i + 1);
      }
    }
  }

  /** The scan finds the first symbol with the name. */
  lemma {:induction false} ScanReaches(t: HashTable, name: seq<Byte>, i: nat, j: nat)
    requires InBounds(t) && i <= j && FirstInTable(t, name, j)
    ensures ScanFrom(SymSlice(t), t.strtab, name, i * 24) == Some(SymOf(t, j).value)
    decreases j - i
  {
    assert i < t.Chains();
    if i < j {
      ScanReaches(t, name, i + 1, j);
    }
    ScanStep(t, name, i);
  }

  lemma {:induction false} FirstExists(t: HashTable, name: seq<Byte>, i: nat) returns (j: nat)
    requires InBounds(t) && Named(t, i, name)
    ensures FirstInTable(t, name, j)
    decreases i
  {
    j := i;
    if k: nat :| k < i && Named(t, k, name) {
      j := FirstExists(t, name, k);
    }
  }

  /** What the linear scan answers on the table. */
  function Scanned(t: HashTable, name: seq<Byte>): Option<nat>
    requires InBounds(t)
  {
    ScanFrom(SymSlice(t), t.strtab, name, 0)
  }

  /** In a table in bounds the hashed lookup is the walk of the name's chain. */
  lemma FindIsWalk(t: HashTable, name: seq<Byte>)
    requires InBounds(t)
    ensures Find(t, name) == Walk(t, name, Head(t, name), t.Chains())
  {
    HeadFits(t, ElfHash.Hash(name) % t.Buckets());
  }

  /** Along a chain that ends it answers. */
  lemma FindAnswers(t: HashTable, name: seq<Byte>)
    requires InBounds(t) && ChainEnds(t, name)
    ensures Find(t, name).Answer?
  {
    FindIsWalk(t, name);
    var n :| Ends(t, Head(t, name), n);
    WalkStops(t, name, Head(t, name), n);
    WalkBounded(t, name, Head(t, name));
  }

  lemma IndexedAgrees(t: HashTable, name: seq<Byte>)
    requires InBounds(t) && ChainsEnd(t) && Indexes(t)
    ensures Find(t, name) == Answer(Scanned(t, name))
  {
    assert ChainEnds(t, name);
    FindAnswers(t, name);
    FindIsWalk(t, name);
    var i := Head(t, name);
    assert 0 * 24 == 0;
    if Scanned(t, name).Some? {
      var j := ScanFinds(t, name, 0);
      var k, n :| SameValueOnChain(t, name, j, k, n);
      WalkReaches(t, name, i, k, n);
      WalkTwice(t, name, i, n, t.Chains());
    } else if Find(t, name).value.Some? {
      var k := WalkFinds(t, name, i, t.Chains());
      var j := FirstExists(t, name, k);
      ScanReaches(t, name, 0, j);
    }
  }

  /** Two walks that end end alike. */
  lemma WalkTwice(t: HashTable, name: seq<Byte>, i: nat, n: nat, m: nat)
    requires t.HeaderFits() && Walk(t, name, i, n) != Forever && Walk(t, name, i, m) != Forever
    ensures Walk(t, name, i, n) == Walk(t, name, i, m)
  {
    if n <= m { WalkLonger(t, name, i, n, m); } else { WalkLonger(t, name, i, m, n); }
  }

  lemma AgreeingIndexes(t: HashTable, name: seq<Byte>, j: nat) returns (k: nat, n: nat)
    requires InBounds(t) && FirstInTable(t, name, j) && Find(t, name) == Answer(Scanned(t, name))
    ensures SameValueOnChain(t, name, j, k, n)
  {
    FindIsWalk(t, name);
    assert 0 * 24 == 0;
    ScanReaches(t, name, 0, j);
    n := t.Chains();
    k := WalkFinds(t, name, Head(t, name), n);
  }

  lemma {:induction false} NoZeroInName(strtab: seq<Byte>, off: nat)
    requires off <= |strtab|
    ensures 0 !in NameAt(strtab, off)
    decreases |strtab| - off
  {
    if off < |strtab| && strtab[off] != 0 { NoZeroInName(strtab, off + 1); }
  }

  /** A name with a zero byte in front is no symbol's. */
  lemma NobodyNamed(t: HashTable, name: seq<Byte>, i: nat)
    requires InBounds(t)
    ensures !Named(t, i, [0] + name)
  {
    if i < t.Chains() && SymOf(t, i).name < |t.strtab| {
      NoZeroInName(t.strtab, SymOf(t, i).name);
      assert ([0] + name)[0] == 0;
    }
  }

  /** A walk that answers without finding has come to the end of the chain. */
  lemma {:induction false} WalkEnded(t: HashTable, name: seq<Byte>, i: nat, n: nat)
    requires InBounds(t) && Walk(t, name, i, n).Answer? && forall j: nat :: !Named(t, j, name)
    ensures Ends(t, i, n)
    decreases n
  {
    if 0 < i < t.Chains() {
      assert !Named(t, i, name);
      WalkEnded(t, name, Link(t, i), n - 1);
    }
  }

  /** A lookup that agrees on a name nobody carries, in the same bucket, shows that the chain ends. */
  lemma AgreeingEnds(t: HashTable, name: seq<Byte>)
    requires InBounds(t) && Find(t, [0] + name).Answer?
    ensures ChainEnds(t, name)
  {
    ElfHash.LeadingZero(name);
    FindIsWalk(t, [0] + name);
    forall j: nat
      ensures !Named(t, j, [0] + name)
    {
      NobodyNamed(t, name, j);
    }
    WalkEnded(t, [0] + name, Head(t, name), t.Chains());
  }

  /**
    In every table in bounds, the hashed lookup answers as the scan does for every name exactly when
    every chain ends and the table indexes its symbols.
  */
  lemma FindExact(t: HashTable)
    requires InBounds(t)
    ensures (forall name :: Find(t, name) == Answer(Scanned(t, name))) <==> ChainsEnd(t) && Indexes(t)
  {
    if ChainsEnd(t) && Indexes(t) {
      forall name
        ensures Find(t, name) == Answer(Scanned(t, name))
      {
        IndexedAgrees(t, name);
      }
    }
    if forall name :: Find(t, name) == Answer(Scanned(t, name)) {
      forall name
        ensures ChainEnds(t, name)
      {
        assert Find(t, [0] + name) == Answer(Scanned(t, [0] + name));
        AgreeingEnds(t, name);
      }
      forall name, j | FirstInTable(t, name, j)
        ensures exists k, n :: SameValueOnChain(t, name, j, k, n)
      {
        var k, n := AgreeingIndexes(t, name, j);
      }
    }
  }

  /** The same of an image: when the hashed lookup and the linear one agree on every name. */
  lemma HashedExact(img: Image, gnuSize: Option<nat>)
    requires TableOf(img).Some? && InBounds(TableOf(img).value)
    requires var entSize := Last(Entries(img), DT_SYMENT); entSize.Some? ==> entSize.value == 24
    ensures (forall name :: Hashed(img, gnuSize, name) == Answer(Scan(img, gnuSize, name))) <==>
            ChainsEnd(TableOf(img).value) && Indexes(TableOf(img).value)
  {
    var t := TableOf(img).value;
    FindExact(t);
    ScanReadsSlice(img, gnuSize, t);
    assert forall name :: Hashed(img, gnuSize, name) == Find(t, name) && Scan(img, gnuSize, name) == Scanned(t, name);
  }

  // ---------- Tables as a linker lays them out ----------

  /** The chain from `i` passes `j` within `n` links. */
  predicate Passes(t: HashTable, i: nat, j: nat, n: nat)
    requires InBounds(t)
    decreases n
  {
    0 < i < t.Chains() && (i == j || (n > 0 && Passes(t, Link(t, i), j, n - 1)))
  }

  /** Symbol `i` is on the chain of this name's bucket. */
  ghost predicate OnChain(t: HashTable, name: seq<Byte>, i: nat)
    requires InBounds(t)
  {
    exists n :: Passes(t, Head(t, name), i, n)
  }

  /** Every defined symbol is on the chain of its own name. */
  ghost predicate Placed(t: HashTable)
    requires InBounds(t)
  {
    forall i, name :: Named(t, i, name) ==> OnChain(t, name, i)
  }

  /** No name is defined twice. */
  ghost predicate DefinedOnce(t: HashTable)
    requires InBounds(t)
  {
    forall i, j, name :: Named(t, i, name) && Named(t, j, name) ==> i == j
  }

  lemma {:induction false} OnlyOneOnChain(t: HashTable, name: seq<Byte>, i: nat, j: nat, n: nat)
    requires InBounds(t) && DefinedOnce(t) && Named(t, j, name) && Passes(t, i, j, n)
    ensures FirstOnChain(t, name, i, j, n)
    decreases n
  {
    if i != j {
      assert !Named(t, i, name);
      OnlyOneOnChain(t, name, Link(t, i), j, n - 1);
    }
  }

  /** Symbols on the chains of their own names, each name defined once, make an index. */
  lemma PlacedIndexes(t: HashTable)
    requires InBounds(t) && Placed(t) && DefinedOnce(t)
    ensures Indexes(t)
  {
    forall name, j | FirstInTable(t, name, j)
      ensures exists k, n :: SameValueOnChain(t, name, j, k, n)
    {
      assert OnChain(t, name, j);
      var n :| Passes(t, Head(t, name), j, n);
      OnlyOneOnChain(t, name, Head(t, name), j, n);
      assert SameValueOnChain(t, name, j, j, n);
    }
  }

  /** Every link leads to an earlier symbol. */
  predicate Descending(t: HashTable)
    requires InBounds(t)
  {
    forall i :: 0 < i < t.Chains() ==> Link(t, i) < i
  }

  lemma {:induction false} DescendingEnds(t: HashTable, i: nat)
    requires InBounds(t) && Descending(t)
    ensures Ends(t, i, i)
    decreases i
  {
    if 0 < i < t.Chains() {
      DescendingEnds(t, Link(t, i));
      EndsLater(t, Link(t, i), Link(t, i), i - 1);
    }
  }

  lemma {:induction false} EndsLater(t: HashTable, i: nat, n: nat, m: nat)
    requires InBounds(t) && Ends(t, i, n) && n <= m
    ensures Ends(t, i, m)
    decreases n
  {
    if 0 < i < t.Chains() { EndsLater(t, Link(t, i), n - 1, m - 1); }
  }

  /** On such a table, with links to earlier symbols, hashed and linear lookup agree on every name. */
  lemma PlacedAgrees(img: Image, gnuSize: Option<nat>, name: seq<Byte>)
    requires TableOf(img).Some? && InBounds(TableOf(img).value)
    requires var t := TableOf(img).value; Placed(t) && DefinedOnce(t) && (ChainsEnd(t) || Descending(t))
    requires var entSize := Last(Entries(img), DT_SYMENT); entSize.Some? ==> entSize.value == 24
    ensures Hashed(img, gnuSize, name) == Answer(Scan(img, gnuSize, name))
  {
    var t := TableOf(img).value;
    PlacedIndexes(t);
    if Descending(t) {
      forall other
        ensures ChainEnds(t, other)
      {
        DescendingEnds(t, Head(t, other));
      }
    }
    HashedExact(img, gnuSize);
  }

  lemma ScanReadsSlice(img: Image, gnuSize: Option<nat>, t: HashTable)
    requires TableOf(img) == Some(t) && InBounds(t)
    requires var entSize := Last(Entries(img), DT_SYMENT); entSize.Some? ==> entSize.value == 24
    ensures SymbolTable(img, gnuSize) == Some(SymSlice(t))
  {
  }

  // ---------- The hashed lookup does not fall back to the scan ----------

  /**
    An image with one defined symbol, `f` of value 7, whose only bucket is empty: four dynamic
    entries, the hash table at 64, two symbols at 84 and the strings at 132.
  */
  function EmptyBucketByte(i: nat): Byte {
    if i == 0 then 4 else if i == 8 then 64
    else if i == 16 then 6 else if i == 24 then 84
    else if i == 32 then 5 else if i == 40 then 132
    else if i == 48 then 10 else if i == 56 then 3
    else if i == 64 then 1 else if i == 68 then 2
    else if i == 108 then 1 else if i == 114 then 1 else if i == 116 then 7
    else if i == 133 then 0x66
    else 0
  }

  predicate EmptyBucket(data: seq<Byte>) {
    |data| == 135 && forall i :: 0 <= i < 135 ==> data[i] == EmptyBucketByte(i)
  }

  lemma {:induction false} OneByte(data: seq<Byte>, off: nat, n: nat)
    requires 0 < n && off + n <= |data| && forall j :: off < j < off + n ==> data[j] == 0
    ensures Number(data, off, n) == data[off]
    decreases n
  {
    if n > 1 {
      OneByte(data, off + 1, n - 1);
    } else {
      assert Number(data, off + 1, 0) == 0;
    }
  }

  lemma EntryAt(data: seq<Byte>, i: nat, e: Entry)
    requires EmptyBucket(data) && i <= 48 && i % 16 == 0 && e == Entry(EmptyBucketByte(i), EmptyBucketByte(i + 8))
    ensures Entry(U64(data[..64], i), U64(data[..64], i + 8)) == e
  {
    OneByte(data[..64], i, 8);
    OneByte(data[..64], i + 8, 8);
  }

  lemma FourEntries(body: seq<Byte>, a: Entry, b: Entry, c: Entry, d: Entry)
    requires |body| == 64 && a.tag != DT_NULL && b.tag != DT_NULL && c.tag != DT_NULL
    requires Entry(U64(body, 0), U64(body, 8)) == a && Entry(U64(body, 16), U64(body, 24)) == b
    requires Entry(U64(body, 32), U64(body, 40)) == c && Entry(U64(body, 48), U64(body, 56)) == d
    ensures EntriesFrom(body, 0) == [a, b, c, d]
  {
    assert EntriesFrom(body, 48) == [d];
    assert EntriesFrom(body, 32) == [c] + [d];
    assert EntriesFrom(body, 16) == [b] + ([c] + [d]);
  }

  lemma EmptyBucketTags(data: seq<Byte>)
    requires EmptyBucket(data)
    ensures Entries(Image(data, Some((0, 64)))) ==
            [Entry(DT_HASH, 64), Entry(DT_SYMTAB, 84), Entry(DT_STRTAB, 132), Entry(DT_STRSZ, 3)]
  {
    EntryAt(data, 0, Entry(4, 64));
    EntryAt(data, 16, Entry(6, 84));
    EntryAt(data, 32, Entry(5, 132));
    EntryAt(data, 48, Entry(10, 3));
    assert data[0..64] == data[..64];
    FourEntries(data[..64], Entry(4, 64), Entry(6, 84), Entry(5, 132), Entry(10, 3));
  }

  lemma LastOfFour(a: Entry, b: Entry, c: Entry, d: Entry, tag: nat)
    ensures Last([a, b, c, d], tag) ==
            if d.tag == tag then Some(d.value) else if c.tag == tag then Some(c.value)
            else if b.tag == tag then Some(b.value) else if a.tag == tag then Some(a.value) else None
  {
    assert [a, b, c, d][..3] == [a, b, c] && [a, b, c][..2] == [a, b] && [a, b][..1] == [a] && [a][..0] == [];
    assert Last([], tag) == None;
    assert Last([a], tag) == if a.tag == tag then Some(a.value) else None;
    assert Last([a, b], tag) == if b.tag == tag then Some(b.value) else Last([a], tag);
  }

  /** The table of that image. */
  lemma EmptyBucketTable(data: seq<Byte>)
    requires EmptyBucket(data)
    ensures var img := Image(data, Some((0, 64)));
            && Last(Entries(img), DT_SYMENT).None?
            && TableOf(img) == Some(HashTable(data, 64, 84, data[132..135]))
  {
    EmptyBucketTags(data);
    var a, b, c, d := Entry(DT_HASH, 64), Entry(DT_SYMTAB, 84), Entry(DT_STRTAB, 132), Entry(DT_STRSZ, 3);
    LastOfFour(a, b, c, d, DT_HASH);
    LastOfFour(a, b, c, d, DT_SYMTAB);
    LastOfFour(a, b, c, d, DT_STRTAB);
    LastOfFour(a, b, c, d, DT_STRSZ);
    LastOfFour(a, b, c, d, DT_SYMENT);
  }

  lemma EmptyBucketHeader(data: seq<Byte>)
    requires EmptyBucket(data)
    ensures U32(data, 64) == 1 && U32(data, 68) == 2 && U32(data, 72) == 0
  {
    OneByte(data, 64, 4);
    OneByte(data, 68, 4);
    OneByte(data, 72, 4);
  }

  lemma EmptyBucketSymbols(data: seq<Byte>)
    requires EmptyBucket(data)
    ensures SymAt(data, 84).IsUndefined() && SymAt(data, 108) == Sym(1, 1, 7)
  {
    OneByte(data, 90, 2);
    OneByte(data, 108, 4);
    OneByte(data, 114, 2);
    OneByte(data, 116, 8);
  }

  lemma EmptyBucketName(strtab: seq<Byte>)
    requires |strtab| == 3 && strtab[1] == 0x66 && strtab[2] == 0
    ensures NameAt(strtab, 1) == [0x66]
  {
    assert NameAt(strtab, 2) == [];
  }

  lemma EmptyBucketIndex(t: HashTable)
    requires EmptyBucket(t.data) && t.at == 64 && t.symtab == 84 && t.strtab == t.data[132..135]
    ensures InBounds(t) && t.Buckets() == 1 && U32(t.data, t.BucketOff(0)) == 0
    ensures FirstInTable(t, [0x66], 1) && SymOf(t, 1).value == 7
  {
    EmptyBucketHeader(t.data);
    EmptyBucketSymbols(t.data);
    EmptyBucketName(t.strtab);
  }

  /** The symbol is there, the linear lookup finds it, and the hashed lookup answers that there is none. */
  lemma NoFallback(data: seq<Byte>)
    requires EmptyBucket(data)
    ensures var img := Image(data, Some((0, 64)));
            Scan(img, None, [0x66]) == Some(7) && Hashed(img, None, [0x66]) == Answer(None)
  {
    var img := Image(data, Some((0, 64)));
    EmptyBucketTable(data);
    var t := HashTable(data, 64, 84, data[132..135]);
    EmptyBucketIndex(t);
    ScanReadsSlice(img, None, t);
    Unindexed(t, [0x66], 1);
  }

  /** In general: a name whose only bucket is empty is not found, though it is in the table. */
  lemma Unindexed(t: HashTable, name: seq<Byte>, j: nat)
    requires InBounds(t) && t.Buckets() == 1 && U32(t.data, t.BucketOff(0)) == 0 && FirstInTable(t, name, j)
    ensures Scanned(t, name) == Some(SymOf(t, j).value) && Find(t, name) == Answer(None)
  {
    assert 0 * 24 == 0;
    ScanReaches(t, name, 0, j);
    assert ElfHash.Hash(name) % 1 == 0;
  }

  /** Such bytes exist. */
  lemma EmptyBucketExists() returns (data: seq<Byte>)
    ensures EmptyBucket(data)
  {
    data := seq(135, i requires 0 <= i => EmptyBucketByte(i));
  }
}
