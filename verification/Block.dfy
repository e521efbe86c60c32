/**
  The NVMe block device of `src/block.rs`: reads and writes of 512-byte sectors on a disk of
  `b`-byte blocks, against a flat array of bytes.
*/
module Block {
  import opened Arithmetic
  import opened Words
  import opened Wrappers

  const SECTOR: nat := 512
  const U16: nat := 0x1_0000

  /** A block size: some number of whole sectors. */
  predicate BlockSize(b: nat) { b > 0 && b % SECTOR == 0 }

  /** Bytes in `n` blocks. */
  function Bytes(b: nat, n: nat): nat { if n == 0 then 0 else Bytes(b, n - 1) + b }

  lemma {:induction false} BytesIs(b: nat, n: nat)
    ensures Bytes(b, n) == b * n
    decreases n
  {
    if n > 0 {
      BytesIs(b, n - 1);
      assert b * n == b * (n - 1) + b;
    }
  }

  lemma {:induction false} BytesSum(b: nat, m: nat, n: nat)
    ensures Bytes(b, m + n) == Bytes(b, m) + Bytes(b, n)
    decreases n
  {
    if n > 0 {
      BytesSum(b, m, n - 1);
    }
  }

  lemma BytesOrder(b: nat, m: nat, n: nat)
    requires m <= n
    ensures Bytes(b, m) <= Bytes(b, n) && (m < n ==> Bytes(b, m) + b <= Bytes(b, n))
  {
    BytesSum(b, m, n - m);
  }

  /** The block a request starts in, and how many bytes into it. */
  function StartBlock(b: nat, lba: nat): nat
    requires BlockSize(b)
  {
    lba / (b / SECTOR)
  }

  function StartOffset(b: nat, lba: nat): nat
    requires BlockSize(b)
  {
    (lba % (b / SECTOR)) * SECTOR
  }

  /** How many blocks a request touches, rounded up. */
  function Needed(b: nat, lba: nat, count: nat): nat
    requires BlockSize(b)
  {
    (StartOffset(b, lba) + count * SECTOR + b - 1) / b
  }

  lemma StartIs(b: nat, lba: nat)
    requires BlockSize(b)
    ensures Bytes(b, StartBlock(b, lba)) + StartOffset(b, lba) == lba * SECTOR
  {
    var per := b / SECTOR;
    var q, r := lba / per, lba % per;
    assert b == SECTOR * per && lba == per * q + r;
    BytesIs(b, q);
    assert (SECTOR * per) * q == SECTOR * (per * q);
  }

  /** The blocks cover the request, and one fewer would not. */
  lemma Covers(b: nat, lba: nat, count: nat)
    requires BlockSize(b)
    ensures StartOffset(b, lba) + count * SECTOR <= Bytes(b, Needed(b, lba, count))
    ensures Bytes(b, Needed(b, lba, count)) < StartOffset(b, lba) + count * SECTOR + b
  {
    var x := StartOffset(b, lba) + count * SECTOR + b - 1;
    BytesIs(b, x / b);
    assert x == b * (x / b) + x % b;
  }

  /** With one sector to a block there is nothing to translate. */
  lemma OneSector(lba: nat, count: nat)
    ensures StartOffset(SECTOR, lba) == 0 && StartBlock(SECTOR, lba) == lba && Needed(SECTOR, lba, count) == count
    ensures Bytes(SECTOR, count) == count * SECTOR
  {
    DivModIs(count * SECTOR + SECTOR - 1, SECTOR, count, SECTOR - 1);
    BytesIs(SECTOR, count);
  }

  // ---------- What a call does ----------

  /** A driver call succeeds when its count is not zero and its blocks lie on the disk. */
  predicate Transfers(size: nat, b: nat, block: nat, count: nat) {
    count > 0 && Bytes(b, block + count) <= size
  }

  function ZeroBytes(n: nat): seq<Byte> { seq(n, i => 0) }

  /** The bounce buffer after the driver has filled it: `moved` of its `needed` blocks, the rest still zero. */
  function Fetched(disk: seq<Byte>, b: nat, start: nat, moved: nat, needed: nat): (tmp: seq<Byte>)
    requires moved <= needed && Bytes(b, start + moved) <= |disk|
    ensures |tmp| == Bytes(b, needed)
  {
    BytesSum(b, start, moved);
    BytesOrder(b, moved, needed);
    disk[Bytes(b, start)..Bytes(b, start + moved)] + ZeroBytes(Bytes(b, needed) - Bytes(b, moved))
  }

  /** A request as blocks: the first, the offset into it, how many, and the sectors asked for. */
  datatype Request = Request(start: nat, off: nat, needed: nat, count: nat)

  /** The blocks hold the sectors; with one sector to a block there is nothing to translate. */
  predicate Fitted(b: nat, q: Request) {
    q.off + q.count * SECTOR <= Bytes(b, q.needed) && (b == SECTOR ==> q.off == 0 && q.needed == q.count)
  }

  function Translate(b: nat, lba: nat, count: nat): (q: Request)
    requires BlockSize(b)
    ensures Fitted(b, q) && q.count == count
  {
    Covers(b, lba, count);
    OneSector(lba, count);
    Request(StartBlock(b, lba), StartOffset(b, lba), Needed(b, lba, count), count)
  }

  /** What a read puts at the front of the caller's buffer. The driver is asked for the block count modulo 2^16. */
  function ReadMoved(disk: seq<Byte>, b: nat, q: Request): Option<seq<Byte>>
    requires Fitted(b, q)
  {
    var moved := q.needed % U16;
    if !Transfers(|disk|, b, q.start, moved) then None
    else if b == SECTOR then
      BytesOrder(b, q.start, q.start + moved);
      Some(disk[Bytes(b, q.start)..Bytes(b, q.start + moved)])
    else Some(Fetched(disk, b, q.start, moved, q.needed)[q.off..q.off + q.count * SECTOR])
  }

  function ReadResult(disk: seq<Byte>, b: nat, lba: nat, count: nat): Option<seq<Byte>>
    requires BlockSize(b)
  {
    ReadMoved(disk, b, Translate(b, lba, count))
  }

  function Splice(s: seq<Byte>, at: nat, data: seq<Byte>): (r: seq<Byte>)
    requires at + |data| <= |s|
    ensures |r| == |s|
  {
    s[..at] + data + s[at + |data|..]
  }

  /** The disk after a write, or none when the call fails. */
  function WriteMoved(disk: seq<Byte>, b: nat, q: Request, data: seq<Byte>): Option<seq<Byte>>
    requires Fitted(b, q) && |data| == q.count * SECTOR
  {
    var moved := q.needed % U16;
    if !Transfers(|disk|, b, q.start, moved) then None
    else
      BytesSum(b, q.start, moved);
      BytesOrder(b, moved, q.needed);
      if b == SECTOR then
        BytesIs(b, q.needed);
        Some(Splice(disk, Bytes(b, q.start), data[..Bytes(b, moved)]))
      else
        var tmp := Splice(Fetched(disk, b, q.start, moved, q.needed), q.off, data);
        Some(Splice(disk, Bytes(b, q.start), tmp[..Bytes(b, moved)]))
  }

  function WriteResult(disk: seq<Byte>, b: nat, lba: nat, count: nat, data: seq<Byte>): Option<seq<Byte>>
    requires BlockSize(b) && |data| == count * SECTOR
  {
    WriteMoved(disk, b, Translate(b, lba, count), data)
  }

  /** The block count survives the cut to 16 bits. */
  predicate CountFits(b: nat, lba: nat, count: nat)
    requires BlockSize(b)
  {
    Needed(b, lba, count) < U16
  }

  /** The addressed sectors lie on the disk. */
  predicate OnDisk(size: nat, lba: nat, count: nat) { (lba + count) * SECTOR <= size }

  /** A request that touches a block and lies on a disk of whole blocks has all its blocks on the disk. */
  lemma WholeBlocks(b: nat, lba: nat, count: nat, blocks: nat)
    requires BlockSize(b) && OnDisk(Bytes(b, blocks), lba, count) && Needed(b, lba, count) > 0
    ensures StartBlock(b, lba) + Needed(b, lba, count) <= blocks
    ensures Bytes(b, StartBlock(b, lba) + Needed(b, lba, count)) <= Bytes(b, blocks)
  {
    var start, needed := StartBlock(b, lba), Needed(b, lba, count);
    StartIs(b, lba);
    Covers(b, lba, count);
    BytesSum(b, start, needed);
    if start + needed > blocks {
      BytesOrder(b, blocks, start + needed);
    }
    BytesOrder(b, start + needed, blocks);
  }

  /** A transfer that is not cut fills the whole bounce buffer. */
  lemma FetchedAll(disk: seq<Byte>, b: nat, start: nat, needed: nat)
    requires Bytes(b, start + needed) <= |disk|
    ensures Bytes(b, start) + Bytes(b, needed) <= |disk|
    ensures Fetched(disk, b, start, needed, needed) == disk[Bytes(b, start)..Bytes(b, start) + Bytes(b, needed)]
  {
    BytesSum(b, start, needed);
  }

  lemma SliceInSlice(s: seq<Byte>, p: nat, n: nat, from: nat, to: nat)
    requires p + n <= |s| && from <= to <= n
    ensures s[p..p + n][from..to] == s[p + from..p + to]
  {
    var l, r := s[p..p + n][from..to], s[p + from..p + to];
    forall k | 0 <= k < |l|
      ensures l[k] == r[k]
    {
      assert l[k] == s[p..p + n][from + k];
    }
  }

  lemma ReadWhole(disk: seq<Byte>, b: nat, q: Request)
    requires Fitted(b, q) && 0 < q.needed < U16 && Bytes(b, q.start + q.needed) <= |disk|
    ensures Bytes(b, q.start) + q.off + q.count * SECTOR <= |disk|
    ensures ReadMoved(disk, b, q) == Some(disk[Bytes(b, q.start) + q.off..Bytes(b, q.start) + q.off + q.count * SECTOR])
  {
    var p, n := Bytes(b, q.start), Bytes(b, q.needed);
    BytesSum(b, q.start, q.needed);
    if b == SECTOR {
      BytesIs(b, q.needed);
    } else {
      FetchedAll(disk, b, q.start, q.needed);
      SliceInSlice(disk, p, n, q.off, q.off + q.count * SECTOR);
    }
  }

  /** With a count that fits, a read gives exactly the addressed sectors. */
  lemma ReadExact(disk: seq<Byte>, b: nat, lba: nat, count: nat, blocks: nat)
    requires BlockSize(b) && |disk| == Bytes(b, blocks) && OnDisk(|disk|, lba, count)
    requires CountFits(b, lba, count) && Needed(b, lba, count) > 0
    ensures ReadResult(disk, b, lba, count) == Some(disk[lba * SECTOR..(lba + count) * SECTOR])
  {
    WholeBlocks(b, lba, count, blocks);
    StartIs(b, lba);
    ReadWhole(disk, b, Translate(b, lba, count));
  }

  /** Splicing into a stretch and the stretch into the disk is splicing into the disk. */
  lemma SpliceNested(disk: seq<Byte>, p: nat, n: nat, off: nat, data: seq<Byte>)
    requires p + n <= |disk| && off + |data| <= n
    ensures Splice(disk, p, Splice(disk[p..p + n], off, data)) == Splice(disk, p + off, data)
  {
  }

  lemma WriteWhole(disk: seq<Byte>, b: nat, q: Request, data: seq<Byte>)
    requires Fitted(b, q) && 0 < q.needed < U16 && Bytes(b, q.start + q.needed) <= |disk| && |data| == q.count * SECTOR
    ensures Bytes(b, q.start) + q.off + |data| <= |disk|
    ensures WriteMoved(disk, b, q, data) == Some(Splice(disk, Bytes(b, q.start) + q.off, data))
  {
    BytesSum(b, q.start, q.needed);
    if b == SECTOR {
      BytesIs(b, q.needed);
      assert data[..Bytes(b, q.needed)] == data;
    } else {
      WriteBlocks(disk, b, q.start, q.off, q.needed, data);
    }
  }

  /** With a count that fits, a write changes the addressed sectors and no other byte. */
  lemma WriteExact(disk: seq<Byte>, b: nat, lba: nat, count: nat, data: seq<Byte>, blocks: nat)
    requires BlockSize(b) && |disk| == Bytes(b, blocks) && OnDisk(|disk|, lba, count) && |data| == count * SECTOR
    requires CountFits(b, lba, count) && Needed(b, lba, count) > 0
    ensures WriteResult(disk, b, lba, count, data) == Some(Splice(disk, lba * SECTOR, data))
  {
    WholeBlocks(b, lba, count, blocks);
    StartIs(b, lba);
    WriteWhole(disk, b, Translate(b, lba, count), data);
  }

  lemma WriteBlocks(disk: seq<Byte>, b: nat, start: nat, off: nat, needed: nat, data: seq<Byte>)
    requires Bytes(b, start + needed) <= |disk| && off + |data| <= Bytes(b, needed)
    requires Bytes(b, start) + Bytes(b, needed) <= |disk|
    ensures var tmp := Splice(Fetched(disk, b, start, needed, needed), off, data);
            Splice(disk, Bytes(b, start), tmp[..Bytes(b, needed)]) == Splice(disk, Bytes(b, start) + off, data)
  {
    var p, n := Bytes(b, start), Bytes(b, needed);
    FetchedAll(disk, b, start, needed);
    var tmp := Splice(disk[p..p + n], off, data);
    assert tmp[..n] == tmp;
    SpliceNested(disk, p, n, off, data);
  }

  /** When the count is cut, the last byte of the request lies beyond the blocks moved. */
  lemma CutShort(b: nat, lba: nat, count: nat, blocks: nat)
    requires BlockSize(b) && OnDisk(Bytes(b, blocks), lba, count)
    requires !CountFits(b, lba, count) && Needed(b, lba, count) % U16 > 0
    ensures var start, moved := StartBlock(b, lba), Needed(b, lba, count) % U16;
            && Transfers(Bytes(b, blocks), b, start, moved) && count > 0
            && Bytes(b, moved) + 1 <= StartOffset(b, lba) + count * SECTOR
            && Bytes(b, start + moved) == Bytes(b, start) + Bytes(b, moved)
            && Bytes(b, start + moved) <= (lba + count) * SECTOR - 1
  {
    var start, needed := StartBlock(b, lba), Needed(b, lba, count);
    var moved := needed % U16;
    WholeBlocks(b, lba, count, blocks);
    BytesOrder(b, start + moved, start + needed);
    StartIs(b, lba);
    Covers(b, lba, count);
    BytesOrder(b, moved, needed);
    BytesSum(b, start, moved);
    StartBelow(b, lba);
    BytesOrder(b, 1, needed);
  }

  lemma StartBelow(b: nat, lba: nat)
    requires BlockSize(b)
    ensures StartOffset(b, lba) < b
  {
    assert b == SECTOR * (b / SECTOR);
  }

  /** Every read of this request that succeeds, on any contents, gives the addressed sectors. */
  ghost predicate ReadsTrue(b: nat, lba: nat, count: nat, blocks: nat)
    requires BlockSize(b) && OnDisk(Bytes(b, blocks), lba, count)
  {
    forall disk: seq<Byte> | |disk| == Bytes(b, blocks) ::
      var r := ReadResult(disk, b, lba, count);
      r.None? || r.value == disk[lba * SECTOR..(lba + count) * SECTOR]
  }

  /** That is so exactly when the block count fits in 16 bits or is cut to zero and refused. */
  lemma ReadsExact(b: nat, lba: nat, count: nat, blocks: nat)
    requires BlockSize(b) && OnDisk(Bytes(b, blocks), lba, count)
    ensures ReadsTrue(b, lba, count, blocks) <==> CountFits(b, lba, count) || Needed(b, lba, count) % U16 == 0
  {
    if CountFits(b, lba, count) && Needed(b, lba, count) > 0 {
      forall disk: seq<Byte> | |disk| == Bytes(b, blocks)
        ensures ReadResult(disk, b, lba, count) == Some(disk[lba * SECTOR..(lba + count) * SECTOR])
      {
        ReadExact(disk, b, lba, count, blocks);
      }
    } else if Needed(b, lba, count) % U16 > 0 {
      var disk: seq<Byte> := seq(Bytes(b, blocks), i => 1);
      ReadCut(disk, b, lba, count, blocks);
    }
  }

  /** A read cut short misses the end of a disk full of ones. */
  lemma ReadCut(disk: seq<Byte>, b: nat, lba: nat, count: nat, blocks: nat)
    requires BlockSize(b) && OnDisk(Bytes(b, blocks), lba, count) && |disk| == Bytes(b, blocks)
    requires !CountFits(b, lba, count) && Needed(b, lba, count) % U16 > 0
    requires forall i :: 0 <= i < |disk| ==> disk[i] == 1
    ensures var r := ReadResult(disk, b, lba, count);
            r.Some? && r.value != disk[lba * SECTOR..(lba + count) * SECTOR]
  {
    CutShort(b, lba, count, blocks);
    var start, off, needed := StartBlock(b, lba), StartOffset(b, lba), Needed(b, lba, count);
    var want := disk[lba * SECTOR..(lba + count) * SECTOR];
    var got := ReadResult(disk, b, lba, count).value;
    var k := count * SECTOR - 1;
    if b == SECTOR {
      OneSector(lba, count);
      assert |got| < |want|;
    } else {
      Covers(b, lba, count);
      assert got[k] == Fetched(disk, b, start, needed % U16, needed)[off + k] == 0;
      assert want[k] == disk[lba * SECTOR + k] == 1;
    }
  }

  ghost predicate WritesTrue(b: nat, lba: nat, count: nat, blocks: nat)
    requires BlockSize(b) && OnDisk(Bytes(b, blocks), lba, count)
  {
    forall disk: seq<Byte>, data: seq<Byte> | |disk| == Bytes(b, blocks) && |data| == count * SECTOR ::
      var r := WriteResult(disk, b, lba, count, data);
      r.None? || r.value == Splice(disk, lba * SECTOR, data)
  }

  /** The same condition decides whether a write that reports success was a true one. */
  lemma WritesExact(b: nat, lba: nat, count: nat, blocks: nat)
    requires BlockSize(b) && OnDisk(Bytes(b, blocks), lba, count)
    ensures WritesTrue(b, lba, count, blocks) <==> CountFits(b, lba, count) || Needed(b, lba, count) % U16 == 0
  {
    if CountFits(b, lba, count) && Needed(b, lba, count) > 0 {
      forall disk: seq<Byte>, data: seq<Byte> | |disk| == Bytes(b, blocks) && |data| == count * SECTOR
        ensures WriteResult(disk, b, lba, count, data) == Some(Splice(disk, lba * SECTOR, data))
      {
        WriteExact(disk, b, lba, count, data, blocks);
      }
    } else if Needed(b, lba, count) % U16 > 0 {
      var disk, data := ZeroBytes(Bytes(b, blocks)), seq(count * SECTOR, i => 1 as Byte);
      WriteCut(disk, b, lba, count, data, blocks);
    }
  }

  /** A write cut short leaves the last byte as it was. */
  lemma WriteCut(disk: seq<Byte>, b: nat, lba: nat, count: nat, data: seq<Byte>, blocks: nat)
    requires BlockSize(b) && OnDisk(Bytes(b, blocks), lba, count)
    requires |disk| == Bytes(b, blocks) && |data| == count * SECTOR
    requires !CountFits(b, lba, count) && Needed(b, lba, count) % U16 > 0
    requires disk == ZeroBytes(|disk|) && forall i :: 0 <= i < |data| ==> data[i] == 1
    ensures var r := WriteResult(disk, b, lba, count, data);
            r.Some? && r.value != Splice(disk, lba * SECTOR, data)
  {
    CutShort(b, lba, count, blocks);
    var last := (lba + count) * SECTOR - 1;
    var got := WriteResult(disk, b, lba, count, data).value;
    assert got[last] == disk[last] == 0 by {
      if b == SECTOR { OneSector(lba, count); }
    }
    assert Splice(disk, lba * SECTOR, data)[last] == data[count * SECTOR - 1] == 1;
  }

  /** What was written is read back, and reads elsewhere see nothing of it. */
  lemma ReadBack(disk: seq<Byte>, b: nat, lba: nat, count: nat, data: seq<Byte>, blocks: nat, lba': nat, count': nat)
    requires BlockSize(b) && |disk| == Bytes(b, blocks) && OnDisk(|disk|, lba, count) && |data| == count * SECTOR
    requires CountFits(b, lba, count) && Needed(b, lba, count) > 0
    requires OnDisk(|disk|, lba', count') && CountFits(b, lba', count') && Needed(b, lba', count') > 0
    requires lba + count <= lba' || lba' + count' <= lba
    ensures var after := WriteResult(disk, b, lba, count, data);
            && after.Some? && ReadResult(after.value, b, lba, count) == Some(data)
            && ReadResult(after.value, b, lba', count') == ReadResult(disk, b, lba', count')
  {
    WriteExact(disk, b, lba, count, data, blocks);
    var after := Splice(disk, lba * SECTOR, data);
    ReadExact(after, b, lba, count, blocks);
    ReadExact(after, b, lba', count', blocks);
    ReadExact(disk, b, lba', count', blocks);
    SpliceSame(disk, lba * SECTOR, data);
    SpliceOther(disk, lba * SECTOR, data, lba' * SECTOR, (lba' + count') * SECTOR);
  }

  lemma SpliceSame(s: seq<Byte>, at: nat, data: seq<Byte>)
    requires at + |data| <= |s|
    ensures Splice(s, at, data)[at..at + |data|] == data
  {
  }

  lemma SpliceOther(s: seq<Byte>, at: nat, data: seq<Byte>, from: nat, to: nat)
    requires at + |data| <= |s| && from <= to <= |s| && (at + |data| <= from || to <= at)
    ensures Splice(s, at, data)[from..to] == s[from..to]
  {
  }

  // ---------- The device ----------

  /** The errors of a call, and `Panic` for a buffer too short to slice. */
  datatype Error = BufferTooSmall | NoDma | CommandFailed | Panic

  /** Whether a buffer is long enough: for what is moved where blocks are sectors, otherwise for what is asked for. */
  predicate Enough(b: nat, q: Request, size: nat) {
    if b == SECTOR then Bytes(b, q.needed % U16) <= size else q.count * SECTOR <= size
  }

  /** The first `n` bytes; what a shorter buffer lacks is never moved. */
  function Front(s: seq<Byte>, n: nat): (r: seq<Byte>)
    ensures |r| == n
  {
    if n <= |s| then s[..n] else s + ZeroBytes(n - |s|)
  }

  /**
    How a write command goes: it works, there is no memory for it, or it breaks off and leaves these
    bytes in its blocks.
  */
  datatype Reply = Works | NoMemory | Breaks(left: seq<Byte>)

  /** Two disks of one size agree outside the bytes `lo` to `hi`. */
  predicate SameOutside(a: seq<Byte>, b: seq<Byte>, lo: nat, hi: nat) {
    |a| == |b| && forall i :: 0 <= i < |a| && !(lo <= i < hi) ==> a[i] == b[i]
  }

  method CopyOut(tmp: array<Byte>, off: nat, n: nat, buf: array<Byte>)
    requires off + n <= tmp.Length && n <= buf.Length && tmp != buf
    modifies buf
    ensures buf[..] == tmp[..][off..off + n] + old(buf[..])[n..]
  {
    forall i | 0 <= i < n { buf[i] := tmp[off + i]; }
  }

  method CopyIn(tmp: array<Byte>, off: nat, n: nat, buf: array<Byte>)
    requires off + n <= tmp.Length && n <= buf.Length && tmp != buf
    modifies tmp
    ensures tmp[..] == Splice(old(tmp[..]), off, buf[..n])
  {
    forall i | 0 <= i < n { tmp[off + i] := buf[i]; }
  }

  class NvmeDev {
    const disk: array<Byte>
    const b: nat
    var readCalls: nat
    var sectorsRead: nat
    var writeCalls: nat
    var sectorsWritten: nat

    ghost predicate Valid()
      reads this
    {
      BlockSize(b)
    }

    constructor (disk: array<Byte>, b: nat)
      requires BlockSize(b)
      ensures Valid() && this.disk == disk && this.b == b
      ensures readCalls == 0 && sectorsRead == 0 && writeCalls == 0 && sectorsWritten == 0
    {
      this.disk, this.b, readCalls, sectorsRead, writeCalls, sectorsWritten := disk, b, 0, 0, 0, 0;
    }

    /** `Nvme::read`: whole blocks into the front of a buffer. `works` is whether memory and the controller oblige. */
    method ReadBlocks(block: nat, count: nat, buf: array<Byte>, works: bool) returns (r: Result<(), Error>)
      requires buf != disk
      modifies buf
      ensures r.Ok? <==> Bytes(b, count) <= buf.Length && works && Transfers(disk.Length, b, block, count)
      ensures r == Err(BufferTooSmall) <==> buf.Length < Bytes(b, count)
      ensures r == Err(NoDma) <==> Bytes(b, count) <= buf.Length && (count == 0 || !works)
      ensures r.Ok? ==> Bytes(b, block) + Bytes(b, count) == Bytes(b, block + count)
      ensures r.Ok? ==> buf[..] == disk[Bytes(b, block)..Bytes(b, block + count)] + old(buf[..])[Bytes(b, count)..]
      ensures r.Err? ==> buf[..] == old(buf[..])
    {
      BytesSum(b, block, count);
      var from, n := Bytes(b, block), Bytes(b, count);
      if buf.Length < n { return Err(BufferTooSmall); }
      if count == 0 || !works { return Err(NoDma); }
      if from + n > disk.Length { return Err(CommandFailed); }
      forall i | 0 <= i < n { buf[i] := disk[from + i]; }
      return Ok(());
    }

    /** `Nvme::write`: the front of a buffer onto whole blocks. A command that breaks off can leave anything in them. */
    method WriteBlocks(block: nat, count: nat, buf: array<Byte>, reply: Reply) returns (r: Result<(), Error>)
      requires buf != disk
      modifies disk
      ensures r.Ok? <==> Bytes(b, count) <= buf.Length && reply.Works? && Transfers(disk.Length, b, block, count)
      ensures r == Err(BufferTooSmall) <==> buf.Length < Bytes(b, count)
      ensures r == Err(NoDma) <==> Bytes(b, count) <= buf.Length && (count == 0 || reply.NoMemory?)
      ensures r.Ok? ==> Bytes(b, block) + Bytes(b, count) == Bytes(b, block + count) <= |old(disk[..])|
      ensures r.Ok? ==> disk[..] == Splice(old(disk[..]), Bytes(b, block), buf[..Bytes(b, count)])
      ensures r.Err? ==> SameOutside(old(disk[..]), disk[..], Bytes(b, block), Bytes(b, block + count))
      ensures r.Err? && !reply.Breaks? ==> disk[..] == old(disk[..])
    {
      BytesSum(b, block, count);
      var from, n := Bytes(b, block), Bytes(b, count);
      if buf.Length < n { return Err(BufferTooSmall); }
      if count == 0 || reply.NoMemory? { return Err(NoDma); }
      if from + n > disk.Length { return Err(CommandFailed); }
      if reply.Breaks? {
        forall i | 0 <= i < n && i < |reply.left| { disk[from + i] := reply.left[i]; }
        return Err(CommandFailed);
      }
      forall i | 0 <= i < n { disk[from + i] := buf[i]; }
      return Ok(());
    }

    /** A zeroed bounce buffer for the blocks of a request, filled by the driver. */
    method Fetch(q: Request, works: bool) returns (r: Result<(), Error>, tmp: array<Byte>)
      ensures fresh(tmp) && tmp.Length == Bytes(b, q.needed)
      ensures r.Ok? <==> works && Transfers(disk.Length, b, q.start, q.needed % U16)
      ensures r.Ok? ==> tmp[..] == Fetched(disk[..], b, q.start, q.needed % U16, q.needed)
    {
      var moved := q.needed % U16;
      BytesOrder(b, moved, q.needed);
      tmp := new Byte[Bytes(b, q.needed)](_ => 0);
      ghost var before := tmp[..];
      r := ReadBlocks(q.start, moved, tmp, works);
      assert before[Bytes(b, moved)..] == ZeroBytes(Bytes(b, q.needed) - Bytes(b, moved));
    }

    /** A read of whole blocks, through a bounce buffer unless blocks are sectors. */
    method ReadRequest(q: Request, buf: array<Byte>, works: bool) returns (r: Result<(), Error>)
      requires Fitted(b, q) && buf != disk
      modifies buf
      ensures r.Ok? <==> works && ReadMoved(disk[..], b, q).Some? && Enough(b, q, buf.Length)
      ensures r.Ok? ==>
        var got := ReadMoved(disk[..], b, q).value;
        |got| <= buf.Length && buf[..] == got + old(buf[..])[|got|..]
      ensures r.Err? ==> buf[..] == old(buf[..])
    {
      if b == SECTOR {
        BytesOrder(b, q.needed % U16, q.needed);
        BytesIs(b, q.needed);
        r := ReadBlocks(q.start, q.needed % U16, buf, works);
      } else {
        var tmp;
        r, tmp := Fetch(q, works);
        if r.Ok? {
          if buf.Length < q.count * SECTOR { return Err(Panic); }
          CopyOut(tmp, q.off, q.count * SECTOR, buf);
        }
      }
    }

    /** A write of whole blocks, through a bounce buffer unless blocks are sectors. */
    method WriteRequest(q: Request, buf: array<Byte>, fetches: bool, reply: Reply) returns (r: Result<(), Error>)
      requires Fitted(b, q) && buf != disk
      modifies disk
      ensures r.Ok? <==>
        && (b == SECTOR || fetches) && reply.Works? && Enough(b, q, buf.Length)
        && WriteMoved(old(disk[..]), b, q, Front(buf[..], q.count * SECTOR)).Some?
      ensures r.Ok? ==> Some(disk[..]) == WriteMoved(old(disk[..]), b, q, Front(buf[..], q.count * SECTOR))
      ensures r.Err? ==> SameOutside(old(disk[..]), disk[..], Bytes(b, q.start), Bytes(b, q.start + q.needed % U16))
      ensures r.Err? && !reply.Breaks? ==> disk[..] == old(disk[..])
    {
      var moved := q.needed % U16;
      BytesOrder(b, moved, q.needed);
      if b == SECTOR {
        BytesIs(b, q.needed);
        r := WriteBlocks(q.start, moved, buf, reply);
        if r.Ok? { assert Front(buf[..], q.count * SECTOR)[..Bytes(b, moved)] == buf[..Bytes(b, moved)]; }
      } else {
        r := WriteBounced(q, buf, fetches, reply);
      }
    }

    /** Blocks larger than a sector are read, spliced and written back. */
    method WriteBounced(q: Request, buf: array<Byte>, fetches: bool, reply: Reply) returns (r: Result<(), Error>)
      requires Fitted(b, q) && buf != disk && b != SECTOR
      modifies disk
      ensures r.Ok? <==>
        && fetches && reply.Works? && Enough(b, q, buf.Length)
        && WriteMoved(old(disk[..]), b, q, Front(buf[..], q.count * SECTOR)).Some?
      ensures r.Ok? ==> Some(disk[..]) == WriteMoved(old(disk[..]), b, q, Front(buf[..], q.count * SECTOR))
      ensures r.Err? ==> SameOutside(old(disk[..]), disk[..], Bytes(b, q.start), Bytes(b, q.start + q.needed % U16))
      ensures r.Err? && !reply.Breaks? ==> disk[..] == old(disk[..])
    {
      var moved := q.needed % U16;
      BytesOrder(b, moved, q.needed);
      var tmp;
      r, tmp := Fetch(q, fetches);
      if r.Ok? {
        if buf.Length < q.count * SECTOR { return Err(Panic); }
        CopyIn(tmp, q.off, q.count * SECTOR, buf);
        assert Front(buf[..], q.count * SECTOR) == buf[..q.count * SECTOR];
        r := WriteBlocks(q.start, moved, tmp, reply);
        assert tmp[..][..Bytes(b, moved)] == tmp[..Bytes(b, moved)];
      }
    }

    /** Sectors into the front of the caller's buffer. */
    method Read(lba: nat, count: nat, buf: array<Byte>, works: bool) returns (r: Result<(), Error>)
      requires Valid() && buf != disk
      modifies this, buf
      ensures r.Ok? <==>
        works && ReadResult(disk[..], b, lba, count).Some? && Enough(b, Translate(b, lba, count), buf.Length)
      ensures r.Ok? ==>
        var got := ReadResult(disk[..], b, lba, count).value;
        |got| <= buf.Length && buf[..] == got + old(buf[..])[|got|..]
      ensures r.Err? ==> buf[..] == old(buf[..])
      ensures readCalls == old(readCalls) + (if r.Ok? then 1 else 0)
      ensures sectorsRead == old(sectorsRead) + (if r.Ok? then count else 0)
      ensures writeCalls == old(writeCalls) && sectorsWritten == old(sectorsWritten)
    {
      r := ReadRequest(Translate(b, lba, count), buf, works);
      if r.Err? { return; }
      readCalls := readCalls + 1;
      sectorsRead := sectorsRead + count;
    }

    /** Sectors from the front of the caller's buffer; a failed call touches only the blocks they lie in. */
    method Write(lba: nat, count: nat, buf: array<Byte>, fetches: bool, reply: Reply) returns (r: Result<(), Error>)
      requires Valid() && buf != disk
      modifies this, disk
      ensures r.Ok? <==>
        && (b == SECTOR || fetches) && reply.Works? && Enough(b, Translate(b, lba, count), buf.Length)
        && WriteResult(old(disk[..]), b, lba, count, Front(buf[..], count * SECTOR)).Some?
      ensures r.Ok? ==> Some(disk[..]) == WriteResult(old(disk[..]), b, lba, count, Front(buf[..], count * SECTOR))
      ensures r.Err? ==>
        var start := StartBlock(b, lba);
        SameOutside(old(disk[..]), disk[..], Bytes(b, start), Bytes(b, start + Needed(b, lba, count) % U16))
      ensures r.Err? && !reply.Breaks? ==> disk[..] == old(disk[..])
      ensures writeCalls == old(writeCalls) + (if r.Ok? then 1 else 0)
      ensures sectorsWritten == old(sectorsWritten) + (if r.Ok? then count else 0)
      ensures readCalls == old(readCalls) && sectorsRead == old(sectorsRead)
    {
      r := WriteRequest(Translate(b, lba, count), buf, fetches, reply);
      if r.Err? { return; }
      writeCalls := writeCalls + 1;
      sectorsWritten := sectorsWritten + count;
    }
  }
}
