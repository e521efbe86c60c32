/**
  SHA-256 (src/sha256.rs).

  The reference is FIPS 180-4: padding (section 5.1.1), parsing into 512-bit blocks (5.2.1),
  message schedule and 64 rounds (6.2.2).  The class `Sha256` is the source's streaming hasher,
  proved to give the reference digest of everything fed to it, however it was cut into pieces.
*/
module Sha256 {
  import opened Arithmetic
  import opened Words
  import opened Sha256Rounds

  type Compression = (Regs, Block) -> Regs

  /** The chaining value after all blocks of a byte string (sections 5.2.1 and 6.2.2). */
  function HashBlocks(step: Compression, h: Regs, bytes: seq<Byte>): Regs
    requires |bytes| % 64 == 0
    decreases |bytes|
  {
    if bytes == [] then h else HashBlocks(step, step(h, bytes[..64]), bytes[64..])
  }

  // ---------- Padding, section 5.1.1 ----------

  /** The least number of zero bytes that leaves room for the length in the last block. */
  function ZeroBytes(n: nat): (z: nat)
    ensures z < 64 && (n + 1 + z) % 64 == 56
  {
    (55 - n % 64) % 64
  }

  function Padding(n: nat, lengthField: seq<Byte>): (p: seq<Byte>)
    ensures |p| == 1 + ZeroBytes(n) + |lengthField|
  {
    [0x80] + seq(ZeroBytes(n), i => 0) + lengthField
  }

  /** The padded message, with a length field of 64 bits. */
  function Padded(message: seq<Byte>): (p: seq<Byte>)
    ensures |p| % 64 == 0
  {
    WholeBlocks(|message|);
    message + Padding(|message|, BigEndian64(8 * |message|))
  }

  lemma WholeBlocks(n: nat)
    ensures (n + (1 + ZeroBytes(n) + 8)) % 64 == 0
  {
  }

  function Output(h: Regs): (d: seq<Byte>)
    ensures |d| == 32
  {
    ToBigEndian(h.a) + ToBigEndian(h.b) + ToBigEndian(h.c) + ToBigEndian(h.d) +
    ToBigEndian(h.e) + ToBigEndian(h.f) + ToBigEndian(h.g) + ToBigEndian(h.h)
  }

  /** SHA-256 of a message. */
  function Digest(message: seq<Byte>): seq<Byte> {
    Output(HashBlocks(Compressed, InitialHash(), Padded(message)))
  }

  lemma {:induction false} HashAppend(step: Compression, h: Regs, a: seq<Byte>, b: seq<Byte>)
    requires |a| % 64 == 0 && |b| % 64 == 0
    ensures |a + b| % 64 == 0 && HashBlocks(step, h, a + b) == HashBlocks(step, HashBlocks(step, h, a), b)
    decreases |a|
  {
    if a == [] {
      assert a + b == b;
    } else {
      assert |a| >= 64 && |a[64..]| % 64 == 0;
      assert (a + b)[..64] == a[..64] && (a + b)[64..] == a[64..] + b;
      HashAppend(step, step(h, a[..64]), a[64..], b);
    }
  }

  lemma HashOneMore(step: Compression, h: Regs, a: seq<Byte>, block: Block)
    requires |a| % 64 == 0
    ensures |a + block| % 64 == 0
    ensures HashBlocks(step, h, a + block) == step(HashBlocks(step, h, a), block)
  {
    HashAppend(step, h, a, block);
    assert block[..64] == block && block[64..] == [];
  }

  // ---------- The streaming hasher ----------

  ghost predicate IsCompression(step: Compression) {
    forall x: Regs, b: Block {:trigger Compressed(x, b)} :: step(x, b) == Compressed(x, b)
  }

  lemma TheCompression() returns (step: Compression)
    ensures IsCompression(step)
  {
    step := Compressed;
  }

  class Sha256 {
    var h: Regs
    var buf: array<Byte>
    var bufLen: nat
    var totalBits: nat

    /** Everything fed to the hasher so far. */
    ghost var message: seq<Byte>

    /** The compression function; naming it keeps its definition out of the buffering proofs. */
    ghost const step: Compression

    /** The part of the message already compressed. */
    ghost function Done(): seq<Byte>
      requires bufLen <= |message|
      reads this
    {
      message[..|message| - bufLen]
    }

    ghost predicate Consistent()
      reads this, buf
    {
      && buf.Length == 64 && bufLen <= |message| && bufLen <= 64
      && |Done()| % 64 == 0 && h == HashBlocks(step, InitialHash(), Done())
      && buf[..bufLen] == message[|message| - bufLen..]
    }

    ghost predicate Valid()
      reads this, buf
    {
      && IsCompression(step) && Consistent() && bufLen < 64
      && totalBits == 8 * |message| % 0x1_0000_0000_0000_0000
    }

    constructor ()
      ensures Valid() && fresh(buf) && message == []
    {
      h, bufLen, totalBits := InitialHash(), 0, 0;
      buf := new Byte[64](_ => 0);
      message := [];
      ghost var f := TheCompression();
      step := f;
      new;
      assert buf[..0] == [] && Done() == [];
      assert h == HashBlocks(step, InitialHash(), Done());
    }

    method Compress(block: Block)
      requires IsCompression(step)
      modifies this`h
      ensures h == step(old(h), block)
    {
      h := CompressBlock(h, block);
    }

    /** Compress a whole block of new input. */
    method AbsorbBlock(block: Block)
      requires IsCompression(step) && Consistent() && bufLen == 0
      modifies this`h, this`message
      ensures Consistent() && message == old(message) + block
    {
      assert message[..|message| - 0] == message;
      HashOneMore(step, InitialHash(), message, block);
      Compress(block);
      message := message + block;
      assert message[..|message| - 0] == message;
      assert buf[..0] == message[|message|..];
    }

    /** Compress a buffer that has become full. */
    method FlushBuffer()
      requires IsCompression(step) && Consistent() && bufLen == 64
      modifies this`h, this`bufLen
      ensures Consistent() && bufLen == 0
    {
      var block := buf[..];
      assert message == Done() + block;
      HashOneMore(step, InitialHash(), Done(), block);
      Compress(block);
      bufLen := 0;
      assert Done() == message;
      assert buf[..0] == message[|message|..];
    }

    /** Append input to the buffer; the source's `copy_from_slice`. */
    method FillBuffer(data: seq<Byte>)
      requires Consistent() && bufLen + |data| <= 64
      modifies this`bufLen, this`message, buf
      ensures Consistent() && bufLen == old(bufLen) + |data| && message == old(message) + data
    {
      ghost var done := Done();
      forall i | 0 <= i < |data| {
        buf[bufLen + i] := data[i];
      }
      assert buf[..bufLen + |data|] == old(buf[..bufLen]) + data;
      bufLen, message := bufLen + |data|, message + data;
      assert Done() == done;
    }

    /** Complete a partly filled buffer; what is left starts on a block boundary. */
    method TopUp(data: seq<Byte>) returns (rest: seq<Byte>)
      requires IsCompression(step) && Consistent() && bufLen < 64
      modifies this`h, this`bufLen, this`message, buf
      ensures Consistent() && bufLen < 64 && (rest != [] ==> bufLen == 0)
      ensures message + rest == old(message) + data
    {
      rest := data;
      if bufLen > 0 {
        var need := 64 - bufLen;
        var take := if |rest| < need then |rest| else need;
        FillBuffer(rest[..take]);
        rest := rest[take..];
        assert message + rest == old(message) + data;
        if bufLen == 64 {
          FlushBuffer();
        }
      }
    }

    /** Whole blocks go straight from the input. */
    method AbsorbBlocks(data: seq<Byte>) returns (rest: seq<Byte>)
      requires IsCompression(step) && Consistent() && bufLen < 64 && (data != [] ==> bufLen == 0)
      modifies this`h, this`message
      ensures Consistent() && |rest| < 64 && (rest != [] ==> bufLen == 0) && message + rest == old(message) + data
    {
      rest := data;
      while |rest| >= 64
        invariant Consistent() && (rest != [] ==> bufLen == 0) && message + rest == old(message) + data
      {
        AbsorbBlock(rest[..64]);
        assert message + rest[64..] == old(message) + data;
        rest := rest[64..];
      }
    }

    method Update(data: seq<Byte>)
      requires Valid()
      modifies this, buf
      ensures Valid() && buf == old(buf) && message == old(message) + data
    {
      ModAdd(8 * |message|, 8 * |data|, 0x1_0000_0000_0000_0000);
      totalBits := (totalBits + |data| * 8) % 0x1_0000_0000_0000_0000;
      var rest := TopUp(data);
      rest := AbsorbBlocks(rest);
      if rest != [] {
        FillBuffer(rest);
      }
      assert message == old(message) + data;
    }

    /** Compresses the one or two blocks of padding. */
    method AbsorbTail(tail: seq<Byte>, ghost done: seq<Byte>)
      requires IsCompression(step) && (|tail| == 64 || |tail| == 128)
      requires |done| % 64 == 0 && h == HashBlocks(step, InitialHash(), done)
      modifies this`h
      ensures |done + tail| % 64 == 0 && h == HashBlocks(step, InitialHash(), done + tail)
    {
      HashOneMore(step, InitialHash(), done, tail[..64]);
      Compress(tail[..64]);
      if |tail| == 128 {
        HashOneMore(step, InitialHash(), done + tail[..64], tail[64..128]);
        Compress(tail[64..128]);
        assert done + tail[..64] + tail[64..128] == done + tail;
      } else {
        assert tail[..64] == tail;
      }
    }

    /** Pads what is buffered, compresses one or two more blocks, and gives the digest of the message. */
    method Finalize() returns (out: seq<Byte>)
      requires Valid()
      modifies this`h
      ensures out == Digest(message)
    {
      var tail := PadTail(buf[..bufLen], totalBits);
      TailIsPadding(message, bufLen);
      assert Done() + tail == Padded(message);
      AbsorbTail(tail, Done());
      DigestOf(step, h, message);
      out := Output(h);
    }
  }

  /** The last one or two blocks: the buffered bytes, 0x80, zeros, and the length in bits. */
  function TailOf(buffered: seq<Byte>, totalBits: nat): (t: seq<Byte>)
    requires |buffered| < 64
    ensures |t| == if |buffered| + 9 <= 64 then 64 else 128
  {
    var zeros := (if |buffered| + 9 <= 64 then 56 else 120) - |buffered| - 1;
    buffered + [0x80] + seq(zeros, i => 0) + BigEndian64(totalBits)
  }

  method PadTail(buffered: seq<Byte>, totalBits: nat) returns (padded: seq<Byte>)
    requires |buffered| < 64
    ensures padded == TailOf(buffered, totalBits)
  {
    var tail := new Byte[128](_ => 0);
    var used := |buffered|;
    forall i | 0 <= i < used {
      tail[i] := buffered[i];
    }
    tail[used] := 0x80;
    var lenPos := if used + 1 + 8 <= 64 then 64 - 8 else 128 - 8;
    var field := BigEndian64(totalBits);
    forall i | 0 <= i < 8 {
      tail[lenPos + i] := field[i];
    }
    padded := tail[..lenPos + 8];
    assert padded == buffered + [0x80] + seq(lenPos - used - 1, i => 0) + field;
  }

  lemma TailIsPadding(message: seq<Byte>, used: nat)
    requires used < 64 && used <= |message| && (|message| - used) % 64 == 0
    ensures var n := |message|;
            Padded(message) == message[..n - used] + TailOf(message[n - used..], 8 * n % 0x1_0000_0000_0000_0000)
  {
    var n := |message|;
    BigEndian64Mod(8 * n);
    ZerosNeeded(n, used);
    var zeros: seq<Byte> := seq(ZeroBytes(n), i => 0);
    assert message == message[..n - used] + message[n - used..];
    assert Padded(message) == message[..n - used] + (message[n - used..] + [0x80] + zeros + BigEndian64(8 * n));
  }

  lemma ZerosNeeded(n: nat, used: nat)
    requires used < 64 && used <= n && (n - used) % 64 == 0
    ensures ZeroBytes(n) == (if used + 9 <= 64 then 56 else 120) - used - 1
  {
    DivModIs(n, 64, (n - used) / 64, used);
  }

  lemma {:induction false} SameBlocks(step: Compression, h: Regs, bytes: seq<Byte>)
    requires |bytes| % 64 == 0 && IsCompression(step)
    ensures HashBlocks(step, h, bytes) == HashBlocks(Compressed, h, bytes)
    decreases |bytes|
  {
    if bytes != [] {
      SameBlocks(step, step(h, bytes[..64]), bytes[64..]);
      assert step(h, bytes[..64]) == Compressed(h, bytes[..64]);
    }
  }

  lemma DigestOf(step: Compression, h: Regs, message: seq<Byte>)
    requires IsCompression(step) && |Padded(message)| % 64 == 0 && h == HashBlocks(step, InitialHash(), Padded(message))
    ensures Output(h) == Digest(message)
  {
    SameBlocks(step, InitialHash(), Padded(message));
  }

  // ---------- Main results ----------

  /** Every way of cutting a message into updates gives the digest of the whole. */
  method HashPieces(pieces: seq<seq<Byte>>) returns (d: seq<Byte>)
    ensures d == Digest(Joined(pieces))
  {
    var hasher := new Sha256();
    for i := 0 to |pieces|
      invariant hasher.Valid() && fresh(hasher) && fresh(hasher.buf)
      invariant hasher.message == Joined(pieces[..i])
    {
      hasher.Update(pieces[i]);
      assert pieces[..i + 1][..i] == pieces[..i];
    }
    assert pieces[..|pieces|] == pieces;
    d := hasher.Finalize();
  }

  function Joined(pieces: seq<seq<Byte>>): seq<Byte> {
    if pieces == [] then [] else Joined(pieces[..|pieces| - 1]) + pieces[|pieces| - 1]
  }

  /** `hash`: the one-shot helper. */
  method Hash(data: seq<Byte>) returns (d: seq<Byte>)
    ensures d == Digest(data)
  {
    var hasher := new Sha256();
    hasher.Update(data);
    assert hasher.message == data;
    d := hasher.Finalize();
  }

  /** The padding is that of section 5.1.1: a one bit, the fewest zero bits, and the exact bit length. */
  lemma MinimalZeros(n: nat, zeros: nat)
    requires (n + 1 + zeros + 8) % 64 == 0
    ensures ZeroBytes(n) <= zeros
  {
    var r := (n + 9) % 64;
    ModAdd(n + 9, zeros, 64);
    assert (r + zeros) % 64 == 0;
  }

  lemma PaddingIsMinimal(message: seq<Byte>, zeros: nat)
    requires (|message| + 1 + zeros + 8) % 64 == 0
    ensures ZeroBytes(|message|) <= zeros
    ensures ToNat(BitsOf(8 * |message|, 64)) == 8 * |message| <==> |message| < 0x2000_0000_0000_0000
  {
    MinimalZeros(|message|, zeros);
    BigEndian64Exact(8 * |message|);
  }

  /** The number of a byte string, the first byte the highest. */
  function Number(b: seq<Byte>): nat {
    if b == [] then 0 else 256 * Number(b[..|b| - 1]) + b[|b| - 1]
  }

  /** Word `i` of a digest is register `i`, the highest byte first. */
  lemma OutputIs(h: Regs, i: nat)
    requires i < 8
    ensures Number(Output(h)[4 * i..4 * i + 4]) == ToNat(Register(h, i))
  {
    JoinedAt(ToBigEndian(h.a), ToBigEndian(h.b), ToBigEndian(h.c), ToBigEndian(h.d),
             ToBigEndian(h.e), ToBigEndian(h.f), ToBigEndian(h.g), ToBigEndian(h.h), i);
    BigEndianNumber(Register(h, i));
  }

  lemma JoinedAt(a: seq<Byte>, b: seq<Byte>, c: seq<Byte>, d: seq<Byte>,
                 e: seq<Byte>, f: seq<Byte>, g: seq<Byte>, h: seq<Byte>, i: nat)
    requires |a| == |b| == |c| == |d| == |e| == |f| == |g| == |h| == 4 && i < 8
    ensures (a + b + c + d + e + f + g + h)[4 * i..4 * i + 4] ==
            if i == 0 then a else if i == 1 then b else if i == 2 then c else if i == 3 then d
            else if i == 4 then e else if i == 5 then f else if i == 6 then g else h
  {
  }

  lemma BigEndianNumber(w: Word)
    ensures Number(ToBigEndian(w)) == ToNat(w)
  {
    FourDigits(ToBigEndian(w));
    WordDigits(w);
    Power32();
    ToNatBounded(w);
    Digits(ToNat(w));
  }

  lemma WordDigits(w: Word)
    ensures var r, n := ToBigEndian(w), ToNat(w);
            && r[0] == n / 0x100_0000 % 256 && r[1] == n / 0x1_0000 % 256
            && r[2] == n / 0x100 % 256 && r[3] == n % 256
  {
    ByteNumber(0);
    OctetIs(w, 24);
    OctetIs(w, 16);
    OctetIs(w, 8);
    OctetIs(w, 0);
  }

  lemma NumberLast(a: seq<Byte>, x: Byte)
    ensures Number(a + [x]) == 256 * Number(a) + x
  {
    assert (a + [x])[..|a|] == a;
  }

  /** Four more bytes at the end. */
  lemma NumberMore(a: seq<Byte>, b: seq<Byte>)
    requires |b| == 4
    ensures Number(a + b) == (((Number(a) * 256 + b[0]) * 256 + b[1]) * 256 + b[2]) * 256 + b[3]
  {
    NumberLast(a, b[0]);
    NumberLast(a + [b[0]], b[1]);
    NumberLast(a + [b[0]] + [b[1]], b[2]);
    NumberLast(a + [b[0]] + [b[1]] + [b[2]], b[3]);
    assert a + [b[0]] + [b[1]] + [b[2]] + [b[3]] == a + b;
  }

  lemma FourDigits(r: seq<Byte>)
    requires |r| == 4
    ensures Number(r) == ((r[0] as nat * 256 + r[1]) * 256 + r[2]) * 256 + r[3]
  {
    NumberMore([], r);
    assert [] + r == r;
  }

  lemma Digits(n: nat)
    requires n < 0x1_0000_0000
    ensures ((n / 0x100_0000 % 256 * 256 + n / 0x1_0000 % 256) * 256 + n / 0x100 % 256) * 256 + n % 256 == n
  {
  }

  /**
    The padding of section 5.1.1, stated of the whole: the message, a one bit, zero bits to the end of
    the first block with room for the length, and the length in bits, which has 64 bits.
  */
  predicate IsPadded(message: seq<Byte>, p: seq<Byte>) {
    var n := |message|;
    && |p| % 64 == 0 && n + 9 <= |p| < n + 9 + 64
    && p[..n] == message && p[n] == 0x80 && (forall i :: n < i < |p| - 8 ==> p[i] == 0)
    && Number(p[|p| - 8..]) == 8 * n % 0x1_0000_0000_0000_0000
  }

  lemma PaddedExact(message: seq<Byte>, p: seq<Byte>)
    ensures p == Padded(message) <==> IsPadded(message, p)
  {
    var q := Padded(message);
    PaddedIsPadded(message);
    if IsPadded(message, p) {
      OneMultiple(|message| + 9, |p|, |q|);
      SamePadding(message, p, q);
    }
  }

  lemma OneMultiple(m: nat, p: nat, q: nat)
    requires p % 64 == 0 && q % 64 == 0 && m <= p < m + 64 && m <= q < m + 64
    ensures p == q
  {
  }

  lemma SamePadding(message: seq<Byte>, p: seq<Byte>, q: seq<Byte>)
    requires IsPadded(message, p) && IsPadded(message, q) && |p| == |q|
    ensures p == q
  {
    var n, m := |message|, |p| - 8;
    NumberUnique(p[m..], q[m..]);
    forall i | 0 <= i < |p|
      ensures p[i] == q[i]
    {
      if i < n {
        assert p[i] == p[..n][i] && q[i] == q[..n][i];
      } else if i >= m {
        assert p[i] == p[m..][i - m] && q[i] == q[m..][i - m];
      }
    }
  }

  lemma {:induction false} NumberUnique(a: seq<Byte>, b: seq<Byte>)
    requires |a| == |b| && Number(a) == Number(b)
    ensures a == b
    decreases |a|
  {
    if a != [] {
      var k := |a| - 1;
      NumberUnique(a[..k], b[..k]);
      assert a == a[..k] + [a[k]] && b == b[..k] + [b[k]];
    }
  }

  lemma PaddedIsPadded(message: seq<Byte>)
    ensures IsPadded(message, Padded(message))
  {
    var n, p := |message|, Padded(message);
    LengthField(8 * n);
    assert p[|p| - 8..] == BigEndian64(8 * n);
  }

  /** The length field as a number. */
  lemma LengthField(n: nat)
    ensures Number(BigEndian64(n)) == n % 0x1_0000_0000_0000_0000
  {
    var w := BitsOf(n, 64);
    EightOctets(w);
    Power64();
    NatOfBits(n, 64);
  }

  lemma EightOctets(w: Bits)
    requires |w| == 64
    ensures Number([OctetAt(w, 56), OctetAt(w, 48), OctetAt(w, 40), OctetAt(w, 32),
                    OctetAt(w, 24), OctetAt(w, 16), OctetAt(w, 8), OctetAt(w, 0)]) == ToNat(w)
  {
    var high, low := w[32..], w[..32];
    TwoWords(w);
    NumberJoin(ToBigEndian(high), ToBigEndian(low));
    BigEndianNumber(high);
    BigEndianNumber(low);
    assert w == low + high;
    NatJoin(low, high);
    Power32();
  }

  lemma OctetInHalf(w: Bits, i: nat)
    requires |w| == 64 && i <= 24
    ensures OctetAt(w[32..], i) == OctetAt(w, i + 32) && OctetAt(w[..32], i) == OctetAt(w, i)
  {
    assert w[32..][i..i + 8] == w[i + 32..i + 40] && w[..32][i..i + 8] == w[i..i + 8];
  }

  lemma TwoWords(w: Bits)
    requires |w| == 64
    ensures [OctetAt(w, 56), OctetAt(w, 48), OctetAt(w, 40), OctetAt(w, 32), OctetAt(w, 24), OctetAt(w, 16),
             OctetAt(w, 8), OctetAt(w, 0)] == ToBigEndian(w[32..]) + ToBigEndian(w[..32])
  {
    OctetInHalf(w, 24);
    OctetInHalf(w, 16);
    OctetInHalf(w, 8);
    OctetInHalf(w, 0);
  }

  lemma NumberJoin(a: seq<Byte>, b: seq<Byte>)
    requires |b| == 4
    ensures Number(a + b) == Number(a) * 0x1_0000_0000 + Number(b)
  {
    NumberMore(a, b);
    FourDigits(b);
  }
}
