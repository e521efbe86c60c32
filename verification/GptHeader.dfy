/** Parsing a GPT header and verifying its checksum (src/partition.rs): which changes to a sector are noticed. */
module GptHeader {
  import opened Words
  import opened Crc32

  /** "EFI PART" */
  const SIGNATURE: seq<Byte> := [0x45, 0x46, 0x49, 0x20, 0x50, 0x41, 0x52, 0x54]

  /** `GptHeader::parse` succeeds. */
  predicate Parses(raw: seq<Byte>) { |raw| >= 92 && raw[..8] == SIGNATURE }

  /** The header size in bytes 12 to 15. */
  function SizeField(raw: seq<Byte>): nat
    requires |raw| >= 20
  {
    ToNat(MessageBits(raw[12..16]))
  }

  /** A number by its bytes, the highest first. */
  function FromBytes(a: nat, b: nat, c: nat, d: nat): nat { ((a * 256 + b) * 256 + c) * 256 + d }

  /** It is little-endian. */
  lemma SizeFieldIs(raw: seq<Byte>)
    requires |raw| >= 20
    ensures SizeField(raw) == FromBytes(raw[15], raw[14], raw[13], raw[12])
  {
    LittleEndianWord(raw[12..16]);
    FromBigEndianIs(raw[15], raw[14], raw[13], raw[12]);
  }

  /** Four bytes in message order are the word they spell backwards. */
  lemma LittleEndianWord(b: seq<Byte>)
    requires |b| == 4
    ensures MessageBits(b) == FromBigEndian(b[3], b[2], b[1], b[0])
  {
    FirstByte(b, 3);
    FirstByte(b, 2);
    FirstByte(b, 1);
    FirstByte(b, 0);
    assert b[0..] == b && MessageBits(b[4..]) == [];
  }

  lemma FirstByte(b: seq<Byte>, i: nat)
    requires i < |b|
    ensures MessageBits(b[i..]) == BitsOf(b[i], 8) + MessageBits(b[i + 1..])
  {
    assert b[i..][1..] == b[i + 1..];
  }

  /** The stored checksum in bytes 16 to 19. */
  function CrcField(raw: seq<Byte>): Bits
    requires |raw| >= 20
  {
    MessageBits(raw[16..20])
  }

  /** A header's bytes with its own checksum field cleared. */
  function Cleared(header: seq<Byte>): (r: seq<Byte>)
    requires |header| >= 20
    ensures |r| == |header|
  {
    header[..16] + [0, 0, 0, 0] + header[20..]
  }

  /** `verify_crc`; the length is compared after truncation to 32 bits. */
  predicate Verifies(size: nat, stored: Bits, raw: seq<Byte>) {
    && size <= |raw| % 0x1_0000_0000 && size >= 92
    && Checksum(MessageBits(Cleared(raw[..size]))) == stored
  }

  method VerifyCrc(size: nat, stored: Bits, raw: seq<Byte>) returns (ok: bool)
    ensures ok == Verifies(size, stored, raw)
  {
    if |raw| % 0x1_0000_0000 < size || size < 92 {
      return false;
    }
    var copy := new Byte[size](i requires 0 <= i < size <= |raw| => raw[i]);
    copy[16], copy[17], copy[18], copy[19] := 0, 0, 0, 0;
    assert copy[..] == Cleared(raw[..size]);
    var crc := Crc(copy[..]);
    return crc == stored;
  }

  /** A sector that parses as a header and verifies against its own fields. */
  predicate Accepted(raw: seq<Byte>) { Parses(raw) && Verifies(SizeField(raw), CrcField(raw), raw) }

  method Accept(raw: seq<Byte>) returns (ok: bool)
    ensures ok == Accepted(raw)
  {
    if |raw| < 92 || raw[..8] != SIGNATURE { return false; }
    ok := VerifyCrc(SizeField(raw), CrcField(raw), raw);
  }

  /** A changed window that is the checksum field's, or meets neither it nor the size field. */
  predicate OneField(from: nat, to: nat) { to <= 12 || from >= 20 || (16 <= from && to <= 20) }

  /**
    Of an accepted sector, four adjacent bytes of one field change: the new sector is accepted
    exactly when no byte within the header size is different.
  */
  lemma TamperExact(before: seq<Byte>, a: seq<Byte>, b: seq<Byte>, after: seq<Byte>)
    requires |a| == |b| <= 4 && OneField(|before|, |before| + |a|) && Accepted(before + a + after)
    ensures var raw, raw' := before + a + after, before + b + after;
            Accepted(raw') <==> raw'[..SizeField(raw)] == raw[..SizeField(raw)]
  {
    var raw, raw' := before + a + after, before + b + after;
    var size := SizeField(raw);
    SameField(before, a, b, after);
    if raw'[..size] == raw[..size] {
      assert raw'[..8] == raw'[..size][..8] && raw[..8] == raw[..size][..8];
      assert raw'[16..20] == raw'[..size][16..20] && raw[16..20] == raw[..size][16..20];
    } else if 16 <= |before| && |before| + |a| <= 20 {
      StoredDiffers(before, a, b, after, size);
    } else {
      var n := if |before| + |a| <= size then |a| else size - |before|;
      Prefixes(before, a, after, size, n);
      Prefixes(before, b, after, size, n);
      CoveredDiffers(before, a[..n], b[..n], after[..size - |before| - n]);
    }
  }

  lemma SameField(before: seq<Byte>, a: seq<Byte>, b: seq<Byte>, after: seq<Byte>)
    requires |a| == |b| && OneField(|before|, |before| + |a|) && |before + a + after| >= 20
    ensures (before + a + after)[12..16] == (before + b + after)[12..16]
    ensures !(16 <= |before| && |before| + |a| <= 20) ==> (before + a + after)[16..20] == (before + b + after)[16..20]
  {
  }

  lemma Prefixes(before: seq<Byte>, a: seq<Byte>, after: seq<Byte>, size: nat, n: nat)
    requires |before| <= size <= |before + a + after|
    requires n == if |before| + |a| <= size then |a| else size - |before|
    ensures (before + a + after)[..size] == before + a[..n] + after[..size - |before| - n]
  {
  }

  lemma Window(before: seq<Byte>, a: seq<Byte>, after: seq<Byte>)
    requires 16 <= |before| && |before| + |a| <= 20 <= |before + a + after|
    ensures (before + a + after)[16..20][|before| - 16..|before| - 16 + |a|] == a
  {
    var field := (before + a + after)[16..20];
    assert forall k :: 0 <= k < |a| ==> field[|before| - 16 + k] == (before + a + after)[|before| + k] == a[k];
  }

  lemma StoredDiffers(before: seq<Byte>, a: seq<Byte>, b: seq<Byte>, after: seq<Byte>, size: nat)
    requires |a| == |b| && a != b && 16 <= |before| && |before| + |a| <= 20 <= size <= |before + a + after|
    ensures Cleared((before + a + after)[..size]) == Cleared((before + b + after)[..size])
    ensures CrcField(before + a + after) != CrcField(before + b + after)
  {
    var raw, raw' := before + a + after, before + b + after;
    assert Cleared(raw[..size]) == Cleared(raw'[..size]);
    Window(before, a, after);
    Window(before, b, after);
    if CrcField(raw) == CrcField(raw') {
      MessageBitsInjective(raw[16..20], raw'[16..20]);
    }
  }

  lemma CoveredDiffers(before: seq<Byte>, a: seq<Byte>, b: seq<Byte>, after: seq<Byte>)
    requires |a| == |b| <= 4 && a != b && |before + a + after| >= 20 && (|before| >= 20 || |before + a| <= 16)
    ensures Checksum(MessageBits(Cleared(before + a + after))) != Checksum(MessageBits(Cleared(before + b + after)))
  {
    if |before| >= 20 {
      var p := Cleared(before);
      assert Cleared(before + a + after) == p + a + after && Cleared(before + b + after) == p + b + after;
      ChecksumsDiffer(p, a, b, after);
    } else {
      var q := after[..16 - |before + a|] + [0, 0, 0, 0] + after[20 - |before + a|..];
      assert Cleared(before + a + after) == before + a + q && Cleared(before + b + after) == before + b + q;
      ChecksumsDiffer(before, a, b, q);
    }
  }
}
