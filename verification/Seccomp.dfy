/**
  The seccomp filter machine and its allow-list compiler (src/seccomp.rs).

  Results: what each instruction code means, in arithmetic; the program counter of any program
  strictly increases, so the 4096-step cap changes nothing exactly up to 4096 instructions; the
  compiled allow-list decides membership, and the exact lists and syscalls for which the cap spoils
  that are characterised; the filter table is a partial map with at most one filter per process.
*/
module Seccomp {
  import opened Arithmetic
  import opened Wrappers
  import opened Words

  // ---------- Instructions ----------

  /** One classic-BPF instruction. */
  datatype Insn = Insn(code: nat, jt: nat, jf: nat, k: nat)

  function Class(c: nat): nat { c % 8 }              // c & 0x07
  function Size(c: nat): nat { c / 8 % 4 * 8 }       // c & 0x18
  function Mode(c: nat): nat { c / 32 % 8 * 32 }     // c & 0xe0
  function Op(c: nat): nat { c / 16 % 16 * 16 }      // c & 0xf0
  function Src(c: nat): nat { c / 8 % 2 * 8 }        // c & 0x08

  const KILL := 0x8000_0000
  const ALLOW := 0x7fff_0000
  const U32 := 0x1_0000_0000

  // ---------- The data a filter reads ----------

  type SixWords = a: seq<nat> | |a| == 6 witness [0, 0, 0, 0, 0, 0]

  datatype SeccompData = SeccompData(nr: nat, arch: nat, ip: nat, args: SixWords)

  function FromLittleEndian(b: seq<Byte>): nat {
    if b == [] then 0 else b[0] + 256 * FromLittleEndian(b[1..])
  }

  function ArgBytes(args: seq<nat>): (r: seq<Byte>)
    ensures |r| == 8 * |args|
  {
    if args == [] then [] else LittleEndian(args[0], 8) + ArgBytes(args[1..])
  }

  /** The struct as the filter sees it. */
  function Bytes(d: SeccompData): (r: seq<Byte>)
    ensures |r| == 64
  {
    LittleEndian(d.nr, 4) + LittleEndian(d.arch, 4) + LittleEndian(d.ip, 8) + ArgBytes(d.args)
  }

  datatype Loaded = Word(value: nat) | OutOfRange | Overflow

  /** `load_word`: the addition overflows for the last four offsets of a 32-bit word. */
  function LoadWord(d: SeccompData, off: nat): Loaded {
    if off + 4 >= U32 then Overflow
    else if off + 4 > 64 then OutOfRange
    else Word(FromLittleEndian(Bytes(d)[off..off + 4]))
  }

  lemma {:induction false} LittleEndianBack(x: nat, n: nat)
    requires x < Power2(8 * n)
    ensures FromLittleEndian(LittleEndian(x, n)) == x
    decreases n
  {
    if n > 0 {
      BytePower(n);
      assert x / 256 < Power2(8 * (n - 1));
      LittleEndianBack(x / 256, n - 1);
    }
  }

  /** Offset 0 holds the syscall number. */
  lemma LoadNumber(d: SeccompData)
    requires d.nr < U32
    ensures LoadWord(d, 0) == Word(d.nr)
  {
    Power32();
    LittleEndianBack(d.nr, 4);
    assert Bytes(d)[0..4] == LittleEndian(d.nr, 4);
  }

  lemma {:induction false} LittleEndianSplit(x: nat, m: nat, n: nat, p: nat)
    requires p == Power2(8 * m) && p > 0
    ensures LittleEndian(x, m + n) == LittleEndian(x, m) + LittleEndian(Quotient(x, p), n)
    decreases m
  {
    if m > 0 {
      var q := Power2(8 * (m - 1));
      PowerPositive(8 * (m - 1));
      BytePower(m);
      LittleEndianSplit(x / 256, m - 1, n, q);
      DivTwice(x, 256, q);
    }
  }

  /** The two halves of a 64-bit field. */
  lemma Halves(x: nat)
    requires x < 0x1_0000_0000_0000_0000
    ensures FromLittleEndian(LittleEndian(x, 8)[0..4]) == x % U32
    ensures FromLittleEndian(LittleEndian(x, 8)[4..8]) == x / U32
  {
    Power32();
    var low, high := LittleEndian(x, 4), LittleEndian(x / U32, 4);
    LittleEndianSplit(x, 4, 4, U32);
    assert (low + high)[0..4] == low && (low + high)[4..8] == high;
    LittleEndianMod(x, 4);
    LittleEndianBack(x % U32, 4);
    LittleEndianBack(x / U32, 4);
  }

  lemma {:induction false} ArgBytesAt(args: seq<nat>, i: nat)
    requires i < |args|
    ensures ArgBytes(args)[8 * i..8 * i + 8] == LittleEndian(args[i], 8)
    decreases i
  {
    if i == 0 {
      assert (LittleEndian(args[0], 8) + ArgBytes(args[1..]))[0..8] == LittleEndian(args[0], 8);
    } else {
      ArgBytesAt(args[1..], i - 1);
      var tail := ArgBytes(args[1..]);
      assert (LittleEndian(args[0], 8) + tail)[8 * i..8 * i + 8] == tail[8 * (i - 1)..8 * (i - 1) + 8];
    }
  }

  lemma SliceAgain(s: seq<Byte>, i: nat, n: nat, j: nat)
    requires i + n <= |s| && j + 4 <= n
    ensures s[i..i + n][j..j + 4] == s[i + j..i + j + 4]
  {
    var inner, outer := s[i..i + n][j..j + 4], s[i + j..i + j + 4];
    assert forall k :: 0 <= k < 4 ==> inner[k] == outer[k];
  }

  lemma FieldHalves(b: seq<Byte>, off: nat, x: nat)
    requires off + 8 <= |b| && b[off..off + 8] == LittleEndian(x, 8) && x < 0x1_0000_0000_0000_0000
    ensures FromLittleEndian(b[off..off + 4]) == x % U32 && FromLittleEndian(b[off + 4..off + 8]) == x / U32
  {
    Halves(x);
    SliceAgain(b, off, 8, 0);
    SliceAgain(b, off, 8, 4);
  }

  lemma BytesLaidOut(d: SeccompData, i: nat)
    requires i < 6
    ensures Bytes(d)[4..8] == LittleEndian(d.arch, 4) && Bytes(d)[8..16] == LittleEndian(d.ip, 8)
    ensures Bytes(d)[16 + 8 * i..24 + 8 * i] == LittleEndian(d.args[i], 8)
  {
    ArgBytesAt(d.args, i);
    assert Bytes(d)[16..] == ArgBytes(d.args);
    assert Bytes(d)[16 + 8 * i..24 + 8 * i] == Bytes(d)[16..][8 * i..8 * i + 8];
  }

  /** What the other offsets hold: the architecture, and each 64-bit field as a low and a high word. */
  lemma LoadFields(d: SeccompData, i: nat)
    requires d.arch < U32 && d.ip < 0x1_0000_0000_0000_0000 && i < 6 && d.args[i] < 0x1_0000_0000_0000_0000
    ensures LoadWord(d, 4) == Word(d.arch)
    ensures LoadWord(d, 8) == Word(d.ip % U32) && LoadWord(d, 12) == Word(d.ip / U32)
    ensures LoadWord(d, 16 + 8 * i) == Word(d.args[i] % U32) && LoadWord(d, 20 + 8 * i) == Word(d.args[i] / U32)
  {
    BytesLaidOut(d, i);
    Power32();
    LittleEndianBack(d.arch, 4);
    FieldHalves(Bytes(d), 8, d.ip);
    FieldHalves(Bytes(d), 16 + 8 * i, d.args[i]);
  }

  // ---------- The machine ----------

  /** Accumulator, index register, scratch memory and program counter. */
  datatype Machine = Machine(pc: nat, a: nat, x: nat, mem: seq<nat>)

  predicate ValidMachine(m: Machine) { |m.mem| == 16 }

  datatype Next = Continue(m: Machine) | Return(value: nat) | Panic

  function BitOr(a: nat, b: nat): nat {
    ToNat(seq(32, i requires 0 <= i < 32 => BitsOf(a, 32)[i] || BitsOf(b, 32)[i]))
  }

  function BitAnd(a: nat, b: nat): nat { ToNat(And(BitsOf(a, 32), BitsOf(b, 32))) }

  function BitXor(a: nat, b: nat): nat { ToNat(Xor(BitsOf(a, 32), BitsOf(b, 32))) }

  function ShiftPower(n: nat): (p: nat)
    ensures p > 0
  {
    PowerPositive(n % 32);
    Power2(n % 32)
  }

  function Load(d: SeccompData, m: Machine, i: Insn): Next
    requires ValidMachine(m)
  {
    var mode := Mode(i.code);
    if Size(i.code) != 0 then Return(KILL)
    else if mode == 0x20 then
      match LoadWord(d, i.k)
      case Word(v) => Continue(m.(a := v, pc := m.pc + 1))
      case OutOfRange => Continue(m.(a := 0, pc := m.pc + 1))
      case Overflow => Panic
    else if mode == 0x00 then Continue(m.(a := i.k, pc := m.pc + 1))
    else if mode == 0x80 then Continue(m.(a := 64, pc := m.pc + 1))
    else if mode == 0x60 then Continue(m.(a := m.mem[i.k % 16], pc := m.pc + 1))
    else Return(KILL)
  }

  function LoadIndex(m: Machine, i: Insn): Next
    requires ValidMachine(m)
  {
    var mode := Mode(i.code);
    if Size(i.code) != 0 then Return(KILL)
    else if mode == 0x00 then Continue(m.(x := i.k, pc := m.pc + 1))
    else if mode == 0x60 then Continue(m.(x := m.mem[i.k % 16], pc := m.pc + 1))
    else if mode == 0x80 then Continue(m.(x := 64, pc := m.pc + 1))
    else Return(KILL)
  }

  function Operand(m: Machine, i: Insn): nat { if Src(i.code) == 8 then m.x else i.k }

  /** The ALU result, or nothing when the program is killed. */
  function Compute(op: nat, a: nat, rhs: nat): Option<nat> {
    if op == 0x00 then Some(Truncate(a + rhs))
    else if op == 0x10 then Some(Truncate(a - rhs))
    else if op == 0x20 then Some(Truncate(a * rhs))
    else if op == 0x30 then (if rhs == 0 then None else Some(Quotient(a, rhs)))
    else if op == 0x90 then (if rhs == 0 then None else Some(a % rhs))
    else if op == 0x40 then Some(BitOr(a, rhs))
    else if op == 0x50 then Some(BitAnd(a, rhs))
    else if op == 0xa0 then Some(BitXor(a, rhs))
    else if op == 0x60 then Some(Truncate(a * ShiftPower(rhs)))
    else if op == 0x70 then Some(Quotient(a, ShiftPower(rhs)))
    else if op == 0x80 then Some(Truncate(0 - a))
    else None
  }

  function Truncate(x: int): nat { x % U32 }

  function Quotient(a: nat, b: nat): nat
    requires b > 0
  {
    a / b
  }

  /** The branch decision, or nothing for an unknown comparison. */
  function Taken(op: nat, a: nat, rhs: nat): Option<bool> {
    if op == 0x10 then Some(a == rhs)
    else if op == 0x20 then Some(a > rhs)
    else if op == 0x30 then Some(a >= rhs)
    else if op == 0x40 then Some(BitAnd(a, rhs) != 0)
    else None
  }

  function Jump(m: Machine, i: Insn): Next {
    var op := Op(i.code);
    if op == 0x00 then Continue(m.(pc := m.pc + 1 + i.k))
    else match Taken(op, m.a, Operand(m, i))
      case None => Return(KILL)
      case Some(take) => Continue(m.(pc := m.pc + 1 + (if take then i.jt else i.jf)))
  }

  /** One instruction. */
  function Step(d: SeccompData, m: Machine, i: Insn): Next
    requires ValidMachine(m)
  {
    var cls := Class(i.code);
    if cls == 0 then Load(d, m, i)
    else if cls == 1 then LoadIndex(m, i)
    else if cls == 2 then Continue(m.(mem := m.mem[i.k % 16 := m.a], pc := m.pc + 1))
    else if cls == 3 then Continue(m.(mem := m.mem[i.k % 16 := m.x], pc := m.pc + 1))
    else if cls == 4 then
      match Compute(Op(i.code), m.a, Operand(m, i))
      case None => Return(KILL)
      case Some(v) => Continue(m.(a := v, pc := m.pc + 1))
    else if cls == 5 then Jump(m, i)
    else if cls == 6 then
      Return(if Src(i.code) == 8 then m.x else if Mode(i.code) == 0x10 then m.a else i.k)
    else if i.code == 0x07 then Continue(m.(x := m.a, pc := m.pc + 1))
    else if i.code == 0x87 then Continue(m.(a := m.x, pc := m.pc + 1))
    else Return(KILL)
  }

  /** Every instruction that does not stop moves the program counter forward. */
  lemma PcIncreases(d: SeccompData, m: Machine, i: Insn)
    requires ValidMachine(m)
    ensures var n := Step(d, m, i); n.Continue? ==> n.m.pc > m.pc && ValidMachine(n.m)
  {
  }

  // ---------- What each code means ----------

  /** Codes are compared by their low byte, which is all the masks keep. */
  predicate Coded(i: Insn, code: nat) { i.code % 0x100 == code }

  lemma MasksOf(c: nat)
    ensures var l := c % 0x100;
            Class(c) == Class(l) && Size(c) == Size(l) && Mode(c) == Mode(l) && Op(c) == Op(l) && Src(c) == Src(l)
  {
    LowDigits(c, 1, 8, 32);
    LowDigits(c, 8, 4, 8);
    LowDigits(c, 8, 2, 16);
    LowDigits(c, 16, 16, 1);
    LowDigits(c, 32, 8, 1);
  }

  /** A digit of the low byte is a digit of the whole. */
  lemma LowDigits(c: nat, unit: nat, radix: nat, more: nat)
    requires unit > 0 && radix > 0 && more > 0 && unit * (radix * more) == 0x100
    ensures c / unit % radix == c % 0x100 / unit % radix
  {
    var h, l, n := c / 0x100, c % 0x100, radix * more;
    assert c == unit * (n * h) + l by { assert unit * (n * h) == (unit * n) * h; }
    DivModIs(c, unit, n * h + l / unit, l % unit);
    ModShift(l / unit, more * h, radix);
    assert n * h == radix * (more * h);
  }

  lemma ModShift(x: nat, k: nat, n: nat)
    requires n > 0
    ensures (n * k + x) % n == x % n
  {
    assert n * k + x == n * (k + x / n) + x % n by { assert n * (k + x / n) == n * k + n * (x / n); }
    DivModIs(n * k + x, n, k + x / n, x % n);
  }

  /** An arithmetic instruction or jump, on its constant or, with bit 3 set, on the index register. */
  predicate OnEither(i: Insn, code: nat) { Coded(i, code) || Coded(i, code + 8) }

  function Other(m: Machine, i: Insn): nat { if i.code / 8 % 2 == 1 then m.x else i.k }

  lemma PlusEight(code: nat)
    requires code % 16 < 8
    ensures Class(code + 8) == Class(code) && Op(code + 8) == Op(code)
  {
    DivModIs(code + 8, 16, code / 16, code % 16 + 8);
  }

  lemma EitherMasks(i: Insn, code: nat)
    requires OnEither(i, code) && code % 16 < 8
    ensures Class(i.code) == Class(code) && Op(i.code) == Op(code)
  {
    MasksOf(i.code);
    PlusEight(code);
  }

  /** What an arithmetic instruction does, by its operation. */
  lemma AluStep(d: SeccompData, m: Machine, i: Insn, op: nat)
    requires ValidMachine(m) && Class(i.code) == 4 && Op(i.code) == op
    ensures Compute(op, m.a, Other(m, i)).None? ==> Step(d, m, i) == Return(0x8000_0000)
    ensures Compute(op, m.a, Other(m, i)).Some? ==> Sets(d, m, i, Compute(op, m.a, Other(m, i)).value)
  {
  }

  lemma JumpStep(d: SeccompData, m: Machine, i: Insn, op: nat, test: bool)
    requires ValidMachine(m) && Class(i.code) == 5 && Op(i.code) == op != 0
    requires Taken(op, m.a, Other(m, i)) == Some(test)
    ensures Branches(d, m, i, test)
  {
  }

  /** The accumulator gets a value and the next instruction follows. */
  predicate Sets(d: SeccompData, m: Machine, i: Insn, value: nat)
    requires ValidMachine(m)
  {
    Step(d, m, i) == Continue(Machine(m.pc + 1, value, m.x, m.mem))
  }

  /** Loads. */
  lemma LoadCodes(d: SeccompData, m: Machine, i: Insn)
    requires ValidMachine(m)
    ensures Coded(i, 0x00) ==> Sets(d, m, i, i.k)
    ensures Coded(i, 0x20) && i.k + 4 < U32 ==>
              Sets(d, m, i, if LoadWord(d, i.k).Word? then LoadWord(d, i.k).value else 0)
    ensures Coded(i, 0x60) ==> Sets(d, m, i, m.mem[i.k % 16])
    ensures Coded(i, 0x80) ==> Sets(d, m, i, 64)
    ensures Coded(i, 0x01) ==> Step(d, m, i) == Continue(Machine(m.pc + 1, m.a, i.k, m.mem))
    ensures Coded(i, 0x61) ==> Step(d, m, i) == Continue(Machine(m.pc + 1, m.a, m.mem[i.k % 16], m.mem))
    ensures Coded(i, 0x81) ==> Step(d, m, i) == Continue(Machine(m.pc + 1, m.a, 64, m.mem))
  {
    MasksOf(i.code);
  }

  /** Stores and transfers. */
  lemma StoreCodes(d: SeccompData, m: Machine, i: Insn)
    requires ValidMachine(m)
    ensures i.code % 8 == 2 ==> Step(d, m, i) == Continue(Machine(m.pc + 1, m.a, m.x, m.mem[i.k % 16 := m.a]))
    ensures i.code % 8 == 3 ==> Step(d, m, i) == Continue(Machine(m.pc + 1, m.a, m.x, m.mem[i.k % 16 := m.x]))
    ensures i.code == 0x07 ==> Step(d, m, i) == Continue(Machine(m.pc + 1, m.a, m.a, m.mem))
    ensures i.code == 0x87 ==> Step(d, m, i) == Continue(Machine(m.pc + 1, m.x, m.x, m.mem))
  {
  }

  /** Arithmetic. */
  lemma ArithmeticCodes(d: SeccompData, m: Machine, i: Insn)
    requires ValidMachine(m)
    ensures OnEither(i, 0x04) ==> Sets(d, m, i, (m.a + Other(m, i)) % 0x1_0000_0000)
    ensures OnEither(i, 0x14) ==> Sets(d, m, i, (m.a - Other(m, i)) % 0x1_0000_0000)
    ensures OnEither(i, 0x24) ==> Sets(d, m, i, (m.a * Other(m, i)) % 0x1_0000_0000)
    ensures OnEither(i, 0x84) ==> Sets(d, m, i, (0 - m.a) % 0x1_0000_0000)
  {
    if OnEither(i, 0x04) { EitherMasks(i, 0x04); AluStep(d, m, i, 0x00); }
    if OnEither(i, 0x14) { EitherMasks(i, 0x14); AluStep(d, m, i, 0x10); }
    if OnEither(i, 0x24) { EitherMasks(i, 0x24); AluStep(d, m, i, 0x20); }
    if OnEither(i, 0x84) { EitherMasks(i, 0x84); AluStep(d, m, i, 0x80); }
  }

  /** Division; by zero it kills. */
  lemma DivisionCodes(d: SeccompData, m: Machine, i: Insn)
    requires ValidMachine(m)
    ensures OnEither(i, 0x34) && Other(m, i) > 0 ==> Sets(d, m, i, m.a / Other(m, i))
    ensures OnEither(i, 0x94) && Other(m, i) > 0 ==> Sets(d, m, i, m.a % Other(m, i))
    ensures (OnEither(i, 0x34) || OnEither(i, 0x94)) && Other(m, i) == 0 ==> Step(d, m, i) == Return(0x8000_0000)
  {
    if OnEither(i, 0x34) { EitherMasks(i, 0x34); AluStep(d, m, i, 0x30); }
    if OnEither(i, 0x94) { EitherMasks(i, 0x94); AluStep(d, m, i, 0x90); }
  }

  /** Shifts take their distance modulo 32. */
  lemma ShiftCodes(d: SeccompData, m: Machine, i: Insn)
    requires ValidMachine(m)
    ensures Power2(Other(m, i) % 32) > 0
    ensures OnEither(i, 0x64) ==> Sets(d, m, i, m.a * Power2(Other(m, i) % 32) % 0x1_0000_0000)
    ensures OnEither(i, 0x74) ==> Sets(d, m, i, m.a / Power2(Other(m, i) % 32))
  {
    PowerPositive(Other(m, i) % 32);
    if OnEither(i, 0x64) { EitherMasks(i, 0x64); AluStep(d, m, i, 0x60); }
    if OnEither(i, 0x74) { EitherMasks(i, 0x74); AluStep(d, m, i, 0x70); }
  }

  /** Bit `j` of a result is a function of the bits `j` of its operands. */
  predicate Bitwise(r: nat, a: nat, b: nat, f: (bool, bool) -> bool) {
    r < 0x1_0000_0000 && forall j: nat :: j < 32 ==> BinaryDigit(r, j) == f(BinaryDigit(a, j), BinaryDigit(b, j))
  }

  lemma BitwiseOf(w: Bits, a: nat, b: nat, f: (bool, bool) -> bool)
    requires |w| == 32 && forall j :: 0 <= j < 32 ==> w[j] == f(BitsOf(a, 32)[j], BitsOf(b, 32)[j])
    ensures Bitwise(ToNat(w), a, b, f)
  {
    Power32();
    ToNatBounded(w);
    BitsOfToNat(w, 0);
    assert w + Zeros(0) == w;
    forall j: nat | j < 32
      ensures BinaryDigit(ToNat(w), j) == f(BinaryDigit(a, j), BinaryDigit(b, j))
    {
      BitIsDigit(ToNat(w), 32, j);
      BitIsDigit(a, 32, j);
      BitIsDigit(b, 32, j);
    }
  }

  /** Or, and, exclusive or. */
  lemma BitCodes(d: SeccompData, m: Machine, i: Insn)
    requires ValidMachine(m)
    ensures OnEither(i, 0x44) ==> exists r :: Sets(d, m, i, r) && Bitwise(r, m.a, Other(m, i), (p, q) => p || q)
    ensures OnEither(i, 0x54) ==> exists r :: Sets(d, m, i, r) && Bitwise(r, m.a, Other(m, i), (p, q) => p && q)
    ensures OnEither(i, 0xa4) ==> exists r :: Sets(d, m, i, r) && Bitwise(r, m.a, Other(m, i), (p, q) => p != q)
  {
    var b := Other(m, i);
    if OnEither(i, 0x44) {
      EitherMasks(i, 0x44);
      AluStep(d, m, i, 0x40);
      BitwiseOr(m.a, b);
    } else if OnEither(i, 0x54) {
      EitherMasks(i, 0x54);
      AluStep(d, m, i, 0x50);
      BitwiseAnd(m.a, b);
    } else if OnEither(i, 0xa4) {
      EitherMasks(i, 0xa4);
      AluStep(d, m, i, 0xa0);
      BitwiseXor(m.a, b);
    }
  }

  lemma BitwiseOr(a: nat, b: nat)
    ensures Bitwise(BitOr(a, b), a, b, (p, q) => p || q)
  {
    BitwiseOf(seq(32, i requires 0 <= i < 32 => BitsOf(a, 32)[i] || BitsOf(b, 32)[i]), a, b, (p, q) => p || q);
  }

  lemma BitwiseAnd(a: nat, b: nat)
    ensures Bitwise(BitAnd(a, b), a, b, (p, q) => p && q)
  {
    BitwiseOf(And(BitsOf(a, 32), BitsOf(b, 32)), a, b, (p, q) => p && q);
  }

  lemma BitwiseXor(a: nat, b: nat)
    ensures Bitwise(BitXor(a, b), a, b, (p, q) => p != q)
  {
    BitwiseOf(Xor(BitsOf(a, 32), BitsOf(b, 32)), a, b, (p, q) => p != q);
  }

  /** A jump goes `jt` further when the test holds and `jf` further when it does not. */
  predicate Branches(d: SeccompData, m: Machine, i: Insn, test: bool)
    requires ValidMachine(m)
  {
    Step(d, m, i) == Continue(m.(pc := m.pc + 1 + if test then i.jt else i.jf))
  }

  /** Two numbers have a bit in common. */
  predicate CommonBit(a: nat, b: nat) { exists j: nat :: j < 32 && BinaryDigit(a, j) && BinaryDigit(b, j) }

  /** Jumps. */
  lemma JumpCodes(d: SeccompData, m: Machine, i: Insn)
    requires ValidMachine(m)
    ensures OnEither(i, 0x05) ==> Step(d, m, i) == Continue(m.(pc := m.pc + 1 + i.k))
    ensures OnEither(i, 0x15) ==> Branches(d, m, i, m.a == Other(m, i))
    ensures OnEither(i, 0x25) ==> Branches(d, m, i, m.a > Other(m, i))
    ensures OnEither(i, 0x35) ==> Branches(d, m, i, m.a >= Other(m, i))
    ensures OnEither(i, 0x45) ==> Branches(d, m, i, CommonBit(m.a, Other(m, i)))
  {
    var b := Other(m, i);
    if OnEither(i, 0x05) { EitherMasks(i, 0x05); }
    if OnEither(i, 0x15) { EitherMasks(i, 0x15); JumpStep(d, m, i, 0x10, m.a == b); }
    if OnEither(i, 0x25) { EitherMasks(i, 0x25); JumpStep(d, m, i, 0x20, m.a > b); }
    if OnEither(i, 0x35) { EitherMasks(i, 0x35); JumpStep(d, m, i, 0x30, m.a >= b); }
    if OnEither(i, 0x45) {
      EitherMasks(i, 0x45);
      CommonBitAnd(m.a, b);
      JumpStep(d, m, i, 0x40, CommonBit(m.a, b));
    }
  }

  lemma CommonBitAnd(a: nat, b: nat)
    ensures BitAnd(a, b) != 0 <==> CommonBit(a, b)
  {
    BitwiseAnd(a, b);
    var r := BitAnd(a, b);
    if r != 0 {
      Power32();
      var j := HasDigit(r, 32);
    } else if j: nat :| j < 32 && BinaryDigit(a, j) && BinaryDigit(b, j) {
      assert BinaryDigit(r, j);
      NoDigit(j);
    }
  }

  lemma NoDigit(j: nat)
    ensures !BinaryDigit(0, j)
  {
    PowerPositive(j);
  }

  lemma {:induction false} HasDigit(r: nat, n: nat) returns (j: nat)
    requires 0 < r < Power2(n) && n <= 32
    ensures j < n && BinaryDigit(r, j)
    decreases n
  {
    if r % 2 == 1 {
      j := 0;
    } else {
      var k := HasDigit(r / 2, n - 1);
      j := k + 1;
      PowerPositive(k);
      DivTwice(r, 2, Power2(k));
    }
  }

  /** Other loads, operations, comparisons and transfers kill. */
  lemma OtherCodes(d: SeccompData, m: Machine, i: Insn)
    requires ValidMachine(m)
    ensures i.code % 8 == 0 && i.code % 0x100 !in {0x00, 0x20, 0x60, 0x80} ==> Step(d, m, i) == Return(0x8000_0000)
    ensures i.code % 8 == 1 && i.code % 0x100 !in {0x01, 0x61, 0x81} ==> Step(d, m, i) == Return(0x8000_0000)
    ensures i.code % 8 == 4 && i.code / 16 % 16 > 10 ==> Step(d, m, i) == Return(0x8000_0000)
    ensures i.code % 8 == 5 && i.code / 16 % 16 > 4 ==> Step(d, m, i) == Return(0x8000_0000)
    ensures i.code % 8 == 7 && i.code !in {0x07, 0x87} ==> Step(d, m, i) == Return(0x8000_0000)
  {
    if i.code % 8 < 2 { LoadMasks(i.code); }
  }

  /** The low byte of a load is its class, size and mode. */
  lemma LoadMasks(c: nat)
    requires c % 8 < 2
    ensures c % 0x100 == Class(c) + Size(c) + Mode(c)
  {
    MasksOf(c);
    LowByte(c % 0x100);
  }

  lemma LowByte(l: nat)
    requires l < 0x100
    ensures l == Class(l) + Size(l) + Mode(l)
  {
    DivTwice(l, 8, 4);
    assert l / 8 == 4 * (l / 32) + l / 8 % 4;
  }

  /**
    What a return instruction answers: the index register or its constant.  The accumulator is
    never chosen, because the test for it asks for a bit the mode mask removes.
  */
  lemma ReturnExact(d: SeccompData, m: Machine, i: Insn)
    requires ValidMachine(m) && Class(i.code) == 6
    ensures Mode(i.code) != 0x10
    ensures Step(d, m, i) == Return(Operand(m, i))
  {
  }

  /** The instruction documented to return the accumulator returns its constant. */
  lemma ReturnAIgnoresA(d: SeccompData, m: Machine, k: nat)
    requires ValidMachine(m)
    ensures Step(d, m, Insn(0x16, 0, 0, k)) == Return(k)
  {
    ReturnExact(d, m, Insn(0x16, 0, 0, k));
  }

  /** An absolute load whose end leaves 32 bits. */
  predicate WildLoad(i: Insn) { Class(i.code) == 0 && Size(i.code) == 0 && Mode(i.code) == 0x20 && i.k + 4 >= U32 }

  lemma StepPanics(d: SeccompData, m: Machine, i: Insn)
    requires ValidMachine(m)
    ensures Step(d, m, i) == Panic <==> WildLoad(i)
  {
  }

  // ---------- Running a program ----------

  /** What a run answers, and the instructions it took. */
  datatype Verdict = Verdict(result: Next, steps: nat)

  /** `run` from a machine state, with `steps` instructions already taken. */
  function Run(prog: seq<Insn>, d: SeccompData, m: Machine, steps: nat): (v: Verdict)
    requires ValidMachine(m)
    decreases 4096 - steps
  {
    if m.pc >= |prog| || steps >= 4096 then Verdict(Return(KILL), steps)
    else
      PcIncreases(d, m, prog[m.pc]);
      match Step(d, m, prog[m.pc])
      case Continue(m') => Run(prog, d, m', steps + 1)
      case stop => Verdict(stop, steps + 1)
  }

  /** The same without a cap; it ends because the program counter increases. */
  function RunFully(prog: seq<Insn>, d: SeccompData, m: Machine): Next
    requires ValidMachine(m)
    decreases if m.pc < |prog| then |prog| - m.pc else 0
  {
    if m.pc >= |prog| then Return(KILL)
    else
      PcIncreases(d, m, prog[m.pc]);
      match Step(d, m, prog[m.pc])
      case Continue(m') => RunFully(prog, d, m')
      case stop => stop
  }

  function Initial(): Machine { Machine(0, 0, 0, seq(16, i => 0)) }

  function Evaluate(prog: seq<Insn>, d: SeccompData): Next { Run(prog, d, Initial(), 0).result }

  /** The interpreter loop. */
  method RunVm(prog: seq<Insn>, d: SeccompData) returns (v: Next)
    ensures v == Evaluate(prog, d)
  {
    var m := Initial();
    var steps := 0;
    while m.pc < |prog| && steps < 4096
      invariant ValidMachine(m) && steps <= 4096
      invariant Run(prog, d, m, steps) == Run(prog, d, Initial(), 0)
      decreases 4096 - steps
    {
      PcIncreases(d, m, prog[m.pc]);
      var next := Step(d, m, prog[m.pc]);
      if !next.Continue? {
        return next;
      }
      m, steps := next.m, steps + 1;
    }
    v := Return(KILL);
  }

  /** The machine after `n` more instructions, if the program runs that long. */
  function After(prog: seq<Insn>, d: SeccompData, m: Machine, n: nat): (r: Option<Machine>)
    requires ValidMachine(m)
    ensures r.Some? ==> ValidMachine(r.value)
    decreases n
  {
    if n == 0 then Some(m)
    else if m.pc >= |prog| then None
    else
      PcIncreases(d, m, prog[m.pc]);
      match Step(d, m, prog[m.pc])
      case Continue(m') => After(prog, d, m', n - 1)
      case stop => None
  }

  /** After `n` instructions the next one is a wild load. */
  predicate MeetsWildLoad(prog: seq<Insn>, d: SeccompData, m: Machine, n: nat)
    requires ValidMachine(m)
  {
    var r := After(prog, d, m, n);
    r.Some? && r.value.pc < |prog| && WildLoad(prog[r.value.pc])
  }

  lemma {:induction false} RunPanics(prog: seq<Insn>, d: SeccompData, m: Machine, steps: nat)
    requires ValidMachine(m) && steps <= 4096
    ensures Run(prog, d, m, steps).result == Panic <==>
            exists n: nat :: n < 4096 - steps && MeetsWildLoad(prog, d, m, n)
    decreases 4096 - steps
  {
    if m.pc < |prog| && steps < 4096 {
      var i := prog[m.pc];
      PcIncreases(d, m, i);
      StepPanics(d, m, i);
      assert MeetsWildLoad(prog, d, m, 0) <==> WildLoad(i);
      var next := Step(d, m, i);
      if next.Continue? {
        RunPanics(prog, d, next.m, steps + 1);
        if n: nat :| n < 4096 - steps && MeetsWildLoad(prog, d, m, n) {
          assert n > 0 && MeetsWildLoad(prog, d, next.m, n - 1);
        }
        if n: nat :| n < 4096 - (steps + 1) && MeetsWildLoad(prog, d, next.m, n) {
          assert MeetsWildLoad(prog, d, m, n + 1);
        }
      }
    }
  }

  /** A filter run panics exactly when one of its first 4096 instructions is a wild load. */
  lemma PanicExact(prog: seq<Insn>, d: SeccompData)
    ensures Evaluate(prog, d) == Panic <==> exists n: nat :: n < 4096 && MeetsWildLoad(prog, d, Initial(), n)
  {
    RunPanics(prog, d, Initial(), 0);
  }

  /** After `n` instructions the next one returns `v`. */
  predicate StopsWith(prog: seq<Insn>, d: SeccompData, m: Machine, n: nat, v: nat)
    requires ValidMachine(m)
  {
    var r := After(prog, d, m, n);
    r.Some? && r.value.pc < |prog| && Step(d, r.value, prog[r.value.pc]) == Return(v)
  }

  /** After `n` instructions the program counter has left the program. */
  predicate RunsOff(prog: seq<Insn>, d: SeccompData, m: Machine, n: nat)
    requires ValidMachine(m)
  {
    var r := After(prog, d, m, n);
    r.Some? && r.value.pc >= |prog|
  }

  /** How a run of at most `left` more instructions can answer `v`. */
  ghost predicate Answers(prog: seq<Insn>, d: SeccompData, m: Machine, left: nat, v: nat)
    requires ValidMachine(m)
  {
    || (exists n: nat :: n < left && StopsWith(prog, d, m, n, v))
    || (v == 0x8000_0000 && exists n: nat :: n <= left && RunsOff(prog, d, m, n))
    || (v == 0x8000_0000 && After(prog, d, m, left).Some?)
  }

  lemma AnswersLater(prog: seq<Insn>, d: SeccompData, m: Machine, next: Machine, left: nat, v: nat)
    requires ValidMachine(m) && ValidMachine(next) && m.pc < |prog| && left > 0
    requires Step(d, m, prog[m.pc]) == Continue(next)
    ensures Answers(prog, d, m, left, v) <==> Answers(prog, d, next, left - 1, v)
  {
    assert After(prog, d, m, left) == After(prog, d, next, left - 1);
    if n: nat :| n < left && StopsWith(prog, d, m, n, v) {
      assert n > 0 && StopsWith(prog, d, next, n - 1, v);
    }
    if n: nat :| n < left - 1 && StopsWith(prog, d, next, n, v) { assert StopsWith(prog, d, m, n + 1, v); }
    if n: nat :| n <= left && RunsOff(prog, d, m, n) { assert n > 0 && RunsOff(prog, d, next, n - 1); }
    if n: nat :| n <= left - 1 && RunsOff(prog, d, next, n) { assert RunsOff(prog, d, m, n + 1); }
  }

  lemma {:induction false} RunAnswers(prog: seq<Insn>, d: SeccompData, m: Machine, steps: nat, v: nat)
    requires ValidMachine(m) && steps <= 4096
    ensures Run(prog, d, m, steps).result == Return(v) <==> Answers(prog, d, m, 4096 - steps, v)
    decreases 4096 - steps
  {
    if m.pc >= |prog| {
      assert RunsOff(prog, d, m, 0);
    } else if steps < 4096 {
      var i := prog[m.pc];
      PcIncreases(d, m, i);
      if Step(d, m, i).Continue? {
        RunAnswers(prog, d, Step(d, m, i).m, steps + 1, v);
        AnswersLater(prog, d, m, Step(d, m, i).m, 4096 - steps, v);
      } else {
        assert StopsWith(prog, d, m, 0, v) <==> Step(d, m, i) == Return(v);
      }
    }
  }

  /**
    A filter answers `v` exactly when a return among its first 4096 instructions does; it answers
    kill, too, when it runs off its end or is not done after 4096 instructions.
  */
  lemma EvaluateExact(prog: seq<Insn>, d: SeccompData, v: nat)
    ensures Evaluate(prog, d) == Return(v) <==> Answers(prog, d, Machine(0, 0, 0, seq(16, i => 0)), 4096, v)
  {
    assert Initial().mem == seq(16, i => 0);
    RunAnswers(prog, d, Initial(), 0, v);
  }

  lemma {:induction false} CapUnreached(prog: seq<Insn>, d: SeccompData, m: Machine, steps: nat)
    requires ValidMachine(m) && |prog| <= 4096 && steps <= m.pc
    ensures Run(prog, d, m, steps).result == RunFully(prog, d, m)
    decreases 4096 - steps
  {
    if m.pc < |prog| {
      PcIncreases(d, m, prog[m.pc]);
      var next := Step(d, m, prog[m.pc]);
      if next.Continue? {
        CapUnreached(prog, d, next.m, steps + 1);
      }
    }
  }

  /** `n` stores, then a return of ALLOW. */
  function Stores(n: nat): (p: seq<Insn>)
    ensures |p| == n
  {
    seq(n, i => Insn(0x02, 0, 0, 0))
  }

  lemma {:induction false} StoresRun(n: nat, d: SeccompData, m: Machine, steps: nat)
    requires ValidMachine(m) && m.a == 0 && m.pc == steps <= n && n >= 4096 && steps <= 4096
    ensures var p := Stores(n) + [Insn(0x06, 0, 0, ALLOW)];
            RunFully(p, d, m) == Return(ALLOW) && Run(p, d, m, steps).result == Return(KILL)
    decreases n - steps
  {
    var p := Stores(n) + [Insn(0x06, 0, 0, ALLOW)];
    if steps < n {
      var m' := m.(mem := m.mem[0 := 0], pc := m.pc + 1);
      assert Step(d, m, p[m.pc]) == Continue(m');
      if steps < 4096 {
        StoresRun(n, d, m', steps + 1);
      } else {
        StoresFinish(n, d, m');
      }
    }
  }

  lemma {:induction false} StoresFinish(n: nat, d: SeccompData, m: Machine)
    requires ValidMachine(m) && m.a == 0 && m.pc <= n
    ensures RunFully(Stores(n) + [Insn(0x06, 0, 0, ALLOW)], d, m) == Return(ALLOW)
    decreases n - m.pc
  {
    var p := Stores(n) + [Insn(0x06, 0, 0, ALLOW)];
    if m.pc < n {
      var m' := m.(mem := m.mem[0 := 0], pc := m.pc + 1);
      assert Step(d, m, p[m.pc]) == Continue(m');
      StoresFinish(n, d, m');
    }
  }

  /** The cap changes no program of a given length exactly when that length is at most 4096. */
  lemma CapExact(n: nat)
    ensures (forall prog: seq<Insn>, d: SeccompData | |prog| == n :: Evaluate(prog, d) == RunFully(prog, d, Initial()))
            <==> n <= 4096
  {
    if n <= 4096 {
      forall prog: seq<Insn>, d: SeccompData | |prog| == n
        ensures Evaluate(prog, d) == RunFully(prog, d, Initial())
      {
        CapUnreached(prog, d, Initial(), 0);
      }
    } else {
      var d := SeccompData(0, 0, 0, [0, 0, 0, 0, 0, 0]);
      var prog := Stores(n - 1) + [Insn(0x06, 0, 0, ALLOW)];
      StoresRun(n - 1, d, Initial(), 0);
      assert Evaluate(prog, d) != RunFully(prog, d, Initial());
    }
  }

  // ---------- The allow-list compiler ----------

  const LoadNr := Insn(0x20, 0, 0, 0)

  function Test(nr: nat): Insn { Insn(0x15, 0, 1, nr) }

  function Ret(k: nat): Insn { Insn(0x06, 0, 0, k) }

  function Tests(allowed: seq<nat>): (p: seq<Insn>)
    ensures |p| == 2 * |allowed|
    ensures forall i :: 0 <= i < |allowed| ==> p[2 * i] == Test(allowed[i]) && p[2 * i + 1] == Ret(ALLOW)
  {
    if allowed == [] then []
    else Tests(allowed[..|allowed| - 1]) + [Test(allowed[|allowed| - 1]), Ret(ALLOW)]
  }

  function Allowlist(allowed: seq<nat>, default: nat): seq<Insn> {
    [LoadNr] + Tests(allowed) + [Ret(default)]
  }

  method BuildAllowlist(allowed: seq<nat>, default: nat) returns (prog: seq<Insn>)
    ensures prog == Allowlist(allowed, default)
  {
    prog := [Insn(0x20, 0, 0, 0)];
    for i := 0 to |allowed|
      invariant prog == [LoadNr] + Tests(allowed[..i])
    {
      prog := prog + [Insn(0x15, 0, 1, allowed[i])];
      prog := prog + [Insn(0x06, 0, 0, ALLOW)];
      assert allowed[..i + 1][..i] == allowed[..i];
    }
    assert allowed[..|allowed|] == allowed;
    prog := prog + [Insn(0x06, 0, 0, default)];
  }

  /** Position of the first occurrence, or the length. */
  function First(allowed: seq<nat>, nr: nat, i: nat): (j: nat)
    requires i <= |allowed|
    ensures i <= j <= |allowed| && (j < |allowed| ==> allowed[j] == nr)
    ensures forall k :: i <= k < j ==> allowed[k] != nr
    decreases |allowed| - i
  {
    if i == |allowed| || allowed[i] == nr then i else First(allowed, nr, i + 1)
  }

  /** The answer, and the steps, from test `i` on: the list is searched one test per step. */
  function Search(allowed: seq<nat>, default: nat, nr: nat, i: nat, steps: nat): Verdict
    requires i <= |allowed|
  {
    var j := First(allowed, nr, i);
    var last := steps + (j - i) + (if j < |allowed| then 2 else 1);
    if last > 4096 then Verdict(Return(KILL), 4096)
    else Verdict(Return(if j < |allowed| then ALLOW else default), last)
  }

  lemma TestRuns(prog: seq<Insn>, d: SeccompData, m: Machine, m': Machine, k: nat, steps: nat)
    requires ValidMachine(m) && m.pc < |prog| && prog[m.pc] == Test(k) && steps < 4096
    requires m' == m.(pc := m.pc + (if m.a == k then 1 else 2))
    ensures Run(prog, d, m, steps) == Run(prog, d, m', steps + 1)
  {
    TestStep(d, m, k);
  }

  lemma {:induction false} SearchRuns(allowed: seq<nat>, default: nat, d: SeccompData, m: Machine, i: nat, steps: nat)
    requires ValidMachine(m) && i <= |allowed| && m.pc == 1 + 2 * i && steps <= 4096
    ensures Run(Allowlist(allowed, default), d, m, steps) == Search(allowed, default, m.a, i, steps)
    decreases |allowed| - i
  {
    var prog := Allowlist(allowed, default);
    if steps < 4096 {
      if i == |allowed| {
        assert prog[m.pc] == Ret(default);
        Returns(prog, d, m, default, steps);
      } else {
        assert prog[m.pc] == Test(allowed[i]) && prog[m.pc + 1] == Ret(ALLOW);
        var m' := m.(pc := m.pc + (if m.a == allowed[i] then 1 else 2));
        TestRuns(prog, d, m, m', allowed[i], steps);
        if m.a == allowed[i] {
          Returns(prog, d, m', ALLOW, steps + 1);
        } else {
          SearchRuns(allowed, default, d, m', i + 1, steps + 1);
        }
      }
    }
  }

  lemma Returns(prog: seq<Insn>, d: SeccompData, m: Machine, k: nat, steps: nat)
    requires ValidMachine(m) && m.pc < |prog| && prog[m.pc] == Ret(k) && steps <= 4096
    ensures Run(prog, d, m, steps) ==
            if steps < 4096 then Verdict(Return(k), steps + 1) else Verdict(Return(KILL), steps)
  {
    assert Step(d, m, Ret(k)) == Return(k);
  }

  lemma TestStep(d: SeccompData, m: Machine, k: nat)
    requires ValidMachine(m)
    ensures Step(d, m, Test(k)) == Continue(m.(pc := m.pc + 1 + (if m.a == k then 0 else 1)))
  {
  }

  /** What the compiled filter answers for every list, default and syscall number, and in how many steps. */
  lemma AllowlistRuns(allowed: seq<nat>, default: nat, d: SeccompData)
    requires d.nr < U32
    ensures Run(Allowlist(allowed, default), d, Initial(), 0) == Search(allowed, default, d.nr, 0, 1)
  {
    LoadNumber(d);
    var m := Initial().(a := d.nr, pc := 1);
    assert Step(d, Initial(), LoadNr) == Continue(m);
    SearchRuns(allowed, default, d, m, 0, 1);
  }

  /** The filter decides membership exactly when the cap is not reached before the answer. */
  lemma AllowlistExact(allowed: seq<nat>, default: nat, d: SeccompData)
    requires d.nr < U32
    ensures var j := First(allowed, d.nr, 0);
            Evaluate(Allowlist(allowed, default), d) == Return(if d.nr in allowed then ALLOW else default)
            <==> if j < |allowed| then j < 4094 else |allowed| <= 4094 || default == KILL
  {
    AllowlistRuns(allowed, default, d);
    var j := First(allowed, d.nr, 0);
    assert d.nr in allowed <==> j < |allowed|;
  }

  /** In particular for every list of at most 4094 entries; a match at index `i` takes `i + 3` steps. */
  lemma AllowlistCorrect(allowed: seq<nat>, default: nat, d: SeccompData)
    requires d.nr < U32 && |allowed| <= 4094
    ensures Evaluate(Allowlist(allowed, default), d) == Return(if d.nr in allowed then ALLOW else default)
    ensures var i := First(allowed, d.nr, 0);
            Run(Allowlist(allowed, default), d, Initial(), 0).steps == if i < |allowed| then i + 3 else |allowed| + 2
  {
    AllowlistRuns(allowed, default, d);
    AllowlistExact(allowed, default, d);
  }

  // ---------- A filter that needs comparisons ----------

  /** Load the number; below `lo` or above `hi` skip to the default; otherwise allow. */
  function RangeFilter(lo: nat, hi: nat, default: nat): seq<Insn> {
    [Insn(0x20, 0, 0, 0), Insn(0x35, 0, 2, lo), Insn(0x25, 1, 0, hi), Insn(0x06, 0, 0, 0x7fff_0000),
     Insn(0x06, 0, 0, default)]
  }

  /** It allows exactly the calls from `lo` to `hi`. */
  lemma RangeExact(lo: nat, hi: nat, default: nat, d: SeccompData)
    requires d.nr < U32
    ensures Evaluate(RangeFilter(lo, hi, default), d) == Return(if lo <= d.nr <= hi then 0x7fff_0000 else default)
  {
    var p := RangeFilter(lo, hi, default);
    var m := Initial().(a := d.nr, pc := 1);
    LoadNumber(d);
    LoadCodes(d, Initial(), p[0]);
    RunOne(p, d, Initial(), m, 0);
    RangeTests(p, lo, hi, default, d, m);
  }

  lemma RangeTests(p: seq<Insn>, lo: nat, hi: nat, default: nat, d: SeccompData, m: Machine)
    requires ValidMachine(m) && m.pc == 1 && |p| == 5 && p[1] == Insn(0x35, 0, 2, lo) && p[2] == Insn(0x25, 1, 0, hi)
    requires p[3] == Insn(0x06, 0, 0, 0x7fff_0000) && p[4] == Insn(0x06, 0, 0, default)
    ensures Run(p, d, m, 1).result == Return(if lo <= m.a <= hi then 0x7fff_0000 else default)
  {
    JumpCodes(d, m, p[1]);
    if m.a < lo {
      RunOne(p, d, m, m.(pc := 4), 1);
      Returns(p, d, m.(pc := 4), default, 2);
    } else {
      RunOne(p, d, m, m.(pc := 2), 1);
      RangeAbove(p, hi, default, d, m.(pc := 2));
    }
  }

  lemma RangeAbove(p: seq<Insn>, hi: nat, default: nat, d: SeccompData, m: Machine)
    requires ValidMachine(m) && m.pc == 2 && |p| == 5 && p[2] == Insn(0x25, 1, 0, hi)
    requires p[3] == Insn(0x06, 0, 0, 0x7fff_0000) && p[4] == Insn(0x06, 0, 0, default)
    ensures Run(p, d, m, 2).result == Return(if m.a <= hi then 0x7fff_0000 else default)
  {
    JumpCodes(d, m, p[2]);
    if m.a <= hi {
      RunOne(p, d, m, m.(pc := 3), 2);
      Returns(p, d, m.(pc := 3), 0x7fff_0000, 3);
    } else {
      RunOne(p, d, m, m.(pc := 4), 2);
      Returns(p, d, m.(pc := 4), default, 3);
    }
  }

  lemma RunOne(prog: seq<Insn>, d: SeccompData, m: Machine, m': Machine, steps: nat)
    requires ValidMachine(m) && ValidMachine(m') && m.pc < |prog| && steps < 4096
    requires Step(d, m, prog[m.pc]) == Continue(m')
    ensures Run(prog, d, m, steps) == Run(prog, d, m', steps + 1)
  {
  }

  // ---------- The filter table ----------

  datatype Filter = Filter(pid: nat, program: seq<Insn>)

  predicate Holds(slot: Option<Filter>, pid: nat) { slot.Some? && slot.value.pid == pid }

  /** `for_pid`: the first filter of a process. */
  function Lookup(slots: seq<Option<Filter>>, pid: nat): Option<seq<Insn>> {
    if slots == [] then None
    else if Holds(slots[0], pid) then Some(slots[0].value.program)
    else Lookup(slots[1..], pid)
  }

  /** At most one filter per process. */
  predicate OnePerPid(slots: seq<Option<Filter>>) {
    forall i, j :: 0 <= i < j < |slots| && slots[i].Some? && slots[j].Some? ==> slots[i].value.pid != slots[j].value.pid
  }

  lemma {:induction false} LookupAt(slots: seq<Option<Filter>>, pid: nat, i: nat)
    requires OnePerPid(slots) && i < |slots| && Holds(slots[i], pid)
    ensures Lookup(slots, pid) == Some(slots[i].value.program)
    decreases i
  {
    if i > 0 { LookupAt(slots[1..], pid, i - 1); }
  }

  lemma {:induction false} LookupNone(slots: seq<Option<Filter>>, pid: nat)
    ensures Lookup(slots, pid).None? <==> forall i :: 0 <= i < |slots| ==> !Holds(slots[i], pid)
    decreases |slots|
  {
    if slots != [] {
      LookupNone(slots[1..], pid);
      if Lookup(slots, pid).None? {
        forall i | 0 <= i < |slots| ensures !Holds(slots[i], pid) {
          if i > 0 { assert slots[1..][i - 1] == slots[i]; }
        }
      }
    }
  }

  /** Changing a slot that does not hold a process, before and after, leaves its filter alone. */
  lemma {:induction false} LookupOther(slots: seq<Option<Filter>>, i: nat, slot: Option<Filter>, pid: nat)
    requires i < |slots| && !Holds(slots[i], pid) && !Holds(slot, pid)
    ensures Lookup(slots[i := slot], pid) == Lookup(slots, pid)
    decreases i
  {
    if i == 0 {
      assert slots[0 := slot][1..] == slots[1..];
    } else {
      assert slots[i := slot][1..] == slots[1..][i - 1 := slot];
      LookupOther(slots[1..], i - 1, slot, pid);
    }
  }

  predicate Full(slots: seq<Option<Filter>>) { forall i :: 0 <= i < |slots| ==> slots[i].Some? }

  class FilterTable {
    const slots: array<Option<Filter>>

    ghost predicate Valid()
      reads slots
    {
      slots.Length == 16 && OnePerPid(slots[..])
    }

    constructor ()
      ensures Valid() && fresh(slots) && forall pid :: Lookup(slots[..], pid) == None
    {
      slots := new Option<Filter>[16](_ => None);
      new;
      forall pid ensures Lookup(slots[..], pid) == None { LookupNone(slots[..], pid); }
    }

    /** Replaces a process's filter, or adds one while a slot is free; other processes keep theirs. */
    method Install(pid: nat, prog: seq<Insn>) returns (ok: bool)
      requires Valid()
      modifies slots
      ensures Valid()
      ensures forall q :: q != pid ==> Lookup(slots[..], q) == old(Lookup(slots[..], q))
      ensures ok ==> Lookup(slots[..], pid) == Some(prog)
      ensures !ok <==> old(Lookup(slots[..], pid)) == None && Full(old(slots[..]))
      ensures !ok ==> slots[..] == old(slots[..])
    {
      ghost var before := slots[..];
      LookupNone(before, pid);
      for i := 0 to 16
        invariant slots[..] == before
        invariant forall k :: 0 <= k < i ==> !Holds(slots[k], pid)
      {
        if slots[i].Some? && slots[i].value.pid == pid {
          Put(before, i, Filter(pid, prog));
          slots[i] := Some(Filter(pid, prog));
          assert slots[..] == before[i := Some(Filter(pid, prog))];
          return true;
        }
      }
      for i := 0 to 16
        invariant slots[..] == before
        invariant forall k :: 0 <= k < i ==> slots[k].Some?
      {
        if slots[i].None? {
          Put(before, i, Filter(pid, prog));
          slots[i] := Some(Filter(pid, prog));
          assert slots[..] == before[i := Some(Filter(pid, prog))];
          return true;
        }
      }
      return false;
    }

    /** Removes a process's filter; other processes keep theirs. */
    method Remove(pid: nat)
      requires Valid()
      modifies slots
      ensures Valid() && Lookup(slots[..], pid) == None
      ensures forall q :: q != pid ==> Lookup(slots[..], q) == old(Lookup(slots[..], q))
    {
      ghost var before := slots[..];
      for i := 0 to 16
        invariant slots[..] == before
        invariant forall k :: 0 <= k < i ==> !Holds(slots[k], pid)
      {
        if slots[i].Some? && slots[i].value.pid == pid {
          Drop(before, i, pid);
          slots[i] := None;
          assert slots[..] == before[i := None];
          return;
        }
      }
      LookupNone(before, pid);
    }
  }

  lemma Put(slots: seq<Option<Filter>>, i: nat, f: Filter)
    requires OnePerPid(slots) && i < |slots|
    requires slots[i].Some? ==> slots[i].value.pid == f.pid
    requires forall k :: 0 <= k < |slots| && k != i ==> !Holds(slots[k], f.pid)
    ensures OnePerPid(slots[i := Some(f)]) && Lookup(slots[i := Some(f)], f.pid) == Some(f.program)
    ensures forall q :: q != f.pid ==> Lookup(slots[i := Some(f)], q) == Lookup(slots, q)
  {
    LookupAt(slots[i := Some(f)], f.pid, i);
    forall q | q != f.pid ensures Lookup(slots[i := Some(f)], q) == Lookup(slots, q) {
      LookupOther(slots, i, Some(f), q);
    }
  }

  lemma Drop(slots: seq<Option<Filter>>, i: nat, pid: nat)
    requires OnePerPid(slots) && i < |slots| && Holds(slots[i], pid)
    ensures OnePerPid(slots[i := None]) && Lookup(slots[i := None], pid) == None
    ensures forall q :: q != pid ==> Lookup(slots[i := None], q) == Lookup(slots, q)
  {
    LookupNone(slots[i := None], pid);
    forall q | q != pid ensures Lookup(slots[i := None], q) == Lookup(slots, q) {
      LookupOther(slots, i, None, q);
    }
  }

  // ---------- The syscall decision ----------

  datatype Decision = Allow | Errno(code: nat) | Log | Kill | Trap

  /** The action in the high half of a filter's answer; an unknown action allows. */
  function Decide(ret: nat): Decision {
    var action := ret / 0x1_0000 * 0x1_0000;
    if action == 0x7fff_0000 then Allow
    else if action == 0x7ffc_0000 then Log
    else if action == 0x0003_0000 then Trap
    else if action == 0x0005_0000 then Errno(ret % 0x1_0000)
    else if action == 0x8000_0000 then Kill
    else Allow
  }

  /** What the answers mean: the action in bits 16 to 31, and for an error its number in the low bits. */
  predicate Asks(ret: nat, d: Decision) {
    match d
    case Errno(e) => e < 0x1_0000 && ret == 0x0005_0000 + e
    case Log => 0x7ffc_0000 <= ret <= 0x7ffc_ffff
    case Trap => 0x0003_0000 <= ret <= 0x0003_ffff
    case Kill => 0x8000_0000 <= ret <= 0x8000_ffff
    case Allow =>
      && !(0x0005_0000 <= ret <= 0x0005_ffff) && !(0x7ffc_0000 <= ret <= 0x7ffc_ffff)
      && !(0x0003_0000 <= ret <= 0x0003_ffff) && !(0x8000_0000 <= ret <= 0x8000_ffff)
  }

  lemma DecideExact(ret: nat, d: Decision)
    ensures Decide(ret) == d <==> Asks(ret, d)
  {
    assert ret == ret / 0x1_0000 * 0x1_0000 + ret % 0x1_0000;
  }

  /** `check`: no filter allows; nothing is decided when the filter's run panics. */
  function Check(slots: seq<Option<Filter>>, pid: nat, syscall: nat, args: SixWords): Option<Decision> {
    match Lookup(slots, pid)
    case None => Some(Allow)
    case Some(prog) => Summary(Evaluate(prog, SeccompData(syscall % U32, 0xc000_003e, 0, args)))
  }

  function Summary(answer: Next): Option<Decision> {
    if answer.Return? then Some(Decide(answer.value)) else None
  }

  /**
    Under a compiled allow-list a process gets the answer the list says, allowed or the default
    action, exactly when the step cap is not reached before the answer or asks for the same.
  */
  lemma CheckAllowlist(
    slots: seq<Option<Filter>>, pid: nat, allowed: seq<nat>, default: nat, syscall: nat, args: SixWords)
    requires Lookup(slots, pid) == Some(Allowlist(allowed, default))
    ensures var nr := syscall % U32;
            var j := First(allowed, nr, 0);
            Check(slots, pid, syscall, args) == Some(if nr in allowed then Allow else Decide(default))
            <==> if j < |allowed| then j < 4094 else |allowed| <= 4094 || Decide(default) == Kill
  {
    var d := SeccompData(syscall % U32, 0xc000_003e, 0, args);
    AllowlistAnswers(allowed, default, d);
    CheckRuns(slots, pid, Allowlist(allowed, default), syscall, args);
    Actions(allowed, default, d.nr);
  }

  /** The answer of the compiled filter, with the cap. */
  function Capped(allowed: seq<nat>, default: nat, nr: nat): nat {
    var j := First(allowed, nr, 0);
    if j < |allowed| then (if j < 4094 then ALLOW else KILL) else if |allowed| <= 4094 then default else KILL
  }

  lemma AllowlistAnswers(allowed: seq<nat>, default: nat, d: SeccompData)
    requires d.nr < U32
    ensures Evaluate(Allowlist(allowed, default), d) == Return(Capped(allowed, default, d.nr))
  {
    AllowlistRuns(allowed, default, d);
  }

  lemma CheckRuns(slots: seq<Option<Filter>>, pid: nat, prog: seq<Insn>, syscall: nat, args: SixWords)
    requires Lookup(slots, pid) == Some(prog)
    ensures Check(slots, pid, syscall, args) ==
            Summary(Evaluate(prog, SeccompData(syscall % U32, 0xc000_003e, 0, args)))
  {
  }

  lemma Actions(allowed: seq<nat>, default: nat, nr: nat)
    ensures var j := First(allowed, nr, 0);
            Decide(Capped(allowed, default, nr)) == (if nr in allowed then Allow else Decide(default))
            <==> if j < |allowed| then j < 4094 else |allowed| <= 4094 || Decide(default) == Kill
  {
    assert nr in allowed <==> First(allowed, nr, 0) < |allowed|;
    assert Decide(ALLOW) == Allow && Decide(KILL) == Kill;
  }

  /** A call off a list of at most 4094 gets the default action, whatever it is. */
  lemma OffTheList(
    slots: seq<Option<Filter>>, pid: nat, allowed: seq<nat>, default: nat, syscall: nat, args: SixWords, d: Decision)
    requires Lookup(slots, pid) == Some(Allowlist(allowed, default))
    requires |allowed| <= 4094 && syscall % U32 !in allowed
    ensures Check(slots, pid, syscall, args) == Some(d) <==> Asks(default, d)
    ensures forall e :: 0 <= e < 0x1_0000 && default == 0x0005_0000 + e ==>
              Check(slots, pid, syscall, args) == Some(Errno(e))
  {
    CheckAllowlist(slots, pid, allowed, default, syscall, args);
    DecideExact(default, d);
    forall e | 0 <= e < 0x1_0000 && default == 0x0005_0000 + e
      ensures Decide(default) == Errno(e)
    {
      DecideExact(default, Errno(e));
    }
  }
}
