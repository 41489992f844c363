/**
 Branch instructions of the ARM, Thumb and A64 instruction sets: the range checks and
 encoders that patch a jump into a program, and the decoders that find the target of an
 original instruction.

 Instructions are numbers below 2^32.  A shift or mask with constants is written as a
 division or remainder by a power of two, and an "or" of fields that do not overlap as a sum.
 */
module Branches {

  import opened Numbers

  datatype Kind = Thumb | Thumb2 | Arm | A64

  /** The number of addresses of a process that runs instructions of this kind. */
  function AddressRange(kind: Kind): nat {
    if kind == A64 then 0x1_0000_0000_0000_0000 else 0x1_0000_0000
  }

  /** What an instruction at this address reads as its pc. */
  function ReadPc(kind: Kind, address: nat): nat {
    (address + match kind case Arm => 8 case A64 => 0 case _ => 4) % AddressRange(kind)
  }

  const JUMP_MAX_ARM: nat := 33554432
  const JUMP_MAX_A64: nat := 134217728

  /** arm_check_relative_jump_kind, and arm64_check_relative_jump_kind for A64 */
  predicate CheckJump(kind: Kind, address: nat, dest: nat) {
    var pc := ReadPc(kind, address);
    var distance := if pc < dest then dest - pc else pc - dest;
    var jump := dest - pc;
    distance <= (if kind == A64 then JUMP_MAX_A64 else JUMP_MAX_ARM) &&
    match kind
    case Arm => -33554432 <= jump <= 33554428
    case Thumb => -2048 <= jump <= 2046
    case Thumb2 => -16777216 <= jump <= 16777214
    case A64 => -134217728 <= jump <= 134217724
  }

  // ----- Encoders -----

  const BRANCH_ARM: nat := 0xea00_0000
  const BRANCH_THUMB: nat := 0xe000
  const BRANCH_THUMB2: nat := 0xf000_9000
  const BRANCH_A64: nat := 0x1400_0000

  function Thumb2Branch(jump: int): nat {
    var s := jump / 0x100_0000 % 2;
    var i1 := jump / 0x80_0000 % 2;
    var i2 := jump / 0x40_0000 % 2;
    var j1 := if i1 == s then 1 else 0;
    var j2 := if i2 == s then 1 else 0;
    var imm10 := jump / 0x1000 % 0x400;
    var imm11 := jump / 2 % 0x800;
    BRANCH_THUMB2 + s * 0x400_0000 + imm10 * 0x1_0000 + j1 * 0x2000 + j2 * 0x800 + imm11
  }

  /** arm_get_relative_jump_insn, and the A64 case of arm64_get_relative_jump_insn */
  function JumpInsn(kind: Kind, address: nat, dest: nat): nat {
    var jump := dest - ReadPc(kind, address);
    match kind
    case Arm => BRANCH_ARM + jump / 4 % 0x100_0000
    case Thumb => BRANCH_THUMB + jump / 2 % 0x800
    case Thumb2 => Thumb2Branch(jump)
    case A64 => BRANCH_A64 + jump / 4 % 0x400_0000
  }

  // ----- Decoders of the template code -----

  /** sign_extend(value, msb), with sign == 1 << (msb - 1) */
  function SignExtend(value: nat, sign: nat): int
    requires sign > 0
  {
    var v := value % (2 * sign);
    if v >= sign then v - 2 * sign else v
  }

  /** thumb2_branch_decode */
  function Thumb2BranchDecode(insn: nat): int {
    var imm10 := insn / 0x1_0000 % 0x400;
    var imm11 := insn % 0x800;
    var s := insn / 0x400_0000 % 2;
    var j1 := insn / 0x2000 % 2;
    var j2 := insn / 0x800 % 2;
    var i1 := if s == j1 then 1 else 0;
    var i2 := if s == j2 then 1 else 0;
    SignExtend(Thumb2Value(s, i1, i2, imm10, imm11), 0x80_0000)
  }

  function Thumb2Value(s: nat, i1: nat, i2: nat, imm10: nat, imm11: nat): nat {
    imm11 * 2 + imm10 * 0x1000 + i2 * 0x40_0000 + i1 * 0x80_0000 + s * 0x100_0000
  }

  /** An immediate added to the pc of an A64 instruction: a negative one (its top bit is
      sign) is complemented and subtracted. */
  function AddImmediate(pc: nat, imm: nat, sign: nat): nat
    requires sign > 0
  {
    var range := AddressRange(A64);
    if imm / sign % 2 == 1 then
      // imm |= ~(sign - 1); imm = ~imm + 1
      var wide := imm % sign + (range - sign);
      (pc - (range - wide)) % range
    else (pc + imm) % range
  }

  function Imm26Target(pc: nat, insn: nat): nat { AddImmediate(pc, insn % 0x400_0000 * 4, 0x800_0000) }
  function Imm19Target(pc: nat, insn: nat): nat { AddImmediate(pc, insn % 0x100_0000 / 0x20 * 4, 0x10_0000) }
  function Imm14Target(pc: nat, insn: nat): nat { AddImmediate(pc, insn % 0x8_0000 / 0x20 * 4, 0x8000) }

  /** The target the template code computes for an unconditional branch at pc, without the
      Thumb bit that it sets on the result. */
  function DecodeTarget(kind: Kind, pc: nat, insn: nat): nat {
    match kind
    case Arm => (pc + 8 + SignExtend(insn % 0x100_0000 * 4, 0x200_0000)) % AddressRange(Arm)
    case Thumb => (pc + 4 + SignExtend(insn % 0x800 * 2, 0x800)) % AddressRange(Thumb)
    case Thumb2 => (pc + 4 + Thumb2BranchDecode(insn)) % AddressRange(Thumb2)
    case A64 => Imm26Target(pc, insn)
  }

  // ----- The architecture's own reading -----

  /** The offset of B: encodings A1, T2 and T4 in section A8.8.18 of ARM DDI 0406C, and B in
      section C6.2 of ARM DDI 0487.  For T4 it is SignExtend(S:I1:I2:imm10:imm11:'0') with
      I1 = NOT(J1 EOR S) and I2 = NOT(J2 EOR S). */
  function ArchOffset(kind: Kind, insn: nat): int {
    match kind
    case Arm => SignExtend(insn % 0x100_0000 * 4, 0x200_0000)
    case Thumb => SignExtend(insn % 0x800 * 2, 0x800)
    case A64 => SignExtend(insn % 0x400_0000 * 4, 0x800_0000)
    case Thumb2 =>
      var s := insn / 0x400_0000 % 2;
      var i1 := 1 - (insn / 0x2000 % 2 + s) % 2;
      var i2 := 1 - (insn / 0x800 % 2 + s) % 2;
      SignExtend(Thumb2Value(s, i1, i2, insn / 0x1_0000 % 0x400, insn % 0x800), 0x100_0000)
  }

  /** Is this an unconditional B of the given kind, in its encoding A1, T2, T4 or A64? */
  predicate ArchIsBranch(kind: Kind, insn: nat) {
    match kind
    case Arm => insn / 0x100_0000 == 0xea
    case Thumb => insn / 0x800 == 0x1c
    case Thumb2 => insn / 0x800_0000 == 0x1e && insn / 0x4000 % 4 == 2 && insn / 0x1000 % 2 == 1
    case A64 => insn / 0x400_0000 == 5
  }

  predicate AlignedJump(kind: Kind, address: nat, dest: nat) {
    (dest - ReadPc(kind, address)) % (if kind == Thumb || kind == Thumb2 then 2 else 4) == 0
  }

  /** A displacement of the T4 encoding is the sum of its fields. */
  lemma Thumb2Fields(jump: int)
    requires -16777216 <= jump <= 16777214 && jump % 2 == 0
    ensures jump == jump / 0x80_0000 % 2 * 0x80_0000 + jump / 0x40_0000 % 2 * 0x40_0000
                    + jump / 0x1000 % 0x400 * 0x1000 + jump / 2 % 0x800 * 2 - jump / 0x100_0000 % 2 * 0x100_0000
  {
    DivDiv(jump, 2, 0x800);
    DivDiv(jump, 0x1000, 0x400);
    DivDiv(jump, 0x40_0000, 2);
    DivDiv(jump, 0x80_0000, 2);
    var a, b, c, d, e := jump / 2, jump / 0x1000, jump / 0x40_0000, jump / 0x80_0000, jump / 0x100_0000;
    assert -1 <= e <= 0;
    FieldsAddUp(jump, a, b, c, d, e);
  }

  lemma FieldsAddUp(jump: int, a: int, b: int, c: int, d: int, e: int)
    requires jump == 2 * a && b == a / 0x800 && c == b / 0x400 && d == c / 2 && e == d / 2 && -1 <= e <= 0
    ensures jump == d % 2 * 0x80_0000 + c % 2 * 0x40_0000 + b % 0x400 * 0x1000 + a % 0x800 * 2 - e % 2 * 0x100_0000
  {
    assert e % 2 == -e;
  }

  /** The fields put into a T4 instruction are the fields found in it. */
  lemma Thumb2High(s: nat, imm10: nat, low: nat, insn: nat)
    requires s < 2 && imm10 < 0x400 && low < 0x1_0000
    requires insn == 0xf000_0000 + s * 0x400_0000 + imm10 * 0x1_0000 + low
    ensures insn / 0x800_0000 == 0x1e && insn / 0x400_0000 % 2 == s
    ensures insn / 0x1_0000 % 0x400 == imm10 && insn % 0x1_0000 == low
  {
    var top := 60 + s;
    DivUnique(insn, 0x1_0000, top * 0x400 + imm10, low);
    DivUnique(top * 0x400 + imm10, 0x400, top, imm10);
    DivUnique(insn, 0x400_0000, top, imm10 * 0x1_0000 + low);
    DivUnique(insn, 0x800_0000, 30, s * 0x400_0000 + imm10 * 0x1_0000 + low);
  }

  lemma Thumb2Low(j1: nat, j2: nat, imm11: nat, low: nat)
    requires j1 < 2 && j2 < 2 && imm11 < 0x800 && low == 0x9000 + j1 * 0x2000 + j2 * 0x800 + imm11
    ensures low < 0x1_0000 && low / 0x4000 == 2 && low / 0x2000 % 2 == j1 && low / 0x1000 % 2 == 1
    ensures low / 0x800 % 2 == j2 && low % 0x800 == imm11
  {
    DivUnique(low, 0x800, 0x12 + j1 * 4 + j2, imm11);
    DivUnique(low, 0x1000, 9 + j1 * 2, j2 * 0x800 + imm11);
  }

  /** A field of the low half is the same field of the whole. */
  lemma LowField(insn: nat, d: nat, n: nat, k: nat)
    requires d > 0 && n > 0 && k > 0 && d * (n * k) == 0x1_0000
    ensures insn / d % n == insn % 0x1_0000 / d % n
  {
    var q, low := insn / 0x1_0000, insn % 0x1_0000;
    MulAssociates(q, d, n * k);
    MulDistributes(q * (n * k), low / d, d);
    DivUnique(insn, d, q * (n * k) + low / d, low % d);
    MulAssociates(q, n, k);
    MulDistributes(q * k, low / d / n, n);
    DivUnique(insn / d, n, q * k + low / d / n, low / d % n);
  }

  lemma Thumb2Slots(s: nat, imm10: nat, j1: nat, j2: nat, imm11: nat, insn: nat)
    requires s < 2 && j1 < 2 && j2 < 2 && imm10 < 0x400 && imm11 < 0x800
    requires insn == BRANCH_THUMB2 + s * 0x400_0000 + imm10 * 0x1_0000 + j1 * 0x2000 + j2 * 0x800 + imm11
    ensures insn / 0x400_0000 % 2 == s && insn / 0x1_0000 % 0x400 == imm10
    ensures insn / 0x2000 % 2 == j1 && insn / 0x800 % 2 == j2 && insn % 0x800 == imm11
    ensures ArchIsBranch(Thumb2, insn)
  {
    var low := 0x9000 + j1 * 0x2000 + j2 * 0x800 + imm11;
    Thumb2Low(j1, j2, imm11, low);
    Thumb2High(s, imm10, low, insn);
    LowField(insn, 0x2000, 2, 4);
    LowField(insn, 0x800, 2, 0x10);
    LowField(insn, 0x1000, 2, 8);
    LowField(insn, 0x4000, 4, 1);
    LowField(insn, 1, 0x800, 0x20);
  }

  lemma Thumb2Reads(s: nat, i1: nat, i2: nat, imm10: nat, imm11: nat, insn: nat)
    requires s < 2 && i1 < 2 && i2 < 2 && imm10 < 0x400 && imm11 < 0x800
    requires insn == BRANCH_THUMB2 + s * 0x400_0000 + imm10 * 0x1_0000
                     + (if i1 == s then 1 else 0) * 0x2000 + (if i2 == s then 1 else 0) * 0x800 + imm11
    ensures ArchIsBranch(Thumb2, insn)
    ensures ArchOffset(Thumb2, insn) == SignExtend(Thumb2Value(s, i1, i2, imm10, imm11), 0x100_0000)
    ensures Thumb2BranchDecode(insn) == SignExtend(Thumb2Value(s, i1, i2, imm10, imm11), 0x80_0000)
  {
    Thumb2Slots(s, imm10, if i1 == s then 1 else 0, if i2 == s then 1 else 0, imm11, insn);
    FlagReads(s, i1);
    FlagReads(s, i2);
  }

  lemma FlagReads(s: nat, i: nat)
    requires s < 2 && i < 2
    ensures var j := if i == s then 1 else 0; 1 - (j + s) % 2 == i && (if s == j then 1 else 0) == i
  {
  }

  lemma Thumb2RoundTrip(jump: int, insn: nat)
    requires -16777216 <= jump <= 16777214 && jump % 2 == 0 && insn == Thumb2Branch(jump)
    ensures ArchIsBranch(Thumb2, insn) && ArchOffset(Thumb2, insn) == jump
    ensures Thumb2BranchDecode(insn) == jump <==> -0x80_0000 <= jump < 0x80_0000
    ensures -0x80_0000 <= Thumb2BranchDecode(insn) < 0x80_0000
  {
    var s, i1, i2 := jump / 0x100_0000 % 2, jump / 0x80_0000 % 2, jump / 0x40_0000 % 2;
    var imm10, imm11 := jump / 0x1000 % 0x400, jump / 2 % 0x800;
    Thumb2Reads(s, i1, i2, imm10, imm11, insn);
    Thumb2Fields(jump);
    Thumb2ValueExtends(jump, s, i1, i2, imm10, imm11);
  }

  lemma Thumb2ValueExtends(jump: int, s: nat, i1: nat, i2: nat, imm10: nat, imm11: nat)
    requires s < 2 && i1 < 2 && i2 < 2 && imm10 < 0x400 && imm11 < 0x800
    requires jump == i1 * 0x80_0000 + i2 * 0x40_0000 + imm10 * 0x1000 + imm11 * 2 - s * 0x100_0000
    ensures SignExtend(Thumb2Value(s, i1, i2, imm10, imm11), 0x100_0000) == jump
    ensures SignExtend(Thumb2Value(s, i1, i2, imm10, imm11), 0x80_0000) == jump <==> -0x80_0000 <= jump < 0x80_0000
  {
    var value := Thumb2Value(s, i1, i2, imm10, imm11);
    DivUnique(value, 0x200_0000, 0, value);
    DivUnique(value, 0x100_0000, s, value - s * 0x100_0000);
  }

  lemma UnitsInRange(k: int, units: nat, half: nat)
    requires units > 0 && -(half * units) <= k * units < half * units
    ensures 0 - half <= k < half
  {
    if k >= half {
      MulMono(units, half, k);
    } else if k < 0 - half {
      MulStrict(units, k, 0 - half);
    }
  }

  lemma PositiveField(k: nat, units: nat, half: nat)
    requires units > 0 && k < half
    ensures half * units > 0 && SignExtend(k * units, half * units) == k * units
  {
    MulStrict(units, 0, half);
    MulStrict(units, k, half);
    MulMono(units, 0, k);
    DivUnique(k * units, 2 * (half * units), 0, k * units);
  }

  lemma NegativeField(k: int, units: nat, half: nat)
    requires units > 0 && 0 - half <= k < 0
    ensures half * units > 0 && (k + 2 * half) * units >= 0
    ensures SignExtend((k + 2 * half) * units, half * units) == k * units
  {
    MulStrict(units, 0, half);
    MulStrict(units, k, 0);
    MulMono(units, 0 - half, k);
    MulDistributes(k, 2 * half, units);
    MulAssociates(2, half, units);
    DivUnique((k + 2 * half) * units, 2 * (half * units), 0, (k + 2 * half) * units);
  }

  /** A field that holds the low bits of a signed displacement in units, read back. */
  lemma SignedField(jump: int, units: nat, half: nat)
    requires units > 0 && half > 0 && jump % units == 0 && -(half * units) <= jump < half * units
    ensures half * units > 0 && jump / units % (2 * half) * units >= 0
    ensures SignExtend(jump / units % (2 * half) * units, half * units) == jump
  {
    hide SignExtend;
    var k := jump / units;
    assert jump == k * units;
    UnitsInRange(k, units, half);
    if k < 0 {
      DivUnique(k, 2 * half, -1, k + 2 * half);
      NegativeField(k, units, half);
    } else {
      DivUnique(k, 2 * half, 0, k);
      PositiveField(k, units, half);
    }
  }

  /** Every aligned jump that passes the range check is encoded as a branch instruction that
      the processor takes to exactly its destination. */
  lemma EncodedJumpReachesDestination(kind: Kind, address: nat, dest: nat)
    requires CheckJump(kind, address, dest) && AlignedJump(kind, address, dest)
    ensures ArchIsBranch(kind, JumpInsn(kind, address, dest))
    ensures ReadPc(kind, address) + ArchOffset(kind, JumpInsn(kind, address, dest)) == dest
  {
    var jump := dest - ReadPc(kind, address);
    match kind
    case Arm => FieldRoundTrip(jump, 4, 0x80_0000, 0xea, JumpInsn(kind, address, dest));
    case Thumb => FieldRoundTrip(jump, 2, 0x400, 0x1c, JumpInsn(kind, address, dest));
    case A64 => FieldRoundTrip(jump, 4, 0x200_0000, 5, JumpInsn(kind, address, dest));
    case Thumb2 => Thumb2RoundTrip(jump, JumpInsn(kind, address, dest));
  }

  lemma FieldRoundTrip(jump: int, units: nat, half: nat, opcode: nat, insn: nat)
    requires units > 0 && half > 0 && jump % units == 0 && -(half * units) <= jump < half * units
    requires insn == opcode * (2 * half) + jump / units % (2 * half)
    ensures insn / (2 * half) == opcode && half * units > 0
    ensures SignExtend(insn % (2 * half) * units, half * units) == jump
  {
    DivUnique(insn, 2 * half, opcode, jump / units % (2 * half));
    SignedField(jump, units, half);
  }

  /** What the decoders add to the pc, and the pc they add it to. */
  lemma DecoderAdds(kind: Kind, address: nat, dest: nat)
    requires kind != Thumb2 && CheckJump(kind, address, dest) && AlignedJump(kind, address, dest)
    ensures DecodeTarget(kind, address, JumpInsn(kind, address, dest))
         == (address + PcAhead(kind) + (dest - ReadPc(kind, address))) % AddressRange(kind)
  {
    EncodedJumpReachesDestination(kind, address, dest);
    if kind == A64 {
      ImmediateTargets(address, JumpInsn(kind, address, dest));
    }
  }

  function PcAhead(kind: Kind): nat { match kind case Arm => 8 case A64 => 0 case _ => 4 }

  /** Any instruction that the decoder reads as offset. */
  lemma Thumb2Target(address: nat, dest: nat, insn: nat, offset: int)
    requires dest < AddressRange(Thumb2) && -0x100_0000 <= dest - ReadPc(Thumb2, address) < 0x100_0000
    requires Thumb2BranchDecode(insn) == offset && -0x80_0000 <= offset < 0x80_0000
    ensures DecodeTarget(Thumb2, address, insn) == dest <==> offset == dest - ReadPc(Thumb2, address)
  {
    AddWraps(address + 4, dest - ReadPc(Thumb2, address), offset, dest, AddressRange(Thumb2));
  }

  lemma Thumb2DecoderInverts(address: nat, dest: nat, insn: nat)
    requires dest < AddressRange(Thumb2) && CheckJump(Thumb2, address, dest) && AlignedJump(Thumb2, address, dest)
    requires insn == Thumb2Branch(dest - ReadPc(Thumb2, address))
    ensures DecodeTarget(Thumb2, address, insn) == dest <==> -0x80_0000 <= dest - ReadPc(Thumb2, address) < 0x80_0000
  {
    Thumb2RoundTrip(dest - ReadPc(Thumb2, address), insn);
    Thumb2Target(address, dest, insn, Thumb2BranchDecode(insn));
  }

  /** The template code's decoders and the encoder agree over the whole range for A1, T2 and
      A64; the T4 decoder drops the sign bit, so there they agree exactly for displacements
      in [-2^23, 2^23). */
  lemma DecoderInvertsEncoderIff(kind: Kind, address: nat, dest: nat)
    requires address < AddressRange(kind) && dest < AddressRange(kind)
    requires CheckJump(kind, address, dest) && AlignedJump(kind, address, dest)
    ensures DecodeTarget(kind, address, JumpInsn(kind, address, dest)) == dest
       <==> (kind == Thumb2 ==> -0x80_0000 <= dest - ReadPc(kind, address) < 0x80_0000)
  {
    if kind == Thumb2 {
      Thumb2DecoderInverts(address, dest, JumpInsn(kind, address, dest));
    } else {
      DecoderAdds(kind, address, dest);
      var jump := dest - ReadPc(kind, address);
      AddWraps(address + PcAhead(kind), jump, jump, dest, AddressRange(kind));
    }
  }

  lemma AddWraps(x: nat, jump: int, offset: int, dest: nat, range: nat)
    requires range > 0x400_0000 && dest < range && dest == x % range + jump
    requires -0x200_0000 <= jump <= 0x200_0000 || jump == offset
    requires -0x80_0000 <= offset <= 0x80_0000 || jump == offset
    ensures (x + offset) % range == dest <==> offset == jump
  {
    var y := x + offset;
    if y % range == dest {
      var k := y / range - x / range;
      assert y == y / range * range + dest && x == x / range * range + x % range;
      assert k * range == y / range * range - x / range * range;
      assert offset - jump == k * range;
      if k > 0 { MulMono(range, 1, k); }
      if k < 0 { MulMono(range, k, -1); }
    }
    if offset == jump {
      DivUnique(y, range, x / range, dest);
    }
  }

  /** The targets of B, of B.cond, CBZ and LDR (literal), and of TBZ that the template code
      computes are the pc plus the sign-extended field of section C6.2 of ARM DDI 0487. */
  lemma ImmediateTargets(pc: nat, insn: nat)
    ensures Imm26Target(pc, insn) == (pc + SignExtend(insn % 0x400_0000 * 4, 0x800_0000)) % AddressRange(A64)
    ensures Imm19Target(pc, insn) == (pc + SignExtend(insn / 0x20 % 0x8_0000 * 4, 0x10_0000)) % AddressRange(A64)
    ensures Imm14Target(pc, insn) == (pc + SignExtend(insn / 0x20 % 0x4000 * 4, 0x8000)) % AddressRange(A64)
  {
    ModDiv(insn, 0x20, 0x8_0000);
    ModDiv(insn, 0x20, 0x4000);
    AddImmediateExtends(pc, insn % 0x400_0000 * 4, 0x800_0000);
    AddImmediateExtends(pc, insn / 0x20 % 0x8_0000 * 4, 0x10_0000);
    AddImmediateExtends(pc, insn / 0x20 % 0x4000 * 4, 0x8000);
  }

  lemma AddImmediateExtends(pc: nat, imm: nat, sign: nat)
    requires 0 < sign <= 0x800_0000 && imm < 2 * sign
    ensures AddImmediate(pc, imm, sign) == (pc + SignExtend(imm, sign)) % AddressRange(A64)
  {
    DivUnique(imm, sign, if imm < sign then 0 else 1, if imm < sign then imm else imm - sign);
    DivUnique(imm, 2 * sign, 0, imm);
  }
}
