/**
  The instruction set of the packet filter machine, opcode by opcode, as net/bpf.h numbers them:
  what the interpreter does with each, and which of them the validator lets in.
 */
module BpfOpcodes {
  import opened Words
  import opened Bpf

  // ---------------------------------------------------------------- arithmetic

  datatype Arith = Add | Sub | Mul | Div | Or | And | Lsh | Rsh | Neg

  /** BPF_ALU with the operation in the high nibble; bit 3 takes the operand from X. */
  function ArithCode(op: Arith, fromX: bool): (c: u16) {
    (match op
     case Add => 0x04 case Sub => 0x14 case Mul => 0x24 case Div => 0x34 case Or => 0x44
     case And => 0x54 case Lsh => 0x64 case Rsh => 0x74 case Neg => 0x84) + if fromX then 8 else 0
  }

  /** The 32-bit word `v` is what the operation gives on two 32-bit words. */
  ghost predicate Gives(op: Arith, a: u32, b: u32, v: u32) {
    match op
    case Add => v == a + b || v == a + b - 0x1_0000_0000
    case Sub => v == a - b || v == a - b + 0x1_0000_0000
    case Mul => (a * b - v) % 0x1_0000_0000 == 0
    case Div => v * b <= a < (v + 1) * b
    case Or => forall k: nat :: k < 32 ==> (HasBit(v, k) <==> HasBit(a, k) || HasBit(b, k))
    case And => forall k: nat :: k < 32 ==> (HasBit(v, k) <==> HasBit(a, k) && HasBit(b, k))
    case Lsh => forall k: nat :: k < 32 ==> (HasBit(v, k) <==> k >= b && HasBit(a, k - b))
    case Rsh => forall k: nat :: k < 32 ==> (HasBit(v, k) <==> k + b < 32 && HasBit(a, k + b))
    case Neg => v + a == 0 || v + a == 0x1_0000_0000
  }

  lemma ModIs(x: nat, v: nat)
    requires v == x % TWO32
    ensures (x - v) % TWO32 == 0
  {
    var q := x / TWO32;
    assert x - v == TWO32 * q;
    DivModUnique(x - v, TWO32, q, 0);
  }

  lemma QuotientIs(a: u32, b: u32)
    requires b > 0
    ensures (a / b) * b <= a < (a / b + 1) * b
  {
  }

  lemma ShiftsUp(a: u32, b: u32, v: u32)
    requires v == if b > 31 then 0 else (a * Pow2(b)) % TWO32
    ensures Gives(Lsh, a, b, v)
  {
    hide Bit;
    Pow2Is32();
    hide Pow2;
    forall k: nat | k < 32 ensures HasBit(v, k) <==> k >= b && HasBit(a, k - b) {
      BitZero(k);
      if b <= 31 {
        LowBit(a * Pow2(b), 32, k);
        ShiftUpBit(a, b, k);
      }
    }
  }

  lemma {:induction false} AboveWord(a: nat, n: nat, k: nat)
    requires a < Pow2(n) && k >= n
    ensures !HasBit(a, k)
    decreases n
  {
    if n == 0 { BitZero(k); } else { AboveWord(a / 2, n - 1, k - 1); }
  }

  lemma ShiftsDown(a: u32, b: u32, v: u32)
    requires v == if b > 31 then 0 else Quotient(a, Pow2(b))
    ensures Gives(Rsh, a, b, v)
  {
    hide Bit;
    Pow2Is32();
    hide Pow2;
    forall k: nat | k < 32 ensures HasBit(v, k) <==> k + b < 32 && HasBit(a, k + b) {
      BitZero(k);
      if b <= 31 {
        ShiftDownBit(a, b, k);
        if k + b >= 32 { AboveWord(a, 32, k + b); }
      }
    }
  }

  lemma BitsMeet(a: u32, b: u32)
    ensures Gives(And, a, b, And32(a, b)) && Gives(Or, a, b, Or32(a, b))
  {
    hide Bit, Words.And, Words.Or;
    forall k: nat | k < 32
      ensures HasBit(And32(a, b), k) <==> HasBit(a, k) && HasBit(b, k)
      ensures HasBit(Or32(a, b), k) <==> HasBit(a, k) || HasBit(b, k)
    {
      AndBit(a, b, k);
      OrBit(a, b, k);
    }
  }

  function OpOf(op: Arith): (n: nat) { ArithCode(op, false) - 4 }

  lemma SumsGive(a: u32, b: u32)
    ensures Alu(0x00, a, b).Some? && Gives(Add, a, b, Alu(0x00, a, b).value)
    ensures Alu(0x10, a, b).Some? && Gives(Sub, a, b, Alu(0x10, a, b).value)
    ensures Alu(0x80, a, b).Some? && Gives(Neg, a, b, Alu(0x80, a, b).value)
  {
  }

  lemma ProductsGive(a: u32, b: u32)
    ensures Alu(0x20, a, b).Some? && Gives(Mul, a, b, Alu(0x20, a, b).value)
    ensures b == 0 ==> Alu(0x30, a, b).None?
    ensures b != 0 ==> Alu(0x30, a, b).Some? && Gives(Div, a, b, Alu(0x30, a, b).value)
  {
    ModIs(a * b, (a * b) % TWO32);
    if b > 0 { QuotientIs(a, b); }
  }

  lemma WordsGive(a: u32, b: u32)
    ensures Alu(0x40, a, b).Some? && Gives(Or, a, b, Alu(0x40, a, b).value)
    ensures Alu(0x50, a, b).Some? && Gives(And, a, b, Alu(0x50, a, b).value)
    ensures Alu(0x60, a, b).Some? && Gives(Lsh, a, b, Alu(0x60, a, b).value)
    ensures Alu(0x70, a, b).Some? && Gives(Rsh, a, b, Alu(0x70, a, b).value)
  {
    hide Gives, And32, Or32, Pow2;
    BitsMeet(a, b);
    ShiftsUp(a, b, Alu(0x60, a, b).value);
    ShiftsDown(a, b, Alu(0x70, a, b).value);
  }

  lemma AluGives(op: Arith, a: u32, b: u32)
    ensures op == Div && b == 0 ==> Alu(OpOf(op), a, b).None?
    ensures !(op == Div && b == 0) ==> Alu(OpOf(op), a, b).Some? && Gives(op, a, b, Alu(OpOf(op), a, b).value)
  {
    hide Alu, Gives;
    SumsGive(a, b);
    ProductsGive(a, b);
    WordsGive(a, b);
  }

  lemma ArithFields(op: Arith, fromX: bool)
    ensures var c := ArithCode(op, fromX); Class(c) == 4 && Bpf.Op(c) == OpOf(op) && (SrcX(c) <==> fromX)
  {
  }

  /** Every arithmetic opcode: the accumulator becomes what the operation gives, and only a zero divisor stops. */
  lemma ArithmeticOpcodes(op: Arith, fromX: bool, count: nat, pkt: Packet, i: Insn, pc: nat, r: Regs)
    requires pc <= count && i.code == ArithCode(op, fromX)
    ensures var b := if fromX then r.x else i.k;
      if op == Div && b == 0 then Step(count, pkt, i, pc, r) == Stop(DivideByZero)
      else exists v :: Gives(op, r.a, b, v) && Step(count, pkt, i, pc, r) == Go(pc, r.(a := v))
  {
    ArithFields(op, fromX);
    var b := if fromX then r.x else i.k;
    AluGives(op, r.a, b);
    hide Alu, Gives;
    assert op == Div <==> OpOf(op) == 0x30;
    if !(op == Div && b == 0) {
      var v := Alu(OpOf(op), r.a, b).value;
      assert Gives(op, r.a, b, v) && Step(count, pkt, i, pc, r) == Go(pc, r.(a := v));
    }
  }

  // ---------------------------------------------------------------- jumps

  datatype Compare = Eq | Gt | Ge | Common

  function CompareCode(t: Compare, fromX: bool): (c: u16) {
    (match t case Eq => 0x15 case Gt => 0x25 case Ge => 0x35 case Common => 0x45) + if fromX then 8 else 0
  }

  ghost predicate Compares(t: Compare, a: u32, b: u32) {
    match t
    case Eq => a == b
    case Gt => a > b
    case Ge => a >= b
    case Common => exists k: nat :: k < 32 && HasBit(a, k) && HasBit(b, k)
  }

  lemma CommonBit(a: u32, b: u32)
    ensures And32(a, b) != 0 <==> Compares(Common, a, b)
  {
    Pow2Is32();
    hide Bit, Words.And, Pow2;
    SomeBit(And32(a, b), 32);
    forall k: nat ensures HasBit(And32(a, b), k) <==> HasBit(a, k) && HasBit(b, k) {
      AndBit(a, b, k);
    }
  }

  /** Where a jump of `skip` instructions leads: no further than just past the end. */
  function Skip(count: nat, pc: nat, r: Regs, skip: nat): (n: Next) {
    if pc + skip <= count then Go(pc + skip, r) else Stop(BadInsn)
  }

  lemma CompareFields(t: Compare, fromX: bool)
    ensures var c := CompareCode(t, fromX);
      && Class(c) == 5 && (SrcX(c) <==> fromX)
      && Bpf.Op(c) == match t case Eq => 0x10 case Gt => 0x20 case Ge => 0x30 case Common => 0x40
  {
  }

  /** Every conditional jump, by the comparison it makes. */
  lemma JumpOpcodes(t: Compare, fromX: bool, count: nat, pkt: Packet, i: Insn, pc: nat, r: Regs)
    requires pc <= count && i.code == CompareCode(t, fromX)
    ensures Step(count, pkt, i, pc, r) ==
      Skip(count, pc, r, if Compares(t, r.a, if fromX then r.x else i.k) then i.jt else i.jf)
  {
    CompareFields(t, fromX);
    CommonBit(r.a, if fromX then r.x else i.k);
    hide HasBit, And32, CompareCode, Class, Bpf.Op, SrcX;
  }

  // ---------------------------------------------------------------- loads, stores and the rest

  /** The big-endian field of 1, 2 or 4 bytes, told byte by byte. */
  function FieldAt(b: seq<u8>, off: nat, size: nat): (v: Option<u32>) {
    if off + size > |b| then None
    else if size == 1 then Some(b[off])
    else if size == 2 then Some(b[off] as int * 0x100 + b[off + 1])
    else if size == 4 then
      Some(b[off] as int * 0x100_0000 + b[off + 1] as int * 0x1_0000 + b[off + 2] as int * 0x100 + b[off + 3])
    else None
  }

  lemma LoadIsField(b: seq<u8>, off: nat, size: nat)
    requires size == 1 || size == 2 || size == 4
    ensures Load(b, off, size) == FieldAt(b, off, size)
  {
    if off + size <= |b| {
      BigEndianSmall(b[off..off + size]);
    }
  }

  lemma FieldPast(b: seq<u8>, off: nat, size: nat)
    ensures off > |b| ==> FieldAt(b, off, size).None?
  {
  }

  function SizeCode(size: nat): (c: u16) { if size == 4 then 0 else if size == 2 then 8 else 16 }

  lemma PacketFields(size: nat, fromX: bool)
    requires size == 1 || size == 2 || size == 4
    ensures var c := (if fromX then 0x40 else 0x20) + SizeCode(size);
      Class(c) == 0 && Mode(c) == (if fromX then 0x40 else 0x20) && SizeBytes(c) == size
  {
  }

  /** ld [k] and ld [x + k], in bytes, halves and words: the field, or a short packet. */
  lemma PacketOpcodes(size: nat, fromX: bool, count: nat, pkt: Packet, i: Insn, pc: nat, r: Regs)
    requires pc <= count && (size == 1 || size == 2 || size == 4)
    requires i.code == (if fromX then 0x40 else 0x20) + SizeCode(size) && |pkt.bytes| < 0x1_0000_0000
    ensures var v := FieldAt(pkt.bytes, if fromX then r.x + i.k else i.k, size);
      Step(count, pkt, i, pc, r) == if v.None? then Stop(Short) else Go(pc, r.(a := v.value))
  {
    PacketFields(size, fromX);
    LoadIsField(pkt.bytes, if fromX then r.x + i.k else i.k, size);
    hide Load, Class, Mode, SizeBytes, FieldAt;
    FieldPast(pkt.bytes, r.x + i.k, size);
  }

  /** ldx 4*([k]&0xf): four times the low nibble. */
  lemma NibbleOpcode(count: nat, pkt: Packet, i: Insn, pc: nat, r: Regs)
    requires pc <= count && i.code == 0xb1
    ensures Step(count, pkt, i, pc, r) ==
      if i.k >= |pkt.bytes| then Stop(Short) else Go(pc, r.(x := pkt.bytes[i.k] % 16 * 4))
  {
    LoadIsField(pkt.bytes, i.k, 1);
    Pow2Is32();
    hide Load, Pow2, Words.And;
    if i.k < |pkt.bytes| { AndLowMask(pkt.bytes[i.k], 4); }
  }

  /** Constants, lengths, scratch memory, moves and returns; a slot past the sixteenth stops. */
  lemma PlainOpcodes(count: nat, pkt: Packet, i: Insn, pc: nat, r: Regs)
    requires pc <= count
    ensures var n := Step(count, pkt, i, pc, r);
      && (i.code == 0x00 ==> n == Go(pc, r.(a := i.k)))
      && (i.code == 0x01 ==> n == Go(pc, r.(x := i.k)))
      && (i.code == 0x80 ==> n == Go(pc, r.(a := pkt.wirelen)))
      && (i.code == 0x81 ==> n == Go(pc, r.(x := pkt.wirelen)))
      && (i.code == 0x07 ==> n == Go(pc, r.(x := r.a)))
      && (i.code == 0x87 ==> n == Go(pc, r.(a := r.x)))
      && (i.code == 0x06 ==> n == Stop(Keep(i.k)))
      && (i.code == 0x16 ==> n == Stop(Keep(r.a)))
      && (i.code == 0x05 ==> n == Skip(count, pc, r, i.k))
    ensures var n := Step(count, pkt, i, pc, r);
      && (i.k < 16 && i.code == 0x60 ==> n == Go(pc, r.(a := r.mem[i.k])))
      && (i.k < 16 && i.code == 0x61 ==> n == Go(pc, r.(x := r.mem[i.k])))
      && (i.k < 16 && i.code == 0x02 ==> n == Go(pc, r.(mem := r.mem[i.k := r.a])))
      && (i.k < 16 && i.code == 0x03 ==> n == Go(pc, r.(mem := r.mem[i.k := r.x])))
      && (i.k >= 16 && i.code in [0x60, 0x61, 0x02, 0x03] ==> n == Stop(BadInsn))
  {
    hide Load;
  }

  /** A program starts with both registers and the sixteen slots zero, and no program keeps everything. */
  lemma StartsCleared(pkt: Packet, slot: u32)
    ensures Filter([], pkt) == 0xFFFF_FFFF
    ensures Filter([Insn(0x16, 0, 0, 0)], pkt) == 0
    ensures Filter([Insn(0x87, 0, 0, 0), Insn(0x16, 0, 0, 0)], pkt) == 0
    ensures slot < 16 ==> Filter([Insn(0x60, 0, 0, slot), Insn(0x16, 0, 0, 0)], pkt) == 0
  {
    hide Step;
    PlainOpcodes(1, pkt, Insn(0x16, 0, 0, 0), 1, ZERO_REGS);
    OneThenReturn(pkt, Insn(0x87, 0, 0, 0));
    OneThenReturn(pkt, Insn(0x60, 0, 0, slot));
    PlainOpcodes(2, pkt, Insn(0x87, 0, 0, 0), 1, ZERO_REGS);
    PlainOpcodes(2, pkt, Insn(0x60, 0, 0, slot), 1, ZERO_REGS);
  }

  /** An instruction and a return of the accumulator. */
  lemma OneThenReturn(pkt: Packet, i: Insn)
    ensures var n := Step(2, pkt, i, 1, ZERO_REGS);
      n.Go? && n.pc == 1 ==> Filter([i, Insn(0x16, 0, 0, 0)], pkt) == n.r.a
  {
    hide Step;
    var prog := [i, Insn(0x16, 0, 0, 0)];
    var n := Step(2, pkt, i, 1, ZERO_REGS);
    if n.Go? && n.pc == 1 {
      PlainOpcodes(2, pkt, prog[1], 2, n.r);
      assert Exec(prog, pkt, 1, n.r) == Keep(n.r.a);
    }
  }

  /** The high byte of an opcode is never looked at. */
  lemma LowByteOnly(count: nat, pkt: Packet, i: Insn, pc: nat, r: Regs)
    requires pc <= count
    ensures Step(count, pkt, i, pc, r) == Step(count, pkt, i.(code := i.code % 256), pc, r)
  {
    LowByteFields(i.code);
    hide Class, Size, Mode, Bpf.Op, MiscOp, SrcX, Load, Alu, Taken;
  }

  lemma LowByteFields(c: u16)
    ensures var d := c % 256;
      && Class(d) == Class(c) && Size(d) == Size(c) && Mode(d) == Mode(c) && Bpf.Op(d) == Bpf.Op(c)
      && MiscOp(d) == MiscOp(c) && SrcX(d) == SrcX(c)
  {
    LowField(c, 1, 8, 256, 32);
    LowField(c, 8, 4, 32, 8);
    LowField(c, 32, 8, 8, 1);
    LowField(c, 16, 16, 16, 1);
    LowField(c, 8, 32, 32, 1);
    LowField(c, 8, 2, 32, 16);
  }

  /** A field of m values above the first s, inside a byte. */
  lemma LowField(c: nat, s: nat, m: nat, t: nat, u: nat)
    requires s > 0 && m > 0 && s * t == 256 && m * u == t
    ensures (c % 256) / s % m == c / s % m
  {
    var d, q := c % 256, c / 256;
    var e, f := d / s, d % s;
    assert s * (t * q + e) + f == (s * t) * q + (s * e + f);
    DivModUnique(c, s, t * q + e, f);
    assert m * (u * q + e / m) + e % m == (m * u) * q + (m * (e / m) + e % m);
    DivModUnique(t * q + e, m, u * q + e / m, e % m);
  }

  // ---------------------------------------------------------------- what the validator lets in

  /** The opcodes let in: each documented one, and those that differ in bits the interpreter ignores. */
  predicate Accepted(c: nat) {
    match c % 8
    case 0 => c in {0x00, 0x20, 0x28, 0x30, 0x40, 0x48, 0x50, 0x60, 0x80}
    case 1 => c in {0x01, 0x61, 0x81, 0xb1}
    case 2 => c == 0x02
    case 3 => c == 0x03
    case 4 => c <= 0x8c
    case 5 => c <= 0x4d
    case 6 => c % 32 == 0x06 || c % 32 == 0x16
    case _ => c in {0x07, 0x87}
  }

  /** Slots are below 16, a constant divisor is not zero, and a jump stays inside the program. */
  predicate OperandsOk(c: nat, i: Insn, room: nat) {
    match c % 8
    case 0 => c == 0x60 ==> i.k < 16
    case 1 => c == 0x61 ==> i.k < 16
    case 2 => i.k < 16
    case 3 => i.k < 16
    case 4 => c == 0x34 ==> i.k != 0
    case 5 => if c < 0x10 then i.k < room else i.jt < room && i.jf < room
    case _ => true
  }

  /** The fields of an opcode byte, from its class and the five bits above. */
  ghost predicate Made(i: Insn, l: nat, h: nat) {
    && l < 8 && h < 32 && i.code % 256 == 8 * h + l && Class(i.code) == l
    && Size(i.code) == h % 4 * 8 && Mode(i.code) == h / 4 * 32 && Bpf.Op(i.code) == h / 2 * 16
    && MiscOp(i.code) == h * 8 && (SrcX(i.code) <==> h % 2 == 1)
  }

  lemma AcceptedLd(i: Insn, room: nat, h: nat)
    requires Made(i, 0, h)
    ensures InsnOk(i, room) <==> Accepted(8 * h) && OperandsOk(8 * h, i, room)
  {
    hide Class, Size, Mode, Bpf.Op, MiscOp, SrcX;
  }

  lemma AcceptedLdx(i: Insn, room: nat, h: nat)
    requires Made(i, 1, h)
    ensures InsnOk(i, room) <==> Accepted(8 * h + 1) && OperandsOk(8 * h + 1, i, room)
  {
    hide Class, Size, Mode, Bpf.Op, MiscOp, SrcX;
  }

  lemma AcceptedStores(i: Insn, room: nat, l: nat, h: nat)
    requires Made(i, l, h) && 2 <= l <= 3
    ensures InsnOk(i, room) <==> Accepted(8 * h + l) && OperandsOk(8 * h + l, i, room)
  {
    hide Class, Size, Mode, Bpf.Op, MiscOp, SrcX;
  }

  lemma AcceptedArith(i: Insn, room: nat, h: nat)
    requires Made(i, 4, h)
    ensures InsnOk(i, room) <==> Accepted(8 * h + 4) && OperandsOk(8 * h + 4, i, room)
  {
    hide Class, Size, Mode, Bpf.Op, MiscOp, SrcX;
  }

  lemma AcceptedJumps(i: Insn, room: nat, h: nat)
    requires Made(i, 5, h)
    ensures InsnOk(i, room) <==> Accepted(8 * h + 5) && OperandsOk(8 * h + 5, i, room)
  {
    hide Class, Size, Mode, Bpf.Op, MiscOp, SrcX;
  }

  lemma AcceptedRest(i: Insn, room: nat, l: nat, h: nat)
    requires Made(i, l, h) && l >= 6
    ensures InsnOk(i, room) <==> Accepted(8 * h + l) && OperandsOk(8 * h + l, i, room)
  {
    hide Class, Size, Mode, Bpf.Op, MiscOp, SrcX;
    assert (8 * h + l) % 32 == 8 * (h % 4) + l by { DivModUnique(8 * h + l, 32, h / 4, 8 * (h % 4) + l); }
  }

  lemma MadeOf(i: Insn)
    ensures Made(i, i.code % 8, i.code % 256 / 8)
  {
    LowByteFields(i.code);
    var c := i.code % 256;
    var l, h := c % 8, c / 8;
    DivModUnique(c, 32, h / 4, 8 * (h % 4) + l);
    DivModUnique(c, 16, h / 2, 8 * (h % 2) + l);
    DivModUnique(c / 32, 8, 0, h / 4);
    DivModUnique(c / 16, 16, 0, h / 2);
    DivModUnique(c / 8, 32, 0, h);
  }

  /** The validator lets an instruction in exactly when its opcode is one of these and its operands are in range. */
  lemma AcceptedIff(i: Insn, room: nat)
    ensures InsnOk(i, room) <==> Accepted(i.code % 256) && OperandsOk(i.code % 256, i, room)
  {
    MadeOf(i);
    ByClass(i, room, i.code % 8, i.code % 256 / 8);
  }

  lemma ByClass(i: Insn, room: nat, l: nat, h: nat)
    requires Made(i, l, h)
    ensures InsnOk(i, room) <==> Accepted(i.code % 256) && OperandsOk(i.code % 256, i, room)
  {
    var c := i.code % 256;
    assert l < 8 && c == 8 * h + l;
    hide InsnOk, OperandsOk, Accepted, Made;
    if l == 0 {
      AcceptedLd(i, room, h);
    } else if l == 1 {
      AcceptedLdx(i, room, h);
    } else if l <= 3 {
      AcceptedStores(i, room, l, h);
    } else if l == 4 {
      AcceptedArith(i, room, h);
    } else if l == 5 {
      AcceptedJumps(i, room, h);
    } else {
      AcceptedRest(i, room, l, h);
    }
  }
}
