/**
  The packet filter machine of src/bpf: the segmented packet view, the interpreter and the
  load-time validator.
 */
module Bpf {
  import opened Words

  const MAXINSNS: nat := 512
  const MEMWORDS: nat := 16
  const MAX_SEGS: nat := 8

  /** struct bpf_insn; `k` is the field's value read as a ULONG. */
  datatype Insn = Insn(code: u16, jt: u8, jf: u8, k: u32)

  // Fields of `code`, as the BPF_* macros mask them out.
  const LD := 0   const LDX := 1   const ST := 2   const STX := 3
  const ALU := 4  const JMP := 5   const RET := 6  const MISC := 7

  function Class(code: u16): (r: nat) { code % 8 }              // code & 0x07
  function Size(code: u16): (r: nat) { (code / 8 % 4) * 8 }     // code & 0x18
  function Mode(code: u16): (r: nat) { (code / 32 % 8) * 32 }   // code & 0xe0
  function Op(code: u16): (r: nat) { (code / 16 % 16) * 16 }    // code & 0xf0
  function MiscOp(code: u16): (r: nat) { (code / 8 % 32) * 8 }  // code & 0xf8
  predicate SrcX(code: u16) { code / 8 % 2 == 1 }               // code & 0x08

  const W := 0x00    const H := 0x08    const B := 0x10
  const IMM := 0x00  const ABS := 0x20  const IND := 0x40  const MEM := 0x60  const LEN := 0x80  const MSH := 0xa0
  const ADD := 0x00  const SUB := 0x10  const MUL := 0x20  const DIV := 0x30  const OR := 0x40
  const AND := 0x50  const LSH := 0x60  const RSH := 0x70  const NEG := 0x80
  const JA := 0x00   const JEQ := 0x10  const JGT := 0x20  const JGE := 0x30  const JSET := 0x40
  const TAX := 0x00  const TXA := 0x80
  const RET_K := 0x00  const RET_A := 0x10

  /** ami_bpf_size_bytes: 0 when the size field is not a defined one. */
  function SizeBytes(code: u16): (r: nat)
    ensures r <= 4
  {
    if Size(code) == W then 4 else if Size(code) == H then 2 else if Size(code) == B then 1 else 0
  }

  // ---------------------------------------------------------------- packets

  /** A packet: the captured bytes, and how long it was on the wire. */
  datatype Packet = Packet(bytes: seq<u8>, wirelen: u32)

  /** Load 1, 2 or 4 bytes big-endian; None is out of range. */
  function Load(bytes: seq<u8>, off: nat, size: nat): (r: Option<u32>)
    requires size <= 4
  {
    if size == 0 || off + size > |bytes| then None
    else BigEndianSmall(bytes[off..off + size]); Some(BigEndian(bytes[off..off + size]))
  }

  function Flat(segs: seq<seq<u8>>): (r: seq<u8>) {
    if segs == [] then [] else Flat(segs[..|segs| - 1]) + segs[|segs| - 1]
  }

  lemma {:induction false} FlatPrefix(segs: seq<seq<u8>>, i: nat)
    requires i <= |segs|
    ensures Flat(segs[..i]) <= Flat(segs)
  {
    if i < |segs| {
      assert segs[..|segs| - 1][..i] == segs[..i];
      FlatPrefix(segs[..|segs| - 1], i);
    } else {
      assert segs[..i] == segs;
    }
  }

  /** AmiBpfView: a packet in up to eight logically contiguous runs. */
  datatype View = View(wirelen: u32, caplen: u32, segs: seq<seq<u8>>) {
    ghost predicate Valid() {
      |segs| <= MAX_SEGS && caplen == |Flat(segs)|
    }

    ghost function ToPacket(): Packet {
      Packet(Flat(segs), wirelen)
    }
  }

  /** ami_bpf_view_linear; a frame's length is a ULONG. */
  function ViewLinear(frame: seq<u8>): (v: View)
    requires |frame| < TWO32
    ensures v.Valid() && v.ToPacket() == Packet(frame, |frame|)
  {
    assert [frame][..0] == [];
    View(|frame|, |frame|, [frame])
  }

  /**
    ami_bpf_view_add: append a run, refused when the view is full, even for an empty run.  The two
    lengths are ULONGs.
   */
  function ViewAdd(v: View, run: seq<u8>): (r: Option<View>)
    requires v.Valid() && |run| < TWO32
    ensures r.None? <==> |v.segs| >= 8
    ensures r.Some? ==>
              && r.value.ToPacket() == Packet(v.ToPacket().bytes + run, (v.wirelen + |run|) % TWO32)
              && (r.value.Valid() <==> v.caplen + |run| < TWO32)
  {
    if |v.segs| >= MAX_SEGS then None
    else if run == [] then Some(v)
    else
      assert (v.segs + [run])[..|v.segs|] == v.segs;
      Some(View((v.wirelen + |run|) % TWO32, (v.caplen + |run|) % TWO32, v.segs + [run]))
  }

  /** ami_bpf_view_at: the run and offset within it of packet byte `off`, if there is one. */
  method ViewAt(v: View, off: nat) returns (r: Option<(nat, nat)>)
    requires v.Valid()
    ensures r.None? <==> off >= v.caplen
    ensures r.Some? ==>
      var (seg, at) := r.value;
      && seg < |v.segs| && at < |v.segs[seg]|
      && off - at + |v.segs[seg]| <= v.caplen
      && Flat(v.segs)[off..off - at + |v.segs[seg]|] == v.segs[seg][at..]
  {
    var base := 0;
    var i := 0;
    while i < |v.segs|
      invariant i <= |v.segs| && base == |Flat(v.segs[..i])| && base <= off
    {
      var len := |v.segs[i]|;
      ghost var before, upTo := Flat(v.segs[..i]), Flat(v.segs[..i + 1]);
      assert v.segs[..i + 1][..i] == v.segs[..i];
      assert upTo == before + v.segs[i];
      FlatPrefix(v.segs, i + 1);
      if off < base + len {
        assert Flat(v.segs)[off..base + len] == upTo[off..] == v.segs[i][off - base..];
        return Some((i, off - base));
      }
      base := base + len;
      i := i + 1;
    }
    assert v.segs[..|v.segs|] == v.segs;
    r := None;
  }

  /** The whole access is inside one run. */
  method LoadRun(p: seq<u8>, size: nat) returns (value: nat)
    requires size <= |p|
    ensures value == BigEndian(p[..size])
  {
    value := 0;
    for i := 0 to size
      invariant value == BigEndian(p[..i])
    {
      assert p[..i + 1][..i] == p[..i];
      value := value * 256 + p[i];
    }
  }

  /** The access straddles a boundary between runs. */
  method LoadScattered(v: View, off: nat, size: nat) returns (value: nat)
    requires v.Valid() && off + size <= v.caplen
    ensures value == BigEndian(Flat(v.segs)[off..off + size])
  {
    ghost var want := Flat(v.segs)[off..off + size];
    value := 0;
    for i := 0 to size
      invariant value == BigEndian(want[..i])
    {
      var p := ViewAt(v, off + i);
      var (s, f) := p.value;
      assert want[..i + 1][..i] == want[..i];
      assert want[i] == Flat(v.segs)[off + i..off + i - f + |v.segs[s]|][0] == v.segs[s][f..][0];
      value := value * 256 + v.segs[s][f];
    }
    assert want[..size] == want;
  }

  /** ami_bpf_load on a segmented view is the load on the contiguous packet. */
  method LoadView(v: View, off: u32, size: nat) returns (r: Option<u32>)
    requires v.Valid() && size <= 4
    ensures r == Load(Flat(v.segs), off, size)
  {
    if size == 0 || size > v.caplen || off > v.caplen - size {
      return None;
    }
    var at := ViewAt(v, off);
    var (seg, from) := at.value;
    var value;
    if |v.segs[seg]| - from >= size {
      value := LoadRun(v.segs[seg][from..], size);
      assert v.segs[seg][from..][..size] == Flat(v.segs)[off..off + size];
    } else {
      value := LoadScattered(v, off, size);
    }
    BigEndianSmall(Flat(v.segs)[off..off + size]);
    r := Some(value);
  }

  // ---------------------------------------------------------------- the machine

  type Scratch = m: seq<u32> | |m| == MEMWORDS witness ZERO_MEM

  const ZERO_MEM: seq<u32> := [0, 0, 0, 0, 0, 0, 0, 0, 0, 0, 0, 0, 0, 0, 0, 0]

  datatype Regs = Regs(a: u32, x: u32, mem: Scratch)

  const ZERO_REGS := Regs(0, 0, ZERO_MEM)

  /** Why the program stopped.  The caller sees only `Value`; everything but Keep rejects. */
  datatype Verdict = Keep(n: u32) | Short | DivideByZero | BadInsn | FellOff {
    function Value(): (r: u32) { if Keep? then n else 0 }
  }

  datatype Next = Stop(v: Verdict) | Go(pc: nat, r: Regs)

  function SetA(pc: nat, r: Regs, v: Option<u32>): (n: Next) {
    if v.None? then Stop(Short) else Go(pc, r.(a := v.value))
  }

  function StepLd(pkt: Packet, i: Insn, pc: nat, r: Regs): (n: Next) {
    if Mode(i.code) == IMM then Go(pc, r.(a := i.k))
    else if Mode(i.code) == LEN then Go(pc, r.(a := pkt.wirelen))
    else if Mode(i.code) == MEM then if i.k < MEMWORDS then Go(pc, r.(a := r.mem[i.k])) else Stop(BadInsn)
    else if Mode(i.code) == ABS || Mode(i.code) == IND then
      var off := if Mode(i.code) == IND then r.x + i.k else i.k;
      if SizeBytes(i.code) == 0 then Stop(BadInsn)
      else if off >= TWO32 then Stop(Short)
      else SetA(pc, r, Load(pkt.bytes, off, SizeBytes(i.code)))
    else Stop(BadInsn)
  }

  function StepLdx(pkt: Packet, i: Insn, pc: nat, r: Regs): (n: Next) {
    if Mode(i.code) == IMM then Go(pc, r.(x := i.k))
    else if Mode(i.code) == LEN then Go(pc, r.(x := pkt.wirelen))
    else if Mode(i.code) == MEM then if i.k < MEMWORDS then Go(pc, r.(x := r.mem[i.k])) else Stop(BadInsn)
    else if Mode(i.code) == MSH && Size(i.code) == B then
      var b := Load(pkt.bytes, i.k, 1);
      if b.None? then Stop(Short) else Go(pc, r.(x := And32(b.value, 0x0F) * 4))
    else Stop(BadInsn)
  }

  /** None is a division by zero or an operation that does not exist. */
  function Alu(op: nat, a: u32, b: u32): (r: Option<u32>) {
    if op == ADD then Some((a + b) % TWO32)
    else if op == SUB then Some((a - b) % TWO32)
    else if op == MUL then Some((a * b) % TWO32)
    else if op == DIV && b != 0 then Some(Quotient(a, b))
    else if op == OR then Some(Or32(a, b))
    else if op == AND then Some(And32(a, b))
    else if op == LSH then Some(if b > 31 then 0 else (a * Pow2(b)) % TWO32)
    else if op == RSH then Some(if b > 31 then 0 else Quotient(a, Pow2(b)))
    else if op == NEG then Some((TWO32 - a) % TWO32)
    else None
  }

  function Taken(op: nat, a: u32, b: u32): (r: Option<bool>) {
    if op == JGT then Some(a > b)
    else if op == JGE then Some(a >= b)
    else if op == JEQ then Some(a == b)
    else if op == JSET then Some(And32(a, b) != 0)
    else None
  }

  function Jump(count: nat, pc: nat, r: Regs, skip: nat): (n: Next)
    requires pc <= count
  {
    if skip > count - pc then Stop(BadInsn) else Go(pc + skip, r)
  }

  function StepJmp(count: nat, i: Insn, pc: nat, r: Regs): (n: Next)
    requires pc <= count
  {
    if Op(i.code) == JA then Jump(count, pc, r, i.k)
    else
      var t := Taken(Op(i.code), r.a, if SrcX(i.code) then r.x else i.k);
      if t.None? then Stop(BadInsn) else Jump(count, pc, r, if t.value then i.jt else i.jf)
  }

  function StepAlu(i: Insn, pc: nat, r: Regs): (n: Next) {
    var b := if SrcX(i.code) then r.x else i.k;
    var v := Alu(Op(i.code), r.a, b);
    if v.Some? then Go(pc, r.(a := v.value))
    else Stop(if Op(i.code) == DIV then DivideByZero else BadInsn)
  }

  /** One instruction; `pc` is the index after it. */
  function Step(count: nat, pkt: Packet, i: Insn, pc: nat, r: Regs): (n: Next)
    requires pc <= count
    ensures n.Go? ==> pc <= n.pc <= count
  {
    var c := Class(i.code);
    if c == LD then StepLd(pkt, i, pc, r)
    else if c == LDX then StepLdx(pkt, i, pc, r)
    else if c == ST || c == STX then
      if i.k < MEMWORDS then Go(pc, r.(mem := r.mem[i.k := if c == ST then r.a else r.x])) else Stop(BadInsn)
    else if c == ALU then StepAlu(i, pc, r)
    else if c == JMP then StepJmp(count, i, pc, r)
    else if c == RET then
      if Size(i.code) == RET_K then Stop(Keep(i.k))
      else if Size(i.code) == RET_A then Stop(Keep(r.a)) else Stop(BadInsn)
    else if MiscOp(i.code) == TAX then Go(pc, r.(x := r.a))
    else if MiscOp(i.code) == TXA then Go(pc, r.(a := r.x))
    else Stop(BadInsn)
  }

  /** Run from `pc`: every jump is forward, so every program stops within its length. */
  function Exec(prog: seq<Insn>, pkt: Packet, pc: nat, r: Regs): (v: Verdict)
    decreases |prog| - pc
  {
    if pc >= |prog| then FellOff
    else
      var n := Step(|prog|, pkt, prog[pc], pc + 1, r);
      if n.Stop? then n.v else Exec(prog, pkt, n.pc, n.r)
  }

  /** What ami_bpf_filter_view answers, as a function of the contiguous packet. */
  function Filter(prog: seq<Insn>, pkt: Packet): (r: u32) {
    if prog == [] then TWO32 - 1 else Exec(prog, pkt, 0, ZERO_REGS).Value()
  }

  /** The load instructions of the interpreter, over the segmented view. */
  method LoadInsn(i: Insn, v: View, pc: nat, r: Regs) returns (n: Next)
    requires v.Valid() && (Class(i.code) == LD || Class(i.code) == LDX)
    ensures n == if Class(i.code) == LD then StepLd(v.ToPacket(), i, pc, r) else StepLdx(v.ToPacket(), i, pc, r)
  {
    var mode := Mode(i.code);
    if mode == IMM || mode == LEN || mode == MEM {
      if mode == MEM && i.k >= MEMWORDS { return Stop(BadInsn); }
      var value := if mode == IMM then i.k else if mode == LEN then v.wirelen else r.mem[i.k];
      return Go(pc, if Class(i.code) == LD then r.(a := value) else r.(x := value));
    }
    if Class(i.code) == LD {
      if (mode != ABS && mode != IND) || SizeBytes(i.code) == 0 { return Stop(BadInsn); }
      var off := i.k;
      if mode == IND {
        off := (r.x + i.k) % TWO32;
        if off < r.x { return Stop(Short); }     // wrapped: certainly out of range
      }
      var got := LoadView(v, off, SizeBytes(i.code));
      return SetA(pc, r, got);
    }
    if mode != MSH || Size(i.code) != B { return Stop(BadInsn); }
    var got := LoadView(v, i.k, 1);
    n := if got.None? then Stop(Short) else Go(pc, r.(x := And32(got.value, 0x0F) * 4));
  }

  /** ami_bpf_filter_view: the interpreter loop over a segmented view. */
  method FilterView(prog: seq<Insn>, v: View) returns (result: u32)
    requires v.Valid()
    ensures result == Filter(prog, v.ToPacket())
  {
    if prog == [] { return TWO32 - 1; }
    var r := ZERO_REGS;
    var pc := 0;
    while pc < |prog|
      invariant pc <= |prog|
      invariant Exec(prog, v.ToPacket(), pc, r) == Exec(prog, v.ToPacket(), 0, ZERO_REGS)
      decreases |prog| - pc
    {
      var i := prog[pc];
      var c := Class(i.code);
      var n: Next;
      if c == LD || c == LDX {
        n := LoadInsn(i, v, pc + 1, r);
      } else {
        n := Step(|prog|, Packet([], 0), i, pc + 1, r);
        assert n == Step(|prog|, v.ToPacket(), i, pc + 1, r);
      }
      if n.Stop? { return n.v.Value(); }
      pc, r := n.pc, n.r;
    }
    result := 0;
  }

  // ---------------------------------------------------------------- the validator

  predicate IsConditional(op: nat) {
    op == JEQ || op == JGT || op == JGE || op == JSET
  }

  /** What is demanded of one instruction with `room` instructions after it. */
  predicate InsnOk(i: Insn, room: nat) {
    var c, m := Class(i.code), Mode(i.code);
    if c == LD || c == LDX then
      if m == ABS || m == IND then c == LD && SizeBytes(i.code) != 0
      else if m == IMM || m == LEN then Size(i.code) == W
      else if m == MEM then Size(i.code) == W && i.k < MEMWORDS
      else m == MSH && c == LDX && Size(i.code) == B
    else if c == ST || c == STX then Size(i.code) == 0 && m == 0 && i.k < MEMWORDS
    else if c == ALU then Op(i.code) <= NEG && !(Op(i.code) == DIV && !SrcX(i.code) && i.k == 0)
    else if c == JMP then
      if Op(i.code) == JA then i.k < room
      else IsConditional(Op(i.code)) && i.jt < room && i.jf < room
    else if c == RET then Size(i.code) == RET_K || Size(i.code) == RET_A
    else MiscOp(i.code) == TAX || MiscOp(i.code) == TXA
  }

  ghost predicate ValidProgram(prog: seq<Insn>) {
    && 0 < |prog| <= 512
    && (forall i :: 0 <= i < |prog| ==> InsnOk(prog[i], |prog| - (i + 1)))
    && Class(prog[|prog| - 1].code) == RET
  }

  /** ami_bpf_validate */
  method Validate(prog: seq<Insn>) returns (ok: bool)
    ensures ok <==> ValidProgram(prog)
  {
    if |prog| == 0 || |prog| > MAXINSNS { return false; }
    for i := 0 to |prog|
      invariant forall j :: 0 <= j < i ==> InsnOk(prog[j], |prog| - (j + 1))
    {
      if !InsnOk(prog[i], |prog| - (i + 1)) { return false; }
    }
    ok := Class(prog[|prog| - 1].code) == RET;
  }

  /** One accepted instruction never stops as unimplemented and stays inside the program. */
  lemma ValidStep(count: nat, pkt: Packet, i: Insn, pc: nat, r: Regs)
    requires pc <= count && InsnOk(i, count - pc)
    requires pc == count ==> Class(i.code) == RET
    ensures var n := Step(count, pkt, i, pc, r);
            if n.Stop? then !n.v.BadInsn? && !n.v.FellOff? else n.pc < count
    ensures var n := Step(count, pkt, i, pc, r);
            n.Stop? && n.v.DivideByZero? ==> SrcX(i.code) && r.x == 0
  {
  }

  /**
    The validator's promise: a program it accepts never meets an instruction the interpreter
    does not implement, never jumps out and never runs off the end, whatever the packet and
    the registers; it rejects a packet silently only for a short packet or X == 0 as divisor.
   */
  lemma {:induction false} ValidatedRunsClean(prog: seq<Insn>, pkt: Packet, pc: nat, r: Regs)
    requires ValidProgram(prog) && pc < |prog|
    ensures var v := Exec(prog, pkt, pc, r); v.Keep? || v.Short? || v.DivideByZero?
    decreases |prog| - pc
  {
    ValidStep(|prog|, pkt, prog[pc], pc + 1, r);
    var n := Step(|prog|, pkt, prog[pc], pc + 1, r);
    if n.Go? {
      ValidatedRunsClean(prog, pkt, n.pc, n.r);
    }
  }
}
